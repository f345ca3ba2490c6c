/**
  Expansion of the macros of a custom diff command (src/runner.cpp, src/utils.h).

  The program expands each macro with its own find-and-replace loop, which rescans the
  whole string after every replacement.  What the user wants is one simultaneous pass.
  The two agree on every command exactly when no path can help to spell a macro.
 */
module DiffCommand {
  import opened Options

  datatype Rule = Rule(macro: string, path: string)

  /** `m` occurs in `s` at index `i`. */
  predicate OccursAt(s: string, m: string, i: int) {
    0 <= i <= |s| && m <= s[i..]
  }

  ghost predicate Absent(s: string, m: string) {
    forall i :: !OccursAt(s, m, i)
  }

  ghost predicate AbsentBefore(s: string, m: string, n: nat) {
    forall i :: 0 <= i < n ==> !OccursAt(s, m, i)
  }

  /** std::string::find started at index `i`: the first occurrence, if any. */
  function FindFrom(s: string, m: string, i: nat): (r: Option<nat>)
    requires i <= |s|
    ensures r.Some? ==> i <= r.value && OccursAt(s, m, r.value)
    ensures r.Some? ==> forall x :: i <= x < r.value ==> !OccursAt(s, m, x)
    ensures r.None? ==> forall x :: i <= x ==> !OccursAt(s, m, x)
    decreases |s| - i
  {
    if OccursAt(s, m, i) then Some(i)
    else if i == |s| then None
    else FindFrom(s, m, i + 1)
  }

  function Find(s: string, m: string): Option<nat> {
    FindFrom(s, m, 0)
  }

  /** std::string::replace of one occurrence. */
  function ReplaceAt(s: string, i: nat, r: Rule): string
    requires OccursAt(s, r.macro, i)
  {
    s[..i] + r.path + s[i + |r.macro|..]
  }

  // ---------------------------------------------------------------- the loop as written

  /** One iteration of the loop; the string stays put once the macro is gone. */
  ghost function Step(s: string, r: Rule): string {
    var pos := Find(s, r.macro);
    if pos.None? then s else ReplaceAt(s, pos.value, r)
  }

  ghost function Steps(s: string, r: Rule, n: nat): string {
    if n == 0 then s else Step(Steps(s, r, n - 1), r)
  }

  /** The loop has exited after at most `n` iterations. */
  ghost predicate Settles(s: string, r: Rule, n: nat) {
    Find(Steps(s, r, n), r.macro).None?
  }

  /** The loop, started on `s`, ends with `res`. */
  ghost predicate LoopYields(s: string, r: Rule, res: string) {
    exists n: nat :: Settles(s, r, n) && res == Steps(s, r, n)
  }

  method StrReplace(str: string, r: Rule) returns (res: string)
    requires exists end :: LoopYields(str, r, end)  // on any other input the loop never ends
    ensures LoopYields(str, r, res)
  {
    hide OccursAt;
    ghost var end :| LoopYields(str, r, end);
    ghost var bound: nat :| Settles(str, r, bound) && end == Steps(str, r, bound);
    ghost var n: nat := 0;
    res := str;
    var pos := Find(res, r.macro);
    while pos.Some?
      invariant n <= bound
      invariant res == Steps(str, r, n)
      invariant pos == Find(res, r.macro)
      decreases bound - n
    {
      res := ReplaceAt(res, pos.value, r);
      pos := Find(res, r.macro);
      n := n + 1;
    }
    assert Settles(str, r, n);
  }

  /** `r` is what the successive loops produce, one loop for each rule, in order. */
  ghost predicate ExpandsTo(s: string, rules: seq<Rule>, r: string)
    decreases |rules|
  {
    if rules == [] then r == s else
    var last := |rules| - 1;
    exists t :: ExpandsTo(s, rules[..last], t) && LoopYields(t, rules[last], r)
  }

  lemma {:induction false} StepsMonotone(s: string, r: Rule, m: nat, n: nat)
    requires Settles(s, r, m) && m <= n
    ensures Steps(s, r, n) == Steps(s, r, m)
    decreases n
  {
    if m < n {
      StepsMonotone(s, r, m, n - 1);
      assert Step(Steps(s, r, m), r) == Steps(s, r, m);
    }
  }

  lemma LoopYieldsUnique(s: string, r: Rule, r1: string, r2: string)
    requires LoopYields(s, r, r1) && LoopYields(s, r, r2)
    ensures r1 == r2
  {
    var n1: nat :| Settles(s, r, n1) && r1 == Steps(s, r, n1);
    var n2: nat :| Settles(s, r, n2) && r2 == Steps(s, r, n2);
    if n1 <= n2 { StepsMonotone(s, r, n1, n2); } else { StepsMonotone(s, r, n2, n1); }
  }

  /** The loops are deterministic: there is at most one final string. */
  lemma {:induction false} ExpandsToUnique(s: string, rules: seq<Rule>, r1: string, r2: string)
    requires ExpandsTo(s, rules, r1) && ExpandsTo(s, rules, r2)
    ensures r1 == r2
    decreases |rules|
  {
    if rules != [] {
      var last := |rules| - 1;
      var t1 :| ExpandsTo(s, rules[..last], t1) && LoopYields(t1, rules[last], r1);
      var t2 :| ExpandsTo(s, rules[..last], t2) && LoopYields(t2, rules[last], r2);
      ExpandsToUnique(s, rules[..last], t1, t2);
      LoopYieldsUnique(t1, rules[last], r1, r2);
    }
  }

  // ---------------------------------------------------------------- when the loops end

  function Percents(s: string): nat {
    if s == "" then 0 else Percents(s[1..]) + if s[0] == '%' then 1 else 0
  }

  lemma {:induction false} PercentsAppend(a: string, b: string)
    ensures Percents(a + b) == Percents(a) + Percents(b)
  {
    if a == "" {
      assert a + b == b;
    } else {
      assert (a + b)[1..] == a[1..] + b;
      PercentsAppend(a[1..], b);
    }
  }

  lemma {:induction false} NoPercents(s: string)
    requires '%' !in s
    ensures Percents(s) == 0
  {
    if s != "" { NoPercents(s[1..]); }
  }

  /** Every replacement by a path without '%' takes one '%' away. */
  lemma ReplacingFalls(s: string, i: nat, r: Rule)
    requires OccursAt(s, r.macro, i) && IsMacro(r.macro) && '%' !in r.path
    ensures Percents(ReplaceAt(s, i, r)) + 1 == Percents(s)
  {
    var rest := s[i + |r.macro|..];
    assert s == s[..i] + (r.macro + rest);
    assert ReplaceAt(s, i, r) == s[..i] + (r.path + rest);
    PercentsAppend(s[..i], r.macro + rest);
    PercentsAppend(r.macro, rest);
    PercentsAppend(s[..i], r.path + rest);
    PercentsAppend(r.path, rest);
    NoPercents(r.path);
    NoPercents(r.macro[1..]);
  }

  lemma {:induction false} StepsFall(s: string, r: Rule, n: nat)
    requires IsMacro(r.macro) && '%' !in r.path
    ensures Settles(s, r, n) || Percents(Steps(s, r, n)) + n == Percents(s)
    decreases n
  {
    if n > 0 {
      hide IsMacro, OccursAt, ReplaceAt;
      StepsFall(s, r, n - 1);
      var t := Steps(s, r, n - 1);
      var pos := Find(t, r.macro);
      if pos.Some? { ReplacingFalls(t, pos.value, r); }
    }
  }

  /** A path without '%' makes the loop end on every string, whether or not it can help to spell the macro. */
  lemma LoopEnds(s: string, r: Rule) returns (res: string)
    requires IsMacro(r.macro) && '%' !in r.path
    ensures LoopYields(s, r, res)
  {
    var n := Percents(s) + 1;
    StepsFall(s, r, n);
    res := Steps(s, r, n);
  }

  /** So do all the loops, one after the other. */
  lemma {:induction false} ExpansionEnds(s: string, rules: seq<Rule>) returns (res: string)
    requires forall r :: r in rules ==> IsMacro(r.macro) && '%' !in r.path
    ensures ExpandsTo(s, rules, res)
    decreases |rules|
  {
    if rules == [] {
      res := s;
    } else {
      var last := |rules| - 1;
      var t := ExpansionEnds(s, rules[..last]);
      res := LoopEnds(t, rules[last]);
    }
  }

  // ---------------------------------------------------------------- the intended meaning

  function MatchingRule(s: string, rules: seq<Rule>): (r: Option<Rule>)
    ensures r.Some? ==> r.value in rules && r.value.macro <= s
    ensures r.None? ==> forall x :: x in rules ==> !(x.macro <= s)
  {
    if rules == [] then None
    else if rules[0].macro <= s then Some(rules[0])
    else MatchingRule(s, rules[1..])
  }

  /** Simultaneous substitution: the text is read once and inserted text is never read again. */
  function OnePass(s: string, rules: seq<Rule>): string
    requires forall x :: x in rules ==> x.macro != ""
  {
    if s == "" then "" else
    var r := MatchingRule(s, rules);
    if r.None? then [s[0]] + OnePass(s[1..], rules)
    else r.value.path + OnePass(s[|r.value.macro|..], rules)
  }

  /** A macro is a '%' followed by other characters. */
  predicate IsMacro(m: string) {
    m != "" && m[0] == '%' && forall i :: 1 <= i < |m| ==> m[i] != '%'
  }

  /** No macro is the start of another one. */
  ghost predicate WellFormed(rules: seq<Rule>) {
    && (forall r :: r in rules ==> IsMacro(r.macro))
    && (forall i, j :: 0 <= i < |rules| && 0 <= j < |rules| && i != j ==> !(rules[i].macro <= rules[j].macro))
  }

  /** Laid over `p` with its first character at offset `d`, `m` agrees with `p` wherever both are defined. */
  predicate AgreesAt(m: string, p: string, d: int) {
    forall i :: 0 <= i < |m| && 0 <= d + i < |p| ==> m[i] == p[d + i]
  }

  /** Some text around an inserted `p` would spell `m` with the help of `p`. */
  predicate Clash(m: string, p: string) {
    exists d | -|m| < d < |p| :: AgreesAt(m, p, d)
  }

  /** No path can help to spell a macro that its own loop or a later loop looks for. */
  ghost predicate Harmless(rules: seq<Rule>) {
    forall k, j :: 0 <= k <= j < |rules| ==> !Clash(rules[j].macro, rules[k].path)
  }

  // ---------------------------------------------------------------- one loop is one pass

  /** No rule applies before index `n`. */
  ghost predicate Quiet(s: string, rules: seq<Rule>, n: nat) {
    forall r :: r in rules ==> AbsentBefore(s, r.macro, n)
  }

  lemma QuietStep(s: string, rules: seq<Rule>, n: nat)
    requires 0 < n <= |s| && Quiet(s, rules, n)
    ensures MatchingRule(s, rules).None? && Quiet(s[1..], rules, n - 1)
  {
    assert s[0..] == s;
    forall x | x in rules ensures !(x.macro <= s) && AbsentBefore(s[1..], x.macro, n - 1) {
      assert !OccursAt(s, x.macro, 0);
      forall i | 0 <= i < n - 1 ensures !OccursAt(s[1..], x.macro, i) {
        assert !OccursAt(s, x.macro, i + 1);
        assert s[1..][i..] == s[i + 1..];
      }
    }
  }

  /** Text in which no macro starts is copied. */
  lemma {:induction false} OnePassCopies(s: string, n: nat, rules: seq<Rule>)
    requires forall x :: x in rules ==> x.macro != ""
    requires n <= |s| && Quiet(s, rules, n)
    ensures OnePass(s, rules) == s[..n] + OnePass(s[n..], rules)
  {
    hide Quiet, MatchingRule;
    if n == 0 {
      assert s[0..] == s;
    } else {
      QuietStep(s, rules, n);
      OnePassCopies(s[1..], n - 1, rules);
      assert s[1..][n - 1..] == s[n..];
      assert s[..n] == [s[0]] + s[1..][..n - 1];
    }
  }

  lemma QuietTextKept(s: string, rules: seq<Rule>)
    requires forall x :: x in rules ==> x.macro != ""
    requires Quiet(s, rules, |s|)
    ensures OnePass(s, rules) == s
  {
    OnePassCopies(s, |s|, rules);
    assert s[..|s|] == s && s[|s|..] == "";
  }

  /** A macro that starts before the end of an inserted path but not wholly before it clashes with the path. */
  lemma OverlapClashes(x: string, p: string, y: string, m: string, i: nat)
    requires OccursAt(x + p + y, m, i)
    requires i < |x| + |p| && |x| < i + |m|
    ensures Clash(m, p)
  {
    var t := x + p + y;
    var d := i - |x|;
    forall a | 0 <= a < |m| && 0 <= d + a < |p| ensures m[a] == p[d + a] {
      assert m[a] == t[i..][a] == t[i + a];
    }
    assert AgreesAt(m, p, d);
  }

  /** Text that was not inserted was there already. */
  lemma OccursAround(x: string, p: string, y: string, m: string, i: nat)
    requires OccursAt(x + p + y, m, i) && !Clash(m, p)
    ensures OccursAt(x, m, i) || (|x| + |p| <= i && OccursAt(y, m, i - |x| - |p|))
  {
    var t := x + p + y;
    if i + |m| <= |x| {
      assert t[i..][..|m|] == x[i..][..|m|];
    } else if |x| + |p| <= i {
      assert t[i..] == y[i - |x| - |p|..];
    } else {
      OverlapClashes(x, p, y, m, i);
    }
  }

  lemma OccursInPart(x: string, y: string, m: string, i: nat)
    ensures OccursAt(x, m, i) ==> OccursAt(x + y, m, i)
    ensures OccursAt(y, m, i) <==> OccursAt(x + y, m, |x| + i)
  {
    if OccursAt(x, m, i) { assert (x + y)[i..] == x[i..] + y; }
    if i <= |y| { assert (x + y)[|x| + i..] == y[i..]; }
  }

  lemma ReplacingKeepsAbsent(s: string, i: nat, r: Rule, m: string)
    requires OccursAt(s, r.macro, i) && Absent(s, m) && !Clash(m, r.path)
    ensures Absent(ReplaceAt(s, i, r), m)
  {
    var x, y := s[..i], s[i + |r.macro|..];
    forall a | OccursAt(ReplaceAt(s, i, r), m, a) ensures false {
      OccursAround(x, r.path, y, m, a);
      assert x + s[i..] == s && s[..i + |r.macro|] + y == s;
      OccursInPart(x, s[i..], m, a);
      if |x| + |r.path| <= a { OccursInPart(s[..i + |r.macro|], y, m, a - |x| - |r.path|); }
    }
  }

  /** One pass up to the first occurrence. */
  lemma OnePassToFirst(s: string, at: nat, r: Rule)
    requires r.macro != "" && OccursAt(s, r.macro, at) && AbsentBefore(s, r.macro, at)
    ensures OnePass(s, [r]) == s[..at] + r.path + OnePass(s[at + |r.macro|..], [r])
  {
    OnePassCopies(s, at, [r]);
    assert s[at..][|r.macro|..] == s[at + |r.macro|..];
  }

  /** The first replacement, seen as finished text, then what is left to read. */
  lemma FirstReplacement(done: string, rest: string, r: Rule, at: nat)
    requires OccursAt(done + rest, r.macro, |done| + at)
    ensures OccursAt(rest, r.macro, at)
    ensures ReplaceAt(done + rest, |done| + at, r) == done + rest[..at] + r.path + rest[at + |r.macro|..]
  {
    var s := done + rest;
    assert s[|done| + at..] == rest[at..];
    assert s[|done| + at + |r.macro|..] == rest[at + |r.macro|..];
  }

  lemma AbsentInRest(done: string, rest: string, m: string, n: nat)
    requires AbsentBefore(done + rest, m, |done| + n)
    ensures AbsentBefore(rest, m, n)
  {
    forall i | 0 <= i < n ensures !OccursAt(rest, m, i) { OccursInPart(done, rest, m, i); }
  }

  lemma FinishedPart(x: string, y: string, y': string, r: Rule)
    requires r.macro != "" && !Clash(r.macro, r.path) && AbsentBefore(x + y, r.macro, |x|)
    ensures AbsentBefore(x + r.path + y', r.macro, |x| + |r.path|)
  {
    forall i | 0 <= i < |x| + |r.path| ensures !OccursAt(x + r.path + y', r.macro, i) {
      OccursInPart(x, y, r.macro, i);
      if OccursAt(x + r.path + y', r.macro, i) { OccursAround(x, r.path, y', r.macro, i); }
    }
  }

  /** The loop, started on a string whose first part is finished, ends with the one-pass result. */
  lemma {:induction false} LoopIsOnePass(done: string, rest: string, r: Rule)
    requires r.macro != "" && !Clash(r.macro, r.path)
    requires AbsentBefore(done + rest, r.macro, |done|)
    ensures LoopYields(done + rest, r, done + OnePass(rest, [r]))
    decreases |rest|
  {
    hide OccursAt, OnePass, ReplaceAt;
    var s := done + rest;
    var pos := Find(s, r.macro);
    if pos.None? {
      AbsentInRest(done, rest, r.macro, |rest|);
      QuietTextKept(rest, [r]);
      assert Settles(s, r, 0);
    } else {
      var at := pos.value - |done|;
      AbsentInRest(done, rest, r.macro, at);
      FirstReplacement(done, rest, r, at);
      OnePassToFirst(rest, at, r);
      var done', rest' := done + rest[..at] + r.path, rest[at + |r.macro|..];
      assert done + rest[..at] + rest[at..] == s;
      FinishedPart(done + rest[..at], rest[at..], rest', r);
      LoopIsOnePass(done', rest', r);
      LoopContinues(s, r, done' + OnePass(rest', [r]));
    }
  }

  lemma LoopContinues(s: string, r: Rule, res: string)
    requires LoopYields(Step(s, r), r, res)
    ensures LoopYields(s, r, res)
  {
    var n: nat :| Settles(Step(s, r), r, n) && res == Steps(Step(s, r), r, n);
    StepsShift(s, r, n);
    assert Settles(s, r, n + 1);
  }

  lemma {:induction false} StepsShift(s: string, r: Rule, n: nat)
    ensures Steps(s, r, n + 1) == Steps(Step(s, r), r, n)
  {
    if n > 0 { StepsShift(s, r, n - 1); }
  }

  // ---------------------------------------------------------------- the loops compose

  /** A proper tail of a macro can appear at the start of expanded text only by being copied. */
  lemma {:induction false} TailIsCopied(m: string, i: int, s: string, rules: seq<Rule>)
    requires WellFormed(rules) && 1 <= i <= |m|
    requires forall r :: r in rules ==> !Clash(m, r.path)
    requires m[i..] <= OnePass(s, rules)
    ensures m[i..] <= s
    decreases |m| - i
  {
    if i < |m| {
      var r := MatchingRule(s, rules);
      if s != "" && r.Some? {
        var p := r.value.path;
        forall a | 0 <= a < |m| && 0 <= -i + a < |p| ensures m[a] == p[-i + a] {
          assert m[a] == m[i..][a - i] == OnePass(s, rules)[a - i];
        }
        assert AgreesAt(m, p, -i);
      } else {
        assert m[i..][0] == s[0];
        assert m[i + 1..] == m[i..][1..];
        TailIsCopied(m, i + 1, s[1..], rules);
        assert m[i..] == [m[i]] + m[i + 1..];
        assert s == [s[0]] + s[1..];
      }
    }
  }

  /** Substituting `r` next skips an inserted path. */
  lemma SkipPath(p: string, tail: string, r: Rule)
    requires r.macro != "" && !Clash(r.macro, p)
    ensures OnePass(p + tail, [r]) == p + OnePass(tail, [r])
  {
    assert "" + p + tail == p + tail;
    forall i | 0 <= i < |p| ensures !OccursAt(p + tail, r.macro, i) {
      if OccursAt(p + tail, r.macro, i) { OverlapClashes("", p, tail, r.macro, i); }
    }
    OnePassCopies(p + tail, |p|, [r]);
  }

  /** A macro without a rule yet is copied by the rules there are. */
  lemma CopyMacro(s: string, rules: seq<Rule>, m: string)
    requires WellFormed(rules) && IsMacro(m) && m <= s && MatchingRule(s, rules).None?
    ensures OnePass(s, rules) == m + OnePass(s[|m|..], rules)
  {
    forall x, i | x in rules && 0 <= i < |m| ensures !OccursAt(s, x.macro, i) {
      assert s[i] == m[i] && s[0..] == s;
    }
    OnePassCopies(s, |m|, rules);
  }

  lemma {:induction false} OnePassComposes(s: string, rules: seq<Rule>, r: Rule)
    requires WellFormed(rules + [r])
    requires forall x :: x in rules ==> !Clash(r.macro, x.path)
    ensures WellFormed(rules) && IsMacro(r.macro)
    ensures OnePass(OnePass(s, rules), [r]) == OnePass(s, rules + [r])
    decreases |s|
  {
    PrefixWellFormed(rules, r);
    var m := r.macro;
    if s != "" {
      var hit := MatchingRule(s, rules);
      MatchingRuleExtends(s, rules, r);
      if hit.Some? {
        var rest := s[|hit.value.macro|..];
        SkipPath(hit.value.path, OnePass(rest, rules), r);
        OnePassComposes(rest, rules, r);
      } else if m <= s {
        var rest := s[|m|..];
        CopyMacro(s, rules, m);
        var t := m + OnePass(rest, rules);
        assert MatchingRule(t, [r]) == Some(r);
        assert t[|m|..] == OnePass(rest, rules);
        OnePassComposes(rest, rules, r);
      } else {
        var tail := OnePass(s[1..], rules);
        MacroNotSpelled(m, s, rules);
        assert ([s[0]] + tail)[1..] == tail;
        OnePassComposes(s[1..], rules, r);
      }
    }
  }

  lemma MacroNotSpelled(m: string, s: string, rules: seq<Rule>)
    requires WellFormed(rules) && IsMacro(m) && s != "" && !(m <= s)
    requires forall r :: r in rules ==> !Clash(m, r.path)
    ensures !(m <= [s[0]] + OnePass(s[1..], rules))
  {
    hide OnePass, Clash;
    assert m == [m[0]] + m[1..] && s == [s[0]] + s[1..];
    if m[1..] <= OnePass(s[1..], rules) { TailIsCopied(m, 1, s[1..], rules); }
  }

  lemma PrefixWellFormed(rules: seq<Rule>, r: Rule)
    requires WellFormed(rules + [r])
    ensures WellFormed(rules) && IsMacro(r.macro)
  {
    var all := rules + [r];
    assert all[|rules|] == r && r in all;
    forall x | x in rules ensures IsMacro(x.macro) { assert x in all; }
    forall i, j | 0 <= i < |rules| && 0 <= j < |rules| && i != j
      ensures !(rules[i].macro <= rules[j].macro)
    {
      assert all[i] == rules[i] && all[j] == rules[j];
    }
  }

  lemma {:induction false} MatchingRuleExtends(s: string, rules: seq<Rule>, r: Rule)
    ensures MatchingRule(s, rules + [r]) ==
            if MatchingRule(s, rules).Some? then MatchingRule(s, rules)
            else if r.macro <= s then Some(r) else None
  {
    if rules != [] {
      MatchingRuleExtends(s, rules[1..], r);
      assert (rules + [r])[1..] == rules[1..] + [r];
    }
  }

  /** When the paths are harmless, the loops end and do what one pass does. */
  lemma {:induction false} HarmlessSuffices(s: string, rules: seq<Rule>)
    requires WellFormed(rules) && Harmless(rules)
    ensures ExpandsTo(s, rules, OnePass(s, rules))
    decreases |rules|
  {
    if rules == [] {
      QuietTextKept(s, []);
    } else {
      hide OnePass, WellFormed, Harmless, Clash, LoopYields, ExpandsTo;
      var last := |rules| - 1;
      var front, r := rules[..last], rules[last];
      assert rules == front + [r];
      PrefixWellFormed(front, r);
      PrefixHarmless(front, r);
      HarmlessSuffices(s, front);
      LastLoop(s, front, r);
      ExpandsToSnoc(s, front, r, OnePass(s, front), OnePass(s, front + [r]));
    }
  }

  lemma PrefixHarmless(rules: seq<Rule>, r: Rule)
    requires Harmless(rules + [r])
    ensures Harmless(rules) && !Clash(r.macro, r.path) && forall x :: x in rules ==> !Clash(r.macro, x.path)
  {
    hide Clash;
    var all := rules + [r];
    assert all[|rules|] == r;
    assert forall k :: 0 <= k < |rules| ==> all[k] == rules[k];
    forall x | x in rules ensures !Clash(r.macro, x.path) {
      var k :| 0 <= k < |rules| && rules[k] == x;
      assert !Clash(all[|rules|].macro, all[k].path);
    }
  }

  lemma ExpandsToSnoc(s: string, rules: seq<Rule>, r: Rule, t: string, u: string)
    requires ExpandsTo(s, rules, t) && LoopYields(t, r, u)
    ensures ExpandsTo(s, rules + [r], u)
  {
    hide LoopYields;
    assert (rules + [r])[..|rules|] == rules;
  }

  lemma LastLoop(s: string, front: seq<Rule>, r: Rule)
    requires WellFormed(front + [r]) && !Clash(r.macro, r.path)
    requires forall x :: x in front ==> !Clash(r.macro, x.path)
    ensures WellFormed(front)
    ensures LoopYields(OnePass(s, front), r, OnePass(s, front + [r]))
  {
    OnePassComposes(s, front, r);
    var t := OnePass(s, front);
    assert "" + t == t && "" + OnePass(t, [r]) == OnePass(t, [r]);
    LoopIsOnePass("", t, r);
  }

  // ---------------------------------------------------------------- and only then

  /** A macro that is absent stays absent while its paths are harmless to it. */
  lemma {:induction false} StepsKeepAbsent(s: string, r: Rule, n: nat, m: string)
    requires Absent(s, m) && !Clash(m, r.path)
    ensures Absent(Steps(s, r, n), m)
  {
    if n > 0 {
      StepsKeepAbsent(s, r, n - 1, m);
      var t := Steps(s, r, n - 1);
      var pos := Find(t, r.macro);
      if pos.Some? { ReplacingKeepsAbsent(t, pos.value, r, m); }
    }
  }

  lemma LoopKeepsAbsent(s: string, r: Rule, res: string, m: string)
    requires LoopYields(s, r, res) && Absent(s, m) && !Clash(m, r.path)
    ensures Absent(res, m)
  {
    var n: nat :| Settles(s, r, n) && res == Steps(s, r, n);
    StepsKeepAbsent(s, r, n, m);
  }

  lemma {:induction false} ExpansionKeepsAbsent(s: string, rules: seq<Rule>, r: string, m: string)
    requires ExpandsTo(s, rules, r) && Absent(s, m)
    requires forall x :: x in rules ==> !Clash(m, x.path)
    ensures Absent(r, m)
    decreases |rules|
  {
    if rules != [] {
      var last := |rules| - 1;
      var t :| ExpandsTo(s, rules[..last], t) && LoopYields(t, rules[last], r);
      ExpansionKeepsAbsent(s, rules[..last], t, m);
      LoopKeepsAbsent(t, rules[last], r, m);
    }
  }

  /** Among the harmful pairs there is one whose macro is looked for last. */
  lemma {:induction false} LastHarm(rules: seq<Rule>, top: nat) returns (k: nat, j: nat)
    requires top <= |rules|
    requires forall l, i :: top <= l < |rules| && 0 <= i <= l ==> !Clash(rules[l].macro, rules[i].path)
    requires !Harmless(rules)
    ensures k <= j < |rules| && Clash(rules[j].macro, rules[k].path)
    ensures forall l, i :: j < l < |rules| && 0 <= i <= l ==> !Clash(rules[l].macro, rules[i].path)
    decreases top
  {
    if top == 0 {
      assert false;
    } else if i :| 0 <= i <= top - 1 && Clash(rules[top - 1].macro, rules[i].path) {
      k, j := i, top - 1;
    } else {
      k, j := LastHarm(rules, top - 1);
    }
  }

  /** A final string lacks the macro of loop `j` when no later loop can bring anything to work on. */
  lemma {:induction false} FinalLacks(s: string, rules: seq<Rule>, r: string, j: nat)
    requires j < |rules| && ExpandsTo(s, rules, r)
    requires forall l, i :: j < l < |rules| && 0 <= i <= l ==> !Clash(rules[l].macro, rules[i].path)
    requires forall l :: j < l < |rules| ==> Absent(s, rules[l].macro)
    ensures Absent(r, rules[j].macro)
    decreases |rules|
  {
    var last := |rules| - 1;
    var t :| ExpandsTo(s, rules[..last], t) && LoopYields(t, rules[last], r);
    if j < last {
      FinalLacks(s, rules[..last], t, j);
      ExpansionKeepsAbsent(s, rules[..last], t, rules[last].macro);
      assert Settles(t, rules[last], 0);
      LoopYieldsUnique(t, rules[last], r, t);
    }
  }

  /** A command that spells macro `j` around the path of macro `k`. */
  lemma HarmWitness(rules: seq<Rule>, k: nat, j: nat) returns (s: string)
    requires WellFormed(rules) && k < |rules| && j < |rules|
    requires Clash(rules[j].macro, rules[k].path)
    ensures forall l :: 0 <= l < |rules| && l != k ==> Absent(s, rules[l].macro)
    ensures !Absent(OnePass(s, rules), rules[j].macro)
  {
    var m, p := rules[j].macro, rules[k].path;
    assert rules[j] in rules;
    var d: int :| -|m| < d < |p| && AgreesAt(m, p, d);
    var a := if d < 0 then m[..-d] else "";
    var b := if |p| - d < |m| then m[|p| - d..] else "";
    s := a + rules[k].macro + b;
    assert '%' !in b;
    WitnessMacros(rules, k, a, b, m);
    WitnessOnePass(rules, k, a, b);
    SpelledAround(a, p, b, m, d);
  }

  lemma SpelledAround(a: string, p: string, b: string, m: string, d: int)
    requires -|m| < d < |p| && AgreesAt(m, p, d)
    requires a == if d < 0 then m[..-d] else ""
    requires b == if |p| - d < |m| then m[|p| - d..] else ""
    ensures OccursAt(a + p + b, m, |a| + d)
  {
    assert (a + p + b)[|a| + d..][..|m|] == m;
  }

  /** The macro of rule `k`, at `at`, is the only one in `s`. */
  ghost predicate OnlyMacro(s: string, rules: seq<Rule>, k: nat, at: nat) {
    forall l, i :: 0 <= l < |rules| && OccursAt(s, rules[l].macro, i) ==> l == k && i == at
  }

  lemma WitnessMacros(rules: seq<Rule>, k: nat, a: string, b: string, m: string)
    requires WellFormed(rules) && k < |rules| && (exists r :: r in rules && r.macro == m)
    requires a <= m && |a| < |m| && '%' !in b
    ensures OnlyMacro(a + rules[k].macro + b, rules, k, |a|)
  {
    var mk := rules[k].macro;
    var r :| r in rules && r.macro == m;
    var j :| 0 <= j < |rules| && rules[j] == r;
    forall l, i | 0 <= l < |rules| && OccursAt(a + mk + b, rules[l].macro, i) ensures l == k && i == |a| {
      assert rules[l] in rules && rules[j] in rules && rules[k] in rules;
      assert rules[l].macro <= m ==> l == j;
      MacroPlace(a, mk, b, m, rules[l].macro, i);
    }
  }

  lemma OnlyMacroFound(s: string, rules: seq<Rule>, k: nat, at: nat)
    requires k < |rules| && OnlyMacro(s, rules, k, at) && OccursAt(s, rules[k].macro, at)
    ensures Quiet(s, rules, at)
    ensures MatchingRule(s[at..], rules) == Some(rules[k])
  {
    forall x, i | x in rules && 0 <= i < at ensures !OccursAt(s, x.macro, i) {
      var l :| 0 <= l < |rules| && rules[l] == x;
    }
    forall x | x in rules && x.macro <= s[at..] ensures x == rules[k] {
      var l :| 0 <= l < |rules| && rules[l] == x;
      assert OccursAt(s, rules[l].macro, at);
    }
    OnlyRule(s[at..], rules, rules[k]);
  }

  lemma WitnessOnePass(rules: seq<Rule>, k: nat, a: string, b: string)
    requires WellFormed(rules) && k < |rules| && '%' !in b
    requires OnlyMacro(a + rules[k].macro + b, rules, k, |a|)
    ensures OnePass(a + rules[k].macro + b, rules) == a + rules[k].path + b
  {
    assert rules[k] in rules;
    assert forall x :: x in rules ==> x.macro != "";
    hide WellFormed, OnlyMacro, OnePass, MatchingRule;
    var mk := rules[k].macro;
    assert a + mk + b == a + (mk + b);
    CopyUpTo(a, mk + b, a + mk + b, rules, k);
    OnePassHead(mk, b, rules, rules[k]);
    PlainTextCopied(b, rules);
  }

  lemma CopyUpTo(a: string, rest: string, s: string, rules: seq<Rule>, k: nat)
    requires forall x :: x in rules ==> x.macro != ""
    requires k < |rules| && s == a + rest && rules[k].macro <= rest && OnlyMacro(s, rules, k, |a|)
    ensures OnePass(s, rules) == a + OnePass(rest, rules) && MatchingRule(rest, rules) == Some(rules[k])
  {
    hide OnlyMacro, Quiet, OnePass, MatchingRule;
    assert s[..|a|] == a && s[|a|..] == rest;
    OccursAtTail(s, rules[k].macro, |a|);
    OnlyMacroFound(s, rules, k, |a|);
    OnePassCopies(s, |a|, rules);
  }

  lemma OccursAtTail(s: string, m: string, i: nat)
    requires i <= |s| && m <= s[i..]
    ensures OccursAt(s, m, i)
  {
  }

  lemma OnePassHead(m: string, rest: string, rules: seq<Rule>, r: Rule)
    requires forall x :: x in rules ==> x.macro != ""
    requires m != "" && m == r.macro && MatchingRule(m + rest, rules) == Some(r)
    ensures OnePass(m + rest, rules) == r.path + OnePass(rest, rules)
  {
    assert (m + rest)[|m|..] == rest;
  }

  lemma OnlyRule(s: string, rules: seq<Rule>, r: Rule)
    requires r in rules && r.macro <= s
    requires forall x :: x in rules && x.macro <= s ==> x == r
    ensures MatchingRule(s, rules) == Some(r)
  {
  }

  lemma PlainTextCopied(b: string, rules: seq<Rule>)
    requires WellFormed(rules) && '%' !in b
    ensures OnePass(b, rules) == b
  {
    forall x, i | x in rules && 0 <= i < |b| ensures !OccursAt(b, x.macro, i) {
      assert b[i] != '%';
    }
    QuietTextKept(b, rules);
  }

  /** In a + mk + b, with `a` a proper prefix and `b` a '%'-free tail of `m`, only mk is a macro. */
  lemma MacroPlace(a: string, mk: string, b: string, m: string, x: string, i: int)
    requires IsMacro(mk) && IsMacro(m) && IsMacro(x)
    requires a <= m && |a| < |m| && '%' !in b
    requires x <= m ==> x == m
    requires OccursAt(a + mk + b, x, i)
    ensures i == |a|
    ensures x <= mk || mk <= x
  {
    var s := a + mk + b;
    assert s[i..][0] == s[i];
    assert |a| < |x| ==> s[i..][|a|] == s[i + |a|];
    assert i == 0 ==> s[i..] == s;
  }

  /**
    The expansion as written is the simultaneous substitution, for every command, exactly
    when no path clashes with the macro of its own or a later loop.
   */
  lemma ExpansionIsOnePassIff(rules: seq<Rule>)
    requires WellFormed(rules)
    ensures (forall s :: ExpandsTo(s, rules, OnePass(s, rules))) <==> Harmless(rules)
  {
    if Harmless(rules) {
      forall s ensures ExpandsTo(s, rules, OnePass(s, rules)) { HarmlessSuffices(s, rules); }
    } else {
      var k, j := LastHarm(rules, |rules|);
      var s := HarmWitness(rules, k, j);
      if ExpandsTo(s, rules, OnePass(s, rules)) {
        FinalLacks(s, rules, OnePass(s, rules), j);
        assert false;
      }
    }
  }

  // ---------------------------------------------------------------- the four macros

  const ORIG_STDOUT := "%ORIG_STDOUT"
  const ORIG_STDERR := "%ORIG_STDERR"
  const TEST_STDOUT := "%TEST_STDOUT"
  const TEST_STDERR := "%TEST_STDERR"

  function DiffRules(origOut: string, origErr: string, testOut: string, testErr: string): seq<Rule> {
    [Rule(ORIG_STDOUT, origOut), Rule(ORIG_STDERR, origErr), Rule(TEST_STDOUT, testOut), Rule(TEST_STDERR, testErr)]
  }

  /** The guard a caller can check: an absolute path without '%'. */
  predicate PlainPath(p: string) {
    p != "" && p[0] == '/' && '%' !in p
  }

  predicate DiffMacro(m: string) {
    m in {ORIG_STDOUT, ORIG_STDERR, TEST_STDOUT, TEST_STDERR}
  }

  lemma DiffMacrosAreMacros(m: string)
    requires DiffMacro(m)
    ensures IsMacro(m) && |m| == 12 && '/' !in m
  {
  }

  lemma PlainPathNeverClashes(m: string, p: string)
    requires IsMacro(m) && '/' !in m && PlainPath(p)
    ensures !Clash(m, p)
  {
    forall d | -|m| < d < |p| ensures !AgreesAt(m, p, d) {
      if d <= 0 { assert m[-d] != p[0 + d + -d]; } else { assert m[0] != p[d + 0]; }
    }
  }

  /** Rules for distinct diff macros, in any order and number. */
  ghost predicate DiffRuleSet(rules: seq<Rule>) {
    && (forall i, j :: 0 <= i < j < |rules| ==> rules[i].macro != rules[j].macro)
    && (forall r :: r in rules ==> DiffMacro(r.macro))
  }

  lemma DiffRuleSetWellFormed(rules: seq<Rule>)
    requires DiffRuleSet(rules)
    ensures WellFormed(rules)
  {
    forall r | r in rules ensures IsMacro(r.macro) && |r.macro| == 12 && '/' !in r.macro {
      DiffMacrosAreMacros(r.macro);
    }
    forall i, j | 0 <= i < |rules| && 0 <= j < |rules| && i != j
      ensures !(rules[i].macro <= rules[j].macro)
    {
      assert rules[i] in rules && rules[j] in rules;
      assert rules[i].macro != rules[j].macro;
    }
  }

  lemma MatchUnique(s: string, rules: seq<Rule>, x: Rule, y: Rule)
    requires WellFormed(rules) && x in rules && y in rules && x.macro <= s && y.macro <= s
    ensures x == y
  {
    var i, j :| 0 <= i < |rules| && rules[i] == x && 0 <= j < |rules| && rules[j] == y;
    assert x.macro == s[..|x.macro|] && y.macro == s[..|y.macro|];
  }

  /** One pass reads the same result whatever the order of the rules. */
  lemma {:induction false} OnePassOrder(s: string, r1: seq<Rule>, r2: seq<Rule>)
    requires WellFormed(r1) && WellFormed(r2)
    requires forall r :: r in r1 <==> r in r2
    ensures OnePass(s, r1) == OnePass(s, r2)
    decreases |s|
  {
    if s != "" {
      var h1, h2 := MatchingRule(s, r1), MatchingRule(s, r2);
      if h1.Some? {
        assert h1.value in r2 && h2.Some? && h2.value in r1;
        MatchUnique(s, r1, h1.value, h2.value);
        OnePassOrder(s[|h1.value.macro|..], r1, r2);
      } else {
        OnePassOrder(s[1..], r1, r2);
      }
    }
  }

  /** With plain paths no loop order matters and no macro is left. */
  lemma PlainPathsExpand(s: string, rules: seq<Rule>, other: seq<Rule>)
    requires DiffRuleSet(rules) && DiffRuleSet(other) && (forall r :: r in rules <==> r in other)
    requires forall r :: r in rules ==> PlainPath(r.path)
    ensures WellFormed(rules) && ExpandsTo(s, rules, OnePass(s, rules))
    ensures ExpandsTo(s, other, OnePass(s, rules))
    ensures forall r :: r in rules ==> Absent(OnePass(s, rules), r.macro)
  {
    DiffRuleSetWellFormed(rules);
    DiffRuleSetWellFormed(other);
    forall r, x | r in rules && x in rules ensures !Clash(r.macro, x.path) {
      DiffMacrosAreMacros(r.macro);
      PlainPathNeverClashes(r.macro, x.path);
    }
    HarmlessSuffices(s, rules);
    HarmlessSuffices(s, other);
    OnePassOrder(s, rules, other);
    forall j | 0 <= j < |rules| ensures Absent(OnePass(s, rules), rules[j].macro) {
      LoopsRemove(s, rules, OnePass(s, rules), j);
    }
  }

  lemma {:induction false} LoopsRemove(s: string, rules: seq<Rule>, r: string, j: nat)
    requires j < |rules| && ExpandsTo(s, rules, r)
    requires forall x, y :: x in rules && y in rules ==> !Clash(x.macro, y.path)
    ensures Absent(r, rules[j].macro)
    decreases |rules|
  {
    var last := |rules| - 1;
    var t :| ExpandsTo(s, rules[..last], t) && LoopYields(t, rules[last], r);
    if j < last {
      LoopsRemove(s, rules[..last], t, j);
      assert rules[j] in rules;
      LoopKeepsAbsent(t, rules[last], r, rules[j].macro);
    }
  }

  /** With paths that have no '%', any clash shows: the loops end, and on some command not with the one pass. */
  lemma ClashShows(rules: seq<Rule>)
    requires WellFormed(rules) && !Harmless(rules) && forall r :: r in rules ==> '%' !in r.path
    ensures exists s, res :: ExpandsTo(s, rules, res) && res != OnePass(s, rules)
  {
    hide Clash, Harmless, ExpandsTo;
    ExpansionIsOnePassIff(rules);
    var s :| !ExpandsTo(s, rules, OnePass(s, rules));
    var res := ExpansionEnds(s, rules);
    assert ExpandsTo(s, rules, res) && res != OnePass(s, rules);
  }

  /** A relative path can finish a macro: the loops end with another string than the one pass. */
  lemma RelativePathDiffers()
    ensures WellFormed(DiffRules("OUT", "/e", "/o2", "/e2"))
    ensures exists s, res ::
              ExpandsTo(s, DiffRules("OUT", "/e", "/o2", "/e2"), res) &&
              res != OnePass(s, DiffRules("OUT", "/e", "/o2", "/e2"))
  {
    RelativePathClashes();
    ClashingPathShows("OUT", "/e", "/o2", "/e2");
  }

  lemma ClashingPathShows(origOut: string, origErr: string, testOut: string, testErr: string)
    requires Clash(ORIG_STDOUT, origOut)
    requires '%' !in origOut && '%' !in origErr && '%' !in testOut && '%' !in testErr
    ensures WellFormed(DiffRules(origOut, origErr, testOut, testErr))
    ensures exists s, res ::
              ExpandsTo(s, DiffRules(origOut, origErr, testOut, testErr), res) &&
              res != OnePass(s, DiffRules(origOut, origErr, testOut, testErr))
  {
    hide Clash, OnePass, ExpandsTo, WellFormed, OccursAt;
    var rules := DiffRules(origOut, origErr, testOut, testErr);
    DiffRulesDistinct(rules);
    DiffRuleSetWellFormed(rules);
    assert Clash(rules[0].macro, rules[0].path);
    ClashShows(rules);
  }

  lemma RelativePathClashes()
    ensures Clash(ORIG_STDOUT, "OUT")
  {
    assert AgreesAt(ORIG_STDOUT, "OUT", -9);
  }

  /** One pass copies text without '%', and puts the path of a rule in the place of its macro. */
  lemma MacroReplaced(a: string, b: string, rules: seq<Rule>, r: Rule)
    requires WellFormed(rules) && r in rules && '%' !in a
    ensures OnePass(a + r.macro + b, rules) == a + r.path + OnePass(b, rules)
  {
    var s := a + r.macro + b;
    assert s == a + (r.macro + b);
    forall x, i | x in rules && 0 <= i < |a| ensures !OccursAt(s, x.macro, i) {
      assert s[i] == a[i] && s[i..][0] == s[i];
    }
    OnePassCopies(s, |a|, rules);
    assert s[|a|..] == r.macro + b && s[..|a|] == a;
    forall x | x in rules && x.macro <= r.macro + b ensures x == r { MatchUnique(r.macro + b, rules, x, r); }
    OnlyRule(r.macro + b, rules, r);
    OnePassHead(r.macro, b, rules, r);
  }

  /** Each of the four macros stands for its own file, wherever it is in the command. */
  lemma MacrosStandFor(a: string, b: string, origOut: string, origErr: string, testOut: string, testErr: string)
    requires '%' !in a
    ensures WellFormed(DiffRules(origOut, origErr, testOut, testErr))
    ensures var rules := DiffRules(origOut, origErr, testOut, testErr);
            && OnePass(a + "%ORIG_STDOUT" + b, rules) == a + origOut + OnePass(b, rules)
            && OnePass(a + "%ORIG_STDERR" + b, rules) == a + origErr + OnePass(b, rules)
            && OnePass(a + "%TEST_STDOUT" + b, rules) == a + testOut + OnePass(b, rules)
            && OnePass(a + "%TEST_STDERR" + b, rules) == a + testErr + OnePass(b, rules)
            && OnePass(a, rules) == a
  {
    var rules := DiffRules(origOut, origErr, testOut, testErr);
    hide OnePass, WellFormed;
    DiffRulesDistinct(rules);
    DiffRuleSetWellFormed(rules);
    assert rules[0] == Rule("%ORIG_STDOUT", origOut) && rules[1] == Rule("%ORIG_STDERR", origErr);
    assert rules[2] == Rule("%TEST_STDOUT", testOut) && rules[3] == Rule("%TEST_STDERR", testErr);
    MacroReplaced(a, b, rules, rules[0]);
    MacroReplaced(a, b, rules, rules[1]);
    MacroReplaced(a, b, rules, rules[2]);
    MacroReplaced(a, b, rules, rules[3]);
    PlainTextCopied(a, rules);
  }

  method ExpandDiffCommand(cmd: string, origOut: string, origErr: string, testOut: string, testErr: string)
    returns (res: string)
    requires exists r :: ExpandsTo(cmd, DiffRules(origOut, origErr, testOut, testErr), r)
    ensures ExpandsTo(cmd, DiffRules(origOut, origErr, testOut, testErr), res)
    ensures PlainPath(origOut) && PlainPath(origErr) && PlainPath(testOut) && PlainPath(testErr) ==>
              res == OnePass(cmd, DiffRules(origOut, origErr, testOut, testErr))
    ensures PlainPath(origOut) && PlainPath(origErr) && PlainPath(testOut) && PlainPath(testErr) ==>
              && (cmd == "%ORIG_STDOUT" ==> res == origOut) && (cmd == "%ORIG_STDERR" ==> res == origErr)
              && (cmd == "%TEST_STDOUT" ==> res == testOut) && (cmd == "%TEST_STDERR" ==> res == testErr)
  {
    ghost var rules := DiffRules(origOut, origErr, testOut, testErr);
    ghost var end :| ExpandsTo(cmd, rules, end);
    ghost var t1, t2, t3 := FourLoops(cmd, rules, end);
    res := StrReplace(cmd, Rule(ORIG_STDOUT, origOut));
    LoopYieldsUnique(cmd, rules[0], res, t1);
    res := StrReplace(res, Rule(ORIG_STDERR, origErr));
    LoopYieldsUnique(t1, rules[1], res, t2);
    res := StrReplace(res, Rule(TEST_STDOUT, testOut));
    LoopYieldsUnique(t2, rules[2], res, t3);
    res := StrReplace(res, Rule(TEST_STDERR, testErr));
    LoopYieldsUnique(t3, rules[3], res, end);
    if PlainPath(origOut) && PlainPath(origErr) && PlainPath(testOut) && PlainPath(testErr) {
      DiffRulesDistinct(rules);
      PlainPathsExpand(cmd, rules, rules);
      ExpandsToUnique(cmd, rules, res, OnePass(cmd, rules));
      LoneMacros(cmd, res, origOut, origErr, testOut, testErr);
    }
  }

  lemma LoneMacros(cmd: string, res: string, origOut: string, origErr: string, testOut: string, testErr: string)
    requires WellFormed(DiffRules(origOut, origErr, testOut, testErr))
    requires res == OnePass(cmd, DiffRules(origOut, origErr, testOut, testErr))
    ensures cmd == "%ORIG_STDOUT" ==> res == origOut
    ensures cmd == "%ORIG_STDERR" ==> res == origErr
    ensures cmd == "%TEST_STDOUT" ==> res == testOut
    ensures cmd == "%TEST_STDERR" ==> res == testErr
  {
    hide OnePass, WellFormed;
    assert "" + cmd + "" == cmd;
    MacrosStandFor("", "", origOut, origErr, testOut, testErr);
    assert forall p: string :: "" + p + "" == p;
  }

  lemma FourLoops(cmd: string, rules: seq<Rule>, end: string) returns (t1: string, t2: string, t3: string)
    requires |rules| == 4 && ExpandsTo(cmd, rules, end)
    ensures LoopYields(cmd, rules[0], t1) && LoopYields(t1, rules[1], t2)
    ensures LoopYields(t2, rules[2], t3) && LoopYields(t3, rules[3], end)
  {
    hide LoopYields;
    t3 :| ExpandsTo(cmd, rules[..3], t3) && LoopYields(t3, rules[3], end);
    assert rules[..3][..2] == rules[..2] && rules[..2][..1] == rules[..1];
    t2 :| ExpandsTo(cmd, rules[..2], t2) && LoopYields(t2, rules[2], t3);
    t1 :| ExpandsTo(cmd, rules[..1], t1) && LoopYields(t1, rules[1], t2);
    var t0 :| ExpandsTo(cmd, rules[..1][..0], t0) && LoopYields(t0, rules[0], t1);
  }

  lemma DiffRulesDistinct(rules: seq<Rule>)
    requires |rules| == 4
    requires rules[0].macro == ORIG_STDOUT && rules[1].macro == ORIG_STDERR
    requires rules[2].macro == TEST_STDOUT && rules[3].macro == TEST_STDERR
    ensures DiffRuleSet(rules)
  {
    assert ORIG_STDOUT[9] != ORIG_STDERR[9] && TEST_STDOUT[9] != TEST_STDERR[9];
    assert ORIG_STDOUT[1] != TEST_STDOUT[1] && ORIG_STDOUT[1] != TEST_STDERR[1];
    assert ORIG_STDERR[1] != TEST_STDOUT[1] && ORIG_STDERR[1] != TEST_STDERR[1];
  }
}
