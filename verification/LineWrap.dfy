/**
  Line splitting of the option descriptions in the help text (src/options.cpp).

  A description is printed greedily: each line takes as much as fits and ends at a split
  character.  The greedy choice uses the fewest lines, and the loop ends exactly when no
  line's worth of consecutive characters lacks a split character.
 */
module LineWrap {
  const NUL := '\0'
  const BUFFER_SIZE := 80

  predicate IsLineSplitCandidate(c: char) {
    c == ' ' || c == NUL || c == ','
  }

  /** A C string holds no NUL before its end. */
  predicate IsCString(s: string) {
    NUL !in s
  }

  /** The characters from the description's start up to and including the NUL that ends it. */
  function CharAt(descr: string, i: nat): char
    requires i <= |descr|
  {
    if i == |descr| then NUL else descr[i]
  }

  // ---------------------------------------------------------------- what a good split is

  /** Joins the printed lines again. */
  function Join(lines: seq<string>): string {
    if lines == [] then "" else lines[0] + Join(lines[1..])
  }

  /**
    A line of at most `width` characters that ends at a split character.  The NUL that ends
    the description counts as a character of the last line, though it is not printed.
   */
  predicate IsLine(line: string, width: nat, last: bool) {
    line != "" &&
    ((|line| <= width && IsLineSplitCandidate(line[|line| - 1])) || (last && |line| + 1 <= width))
  }

  ghost predicate IsSplit(lines: seq<string>, descr: string, width: nat) {
    && Join(lines) == descr
    && forall i :: 0 <= i < |lines| ==> IsLine(lines[i], width, i == |lines| - 1)
  }

  /** `width` consecutive characters of the description cannot be split. */
  ghost predicate Stuck(descr: string, width: nat) {
    exists p :: NoCandidateIn(descr, p, width)
  }

  ghost predicate NoCandidateIn(descr: string, p: int, width: nat) {
    0 <= p && p + width <= |descr| && forall i :: p <= i < p + width ==> !IsLineSplitCandidate(descr[i])
  }

  /** A split of the whole leaves a split of every tail, with one line less once the first line is dropped. */
  lemma {:induction false} DropPrefix(lines: seq<string>, s: string, width: nat, n: nat) returns (rest: seq<string>)
    requires IsSplit(lines, s, width) && n <= |s|
    ensures IsSplit(rest, s[n..], width)
    ensures |rest| <= |lines|
    ensures lines != [] && |lines[0]| <= n ==> |rest| < |lines|
    decreases |lines|
  {
    if n == 0 {
      rest := lines;
      assert s[0..] == s;
      assert lines != [] ==> IsLine(lines[0], width, 0 == |lines| - 1);
    } else {
      var l := lines[0];
      SplitTail(lines, s, width);
      if |l| <= n {
        rest := DropPrefix(lines[1..], s[|l|..], width, n - |l|);
        assert s[|l|..][n - |l|..] == s[n..];
      } else {
        rest := [l[n..]] + lines[1..];
        assert IsLine(l, width, 0 == |lines| - 1);
        assert s[n..] == l[n..] + s[|l|..];
        assert rest[1..] == lines[1..];
        assert forall i :: 1 <= i < |rest| ==> rest[i] == lines[i];
      }
    }
  }

  lemma SplitTail(lines: seq<string>, s: string, width: nat)
    requires IsSplit(lines, s, width) && lines != []
    ensures lines[0] <= s && lines[0] != "" && IsSplit(lines[1..], s[|lines[0]|..], width)
  {
    assert IsLine(lines[0], width, 0 == |lines| - 1);
    assert s[|lines[0]|..] == Join(lines[1..]);
    forall i | 0 <= i < |lines[1..]| ensures IsLine(lines[1..][i], width, i == |lines[1..]| - 1) {
      assert IsLine(lines[i + 1], width, i + 1 == |lines| - 1);
    }
  }

  lemma {:induction false} JoinAppend(lines: seq<string>, line: string)
    ensures Join(lines + [line]) == Join(lines) + line
  {
    if lines == [] {
      assert Join([line]) == line + Join([]);
    } else {
      JoinAppend(lines[1..], line);
      assert (lines + [line])[1..] == lines[1..] + [line];
    }
  }

  lemma {:induction false} SplitIsNotStuck(lines: seq<string>, s: string, width: nat, p: int)
    requires IsSplit(lines, s, width) && 0 < width
    ensures !NoCandidateIn(s, p, width)
    decreases |lines|
  {
    if 0 <= p && p + width <= |s| {
      var l := lines[0];
      SplitTail(lines, s, width);
      assert IsLine(l, width, 0 == |lines| - 1);
      if |l| <= p {
        SplitIsNotStuck(lines[1..], s[|l|..], width, p - |l|);
        if i :| p - |l| <= i < p - |l| + width && IsLineSplitCandidate(s[|l|..][i]) {
          assert IsLineSplitCandidate(s[|l| + i]);
        }
      } else if lines[1..] == [] {
        assert s[|l|..] == "";
        assert IsLineSplitCandidate(s[|l| - 1]);
      } else {
        assert IsLineSplitCandidate(s[|l| - 1]);
      }
    }
  }

  /** The description can be split at all exactly when it is nowhere stuck. */
  lemma SplitExistsIff(s: string, width: nat)
    requires 0 < width
    ensures (exists lines :: IsSplit(lines, s, width)) <==> !Stuck(s, width)
  {
    if lines :| IsSplit(lines, s, width) {
      forall p ensures !NoCandidateIn(s, p, width) { SplitIsNotStuck(lines, s, width, p); }
    }
    if !Stuck(s, width) { var lines := BuildSplit(s, width); }
  }

  lemma {:induction false} BuildSplit(s: string, width: nat) returns (lines: seq<string>)
    requires 0 < width && !Stuck(s, width)
    ensures IsSplit(lines, s, width)
  {
    if s == "" {
      lines := [];
    } else if |s| < width {
      lines := [s];
      assert Join(lines) == s + Join([]);
    } else {
      assert !NoCandidateIn(s, 0, width);
      var i :| 0 <= i < width && IsLineSplitCandidate(s[i]);
      var rest := s[i + 1..];
      if p :| NoCandidateIn(rest, p, width) {
        assert forall k :: p <= k < p + width ==> rest[k] == s[i + 1 + k];
        assert NoCandidateIn(s, i + 1 + p, width);
      }
      var tail := BuildSplit(rest, width);
      lines := [s[..i + 1]] + tail;
      assert lines[1..] == tail && s == s[..i + 1] + rest;
    }
  }

  // ---------------------------------------------------------------- the loop as written

  /** The loop over LastSpaceIdx: the last split character in the window, or -1. */
  method LastSplit(descr: string, printed: nat, width: nat) returns (idx: int)
    requires printed < |descr| && 1 <= width
    ensures -1 <= idx < width && printed + idx <= |descr|
    ensures idx >= 0 ==> IsLineSplitCandidate(CharAt(descr, printed + idx))
    ensures forall i :: printed + idx < i < printed + width && i <= |descr| ==> !IsLineSplitCandidate(CharAt(descr, i))
    ensures idx == -1 ==> NoCandidateIn(descr, printed, width)
  {
    idx := if |descr| - printed >= width - 1 then width - 1 else |descr| - printed;
    ghost var top := idx;
    while idx >= 0
      invariant -1 <= idx <= top
      invariant forall i :: printed + idx < i <= printed + top ==> !IsLineSplitCandidate(CharAt(descr, i))
    {
      if IsLineSplitCandidate(CharAt(descr, printed + idx)) { break; }
      idx := idx - 1;
    }
    if idx == -1 {
      assert !IsLineSplitCandidate(CharAt(descr, printed + top));
      forall i | printed <= i < printed + width ensures !IsLineSplitCandidate(descr[i]) {
        assert !IsLineSplitCandidate(CharAt(descr, i));
      }
    }
  }

  /** What streaming a character array prints: the characters before the first NUL. */
  function CString(a: seq<char>): string
    requires NUL in a
  {
    if a[0] == NUL then "" else [a[0]] + CString(a[1..])
  }

  lemma {:induction false} CStringStops(a: seq<char>, n: nat)
    requires n < |a| && a[n] == NUL && forall i :: 0 <= i < n ==> a[i] != NUL
    ensures CString(a) == a[..n]
  {
    if n > 0 {
      assert a[1..][n - 1] == a[n];
      CStringStops(a[1..], n - 1);
      assert a[..n] == [a[0]] + a[1..][..n - 1];
    }
  }

  /** Every split of the description can be continued from `cut` without using more lines in all. */
  ghost predicate StaysAhead(lines: seq<string>, cut: nat, descr: string, width: nat)
    requires cut <= |descr|
  {
    forall other :: IsSplit(other, descr, width) ==>
      exists rest :: IsSplit(rest, descr[cut..], width) && |lines| + |rest| <= |other|
  }

  /** The greedy line is at least as long as the first line of any split of what is left. */
  lemma GreedyIsLongest(descr: string, cut: nat, width: nat, idx: nat, rest: seq<string>)
    requires cut < |descr| && cut + idx <= |descr|
    requires forall i :: cut + idx < i < cut + width && i <= |descr| ==> !IsLineSplitCandidate(CharAt(descr, i))
    requires IsSplit(rest, descr[cut..], width)
    ensures rest != [] && |rest[0]| <= (if cut + idx == |descr| then idx else idx + 1)
  {
    SplitTail(rest, descr[cut..], width);
    var f := rest[0];
    assert IsLine(f, width, 0 == |rest| - 1);
    if |f| <= width && IsLineSplitCandidate(f[|f| - 1]) {
      assert f[|f| - 1] == descr[cut + |f| - 1] == CharAt(descr, cut + |f| - 1);
    } else {
      assert rest[1..] == [] && descr[cut..][|f|..] == "";
      assert IsLineSplitCandidate(CharAt(descr, cut + |f|));
    }
  }

  lemma AheadStep(lines: seq<string>, cut: nat, descr: string, width: nat, idx: nat, line: string)
    requires cut < |descr| && cut + idx <= |descr|
    requires forall i :: cut + idx < i < cut + width && i <= |descr| ==> !IsLineSplitCandidate(CharAt(descr, i))
    requires |line| == if cut + idx == |descr| then idx else idx + 1
    requires StaysAhead(lines, cut, descr, width)
    ensures StaysAhead(lines + [line], cut + |line|, descr, width)
  {
    hide IsSplit, IsLineSplitCandidate;
    forall other | IsSplit(other, descr, width)
      ensures exists rest :: IsSplit(rest, descr[cut + |line|..], width) && |lines + [line]| + |rest| <= |other|
    {
      var rest :| IsSplit(rest, descr[cut..], width) && |lines| + |rest| <= |other|;
      GreedyIsLongest(descr, cut, width, idx, rest);
      var rest' := DropPrefix(rest, descr[cut..], width, |line|);
      assert descr[cut..][|line|..] == descr[cut + |line|..];
    }
  }

  /** Copies one piece to the buffer, as memcpy does, ends it with a NUL and prints it. */
  method PrintPiece(buffer: array<char>, descr: string, printed: nat, substrLen: nat) returns (line: string)
    requires IsCString(descr) && printed < |descr| && 0 < substrLen && printed + substrLen <= |descr| + 1
    requires substrLen < buffer.Length
    modifies buffer
    ensures printed + substrLen <= |descr| ==> line == descr[printed..printed + substrLen]
    ensures printed + substrLen == |descr| + 1 ==> line == descr[printed..]
  {
    for i := 0 to substrLen
      invariant forall k :: 0 <= k < i ==> buffer[k] == CharAt(descr, printed + k)
    {
      buffer[i] := CharAt(descr, printed + i);
    }
    buffer[substrLen] := NUL;
    ghost var n := if printed + substrLen <= |descr| then substrLen else |descr| - printed;
    assert buffer[..][n] == NUL;
    CStringStops(buffer[..], n);
    line := CString(buffer[..]);
  }

  /** The printed lines are the description up to `cut`; only at its end may a line lack a split character. */
  ghost predicate PrintedTo(lines: seq<string>, cut: nat, descr: string, width: nat)
    requires cut <= |descr|
  {
    && Join(lines) == descr[..cut]
    && forall i :: 0 <= i < |lines| ==> IsLine(lines[i], width, i == |lines| - 1 && cut == |descr|)
  }

  lemma PrintedStep(lines: seq<string>, cut: nat, descr: string, width: nat, idx: nat, line: string)
    requires cut < |descr| && cut + idx <= |descr| && idx < width
    requires IsLineSplitCandidate(CharAt(descr, cut + idx))
    requires line == if cut + idx == |descr| then descr[cut..] else descr[cut..cut + idx + 1]
    requires PrintedTo(lines, cut, descr, width)
    ensures PrintedTo(lines + [line], cut + |line|, descr, width)
  {
    JoinAppend(lines, line);
    assert descr[..cut] + line == descr[..cut + |line|];
    assert line[|line| - 1] == descr[cut + |line| - 1];
  }

  /** From `p` on, `width` characters are neither spaces nor commas. */
  predicate Unbroken(descr: string, p: nat, width: nat) {
    p + width <= |descr| && forall i :: p <= i < p + width ==> descr[i] != ' ' && descr[i] != ','
  }

  ghost predicate HasUnbroken(descr: string, width: nat) {
    exists p :: Unbroken(descr, p, width)
  }

  lemma StuckIsUnbroken(descr: string, width: nat)
    requires IsCString(descr)
    ensures Stuck(descr, width) <==> HasUnbroken(descr, width)
  {
    forall p: nat ensures NoCandidateIn(descr, p, width) <==> Unbroken(descr, p, width) {
      assert forall i :: 0 <= i < |descr| ==> descr[i] != NUL;
    }
    if Stuck(descr, width) {
      var p: int :| NoCandidateIn(descr, p, width);
      assert Unbroken(descr, p, width);
    }
    if p: nat :| Unbroken(descr, p, width) { assert NoCandidateIn(descr, p, width); }
  }

  /** A line of the help text: it fits, and ends at a space or a comma unless it is the last. */
  predicate WellBroken(line: string, width: nat, last: bool) {
    && 0 < |line| <= width
    && (!last ==> line[|line| - 1] == ' ' || line[|line| - 1] == ',')
  }

  lemma {:induction false} LineOfCString(lines: seq<string>, i: nat)
    requires i < |lines| && IsCString(Join(lines))
    ensures IsCString(lines[i])
  {
    assert Join(lines) == lines[0] + Join(lines[1..]);
    if i > 0 { LineOfCString(lines[1..], i - 1); }
  }

  lemma SplitIsWellBroken(lines: seq<string>, descr: string, width: nat)
    requires IsCString(descr) && IsSplit(lines, descr, width)
    ensures Join(lines) == descr && forall i :: 0 <= i < |lines| ==> WellBroken(lines[i], width, i == |lines| - 1)
  {
    forall i | 0 <= i < |lines| ensures WellBroken(lines[i], width, i == |lines| - 1) {
      assert IsLine(lines[i], width, i == |lines| - 1);
      LineOfCString(lines, i);
      assert lines[i][|lines[i]| - 1] != NUL;
    }
  }

  /**
    Prints one description, given the width of the widest flag.  When no split character is
    in reach, PrintedSubstrLen stops growing and the program prints empty lines for ever:
    `hangs` reports that.
   */
  method WrapDescription(descr: string, maxFlagW: nat) returns (lines: seq<string>, hangs: bool)
    requires IsCString(descr)
    requires maxFlagW < 36  // the assertion that more than 40 columns are left
    ensures hangs <==> Stuck(descr, 76 - maxFlagW)
    ensures hangs <==> HasUnbroken(descr, 76 - maxFlagW)
    ensures !hangs ==>
              && Join(lines) == descr
              && forall i :: 0 <= i < |lines| ==> WellBroken(lines[i], 76 - maxFlagW, i == |lines| - 1)
    ensures !hangs ==> IsSplit(lines, descr, 76 - maxFlagW)
    ensures !hangs ==> forall other :: IsSplit(other, descr, 76 - maxFlagW) ==> |lines| <= |other|
  {
    hide IsSplit, StaysAhead, PrintedTo, IsLineSplitCandidate, Stuck, HasUnbroken, WellBroken, Join;
    var buffer := new char[BUFFER_SIZE];
    var width := BUFFER_SIZE - (maxFlagW + |" : "| + 1);
    var printed := 0;
    lines, hangs := [], false;
    ghost var cut := 0;
    StartPrinting(descr, width);
    StuckIsUnbroken(descr, width);
    while printed < |descr|
      invariant 0 <= cut <= |descr| && (printed == cut || (printed == cut + 1 && cut == |descr|))
      invariant PrintedTo(lines, cut, descr, width)
      invariant StaysAhead(lines, cut, descr, width)
      decreases |descr| + 1 - printed
    {
      var lastSpaceIdx := LastSplit(descr, printed, width);
      var substrLen := lastSpaceIdx + 1;
      if substrLen == 0 {
        StuckHere(descr, printed, width);
        return lines, true;
      }
      var line := PrintPiece(buffer, descr, printed, substrLen);
      PrintedStep(lines, cut, descr, width, lastSpaceIdx, line);
      AheadStep(lines, cut, descr, width, lastSpaceIdx, line);
      lines := lines + [line];
      printed := printed + substrLen;
      cut := cut + |line|;
    }
    FinishPrinting(lines, descr, width);
    SplitIsWellBroken(lines, descr, width);
  }

  lemma StuckHere(descr: string, p: nat, width: nat)
    requires NoCandidateIn(descr, p, width)
    ensures Stuck(descr, width)
  {
  }

  lemma StartPrinting(descr: string, width: nat)
    ensures PrintedTo([], 0, descr, width) && StaysAhead([], 0, descr, width)
  {
    assert descr[0..] == descr;
  }

  lemma FinishPrinting(lines: seq<string>, descr: string, width: nat)
    requires PrintedTo(lines, |descr|, descr, width) && StaysAhead(lines, |descr|, descr, width) && 0 < width
    ensures IsSplit(lines, descr, width) && !Stuck(descr, width)
    ensures forall other :: IsSplit(other, descr, width) ==> |lines| <= |other|
  {
    assert descr[..|descr|] == descr;
    assert IsSplit(lines, descr, width);
    SplitExistsIff(descr, width);
    forall other | IsSplit(other, descr, width) ensures |lines| <= |other| {
      var rest :| IsSplit(rest, descr[|descr|..], width) && |lines| + |rest| <= |other|;
    }
  }
}
