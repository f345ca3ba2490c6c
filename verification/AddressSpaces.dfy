/**
  The address space of a process as an ordered set of ranges (src/addrSpace.h, src/addrSpace.cpp).

  Ranges are ordered by a comparator that is not a total order: nested ranges count as equal,
  and a point query counts as equal to every range that holds it, ends included.
 */
module AddressSpaces {
  import opened Options

  datatype Mapping = Mapping(from: nat, to: nat, path: string)

  predicate IsRange(m: Mapping) {
    m.from <= m.to && |m.path| < NPOS
  }

  predicate Less(a: Mapping, b: Mapping) {
    a.from < b.from && a.to < b.to
  }

  /** What the ordered set takes for equality. */
  predicate Equivalent(a: Mapping, b: Mapping) {
    !Less(a, b) && !Less(b, a)
  }

  /** Neither range lies within the other. */
  predicate Nested(a: Mapping, b: Mapping) {
    (a.from <= b.from && b.to <= a.to) || (b.from <= a.from && a.to <= b.to)
  }

  predicate Covers(m: Mapping, addr: nat) {
    m.from <= addr <= m.to
  }

  // ---------------------------------------------------------------- the ordered set

  /** A search tree; the rebalancing of std::set changes its shape but not the order of its elements. */
  datatype Tree = Leaf | Node(left: Tree, m: Mapping, right: Tree)

  function Elems(t: Tree): seq<Mapping> {
    match t
    case Leaf => []
    case Node(l, m, r) => Elems(l) + [m] + Elems(r)
  }

  ghost predicate Sorted(s: seq<Mapping>) {
    forall i, j :: 0 <= i < j < |s| ==> Less(s[i], s[j])
  }

  /** Unique insertion: walk down, then compare with the predecessor `pred` of the place found. */
  function InsertUnder(t: Tree, x: Mapping, pred: Option<Mapping>): Tree {
    match t
    case Leaf => if pred.None? || Less(pred.value, x) then Node(Leaf, x, Leaf) else Leaf
    case Node(l, m, r) =>
      if Less(x, m) then Node(InsertUnder(l, x, pred), m, r) else Node(l, m, InsertUnder(r, x, Some(m)))
  }

  function Insert(t: Tree, x: Mapping): Tree {
    InsertUnder(t, x, None)
  }

  /** The first element that is not before the query, as std::set::lower_bound walks to it. */
  function LowerBound(t: Tree, q: Mapping, best: Option<Mapping>): Option<Mapping> {
    match t
    case Leaf => best
    case Node(l, m, r) => if Less(m, q) then LowerBound(r, q, best) else LowerBound(l, q, Some(m))
  }

  function Find(t: Tree, addr: nat): Option<Mapping> {
    var q := Mapping(addr, addr, "Query");
    var lb := LowerBound(t, q, None);
    if lb.None? || Less(q, lb.value) then None else lb
  }

  // ---------------------------------------------------------------- insertion

  /** Where `x` belongs: the number of elements it does not precede. */
  function Place(s: seq<Mapping>, x: Mapping): (k: nat)
    ensures k <= |s|
    ensures k < |s| ==> Less(x, s[k])
    ensures forall i :: 0 <= i < k ==> !Less(x, s[i])
  {
    if s == [] || Less(x, s[0]) then 0 else 1 + Place(s[1..], x)
  }

  function Inserted(s: seq<Mapping>, x: Mapping): seq<Mapping> {
    var k := Place(s, x);
    s[..k] + [x] + s[k..]
  }

  lemma PlaceIs(s: seq<Mapping>, x: Mapping, k: nat)
    requires k <= |s| && (k < |s| ==> Less(x, s[k])) && forall i :: 0 <= i < k ==> !Less(x, s[i])
    ensures Place(s, x) == k
  {
  }

  /** The last element before the place of `x`, or `pred` if there is none. */
  function Predecessor(s: seq<Mapping>, x: Mapping, pred: Option<Mapping>): Option<Mapping> {
    var k := Place(s, x);
    if k == 0 then pred else Some(s[k - 1])
  }

  lemma SortedParts(l: seq<Mapping>, m: Mapping, r: seq<Mapping>)
    requires Sorted(l + [m] + r)
    ensures Sorted(l) && Sorted(r)
    ensures forall i :: 0 <= i < |l| ==> Less(l[i], m)
  {
    var s := l + [m] + r;
    assert forall i :: 0 <= i < |l| ==> l[i] == s[i];
    assert s[|l|] == m;
    assert forall i :: 0 <= i < |r| ==> r[i] == s[|l| + 1 + i];
  }

  lemma InsertedLeft(l: seq<Mapping>, m: Mapping, r: seq<Mapping>, x: Mapping, pred: Option<Mapping>)
    requires Less(x, m)
    ensures Inserted(l + [m] + r, x) == Inserted(l, x) + [m] + r
    ensures Predecessor(l + [m] + r, x, pred) == Predecessor(l, x, pred)
  {
    var s, k := l + [m] + r, Place(l, x);
    PlaceIs(s, x, k);
    assert s[..k] == l[..k] && s[k..] == l[k..] + [m] + r;
  }

  lemma NotBefore(a: Mapping, m: Mapping, x: Mapping)
    requires Less(a, m) && !Less(x, m)
    ensures !Less(x, a)
  {
  }

  lemma InsertedRight(l: seq<Mapping>, m: Mapping, r: seq<Mapping>, x: Mapping, pred: Option<Mapping>)
    requires !Less(x, m) && forall i :: 0 <= i < |l| ==> Less(l[i], m)
    ensures Inserted(l + [m] + r, x) == l + [m] + Inserted(r, x)
    ensures Predecessor(l + [m] + r, x, pred) == Predecessor(r, x, Some(m))
  {
    var s, k, n := l + [m] + r, Place(r, x), |l| + 1;
    forall i | 0 <= i < |l| ensures !Less(x, l[i]) { NotBefore(l[i], m, x); }
    hide Less;
    forall i | 0 <= i < n + k ensures !Less(x, s[i]) {
      if i < n - 1 { assert s[i] == l[i]; } else if n <= i { assert s[i] == r[i - n]; }
    }
    assert k < |r| ==> s[n + k] == r[k];
    PlaceIs(s, x, n + k);
    assert s[..n + k] == l + [m] + r[..k] && s[n + k..] == r[k..];
  }

  lemma {:induction false} InsertUnderSpec(t: Tree, x: Mapping, pred: Option<Mapping>)
    requires Sorted(Elems(t))
    ensures Elems(InsertUnder(t, x, pred)) ==
            var p := Predecessor(Elems(t), x, pred);
            if p.None? || Less(p.value, x) then Inserted(Elems(t), x) else Elems(t)
    decreases t
  {
    if t.Node? {
      hide Inserted, Predecessor, Sorted, Less;
      var l, m, r := Elems(t.left), t.m, Elems(t.right);
      SortedParts(l, m, r);
      if Less(x, m) {
        InsertUnderSpec(t.left, x, pred);
        InsertedLeft(l, m, r, x, pred);
      } else {
        InsertUnderSpec(t.right, x, Some(m));
        InsertedRight(l, m, r, x, pred);
      }
    }
  }

  /** A range that is nested with none fits between its predecessor and the rest. */
  lemma FitsAtPlace(s: seq<Mapping>, x: Mapping)
    requires Sorted(s)
    requires var k := Place(s, x); k == 0 || Less(s[k - 1], x)
    ensures forall m :: m in s ==> !Nested(m, x)
    ensures Sorted(Inserted(s, x))
  {
    var k := Place(s, x);
    forall i | 0 <= i < k ensures Less(s[i], x) { if i < k - 1 { assert Less(s[i], s[k - 1]); } }
    forall i | k <= i < |s| ensures Less(x, s[i]) { if k < i { assert Less(s[k], s[i]); } }
  }

  /** A sorted set rejects a range exactly when it is nested with a member. */
  lemma InsertSpec(t: Tree, x: Mapping)
    requires Sorted(Elems(t))
    ensures (exists m :: m in Elems(t) && Nested(m, x)) ==> Elems(Insert(t, x)) == Elems(t)
    ensures (forall m :: m in Elems(t) ==> !Nested(m, x)) ==>
              Elems(Insert(t, x)) == Inserted(Elems(t), x) && Sorted(Inserted(Elems(t), x))
  {
    hide Sorted, Inserted, InsertUnder, Elems;
    InsertUnderSpec(t, x, None);
    var s, k := Elems(t), Place(Elems(t), x);
    if k > 0 && !Less(s[k - 1], x) {
      assert Nested(s[k - 1], x);
    } else {
      FitsAtPlace(s, x);
    }
  }

  lemma EquivalentIsNested(a: Mapping, b: Mapping)
    ensures Equivalent(a, b) <==> Nested(a, b)
  {
  }

  /** The ranges of a process, inserted in the order in which they are listed. */
  function InsertAll(ranges: seq<Mapping>): Tree {
    if ranges == [] then Leaf else Insert(InsertAll(ranges[..|ranges| - 1]), ranges[|ranges| - 1])
  }

  ghost predicate NoneNested(ranges: seq<Mapping>) {
    forall i, j :: 0 <= i < j < |ranges| ==> !Nested(ranges[i], ranges[j])
  }

  lemma InsertedContents(s: seq<Mapping>, x: Mapping)
    ensures multiset(Inserted(s, x)) == multiset(s) + multiset{x} && |Inserted(s, x)| == |s| + 1
  {
    assert s == s[..Place(s, x)] + s[Place(s, x)..];
  }

  lemma NoneNestedSnoc(front: seq<Mapping>, x: Mapping)
    ensures NoneNested(front + [x]) <==> NoneNested(front) && forall m :: m in front ==> !Nested(m, x)
  {
    var all := front + [x];
    assert forall i :: 0 <= i < |front| ==> all[i] == front[i];
    if NoneNested(all) {
      forall m | m in front ensures !Nested(m, x) {
        var i :| 0 <= i < |front| && front[i] == m;
        assert !Nested(all[i], all[|front|]);
      }
      forall i, j | 0 <= i < j < |front| ensures !Nested(front[i], front[j]) { assert !Nested(all[i], all[j]); }
    }
  }

  /** The set is sorted and holds listed ranges only; it holds all of them exactly when none are nested. */
  lemma {:induction false} InsertAllSpec(ranges: seq<Mapping>)
    ensures Sorted(Elems(InsertAll(ranges)))
    ensures multiset(Elems(InsertAll(ranges))) <= multiset(ranges)
    ensures multiset(Elems(InsertAll(ranges))) == multiset(ranges) <==> NoneNested(ranges)
    decreases |ranges|
  {
    if ranges != [] {
      hide Sorted, NoneNested, Nested, Insert, Inserted, Elems;
      var n := |ranges| - 1;
      var front, x := ranges[..n], ranges[n];
      assert ranges == front + [x];
      InsertAllSpec(front);
      var s := Elems(InsertAll(front));
      InsertSpec(InsertAll(front), x);
      InsertedContents(s, x);
      NoneNestedSnoc(front, x);
      OneMore(s, front, x);
    }
  }

  lemma OneMore(s: seq<Mapping>, front: seq<Mapping>, x: Mapping)
    requires multiset(s) <= multiset(front)
    ensures multiset(front + [x]) == multiset(front) + multiset{x}
    ensures multiset(s) != multiset(front) + multiset{x}
    ensures multiset(s) + multiset{x} == multiset(front) + multiset{x} <==> multiset(s) == multiset(front)
    ensures multiset(s) == multiset(front) ==> forall m :: m in s <==> m in front
    ensures forall m :: m in s ==> m in front
  {
    assert multiset(s) == (multiset(s) + multiset{x}) - multiset{x};
    assert multiset(front) == (multiset(front) + multiset{x}) - multiset{x};
    assert multiset(s)[x] <= multiset(front)[x];
    assert forall m :: m in s <==> m in multiset(s);
    assert forall m :: m in front <==> m in multiset(front);
  }

  // ---------------------------------------------------------------- lookup

  /** The linear scan: the first range that covers the address. */
  function Scan(s: seq<Mapping>, addr: nat): (r: Option<Mapping>)
    ensures r.Some? ==> r.value in s && Covers(r.value, addr)
    ensures r.None? <==> forall m :: m in s ==> !Covers(m, addr)
  {
    if s == [] then None else if Covers(s[0], addr) then Some(s[0]) else Scan(s[1..], addr)
  }

  /** The first element that does not end before the address. */
  function FirstNotBefore(s: seq<Mapping>, addr: nat): (r: Option<Mapping>)
    ensures r.Some? ==> r.value in s && r.value.to >= addr
  {
    if s == [] then None else if s[0].to >= addr then Some(s[0]) else FirstNotBefore(s[1..], addr)
  }

  lemma {:induction false} FirstNotBeforeAppend(a: seq<Mapping>, b: seq<Mapping>, addr: nat)
    ensures FirstNotBefore(a + b, addr) ==
            if FirstNotBefore(a, addr).Some? then FirstNotBefore(a, addr) else FirstNotBefore(b, addr)
  {
    if a == [] {
      assert a + b == b;
    } else {
      assert (a + b)[1..] == a[1..] + b;
      FirstNotBeforeAppend(a[1..], b, addr);
    }
  }

  lemma {:induction false} LowerBoundSpec(t: Tree, addr: nat, path: string, best: Option<Mapping>)
    requires Sorted(Elems(t)) && forall m :: m in Elems(t) ==> IsRange(m)
    ensures LowerBound(t, Mapping(addr, addr, path), best) ==
            if FirstNotBefore(Elems(t), addr).Some? then FirstNotBefore(Elems(t), addr) else best
    decreases t
  {
    if t.Node? {
      var l, m, r, s := Elems(t.left), t.m, Elems(t.right), Elems(t);
      assert s[..|l|] == l && s[|l|] == m && m in s;
      assert FirstNotBefore([m], addr) == if m.to >= addr then Some(m) else None by { assert [m][1..] == []; }
      hide Sorted, FirstNotBefore;
      SortedParts(l, m, r);
      FirstNotBeforeAppend(l + [m], r, addr);
      FirstNotBeforeAppend(l, [m], addr);
      if m.to < addr {
        NoneNotBefore(l, m, addr, s);
        LowerBoundSpec(t.right, addr, path, best);
      } else {
        LowerBoundSpec(t.left, addr, path, Some(m));
      }
    }
  }

  lemma {:induction false} NoneNotBefore(l: seq<Mapping>, m: Mapping, addr: nat, s: seq<Mapping>)
    requires Sorted(s) && l <= s && |l| < |s| && s[|l|] == m && m.to < addr
    ensures FirstNotBefore(l, addr).None?
  {
    assert forall i :: 0 <= i < |l| ==> l[i] == s[i] && Less(s[i], s[|l|]);
    AllBefore(l, addr);
  }

  lemma {:induction false} AllBefore(l: seq<Mapping>, addr: nat)
    requires forall i :: 0 <= i < |l| ==> l[i].to < addr
    ensures FirstNotBefore(l, addr).None?
  {
    if l != [] { AllBefore(l[1..], addr); }
  }

  lemma {:induction false} ScanIsFirstNotBefore(s: seq<Mapping>, addr: nat)
    requires Sorted(s)
    ensures var f := FirstNotBefore(s, addr);
            Scan(s, addr) == if f.None? || addr < f.value.from then None else f
  {
    if s != [] {
      if s[0].to < addr {
        assert Sorted(s[1..]);
        ScanIsFirstNotBefore(s[1..], addr);
      } else if addr < s[0].from {
        forall m | m in s ensures !Covers(m, addr) {
          var i :| 0 <= i < |s| && s[i] == m;
          if i > 0 { assert Less(s[0], s[i]); }
        }
      }
    }
  }

  /** Tree lookup agrees with the linear scan: found exactly when some range covers the address, ends included. */
  lemma FindIsScan(t: Tree, addr: nat)
    requires Sorted(Elems(t)) && forall m :: m in Elems(t) ==> IsRange(m)
    ensures Find(t, addr) == Scan(Elems(t), addr)
  {
    LowerBoundSpec(t, addr, "Query", None);
    ScanIsFirstNotBefore(Elems(t), addr);
  }

  /** Non-empty half-open ranges in order, as the kernel lists them. */
  ghost predicate Disjoint(s: seq<Mapping>) {
    && (forall m :: m in s ==> m.from < m.to)
    && (forall i, j :: 0 <= i < j < |s| ==> s[i].to <= s[j].from)
  }

  /** The range that owns the address when ranges are read as half-open. */
  function Owner(s: seq<Mapping>, addr: nat): (r: Option<Mapping>)
    ensures r.Some? ==> r.value in s && r.value.from <= addr < r.value.to
    ensures r.None? ==> forall m :: m in s ==> !(m.from <= addr < m.to)
  {
    if s == [] then None else if s[0].from <= addr < s[0].to then Some(s[0]) else Owner(s[1..], addr)
  }

  /**
    Disjoint ranges are all inserted, in whatever order they come, and the set holds them in
    order.  Ranges are closed in the comparator, so lookup finds the owner exactly when the
    address ends no range.
   */
  lemma FindIsOwnerIff(ranges: seq<Mapping>, s: seq<Mapping>, addr: nat)
    requires Disjoint(s) && (forall m :: m in s ==> IsRange(m)) && multiset(ranges) == multiset(s)
    ensures NoneNested(ranges) && Elems(InsertAll(ranges)) == s
    ensures Find(InsertAll(ranges), addr) == Owner(s, addr) <==> forall m :: m in s ==> m.to != addr
  {
    DisjointIsSorted(s);
    ShuffledNoneNested(ranges, s);
    InsertAllSpec(ranges);
    SortedUnique(Elems(InsertAll(ranges)), s);
    FindIsScan(InsertAll(ranges), addr);
    ScanIsOwnerIff(s, addr);
  }

  lemma DisjointIsSorted(s: seq<Mapping>)
    requires Disjoint(s)
    ensures Sorted(s) && NoneNested(s)
  {
    assert forall i :: 0 <= i < |s| ==> s[i] in s;
  }

  /** Ranges none of which are nested can be listed in any order. */
  lemma ShuffledNoneNested(ranges: seq<Mapping>, s: seq<Mapping>)
    requires NoneNested(s) && multiset(ranges) == multiset(s)
    ensures NoneNested(ranges)
  {
    forall i, j | 0 <= i < j < |ranges| ensures !Nested(ranges[i], ranges[j]) {
      var x, y := ranges[i], ranges[j];
      assert x in multiset(ranges) && y in multiset(ranges);
      var k :| 0 <= k < |s| && s[k] == x;
      var l :| 0 <= l < |s| && s[l] == y;
      if x == y {
        TwoCopies(ranges, i, j);
        OneCopy(s, x);
      }
    }
  }

  lemma TwoCopies(ranges: seq<Mapping>, i: nat, j: nat)
    requires i < j < |ranges| && ranges[i] == ranges[j]
    ensures multiset(ranges)[ranges[i]] >= 2
  {
    assert ranges == ranges[..j] + ranges[j..];
    assert ranges[..j][i] in multiset(ranges[..j]) && ranges[j..][0] in multiset(ranges[j..]);
  }

  lemma {:induction false} OneCopy(s: seq<Mapping>, x: Mapping)
    requires NoneNested(s)
    ensures multiset(s)[x] <= 1
    decreases |s|
  {
    if s != [] {
      var n := |s| - 1;
      assert s == s[..n] + [s[n]];
      assert NoneNested(s[..n]);
      OneCopy(s[..n], x);
      forall i | 0 <= i < n ensures s[..n][i] != s[n] { assert !Nested(s[i], s[n]); }
      assert s[n] !in multiset(s[..n]);
    }
  }

  /** Sequences in strict order with the same members are equal. */
  lemma {:induction false} SortedUnique(a: seq<Mapping>, b: seq<Mapping>)
    requires Sorted(a) && Sorted(b) && multiset(a) == multiset(b)
    ensures a == b
  {
    hide Sorted, Less;
    assert |a| == |multiset(a)| == |multiset(b)| == |b|;
    if a != [] {
      HeadAndTail(a);
      HeadAndTail(b);
      assert a[0] in multiset(b) && b[0] in multiset(a);
      SameHead(a, b);
      SortedUnique(a[1..], b[1..]);
    }
  }

  lemma HeadAndTail(s: seq<Mapping>)
    requires Sorted(s) && s != []
    ensures Sorted(s[1..]) && s == [s[0]] + s[1..] && multiset(s[1..]) == multiset(s) - multiset{s[0]}
  {
    assert s == [s[0]] + s[1..];
    assert multiset(s) == multiset{s[0]} + multiset(s[1..]);
  }

  lemma SameHead(a: seq<Mapping>, b: seq<Mapping>)
    requires Sorted(a) && Sorted(b) && a != [] && b != [] && a[0] in b && b[0] in a
    ensures a[0] == b[0]
  {
    var i :| 0 <= i < |b| && b[i] == a[0];
    var j :| 0 <= j < |a| && a[j] == b[0];
    assert i > 0 ==> Less(b[0], b[i]);
    assert j > 0 ==> Less(a[0], a[j]);
  }

  lemma ScanIsOwnerIff(s: seq<Mapping>, addr: nat)
    requires Disjoint(s)
    ensures Scan(s, addr) == Owner(s, addr) <==> forall m :: m in s ==> m.to != addr
  {
    if m :| m in s && m.to == addr {
      var i :| 0 <= i < |s| && s[i] == m;
      ScanFirst(s, addr, i);
    } else {
      ScanIsOwnerUnlessEnd(s, addr);
    }
  }

  /** Two ranges cover an address only where one ends and the next starts; the scan finds the lower. */
  lemma CoveredTwice(s: seq<Mapping>, addr: nat, i: nat, j: nat)
    requires Disjoint(s) && i < j < |s| && Covers(s[i], addr) && Covers(s[j], addr)
    ensures j == i + 1 && s[i].to == addr == s[j].from && Scan(s, addr) == Some(s[i])
  {
    assert s[i] in s && s[j] in s && s[i + 1] in s;
    assert s[i].to <= s[i + 1].from && s[i].to <= s[j].from;
    assert s[i + 1].from < s[i + 1].to;
    ScanFirst(s, addr, i);
  }

  lemma {:induction false} ScanIsOwnerUnlessEnd(s: seq<Mapping>, addr: nat)
    requires forall m :: m in s ==> m.to != addr
    ensures Scan(s, addr) == Owner(s, addr)
  {
    if s != [] {
      assert s[0] in s && forall m :: m in s[1..] ==> m in s;
      ScanIsOwnerUnlessEnd(s[1..], addr);
    }
  }

  lemma {:induction false} ScanFirst(s: seq<Mapping>, addr: nat, i: nat)
    requires Disjoint(s) && i < |s| && s[i].to == addr
    ensures Scan(s, addr) == Some(s[i])
  {
    assert s[0] in s && s[i] in s;
    if i > 0 {
      assert s[0].to <= s[i].from;
      assert s[1..][i - 1] == s[i];
      assert forall m :: m in s[1..] ==> m in s;
      ScanFirst(s[1..], addr, i - 1);
    }
  }

  // ---------------------------------------------------------------- libraries

  const SIZE_T := 0x1_0000_0000_0000_0000
  const NPOS := SIZE_T - 1

  /** `so` occurs in `path` at `i`. */
  predicate OccursAt(path: string, so: string, i: nat) {
    i <= |path| && so <= path[i..]
  }

  /** std::string::rfind: the last occurrence at or before `i`, or npos. */
  function RFindFrom(path: string, so: string, i: nat): (r: nat)
    requires i < NPOS
    ensures r == NPOS || (r <= i && OccursAt(path, so, r))
    ensures forall x :: (if r == NPOS then 0 else r + 1) <= x <= i ==> !OccursAt(path, so, x)
  {
    if OccursAt(path, so, i) then i else if i == 0 then NPOS else RFindFrom(path, so, i - 1)
  }

  /** The test as written, on size_t values that wrap around. */
  predicate PathIsLibrary(path: string)
    requires |path| < NPOS
  {
    RFindFrom(path, ".so", |path|) == (|path| - |".so"|) % SIZE_T
  }

  lemma WrappedLength(n: nat)
    requires n < NPOS
    ensures (n - 3) % SIZE_T == if n >= 3 then n - 3 else SIZE_T + n - 3
  {
  }

  /** The test is the suffix test, except that it holds of every path of two characters. */
  lemma PathIsLibraryIff(path: string)
    requires |path| < NPOS
    ensures PathIsLibrary(path) <==> (|path| >= 3 && path[|path| - 3..] == ".so") || |path| == 2
  {
    WrappedLength(|path|);
    var r := RFindFrom(path, ".so", |path|);
    if r != NPOS { assert |path[r..]| >= 3; }
    if |path| >= 3 {
      var i := |path| - 3;
      assert |path[i..]| == 3;
      assert OccursAt(path, ".so", i) <==> path[i..] == ".so";
    }
  }

  class AddressSpace {
    var mappings: Tree

    ghost predicate Valid()
      reads this
    {
      Sorted(Elems(mappings)) && forall m :: m in Elems(mappings) ==> IsRange(m)
    }

    /** Starts from the parsed lines of the maps file. */
    constructor (ranges: seq<Mapping>)
      requires forall m :: m in ranges ==> IsRange(m)
      ensures Valid()
      ensures mappings == InsertAll(ranges)
      ensures NoneNested(ranges) ==> multiset(Elems(mappings)) == multiset(ranges)
    {
      var tree := Leaf;
      for i := 0 to |ranges|
        invariant tree == InsertAll(ranges[..i])
      {
        assert ranges[..i + 1][..i] == ranges[..i];
        tree := Insert(tree, ranges[i]);
      }
      assert ranges[..|ranges|] == ranges;
      InsertAllSpec(ranges);
      forall m | m in Elems(tree) ensures IsRange(m) { assert m in multiset(Elems(tree)); assert m in ranges; }
      mappings := tree;
    }

    /** None stands for the fatal error of an address that no range covers. */
    method IsInLibrary(addr: nat) returns (r: Option<bool>)
      requires Valid()
      ensures r.None? <==> forall m :: m in Elems(mappings) ==> addr < m.from || m.to < addr
      ensures r.Some? ==> var m := Scan(Elems(mappings), addr).value;
                          r.value == ((|m.path| >= 3 && m.path[|m.path| - 3..] == ".so") || |m.path| == 2)
    {
      var it := Find(mappings, addr);
      FindIsScan(mappings, addr);
      if it.None? { return None; }
      PathIsLibraryIff(it.value.path);
      r := Some(PathIsLibrary(it.value.path));
    }
  }
}
