/** The outcome counters (src/statistics.cpp, src/statistics.h). */
module Statistics {
  import opened Outcomes

  datatype Kind =
    | Masked | Exception | InfExec | Corrupted | Detected | InjFailed | Skipped
    | OrigExecTime | TestsExecTime | NumTests
    | Binary | InjectTo | TestRuns

  const COUNTERS: seq<Kind> :=
    [Kind.Masked, Kind.Exception, Kind.InfExec, Kind.Corrupted, Kind.Detected, Kind.InjFailed, Kind.Skipped]

  predicate IsCounter(k: Kind) {
    k in COUNTERS
  }

  /** Outcomes whose output was checked. */
  predicate IsChecked(k: Kind) {
    k.Masked? || k.Exception? || k.InfExec? || k.Corrupted? || k.Detected?
  }

  /** The counter of a run's status; a run without a status has none. */
  function KindOf(s: FtStatus): (k: Kind)
    requires !s.None?
    ensures (k.Masked? <==> s.Masked?) && (k.Exception? <==> s.Exception?) && (k.InfExec? <==> s.InfExec?)
    ensures (k.Corrupted? <==> s.Corrupted?) && (k.Detected? <==> s.Detected?)
    ensures (k.InjFailed? <==> s.InjFailed?) && (k.Skipped? <==> s.Skipped?)
  {
    match s
    case Masked => Kind.Masked
    case Exception => Kind.Exception
    case InfExec => Kind.InfExec
    case Corrupted => Kind.Corrupted
    case Detected => Kind.Detected
    case InjFailed => Kind.InjFailed
    case Skipped => Kind.Skipped
  }

  type Counts = map<Kind, nat>

  predicate HasCounters(c: Counts) {
    forall k :: k in COUNTERS ==> k in c
  }

  function CheckedSum(c: Counts): nat
    requires HasCounters(c)
  {
    c[Kind.Masked] + c[Kind.Exception] + c[Kind.InfExec] + c[Kind.Corrupted] + c[Kind.Detected]
  }

  function Sum(c: Counts): nat
    requires HasCounters(c)
  {
    CheckedSum(c) + c[Kind.InjFailed] + c[Kind.Skipped]
  }

  /** The rows of the printed table. */
  function RowsToPrint(c: Counts, detectionExitCode: int): seq<Kind>
    requires HasCounters(c)
  {
    [Kind.Masked, Kind.Exception, Kind.InfExec, Kind.Corrupted] +
    (if detectionExitCode != 0 then [Kind.Detected] else []) +
    (if c[Kind.Skipped] != 0 then [Kind.Skipped] else [])
  }

  /** What the printed rows other than Skipped add up to. */
  function PrintedSum(c: Counts, rows: seq<Kind>): nat
    requires forall k :: k in rows ==> k in c
  {
    if rows == [] then 0
    else (if rows[0].Skipped? then 0 else c[rows[0]]) + PrintedSum(c, rows[1..])
  }

  /** The rows account for every checked run exactly when the Detected row is shown or nothing was detected. */
  lemma PrintedRowsComplete(c: Counts, detectionExitCode: int)
    requires HasCounters(c)
    ensures forall k :: k in RowsToPrint(c, detectionExitCode) ==> k in c
    ensures PrintedSum(c, RowsToPrint(c, detectionExitCode)) == CheckedSum(c) <==>
            detectionExitCode != 0 || c[Kind.Detected] == 0
  {
    var d := if detectionExitCode != 0 then [Kind.Detected] else [];
    var s := if c[Kind.Skipped] != 0 then [Kind.Skipped] else [];
    var always := [Kind.Masked, Kind.Exception, Kind.InfExec, Kind.Corrupted];
    PrintedSumAppend(c, always + d, s);
    PrintedSumAppend(c, always, d);
    PrintedSumAppend(c, [Kind.Masked, Kind.Exception], [Kind.InfExec, Kind.Corrupted]);
    assert always == [Kind.Masked, Kind.Exception] + [Kind.InfExec, Kind.Corrupted];
    PrintedPair(c, Kind.Masked, Kind.Exception);
    PrintedPair(c, Kind.InfExec, Kind.Corrupted);
  }

  lemma PrintedPair(c: Counts, x: Kind, y: Kind)
    requires x in c && y in c && !x.Skipped? && !y.Skipped?
    ensures PrintedSum(c, [x, y]) == c[x] + c[y]
  {
    assert [x, y][1..] == [y] && [y][1..] == [];
    assert PrintedSum(c, []) == 0;
    assert PrintedSum(c, [y]) == c[y] + PrintedSum(c, [y][1..]);
  }

  lemma {:induction false} PrintedSumAppend(c: Counts, a: seq<Kind>, b: seq<Kind>)
    requires forall k :: k in a || k in b ==> k in c
    ensures PrintedSum(c, a + b) == PrintedSum(c, a) + PrintedSum(c, b)
  {
    if a == [] {
      assert a + b == b;
    } else {
      assert (a + b)[1..] == a[1..] + b;
      PrintedSumAppend(c, a[1..], b);
    }
  }

  class Statistics {
    var counts: Counts
    var totalInjOK: nat
    var grandTotal: nat

    ghost predicate Valid()
      reads this
    {
      HasCounters(counts)
    }

    /** The totals agree with the counters. */
    ghost predicate Consistent()
      reads this
      requires Valid()
    {
      Sum(counts) == grandTotal && CheckedSum(counts) == totalInjOK
    }

    constructor (testRuns: nat)
      ensures Valid() && Consistent()
      ensures grandTotal == 0 && totalInjOK == 0
      ensures forall k :: k in COUNTERS ==> counts[k] == 0
    {
      counts, totalInjOK, grandTotal := map[], 0, 0;
      new;
      Zero();
      counts := counts[Kind.TestRuns := testRuns];
    }

    /** The copy that a forked process has. */
    constructor Forked(parent: Statistics)
      requires parent.Valid()
      ensures Valid() && counts == parent.counts && totalInjOK == parent.totalInjOK && grandTotal == parent.grandTotal
    {
      counts, totalInjOK, grandTotal := parent.counts, parent.totalInjOK, parent.grandTotal;
    }

    /** Clears the counters but not the totals. */
    method Zero()
      modifies this`counts
      ensures Valid()
      ensures forall k :: k in COUNTERS ==> counts[k] == 0
      ensures forall k :: k !in COUNTERS ==>
                  (k in counts <==> k in old(counts)) && (k in counts ==> counts[k] == old(counts)[k])
      ensures Consistent() <==> grandTotal == 0 && totalInjOK == 0
    {
      for i := 0 to |COUNTERS|
        invariant forall j :: 0 <= j < i ==> COUNTERS[j] in counts && counts[COUNTERS[j]] == 0
        invariant forall k :: k !in COUNTERS ==>
                  (k in counts <==> k in old(counts)) && (k in counts ==> counts[k] == old(counts)[k])
      {
        counts := counts[COUNTERS[i] := 0];
      }
    }

    /** False is the fatal error of a kind that is not counted. */
    method Incr(k: Kind) returns (ok: bool)
      requires Valid()
      modifies this
      ensures Valid() && ok == IsCounter(k)
      ensures ok ==> counts == old(counts)[k := old(counts)[k] + 1]
      ensures ok ==> grandTotal == old(grandTotal) + 1
      ensures ok ==> totalInjOK == old(totalInjOK) + if IsChecked(k) then 1 else 0
      ensures !ok ==> counts == old(counts) && grandTotal == old(grandTotal) && totalInjOK == old(totalInjOK)
      ensures old(Consistent()) ==> Consistent()
    {
      if !IsCounter(k) { return false; }
      counts := counts[k := counts[k] + 1];
      if !(k.InjFailed? || k.Skipped?) { totalInjOK := totalInjOK + 1; }
      grandTotal := grandTotal + 1;
      return true;
    }

    /** The counts of the printed rows; none are printed while no run has been checked. */
    method Dump(detectionExitCode: int) returns (rows: seq<(Kind, nat)>)
      requires Valid()
      ensures totalInjOK == 0 <==> rows == []
      ensures rows != [] ==> |rows| == |RowsToPrint(counts, detectionExitCode)|
      ensures forall i :: 0 <= i < |rows| ==>
                && rows[i].0 == RowsToPrint(counts, detectionExitCode)[i]
                && rows[i].0 in counts && rows[i].1 == counts[rows[i].0]
      ensures rows != [] && Consistent() ==>
                (PrintedSum(counts, RowsToPrint(counts, detectionExitCode)) == totalInjOK <==>
                 detectionExitCode != 0 || counts[Kind.Detected] == 0)
    {
      rows := [];
      if totalInjOK == 0 { return; }
      var statsToPrint := RowsToPrint(counts, detectionExitCode);
      PrintedRowsComplete(counts, detectionExitCode);
      for i := 0 to |statsToPrint|
        invariant |rows| == i
        invariant forall j :: 0 <= j < i ==> rows[j] == (statsToPrint[j], counts[statsToPrint[j]])
      {
        rows := rows + [(statsToPrint[i], counts[statsToPrint[i]])];
      }
    }
  }
}
