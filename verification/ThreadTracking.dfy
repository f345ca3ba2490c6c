/**
  Tracking the threads of the traced child from the results of waitpid (src/runner.cpp).

  The results are an arbitrary stream of events.  An event that only tells about a change of
  the threads is swallowed; the first other one is returned.
 */
module ThreadTracking {
  const SIGTRAP := 5
  const SIGALRM := 14
  const SIGSTOP := 19

  /** What waitpid reports of a process or thread. */
  datatype What =
    | CloneStop(child: int)  // stopped because it has cloned `child`
    | Stop(signal: int)
    | Exit(code: int)
    | Death(signal: int)

  datatype Event = Event(pid: int, what: What)

  predicate IsDeath(e: Event) {
    e.what.Exit? || e.what.Death?
  }

  /** Whether the loop goes on after the event, given the threads tracked so far. */
  predicate Swallowed(threads: set<int>, e: Event) {
    e.what.CloneStop? || (e.pid in threads && (e.what == Stop(SIGSTOP) || IsDeath(e)))
  }

  function TrackStep(threads: set<int>, e: Event): set<int> {
    if e.what.CloneStop? then threads + {e.what.child}
    else if e.pid in threads && IsDeath(e) then threads - {e.pid}
    else threads
  }

  function Track(threads: set<int>, events: seq<Event>): set<int> {
    if events == [] then threads else TrackStep(Track(threads, events[..|events| - 1]), events[|events| - 1])
  }

  /** The thread was announced and has not exited or been killed since. */
  ghost predicate Live(events: seq<Event>, t: int) {
    exists i :: LiveSince(events, t, i)
  }

  ghost predicate LiveSince(events: seq<Event>, t: int, i: int) {
    && 0 <= i < |events| && events[i].what == CloneStop(t)
    && forall j :: i < j < |events| ==> !(events[j].pid == t && IsDeath(events[j]))
  }

  /** For every event stream the tracked set agrees with the history of the stream. */
  lemma {:induction false} TrackIsLive(events: seq<Event>, t: int)
    ensures t in Track({}, events) <==> Live(events, t)
    decreases |events|
  {
    if events != [] {
      var n := |events| - 1;
      var before, e := events[..n], events[n];
      TrackIsLive(before, t);
      if e.what == CloneStop(t) {
        assert LiveSince(events, t, n);
      } else if e.pid == t && IsDeath(e) {
        forall i ensures !LiveSince(events, t, i) {
          if 0 <= i < n { assert events[n].pid == t; }
        }
      } else {
        if i :| LiveSince(before, t, i) {
          assert forall j :: i < j < n ==> events[j] == before[j];
          assert LiveSince(events, t, i);
        }
        if i :| LiveSince(events, t, i) {
          assert forall j :: i < j < n ==> events[j] == before[j];
          assert LiveSince(before, t, i);
        }
      }
    }
  }

  /** How many events are swallowed before the first that is returned. */
  function SkipCount(threads: set<int>, events: seq<Event>): (n: nat)
    ensures n <= |events|
    decreases |events|
  {
    if events == [] || !Swallowed(threads, events[0]) then 0
    else 1 + SkipCount(TrackStep(threads, events[0]), events[1..])
  }

  lemma {:induction false} TrackAppend(threads: set<int>, a: seq<Event>, b: seq<Event>)
    ensures Track(threads, a + b) == Track(Track(threads, a), b)
    decreases |b|
  {
    if b == [] {
      assert a + b == a;
    } else {
      var n := |b| - 1;
      TrackAppend(threads, a, b[..n]);
      assert (a + b)[..|a + b| - 1] == a + b[..n];
    }
  }

  /** All skipped events are swallowed, each by the threads tracked when it arrives, and the next one is not. */
  lemma {:induction false} SkipCountSpec(threads: set<int>, events: seq<Event>, i: nat)
    requires i < |events|
    ensures i < SkipCount(threads, events) ==> Swallowed(Track(threads, events[..i]), events[i])
    ensures i == SkipCount(threads, events) ==> !Swallowed(Track(threads, events[..i]), events[i])
    decreases |events|
  {
    if i == 0 {
      assert events[..0] == [];
    } else if Swallowed(threads, events[0]) {
      SkipCountSpec(TrackStep(threads, events[0]), events[1..], i - 1);
      assert events[..i] == [events[0]] + events[1..][..i - 1];
      TrackAppend(threads, [events[0]], events[1..][..i - 1]);
      assert [events[0]][..0] == [];
    }
  }

  /** The positions of the events that one wait after another returns, from position `i` of the stream on. */
  function ReturnedFrom(events: seq<Event>, i: nat): (r: set<nat>)
    requires i <= |events|
    ensures forall k :: k in r ==> i <= k < |events|
    decreases |events| - i
  {
    var n := i + SkipCount(Track({}, events[..i]), events[i..]);
    if n == |events| then {} else {n} + ReturnedFrom(events, n + 1)
  }

  /** An event is returned exactly when it is not swallowed by the threads tracked when it arrives. */
  lemma {:induction false} ReturnedIff(events: seq<Event>, i: nat, k: nat)
    requires i <= k < |events|
    ensures k in ReturnedFrom(events, i) <==> !Swallowed(Track({}, events[..k]), events[k])
    decreases |events| - i
  {
    hide Swallowed, Track, SkipCount;
    var start, rest := Track({}, events[..i]), events[i..];
    var n := i + SkipCount(start, rest);
    if k <= n {
      SkipCountSpec(start, rest, k - i);
      TrackAppend({}, events[..i], rest[..k - i]);
      assert events[..i] + rest[..k - i] == events[..k] && rest[k - i] == events[k];
    } else {
      ReturnedIff(events, n + 1, k);
    }
  }

  /**
    What is returned, in terms of the stream alone: everything but clone stops and, of threads
    that were announced before and have not ended since, the SIGSTOPs and ends.
   */
  lemma ReturnedExactly(events: seq<Event>, k: nat)
    requires k < |events|
    ensures k in ReturnedFrom(events, 0) <==>
            && !events[k].what.CloneStop?
            && !(&& (exists i :: 0 <= i < k && events[i].what == CloneStop(events[k].pid) &&
                       forall j :: i < j < k && events[j].pid == events[k].pid ==>
                         !events[j].what.Exit? && !events[j].what.Death?)
                 && (events[k].what == Stop(19) || events[k].what.Exit? || events[k].what.Death?))
  {
    var before, t := events[..k], events[k].pid;
    ReturnedIff(events, 0, k);
    TrackIsLive(before, t);
    assert forall i :: 0 <= i < k ==> before[i] == events[i];
    if Live(before, t) {
      var i :| LiveSince(before, t, i);
      assert events[i].what == CloneStop(t);
    }
    if i :| 0 <= i < k && events[i].what == CloneStop(t) &&
            forall j :: i < j < k && events[j].pid == t ==> !events[j].what.Exit? && !events[j].what.Death? {
      assert LiveSince(before, t, i);
    }
  }

  lemma ReturnedSnoc(events: seq<Event>, e: Event)
    ensures |events| in ReturnedFrom(events + [e], 0) <==> !Swallowed(Track({}, events), e)
  {
    assert (events + [e])[..|events|] == events;
    ReturnedIff(events + [e], 0, |events|);
  }

  ghost predicate Announced(events: seq<Event>, t: int) {
    exists i :: 0 <= i < |events| && events[i].what == CloneStop(t)
  }

  /** A thread's SIGSTOP is swallowed exactly when the thread was announced before and has not died since. */
  lemma StopReturnedIff(events: seq<Event>, k: nat)
    requires k < |events| && events[k].what == Stop(SIGSTOP)
    ensures k in ReturnedFrom(events, 0) <==> !Live(events[..k], events[k].pid)
  {
    ReturnedIff(events, 0, k);
    TrackIsLive(events[..k], events[k].pid);
  }

  /**
    No wait returns the SIGSTOP of a thread that is announced anywhere in the stream, if and
    only if every such stop follows its announcement with no death in between.
   */
  lemma NoAnnouncedStopReturnedIff(events: seq<Event>)
    ensures (forall k :: k in ReturnedFrom(events, 0) && events[k].what == Stop(SIGSTOP) ==>
                           !Announced(events, events[k].pid)) <==>
            (forall k :: 0 <= k < |events| && events[k].what == Stop(SIGSTOP) && Announced(events, events[k].pid) ==>
                           Live(events[..k], events[k].pid))
  {
    forall k | 0 <= k < |events| && events[k].what == Stop(SIGSTOP)
      ensures k in ReturnedFrom(events, 0) <==> !Live(events[..k], events[k].pid)
    {
      StopReturnedIff(events, k);
    }
  }

  /** The condition can fail: a stop of a new thread is returned before its announcement, and not after it. */
  lemma EarlyStopIsReturned(main: int, t: int)
    ensures ReturnedFrom([Event(t, Stop(SIGSTOP)), Event(main, CloneStop(t))], 0) == {0}
    ensures ReturnedFrom([Event(main, CloneStop(t)), Event(t, Stop(SIGSTOP))], 0) == {}
  {
    var early := [Event(t, Stop(SIGSTOP)), Event(main, CloneStop(t))];
    var late := [Event(main, CloneStop(t)), Event(t, Stop(SIGSTOP))];
    assert early[..0] == [] == late[..0] && early[..1] == [early[0]] && late[..1] == [late[0]];
    assert [early[0]][..0] == [] == [late[0]][..0];
    ReturnedIff(early, 0, 0);
    ReturnedIff(early, 0, 1);
    ReturnedIff(late, 0, 0);
    ReturnedIff(late, 0, 1);
  }

  // ---------------------------------------------------------------- whose events are returned

  /** Every event comes from the main thread or from a thread announced before that has not died since. */
  ghost predicate Orderly(main: int, events: seq<Event>) {
    forall k :: 0 <= k < |events| ==> events[k].pid == main || Live(events[..k], events[k].pid)
  }

  /** In an orderly stream the main thread's events are returned, and live threads' stops other than SIGSTOP. */
  lemma OrderlyReturned(main: int, events: seq<Event>, k: nat)
    requires Orderly(main, events) && k in ReturnedFrom(events, 0)
    ensures events[k].pid == main ||
            (events[k].what.Stop? && events[k].what != Stop(SIGSTOP) && Live(events[..k], events[k].pid))
  {
    ReturnedIff(events, 0, k);
    TrackIsLive(events[..k], events[k].pid);
  }

  function TwoThreads(main: int, t: int, code: int): seq<Event> {
    [Event(main, CloneStop(t)), Event(t, Stop(SIGSTOP)), Event(t, Exit(0)), Event(main, Exit(code))]
  }

  /** A thread is created, runs and ends, then the child: only the end of the child is returned. */
  lemma OrdinaryRun(main: int, t: int, code: int)
    requires t != main
    ensures var events := TwoThreads(main, t, code);
            Orderly(main, events) && ReturnedFrom(events, 0) == {3}
  {
    var events := TwoThreads(main, t, code);
    assert LiveSince(events[..1], t, 0) && LiveSince(events[..2], t, 0);
    forall k | 0 <= k < |events| ensures k in ReturnedFrom(events, 0) <==> k == 3 {
      ReturnedIff(events, 0, k);
      TrackIsLive(events[..k], t);
      TrackIsLive(events[..k], main);
      assert forall i :: 0 <= i < k ==> events[..k][i] == events[i];
    }
  }

  function AnnouncedBy(events: seq<Event>): set<int> {
    if events == [] then {}
    else AnnouncedBy(events[..|events| - 1]) + AnnouncedIn(events[|events| - 1])
  }

  function AnnouncedIn(e: Event): set<int> {
    if e.what.CloneStop? then {e.what.child} else {}
  }

  lemma {:induction false} AnnouncedByIff(events: seq<Event>, t: int)
    ensures t in AnnouncedBy(events) <==> Announced(events, t)
    decreases |events|
  {
    if events != [] {
      var n := |events| - 1;
      AnnouncedByIff(events[..n], t);
      assert forall i :: 0 <= i < n ==> events[..n][i] == events[i];
      if Announced(events[..n], t) {
        var i :| 0 <= i < n && events[..n][i].what == CloneStop(t);
        assert events[i].what == CloneStop(t);
      }
    }
  }

  lemma AnnouncedBySnoc(events: seq<Event>, e: Event)
    ensures AnnouncedBy(events + [e]) == AnnouncedBy(events) + AnnouncedIn(e)
  {
    assert (events + [e])[..|events|] == events;
  }

  /** The event is of the child or of a thread announced before. */
  predicate OwnEvent(main: int, events: seq<Event>, k: nat)
    requires k < |events|
  {
    events[k].pid == main || events[k].pid in AnnouncedBy(events[..k])
  }

  /** In an orderly stream every event is the child's own. */
  lemma OrderlyOwn(main: int, events: seq<Event>, k: nat)
    requires Orderly(main, events) && k < |events|
    ensures OwnEvent(main, events, k)
  {
    if Live(events[..k], events[k].pid) {
      var i :| LiveSince(events[..k], events[k].pid, i);
      AnnouncedByIff(events[..k], events[k].pid);
    }
  }

  /** In others a foreign event is returned first: an early stop, or the exit of a child launched before. */
  lemma ForeignIsReturned(main: int, t: int, rest: seq<Event>, code: int)
    requires t != main
    ensures var early := [Event(t, Stop(SIGSTOP))] + rest; 0 in ReturnedFrom(early, 0) && !OwnEvent(main, early, 0)
    ensures var stale := [Event(t, Exit(code))] + rest; 0 in ReturnedFrom(stale, 0) && !OwnEvent(main, stale, 0)
  {
    var early, stale := [Event(t, Stop(SIGSTOP))] + rest, [Event(t, Exit(code))] + rest;
    assert early[..0] == [] == stale[..0];
    ReturnedIff(early, 0, 0);
    ReturnedIff(stale, 0, 0);
  }

  // ---------------------------------------------------------------- resuming what was stopped

  predicate IsStop(e: Event) {
    e.what.CloneStop? || e.what.Stop?
  }

  /** The processes that swallowed events have left stopped. */
  function StoppedBy(events: seq<Event>): seq<int> {
    if events == [] then []
    else StoppedBy(events[..|events| - 1]) + (if IsStop(events[|events| - 1]) then [events[|events| - 1].pid] else [])
  }

  /** The processes the loop resumes: after a clone it is the main thread, whichever thread has cloned. */
  function ResumedBy(main: int, events: seq<Event>): seq<int> {
    if events == [] then [] else
    var e := events[|events| - 1];
    ResumedBy(main, events[..|events| - 1]) +
    (if e.what.CloneStop? then [main] else if e.what.Stop? then [e.pid] else [])
  }

  /** Every swallowed stop is resumed exactly when only the main thread clones. */
  lemma {:induction false} ResumedIff(main: int, events: seq<Event>)
    ensures ResumedBy(main, events) == StoppedBy(events) <==>
            forall i :: 0 <= i < |events| && events[i].what.CloneStop? ==> events[i].pid == main
    ensures |ResumedBy(main, events)| == |StoppedBy(events)|
    decreases |events|
  {
    if events != [] {
      var n := |events| - 1;
      var before, e := events[..n], events[n];
      ResumedIff(main, before);
      var r, s := ResumedBy(main, events), StoppedBy(events);
      var k := |StoppedBy(before)|;
      assert r[..k] == ResumedBy(main, before) && s[..k] == StoppedBy(before);
      if IsStop(e) { assert r[k] == s[k] <==> (e.what.CloneStop? ==> e.pid == main); }
      assert forall i :: 0 <= i < n ==> before[i] == events[i];
    }
  }

  // ---------------------------------------------------------------- the random pick

  lemma Member<T>(s: set<T>) returns (x: T)
    requires |s| > 0
    ensures x in s
  {
    x :| x in s;
  }

  ghost predicate IsMin(s: set<int>, m: int) {
    m in s && forall x :: x in s ==> m <= x
  }

  lemma {:induction false} MinExists(s: set<int>)
    requires |s| > 0
    ensures exists m :: IsMin(s, m)
    decreases |s|
  {
    var x := Member(s);
    var rest := s - {x};
    assert forall z :: z in s <==> z == x || z in rest;
    if |rest| > 0 {
      MinExists(rest);
      var y :| IsMin(rest, y);
      assert IsMin(s, if x < y then x else y);
    } else {
      assert rest == {};
      assert IsMin(s, x);
    }
  }

  ghost function Min(s: set<int>): (m: int)
    requires |s| > 0
    ensures IsMin(s, m)
  {
    MinExists(s);
    var m :| IsMin(s, m);
    m
  }

  /** The thread that an iteration in ascending order reaches after `n` others. */
  ghost function Nth(s: set<int>, n: nat): (p: int)
    requires n < |s|
    ensures p in s
    decreases n
  {
    if n == 0 then Min(s) else Nth(s - {Min(s)}, n - 1)
  }

  /** The process picked for a random count: the main thread for 0, else a tracked one. */
  ghost function Pick(main: int, threads: set<int>, cnt: nat): int
    requires cnt <= |threads|
  {
    if cnt == 0 then main else Nth(threads, cnt - 1)
  }

  lemma {:induction false} NthInjective(s: set<int>, a: nat, b: nat)
    requires a < b < |s|
    ensures Nth(s, a) != Nth(s, b)
    decreases a
  {
    if a > 0 { NthInjective(s - {Min(s)}, a - 1, b - 1); }
  }

  /** The threads are reached in ascending order, as a set is iterated. */
  lemma {:induction false} NthAscending(s: set<int>, a: nat, b: nat)
    requires a < b < |s|
    ensures Nth(s, a) < Nth(s, b)
    decreases a
  {
    if a > 0 {
      NthAscending(s - {Min(s)}, a - 1, b - 1);
    } else {
      assert Nth(s, b) in s - {Min(s)};
    }
  }

  lemma {:induction false} NthOnto(s: set<int>, p: int) returns (n: nat)
    requires p in s
    ensures n < |s| && Nth(s, n) == p
    decreases |s|
  {
    assert {p} <= s && |s| == |s - {p}| + 1;
    if p == Min(s) {
      n := 0;
    } else {
      n := NthOnto(s - {Min(s)}, p);
      n := n + 1;
    }
  }

  /** The pick reaches the main thread and every tracked one. */
  lemma PickOnto(main: int, threads: set<int>, p: int) returns (cnt: nat)
    requires p == main || p in threads
    ensures cnt <= |threads| && Pick(main, threads, cnt) == p
  {
    if p == main {
      cnt := 0;
    } else {
      cnt := NthOnto(threads, p);
      cnt := cnt + 1;
    }
  }

  /** The main thread is picked for 0, and greater counts pick greater threads. */
  lemma PickOrder(main: int, threads: set<int>, a: nat, b: nat)
    requires a < b <= |threads|
    ensures Pick(main, threads, 0) == main && Pick(main, threads, b) in threads
    ensures a > 0 ==> Pick(main, threads, a) < Pick(main, threads, b)
  {
    if a > 0 { NthAscending(threads, a - 1, b - 1); }
  }

  /** Different counts pick different processes exactly when the main thread is not tracked. */
  lemma PickInjectiveIff(main: int, threads: set<int>)
    ensures (forall a, b :: 0 <= a < b <= |threads| ==> Pick(main, threads, a) != Pick(main, threads, b)) <==>
            main !in threads
  {
    if main !in threads {
      forall a, b | 0 <= a < b <= |threads| ensures Pick(main, threads, a) != Pick(main, threads, b) {
        if a > 0 { NthInjective(threads, a - 1, b - 1); }
      }
    } else {
      var n := NthOnto(threads, main);
      assert Pick(main, threads, 0) == Pick(main, threads, n + 1);
    }
  }

  /** The loop over the tracked threads; the fatal error behind it is never reached. */
  method GetRandomChildThreadPID(main: int, threads: set<int>, randomCnt: nat) returns (pid: int)
    requires randomCnt <= |threads|
    ensures pid == Pick(main, threads, randomCnt)
  {
    if randomCnt == 0 { return main; }
    var cnt: nat := randomCnt - 1;
    var rest := threads;
    while true
      invariant cnt < |rest| && Nth(rest, cnt) == Nth(threads, randomCnt - 1)
      decreases |rest|
    {
      MinExists(rest);
      var next: int :| next in rest && forall x :: x in rest ==> next <= x;
      assert next == Min(rest);
      if cnt == 0 { return next; }
      cnt := cnt - 1;
      rest := rest - {next};
    }
  }
}
