/**
  The launch, stop, flip and classify loop of a test run (src/runner.cpp).

  The kernel answers as it likes: each launch comes with the answers to the calls made for
  it, and waitpid for any process returns the events of an arbitrary finite stream, after
  which it blocks for ever.
 */
module Injection {
  import opened Options
  import opened Outcomes
  import opened ThreadTracking
  import opened InjectionLog
  import Bits
  import VectorState
  import Registers
  import Stats = Statistics

  /** The answers to the calls made for one launch. */
  datatype Attempt = Attempt(
    pid: int, fd: int,             // from fork or forkpty
    setOptions: bool,              // whether PTRACE_SETOPTIONS succeeds
    pickAfter: nat, rand: nat,     // when the sleeper wakes up, in events, and the random number it draws
    kill: bool,                    // whether the sleeper's kill succeeds
    inLibrary: Option<bool>,       // if the address is mapped at all
    selected: Choice,
    step: What,                    // what the single step reports
    thread: Thread)

  /** The register and bit selected, if there are, and whether the instruction writes the register. */
  datatype Choice = UnknownRegister | NoRegister | Register(reg: string, bit: nat, written: bool)

  /** The registers of the thread to inject to, and the answers to the calls that read and write them. */
  datatype Thread = Thread(
    stopped: Registers.MachineState,      // when it has stopped,
    stepped: Registers.MachineState,      // ... and after a single step
    readForIP: bool, readForFlip: bool,   // whether the vector state can be read
    setRegs: bool, setRegSet: bool)       // whether the registers can be written

  datatype Config = Config(
    maxInjectionAttempts: int, injectionsPerRun: nat, noRedirect: bool, dontInjectToLibs: bool, detectionExitCode: int,
    regs: map<string, Registers.RegData>)

  /** The register table is sound, and the selected bit lies within its register. */
  ghost predicate GoodAttempt(c: Config, a: Attempt) {
    && a.pid > 0 && a.fd >= 0
    && (forall r :: r in c.regs ==> Registers.InBounds(c.regs[r]))
    && (a.selected.Register? ==> a.selected.reg in c.regs && Registers.HasBit(c.regs[a.selected.reg], a.selected.bit))
  }

  const UINT_RANGE := 0x1_0000_0000

  /** The flips a classified child must have received. */
  function Expected(c: Config): nat {
    if c.injectionsPerRun > 0 then 1 else 0
  }

  /** The launches a run may make: the attempt counter is unsigned and is decremented before it is tested. */
  function Budget(c: Config): nat {
    (c.maxInjectionAttempts - 1) % UINT_RANGE
  }

  /** The subtraction wraps around only for attempts that are no unsigned number but zero. */
  lemma BudgetPlain(c: Config)
    ensures 1 <= c.maxInjectionAttempts < 0x1_0000_0000 ==> Budget(c) == c.maxInjectionAttempts - 1
  {
  }

  class Kernel {
    const stream: seq<Event>
    const attempts: nat -> Attempt
    const expected: nat
    var next: nat
    var log: seq<Action>
    ghost var view: View
    ghost var fate: Fate

    ghost predicate Valid()
      reads this
    {
      && next <= |stream| && view == Watch(log, expected) && fate == FateOf(log)
      && forall n :: attempts(n).pid > 0 && attempts(n).fd >= 0
    }

    constructor (stream: seq<Event>, attempts: nat -> Attempt, expected: nat)
      requires forall n :: attempts(n).pid > 0 && attempts(n).fd >= 0
      ensures Valid() && log == [] && next == 0
      ensures this.stream == stream && this.attempts == attempts && this.expected == expected
    {
      this.stream, this.attempts, this.expected := stream, attempts, expected;
      next, log, view, fate := 0, [], START, UNBORN;
    }

    /** Any call but waitpid for any process. */
    method Do(a: Action)
      requires Valid()
      modifies this`log, this`view, this`fate
      ensures Valid() && log == old(log) + [a]
      ensures view == Observe(old(view), a, expected) && fate == Follow(old(fate), a)
      ensures Conts(log) == Conts(old(log)) + if a.Cont? then [a.pid] else []
    {
      var more := Extend(log, a, expected);
      ContsSnoc(log, a);
      fate := Follow(fate, a);
      view := Observe(view, a, expected);
      log := log + [a];
    }

    method WaitAny() returns (e: Event)
      requires Valid() && next < |stream|
      modifies this`next
      ensures Valid() && e == stream[old(next)] && next == old(next) + 1
    {
      e := stream[next];
      next := next + 1;
    }
  }

  /** How a step of the run ends: normally, waiting for ever, or in a failed assertion. */
  datatype Step<+T> = Done(value: T) | Blocked | Fatal

  datatype RunResult = Classified(status: FtStatus) | GaveUp | Stuck | Died

  // ---------------------------------------------------------------- what a run comes to

  /** The address is mapped if that matters, and it is no reason to skip the attempt. */
  predicate Located(c: Config, a: Attempt) {
    c.dontInjectToLibs ==> a.inLibrary == Some(false)
  }

  /** A register can be selected at the instruction the thread has stopped at. */
  predicate Selectable(c: Config, a: Attempt) {
    Located(c, a) && a.selected.Register?
  }

  /** The selected register is written by the instruction, so the thread is stepped first. */
  predicate Steps(c: Config, a: Attempt) {
    Selectable(c, a) && a.selected.written
  }

  /** The thread is where the bit is to be flipped. */
  predicate Ready(c: Config, a: Attempt) {
    Selectable(c, a) && (Steps(c, a) ==> a.step == Stop(SIGTRAP))
  }

  /** Fatal are an unmapped address, an unknown register, a step that ends otherwise, a register without a pointer. */
  predicate Dies(c: Config, a: Attempt) {
    || (c.dontInjectToLibs && a.inLibrary.None?)
    || (Located(c, a) && a.selected.UnknownRegister?)
    || (Steps(c, a) && a.step !in {Stop(SIGTRAP), Stop(SIGALRM)})
    || (Ready(c, a) && Written(c, a).Fatal?)
  }

  /** How the flip of the selected register ends. */
  function Written(c: Config, a: Attempt): Registers.FlipOutcome
    requires a.selected.Register?
  {
    if a.selected.reg !in c.regs then Registers.FlipOutcome.Fatal
    else Registers.Outcome(c.regs[a.selected.reg], a.thread.setRegs, a.thread.setRegSet)
  }

  /** The flip is written back. */
  predicate Flipping(c: Config, a: Attempt) {
    Ready(c, a) && Written(c, a).Done?
  }

  /** The machine when the bit is flipped, and the vector state as it was read before. */
  function AtFlip(c: Config, a: Attempt): Registers.MachineState {
    if Steps(c, a) then a.thread.stepped else a.thread.stopped
  }

  ghost function ReadBefore(a: Attempt): (b: seq<Bits.Byte>)
    ensures |b| == VectorState.XSAVE_SIZE
    ensures a.thread.readForIP ==> b == a.thread.stopped.xsave
    ensures !a.thread.readForIP ==> forall i :: 0 <= i < |b| ==> b[i] == 0
  {
    Registers.AsRead(a.thread.stopped, Registers.Clear(), a.thread.readForIP).xsave
  }

  /** What a flip that is written back does to the machine. */
  ghost function ChangeBy(c: Config, a: Attempt): Registers.Change
    requires GoodAttempt(c, a) && Flipping(c, a)
  {
    Registers.ChangeOf(AtFlip(c, a), ReadBefore(a), a.thread.readForFlip, c.regs[a.selected.reg], a.selected.bit)
  }

  /** The change is of the selected bit, in the state after the step if the instruction writes the register. */
  lemma ChangedState(c: Config, a: Attempt)
    requires GoodAttempt(c, a) && Flipping(c, a)
    ensures ChangeBy(c, a).before == if a.selected.written then a.thread.stepped else a.thread.stopped
    ensures ChangeBy(c, a).reg == c.regs[a.selected.reg] && ChangeBy(c, a).bit == a.selected.bit
    ensures ChangeBy(c, a).after.gp ==
            match ChangeBy(c, a).reg.ptr.value
            case Gp(at) => Bits.FlipBit(ChangeBy(c, a).before.gp, 8 * at + a.selected.bit)
            case Vec(_) => ChangeBy(c, a).before.gp
  {
  }

  /** When a bit is flipped: in terms of the options and the answers. */
  lemma FlippingExactly(c: Config, a: Attempt)
    requires GoodAttempt(c, a)
    ensures Flipping(c, a) <==>
              && (c.dontInjectToLibs ==> a.inLibrary == Some(false))
              && a.selected.Register? && (a.selected.written ==> a.step == Stop(5))
              && c.regs[a.selected.reg].ptr.Some? && a.thread.setRegs && a.thread.setRegSet
  {
  }

  /** When the program dies. */
  lemma DiesExactly(c: Config, a: Attempt)
    requires GoodAttempt(c, a)
    ensures Dies(c, a) <==>
              if c.dontInjectToLibs && a.inLibrary != Some(false) then a.inLibrary.None?
              else match a.selected
                   case UnknownRegister => true
                   case NoRegister => false
                   case Register(reg, _, written) =>
                     if written && a.step != Stop(5) then a.step != Stop(14) else c.regs[reg].ptr.None?
  {
  }

  /** The register is part of the machine, and the vector state is read for the flip or has not changed since it was. */
  ghost predicate Reaches(c: Config, a: Attempt)
    requires GoodAttempt(c, a) && Flipping(c, a)
  {
    && !Registers.ZmmBacked(c.regs[a.selected.reg].ptr.value)
    && (a.thread.readForFlip || ReadBefore(a) == AtFlip(c, a).xsave)
  }

  lemma TogglesIffReaches(c: Config, a: Attempt)
    requires GoodAttempt(c, a) && Flipping(c, a)
    ensures Registers.Toggled(ChangeBy(c, a)) <==> Reaches(c, a)
    ensures Reaches(c, a) <==>
              && (c.regs[a.selected.reg].ptr.value.Vec? ==> c.regs[a.selected.reg].ptr.value.at < 2432)
              && (a.thread.readForFlip || ReadBefore(a) == ChangeBy(c, a).before.xsave)
  {
    Registers.ToggledIff(AtFlip(c, a), ReadBefore(a), a.thread.readForFlip, c.regs[a.selected.reg], a.selected.bit);
  }

  /** The attempt has stopped a thread. */
  predicate StopsThread(a: Attempt, e: Event) {
    a.kill && e.what.Stop?
  }

  /** Whether a failed attempt kills its child: the signal was sent, and the event returned is no exit. */
  predicate KillsChild(a: Attempt, e: Event) {
    a.kill && !e.what.Exit?
  }

  /** The status that an event gives, if exit state and output are or are not those of the original run. */
  predicate Explains(c: Config, status: FtStatus, what: What, same: bool) {
    && Reportable(status) && (status.Skipped? <==> c.noRedirect)
    && (status.Masked? ==> same) && (status.Corrupted? || status.Exception? ==> !same)
    && (status.Detected? ==> c.detectionExitCode > 0)
    && (!c.noRedirect ==>
          && (what.Exit? || what.Stop?)
          && (status.InfExec? <==> what == Stop(SIGALRM))
          && (status.Detected? <==> what == Exit(c.detectionExitCode) && c.detectionExitCode > 0)
          && (status.Corrupted? ==> what.Exit?) && (status.Exception? ==> what.Stop?))
  }

  /** An event is explained by one status at most. */
  lemma ExplainsOne(c: Config, s: FtStatus, t: FtStatus, what: What, same: bool)
    ensures Explains(c, s, what, same) && Explains(c, t, what, same) ==> s == t
  {
  }

  /** It is explained by one unless it is a death or a clone, and the output is redirected. */
  lemma ExplainedIff(c: Config, what: What, same: bool)
    ensures (exists s :: Explains(c, s, what, same)) <==> c.noRedirect || what.Exit? || what.Stop?
  {
    var s := if c.noRedirect then FtStatus.Skipped
             else if what == Stop(SIGALRM) then FtStatus.InfExec
             else if what == Exit(c.detectionExitCode) && c.detectionExitCode > 0 then FtStatus.Detected
             else if same then FtStatus.Masked
             else if what.Exit? then FtStatus.Corrupted else FtStatus.Exception;
    assert c.noRedirect || what.Exit? || what.Stop? ==> Explains(c, s, what, same);
  }

  /** Which status it is. */
  lemma ExplainsExactly(c: Config, s: FtStatus, what: What, same: bool)
    requires Explains(c, s, what, same)
    ensures s == if c.noRedirect then FtStatus.Skipped
                 else if what == Stop(14) then FtStatus.InfExec
                 else if c.detectionExitCode > 0 && what == Exit(c.detectionExitCode) then FtStatus.Detected
                 else if same then FtStatus.Masked
                 else if what.Exit? then FtStatus.Corrupted else FtStatus.Exception
  {
  }

  /** What the kernel answers to a run, and whether the outcome equals the original one. */
  datatype Input = Input(stream: seq<Event>, attempts: nat -> Attempt, same: bool)

  /** The run from the wait for the outcome on, when the threads are tracked and the events are still to come. */
  ghost predicate EndsIn(c: Config, same: bool, threads: set<int>, rest: seq<Event>, r: RunResult) {
    var n := SkipCount(threads, rest);
    if n == |rest| then r.Stuck?
    else if rest[n].what.Death? && !c.noRedirect then r.Died?
    else r.Classified? && Explains(c, r.status, rest[n].what, same)
  }

  /** The run from launch number `k` on, when `next` events have been waited for, ends in `r`. */
  ghost predicate ComesTo(c: Config, input: Input, next: nat, k: nat, r: RunResult)
    requires next <= |input.stream| && k <= Budget(c)
    decreases Budget(c) - k
  {
    var a, rest := input.attempts(k), input.stream[next..];
    var n := SkipCount({}, rest);
    if k == Budget(c) then r.GaveUp?
    else if c.injectionsPerRun == 0 then EndsIn(c, input.same, {}, rest, r)
    else if !a.setOptions then ComesTo(c, input, next, k + 1, r)
    else if n == |rest| then r.Stuck?
    else if StopsThread(a, rest[n]) && Dies(c, a) then r.Died?
    else if StopsThread(a, rest[n]) && Flipping(c, a) then
      EndsIn(c, input.same, Track({}, rest[..n]), rest[n + 1..], r)
    else ComesTo(c, input, next + n + 1, k + 1, r)
  }

  /** A failed attempt, whose wait returned `e`, leaves its child unattended. */
  predicate Leaves(a: Attempt, e: Event) {
    !KillsChild(a, e) && !(IsDeath(e) && e.pid == a.pid)
  }

  /** How many children the run from launch number `k` on launches and abandons at a later launch. */
  ghost function LeftBehind(c: Config, input: Input, next: nat, k: nat): nat
    requires next <= |input.stream| && k <= Budget(c)
    decreases Budget(c) - k
  {
    var a, rest := input.attempts(k), input.stream[next..];
    var n := SkipCount({}, rest);
    if k == Budget(c) || c.injectionsPerRun == 0 then 0
    else if !a.setOptions then LeftBehind(c, input, next, k + 1)
    else if n == |rest| || (StopsThread(a, rest[n]) && (Dies(c, a) || Flipping(c, a))) then 0
    else (if Leaves(a, rest[n]) && k + 1 < Budget(c) then 1 else 0) + LeftBehind(c, input, next + n + 1, k + 1)
  }

  /** What the run from launch `k'` on comes to, the run from launch `k` on does. */
  ghost predicate Leads(c: Config, input: Input, next: nat, k: nat, next': nat, k': nat)
    requires next <= |input.stream| && next' <= |input.stream| && k <= Budget(c) && k' <= Budget(c)
  {
    forall r :: ComesTo(c, input, next', k', r) ==> ComesTo(c, input, next, k, r)
  }

  /** The run from launch `k` on ends as the wait for the outcome does. */
  ghost predicate Settles(c: Config, input: Input, next: nat, k: nat, threads: set<int>, rest: seq<Event>)
    requires next <= |input.stream| && k <= Budget(c)
  {
    forall r :: EndsIn(c, input.same, threads, rest, r) ==> ComesTo(c, input, next, k, r)
  }

  /** What leaving the retry loop with `r` after launch `k` makes of the run. */
  ghost predicate Leaving(c: Config, input: Input, next: nat, k: nat, r: Step<bool>,
                          threads: set<int>, rest: seq<Event>)
    requires next <= |input.stream| && k <= Budget(c)
  {
    match r
    case Blocked => ComesTo(c, input, next, k, Stuck)
    case Fatal => ComesTo(c, input, next, k, Died)
    case Done(left) => left ==> Settles(c, input, next, k, threads, rest)
  }

  lemma LeadsOn(c: Config, input: Input, next: nat, k: nat, next': nat, k': nat, next'': nat, k'': nat)
    requires next <= |input.stream| && next' <= |input.stream| && next'' <= |input.stream|
    requires k <= Budget(c) && k' <= Budget(c) && k'' <= Budget(c)
    requires Leads(c, input, next, k, next', k') && Leads(c, input, next', k', next'', k'')
    ensures Leads(c, input, next, k, next'', k'')
  {
    hide ComesTo;
  }

  lemma LeadsLeaving(c: Config, input: Input, next: nat, k: nat, next': nat, k': nat, r: Step<bool>,
                     threads: set<int>, rest: seq<Event>)
    requires next <= |input.stream| && next' <= |input.stream| && k <= Budget(c) && k' <= Budget(c)
    requires Leads(c, input, next, k, next', k') && Leaving(c, input, next', k', r, threads, rest)
    ensures Leaving(c, input, next, k, r, threads, rest)
  {
    hide ComesTo, EndsIn;
  }

  lemma NotStarted(c: Config, input: Input, next: nat, k: nat)
    requires next <= |input.stream| && k < Budget(c) && c.injectionsPerRun > 0 && !input.attempts(k).setOptions
    ensures Leads(c, input, next, k, next, k + 1) && LeftBehind(c, input, next, k) == LeftBehind(c, input, next, k + 1)
  {
  }

  lemma NotInjected(c: Config, input: Input, next: nat, k: nat)
    requires next <= |input.stream| && k < Budget(c) && c.injectionsPerRun == 0
    ensures Settles(c, input, next, k, {}, input.stream[next..]) && LeftBehind(c, input, next, k) == 0
  {
    hide EndsIn;
  }

  /** What one attempt makes of the run. */
  lemma Attempted(c: Config, input: Input, next: nat, k: nat)
    requires next <= |input.stream| && k < Budget(c) && c.injectionsPerRun > 0 && input.attempts(k).setOptions
    ensures var a, rest := input.attempts(k), input.stream[next..];
            var n := SkipCount({}, rest);
            if n == |rest| then ComesTo(c, input, next, k, Stuck) && LeftBehind(c, input, next, k) == 0
            else if StopsThread(a, rest[n]) && Dies(c, a) then
              ComesTo(c, input, next, k, Died) && LeftBehind(c, input, next, k) == 0
            else if StopsThread(a, rest[n]) && Flipping(c, a) then
              Settles(c, input, next, k, Track({}, rest[..n]), rest[n + 1..]) && LeftBehind(c, input, next, k) == 0
            else
              && Leads(c, input, next, k, next + n + 1, k + 1)
              && LeftBehind(c, input, next, k) ==
                 (if Leaves(a, rest[n]) && k + 1 < Budget(c) then 1 else 0) + LeftBehind(c, input, next + n + 1, k + 1)
  {
    hide EndsIn, Dies, Flipping, SkipCount, Track;
  }

  lemma NoLaunchLeft(c: Config, input: Input, next: nat)
    requires next <= |input.stream|
    ensures ComesTo(c, input, next, Budget(c), GaveUp) && LeftBehind(c, input, next, Budget(c)) == 0
  {
  }

  lemma EndsInOne(c: Config, same: bool, threads: set<int>, rest: seq<Event>, r: RunResult, q: RunResult)
    requires EndsIn(c, same, threads, rest, r) && EndsIn(c, same, threads, rest, q)
    ensures r == q
  {
    hide Explains, SkipCount;
    var n := SkipCount(threads, rest);
    if n < |rest| && r.Classified? && q.Classified? {
      ExplainsOne(c, r.status, q.status, rest[n].what, same);
    }
  }

  /** A run comes to one end only. */
  lemma {:induction false} ComesToOne(c: Config, input: Input, next: nat, k: nat, r: RunResult, q: RunResult)
    requires next <= |input.stream| && k <= Budget(c)
    requires ComesTo(c, input, next, k, r) && ComesTo(c, input, next, k, q)
    ensures r == q
    decreases Budget(c) - k
  {
    hide EndsIn, SkipCount, Dies, Flipping, Track;
    if k < Budget(c) {
      var a, rest := input.attempts(k), input.stream[next..];
      var n := SkipCount({}, rest);
      if c.injectionsPerRun == 0 {
        EndsInOne(c, input.same, {}, rest, r, q);
      } else if !a.setOptions {
        ComesToOne(c, input, next, k + 1, r, q);
      } else if n < |rest| && !(StopsThread(a, rest[n]) && Dies(c, a)) {
        if StopsThread(a, rest[n]) && Flipping(c, a) {
          EndsInOne(c, input.same, Track({}, rest[..n]), rest[n + 1..], r, q);
        } else {
          ComesToOne(c, input, next + n + 1, k + 1, r, q);
        }
      }
    }
  }

  class Runner {
    const kernel: Kernel
    const config: Config
    const stats: Stats.Statistics
    var childPID: int
    var childThreads: set<int>
    var childTerminalFd: int
    var childPIDToInject: int
    var launches: nat
    ghost var seen: seq<Event>  // the events since the launch

    ghost predicate Valid()
      reads this, kernel, stats
    {
      && kernel.Valid() && kernel.expected == Expected(config) && stats.Valid()
      && var v := kernel.view;
      && v.ok && v.launches == launches && v.pid == childPID
      && v.pty == (if childTerminalFd == -1 then Option.None else Some(childTerminalFd))
      && (config.noRedirect ==> childTerminalFd == -1)
      && kernel.fate.ok && kernel.fate.pid == childPID
      && (launches > 0 ==> childPID > 0 && v.threads == {childPID} + AnnouncedBy(seen))
      && childThreads <= v.threads && childThreads == Track({}, seen)
      && (forall n :: GoodAttempt(config, kernel.attempts(n)))
      && |seen| <= kernel.next && seen == kernel.stream[kernel.next - |seen|..kernel.next]
    }

    /** The child launched last is neither flipped, half killed nor classified. */
    ghost predicate Fresh()
      reads this, kernel
    {
      kernel.view.flips == 0 && !kernel.view.pending && !kernel.view.classified
    }

    constructor (kernel: Kernel, config: Config, stats: Stats.Statistics)
      requires kernel.Valid() && kernel.log == [] && kernel.expected == Expected(config) && stats.Valid()
      requires forall n :: GoodAttempt(config, kernel.attempts(n))
      ensures Valid() && Fresh() && launches == 0
      ensures this.kernel == kernel && this.config == config && this.stats == stats
    {
      this.kernel, this.config, this.stats := kernel, config, stats;
      childPID, childThreads, childTerminalFd, childPIDToInject, launches, seen := 0, {}, -1, 0, 0, [];
    }

    /** The event waited for last. */
    ghost function Last(): Event
      reads this
      requires seen != []
    {
      seen[|seen| - 1]
    }

    /** Closes the terminal of the last launch; the field keeps the closed descriptor. */
    method CloseOpenTerminal()
      requires Valid()
      modifies kernel`log, kernel`view, kernel`fate
      ensures kernel.Valid() && kernel.view == old(kernel.view).(pty := Option.None) && kernel.fate == old(kernel.fate)
    {
      if childTerminalFd != -1 { kernel.Do(ClosePty(childTerminalFd)); }
    }

    /** Closes the terminal of the last launch and opens one for the next, if its output is redirected. */
    method SwitchTerminal(fd: int)
      requires Valid() && fd >= 0
      modifies this`childTerminalFd, kernel`log, kernel`view, kernel`fate
      ensures kernel.Valid() && childTerminalFd == if config.noRedirect then -1 else fd
      ensures kernel.view == old(kernel.view).(pty := if config.noRedirect then Option.None else Some(fd))
      ensures kernel.fate == old(kernel.fate)
    {
      hide Watch, FateOf, Conts;
      CloseOpenTerminal();
      if !config.noRedirect {
        childTerminalFd := fd;
        kernel.Do(OpenPty(childTerminalFd));
      }
    }

    /** Forks the child, on a terminal of its own unless its output is not redirected. */
    method ForkChild(a: Attempt)
      requires Valid() && Fresh() && Settled(kernel.fate) && a.pid > 0 && a.fd >= 0
      modifies this`childPID, this`childTerminalFd, this`launches, this`childThreads, this`seen
      modifies kernel`log, kernel`view, kernel`fate
      ensures Valid() && Fresh() && launches == old(launches) + 1
      ensures childPID == a.pid && seen == [] && childThreads == {}
      ensures childTerminalFd == if config.noRedirect then -1 else a.fd
      ensures kernel.fate ==
              Newborn(childPID, old(kernel.fate.abandoned) + if old(Unattended(kernel.fate)) then 1 else 0)
      ensures kernel.view.starts == old(kernel.view.starts) && kernel.view.totalFlips == old(kernel.view.totalFlips)
    {
      assert Track({}, []) == {} == AnnouncedBy([]);
      hide Watch, FateOf, Conts, Track, AnnouncedBy;
      SwitchTerminal(a.fd);
      childThreads, seen := {}, [];
      childPID := a.pid;
      kernel.Do(Launch(childPID));
      launches := launches + 1;
    }

    /** Launches the child; false when it finishes too soon to be traced. */
    method Run() returns (success: bool)
      requires Valid() && Fresh() && Settled(kernel.fate)
      modifies this`childPID, this`childTerminalFd, this`launches, this`childThreads, this`seen
      modifies kernel`log, kernel`view, kernel`fate
      ensures Valid() && Fresh() && launches == old(launches) + 1 && seen == [] && childThreads == {}
      ensures success == kernel.attempts(old(launches)).setOptions && childPID == kernel.attempts(old(launches)).pid
      ensures if success then Untouched(kernel.fate) else !kernel.fate.started
      ensures kernel.fate.abandoned == old(kernel.fate.abandoned) + if old(Unattended(kernel.fate)) then 1 else 0
      ensures kernel.view.starts == old(kernel.view.starts) + if success then 1 else 0
      ensures kernel.view.totalFlips == old(kernel.view.totalFlips)
    {
      var a := kernel.attempts(launches);
      ForkChild(a);
      if !a.setOptions { return false; }
      kernel.Do(Start(childPID));
      return true;
    }

    /** The body of the event loop; `threadStateChanged` if the event only told of a change of the threads. */
    method ProcessEvent() returns (e: Event, threadStateChanged: bool)
      requires Valid() && launches > 0 && kernel.next < |kernel.stream|
      modifies this`childThreads, this`seen, kernel`log, kernel`view, kernel`fate, kernel`next
      ensures Valid() && e == kernel.stream[old(kernel.next)] && kernel.next == old(kernel.next) + 1
      ensures seen == old(seen) + [e] && kernel.fate == old(kernel.fate)
      ensures threadStateChanged <==> |seen| - 1 !in ReturnedFrom(seen, 0)
      ensures threadStateChanged == Swallowed(old(childThreads), e)
      ensures childThreads == TrackStep(old(childThreads), e)
      ensures !threadStateChanged ==> childThreads == old(childThreads)
      ensures Grows(old(kernel.view), kernel.view)
      ensures threadStateChanged ==> Conts(kernel.log) == Conts(old(kernel.log)) + ResumedBy(childPID, [e])
      ensures Conts(kernel.log) == Conts(old(kernel.log)) +
              if e.what.CloneStop? then [childPID]
              else if e.pid in old(childThreads) && e.what == Stop(19) then [e.pid] else []
      ensures !threadStateChanged ==> kernel.log == old(kernel.log)
    {
      hide Watch, FateOf, Conts, ResumedBy, Track, ReturnedFrom, AnnouncedBy;
      e := kernel.WaitAny();
      threadStateChanged := false;
      OneMore(kernel.stream, kernel.next - 1, seen);
      AnnouncedBySnoc(seen, e);
      ReturnedSnoc(seen, e);
      ResumedByOne(childPID, e);
      TrackSnoc({}, seen, e);
      if e.what.CloneStop? {
        kernel.Do(Announce(e.what.child));
        childThreads := childThreads + {e.what.child};
        threadStateChanged := true;
        kernel.Do(Cont(childPID));
      } else if e.pid in childThreads {
        if e.what == Stop(SIGSTOP) {
          kernel.Do(Cont(e.pid));
          threadStateChanged := true;
        } else if e.what.Exit? {
          childThreads := childThreads - {e.pid};
          threadStateChanged := true;
        } else if e.what.Death? {
          childThreads := childThreads - {e.pid};
          threadStateChanged := true;
        }
      }
      seen := seen + [e];
      assert AnnouncedBy(seen) == AnnouncedBy(old(seen)) + AnnouncedIn(e);
      assert kernel.view.threads == {childPID} + AnnouncedBy(seen);
    }

    /** Picks a process of the child at random and signals it; the answer to the signal is known. */
    method SleepAndStopRandomChildThread(a: Attempt)
      requires Valid() && launches > 0
      modifies this`childPIDToInject
      ensures Valid() && childPIDToInject in kernel.view.threads
      ensures childPIDToInject == Pick(childPID, childThreads, a.rand % (|childThreads| + 1))
    {
      hide Watch, FateOf, Conts, Track, AnnouncedBy;
      childPIDToInject := GetRandomChildThreadPID(childPID, childThreads, a.rand % (|childThreads| + 1));
    }

    /** One turn of the event loop, when the first `i` events of `rest` have been swallowed. */
    method Turn(ghost start: set<int>, ghost conts: seq<int>, ghost u: View, ghost rest: seq<Event>, ghost i: nat)
      returns (e: Event, changed: bool)
      requires Valid() && launches > 0 && i < |rest| && i <= kernel.next && rest == kernel.stream[kernel.next - i..]
      requires Waiting(start, childPID, conts, u, rest, i, childThreads, Conts(kernel.log), kernel.view)
      modifies this`childThreads, this`seen, kernel`log, kernel`view, kernel`fate, kernel`next
      ensures Valid() && e == rest[i] && kernel.next == old(kernel.next) + 1
      ensures old(kernel.view.threads) <= kernel.view.threads
      ensures changed ==> Waiting(start, childPID, conts, u, rest, i + 1, childThreads, Conts(kernel.log), kernel.view)
      ensures kernel.fate == old(kernel.fate)
      ensures !changed ==>
                && seen != [] && e == Last() && |seen| - 1 in ReturnedFrom(seen, 0)
                && SkipCount(start, rest) == i && !Swallowed(childThreads, e)
                && Swept(start, childPID, conts, u, rest, childThreads, Conts(kernel.log), kernel.view)
    {
      hide Observe, Follow, Watch, FateOf, Conts, SkipCount, Swallowed, TrackStep, SwallowedAll, ResumedBy, Track,
        ReturnedFrom, AnnouncedBy;
      SkipStep(start, childThreads, rest, i, childPID, conts, Conts(kernel.log));
      e, changed := ProcessEvent();
    }

    /** The sleeper wakes up if its time has come. */
    method Wake(sleeper: Option<nat>, a: Attempt, asleep: bool, processed: nat) returns (stillAsleep: bool)
      requires Valid() && launches > 0 && (asleep ==> sleeper.Some?)
      modifies this`childPIDToInject
      ensures Valid() && (stillAsleep ==> asleep)
      ensures stillAsleep <==> asleep && processed < sleeper.value
      ensures asleep && !stillAsleep ==>
                && childPIDToInject in kernel.view.threads
                && childPIDToInject == Pick(childPID, childThreads, a.rand % (|childThreads| + 1))
      ensures asleep == stillAsleep ==> childPIDToInject == old(childPIDToInject)
    {
      stillAsleep := asleep;
      if asleep && sleeper.value <= processed {
        SleepAndStopRandomChildThread(a);
        stillAsleep := false;
      }
    }

    /**
      Waits for the first event that is not swallowed.  The sleeper, if there is one, wakes up
      after `sleeper` events or, at the latest, before the event is returned.
     */
    method WaitpidSkipThreadState(sleeper: Option<nat>, a: Attempt) returns (r: Option<Event>)
      requires Valid() && launches > 0
      modifies this`childThreads, this`childPIDToInject, this`seen, kernel`log, kernel`view, kernel`fate, kernel`next
      ensures Valid()
      ensures var rest := kernel.stream[old(kernel.next)..];
              var n := SkipCount(old(childThreads), rest);
              && (r.None? <==> n == |rest|)
              && (r.Some? ==> r.value == rest[n] && kernel.next == old(kernel.next) + n + 1)
      ensures Swept(old(childThreads), childPID, Conts(old(kernel.log)), old(kernel.view),
                old(kernel.stream[kernel.next..]), childThreads, Conts(kernel.log), kernel.view)
      ensures r.Some? ==> !Swallowed(childThreads, r.value)
      ensures r.Some? ==> seen != [] && r.value == Last() && |seen| - 1 in ReturnedFrom(seen, 0)
      ensures kernel.fate == old(kernel.fate)
      ensures sleeper.Some? && r.Some? ==> childPIDToInject in kernel.view.threads
      ensures sleeper.None? ==> childPIDToInject == old(childPIDToInject)
      // The process to inject to is picked among those tracked when the sleeper wakes up.
      ensures sleeper.Some? && r.Some? ==>
                var rest := old(kernel.stream[kernel.next..]);
                var n := SkipCount(old(childThreads), rest);
                childPIDToInject ==
                Target(childPID, old(childThreads), rest, if sleeper.value < n then sleeper.value else n, a.rand)
    {
      hide Observe, Follow, Watch, FateOf, Conts, SkipCount, Swallowed, TrackStep, SwallowedAll, ResumedBy,
        Track, Grows, ReturnedFrom, AnnouncedBy, Waiting, Swept, Target;
      ghost var rest, start, conts, u := kernel.stream[kernel.next..], childThreads, Conts(kernel.log), kernel.view;
      ghost var i: nat := 0;
      WaitingStart(start, childPID, conts, u, rest);
      var asleep := sleeper.Some?;
      var processed: nat := 0;
      while true
        invariant Valid() && i <= |rest| && kernel.next == old(kernel.next) + i
        invariant Waiting(start, childPID, conts, u, rest, i, childThreads, Conts(kernel.log), kernel.view)
        invariant kernel.fate == old(kernel.fate)
        invariant asleep ==> sleeper.Some?
        invariant processed == i && (asleep ==> i <= sleeper.value)
        invariant sleeper.Some? && !asleep ==>
                    && sleeper.value <= i && childPIDToInject in kernel.view.threads
                    && childPIDToInject == Target(childPID, start, rest, sleeper.value, a.rand)
        invariant sleeper.None? ==> childPIDToInject == old(childPIDToInject)
        decreases |rest| - i
      {
        WaitingTracks(start, childPID, conts, u, rest, i, childThreads, Conts(kernel.log), kernel.view, a.rand);
        asleep := Wake(sleeper, a, asleep, processed);
        if kernel.next == |kernel.stream| {
          WaitingEnd(start, childPID, conts, u, rest, childThreads, Conts(kernel.log), kernel.view);
          return Option.None;
        }
        var e, changed := Turn(start, conts, u, rest, i);
        if !changed {
          SweptTracks(start, childPID, conts, u, rest, childThreads, Conts(kernel.log), kernel.view, a.rand);
          if asleep { SleepAndStopRandomChildThread(a); }
          return Some(e);
        }
        i, processed := i + 1, processed + 1;
      }
    }

    /** Kills a child that is traced but has not ended. */
    method PtraceKillChild()
      requires Valid() && launches > 0
      modifies kernel`log, kernel`view, kernel`fate
      ensures Valid() && kernel.view == old(kernel.view).(pending := kernel.view.pending, killed := false)
      ensures !old(kernel.view.pending) ==> !kernel.view.pending
      ensures kernel.fate == old(kernel.fate).(condemned := true, gone := true)
      ensures kernel.log == old(kernel.log) + [PtraceKill(childPID), Reap(childPID)]
    {
      hide Watch, FateOf, Conts;
      kernel.Do(PtraceKill(childPID));
      kernel.Do(Reap(childPID));
    }

    /** How many events the next wait will swallow. */
    ghost function Waits(): nat
      reads this, kernel
      requires kernel.next <= |kernel.stream|
    {
      SkipCount(childThreads, kernel.stream[kernel.next..])
    }

    /** What the next wait will return, if anything. */
    ghost function Upcoming(): Option<Event>
      reads this, kernel
      requires kernel.next <= |kernel.stream|
    {
      var rest := kernel.stream[kernel.next..];
      var n := SkipCount(childThreads, rest);
      if n == |rest| then Option.None else Some(rest[n])
    }

    lemma Rest(from: nat, k: nat)
      requires from + k <= |kernel.stream|
      ensures kernel.stream[from..][k..] == kernel.stream[from + k..]
    {
    }

    /** Where the wait that has consumed events from `from` on has got to. */
    lemma Remaining(rest: seq<Event>, from: nat, n: nat)
      requires from <= |kernel.stream| && kernel.next <= |kernel.stream| && rest == kernel.stream[from..]
      requires n < |rest| && rest[n + 1..] == kernel.stream[kernel.next..]
      ensures kernel.next == from + n + 1
    {
      assert |rest[n + 1..]| == |kernel.stream[kernel.next..]|;
    }

    /** The wait has consumed the events of `rest` up to the first that is not swallowed by `start`. */
    ghost predicate Consumed(start: set<int>, rest: seq<Event>)
      reads this, kernel
    {
      var n := SkipCount(start, rest);
      && n < |rest| && kernel.next <= |kernel.stream| && rest[n + 1..] == kernel.stream[kernel.next..]
      && childThreads == Track(start, rest[..n])
    }

    /** Waits while the sleeper stops a thread; true if a thread of the child is stopped now. */
    method StopChildAfter(a: Attempt) returns (r: Step<bool>)
      requires Valid() && Fresh() && launches > 0 && Untouched(kernel.fate)
      modifies this`childThreads, this`childPIDToInject, this`seen, kernel`log, kernel`view, kernel`fate, kernel`next
      ensures Valid() && Fresh()
      ensures kernel.view.starts == old(kernel.view.starts) && kernel.view.totalFlips == old(kernel.view.totalFlips)
      ensures r.Done? && r.value ==> childPIDToInject in kernel.view.threads
      ensures !r.Fatal? && (r.Blocked? <==> old(Upcoming()).None?)
      // Stopped exactly if the signal was sent and the next event to be returned is a stop.
      ensures r.Done? ==> Consumed(old(childThreads), old(kernel.stream[kernel.next..]))
      ensures r.Done? ==> var e := old(Upcoming()).value; r.value <==> a.kill && e.what.Stop?
      ensures r.Done? && r.value ==> Untouched(kernel.fate)
      ensures r.Done? ==>
                var rest := old(kernel.stream[kernel.next..]);
                var n := SkipCount(old(childThreads), rest);
                childPIDToInject ==
                Target(childPID, old(childThreads), rest, if a.pickAfter < n then a.pickAfter else n, a.rand)
      ensures kernel.fate.abandoned == old(kernel.fate.abandoned)
      // Else the child is killed exactly if the signal was sent and the event is a death.
      ensures r.Done? && !r.value ==>
                var e := old(Upcoming()).value;
                && kernel.fate.started && kernel.fate.ended == (IsDeath(e) && e.pid == childPID)
                && kernel.fate.gone == (a.kill && e.what.Death?) && kernel.fate.excused == !kernel.fate.gone
                && EndsWith(kernel.log, if a.kill && e.what.Death? then [PtraceKill(childPID), Reap(childPID)]
                                        else [Waited(e), Joined(a.kill)])
    {
      hide Watch, FateOf, Observe, Conts, ResumedBy, SkipCount, Track, AnnouncedBy, ReturnedFrom, Target;
      var e := WaitpidSkipThreadState(Some(a.pickAfter), a);
      if e.None? { return Blocked; }
      Rest(old(kernel.next), old(Waits()) + 1);
      NoteWaited(e.value, a.kill);
      if !a.kill { return Done(false); }
      if e.value.what.Exit? { return Done(false); }
      if e.value.what.Death? {
        PtraceKillChild();
        return Done(false);
      }
      return Done(true);
    }

    /** The wait is over and the sleeper has been joined. */
    method NoteWaited(e: Event, sent: bool)
      requires Valid()
      modifies kernel`log, kernel`view, kernel`fate
      ensures Valid() && kernel.view == old(kernel.view)
      ensures kernel.log == old(kernel.log) + [Waited(e), Joined(sent)]
      ensures var f := old(kernel.fate);
              kernel.fate == f.(excused := f.excused || e.what.Exit? || !sent,
                                ended := f.ended || (e.pid == f.pid && IsDeath(e)), last := Some(e.pid))
    {
      hide Watch, FateOf, Conts;
      kernel.Do(Waited(e));
      kernel.Do(Joined(sent));
    }

    /** Flips one bit of the stopped thread. */
    method DoBitFlip(a: Attempt) returns (r: Step<bool>)
      requires Valid() && Fresh() && childPIDToInject in kernel.view.threads && GoodAttempt(config, a)
      modifies kernel`log, kernel`view, kernel`fate
      ensures Valid() && !r.Blocked?
      ensures r.Fatal? <==> Dies(config, a)
      ensures r.Done? ==> (r.value <==> Flipping(config, a))
      ensures config.dontInjectToLibs && a.inLibrary == Some(true) ==> r == Done(false)
      ensures a.selected.NoRegister? && !config.dontInjectToLibs ==> r == Done(false)
      // A register that is written is flipped right after a single step, any other one at once.
      ensures r.Done? && r.value ==>
                kernel.log == old(kernel.log) + (if a.selected.written then [SingleStep(childPIDToInject)] else []) +
                              [Flip(childPIDToInject, ChangeBy(config, a)), Cont(childPIDToInject)]
      ensures AfterFlip(old(kernel.view), kernel.view, r == Done(true))
      ensures kernel.fate == AfterChange(old(kernel.fate), config, a)
    {
      hide Watch, FateOf, Conts, Track, AnnouncedBy, ChangeBy, ReadBefore, AtFlip, Follow, Observe;
      var rm := Examine(a);
      if config.dontInjectToLibs {
        if a.inLibrary.None? { return Fatal; }
        if a.inLibrary.value { return Done(false); }
      }
      match a.selected {
        case UnknownRegister => return Fatal;
        case NoRegister => return Done(false);
        case Register(_, _, _) =>
          r := StepIfWritten(a, rm.machine);
          if r != Done(true) { return; }
      }
      r := TryBitFlip(a, rm);
    }

    /** Reads the registers of the stopped thread, for its program counter. */
    method Examine(a: Attempt) returns (rm: Registers.RegisterManipulator)
      requires GoodAttempt(config, a)
      ensures rm.Valid() && rm.regs == config.regs && rm.machine.state == a.thread.stopped
      ensures rm.Buffer() == ReadBefore(a)
      ensures fresh(rm.machine) && fresh(rm.gpregs) && fresh(rm.vecregs.mem)
    {
      var machine := new Registers.Machine(a.thread.stopped);
      rm := new Registers.RegisterManipulator(machine, config.regs);
      var ip := rm.GetProgramCounter(a.thread.readForIP);
    }

    /** Steps the thread if the instruction writes the register; false if the alarm goes off meanwhile. */
    method StepIfWritten(a: Attempt, machine: Registers.Machine) returns (r: Step<bool>)
      requires Valid() && Fresh() && childPIDToInject in kernel.view.threads && Selectable(config, a)
      requires machine.state == a.thread.stopped
      modifies kernel`log, kernel`view, kernel`fate, machine
      ensures Valid() && !r.Blocked? && kernel.view == old(kernel.view) && kernel.fate == old(kernel.fate)
      ensures kernel.log == old(kernel.log) + if a.selected.written then [SingleStep(childPIDToInject)] else []
      ensures r.Fatal? <==> a.selected.written && a.step !in {Stop(5), Stop(14)}
      ensures r == Done(true) <==> Ready(config, a)
      ensures r == Done(true) ==> machine.state == AtFlip(config, a)
      ensures r == Done(true) ==> machine.state == if a.selected.written then a.thread.stepped else a.thread.stopped
    {
      hide Watch, FateOf, Conts, Track, AnnouncedBy;
      if a.selected.written {
        kernel.Do(SingleStep(childPIDToInject));
        if a.step == Stop(SIGALRM) { return Done(false); }
        if a.step != Stop(SIGTRAP) { return Fatal; }
        machine.state := a.thread.stepped;
      }
      return Done(true);
    }

    /** Flips the bit, and if that succeeds resumes the thread. */
    method TryBitFlip(a: Attempt, rm: Registers.RegisterManipulator) returns (r: Step<bool>)
      requires Valid() && Fresh() && childPIDToInject in kernel.view.threads
      requires GoodAttempt(config, a) && Ready(config, a)
      requires rm.Valid() && rm.regs == config.regs
      requires rm.machine.state == AtFlip(config, a) && rm.Buffer() == ReadBefore(a)
      modifies kernel`log, kernel`view, kernel`fate, rm.machine, rm.gpregs, rm.vecregs.mem
      ensures Valid() && !r.Blocked?
      ensures r == match Written(config, a) case Done => Done(true) case ExportFailed => Done(false) case Fatal => Fatal
      ensures Written(config, a).Done? ==> rm.machine.state == ChangeBy(config, a).after
      ensures kernel.log == old(kernel.log) + if !Flipping(config, a) then []
                            else [Flip(childPIDToInject, ChangeBy(config, a)), Cont(childPIDToInject)]
      ensures AfterFlip(old(kernel.view), kernel.view, Flipping(config, a))
      ensures kernel.fate == AfterChange(old(kernel.fate), config, a)
    {
      hide Watch, FateOf, Conts, Track, AnnouncedBy, Follow, Observe;
      var reg, bit, before := a.selected.reg, a.selected.bit, rm.machine.state;
      var outcome := rm.TryBitFlip(reg, bit, a.thread.readForFlip, a.thread.setRegs, a.thread.setRegSet);
      match outcome {
        case Fatal => return Fatal;
        case ExportFailed => return Done(false);
        case Done =>
          NoteFlip(Registers.Change(config.regs[reg], bit, before, rm.machine.state));
          return Done(true);
      }
    }

    /** The flip has been written back, and the thread is resumed. */
    method NoteFlip(change: Registers.Change)
      requires Valid() && Fresh() && childPIDToInject in kernel.view.threads
      modifies kernel`log, kernel`view, kernel`fate
      ensures Valid() && AfterFlip(old(kernel.view), kernel.view, true)
      ensures kernel.log == old(kernel.log) + [Flip(childPIDToInject, change), Cont(childPIDToInject)]
      ensures kernel.fate == old(kernel.fate).(change := Some(change))
    {
      hide Watch, FateOf, Conts, Track, AnnouncedBy;
      kernel.Do(Flip(childPIDToInject, change));
      kernel.Do(Cont(childPIDToInject));
    }

    /** The injections that failed, as this process counts them. */
    ghost function Failures(): nat
      reads this, stats
      requires stats.Valid()
    {
      stats.counts[Stats.Kind.InjFailed]
    }

    method CountFailure()
      requires stats.Valid()
      modifies stats
      ensures stats.Valid() && Failures() == old(Failures()) + 1
    {
      var ok := stats.Incr(Stats.Kind.InjFailed);
    }

    /** Notes a failed flip, then kills the child. */
    method GiveUpChild()
      requires Valid() && Fresh() && launches > 0
      modifies kernel`log, kernel`view, kernel`fate, stats
      ensures Valid() && Fresh() && Failures() == old(Failures()) + 1
      ensures kernel.view.starts == old(kernel.view.starts) && kernel.view.totalFlips == old(kernel.view.totalFlips)
      ensures kernel.fate == old(kernel.fate).(condemned := true, gone := true)
      ensures EndsWith(kernel.log, [FlipFailed, Kill(childPID), Reap(childPID)])
    {
      hide Watch, FateOf, Conts, Track, AnnouncedBy;
      kernel.Do(FlipFailed);
      CountFailure();
      kernel.Do(Kill(childPID));
      kernel.Do(Reap(childPID));
    }

    /**
      One attempt.  On failure the child has been killed and reaped exactly if the signal was
      sent and no exit was returned, be it the exit of this child or of any other process;
      else nothing has been done to it.
     */
    method TryInjectFaultAt(a: Attempt) returns (r: Step<bool>)
      requires Valid() && Fresh() && launches > 0 && Untouched(kernel.fate)
      requires GoodAttempt(config, a) && childPID == a.pid
      modifies this`childThreads, this`childPIDToInject, this`seen, kernel`log, kernel`view, kernel`fate, kernel`next,
               stats
      ensures Valid()
      ensures kernel.view.starts == old(kernel.view.starts)
      ensures r.Blocked? <==> old(Upcoming()).None?
      ensures r.Fatal? <==> old(Upcoming()).Some? && StopsThread(a, old(Upcoming()).value) && Dies(config, a)
      ensures r.Done? ==> Consumed(old(childThreads), old(kernel.stream[kernel.next..]))
      ensures r.Done? ==>
                && !kernel.view.pending && !kernel.view.classified
                && kernel.view.flips == (if r.value then 1 else 0)
                && kernel.view.totalFlips == old(kernel.view.totalFlips) + (if r.value then 1 else 0)
                && Failures() == old(Failures()) + (if r.value then 0 else 1)
      ensures r.Done? ==>
                var e := old(Upcoming()).value;
                r.value <==> a.kill && e.what.Stop? && Flipping(config, a)
      ensures kernel.fate.abandoned == old(kernel.fate.abandoned)
      ensures r.Done? && r.value ==> kernel.fate.change == Some(ChangeBy(config, a))
      ensures r.Done? && !r.value ==>
                var e := old(Upcoming()).value;
                && Settled(kernel.fate) && kernel.fate.gone == (a.kill && !e.what.Exit?)
                && Unattended(kernel.fate) == Leaves(a, e)
                && if !a.kill || e.what.Exit? then EndsWith(kernel.log, [Waited(e), Joined(a.kill)])
                   else if e.what.Death? then EndsWith(kernel.log, [PtraceKill(childPID), Reap(childPID)])
                   else EndsWith(kernel.log, [FlipFailed, Kill(childPID), Reap(childPID)])
    {
      hide Watch, FateOf, Conts, Observe, SkipCount, Ready, Dies, Flipping, ChangeBy;
      UpcomingIsNoClone();
      var stopped := StopChildAfter(a);
      if stopped.Blocked? { return Blocked; }
      if !stopped.value {
        CountFailure();
        return Done(false);
      }
      var flipped := DoBitFlip(a);
      if flipped.Fatal? { return Fatal; }
      if !flipped.value {
        GiveUpChild();
        return Done(false);
      }
      return Done(true);
    }

    lemma UpcomingIsNoClone()
      requires kernel.next <= |kernel.stream|
      ensures Upcoming().Some? ==> !Upcoming().value.what.CloneStop?
    {
      var rest := kernel.stream[kernel.next..];
      var n := SkipCount(childThreads, rest);
      if n < |rest| { SkipCountSpec(childThreads, rest, n); }
    }

    /** The last event decides, and it is not looked at whose it is. */
    ghost predicate Decided()
      reads this, kernel
    {
      seen != [] && |seen| - 1 in ReturnedFrom(seen, 0) && kernel.fate.last == Some(Last().pid)
    }

    /**
      Classifies the outcome by the event of process `pid`; `same` tells whether exit state and
      output are those of the original run.
     */
    method WaitChildAndGetStatus(same: bool) returns (r: Step<FtStatus>, pid: int)
      requires Valid() && launches > 0
      modifies this`childThreads, this`childPIDToInject, this`seen, kernel`log, kernel`view, kernel`fate, kernel`next
      ensures Valid()
      ensures kernel.view.starts == old(kernel.view.starts) && kernel.view.totalFlips == old(kernel.view.totalFlips)
      ensures kernel.view.flips == old(kernel.view.flips) && kernel.view.classified == old(kernel.view.classified)
      ensures !old(kernel.view.pending) ==> !kernel.view.pending
      ensures SameHistory(old(kernel.fate), kernel.fate)
      ensures r.Blocked? <==> old(Upcoming()).None?
      ensures !r.Blocked? ==> Decided() && Last() == old(Upcoming()).value && pid == Last().pid
      ensures r.Done? ==> Explains(config, r.value, Last().what, same)
      ensures r.Fatal? <==> !config.noRedirect && seen != [] && old(Upcoming()).Some? && Last().what.Death?
      ensures r.Done? && (r.value.InfExec? || (r.value.Skipped? && !Last().what.Exit?)) ==>
                EndsWith(kernel.log, [PtraceKill(childPID), Reap(childPID)])
    {
      hide Watch, FateOf, Conts, SkipCount, Observe, Follow, Track, AnnouncedBy, ReturnedFrom;
      UpcomingIsNoClone();
      var event := WaitForDecision();
      if event.None? { return Blocked, 0; }
      pid := event.value.pid;
      var what := event.value.what;
      if config.noRedirect {
        if !what.Exit? {
          PtraceKillChild();
        }
        return Done(FtStatus.Skipped), pid;
      }
      match what {
        case Exit(code) =>
          if config.detectionExitCode > 0 && code == config.detectionExitCode { return Done(FtStatus.Detected), pid; }
          return Done(if same then FtStatus.Masked else FtStatus.Corrupted), pid;
        case Stop(signal) =>
          if signal == SIGALRM {
            PtraceKillChild();
            return Done(FtStatus.InfExec), pid;
          }
          return Done(if same then FtStatus.Masked else FtStatus.Exception), pid;
        case Death(_) =>
          return Fatal, pid;
        case CloneStop(_) =>
          assert false;
      }
    }

    /** Waits for the event that decides. */
    method WaitForDecision() returns (event: Option<Event>)
      requires Valid() && launches > 0
      modifies this`childThreads, this`childPIDToInject, this`seen, kernel`log, kernel`view, kernel`fate, kernel`next
      ensures Valid() && event == old(Upcoming()) && Grows(old(kernel.view), kernel.view)
      ensures event.Some? ==> Decided() && Last() == event.value
      ensures SameHistory(old(kernel.fate), kernel.fate)
    {
      hide Watch, FateOf, Conts, SkipCount, SwallowedAll, Observe, Track, AnnouncedBy, ReturnedFrom;
      event := WaitpidSkipThreadState(Option.None, kernel.attempts(launches));
      if event.Some? { NoteEvent(event.value); }
    }

    method NoteEvent(e: Event)
      requires Valid()
      modifies kernel`log, kernel`view, kernel`fate
      ensures Valid() && kernel.view == old(kernel.view) && kernel.log == old(kernel.log) + [Waited(e)]
      ensures kernel.fate.last == Some(e.pid) && SameHistory(old(kernel.fate), kernel.fate)
    {
      hide Watch, FateOf, Conts;
      kernel.Do(Waited(e));
    }

    /** The input of a run on this kernel. */
    ghost predicate On(input: Input)
      reads this
    {
      input.stream == kernel.stream && input.attempts == kernel.attempts
    }

    /** How many children have been abandoned, with the last one if it will be at the next launch. */
    ghost function AbandonedSoFar(): nat
      reads this, kernel
    {
      kernel.fate.abandoned + if Unattended(kernel.fate) && launches < Budget(config) then 1 else 0
    }

    /** The attempt made with the last launch has flipped a bit. */
    ghost predicate HasFlipped()
      reads this, kernel
    {
      && launches > 0 && GoodAttempt(config, kernel.attempts(launches - 1))
      && Flipping(config, kernel.attempts(launches - 1))
      && kernel.fate.change == Some(ChangeBy(config, kernel.attempts(launches - 1)))
    }

    /** One turn of the retry loop behind its counter: true if the loop is left. */
    method TryOnce(ghost input: Input) returns (r: Step<bool>)
      requires Valid() && Fresh() && Settled(kernel.fate) && kernel.view.totalFlips == 0
      requires On(input) && launches < Budget(config)
      modifies this, kernel`log, kernel`view, kernel`fate, kernel`next, stats
      ensures Valid() && launches == old(launches) + 1
      ensures r.Done? && !r.value ==>
                Fresh() && Settled(kernel.fate) && kernel.view.totalFlips == 0 && config.injectionsPerRun > 0
      ensures r.Done? && r.value ==>
                && !kernel.view.pending && !kernel.view.classified
                && kernel.view.flips == kernel.view.totalFlips == Expected(config)
      ensures r.Done? ==>
                Failures() - old(Failures()) ==
                if config.injectionsPerRun > 0
                then kernel.view.starts - old(kernel.view.starts) - kernel.view.totalFlips else 0
      ensures r.Done? && !r.value ==> Leads(config, input, old(kernel.next), old(launches), kernel.next, launches)
      ensures Leaving(config, input, old(kernel.next), old(launches), r, childThreads, kernel.stream[kernel.next..])
      ensures LeftBehind(config, input, old(kernel.next), old(launches)) + old(AbandonedSoFar()) ==
              if r.Done? && !r.value then LeftBehind(config, input, kernel.next, launches) + AbandonedSoFar()
              else kernel.fate.abandoned
      ensures r.Done? && r.value && config.injectionsPerRun > 0 ==> HasFlipped()
    {
      hide Watch, FateOf, Conts, Observe, Follow, SkipCount, Dies, Ready, Flipping, ChangeBy, AnnouncedBy, EndsIn,
        ComesTo, LeftBehind, Leads, Settles, Budget, GoodAttempt, Track;
      var success := Run();
      if config.injectionsPerRun == 0 {
        NotInjected(config, input, kernel.next, launches - 1);
        return Done(true);
      }
      if !success {
        NotStarted(config, input, kernel.next, launches - 1);
        return Done(false);
      }
      r := InjectOnce(input);
    }

    /** One turn from the launch on. */
    method InjectOnce(ghost input: Input) returns (r: Step<bool>)
      requires Valid() && Fresh() && Untouched(kernel.fate) && kernel.view.totalFlips == 0 && childThreads == {}
      requires On(input) && 0 < launches <= Budget(config) && childPID == kernel.attempts(launches - 1).pid
      requires config.injectionsPerRun > 0 && kernel.attempts(launches - 1).setOptions
      modifies this`childThreads, this`childPIDToInject, this`seen, kernel`log, kernel`view, kernel`fate, kernel`next,
               stats
      ensures Valid() && kernel.view.starts == old(kernel.view.starts)
      ensures r.Done? ==>
                && !kernel.view.pending && !kernel.view.classified
                && kernel.view.flips == kernel.view.totalFlips == (if r.value then 1 else 0)
                && Failures() == old(Failures()) + (if r.value then 0 else 1)
      ensures r.Done? && !r.value ==> Settled(kernel.fate)
      ensures r.Done? && r.value ==> HasFlipped()
      ensures r.Done? && !r.value ==> Leads(config, input, old(kernel.next), launches - 1, kernel.next, launches)
      ensures Leaving(config, input, old(kernel.next), launches - 1, r, childThreads, kernel.stream[kernel.next..])
      ensures LeftBehind(config, input, old(kernel.next), launches - 1) + old(kernel.fate.abandoned) ==
              if r.Done? && !r.value then LeftBehind(config, input, kernel.next, launches) + AbandonedSoFar()
              else kernel.fate.abandoned
    {
      hide Watch, FateOf, Conts, Observe, Follow, SkipCount, Dies, Ready, Flipping, ChangeBy, AnnouncedBy, EndsIn,
        ComesTo, LeftBehind, Leads, Settles, Budget, Leaves, EndsWith, GoodAttempt, Track;
      Attempted(config, input, kernel.next, launches - 1);
      ghost var rest := kernel.stream[kernel.next..];
      ghost var n := SkipCount({}, rest);
      assert Upcoming() == if n == |rest| then Option.None else Some(rest[n]);
      r := TryInjectFaultAt(kernel.attempts(launches - 1));
      if r.Done? {
        Remaining(rest, old(kernel.next), n);
        assert childThreads == Track({}, rest[..n]) && kernel.stream[kernel.next..] == rest[n + 1..];
      }
    }

    lemma AtStart(input: Input)
      requires Valid() && kernel.log == [] && launches == 0 && On(input)
      ensures kernel.view.starts == 0 && kernel.view.totalFlips == 0 && Settled(kernel.fate)
      ensures AbandonedSoFar() == 0 && kernel.fate.abandoned == 0
      ensures Leads(config, input, kernel.next, 0, kernel.next, 0)
    {
      hide ComesTo;
    }

    /** When the launches are used up the run is given up, and the last child has nobody launched after it. */
    lemma UsedUp(input: Input, from: nat)
      requires On(input) && from <= |input.stream| && kernel.next <= |input.stream| && launches == Budget(config)
      requires Leads(config, input, from, 0, kernel.next, launches)
      ensures ComesTo(config, input, from, 0, GaveUp)
      ensures Leaving(config, input, from, 0, Done(false), childThreads, kernel.stream[kernel.next..])
      ensures AbandonedSoFar() == kernel.fate.abandoned && LeftBehind(config, input, kernel.next, launches) == 0
    {
      NoLaunchLeft(config, input, kernel.next);
    }

    /** The retry loop: true if it is left to wait for the child, false if the attempts are used up. */
    method InjectLoop(ghost input: Input) returns (r: Step<bool>)
      requires Valid() && Fresh() && launches == 0 && kernel.log == [] && On(input)
      modifies this, kernel`log, kernel`view, kernel`fate, kernel`next, stats
      ensures Valid() && launches <= Budget(config)
      ensures r.Done? && !r.value ==>
                && launches == Budget(config) && kernel.view.totalFlips == 0
                && Failures() == old(Failures()) + kernel.view.starts
      ensures r.Done? && r.value ==>
                && launches > 0 && !kernel.view.pending && !kernel.view.classified
                && kernel.view.flips == kernel.view.totalFlips == Expected(config)
                && (config.injectionsPerRun > 0 ==> Failures() + 1 == old(Failures()) + kernel.view.starts)
                && (config.injectionsPerRun == 0 ==> Failures() == old(Failures()) && launches == 1)
      ensures r.Done? && !r.value ==> ComesTo(config, input, old(kernel.next), 0, GaveUp)
      ensures Leaving(config, input, old(kernel.next), 0, r, childThreads, kernel.stream[kernel.next..])
      ensures kernel.fate.abandoned == LeftBehind(config, input, old(kernel.next), 0)
      ensures r.Done? && r.value && config.injectionsPerRun > 0 ==> HasFlipped()
    {
      hide Watch, FateOf, Conts, EndsIn, ComesTo, LeftBehind, Leads, Leaving, SkipCount, Ready, Dies, Flipping,
        ChangeBy, Observe, Follow, Track, AnnouncedBy, GoodAttempt, HasFlipped, AbandonedSoFar, Settled,
        Unattended, Fresh;
      AtStart(input);
      var attempts := config.maxInjectionAttempts % UINT_RANGE;
      while true
        invariant Valid() && Fresh() && Settled(kernel.fate)
        invariant 0 <= attempts < UINT_RANGE
        invariant launches + (attempts - 1) % UINT_RANGE == Budget(config)
        invariant config.injectionsPerRun == 0 ==> launches == 0 && kernel.view.starts == 0
        invariant kernel.view.totalFlips == 0
        invariant Failures() == old(Failures()) + kernel.view.starts
        invariant Leads(config, input, old(kernel.next), 0, kernel.next, launches)
        invariant LeftBehind(config, input, old(kernel.next), 0) ==
                  LeftBehind(config, input, kernel.next, launches) + AbandonedSoFar()
        decreases (attempts - 1) % UINT_RANGE
      {
        attempts := (attempts - 1) % UINT_RANGE;
        if attempts == 0 {
          UsedUp(input, old(kernel.next));
          return Done(false);
        }
        ghost var next, k := kernel.next, launches;
        r := TryOnce(input);
        LeadsLeaving(config, input, old(kernel.next), 0, next, k, r, childThreads, kernel.stream[kernel.next..]);
        if !r.Done? || r.value { return; }
        LeadsOn(config, input, old(kernel.next), 0, next, k, kernel.next, launches);
      }
    }

    /**
      A whole test run.  The log keeps the rules; a run that is given up has used the whole
      budget of launches and flipped nothing; a run that is classified has made exactly
      one successful flip if injections are enabled and none otherwise, and each started attempt
      but the successful one has been counted as a failure.

      The flip has toggled exactly the chosen bit of the machine if and only if the register is
      part of the machine and the vector state is not stale.

      The event that decides is of the child or a thread announced since its launch exactly
      if the stream says so; in an orderly stream an exit that decides is the child's own.
     */
    method RunAndWait(same: bool) returns (r: RunResult)
      requires Valid() && Fresh() && launches == 0 && kernel.log == []
      modifies this, kernel`log, kernel`view, kernel`fate, kernel`next, stats
      ensures Valid() && Accepted(kernel.log, Expected(config)) && FateOf(kernel.log).ok
      ensures ComesTo(config, Input(kernel.stream, kernel.attempts, same), old(kernel.next), 0, r)
      ensures Launches(kernel.log) <= Budget(config)
      ensures 1 <= config.maxInjectionAttempts < 0x1_0000_0000 ==>
                && Launches(kernel.log) <= config.maxInjectionAttempts - 1
                && (r.GaveUp? ==> Launches(kernel.log) == config.maxInjectionAttempts - 1)
      ensures r.GaveUp? ==> Launches(kernel.log) == Budget(config) && Flips(kernel.log) == 0
      ensures r.GaveUp? ==> Failures() == old(Failures()) + Starts(kernel.log)
      ensures r.Classified? ==>
                Flips(kernel.log) == FlipsSinceLaunch(kernel.log) == if config.injectionsPerRun > 0 then 1 else 0
      ensures r.Classified? && config.injectionsPerRun > 0 ==>
                Failures() + 1 == old(Failures()) + Starts(kernel.log)
      ensures r.Classified? && config.injectionsPerRun == 0 ==>
                Failures() == old(Failures()) && Launches(kernel.log) == 1
      ensures r.Classified? ==>
                && Decided() && Explains(config, r.status, Last().what, same)
                && (r.status.Masked? || r.status.Corrupted? || r.status.Exception? ==> (r.status.Masked? <==> same))
                && EndsWith(kernel.log, [Classify(r.status, Last().pid), PtraceKill(childPID), Reap(childPID)])
      ensures r.Classified? ==>
                (Last().pid in ThreadsSinceLaunch(kernel.log) <==> OwnEvent(childPID, seen, |seen| - 1))
      ensures r.Classified? && Orderly(childPID, seen) ==>
                OwnEvent(childPID, seen, |seen| - 1) && (Last().what.Exit? ==> Last().pid == childPID)
      ensures r.Classified? && config.injectionsPerRun > 0 ==>
                HasFlipped() && LoggedChange(kernel.log, ChangeBy(config, kernel.attempts(launches - 1)))
      ensures r.Classified? && config.injectionsPerRun > 0 ==>
                (Registers.Toggled(ChangeBy(config, kernel.attempts(launches - 1))) <==>
                 Reaches(config, kernel.attempts(launches - 1)))
      ensures Abandonments(kernel.log, |kernel.log|) ==
              LeftBehind(config, Input(kernel.stream, kernel.attempts, same), old(kernel.next), 0)
    {
      hide Watch, FateOf, Conts, Observe, Follow, Explains, ReturnedFrom, SkipCount, EndsIn, ComesTo, LeftBehind,
        Reaches, Flipping, ChangeBy, Orderly, OwnEvent, AnnouncedBy, Track, Abandonments, LoggedChange,
        ThreadsSinceLaunch, Launches, Starts, Flips, FlipsSinceLaunch, Budget, Unattended, Settled, EndsWith,
        GoodAttempt;
      BudgetPlain(config);
      r := RunToEnd(same);
      if r.Classified? {
        WhoseEvent();
        ExplainsExactly(config, r.status, Last().what, same);
        if config.injectionsPerRun > 0 { FlipReaches(); }
      }
      LogMeaning();
    }

    /** The run, in terms of what the monitors have seen. */
    method RunToEnd(same: bool) returns (r: RunResult)
      requires Valid() && Fresh() && launches == 0 && kernel.log == []
      modifies this, kernel`log, kernel`view, kernel`fate, kernel`next, stats
      ensures Valid() && launches <= Budget(config)
      ensures ComesTo(config, Input(kernel.stream, kernel.attempts, same), old(kernel.next), 0, r)
      ensures r.GaveUp? ==> launches == Budget(config) && kernel.view.totalFlips == 0
      ensures r.GaveUp? ==> Failures() == old(Failures()) + kernel.view.starts
      ensures r.Classified? ==> launches > 0 && kernel.view.flips == kernel.view.totalFlips == Expected(config)
      ensures r.Classified? && config.injectionsPerRun > 0 ==>
                HasFlipped() && Failures() + 1 == old(Failures()) + kernel.view.starts
      ensures r.Classified? && config.injectionsPerRun == 0 ==> Failures() == old(Failures()) && launches == 1
      ensures r.Classified? ==>
                && Decided() && Explains(config, r.status, Last().what, same)
                && EndsWith(kernel.log, [Classify(r.status, Last().pid), PtraceKill(childPID), Reap(childPID)])
      ensures kernel.fate.abandoned ==
              LeftBehind(config, Input(kernel.stream, kernel.attempts, same), old(kernel.next), 0)
    {
      hide Watch, FateOf, Conts, Observe, Follow, Explains, ReturnedFrom, SkipCount, EndsIn, ComesTo, LeftBehind,
        Flipping, ChangeBy, AnnouncedBy, Track, Budget, Unattended, Settled, EndsWith, GoodAttempt;
      var left := InjectLoop(Input(kernel.stream, kernel.attempts, same));
      if left.Done? && left.value {
        r := Finish(same);
      } else {
        r := if left.Done? then GaveUp else if left.Blocked? then Stuck else Died;
      }
    }

    /** What the log says of what the monitors have seen. */
    lemma LogMeaning()
      requires Valid()
      ensures Accepted(kernel.log, kernel.expected) && FateOf(kernel.log).ok
      ensures Launches(kernel.log) == launches && Starts(kernel.log) == kernel.view.starts
      ensures Flips(kernel.log) == kernel.view.totalFlips && FlipsSinceLaunch(kernel.log) == kernel.view.flips
      ensures ThreadsSinceLaunch(kernel.log) == kernel.view.threads
      ensures Abandonments(kernel.log, |kernel.log|) == kernel.fate.abandoned
      ensures kernel.fate.change.Some? ==> LoggedChange(kernel.log, kernel.fate.change.value)
    {
      hide Watch, FateOf, Abandonments, LoggedChange, Launches, Starts, Flips, FlipsSinceLaunch, ThreadsSinceLaunch;
      WatchCounts(kernel.log, kernel.expected);
      WatchFlips(kernel.log, kernel.expected);
      WatchThreads(kernel.log, kernel.expected);
      AllAbandoned(kernel.log);
      if kernel.fate.change.Some? { ChangeIsLogged(kernel.log); }
    }

    lemma FlipReaches()
      requires HasFlipped()
      ensures var a := kernel.attempts(launches - 1); Registers.Toggled(ChangeBy(config, a)) <==> Reaches(config, a)
    {
      TogglesIffReaches(config, kernel.attempts(launches - 1));
    }

    /** Whose event decides. */
    lemma WhoseEvent()
      requires Valid() && launches > 0 && Decided()
      ensures Last().pid in kernel.view.threads <==> OwnEvent(childPID, seen, |seen| - 1)
      ensures Orderly(childPID, seen) ==>
                OwnEvent(childPID, seen, |seen| - 1) && (Last().what.Exit? ==> Last().pid == childPID)
    {
      var n := |seen| - 1;
      assert !seen[n].what.CloneStop? by { ReturnedIff(seen, 0, n); }
      assert AnnouncedBy(seen) == AnnouncedBy(seen[..n]) + {};
      if Orderly(childPID, seen) {
        OrderlyOwn(childPID, seen, n);
        OrderlyReturned(childPID, seen, n);
      }
    }

    /** Waits for the child, classifies it and cleans up. */
    method Finish(same: bool) returns (r: RunResult)
      requires Valid() && launches > 0 && !kernel.view.pending && !kernel.view.classified
      requires kernel.view.flips == Expected(config)
      modifies this`childThreads, this`childPIDToInject, this`seen, kernel`log, kernel`view, kernel`fate, kernel`next
      ensures Valid() && !r.GaveUp? && EndsIn(config, same, old(childThreads), old(kernel.stream[kernel.next..]), r)
      ensures kernel.view.starts == old(kernel.view.starts) && kernel.view.totalFlips == old(kernel.view.totalFlips)
      ensures kernel.view.flips == old(kernel.view.flips) && SameHistory(old(kernel.fate), kernel.fate)
      ensures r.Classified? ==> Decided() && Explains(config, r.status, Last().what, same)
      ensures r.Classified? ==>
                EndsWith(kernel.log, [Classify(r.status, Last().pid), PtraceKill(childPID), Reap(childPID)])
    {
      hide Watch, FateOf, Conts, Explains, ReturnedFrom, SkipCount, Track, AnnouncedBy;
      var waited, pid := WaitChildAndGetStatus(same);
      if !waited.Done? { return if waited.Blocked? then Stuck else Died; }
      kernel.Do(Classify(waited.value, pid));
      PtraceKillChild();
      return Classified(waited.value);
    }

    /** The destructor closes the last terminal; then every descriptor has been closed as often as opened. */
    method Destroy()
      requires Valid()
      modifies kernel`log, kernel`view, kernel`fate
      ensures kernel.Valid() && Accepted(kernel.log, kernel.expected)
      ensures forall fd :: Opens(kernel.log, fd) == Closes(kernel.log, fd)
    {
      CloseOpenTerminal();
      forall fd ensures Opens(kernel.log, fd) == Closes(kernel.log, fd) {
        TerminalsBalance(kernel.log, kernel.expected, fd);
      }
    }
  }

  /** The last flip in the log, of the child launched last, has made this change. */
  ghost predicate LoggedChange(log: seq<Action>, change: Registers.Change) {
    exists i :: FlippedLast(log, |log|, i) && log[i].change == change
  }

  lemma ChangeIsLogged(log: seq<Action>)
    requires FateOf(log).change.Some?
    ensures LoggedChange(log, FateOf(log).change.value)
  {
    assert log[..|log|] == log;
    var i := LastChange(log, |log|);
  }

  lemma AllAbandoned(log: seq<Action>)
    requires FateOf(log).ok
    ensures FateOf(log).abandoned == Abandonments(log, |log|)
  {
    assert log[..|log|] == log;
    FateCountsAbandoned(log, |log|);
  }

  predicate EndsWith(log: seq<Action>, tail: seq<Action>) {
    |tail| <= |log| && log[|log| - |tail|..] == tail
  }

  /** What an attempt to flip changes of the view. */
  ghost predicate AfterFlip(u: View, v: View, flipped: bool) {
    && v == u.(ok := v.ok, flips := v.flips, totalFlips := v.totalFlips)
    && v.flips == u.flips + (if flipped then 1 else 0)
    && v.totalFlips == u.totalFlips + if flipped then 1 else 0
  }

  /** ... and of the fate. */
  ghost function AfterChange(f: Fate, c: Config, a: Attempt): Fate
    requires GoodAttempt(c, a)
  {
    if Flipping(c, a) then f.(change := Some(ChangeBy(c, a))) else f
  }

  /** No flip and no launch has come since. */
  predicate SameHistory(f: Fate, g: Fate) {
    g.change == f.change && g.abandoned == f.abandoned
  }

  /** Nothing has changed but that threads have been announced. */
  ghost predicate Grows(u: View, v: View) {
    v == u.(threads := v.threads) && u.threads <= v.threads
  }

  /** The effect of swallowing `events`: the threads tracked and the processes resumed. */
  ghost predicate SwallowedAll(start: set<int>, main: int, events: seq<Event>, threads: set<int>,
                               conts: seq<int>, conts': seq<int>) {
    threads == Track(start, events) && conts' == conts + ResumedBy(main, events)
  }

  /** The first `i` events of `rest` have been waited for, and all were swallowed. */
  ghost predicate Waiting(start: set<int>, main: int, conts: seq<int>, u: View, rest: seq<Event>, i: nat,
                          threads: set<int>, conts': seq<int>, v: View) {
    && i <= |rest| && SkipCount(start, rest) == i + SkipCount(threads, rest[i..])
    && SwallowedAll(start, main, rest[..i], threads, conts, conts') && Grows(u, v)
  }

  /** The effect of a wait: all events that are to be swallowed are. */
  ghost predicate Swept(start: set<int>, main: int, conts: seq<int>, u: View, rest: seq<Event>,
                          threads: set<int>, conts': seq<int>, v: View) {
    SwallowedAll(start, main, rest[..SkipCount(start, rest)], threads, conts, conts') && Grows(u, v)
  }

  /** The process picked when the first `woken` events of `rest` have been waited for. */
  ghost function Target(main: int, start: set<int>, rest: seq<Event>, woken: nat, rand: nat): int
    requires woken <= |rest|
  {
    var threads := Track(start, rest[..woken]);
    Pick(main, threads, rand % (|threads| + 1))
  }

  lemma WaitingTracks(start: set<int>, main: int, conts: seq<int>, u: View, rest: seq<Event>, i: nat,
                      threads: set<int>, conts': seq<int>, v: View, rand: nat)
    requires Waiting(start, main, conts, u, rest, i, threads, conts', v)
    ensures i <= |rest| && Target(main, start, rest, i, rand) == Pick(main, threads, rand % (|threads| + 1))
  {
  }

  lemma SweptTracks(start: set<int>, main: int, conts: seq<int>, u: View, rest: seq<Event>,
                    threads: set<int>, conts': seq<int>, v: View, rand: nat)
    requires Swept(start, main, conts, u, rest, threads, conts', v)
    ensures Target(main, start, rest, SkipCount(start, rest), rand) == Pick(main, threads, rand % (|threads| + 1))
  {
  }

  lemma WaitingStart(start: set<int>, main: int, conts: seq<int>, u: View, rest: seq<Event>)
    ensures Waiting(start, main, conts, u, rest, 0, start, conts, u)
  {
    assert rest[..0] == [] && rest[0..] == rest;
  }

  lemma WaitingEnd(start: set<int>, main: int, conts: seq<int>, u: View, rest: seq<Event>,
                   threads: set<int>, conts': seq<int>, v: View)
    requires Waiting(start, main, conts, u, rest, |rest|, threads, conts', v)
    ensures SkipCount(start, rest) == |rest| && Swept(start, main, conts, u, rest, threads, conts', v)
  {
  }

  /** How the skip count, the tracked threads and the resumed processes advance by one event. */
  lemma SkipStep(start: set<int>, threads: set<int>, rest: seq<Event>, i: nat, main: int,
                 conts: seq<int>, conts': seq<int>)
    requires i <= |rest| && SwallowedAll(start, main, rest[..i], threads, conts, conts')
    ensures i == |rest| ==> SkipCount(threads, rest[i..]) == 0
    ensures i < |rest| && !Swallowed(threads, rest[i]) ==> SkipCount(threads, rest[i..]) == 0
    ensures i < |rest| && Swallowed(threads, rest[i]) ==>
              SkipCount(threads, rest[i..]) == 1 + SkipCount(TrackStep(threads, rest[i]), rest[i + 1..])
    ensures i < |rest| ==>
            SwallowedAll(start, main, rest[..i + 1], TrackStep(threads, rest[i]), conts,
              conts' + ResumedBy(main, [rest[i]]))
  {
    if i < |rest| {
      assert rest[i..][1..] == rest[i + 1..];
      assert rest[..i + 1][..i] == rest[..i];
      assert [rest[i]][..0] == [];
    }
  }

  /** What has been seen of a stream, one event later. */
  lemma OneMore(stream: seq<Event>, n: nat, seen: seq<Event>)
    requires |seen| <= n < |stream| && seen == stream[n - |seen|..n]
    ensures seen + [stream[n]] == stream[n - |seen|..n + 1]
  {
  }

  lemma ResumedByOne(main: int, e: Event)
    ensures ResumedBy(main, [e]) == if e.what.CloneStop? then [main] else if e.what.Stop? then [e.pid] else []
  {
    assert [e][..0] == [];
  }

  lemma TrackSnoc(threads: set<int>, events: seq<Event>, e: Event)
    ensures Track(threads, events + [e]) == TrackStep(Track(threads, events), e)
  {
    assert (events + [e])[..|events|] == events;
  }
}
