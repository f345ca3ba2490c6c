/**
  An input on which a run leaves a child unattended (src/runner.cpp): the first child ends
  too soon to be traced, its exit is returned to the second attempt, which gives up without
  killing its own child, and the third child is flipped and classified.
 */
module StaleExit {
  import opened Options
  import opened Outcomes
  import opened ThreadTracking
  import opened Injection
  import InjectionLog
  import Registers
  import Stats = Statistics

  function OneInjection(): Config {
    Config(1000, 1, false, false, 0, map["rip" := Registers.RegData(Some(Registers.Gp(Registers.RIP_OFFSET)), 0, 64)])
  }

  /** All answers are good ones, but that the first child cannot be traced. */
  function Answers(n: nat, pid: int, state: Registers.MachineState): Attempt {
    Attempt(pid, 3 + n, n > 0, 0, 0, true, Some(false), Register("rip", 0, false), Stop(SIGTRAP),
            Thread(state, state, true, true, true, true))
  }

  function PidOf(n: nat, stale: int, child: int, next: int): int {
    if n == 0 then stale else if n == 1 then child else next
  }

  function InputOf(stale: int, child: int, next: int, state: Registers.MachineState): Input {
    Input([Event(stale, Exit(0)), Event(next, Stop(SIGTRAP)), Event(next, Exit(0))],
          (n: nat) => Answers(n, PidOf(n, stale, child, next), state), true)
  }

  lemma AnswersFlip(n: nat, pid: int, state: Registers.MachineState)
    requires pid > 0
    ensures GoodAttempt(OneInjection(), Answers(n, pid, state))
    ensures Flipping(OneInjection(), Answers(n, pid, state)) && !Dies(OneInjection(), Answers(n, pid, state))
  {
    var a := Answers(n, pid, state);
    assert a.selected == Register("rip", 0, false) && "rip" in OneInjection().regs;
  }

  /** The input comes to a masked fault, and one child is left behind. */
  lemma StaleExitLeavesChild(stale: int, child: int, next: int, state: Registers.MachineState)
    requires stale > 0 && child > 0 && next > 0 && stale != child
    ensures var c, input := OneInjection(), InputOf(stale, child, next, state);
            ComesTo(c, input, 0, 0, Classified(FtStatus.Masked)) && LeftBehind(c, input, 0, 0) == 1
  {
    var c, input := OneInjection(), InputOf(stale, child, next, state);
    var s := input.stream;
    assert Budget(c) == 999;
    assert s[0..] == s && s[1..][1..] == s[2..] && s[1..][..0] == [];
    assert SkipCount({}, s) == 0 && SkipCount({}, s[1..]) == 0 && SkipCount({}, s[2..]) == 0;
    AnswersFlip(2, next, state);
    assert input.attempts(0) == Answers(0, stale, state);
    assert input.attempts(1) == Answers(1, child, state) && input.attempts(2) == Answers(2, next, state);
    hide SkipCount, Flipping, Dies;
    assert EndsIn(c, true, {}, s[2..], Classified(FtStatus.Masked));
    hide EndsIn;
    assert ComesTo(c, input, 1, 2, Classified(FtStatus.Masked)) && LeftBehind(c, input, 1, 2) == 0;
    assert ComesTo(c, input, 0, 1, Classified(FtStatus.Masked)) && LeftBehind(c, input, 0, 1) == 1;
  }

  /** So every run on it launches a child, abandons it when the next is launched, and classifies that one. */
  method StaleExitRun(stale: int, child: int, next: int, state: Registers.MachineState)
    returns (kernel: Kernel, r: RunResult)
    requires stale > 0 && child > 0 && next > 0 && stale != child
    ensures r == Classified(FtStatus.Masked)
    ensures InjectionLog.Abandonments(kernel.log, |kernel.log|) == 1
  {
    var input := InputOf(stale, child, next, state);
    forall n: nat ensures GoodAttempt(OneInjection(), input.attempts(n)) {
      assert input.attempts(n) == Answers(n, PidOf(n, stale, child, next), state);
      AnswersFlip(n, PidOf(n, stale, child, next), state);
    }
    var stats := new Stats.Statistics(1);
    kernel := new Kernel(input.stream, input.attempts, Expected(OneInjection()));
    var runner := new Runner(kernel, OneInjection(), stats);
    r := runner.RunAndWait(input.same);
    StaleExitLeavesChild(stale, child, next, state);
    ComesToOne(OneInjection(), input, 0, 0, r, Classified(FtStatus.Masked));
  }
}
