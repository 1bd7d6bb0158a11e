/** Which status a macro thread reports: over every interleaving, what it did and
    whether it found itself aborted decide it. */
module MacroVerdicts {
  import opened Basics
  import opened MacroProtocol
  import opened MacroSystem
  import MacroRuns

  /** An action a thread took, and whether its abort flag was set then. */
  datatype Deed = Deed(action: Action, aborted: bool)

  /** What a thread did before state `i`. */
  ghost function Deeds(states: seq<State>, steps: seq<Step>, i: nat, p: Pid): set<Deed>
    requires IsRun(states, steps) && i < |states|
  {
    if i == 0 then {}
    else
      Deeds(states, steps, i - 1, p)
      + if steps[i - 1].Run? && steps[i - 1].pid == p then
          {Deed(steps[i - 1].action, states[i - 1].threads[p].aborted)}
        else {}
  }

  /** It did so, whether it was aborted or not. */
  predicate Did(deeds: set<Deed>, a: Action) {
    Deed(a, true) in deeds || Deed(a, false) in deeds
  }

  /** The status with which `send_stopped` is called, or the error in place of a
      runtime that could not be built: `Success` exactly if the macro's own code
      ran to its end; `Killed` exactly if not and the flag was set when it was
      read; and otherwise an `Error` with the cause of the error. */
  ghost predicate IsVerdict(deeds: set<Deed>, status: ExitStatus) {
    && (forall time :: status == Success(time) <==>
          Did(deeds, RunResolves(true)) && exists cause :: Did(deeds, Decide(time, cause)))
    && (forall time :: status == Killed(time) <==>
          !Did(deeds, RunResolves(true)) && exists cause :: Deed(Decide(time, cause), true) in deeds)
    && (forall time, cause :: status == Error(time, cause) <==>
          || (!Did(deeds, RunResolves(true)) && Deed(Decide(time, cause), false) in deeds)
          || Did(deeds, SetUpFails(time, cause))
          || (Did(deeds, BuildRuntimeFails(cause)) && Did(deeds, Check(time))))
  }

  /** The thread did not fail, and has not read its flag. */
  ghost predicate Undecided(deeds: set<Deed>) {
    forall d :: d in deeds ==>
      !d.action.Decide? && !d.action.SetUpFails? && !d.action.BuildRuntimeFails? && !d.action.Check?
  }

  ghost predicate Unresolved(deeds: set<Deed>) {
    Undecided(deeds) && !Did(deeds, RunResolves(true))
  }

  /** The runtime was built, so a check cannot add a cause. */
  ghost predicate Built(deeds: set<Deed>) {
    forall d :: d in deeds ==> !d.action.BuildRuntimeFails?
  }

  ghost predicate Unreported(sent: seq<Notice>) {
    forall n :: n in sent ==> !n.Stopped?
  }

  /** What a thread that did not panic did, told from where it is. */
  ghost predicate Told(deeds: set<Deed>, m: Thread) {
    match m.pc
    case Deciding(ok) => Undecided(deeds) && ok == Did(deeds, RunResolves(true)) && Unreported(m.sent)
    case Marking(status) => Built(deeds) && IsVerdict(deeds, status) && Unreported(m.sent)
    case Sending(status) => Built(deeds) && IsVerdict(deeds, status) && Unreported(m.sent)
    case Returning => Built(deeds) && forall status :: Stopped(status) in m.sent ==> IsVerdict(deeds, status)
    case Checking(failure) =>
      if failure.None? then Built(deeds) && forall status :: Stopped(status) in m.sent ==> IsVerdict(deeds, status)
      else
        && Unreported(m.sent) && !m.stoppedSent && !Did(deeds, RunResolves(true))
        && (forall d :: d in deeds ==> !d.action.Decide? && !d.action.SetUpFails? && !d.action.Check?)
        && (forall cause :: Did(deeds, BuildRuntimeFails(cause)) <==> cause == failure.value)
    case FallingBack(status) => IsVerdict(deeds, status) && Unreported(m.sent)
    case Finished => forall status :: Stopped(status) in m.sent ==> IsVerdict(deeds, status)
    case _ => Unresolved(deeds) && Unreported(m.sent)
  }

  /** What comes later does not change the verdict. */
  lemma VerdictStays(deeds: set<Deed>, d: Deed, status: ExitStatus)
    requires IsVerdict(deeds, status)
    requires !d.action.RunResolves? && !d.action.Decide? && !d.action.SetUpFails? && !d.action.BuildRuntimeFails?
    requires d.action.Check? ==> Built(deeds)
    ensures IsVerdict(deeds + {d}, status)
  {
  }

  lemma DecidedVerdict(deeds: set<Deed>, ok: bool, aborted: bool, time: int, cause: Cause)
    requires Undecided(deeds) && ok == Did(deeds, RunResolves(true))
    ensures IsVerdict(deeds + {Deed(Decide(time, cause), aborted)}, StatusOf(ok, aborted, time, cause))
  {
    var d := Deed(Decide(time, cause), aborted);
    assert Did(deeds + {d}, Decide(time, cause));
  }

  lemma SetUpVerdict(deeds: set<Deed>, aborted: bool, time: int, cause: Cause)
    requires Unresolved(deeds)
    ensures IsVerdict(deeds + {Deed(SetUpFails(time, cause), aborted)}, Error(time, cause))
  {
  }

  lemma BuildVerdict(deeds: set<Deed>, aborted: bool, time: int, cause: Cause)
    requires !Did(deeds, RunResolves(true))
    requires forall d :: d in deeds ==> !d.action.Decide? && !d.action.SetUpFails? && !d.action.Check?
    requires forall c :: Did(deeds, BuildRuntimeFails(c)) <==> c == cause
    ensures IsVerdict(deeds + {Deed(Check(time), aborted)}, Error(time, cause))
  {
    assert Did(deeds + {Deed(Check(time), aborted)}, Check(time));
  }

  lemma LaterDeed(deeds: set<Deed>, d: Deed)
    requires !d.action.RunResolves? && !d.action.Decide? && !d.action.SetUpFails? && !d.action.BuildRuntimeFails?
    requires d.action.Check? ==> Built(deeds)
    ensures forall status :: IsVerdict(deeds, status) ==> IsVerdict(deeds + {d}, status)
  {
    forall status | IsVerdict(deeds, status) ensures IsVerdict(deeds + {d}, status) {
      VerdictStays(deeds, d, status);
    }
  }

  lemma ToldBefore(deeds: set<Deed>, m: Thread, a: Action)
    requires Told(deeds, m) && ThreadInv(m) && CanAct(m, a)
    requires a.BuildRuntime? || a.BuildRuntimeFails? || a.SetUp? || a.Register? || a.Announce?
             || a.RunResolves? || a.WakeResolves?
    ensures Told(deeds + {Deed(a, m.aborted)}, Act(m, a))
  {
    hide IsVerdict, StatusOf, Reported, SaysKilled;
  }

  lemma ToldAfter(deeds: set<Deed>, m: Thread, a: Action)
    requires Told(deeds, m) && CanAct(m, a)
    requires a.Mark? || a.Send? || a.Return? || a.FallBack? || (a.Check? && m.pc.failure.None?)
    ensures Told(deeds + {Deed(a, m.aborted)}, Act(m, a))
  {
    LaterDeed(deeds, Deed(a, m.aborted));
    hide IsVerdict, StatusOf;
  }

  /** Every action but a panic keeps this. */
  lemma ToldKept(deeds: set<Deed>, m: Thread, a: Action)
    requires Told(deeds, m) && ThreadInv(m) && CanAct(m, a) && !a.Panic?
    ensures Told(deeds + {Deed(a, m.aborted)}, Act(m, a))
  {
    if a.Decide? {
      DecidedVerdict(deeds, m.pc.ok, m.aborted, a.time, a.cause);
      hide IsVerdict, StatusOf, ThreadInv;
    } else if a.SetUpFails? {
      SetUpVerdict(deeds, m.aborted, a.time, a.cause);
      hide IsVerdict, ThreadInv;
    } else if a.Check? && m.pc.failure.Some? {
      BuildVerdict(deeds, m.aborted, a.time, m.pc.failure.value);
      hide IsVerdict;
    } else {
      hide Told, ThreadInv, Act;
      if a.Mark? || a.Send? || a.Return? || a.FallBack? || a.Check? {
        ToldAfter(deeds, m, a);
      } else {
        ToldBefore(deeds, m, a);
      }
    }
  }

  /** An error in place of a thread that panicked before it reported. */
  ghost predicate IsPanicReport(deeds: set<Deed>, status: ExitStatus) {
    Did(deeds, Panic) && exists time :: status == Error(time, ThreadPanicked) && Did(deeds, Check(time))
  }

  /** What a thread that panicked did. */
  ghost predicate ToldPanicked(deeds: set<Deed>, m: Thread) {
    match m.pc
    case Checking(failure) =>
      && failure == Some(ThreadPanicked)
      && if m.stoppedSent then Built(deeds) && forall status :: Stopped(status) in m.sent ==> IsVerdict(deeds, status)
         else Unreported(m.sent)
    case FallingBack(status) => IsPanicReport(deeds, status) && Unreported(m.sent)
    case Finished =>
      forall status :: Stopped(status) in m.sent ==> IsVerdict(deeds, status) || IsPanicReport(deeds, status)
    case _ => false
  }

  ghost predicate Explained(deeds: set<Deed>, m: Thread) {
    && m.panicked == Did(deeds, Panic)
    && if m.panicked then ToldPanicked(deeds, m) else Told(deeds, m)
  }

  lemma PanicExplained(deeds: set<Deed>, m: Thread)
    requires Explained(deeds, m) && ThreadInv(m) && CanAct(m, Panic)
    ensures Explained(deeds + {Deed(Panic, m.aborted)}, Act(m, Panic))
  {
    LaterDeed(deeds, Deed(Panic, m.aborted));
    assert Did(deeds + {Deed(Panic, m.aborted)}, Panic);
    hide IsVerdict, IsPanicReport, SaysKilled, StatusOf;
  }

  lemma PanickedKept(deeds: set<Deed>, m: Thread, a: Action)
    requires ToldPanicked(deeds, m) && Did(deeds, Panic) && CanAct(m, a) && !a.Panic?
    ensures ToldPanicked(deeds + {Deed(a, m.aborted)}, Act(m, a))
  {
    var d := Deed(a, m.aborted);
    if !a.Check? || Built(deeds) {
      LaterDeed(deeds, d);
    }
    assert a.Check? ==> Did(deeds + {d}, Check(a.time));
    hide IsVerdict, StatusOf;
  }

  lemma ExplainedKept(deeds: set<Deed>, m: Thread, a: Action)
    requires Explained(deeds, m) && ThreadInv(m) && CanAct(m, a)
    ensures Explained(deeds + {Deed(a, m.aborted)}, Act(m, a))
  {
    if a.Panic? {
      PanicExplained(deeds, m);
    } else {
      ActKeepsPanicked(m, a);
      hide Told, ToldPanicked, ThreadInv, Act, CanAct;
      if m.panicked {
        PanickedKept(deeds, m, a);
      } else {
        ToldKept(deeds, m, a);
      }
    }
  }

  lemma ActKeepsPanicked(m: Thread, a: Action)
    requires CanAct(m, a) && !a.Panic?
    ensures Act(m, a).panicked == m.panicked
  {
    hide StatusOf;
  }

  // ---------------------------------------------------------------------
  // Over whole runs
  // ---------------------------------------------------------------------

  /** The deeds of a thread are its steps, each with the flag as it was. */
  lemma {:induction false} DeedsAreSteps(states: seq<State>, steps: seq<Step>, i: nat, p: Pid, d: Deed)
    requires IsRun(states, steps) && i < |states|
    ensures d in Deeds(states, steps, i, p) <==>
              exists k :: 0 <= k < i && steps[k] == Run(p, d.action)
                && p in states[k].threads && states[k].threads[p].aborted == d.aborted
  {
    hide Apply;
    if i > 0 {
      DeedsAreSteps(states, steps, i - 1, p, d);
      assert Enabled(states[i - 1], steps[i - 1]);
    }
  }

  lemma ExplainedByStep(s: State, step: Step, deeds: set<Deed>, p: Pid)
    requires LogInv(s) && Enabled(s, step)
    requires if p in s.threads then Explained(deeds, s.threads[p]) else deeds == {}
    ensures var deeds' := deeds + if step.Run? && step.pid == p then {Deed(step.action, s.threads[p].aborted)} else {};
            if p in Apply(s, step).threads then Explained(deeds', Apply(s, step).threads[p]) else deeds' == {}
  {
    FreshExplained();
    if step.Run? && step.pid == p {
      assert ThreadInv(s.threads[p]);
      hide ThreadInv, Explained, Act, CanAct, NoticesOf;
      ExplainedKept(deeds, s.threads[p], step.action);
    } else {
      assert deeds + {} == deeds;
      if p in s.threads {
        FlagsExplained(deeds, s.threads[p]);
      }
      hide ThreadInv, Explained, Act, CanAct, NoticesOf;
    }
  }

  lemma FreshExplained()
    ensures Explained({}, FRESH_THREAD)
  {
  }

  lemma FlagsExplained(deeds: set<Deed>, m: Thread)
    requires Explained(deeds, m)
    ensures Explained(deeds, m.(aborted := true)) && Explained(deeds, m.(wakePermit := true))
  {
    hide IsVerdict, IsPanicReport;
  }

  lemma {:induction false} EveryThreadExplained(states: seq<State>, steps: seq<Step>, i: nat, p: Pid)
    requires IsRun(states, steps) && i < |states|
    ensures if p in states[i].threads then Explained(Deeds(states, steps, i, p), states[i].threads[p])
            else Deeds(states, steps, i, p) == {}
  {
    hide Apply, Explained, AbortInv, TableInv, LogInv;
    if i > 0 {
      EveryThreadExplained(states, steps, i - 1, p);
      InvHolds(states, steps, i - 1);
      ExplainedByStep(states[i - 1], steps[i - 1], Deeds(states, steps, i - 1, p), p);
    }
  }

  /** Over any run, the status a thread has reported is the verdict on what it
      did, or that it panicked before it could report. */
  lemma ReportsItsVerdict(states: seq<State>, steps: seq<Step>, i: nat, p: Pid, status: ExitStatus)
    requires IsRun(states, steps) && i < |states|
    requires MacroEvent(p, Stopped(status)) in states[i].events
    ensures p in states[i].threads
    ensures var deeds := Deeds(states, steps, i, p);
            IsVerdict(deeds, status) || IsPanicReport(deeds, status)
  {
    hide IsRun, Deeds, LogInv, AbortInv, TableInv, ThreadInv, NoticesOf, Explained;
    EveryThreadExplained(states, steps, i, p);
    InvHolds(states, steps, i);
    MacroRuns.LogShape(states[i], p);
    NoticeBroadcast(states[i].events, p, Stopped(status));
    ExplainedReport(Deeds(states, steps, i, p), states[i].threads[p], status);
  }

  lemma ExplainedReport(deeds: set<Deed>, m: Thread, status: ExitStatus)
    requires Explained(deeds, m) && Stopped(status) in m.sent
    ensures IsVerdict(deeds, status) || IsPanicReport(deeds, status)
  {
    hide IsVerdict, IsPanicReport;
  }
}
