/** What callers of the macro executor can rely on, over every interleaving. */
module MacroRuns {
  import opened Basics
  import opened MacroProtocol
  import opened MacroSystem

  predicate StartedAt(events: seq<Event>, pid: Pid, k: nat) {
    k < |events| && events[k] == MacroEvent(pid, Started)
  }

  predicate StoppedAt(events: seq<Event>, pid: Pid, k: nat) {
    k < |events| && events[k].MacroEvent? && events[k].pid == pid && events[k].notice.Stopped?
  }

  /** At most one `Started` and one `Stopped`, and in that order. */
  ghost predicate Orderly(events: seq<Event>, pid: Pid) {
    && (forall j: nat, k: nat :: StartedAt(events, pid, j) && StartedAt(events, pid, k) ==> j == k)
    && (forall j: nat, k: nat :: StoppedAt(events, pid, j) && StoppedAt(events, pid, k) ==> j == k)
    && (forall j: nat, k: nat :: StartedAt(events, pid, j) && StoppedAt(events, pid, k) ==> j < k)
  }

  /** From the log of a pid back to positions on the channel. */
  lemma {:induction false} PositionsFromLog(events: seq<Event>, pid: Pid)
    requires var log := NoticesOf(events, pid); Opening(log) || Closed(log)
    ensures Orderly(events, pid)
    ensures Closed(NoticesOf(events, pid)) <==> exists k: nat :: StoppedAt(events, pid, k)
    ensures NoticesOf(events, pid) == [] ==> forall k: nat :: !StartedAt(events, pid, k)
  {
    if events != [] {
      var init, e := events[..|events| - 1], events[|events| - 1];
      PositionsFromLog(init, pid);
      forall k: nat
        ensures StartedAt(events, pid, k) <==> StartedAt(init, pid, k) || (k == |init| && e == MacroEvent(pid, Started))
        ensures StoppedAt(events, pid, k) <==>
                  StoppedAt(init, pid, k) || (k == |init| && e.MacroEvent? && e.pid == pid && e.notice.Stopped?)
      {
      }
      assert StoppedAt(events, pid, |init|) <==> e.MacroEvent? && e.pid == pid && e.notice.Stopped?;
      if k: nat :| StoppedAt(init, pid, k) {
        assert StoppedAt(events, pid, k);
      }
    }
  }

  lemma LogShape(s: State, p: Pid)
    requires LogInv(s)
    ensures var log := NoticesOf(s.events, p); Opening(log) || Closed(log)
    ensures NoticesOf(s.events, p) == if p in s.threads then s.threads[p].sent else []
    ensures p in s.threads ==> ThreadInv(s.threads[p])
  {
  }

  /** Before state `i`, the thread panicked while it was broadcasting the
      `Stopped` it had already marked as sent, or while it was outside
      `catch_unwind`. */
  ghost predicate PanickedInBroadcast(states: seq<State>, steps: seq<Step>, i: nat, p: Pid)
    requires IsRun(states, steps) && i < |states|
  {
    exists k :: 0 <= k < i && steps[k] == Run(p, Panic)
      && p in states[k].threads && (states[k].threads[p].pc.Sending? || states[k].threads[p].pc.FallingBack?)
  }

  lemma MutedByAction(m: Thread, a: Action)
    requires CanAct(m, a)
    ensures Act(m, a).muted <==> m.muted || (a.Panic? && (m.pc.Sending? || m.pc.FallingBack?))
  {
    if !a.Panic? {
      hide CanAct, StatusOf;
      assert Act(m, a).muted == m.muted;
    }
  }

  lemma MutedByStep(s: State, step: Step, p: Pid)
    requires FreshPidInv(s) && Enabled(s, step)
    ensures var s' := Apply(s, step);
            (p in s'.threads && s'.threads[p].muted) <==>
              || (p in s.threads && s.threads[p].muted)
              || (step == Run(p, Panic) && (s.threads[p].pc.Sending? || s.threads[p].pc.FallingBack?))
  {
    if step.Run? && step.pid == p {
      MutedByAction(s.threads[p], step.action);
    }
    hide Act, CanAct, Tagged, Broadcasts, Recorded;
  }

  lemma {:induction false} MutedMeansPanickedInBroadcast(states: seq<State>, steps: seq<Step>, i: nat, p: Pid)
    requires IsRun(states, steps) && i < |states|
    ensures (p in states[i].threads && states[i].threads[p].muted) <==> PanickedInBroadcast(states, steps, i, p)
  {
    hide Apply, AbortInv, TableInv, ThreadInv, NoticesOf;
    if i > 0 {
      MutedMeansPanickedInBroadcast(states, steps, i - 1, p);
      InvHolds(states, steps, i - 1);
      MutedByStep(states[i - 1], steps[i - 1], p);
    }
  }

  /** Every macro thread that is over has broadcast exactly one `Stopped` for
      its pid, unless it panicked inside the broadcast of one, in which case it
      broadcast none. At no time are there two `Started` or two `Stopped` for a
      pid, or a `Started` after a `Stopped`. */
  lemma FinishedReportsOnce(states: seq<State>, steps: seq<Step>, i: nat, p: Pid)
    requires IsRun(states, steps) && i < |states|
    ensures Orderly(states[i].events, p)
    ensures p in states[i].threads && states[i].threads[p].pc.Finished? ==>
              ((exists k: nat :: StoppedAt(states[i].events, p, k)) <==> !PanickedInBroadcast(states, steps, i, p))
  {
    hide Apply;
    InvHolds(states, steps, i);
    LogShape(states[i], p);
    PositionsFromLog(states[i].events, p);
    MutedMeansPanickedInBroadcast(states, steps, i, p);
  }

  /** A run that goes on with one step. */
  lemma Extended(states: seq<State>, steps: seq<Step>, step: Step, next: State)
    returns (states': seq<State>, steps': seq<Step>)
    requires IsRun(states, steps) && Enabled(states[|steps|], step) && Apply(states[|steps|], step) == next
    ensures IsRun(states', steps') && states'[|steps'|] == next
  {
    hide Apply, Enabled;
    states', steps' := states + [next], steps + [step];
  }

  /** Nothing but one thread. */
  function Alone(m: Thread): State {
    State(1, map[0 := m], {}, [], [], 0, false, map[])
  }

  lemma OneThreadActs(states: seq<State>, steps: seq<Step>, m: Thread, a: Action)
    returns (states': seq<State>, steps': seq<Step>)
    requires IsRun(states, steps) && states[|steps|] == Alone(m)
    requires CanAct(m, a) && Broadcasts(m, a) == [] && !a.Register?
    ensures IsRun(states', steps') && states'[|steps'|] == Alone(Act(m, a))
  {
    assert Apply(Alone(m), Run(0, a)) == Alone(Act(m, a)) by {
      assert [] + Tagged(0, []) == [];
    }
    hide Apply, Act;
    states', steps' := Extended(states, steps, Run(0, a), Alone(Act(m, a)));
  }

  /** A macro that cannot be set up, and whose report panics: its thread is over
      and nothing was broadcast. */
  lemma SilentThread() returns (states: seq<State>, steps: seq<Step>)
    ensures IsRun(states, steps)
    ensures 0 in states[|steps|].threads && states[|steps|].threads[0].pc.Finished?
    ensures states[|steps|].events == []
  {
    states, steps := [INITIAL], [];
    var m := FRESH_THREAD;
    states, steps := Extended(states, steps, Spawn, Alone(m));
    hide Apply, Enabled, IsRun;
    states, steps := OneThreadActs(states, steps, m, BuildRuntime);
    m := m.(pc := SettingUp);
    var status := Error(0, ThreadPanicked);
    states, steps := OneThreadActs(states, steps, m, SetUpFails(0, ThreadPanicked));
    m := m.(pc := Marking(status));
    states, steps := OneThreadActs(states, steps, m, Mark);
    m := m.(pc := Sending(status), stoppedSent := true);
    states, steps := OneThreadActs(states, steps, m, Panic);
    m := m.(pc := Checking(Some(ThreadPanicked)), panicked := true, muted := true);
    states, steps := OneThreadActs(states, steps, m, Check(0));
  }

  /** One thread with its handle in the table, one abort call, and a listener that
      has read everything. */
  function Watched(m: Thread, aborters: seq<Aborter>, events: seq<Event>): State {
    State(1, map[0 := m], {0}, aborters, events, 0, false, map[])
  }

  lemma WatchedActs(states: seq<State>, steps: seq<Step>, m: Thread, aborters: seq<Aborter>, events: seq<Event>,
                    a: Action, m': Thread)
    returns (states': seq<State>, steps': seq<Step>)
    requires IsRun(states, steps) && states[|steps|] == Watched(m, aborters, events)
    requires CanAct(m, a) && Act(m, a) == m' && !a.Register? && |Broadcasts(m, a)| <= 1
    ensures IsRun(states', steps')
    ensures states'[|steps'|]
            == Watched(m', aborters,
                       events + if Broadcasts(m, a) == [] then [] else [MacroEvent(0, Broadcasts(m, a)[0])])
  {
    var sent := if Broadcasts(m, a) == [] then [] else [MacroEvent(0, Broadcasts(m, a)[0])];
    assert Tagged(0, Broadcasts(m, a)) == sent;
    assert map[0 := m][0 := m'] == map[0 := m'];
    assert Apply(Watched(m, aborters, events), Run(0, a)) == Watched(m', aborters, events + sent);
    hide Apply, Act, CanAct, Broadcasts, IsRun;
    states', steps' := Extended(states, steps, Run(0, a), Watched(m', aborters, events + sent));
  }

  lemma Registers(m: Thread)
    requires m.pc == Registering
    ensures Enabled(Alone(m), Run(0, Register))
    ensures Apply(Alone(m), Run(0, Register)) == Watched(m.(pc := Announcing), [], [])
  {
    assert Tagged(0, []) == [] && {} + {0} == {0};
  }

  lemma IsFound(m: Thread)
    ensures Enabled(Watched(m, [], []), Lookup(0))
    ensures Apply(Watched(m, [], []), Lookup(0)) == Watched(m, [Found(0)], [])
  {
  }

  lemma SetUpAlone() returns (states: seq<State>, steps: seq<Step>)
    ensures IsRun(states, steps) && states[|steps|] == Alone(FRESH_THREAD.(pc := Registering))
  {
    states, steps := [INITIAL], [];
    var m := FRESH_THREAD;
    states, steps := Extended(states, steps, Spawn, Alone(m));
    hide Apply, Enabled, IsRun;
    states, steps := OneThreadActs(states, steps, m, BuildRuntime);
    states, steps := OneThreadActs(states, steps, m.(pc := SettingUp), SetUp);
  }

  /** A macro runs, and the call that aborts it has found its handle. */
  lemma RunningAndFound() returns (states: seq<State>, steps: seq<Step>)
    ensures IsRun(states, steps)
    ensures states[|steps|]
            == Watched(FRESH_THREAD.(pc := Selecting, sent := [Started]), [Found(0)], [MacroEvent(0, Started)])
  {
    hide Apply, Enabled, IsRun;
    states, steps := SetUpAlone();
    var m := FRESH_THREAD.(pc := Announcing);
    Registers(FRESH_THREAD.(pc := Registering));
    IsFound(m);
    states, steps := Extended(states, steps, Run(0, Register), Watched(m, [], []));
    states, steps := Extended(states, steps, Lookup(0), Watched(m, [Found(0)], []));
    states, steps := WatchedActs(states, steps, m, [Found(0)], [], Announce,
                                 m.(pc := Selecting, sent := [Started]));
  }

  /** The three effects of the abort, and the thread that it wakes. */
  lemma AbortedAndWoken() returns (states: seq<State>, steps: seq<Step>)
    ensures IsRun(states, steps)
    ensures states[|steps|]
            == Watched(FRESH_THREAD.(pc := Deciding(false), sent := [Started], aborted := true), [Completed(0)],
                       [MacroEvent(0, Started)])
  {
    states, steps := RunningAndFound();
    var m, started := FRESH_THREAD.(pc := Selecting, sent := [Started]), [MacroEvent(0, Started)];
    states, steps := Extended(states, steps, StoreFlag(0), Watched(m.(aborted := true), [Flagged(0)], started));
    states, steps := Extended(states, steps, TerminateExecution(0),
                              Watched(m.(aborted := true), [Terminated(0)], started));
    m := m.(aborted := true, wakePermit := true);
    states, steps := Extended(states, steps, NotifyOne(0), Watched(m, [Completed(0)], started));
    states, steps := WatchedActs(states, steps, m, [Completed(0)], started, WakeResolves,
                                 m.(pc := Deciding(false), wakePermit := false));
  }

  /** A macro that is aborted while it runs: it is reported as killed, and so it
      is recorded. */
  lemma KilledAtAnExample() returns (states: seq<State>, steps: seq<Step>)
    ensures IsRun(states, steps)
    ensures 0 in states[|steps|].threads && states[|steps|].threads[0].pc.Finished?
    ensures states[|steps|].events == [MacroEvent(0, Started), MacroEvent(0, Stopped(Killed(0)))]
    ensures states[|steps|].exitStatus == map[0 := Killed(0)]
  {
    hide IsRun;
    states, steps := AbortedAndWoken();
    var m := FRESH_THREAD.(pc := Deciding(false), sent := [Started], aborted := true);
    var done, events := [Completed(0)], [MacroEvent(0, Started)];
    var m1 := m.(pc := Marking(Killed(0)));
    states, steps := WatchedActs(states, steps, m, done, events, Decide(0, ThreadPanicked), m1);
    var m2 := m.(pc := Sending(Killed(0)), stoppedSent := true);
    states, steps := WatchedActs(states, steps, m1, done, events, Mark, m2);
    var m3 := m2.(pc := Returning, sent := [Started, Stopped(Killed(0))]);
    states, steps := WatchedActs(states, steps, m2, done, events, Send, m3);
    events := events + [MacroEvent(0, Stopped(Killed(0)))];
    states, steps := WatchedActs(states, steps, m3, done, events, Return, m3.(pc := Checking(None)));
    states, steps := WatchedActs(states, steps, m3.(pc := Checking(None)), done, events, Check(0), m3.(pc := Finished));
    var s := Watched(m3.(pc := Finished), done, events);
    states, steps := Extended(states, steps, Receive, s.(cursor := 1));
    states, steps := Extended(states, steps, Receive, s.(cursor := 2, exitStatus := map[0 := Killed(0)]));
  }

  // ---------------------------------------------------------------------
  // The exit-status table
  // ---------------------------------------------------------------------

  lemma {:induction false} RunGrows(states: seq<State>, steps: seq<Step>, i: nat, j: nat)
    requires IsRun(states, steps) && i <= j < |states|
    ensures states[i].events <= states[j].events
    ensures states[i].threads.Keys <= states[j].threads.Keys
    ensures states[i].exitStatus.Keys <= states[j].exitStatus.Keys
    ensures states[i].nextPid <= states[j].nextPid
    ensures |states[i].aborters| <= |states[j].aborters|
  {
    hide Apply, Enabled;
    if i < j {
      RunGrows(states, steps, i, j - 1);
      StepGrows(states[j - 1], steps[j - 1]);
    }
  }

  lemma StepGrows(s: State, step: Step)
    requires Enabled(s, step)
    ensures s.events <= Apply(s, step).events
    ensures s.threads.Keys <= Apply(s, step).threads.Keys
    ensures s.exitStatus.Keys <= Apply(s, step).exitStatus.Keys
    ensures s.nextPid <= Apply(s, step).nextPid
    ensures |s.aborters| <= |Apply(s, step).aborters|
  {
  }

  lemma OneStatus(s: State, p: Pid, a: ExitStatus, b: ExitStatus)
    requires LogInv(s)
    requires MacroEvent(p, Stopped(a)) in s.events && MacroEvent(p, Stopped(b)) in s.events
    ensures a == b
  {
    LogShape(s, p);
    hide LogInv, NoticesOf, ThreadInv, Opening, Closed;
    NoticeBroadcast(s.events, p, Stopped(a));
    NoticeBroadcast(s.events, p, Stopped(b));
    OneStopped(NoticesOf(s.events, p), a, b);
  }

  lemma OneStopped(log: seq<Notice>, a: ExitStatus, b: ExitStatus)
    requires (Opening(log) || Closed(log)) && Stopped(a) in log && Stopped(b) in log
    ensures a == b
  {
  }

  /** What `get_macro_status` returns once, it returns for ever. */
  lemma ExitStatusNeverChanges(states: seq<State>, steps: seq<Step>, i: nat, j: nat, p: Pid)
    requires IsRun(states, steps) && i <= j < |states| && p in states[i].exitStatus
    ensures p in states[j].exitStatus && states[j].exitStatus[p] == states[i].exitStatus[p]
  {
    InvHolds(states, steps, i);
    InvHolds(states, steps, j);
    RunGrows(states, steps, i, j);
    var before, after := states[i], states[j];
    assert MacroEvent(p, Stopped(before.exitStatus[p])) in before.events;
    assert MacroEvent(p, Stopped(before.exitStatus[p])) in after.events;
    assert MacroEvent(p, Stopped(after.exitStatus[p])) in after.events;
    OneStatus(after, p, before.exitStatus[p], after.exitStatus[p]);
  }

  /** A listener that skipped nothing and is up to date has an entry for
      exactly the pids whose thread reported, with the status it reported. */
  lemma TableIsExact(states: seq<State>, steps: seq<Step>, i: nat, p: Pid)
    requires IsRun(states, steps) && i < |states|
    requires !states[i].lagged && states[i].cursor == |states[i].events|
    ensures p in states[i].exitStatus <==> p in states[i].threads && Closed(states[i].threads[p].sent)
    ensures p in states[i].exitStatus ==> Stopped(states[i].exitStatus[p]) in states[i].threads[p].sent
  {
    InvHolds(states, steps, i);
    hide IsRun, LogInv, AbortInv, TableInv;
    TableAt(states[i], p);
  }

  lemma TableAt(s: State, p: Pid)
    requires LogInv(s) && TableInv(s) && !s.lagged && s.cursor == |s.events|
    ensures p in s.exitStatus <==> p in s.threads && Closed(s.threads[p].sent)
    ensures p in s.exitStatus ==> Stopped(s.exitStatus[p]) in s.threads[p].sent
  {
    hide LogInv, ThreadInv, NoticesOf;
    LogShape(s, p);
    assert s.events[..s.cursor] == s.events;
    if p in s.exitStatus {
      NoticeBroadcast(s.events, p, Stopped(s.exitStatus[p]));
    }
    if p in s.threads && Closed(s.threads[p].sent) {
      var last := s.threads[p].sent[|s.threads[p].sent| - 1];
      NoticeBroadcast(s.events, p, last);
      assert MacroEvent(p, Stopped(last.status)) in s.events[..s.cursor];
    }
  }

  /** No two calls of `spawn` ever use the same pid. */
  lemma PidsNeverRepeat(states: seq<State>, steps: seq<Step>, i: nat, j: nat)
    requires IsRun(states, steps) && i < j < |steps|
    requires (steps[i].Spawn? || steps[i].SpawnFails?) && (steps[j].Spawn? || steps[j].SpawnFails?)
    ensures states[i].nextPid < states[j].nextPid < PID_LIMIT
    ensures steps[j].Spawn? ==> states[j].nextPid !in states[j].threads
  {
    RunGrows(states, steps, i + 1, j);
    InvHolds(states, steps, j);
  }

  ghost function Spawns(steps: seq<Step>): nat {
    if steps == [] then 0
    else
      var last := steps[|steps| - 1];
      Spawns(steps[..|steps| - 1]) + if last.Spawn? || last.SpawnFails? then 1 else 0
  }

  /** Pids are handed out in order, one to each call of `spawn`. */
  lemma {:induction false} PidsCountSpawns(states: seq<State>, steps: seq<Step>, i: nat)
    requires IsRun(states, steps) && i < |states|
    ensures states[i].nextPid == Spawns(steps[..i])
  {
    if i > 0 {
      PidsCountSpawns(states, steps, i - 1);
      assert steps[..i][..i - 1] == steps[..i - 1];
      assert Enabled(states[i - 1], steps[i - 1]);
    }
  }

  // ---------------------------------------------------------------------
  // Aborting
  // ---------------------------------------------------------------------

  predicate EndsWithoutError(sent: seq<Notice>) {
    |sent| > 0 && sent[|sent| - 1].Stopped? && !sent[|sent| - 1].status.Error?
  }

  /** What an abort completed before `select!` resolved leaves behind, from
      then on. */
  predicate AbortHeld(m: Thread) {
    && m.aborted
    && match m.pc
       case Announcing => m.wakePermit
       case Selecting => m.wakePermit
       case Deciding(_) => true
       case Marking(status) => !status.Error?
       case Sending(status) => !status.Error?
       case Returning => m.stoppedSent && EndsWithoutError(m.sent)
       case Checking(_) => m.panicked || (m.stoppedSent && EndsWithoutError(m.sent))
       case FallingBack(_) => m.panicked
       case Finished => m.panicked || EndsWithoutError(m.sent)
       case _ => false
  }

  lemma AbortHeldByThread(m: Thread, a: Action)
    requires AbortHeld(m) && ThreadInv(m) && CanAct(m, a)
    ensures AbortHeld(Act(m, a))
  {
  }

  lemma AbortHeldKept(s: State, step: Step, p: Pid)
    requires LogInv(s) && Enabled(s, step) && p in s.threads && AbortHeld(s.threads[p])
    ensures p in Apply(s, step).threads && AbortHeld(Apply(s, step).threads[p])
  {
    if step.Run? && step.pid == p {
      AbortHeldByThread(s.threads[p], step.action);
    }
  }

  lemma {:induction false} AbortHeldForGood(states: seq<State>, steps: seq<Step>, i: nat, j: nat, p: Pid)
    requires IsRun(states, steps) && i <= j < |states|
    requires p in states[i].threads && AbortHeld(states[i].threads[p])
    ensures p in states[j].threads && AbortHeld(states[j].threads[p])
  {
    hide Apply, Enabled, AbortHeld, LogInv, AbortInv, TableInv;
    if i < j {
      AbortHeldForGood(states, steps, i, j - 1, p);
      InvHolds(states, steps, j - 1);
      AbortHeldKept(states[j - 1], steps[j - 1], p);
    }
  }

  /** An abort call that completes before the macro's `select!` resolves is
      never lost: the flag stays set, the thread can be woken at any moment
      until `select!` resolves, and unless the thread panics it reports
      `Success` or `Killed`. */
  lemma AbortNeverLost(states: seq<State>, steps: seq<Step>, i: nat, j: nat, call: nat)
    requires IsRun(states, steps) && i <= j < |states|
    requires call < |states[i].aborters| && states[i].aborters[call].Completed?
    requires var p := states[i].aborters[call].pid;
             p in states[i].threads && Awaiting(states[i].threads[p])
    ensures var p := states[i].aborters[call].pid;
            && p in states[j].threads
            && var m := states[j].threads[p];
               && m.aborted
               && (Awaiting(m) ==> m.wakePermit)
               && (m.pc.Selecting? ==> Enabled(states[j], Run(p, WakeResolves)))
               && (m.pc.Finished? && !m.panicked ==>
                     exists k: nat, status :: StoppedAt(states[j].events, p, k)
                       && states[j].events[k] == MacroEvent(p, Stopped(status))
                       && (status.Success? || status.Killed?))
  {
    hide Apply, IsRun, Inv, LogInv, AbortHeld, Enabled, StoppedAt;
    var p := states[i].aborters[call].pid;
    InvHolds(states, steps, i);
    CompletedIsHeld(states[i], call);
    AbortHeldForGood(states, steps, i, j, p);
    HeldCanWake(states[j], p);
    if states[j].threads[p].pc.Finished? && !states[j].threads[p].panicked {
      InvHolds(states, steps, j);
      HeldReportsNoError(states[j], p);
    }
  }

  lemma HeldCanWake(s: State, p: Pid)
    requires p in s.threads && AbortHeld(s.threads[p])
    ensures s.threads[p].aborted && (Awaiting(s.threads[p]) ==> s.threads[p].wakePermit)
    ensures s.threads[p].pc.Selecting? ==> Enabled(s, Run(p, WakeResolves))
  {
  }

  lemma CompletedIsHeld(s: State, call: nat)
    requires Inv(s) && call < |s.aborters| && s.aborters[call].Completed?
    requires s.aborters[call].pid in s.threads && Awaiting(s.threads[s.aborters[call].pid])
    ensures AbortHeld(s.threads[s.aborters[call].pid])
  {
    assert Effective(s, s.aborters[call]);
  }

  lemma HeldReportsNoError(s: State, p: Pid)
    requires LogInv(s) && p in s.threads && AbortHeld(s.threads[p])
    requires s.threads[p].pc.Finished? && !s.threads[p].panicked
    ensures exists k: nat, status :: StoppedAt(s.events, p, k) && s.events[k] == MacroEvent(p, Stopped(status))
              && (status.Success? || status.Killed?)
  {
    LogShape(s, p);
    var last := s.threads[p].sent[|s.threads[p].sent| - 1];
    NoticeBroadcast(s.events, p, last);
    var k: nat :| k < |s.events| && s.events[k] == MacroEvent(p, last);
    assert StoppedAt(s.events, p, k) && s.events[k] == MacroEvent(p, Stopped(last.status));
  }

  /** `Killed` is recorded only for a macro that some call flagged. */
  lemma KilledOnlyIfAborted(states: seq<State>, steps: seq<Step>, i: nat, p: Pid, time: int)
    requires IsRun(states, steps) && i < |states|
    requires MacroEvent(p, Stopped(Killed(time))) in states[i].events
    ensures exists call :: 0 <= call < |states[i].aborters| && states[i].aborters[call].pid == p
              && HasFlagged(states[i].aborters[call])
  {
    hide IsRun, LogInv, TableInv, AbortInv;
    InvHolds(states, steps, i);
    KilledIsFlagged(states[i], p, time);
  }

  lemma KilledIsFlagged(s: State, p: Pid, time: int)
    requires LogInv(s) && AbortInv(s) && MacroEvent(p, Stopped(Killed(time))) in s.events
    ensures exists call :: 0 <= call < |s.aborters| && s.aborters[call].pid == p && HasFlagged(s.aborters[call])
  {
    hide LogInv, NoticesOf, ThreadInv, HandleInv, EffectInv, HasFlagged;
    LogShape(s, p);
    NoticeBroadcast(s.events, p, Stopped(Killed(time)));
    KilledMeansAborted(s.threads[p], time);
  }

  lemma KilledMeansAborted(m: Thread, time: int)
    requires ThreadInv(m) && (Opening(m.sent) || Closed(m.sent)) && Stopped(Killed(time)) in m.sent
    ensures m.aborted
  {
    assert SaysKilled(m);
  }
}
