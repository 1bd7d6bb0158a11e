/** Any number of macro threads, abort calls and the exit-status listener,
    interleaved one atomic action at a time, and what holds over whole runs. */
module MacroSystem {
  import opened MacroProtocol

  /** One call of `abort_macro` (or one turn of `shutdown_all`). The lookup and
      the three effects of `MacroHandle::abort` are separate actions. */
  datatype Aborter =
    | NotFound(pid: Pid)
    | Found(pid: Pid)
    | Flagged(pid: Pid)
    | Terminated(pid: Pid)
    | Completed(pid: Pid)

  datatype State = State(
    nextPid: nat,
    threads: map<Pid, Thread>,
    handles: set<Pid>,                  // keys of the process table
    aborters: seq<Aborter>,
    events: seq<Event>,                 // everything broadcast so far
    cursor: nat,                        // how far the listener has read
    lagged: bool,                       // whether the listener ever skipped events
    exitStatus: map<Pid, ExitStatus>)

  const INITIAL := State(0, map[], {}, [], [], 0, false, map[])

  datatype Step =
    | Spawn
    | SpawnFails
    | Run(pid: Pid, action: Action)
    | Lookup(pid: Pid)
    | StoreFlag(call: nat)
    | TerminateExecution(call: nat)
    | NotifyOne(call: nat)
    | Broadcast(event: Event)
    | Receive
    | Lag(skipped: nat)

  predicate Enabled(s: State, step: Step) {
    match step
    case Spawn => s.nextPid < PID_LIMIT
    case SpawnFails => s.nextPid < PID_LIMIT
    case Run(pid, action) => pid in s.threads && CanAct(s.threads[pid], action)
    case Lookup(_) => true
    case StoreFlag(call) => call < |s.aborters| && s.aborters[call].Found? && s.aborters[call].pid in s.threads
    case TerminateExecution(call) => call < |s.aborters| && s.aborters[call].Flagged?
    case NotifyOne(call) =>
      call < |s.aborters| && s.aborters[call].Terminated? && s.aborters[call].pid in s.threads
    // the rest of the program; a macro can ask for any pid to be detached
    case Broadcast(event) => event.OtherEvent? || event.notice.Detach?
    case Receive => s.cursor < |s.events|
    case Lag(skipped) => s.cursor + skipped <= |s.events|
  }

  function Tagged(pid: Pid, notices: seq<Notice>): (tagged: seq<Event>) {
    seq(|notices|, i requires 0 <= i < |notices| => MacroEvent(pid, notices[i]))
  }

  /** What the listener does with one event. */
  function Recorded(table: map<Pid, ExitStatus>, event: Event): map<Pid, ExitStatus> {
    if event.MacroEvent? && event.notice.Stopped? then table[event.pid := event.notice.status] else table
  }

  function Apply(s: State, step: Step): State
    requires Enabled(s, step)
  {
    match step
    case Spawn => s.(nextPid := s.nextPid + 1, threads := s.threads[s.nextPid := FRESH_THREAD])
    case SpawnFails => s.(nextPid := s.nextPid + 1)
    case Run(pid, action) =>
      var m := s.threads[pid];
      s.(threads := s.threads[pid := Act(m, action)],
         handles := if action.Register? then s.handles + {pid} else s.handles,
         events := s.events + Tagged(pid, Broadcasts(m, action)))
    case Lookup(pid) =>
      s.(aborters := s.aborters + [if pid in s.handles then Found(pid) else NotFound(pid)])
    case StoreFlag(call) =>
      var pid := s.aborters[call].pid;
      s.(threads := s.threads[pid := s.threads[pid].(aborted := true)],
         aborters := s.aborters[call := Flagged(pid)])
    case TerminateExecution(call) =>
      s.(aborters := s.aborters[call := Terminated(s.aborters[call].pid)])
    case NotifyOne(call) =>
      var pid := s.aborters[call].pid;
      s.(threads := s.threads[pid := s.threads[pid].(wakePermit := true)],
         aborters := s.aborters[call := Completed(pid)])
    case Broadcast(event) => s.(events := s.events + [event])
    case Receive =>
      s.(cursor := s.cursor + 1, exitStatus := Recorded(s.exitStatus, s.events[s.cursor]))
    case Lag(skipped) => s.(cursor := s.cursor + skipped, lagged := s.lagged || skipped > 0)
  }

  /** A run: the states it passes through and the steps between them. */
  ghost predicate IsRun(states: seq<State>, steps: seq<Step>) {
    && |states| == |steps| + 1
    && states[0] == INITIAL
    && forall i :: 0 <= i < |steps| ==> Enabled(states[i], steps[i]) && states[i + 1] == Apply(states[i], steps[i])
  }

  // ---------------------------------------------------------------------
  // The inductive invariant
  // ---------------------------------------------------------------------

  /** The `Started` and `Stopped` events of one pid, oldest first. */
  ghost function NoticesOf(events: seq<Event>, pid: Pid): seq<Notice> {
    if events == [] then [] else
      var earlier := NoticesOf(events[..|events| - 1], pid);
      var e := events[|events| - 1];
      if e.MacroEvent? && e.pid == pid && !e.notice.Detach? then earlier + [e.notice] else earlier
  }

  lemma {:induction false} NoticesAppend(events: seq<Event>, e: Event, pid: Pid)
    ensures NoticesOf(events + [e], pid)
         == NoticesOf(events, pid)
          + (if e.MacroEvent? && e.pid == pid && !e.notice.Detach? then [e.notice] else [])
  {
    assert (events + [e])[..|events|] == events;
  }

  /** A notice was broadcast for the pid exactly when it is in the pid's log. */
  lemma {:induction false} NoticeBroadcast(events: seq<Event>, pid: Pid, notice: Notice)
    requires !notice.Detach?
    ensures MacroEvent(pid, notice) in events <==> notice in NoticesOf(events, pid)
  {
    if events != [] {
      var init, e := events[..|events| - 1], events[|events| - 1];
      assert events == init + [e];
      NoticeBroadcast(init, pid, notice);
    }
  }

  /** No thread has the next pid yet. */
  ghost predicate FreshPidInv(s: State) {
    forall p :: p in s.threads ==> p < s.nextPid
  }

  ghost predicate LogInv(s: State) {
    && FreshPidInv(s)
    && (forall p :: p in s.threads ==> ThreadInv(s.threads[p]))
    && (forall p :: NoticesOf(s.events, p) == if p in s.threads then s.threads[p].sent else [])
  }

  predicate Awaiting(m: Thread) {
    m.pc == Announcing || m.pc == Selecting
  }

  predicate BeforeHandle(pc: Pc) {
    pc.Building? || pc.SettingUp? || pc.Registering?
  }

  predicate HasFlagged(a: Aborter) {
    a.Flagged? || a.Terminated? || a.Completed?
  }

  /** The process table has the pid from the insertion on, and not before. */
  predicate HandleOk(s: State, p: Pid) {
    && (p in s.handles ==> p in s.threads && !BeforeHandle(s.threads[p].pc))
    && (p in s.threads && (Awaiting(s.threads[p]) || s.threads[p].pc.Deciding?) ==> p in s.handles)
  }

  /** A call that found a handle still names a pid in the process table. */
  ghost predicate HandleInv(s: State) {
    && (forall p :: HandleOk(s, p))
    && (forall i :: 0 <= i < |s.aborters| && !s.aborters[i].NotFound? ==> s.aborters[i].pid in s.handles)
  }

  /** A call past its store left the flag set; a completed call left a permit
      until `select!` resolves. */
  ghost predicate Effective(s: State, a: Aborter) {
    && (HasFlagged(a) ==> a.pid in s.threads && s.threads[a.pid].aborted)
    && (a.Completed? ==> a.pid in s.threads && (Awaiting(s.threads[a.pid]) ==> s.threads[a.pid].wakePermit))
  }

  ghost predicate EffectInv(s: State) {
    forall i :: 0 <= i < |s.aborters| ==> Effective(s, s.aborters[i])
  }

  /** A set flag was set by some call. */
  ghost predicate CauseInv(s: State) {
    forall p :: p in s.threads && s.threads[p].aborted ==>
      exists i :: 0 <= i < |s.aborters| && s.aborters[i].pid == p && HasFlagged(s.aborters[i])
  }

  ghost predicate AbortInv(s: State) {
    HandleInv(s) && EffectInv(s) && CauseInv(s)
  }

  ghost predicate TableInv(s: State) {
    && s.cursor <= |s.events|
    && (forall p :: p in s.exitStatus ==> MacroEvent(p, Stopped(s.exitStatus[p])) in s.events[..s.cursor])
    && (!s.lagged ==> forall p, status :: MacroEvent(p, Stopped(status)) in s.events[..s.cursor] ==> p in s.exitStatus)
  }

  ghost predicate Inv(s: State) {
    LogInv(s) && AbortInv(s) && TableInv(s)
  }

  /** The aborters' effects do not touch what the invariant speaks of. */
  lemma ThreadInvIgnoresAborts(m: Thread)
    requires ThreadInv(m)
    ensures ThreadInv(m.(aborted := true)) && ThreadInv(m.(wakePermit := true))
  {
  }

  lemma ThreadInvAfter(s: State, step: Step, p: Pid)
    requires LogInv(s) && Enabled(s, step) && p in Apply(s, step).threads
    ensures ThreadInv(Apply(s, step).threads[p])
  {
    assert ThreadInv(FRESH_THREAD);
    hide ThreadInv, Act, CanAct, NoticesOf, Tagged, Broadcasts, Recorded;
    if p in s.threads {
      assert ThreadInv(s.threads[p]);
      ThreadInvIgnoresAborts(s.threads[p]);
      if step.Run? && step.pid == p {
        ThreadInvKept(s.threads[p], step.action);
      }
    }
  }

  lemma NoticesAfterRun(s: State, pid: Pid, action: Action, p: Pid)
    requires Enabled(s, Run(pid, action))
    ensures var s' := Apply(s, Run(pid, action));
            NoticesOf(s'.events, p)
            == NoticesOf(s.events, p) + if p == pid then Broadcasts(s.threads[pid], action) else []
  {
    var s' := Apply(s, Run(pid, action));
    var notices := Broadcasts(s.threads[pid], action);
    SentIsBroadcast(s.threads[pid], action);
    if notices == [] {
      assert s'.events == s.events;
    } else {
      assert s'.events == s.events + [MacroEvent(pid, notices[0])];
      NoticesAppend(s.events, MacroEvent(pid, notices[0]), p);
    }
  }

  lemma NoticesAfter(s: State, step: Step, p: Pid)
    requires FreshPidInv(s) && Enabled(s, step)
    requires NoticesOf(s.events, p) == if p in s.threads then s.threads[p].sent else []
    ensures var s' := Apply(s, step);
            NoticesOf(s'.events, p) == if p in s'.threads then s'.threads[p].sent else []
  {
    hide Act, CanAct, Broadcasts, NoticesOf, Tagged, Recorded;
    if step.Run? {
      NoticesAfterRun(s, step.pid, step.action, p);
      SentIsBroadcast(s.threads[step.pid], step.action);
    } else if step.Broadcast? {
      NoticesAppend(s.events, step.event, p);
    }
  }

  lemma LogInvKept(s: State, step: Step)
    requires LogInv(s) && Enabled(s, step)
    ensures LogInv(Apply(s, step))
  {
    hide ThreadInv;
    var s' := Apply(s, step);
    forall p | p in s'.threads ensures ThreadInv(s'.threads[p]) {
      ThreadInvAfter(s, step, p);
    }
    forall p ensures NoticesOf(s'.events, p) == if p in s'.threads then s'.threads[p].sent else [] {
      NoticesAfter(s, step, p);
    }
  }

  lemma HandleKept(s: State, step: Step, p: Pid)
    requires FreshPidInv(s) && HandleOk(s, p) && Enabled(s, step)
    ensures HandleOk(Apply(s, step), p)
  {
    if step.Run? && step.pid == p {
      RegisteredByThen(s.threads[p], step.action);
    }
  }

  lemma RegisteredByThen(m: Thread, a: Action)
    requires CanAct(m, a)
    ensures BeforeHandle(Act(m, a).pc) ==> BeforeHandle(m.pc) && !a.Register?
    ensures Awaiting(Act(m, a)) || Act(m, a).pc.Deciding? ==> Awaiting(m) || m.pc.Deciding? || a.Register?
  {
  }

  lemma HandleInvKept(s: State, step: Step)
    requires FreshPidInv(s) && HandleInv(s) && Enabled(s, step)
    ensures HandleInv(Apply(s, step))
  {
    hide HandleOk;
    forall p ensures HandleOk(Apply(s, step), p) {
      HandleKept(s, step, p);
    }
  }

  lemma EffectKept(s: State, step: Step, a: Aborter)
    requires FreshPidInv(s) && Effective(s, a) && Enabled(s, step)
    requires HandleOk(s, a.pid) && (!a.NotFound? ==> a.pid in s.handles)
    ensures Effective(Apply(s, step), a)
  {
    if step.Run? && step.pid == a.pid {
      EffectKeptByThread(s.threads[a.pid], step.action);
    }
    hide Act, CanAct, Tagged, Broadcasts, Recorded;
  }

  /** Only registering starts the wait, and only its end uses up the permit. */
  lemma EffectKeptByThread(m: Thread, a: Action)
    requires CanAct(m, a)
    ensures m.aborted ==> Act(m, a).aborted
    ensures Awaiting(Act(m, a)) ==> BeforeHandle(m.pc) || (Awaiting(m) && (m.wakePermit ==> Act(m, a).wakePermit))
  {
  }

  lemma EffectInvKept(s: State, step: Step)
    requires FreshPidInv(s) && HandleInv(s) && EffectInv(s) && Enabled(s, step)
    ensures EffectInv(Apply(s, step))
  {
    var s' := Apply(s, step);
    forall i | 0 <= i < |s'.aborters| ensures Effective(s', s'.aborters[i]) {
      if i < |s.aborters| {
        EffectKept(s, step, s.aborters[i]);
      }
    }
  }

  lemma FlagIsStored(s: State, step: Step, p: Pid)
    requires Enabled(s, step) && p in Apply(s, step).threads && Apply(s, step).threads[p].aborted
    requires !(p in s.threads && s.threads[p].aborted)
    ensures step.StoreFlag? && s.aborters[step.call].pid == p
  {
    if step.Run? && step.pid == p {
      ActKeepsFlag(s.threads[p], step.action);
    }
    hide Act, CanAct, Tagged, Broadcasts, Recorded;
  }

  /** The flag of a thread is not the thread's own to change. */
  lemma ActKeepsFlag(m: Thread, a: Action)
    requires CanAct(m, a)
    ensures Act(m, a).aborted == m.aborted
  {
    hide StatusOf;
  }

  lemma AbortersAdvance(s: State, step: Step, i: nat)
    requires Enabled(s, step) && i < |s.aborters|
    ensures i < |Apply(s, step).aborters| && Apply(s, step).aborters[i].pid == s.aborters[i].pid
    ensures HasFlagged(s.aborters[i]) ==> HasFlagged(Apply(s, step).aborters[i])
  {
  }

  lemma CauseInvKept(s: State, step: Step)
    requires CauseInv(s) && Enabled(s, step)
    ensures CauseInv(Apply(s, step))
  {
    var s' := Apply(s, step);
    assert step.StoreFlag? ==>
        HasFlagged(s'.aborters[step.call]) && s'.aborters[step.call].pid == s.aborters[step.call].pid;
    hide Apply;
    forall p | p in s'.threads && s'.threads[p].aborted
      ensures exists i :: 0 <= i < |s'.aborters| && s'.aborters[i].pid == p && HasFlagged(s'.aborters[i])
    {
      if p in s.threads && s.threads[p].aborted {
        var i :| 0 <= i < |s.aborters| && s.aborters[i].pid == p && HasFlagged(s.aborters[i]);
        AbortersAdvance(s, step, i);
      } else {
        FlagIsStored(s, step, p);
      }
    }
  }

  lemma TableInvKept(s: State, step: Step)
    requires TableInv(s) && Enabled(s, step)
    ensures TableInv(Apply(s, step))
  {
    var s' := Apply(s, step);
    if step.Receive? {
      assert s'.events[..s'.cursor] == s.events[..s.cursor] + [s.events[s.cursor]];
    } else if step.Lag? {
      assert s.events[..s.cursor] <= s'.events[..s'.cursor];
      assert step.skipped == 0 ==> s' == s;
    } else {
      NothingRead(s, step);
      hide Apply, Enabled;
    }
  }

  lemma NothingRead(s: State, step: Step)
    requires s.cursor <= |s.events| && Enabled(s, step) && !step.Receive? && !step.Lag?
    ensures var s' := Apply(s, step);
            && s.cursor == s'.cursor <= |s'.events| && s'.events[..s'.cursor] == s.events[..s.cursor]
            && s'.exitStatus == s.exitStatus && s'.lagged == s.lagged
  {
  }

  lemma InvKept(s: State, step: Step)
    requires Inv(s) && Enabled(s, step)
    ensures Inv(Apply(s, step))
  {
    LogInvKept(s, step);
    HandleInvKept(s, step);
    EffectInvKept(s, step);
    CauseInvKept(s, step);
    TableInvKept(s, step);
  }

  lemma {:induction false} InvHolds(states: seq<State>, steps: seq<Step>, i: nat)
    requires IsRun(states, steps) && i < |states|
    ensures Inv(states[i])
  {
    if i > 0 {
      InvHolds(states, steps, i - 1);
      InvKept(states[i - 1], steps[i - 1]);
    }
  }
}
