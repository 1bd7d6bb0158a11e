/** The life of macro threads, the callers that abort them and the task that
    records how they ended, as one interleaved state machine.

    A thread's own program is in the first half: the points at which it can be
    pre-empted, the actions it can take, and what it broadcasts. The second
    half puts any number of threads, aborters and the listener together. */
module MacroProtocol {
  import opened Basics

  type Pid = nat

  /** `next_process_id` is a 64-bit counter. */
  const PID_LIMIT: nat := 0x1_0000_0000_0000_0000

  /** What an error message says. */
  datatype Cause = Message(text: string) | ThreadPanicked

  datatype ExitStatus =
    | Success(time: int)
    | Killed(time: int)
    | Error(time: int, cause: Cause)

  datatype Notice = Started | Detach | Stopped(status: ExitStatus)

  datatype Event = MacroEvent(pid: Pid, notice: Notice) | OtherEvent

  // ---------------------------------------------------------------------
  // One macro thread
  // ---------------------------------------------------------------------

  /** Where the thread is, between two of its atomic actions. */
  datatype Pc =
    | Building                            // in `run`, building its own runtime
    | SettingUp                           // in `run_macro`, inside `setup()`
    | Registering                         // about to put its handle in the process table
    | Announcing                          // about to broadcast `Started`
    | Selecting                           // inside `select!`
    | Deciding(ok: bool)                  // `select!` resolved, the abort flag not read yet
    | Marking(status: ExitStatus)         // in `send_stopped`, before the store
    | Sending(status: ExitStatus)         // in `send_stopped`, after the store
    | Returning                           // `run_macro` is over, the runtime is being dropped
    | Checking(failure: Option<Cause>)   // after `catch_unwind`, before the load
    | FallingBack(status: ExitStatus)     // about to broadcast in place of `send_stopped`
    | Finished

  /** The shared cells of a thread and, as history, what it broadcast, whether
      it panicked, and whether it panicked inside a broadcast of `Stopped`. */
  datatype Thread = Thread(
    pc: Pc,
    stoppedSent: bool,
    aborted: bool,
    wakePermit: bool,
    sent: seq<Notice>,
    panicked: bool,
    muted: bool)

  const FRESH_THREAD := Thread(Building, false, false, false, [], false, false)

  datatype Action =
    | BuildRuntime
    | BuildRuntimeFails(cause: Cause)
    | SetUp
    | SetUpFails(time: int, cause: Cause)
    | Register
    | Announce
    | RunResolves(ok: bool)
    | WakeResolves
    | Decide(time: int, cause: Cause)
    | Mark
    | Send
    | Return
    | Panic
    | Check(time: int)
    | FallBack

  predicate InsideCatchUnwind(pc: Pc) {
    !pc.Checking? && !pc.FallingBack? && !pc.Finished?
  }

  predicate CanAct(m: Thread, a: Action) {
    match a
    case BuildRuntime => m.pc == Building
    case BuildRuntimeFails(_) => m.pc == Building
    case SetUp => m.pc == SettingUp
    case SetUpFails(_, _) => m.pc == SettingUp
    case Register => m.pc == Registering
    case Announce => m.pc == Announcing
    case RunResolves(_) => m.pc == Selecting
    case WakeResolves => m.pc == Selecting && m.wakePermit
    case Decide(_, _) => m.pc.Deciding?
    case Mark => m.pc.Marking?
    case Send => m.pc.Sending?
    case Return => m.pc == Returning
    case Panic => InsideCatchUnwind(m.pc) || m.pc.FallingBack?
    case Check(_) => m.pc.Checking?
    case FallBack => m.pc.FallingBack?
  }

  /** What the macro's result becomes once the abort flag is read. */
  function StatusOf(ok: bool, aborted: bool, time: int, cause: Cause): ExitStatus {
    if ok then Success(time) else if aborted then Killed(time) else Error(time, cause)
  }

  function Act(m: Thread, a: Action): Thread
    requires CanAct(m, a)
  {
    match a
    case BuildRuntime => m.(pc := SettingUp)
    case BuildRuntimeFails(cause) => m.(pc := Checking(Some(cause)))
    case SetUp => m.(pc := Registering)
    case SetUpFails(time, cause) => m.(pc := Marking(Error(time, cause)))
    case Register => m.(pc := Announcing)
    case Announce => m.(pc := Selecting, sent := m.sent + [Started])
    case RunResolves(ok) => m.(pc := Deciding(ok))
    case WakeResolves => m.(pc := Deciding(false), wakePermit := false)
    case Decide(time, cause) => m.(pc := Marking(StatusOf(m.pc.ok, m.aborted, time, cause)))
    case Mark => m.(pc := Sending(m.pc.status), stoppedSent := true)
    case Send => m.(pc := Returning, sent := m.sent + [Stopped(m.pc.status)])
    case Return => m.(pc := Checking(None))
    case Panic =>
      if m.pc.FallingBack? then
        // outside `catch_unwind`: the thread dies without its report
        m.(pc := Finished, panicked := true, muted := true)
      else
        m.(pc := Checking(Some(ThreadPanicked)),
           panicked := true,
           muted := m.muted || m.pc.Sending?)
    case Check(time) =>
      if m.stoppedSent || m.pc.failure.None? then m.(pc := Finished)
      else m.(pc := FallingBack(Error(time, m.pc.failure.value)))
    case FallBack => m.(pc := Finished, sent := m.sent + [Stopped(m.pc.status)])
  }

  /** What the action puts on the broadcast channel. */
  function Broadcasts(m: Thread, a: Action): seq<Notice>
    requires CanAct(m, a)
  {
    match a
    case Announce => [Started]
    case Send => [Stopped(m.pc.status)]
    case FallBack => [Stopped(m.pc.status)]
    case _ => []
  }

  // ---------------------------------------------------------------------
  // What holds of one thread at every point
  // ---------------------------------------------------------------------

  ghost predicate Opening(sent: seq<Notice>) {
    |sent| == 0 || (|sent| == 1 && sent[0] == Started)
  }

  /** One `Stopped`, at the end, after at most one `Started`. */
  ghost predicate Closed(sent: seq<Notice>) {
    || (|sent| == 1 && sent[0].Stopped?)
    || (|sent| == 2 && sent[0] == Started && sent[1].Stopped?)
  }

  ghost predicate Reported(m: Thread) {
    if m.muted then Opening(m.sent) else Closed(m.sent)
  }

  ghost predicate SaysKilled(m: Thread) {
    || ((m.pc.Marking? || m.pc.Sending? || m.pc.FallingBack?) && m.pc.status.Killed?)
    || (Closed(m.sent) && m.sent[|m.sent| - 1].status.Killed?)
  }

  /** The inductive invariant of a thread's own program. */
  ghost predicate ThreadInv(m: Thread) {
    && (match m.pc
        case Building => m.sent == []
        case SettingUp => m.sent == []
        case Registering => m.sent == []
        case Announcing => m.sent == []
        case Selecting => Opening(m.sent) && m.sent != []
        case Deciding(_) => Opening(m.sent) && m.sent != []
        case Marking(_) => Opening(m.sent)
        case Sending(_) => Opening(m.sent)
        case Returning => Closed(m.sent)
        case Checking(failure) =>
          if m.stoppedSent then Reported(m) else failure.Some? && Opening(m.sent)
        case FallingBack(status) => Opening(m.sent) && status.Error?
        case Finished => Reported(m))
    && (m.muted ==> m.panicked && (m.pc.Checking? || m.pc.Finished?))
    && (m.muted && m.pc.Checking? ==> m.stoppedSent)
    && (m.pc.Sending? || m.pc.Returning? ==> m.stoppedSent)
    && (m.stoppedSent ==> m.pc.Sending? || m.pc.Returning? || m.pc.Checking? || m.pc.Finished?)
    && (m.panicked ==> m.pc.Checking? || m.pc.FallingBack? || m.pc.Finished?)
    && (SaysKilled(m) ==> m.aborted)
  }

  /** Every action of the thread keeps its invariant. */
  lemma ThreadInvKept(m: Thread, a: Action)
    requires ThreadInv(m) && CanAct(m, a)
    ensures ThreadInv(Act(m, a))
  {
  }

  /** The history of a thread is what it put on the channel. */
  lemma SentIsBroadcast(m: Thread, a: Action)
    requires CanAct(m, a)
    ensures Act(m, a).sent == m.sent + Broadcasts(m, a)
    ensures |Broadcasts(m, a)| <= 1
    ensures forall n :: n in Broadcasts(m, a) ==> !n.Detach?
  {
    assert Broadcasts(m, a) == [] ==> m.sent + [] == m.sent;
  }
}
