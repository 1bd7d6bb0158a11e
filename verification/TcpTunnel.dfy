/** Every call of `TcpConnection::spawn` and every pair of pipes, interleaved.
    The state carries, as history, who owns each taken flow. */
module TcpTunnel {
  import opened TcpRegistry

  /** One call of `spawn`, between its atomic actions. */
  datatype Setup =
    | Asked(flow: Flow)                 // before the insertion
    | Rejected(flow: Flow)              // the flow was taken already, or the call was dropped before it asked
    | Connecting(flow: Flow)            // reaching the tunnel server, then the local one
    | Identified(flow: Flow, id: nat)   // has a client id, about to register
    | Failing(flow: Flow)               // a connection failed, about to give the flow back
    | Refused(flow: Flow)               // gave the flow back
    | Serving(id: nat)                  // registered
    | Abandoned(flow: Flow)             // dropped or panicked while it held the flow

  predicate Holds(setup: Setup) {
    setup.Connecting? || setup.Identified? || setup.Failing? || setup.Abandoned?
  }

  datatype PipePc =
    | NotStarted
    | Copying
    | Leaving(last: bool)   // after `fetch_sub`
    | Gone(last: bool)      // over, and the client removed if it was the last
    | Lost                  // dropped or panicked before `fetch_sub`
    | Dropped(last: bool)   // dropped after `fetch_sub`, waiting to remove the client

  predicate Subtracted(pc: PipePc) {
    pc.Leaving? || pc.Gone? || pc.Dropped?
  }

  /** A registered connection; `running` is the shared weighted counter. */
  datatype Conn = Conn(flow: Flow, running: int, hostToTunnel: PipePc, tunnelToHost: PipePc)

  datatype Owner = BySetup(call: nat) | ByClient(id: nat)

  datatype State = State(
    nextId: nat,
    lookup: Lookup,
    setups: seq<Setup>,
    conns: map<nat, Conn>,
    owner: map<Flow, Owner>)

  const INITIAL := State(0, EMPTY_LOOKUP, [], map[], map[])

  datatype Step =
    | Ask(flow: Flow)
    | Claim(call: nat)
    | Identify(call: nat)
    | Register(call: nat)
    | ConnectFails(call: nat)
    | GiveBack(call: nat)
    | Abandon(call: nat)
    | StartPipe(id: nat, fromTunnel: bool)
    | LosePipe(id: nat, fromTunnel: bool)
    | Subtract(id: nat, fromTunnel: bool)
    | Finish(id: nat, fromTunnel: bool)

  function PipeOf(conn: Conn, fromTunnel: bool): PipePc {
    if fromTunnel then conn.tunnelToHost else conn.hostToTunnel
  }

  function WithPipe(conn: Conn, fromTunnel: bool, pc: PipePc): Conn {
    if fromTunnel then conn.(tunnelToHost := pc) else conn.(hostToTunnel := pc)
  }

  function Weight(fromTunnel: bool): int {
    if fromTunnel then 2 else 1
  }

  predicate Enabled(s: State, step: Step) {
    match step
    case Ask(_) => true
    case Claim(call) => call < |s.setups| && s.setups[call].Asked?
    case Identify(call) => call < |s.setups| && s.setups[call].Connecting?
    case Register(call) => call < |s.setups| && s.setups[call].Identified?
    case ConnectFails(call) => call < |s.setups| && s.setups[call].Connecting?
    case GiveBack(call) => call < |s.setups| && s.setups[call].Failing?
    case Abandon(call) => call < |s.setups| && (s.setups[call].Asked? || Holds(s.setups[call]))
    // `spawn` starts the pipe out of the tunnel second
    case StartPipe(id, fromTunnel) =>
      && id in s.conns && PipeOf(s.conns[id], fromTunnel).NotStarted?
      && (fromTunnel ==> !s.conns[id].hostToTunnel.NotStarted?)
    // only the last pipe has anything to wait for once it has subtracted
    case LosePipe(id, fromTunnel) =>
      && id in s.conns
      && var pc := PipeOf(s.conns[id], fromTunnel);
         pc.NotStarted? || pc.Copying? || pc == Leaving(true)
    case Subtract(id, fromTunnel) => id in s.conns && PipeOf(s.conns[id], fromTunnel).Copying?
    case Finish(id, fromTunnel) => id in s.conns && PipeOf(s.conns[id], fromTunnel).Leaving?
  }

  function Apply(s: State, step: Step): State
    requires Enabled(s, step)
  {
    match step
    case Ask(flow) => s.(setups := s.setups + [Asked(flow)])
    case Claim(call) =>
      var flow := s.setups[call].flow;
      if flow in s.lookup.active then s.(setups := s.setups[call := Rejected(flow)])
      else s.(setups := s.setups[call := Connecting(flow)],
              lookup := s.lookup.(active := s.lookup.active + {flow}),
              owner := s.owner[flow := BySetup(call)])
    case Identify(call) =>
      s.(setups := s.setups[call := Identified(s.setups[call].flow, s.nextId)], nextId := s.nextId + 1)
    case Register(call) =>
      var flow, id := s.setups[call].flow, s.setups[call].id;
      s.(setups := s.setups[call := Serving(id)],
         lookup := Joined(s.lookup, Client(id, flow)),
         conns := s.conns[id := Conn(flow, 3, NotStarted, NotStarted)],
         owner := s.owner[flow := ByClient(id)])
    case ConnectFails(call) => s.(setups := s.setups[call := Failing(s.setups[call].flow)])
    case GiveBack(call) =>
      var flow := s.setups[call].flow;
      s.(setups := s.setups[call := Refused(flow)],
         lookup := Released(s.lookup, flow),
         owner := s.owner - {flow})
    case Abandon(call) =>
      var flow := s.setups[call].flow;
      s.(setups := s.setups[call := if s.setups[call].Asked? then Rejected(flow) else Abandoned(flow)])
    case StartPipe(id, fromTunnel) => s.(conns := s.conns[id := WithPipe(s.conns[id], fromTunnel, Copying)])
    case LosePipe(id, fromTunnel) =>
      var pc := if PipeOf(s.conns[id], fromTunnel).Leaving? then Dropped(true) else Lost;
      s.(conns := s.conns[id := WithPipe(s.conns[id], fromTunnel, pc)])
    case Subtract(id, fromTunnel) =>
      var conn := s.conns[id];
      var last := conn.running == Weight(fromTunnel);
      var left := WithPipe(conn, fromTunnel, Leaving(last)).(running := conn.running - Weight(fromTunnel));
      s.(conns := s.conns[id := left])
    case Finish(id, fromTunnel) =>
      var conn := s.conns[id];
      var last := PipeOf(conn, fromTunnel).last;
      var s' := s.(conns := s.conns[id := WithPipe(conn, fromTunnel, Gone(last))]);
      if last then s'.(lookup := Left(s.lookup, id), owner := s.owner - {conn.flow}) else s'
  }

  ghost predicate IsRun(states: seq<State>, steps: seq<Step>) {
    && |states| == |steps| + 1
    && states[0] == INITIAL
    && forall i :: 0 <= i < |steps| ==> Enabled(states[i], steps[i]) && states[i + 1] == Apply(states[i], steps[i])
  }

  // ---------------------------------------------------------------------
  // The counter of one connection
  // ---------------------------------------------------------------------

  /** The counter is the weight of the pipes that have not subtracted, and a
      pipe saw itself as the last exactly if the other had subtracted first. */
  ghost predicate ConnInv(conn: Conn) {
    var host, tunnel := conn.hostToTunnel, conn.tunnelToHost;
    && conn.running == (if Subtracted(host) then 0 else 1) + (if Subtracted(tunnel) then 0 else 2)
    && (Subtracted(host) && !Subtracted(tunnel) ==> !host.last)
    && (Subtracted(tunnel) && !Subtracted(host) ==> !tunnel.last)
    && (Subtracted(host) && Subtracted(tunnel) ==> host.last != tunnel.last)
    && (host.Dropped? ==> host.last) && (tunnel.Dropped? ==> tunnel.last)
  }

  predicate Removed(conn: Conn) {
    conn.hostToTunnel == Gone(true) || conn.tunnelToHost == Gone(true)
  }

  lemma SubtractKeepsConnInv(conn: Conn, fromTunnel: bool)
    requires ConnInv(conn) && PipeOf(conn, fromTunnel).Copying?
    ensures conn.running >= Weight(fromTunnel)
    ensures var last := conn.running == Weight(fromTunnel);
            ConnInv(WithPipe(conn, fromTunnel, Leaving(last)).(running := conn.running - Weight(fromTunnel)))
  {
  }

  // ---------------------------------------------------------------------
  // Who owns which flow
  // ---------------------------------------------------------------------

  ghost predicate IdOk(s: State, id: nat) {
    id in s.conns ==> id < s.nextId && ConnInv(s.conns[id])
  }

  /** Ids are given out once: a call that has one is not registered under it
      yet, and no other call has it. */
  ghost predicate IdInv(s: State) {
    && (forall id :: IdOk(s, id))
    && (forall i :: 0 <= i < |s.setups| && s.setups[i].Identified? ==>
          s.setups[i].id < s.nextId && s.setups[i].id !in s.conns)
    && (forall i, j :: 0 <= i < j < |s.setups| && s.setups[i].Identified? && s.setups[j].Identified? ==>
          s.setups[i].id != s.setups[j].id)
  }

  /** A client is in the list exactly while its last pipe has not finished. */
  predicate ListOk(s: State, c: Client) {
    c in s.lookup.clients <==> c.id in s.conns && s.conns[c.id].flow == c.flow && !Removed(s.conns[c.id])
  }

  ghost predicate ClientInv(s: State) {
    DistinctIds(s.lookup.clients) && forall c :: ListOk(s, c)
  }

  predicate SetupOk(s: State, i: nat)
    requires i < |s.setups|
  {
    Holds(s.setups[i]) ==> s.setups[i].flow in s.owner && s.owner[s.setups[i].flow] == BySetup(i)
  }

  predicate ClientOk(s: State, c: Client) {
    c in s.lookup.clients ==> c.flow in s.owner && s.owner[c.flow] == ByClient(c.id)
  }

  predicate FlowOk(s: State, f: Flow) {
    && (f in s.lookup.active <==> f in s.owner)
    && (f in s.owner ==>
          if s.owner[f].BySetup? then
            s.owner[f].call < |s.setups| && Holds(s.setups[s.owner[f].call]) && s.setups[s.owner[f].call].flow == f
          else
            Client(s.owner[f].id, f) in s.lookup.clients)
  }

  /** Every taken flow has one owner: a call that is setting it up, or a
      registered client. */
  ghost predicate OwnerInv(s: State) {
    && (forall f :: FlowOk(s, f))
    && (forall i :: 0 <= i < |s.setups| ==> SetupOk(s, i))
    && (forall c :: ClientOk(s, c))
  }

  ghost predicate Inv(s: State) {
    IdInv(s) && ClientInv(s) && OwnerInv(s)
  }

  lemma IdKept(s: State, step: Step, id: nat)
    requires IdInv(s) && Enabled(s, step)
    ensures IdOk(Apply(s, step), id)
  {
    assert IdOk(s, id);
    if step.Subtract? && step.id == id {
      SubtractKeepsConnInv(s.conns[id], step.fromTunnel);
    }
  }

  lemma IdInvKept(s: State, step: Step)
    requires IdInv(s) && Enabled(s, step)
    ensures IdInv(Apply(s, step))
  {
    hide ConnInv, WithPipe, Weight, Joined, Left;
    forall id ensures IdOk(Apply(s, step), id) {
      IdKept(s, step, id);
    }
    assert forall id :: id in s.conns ==> IdOk(s, id);
    hide IdOk;
  }

  /** The last pipe to finish finds its client registered, and takes out that
      client only. */
  lemma LastFinishes(s: State, id: nat, fromTunnel: bool) returns (at: nat)
    requires IdInv(s) && ClientInv(s) && id in s.conns && PipeOf(s.conns[id], fromTunnel) == Leaving(true)
    ensures at < |s.lookup.clients| && s.lookup.clients[at] == Client(id, s.conns[id].flow)
    ensures Left(s.lookup, id) == Lookup(s.lookup.active - {s.conns[id].flow},
                                         s.lookup.clients[..at] + s.lookup.clients[at + 1..])
    ensures DistinctIds(Left(s.lookup, id).clients)
    ensures forall c :: c in Left(s.lookup, id).clients <==> c in s.lookup.clients && c.id != id
  {
    var c := Client(id, s.conns[id].flow);
    assert IdOk(s, id) && ListOk(s, c);
    at :| 0 <= at < |s.lookup.clients| && s.lookup.clients[at] == c;
    LeftRemovesOne(s.lookup, id, at);
  }

  lemma RegisterIsNew(s: State, call: nat)
    requires IdInv(s) && ClientInv(s) && Enabled(s, Register(call))
    ensures !HasId(s.lookup.clients, s.setups[call].id)
  {
    forall k | 0 <= k < |s.lookup.clients| ensures s.lookup.clients[k].id != s.setups[call].id {
      assert ListOk(s, s.lookup.clients[k]);
    }
  }

  lemma ListKept(s: State, step: Step, c: Client)
    requires IdInv(s) && ClientInv(s) && Enabled(s, step)
    ensures ListOk(Apply(s, step), c)
  {
    hide DistinctIds, Left, HasId;
    assert ListOk(s, c) && IdOk(s, c.id);
    if step.Finish? && PipeOf(s.conns[step.id], step.fromTunnel).last {
      var at := LastFinishes(s, step.id, step.fromTunnel);
    }
  }

  lemma ClientInvKept(s: State, step: Step)
    requires IdInv(s) && ClientInv(s) && Enabled(s, step)
    ensures ClientInv(Apply(s, step))
  {
    forall c ensures ListOk(Apply(s, step), c) {
      ListKept(s, step, c);
    }
    if step.Finish? && PipeOf(s.conns[step.id], step.fromTunnel).last {
      var at := LastFinishes(s, step.id, step.fromTunnel);
    } else if step.Register? {
      RegisterIsNew(s, step.call);
    }
  }

  lemma SetupKept(s: State, step: Step, i: nat)
    requires Inv(s) && Enabled(s, step) && i < |Apply(s, step).setups|
    ensures SetupOk(Apply(s, step), i)
  {
    hide IdInv, ClientInv, HasId, Left, DistinctIds;
    assert i < |s.setups| ==> SetupOk(s, i);
    if step.Claim? {
      assert FlowOk(s, s.setups[step.call].flow);
    } else if step.GiveBack? || step.Register? {
      assert SetupOk(s, step.call);
    } else if step.Finish? && PipeOf(s.conns[step.id], step.fromTunnel).last {
      var at := LastFinishes(s, step.id, step.fromTunnel);
      assert ClientOk(s, s.lookup.clients[at]);
    }
  }

  lemma ClientKept(s: State, step: Step, c: Client)
    requires Inv(s) && Enabled(s, step)
    ensures ClientOk(Apply(s, step), c)
  {
    hide IdInv, ClientInv, HasId, Left, DistinctIds;
    assert ClientOk(s, c);
    if step.Claim? {
      assert FlowOk(s, s.setups[step.call].flow);
    } else if step.GiveBack? || step.Register? {
      assert SetupOk(s, step.call);
    } else if step.Finish? && PipeOf(s.conns[step.id], step.fromTunnel).last {
      var at := LastFinishes(s, step.id, step.fromTunnel);
      assert ClientOk(s, s.lookup.clients[at]);
    }
  }

  lemma FlowKept(s: State, step: Step, f: Flow)
    requires Inv(s) && Enabled(s, step)
    ensures FlowOk(Apply(s, step), f)
  {
    hide IdInv, ClientInv, HasId, Left, DistinctIds;
    assert FlowOk(s, f);
    if step.GiveBack? || step.Register? {
      assert SetupOk(s, step.call);
    } else if step.Finish? && PipeOf(s.conns[step.id], step.fromTunnel).last {
      var at := LastFinishes(s, step.id, step.fromTunnel);
      assert ClientOk(s, s.lookup.clients[at]);
    }
  }

  lemma OwnerInvKept(s: State, step: Step)
    requires Inv(s) && Enabled(s, step)
    ensures OwnerInv(Apply(s, step))
  {
    var s' := Apply(s, step);
    forall f ensures FlowOk(s', f) { FlowKept(s, step, f); }
    forall i: nat | i < |s'.setups| ensures SetupOk(s', i) { SetupKept(s, step, i); }
    forall c ensures ClientOk(s', c) { ClientKept(s, step, c); }
  }

  lemma {:induction false} InvHolds(states: seq<State>, steps: seq<Step>, i: nat)
    requires IsRun(states, steps) && i < |states|
    ensures Inv(states[i])
  {
    if i > 0 {
      InvHolds(states, steps, i - 1);
      IdInvKept(states[i - 1], steps[i - 1]);
      ClientInvKept(states[i - 1], steps[i - 1]);
      OwnerInvKept(states[i - 1], steps[i - 1]);
    }
  }
}
