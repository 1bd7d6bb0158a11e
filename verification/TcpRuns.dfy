/** What holds of the tunnel clients in every state of every run. */
module TcpRuns {
  import opened TcpRegistry
  import opened TcpTunnel

  ghost function SetupFlows(s: State): set<Flow> {
    set i | 0 <= i < |s.setups| && Holds(s.setups[i]) :: s.setups[i].flow
  }

  ghost function ClientFlows(s: State): set<Flow> {
    set c | c in s.lookup.clients :: c.flow
  }

  /** `active` is exactly the disjoint union of the flows being set up and the
      flows of registered clients, each of them held once. */
  lemma ActiveIsDisjointUnion(states: seq<State>, steps: seq<Step>, at: nat)
    requires IsRun(states, steps) && at < |states|
    ensures var s := states[at];
            && s.lookup.active == SetupFlows(s) + ClientFlows(s)
            && SetupFlows(s) !! ClientFlows(s)
            && (forall i, j :: 0 <= i < j < |s.setups| && Holds(s.setups[i]) && Holds(s.setups[j]) ==>
                  s.setups[i].flow != s.setups[j].flow)
            && (forall j, k :: 0 <= j < k < |s.lookup.clients| ==>
                  s.lookup.clients[j].flow != s.lookup.clients[k].flow)
  {
    hide Apply;
    InvHolds(states, steps, at);
    OwnersPartition(states[at]);
  }

  lemma OwnersPartition(s: State)
    requires ClientInv(s) && OwnerInv(s)
    ensures s.lookup.active == SetupFlows(s) + ClientFlows(s)
    ensures SetupFlows(s) !! ClientFlows(s)
    ensures forall i, j :: 0 <= i < j < |s.setups| && Holds(s.setups[i]) && Holds(s.setups[j]) ==>
              s.setups[i].flow != s.setups[j].flow
    ensures forall j, k :: 0 <= j < k < |s.lookup.clients| ==> s.lookup.clients[j].flow != s.lookup.clients[k].flow
  {
    assert forall f :: f in s.owner ==> FlowOk(s, f);
    forall f ensures f in s.lookup.active <==> f in SetupFlows(s) + ClientFlows(s) {
      assert FlowOk(s, f);
      if f in SetupFlows(s) {
        var i :| 0 <= i < |s.setups| && Holds(s.setups[i]) && s.setups[i].flow == f;
        assert SetupOk(s, i);
      }
      if f in ClientFlows(s) {
        var c :| c in s.lookup.clients && c.flow == f;
        assert ClientOk(s, c);
      }
    }
    forall f | f in SetupFlows(s) ensures f !in ClientFlows(s) {
      var i :| 0 <= i < |s.setups| && Holds(s.setups[i]) && s.setups[i].flow == f;
      assert SetupOk(s, i);
      assert forall c :: c in s.lookup.clients ==> ClientOk(s, c);
    }
    forall i, j | 0 <= i < j < |s.setups| && Holds(s.setups[i]) && Holds(s.setups[j])
      ensures s.setups[i].flow != s.setups[j].flow
    {
      assert SetupOk(s, i) && SetupOk(s, j);
    }
    forall j, k | 0 <= j < k < |s.lookup.clients| ensures s.lookup.clients[j].flow != s.lookup.clients[k].flow {
      assert ClientOk(s, s.lookup.clients[j]) && ClientOk(s, s.lookup.clients[k]);
    }
  }

  /** No flow ever has two connections that are still served, nor one while
      another call is setting it up. */
  lemma OneConnectionPerFlow(states: seq<State>, steps: seq<Step>, at: nat, a: nat)
    requires IsRun(states, steps) && at < |states|
    requires a in states[at].conns && !Removed(states[at].conns[a])
    ensures var s := states[at];
            && (forall b :: b in s.conns && !Removed(s.conns[b]) && s.conns[b].flow == s.conns[a].flow ==> b == a)
            && (forall i :: 0 <= i < |s.setups| && Holds(s.setups[i]) ==> s.setups[i].flow != s.conns[a].flow)
  {
    hide Apply;
    InvHolds(states, steps, at);
    var s := states[at];
    var mine := Client(a, s.conns[a].flow);
    assert ListOk(s, mine) && ClientOk(s, mine);
    forall b | b in s.conns && !Removed(s.conns[b]) && s.conns[b].flow == s.conns[a].flow ensures b == a {
      var other := Client(b, s.conns[b].flow);
      assert ListOk(s, other) && ClientOk(s, other);
    }
    forall i | 0 <= i < |s.setups| && Holds(s.setups[i]) ensures s.setups[i].flow != s.conns[a].flow {
      assert SetupOk(s, i);
    }
  }

  /** The counter is 3, 2, 1 or 0, every subtraction has enough to take from,
      and once both pipes have subtracted, exactly one saw itself as the last
      and the counter is 0. */
  lemma CounterIsSafe(states: seq<State>, steps: seq<Step>, at: nat, id: nat)
    requires IsRun(states, steps) && at < |states| && id in states[at].conns
    ensures var conn := states[at].conns[id];
            && 0 <= conn.running <= 3
            && (forall fromTunnel :: PipeOf(conn, fromTunnel).Copying? ==> conn.running >= Weight(fromTunnel))
            && (conn.running == 0 <==> Subtracted(conn.hostToTunnel) && Subtracted(conn.tunnelToHost))
            && (conn.running == 0 ==> conn.hostToTunnel.last != conn.tunnelToHost.last)
  {
    hide Apply;
    InvHolds(states, steps, at);
    assert IdOk(states[at], id);
  }

  /** The client list grows only by registering at its end, and shrinks only
      when the last pipe of a client finishes, which takes out that client and
      leaves every other in its place. */
  lemma OnlyTheLastPipeRemoves(states: seq<State>, steps: seq<Step>, at: nat)
    requires IsRun(states, steps) && at < |steps|
    ensures var before, after := states[at].lookup.clients, states[at + 1].lookup.clients;
            match steps[at]
            case Register(call) =>
              after == before + [Client(states[at].setups[call].id, states[at].setups[call].flow)]
            case Finish(id, fromTunnel) =>
              if PipeOf(states[at].conns[id], fromTunnel).last then
                exists k :: 0 <= k < |before| && before[k].id == id && after == before[..k] + before[k + 1..]
              else after == before
            case _ => after == before
  {
    InvHolds(states, steps, at);
    var step := steps[at];
    if step.Finish? && PipeOf(states[at].conns[step.id], step.fromTunnel).last {
      var k := LastFinishes(states[at], step.id, step.fromTunnel);
      assert states[at].lookup.clients[k].id == step.id;
    }
  }

  // ---------------------------------------------------------------------
  // When nothing is in progress
  // ---------------------------------------------------------------------

  predicate Over(pc: PipePc) {
    pc.Gone? || pc.Lost? || pc.Dropped?
  }

  /** No call of `spawn` and no pipe has anything left to do. */
  ghost predicate Idle(s: State) {
    && (forall i :: 0 <= i < |s.setups| ==>
          !s.setups[i].Asked? && !s.setups[i].Connecting? && !s.setups[i].Identified? && !s.setups[i].Failing?)
    && (forall id :: id in s.conns ==> Over(s.conns[id].hostToTunnel) && Over(s.conns[id].tunnelToHost))
  }

  /** A pipe was lost before it subtracted, or the last one before it removed
      the client. */
  predicate LeftBehind(conn: Conn) {
    conn.hostToTunnel.Lost? || conn.tunnelToHost.Lost? || conn.hostToTunnel.Dropped? || conn.tunnelToHost.Dropped?
  }

  ghost predicate SomeLeftBehind(s: State) {
    exists id :: id in s.conns && LeftBehind(s.conns[id])
  }

  ghost predicate SomeSetupAbandoned(s: State) {
    exists i :: 0 <= i < |s.setups| && s.setups[i].Abandoned?
  }

  /** When nothing is in progress, exactly those clients are still registered
      that were left behind, and a flow is taken exactly if it is theirs or that
      of a call of `spawn` dropped while it held it. */
  lemma IdleMeansEmpty(states: seq<State>, steps: seq<Step>, at: nat)
    requires IsRun(states, steps) && at < |states| && Idle(states[at])
    ensures var s := states[at];
            && (forall c :: c in s.lookup.clients <==>
                  c.id in s.conns && s.conns[c.id].flow == c.flow && LeftBehind(s.conns[c.id]))
            && (s.lookup.clients == [] <==> !SomeLeftBehind(s))
            && (s.lookup.active == {} <==> !SomeLeftBehind(s) && !SomeSetupAbandoned(s))
  {
    hide Apply;
    var s := states[at];
    InvHolds(states, steps, at);
    forall c
      ensures c in s.lookup.clients <==> c.id in s.conns && s.conns[c.id].flow == c.flow && LeftBehind(s.conns[c.id])
    {
      assert ListOk(s, c) && IdOk(s, c.id);
    }
    OwnersPartition(s);
    hide OwnerInv, ClientInv, IdInv;
    if s.lookup.clients != [] {
      var c := s.lookup.clients[0];
      assert c in s.lookup.clients && c.flow in ClientFlows(s);
    }
    if id :| id in s.conns && LeftBehind(s.conns[id]) {
      assert Client(id, s.conns[id].flow) in s.lookup.clients;
    }
    if i :| 0 <= i < |s.setups| && s.setups[i].Abandoned? {
      assert s.setups[i].flow in SetupFlows(s);
    }
    if s.lookup.clients == [] && !SomeSetupAbandoned(s) {
      assert SetupFlows(s) == {} && ClientFlows(s) == {};
    }
  }

  // ---------------------------------------------------------------------
  // Two runs that leave a client behind
  // ---------------------------------------------------------------------

  /** A run that goes on with one step. */
  lemma OneMoreStep(states: seq<State>, steps: seq<Step>, step: Step)
    requires IsRun(states, steps) && Enabled(states[|steps|], step)
    ensures IsRun(states + [Apply(states[|steps|], step)], steps + [step])
  {
  }

  /** The table with one client, whose pipes are at these places. */
  function Serving1(flow: Flow, running: int, host: PipePc, tunnel: PipePc): State {
    State(1, Lookup({flow}, [Client(0, flow)]), [Serving(0)],
          map[0 := Conn(flow, running, host, tunnel)], map[flow := ByClient(0)])
  }

  /** A client is registered. */
  lemma RegistersOne(flow: Flow) returns (states: seq<State>, steps: seq<Step>)
    ensures IsRun(states, steps) && states[|steps|] == Serving1(flow, 3, NotStarted, NotStarted)
  {
    states, steps := [INITIAL], [];
    var s1 := State(0, EMPTY_LOOKUP, [Asked(flow)], map[], map[]);
    states, steps := Extended(states, steps, Ask(flow), s1);
    var s2 := State(0, Lookup({flow}, []), [Connecting(flow)], map[], map[flow := BySetup(0)]);
    states, steps := Extended(states, steps, Claim(0), s2);
    var s3 := State(1, Lookup({flow}, []), [Identified(flow, 0)], map[], map[flow := BySetup(0)]);
    states, steps := Extended(states, steps, Identify(0), s3);
    states, steps := Extended(states, steps, Register(0), Serving1(flow, 3, NotStarted, NotStarted));
  }

  lemma Extended(states: seq<State>, steps: seq<Step>, step: Step, next: State)
    returns (states': seq<State>, steps': seq<Step>)
    requires IsRun(states, steps) && Enabled(states[|steps|], step) && Apply(states[|steps|], step) == next
    ensures IsRun(states', steps') && states'[|steps'|] == next
  {
    OneMoreStep(states, steps, step);
    states', steps' := states + [next], steps + [step];
  }

  /** Both pipes are dropped before they start, and the flow stays taken. */
  lemma LostPipesLeaveTheFlow(flow: Flow) returns (states: seq<State>, steps: seq<Step>)
    ensures IsRun(states, steps) && Idle(states[|steps|])
    ensures states[|steps|].lookup == Lookup({flow}, [Client(0, flow)])
  {
    states, steps := RegistersOne(flow);
    states, steps := Extended(states, steps, LosePipe(0, false), Serving1(flow, 3, Lost, NotStarted));
    states, steps := Extended(states, steps, LosePipe(0, true), Serving1(flow, 3, Lost, Lost));
  }

  /** The pipe towards the tunnel comes to its end, the other goes on. */
  lemma PipesStart(flow: Flow) returns (states: seq<State>, steps: seq<Step>)
    ensures IsRun(states, steps) && states[|steps|] == Serving1(flow, 3, Copying, Copying)
  {
    states, steps := RegistersOne(flow);
    states, steps := Extended(states, steps, StartPipe(0, false), Serving1(flow, 3, Copying, NotStarted));
    states, steps := Extended(states, steps, StartPipe(0, true), Serving1(flow, 3, Copying, Copying));
  }

  lemma HostPipeEnds(flow: Flow) returns (states: seq<State>, steps: seq<Step>)
    ensures IsRun(states, steps) && states[|steps|] == Serving1(flow, 2, Gone(false), Copying)
  {
    states, steps := PipesStart(flow);
    states, steps := Extended(states, steps, Subtract(0, false), Serving1(flow, 2, Leaving(false), Copying));
    states, steps := Extended(states, steps, Finish(0, false), Serving1(flow, 2, Gone(false), Copying));
  }

  /** Both pipes subtract, and the last is dropped before it gets the table. */
  lemma DroppedLastPipeLeavesTheFlow(flow: Flow) returns (states: seq<State>, steps: seq<Step>)
    ensures IsRun(states, steps) && Idle(states[|steps|])
    ensures states[|steps|] == Serving1(flow, 0, Gone(false), Dropped(true))
  {
    states, steps := HostPipeEnds(flow);
    states, steps := Extended(states, steps, Subtract(0, true), Serving1(flow, 0, Gone(false), Leaving(true)));
    states, steps := Extended(states, steps, LosePipe(0, true), Serving1(flow, 0, Gone(false), Dropped(true)));
  }

  /** A setup is dropped while it holds the flow, which stays taken. */
  lemma DroppedSetupLeavesTheFlow(flow: Flow) returns (states: seq<State>, steps: seq<Step>)
    ensures IsRun(states, steps) && Idle(states[|steps|])
    ensures states[|steps|].lookup == Lookup({flow}, [])
  {
    states, steps := [INITIAL], [];
    var s1 := State(0, EMPTY_LOOKUP, [Asked(flow)], map[], map[]);
    states, steps := Extended(states, steps, Ask(flow), s1);
    var s2 := State(0, Lookup({flow}, []), [Connecting(flow)], map[], map[flow := BySetup(0)]);
    states, steps := Extended(states, steps, Claim(0), s2);
    var s3 := State(0, Lookup({flow}, []), [Abandoned(flow)], map[], map[flow := BySetup(0)]);
    states, steps := Extended(states, steps, Abandon(0), s3);
  }

  /** A connection is served to its end, and nothing is left of it. */
  lemma ServedToTheEnd(flow: Flow) returns (states: seq<State>, steps: seq<Step>)
    ensures IsRun(states, steps) && Idle(states[|steps|])
    ensures 0 in states[|steps|].conns && states[|steps|].conns[0] == Conn(flow, 0, Gone(false), Gone(true))
    ensures states[|steps|].lookup == EMPTY_LOOKUP
  {
    states, steps := HostPipeEnds(flow);
    states, steps := Extended(states, steps, Subtract(0, true), Serving1(flow, 0, Gone(false), Leaving(true)));
    var s := Serving1(flow, 0, Gone(false), Gone(true)).(lookup := EMPTY_LOOKUP, owner := map[]);
    states, steps := Extended(states, steps, Finish(0, true), s);
  }
}
