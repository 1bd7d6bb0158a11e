/** The port allocator. Which 16-bit ports the system has free is an input. */
module Ports {
  import opened Basics

  const PORT_LIMIT: nat := 0x1_0000_0000   // ports are kept in 32 bits
  const SYSTEM_PORTS: nat := 0x1_0000      // and looked up in 16

  type Port = p: nat | p < PORT_LIMIT

  /** What `new_port as u16` asks the system about. */
  predicate Available(free: set<nat>, port: nat) {
    port % SYSTEM_PORTS in free
  }

  predicate Usable(taken: set<Port>, free: set<nat>, port: Port) {
    port !in taken && Available(free, port)
  }

  ghost predicate SomethingFree(free: set<nat>) {
    exists residue :: residue in free && residue < SYSTEM_PORTS
  }

  /** As far as the search can go while the system has a port free. */
  ghost function Reach(start: nat, taken: set<Port>): nat {
    start + SYSTEM_PORTS * (|taken| + 1)
  }

  /** The first usable port from `from` on, if there is one. */
  function FirstUsable(taken: set<Port>, free: set<nat>, from: nat): (port: Option<Port>)
    requires from <= PORT_LIMIT
    ensures port.Some? ==> port.value >= from && Usable(taken, free, port.value)
    ensures port.Some? ==> forall p: Port :: from <= p < port.value ==> !Usable(taken, free, p)
    ensures port.None? ==> forall p: Port :: from <= p ==> !Usable(taken, free, p)
    decreases PORT_LIMIT - from
  {
    if from == PORT_LIMIT then None
    else if Usable(taken, free, from) then Some(from) else FirstUsable(taken, free, from + 1)
  }

  lemma NoneUsable(taken: set<Port>, free: set<nat>, from: nat, to: nat)
    requires forall p: Port :: from <= p < to ==> !Usable(taken, free, p)
    ensures forall p: Port :: from <= p < to ==> p in taken || p % 0x1_0000 !in free
  {
    forall p: Port | from <= p < to ensures p in taken || p % 0x1_0000 !in free {
      assert !Usable(taken, free, p);
    }
  }

  lemma FirstUsableIs(taken: set<Port>, free: set<nat>, from: nat, port: Port)
    requires from <= port && Usable(taken, free, port)
    requires forall p: Port :: from <= p < port ==> !Usable(taken, free, p)
    ensures FirstUsable(taken, free, from) == Some(port)
  {
  }

  // ---------------------------------------------------------------------
  // What the operations do to the table
  // ---------------------------------------------------------------------

  datatype Op =
    | AllocateFrom(start: Port, free: set<nat>)
    | Add(port: Port)
    | Free(port: Port)

  /** The port an operation puts in the table: `allocate` looks for one, and
      `add_port` takes what it is given. */
  function Taken(taken: set<Port>, op: Op): Option<Port> {
    match op
    case AllocateFrom(start, free) =>
      if start !in taken then Some(start) else FirstUsable(taken, free, start + 1)
    case Add(port) => Some(port)
    case Free(_) => None
  }

  function After(taken: set<Port>, op: Op): set<Port> {
    if op.Free? then taken - {op.port}
    else if Taken(taken, op).Some? then taken + {Taken(taken, op).value} else taken
  }

  class PortManager {
    var allocatedPorts: set<Port>

    constructor (taken: set<Port>)
      ensures allocatedPorts == taken
    {
      allocatedPorts := taken;
    }

    /** The start if it is not allocated, otherwise the least usable port past
        it. None is the overflow of the 32-bit counter. */
    method Allocate(start: Port, free: set<nat>) returns (port: Option<Port>)
      modifies this
      ensures port == Taken(old(allocatedPorts), AllocateFrom(start, free))
      ensures start !in old(allocatedPorts) ==> port == Some(start)
      ensures start in old(allocatedPorts) && port.Some? ==>
                && port.value > start && port.value % 0x1_0000 in free
                && forall p: Port :: start + 1 <= p < port.value ==> p in old(allocatedPorts) || p % 0x1_0000 !in free
      ensures port.None? ==>
                && start in old(allocatedPorts)
                && forall p: Port :: start + 1 <= p < PORT_LIMIT ==> p in old(allocatedPorts) || p % 0x1_0000 !in free
      ensures port.Some? ==> port.value !in old(allocatedPorts)
      ensures SomethingFree(free) && Reach(start, old(allocatedPorts)) < PORT_LIMIT ==>
                port.Some? && port.value <= Reach(start, old(allocatedPorts))
      ensures allocatedPorts == if port.Some? then old(allocatedPorts) + {port.value} else old(allocatedPorts)
      ensures allocatedPorts == After(old(allocatedPorts), AllocateFrom(start, free))
    {
      if start !in allocatedPorts {
        allocatedPorts := allocatedPorts + {start};
        return Some(start);
      }
      ghost var usable := if SomethingFree(free) && Reach(start, allocatedPorts) < PORT_LIMIT
                          then UsablePort(allocatedPorts, free, start) else start;
      var newPort := start + 1;
      while newPort < PORT_LIMIT && (newPort in allocatedPorts || !Available(free, newPort))
        invariant start < newPort <= PORT_LIMIT
        invariant forall p: Port :: start + 1 <= p < newPort ==> !Usable(allocatedPorts, free, p)
      {
        newPort := newPort + 1;
      }
      NoneUsable(allocatedPorts, free, start + 1, newPort);
      if newPort == PORT_LIMIT {
        return None;
      }
      FirstUsableIs(allocatedPorts, free, start + 1, newPort);
      allocatedPorts := allocatedPorts + {newPort};
      return Some(newPort);
    }

    method AddPort(port: Port)
      modifies this
      ensures allocatedPorts == old(allocatedPorts) + {port} == After(old(allocatedPorts), Add(port))
    {
      allocatedPorts := allocatedPorts + {port};
    }

    method Deallocate(port: Port)
      modifies this
      ensures allocatedPorts == old(allocatedPorts) - {port} == After(old(allocatedPorts), Free(port))
    {
      allocatedPorts := allocatedPorts - {port};
    }
  }

  // ---------------------------------------------------------------------
  // How far the search goes
  // ---------------------------------------------------------------------

  /** The k-th port past `start` that looks like `residue` to the system. */
  function Alias(start: nat, residue: nat, k: nat): (p: nat)
    requires residue < SYSTEM_PORTS
    ensures start < p <= start + SYSTEM_PORTS * (k + 1)
    ensures p % SYSTEM_PORTS == residue
  {
    var gap := (residue - start - 1) % SYSTEM_PORTS;
    start + 1 + gap + SYSTEM_PORTS * k
  }

  ghost function Aliases(start: nat, residue: nat, n: nat): set<nat>
    requires residue < SYSTEM_PORTS
  {
    set k: nat | k < n :: Alias(start, residue, k)
  }

  lemma {:induction false} AliasCount(start: nat, residue: nat, n: nat)
    requires residue < SYSTEM_PORTS
    ensures |Aliases(start, residue, n)| == n
  {
    if n == 0 {
      assert Aliases(start, residue, 0) == {};
    } else {
      AliasCount(start, residue, n - 1);
      assert Aliases(start, residue, n) == Aliases(start, residue, n - 1) + {Alias(start, residue, n - 1)};
    }
  }

  /** If the system has any port free, a usable port stands within 65536 times
      one more than the number of allocated ports past the start, so below that
      the 32-bit counter does not overflow. */
  lemma UsablePortWithin(taken: set<Port>, free: set<nat>, start: Port)
    requires SomethingFree(free) && Reach(start, taken) < PORT_LIMIT
    ensures exists port: Port :: start < port <= Reach(start, taken) && Usable(taken, free, port)
  {
    var residue :| residue in free && residue < SYSTEM_PORTS;
    var n := |taken| + 1;
    AliasCount(start, residue, n);
    if forall k: nat :: k < n ==> Alias(start, residue, k) in taken {
      var plain: set<nat> := set p | p in taken;
      assert plain == taken;
      SubsetSize(Aliases(start, residue, n), plain);
      assert false;
    }
    var k: nat :| k < n && Alias(start, residue, k) !in taken;
    assert Usable(taken, free, Alias(start, residue, k));
  }

  ghost function UsablePort(taken: set<Port>, free: set<nat>, start: Port): (port: Port)
    requires SomethingFree(free) && Reach(start, taken) < PORT_LIMIT
    ensures start < port <= Reach(start, taken) && Usable(taken, free, port)
  {
    UsablePortWithin(taken, free, start);
    var port: Port :| start < port <= Reach(start, taken) && Usable(taken, free, port);
    port
  }

  // ---------------------------------------------------------------------
  // Whole runs
  // ---------------------------------------------------------------------

  ghost function Table(initial: set<Port>, ops: seq<Op>): set<Port> {
    if ops == [] then initial else After(Table(initial, ops[..|ops| - 1]), ops[|ops| - 1])
  }

  /** How many hold each port: one for every port there from the start, and one
      for every operation that took it since it was last freed. */
  ghost function Holders(initial: set<Port>, ops: seq<Op>): multiset<Port> {
    if ops == [] then multiset(initial) else
      var init, op := ops[..|ops| - 1], ops[|ops| - 1];
      var before := Holders(initial, init);
      if op.Free? then before[op.port := 0]
      else if Taken(Table(initial, init), op).Some? then before + multiset{Taken(Table(initial, init), op).value}
      else before
  }

  /** The table is exactly the ports somebody holds. */
  lemma {:induction false} TableIsHeld(initial: set<Port>, ops: seq<Op>, port: Port)
    ensures port in Table(initial, ops) <==> port in Holders(initial, ops)
  {
    if ops != [] {
      hide Taken;
      TableIsHeld(initial, ops[..|ops| - 1], port);
    }
  }

  /** `allocate` never hands out a port that somebody holds. */
  lemma AllocationsNeverShare(initial: set<Port>, ops: seq<Op>, i: nat)
    requires i < |ops| && ops[i].AllocateFrom? && Taken(Table(initial, ops[..i]), ops[i]).Some?
    ensures var port := Taken(Table(initial, ops[..i]), ops[i]).value;
            port !in Holders(initial, ops[..i]) && Holders(initial, ops[..i + 1])[port] == 1
  {
    var port := Taken(Table(initial, ops[..i]), ops[i]).value;
    TableIsHeld(initial, ops[..i], port);
    assert ops[..i + 1][..i] == ops[..i];
  }

  /** The port was added while it was in the table, and has not been freed. */
  ghost predicate AddedTwice(initial: set<Port>, ops: seq<Op>, port: Port) {
    exists k :: AddedAgain(initial, ops, port, k)
  }

  ghost predicate AddedAgain(initial: set<Port>, ops: seq<Op>, port: Port, k: int) {
    && 0 <= k < |ops| && ops[k] == Add(port) && port in Table(initial, ops[..k])
    && forall j :: k < j < |ops| ==> ops[j] != Free(port)
  }

  /** Two hold the same port exactly if it was added again, which `add_port`
      does not check. */
  lemma {:induction false} SharedExactly(initial: set<Port>, ops: seq<Op>, port: Port)
    ensures Holders(initial, ops)[port] > 1 <==> AddedTwice(initial, ops, port)
  {
    if ops != [] {
      var n := |ops| - 1;
      var init, op := ops[..n], ops[n];
      SharedExactly(initial, init, port);
      TableIsHeld(initial, init, port);
      AddedOneMore(initial, ops, port);
      hide AddedTwice;
    }
  }

  lemma AddedOneMore(initial: set<Port>, ops: seq<Op>, port: Port)
    requires ops != []
    ensures var init, op := ops[..|ops| - 1], ops[|ops| - 1];
            AddedTwice(initial, ops, port) <==>
              || (op == Add(port) && port in Table(initial, init))
              || (op != Free(port) && AddedTwice(initial, init, port))
  {
    var n := |ops| - 1;
    var init := ops[..n];
    hide Table;
    forall k | 0 <= k < n
      ensures AddedAgain(initial, ops, port, k) <==> ops[n] != Free(port) && AddedAgain(initial, init, port, k)
    {
      assert init[..k] == ops[..k];
      assert init[k] == ops[k];
      if AddedAgain(initial, ops, port, k) {
        assert forall j :: k < j < n ==> init[j] == ops[j];
      }
    }
    if ops[n] == Add(port) && port in Table(initial, init) {
      assert AddedAgain(initial, ops, port, n);
    }
  }

  /** A port is allocated and then added: two hold it. */
  lemma SharedAtAnExample(port: Port)
    ensures Holders({}, [AllocateFrom(port, {}), Add(port)])[port] == 2
  {
    var ops := [AllocateFrom(port, {}), Add(port)];
    assert ops[..1] == [ops[0]] && ops[..1][..0] == [];
    assert Holders({}, ops[..1]) == multiset{port};
  }
}
