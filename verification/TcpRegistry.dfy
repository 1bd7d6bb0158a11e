/** The shared table of tunnel clients: the flows that are taken and the
    clients that are registered. */
module TcpRegistry {

  type Address = string

  /** Who connects, and to which tunnel address. */
  datatype Flow = Flow(peer: Address, tunnel: Address)

  datatype Client = Client(id: nat, flow: Flow)

  datatype Lookup = Lookup(active: set<Flow>, clients: seq<Client>)

  const EMPTY_LOOKUP := Lookup({}, [])

  predicate HasId(clients: seq<Client>, id: nat) {
    exists k :: 0 <= k < |clients| && clients[k].id == id
  }

  ghost predicate DistinctIds(clients: seq<Client>) {
    forall j, k :: 0 <= j < k < |clients| ==> clients[j].id != clients[k].id
  }

  /** Where the first client with this id stands, or the length. */
  function IndexOf(clients: seq<Client>, id: nat): (k: nat)
    ensures k <= |clients|
    ensures k < |clients| ==> clients[k].id == id
    ensures forall j :: 0 <= j < k ==> clients[j].id != id
  {
    if clients == [] || clients[0].id == id then 0 else 1 + IndexOf(clients[1..], id)
  }

  function Released(lookup: Lookup, flow: Flow): Lookup {
    lookup.(active := lookup.active - {flow})
  }

  function Joined(lookup: Lookup, client: Client): Lookup {
    Lookup(lookup.active + {client.flow}, lookup.clients + [client])
  }

  function Left(lookup: Lookup, id: nat): Lookup {
    var k := IndexOf(lookup.clients, id);
    if k == |lookup.clients| then lookup
    else Lookup(lookup.active - {lookup.clients[k].flow}, lookup.clients[..k] + lookup.clients[k + 1..])
  }

  class TcpClients {
    var clientId: nat
    var active: set<Flow>
    var clients: seq<Client>

    constructor ()
      ensures clientId == 0 && Contents() == EMPTY_LOOKUP
    {
      clientId, active, clients := 0, {}, [];
    }

    function Contents(): Lookup
      reads this
    {
      Lookup(active, clients)
    }

    method NextId() returns (id: nat)
      modifies this`clientId
      ensures id == old(clientId) && clientId == id + 1
    {
      id := clientId;
      clientId := clientId + 1;
    }

    /** The insertion at the head of `spawn`. */
    method Claim(flow: Flow) returns (ok: bool)
      modifies this`active
      ensures ok <==> flow !in old(active)
      ensures active == old(active) + {flow}
    {
      ok := flow !in active;
      active := active + {flow};
    }

    /** The removal at the tail of a failed `spawn`. */
    method Release(flow: Flow)
      modifies this`active
      ensures active == old(active) - {flow} && Contents() == Released(old(Contents()), flow)
    {
      active := active - {flow};
    }

    method AddClient(client: Client)
      modifies this`active, this`clients
      ensures active == old(active) + {client.flow} && clients == old(clients) + [client]
      ensures Contents() == Joined(old(Contents()), client)
    {
      active := active + {client.flow};
      clients := clients + [client];
    }

    method RemoveClient(id: nat)
      modifies this`active, this`clients
      ensures Contents() == Left(old(Contents()), id)
    {
      var i := 0;
      while i < |clients|
        invariant i <= |clients|
        invariant clients == old(clients) && active == old(active)
        invariant forall j :: 0 <= j < i ==> clients[j].id != id
      {
        if clients[i].id == id {
          var removed := clients[i];
          clients := clients[..i] + clients[i + 1..];
          active := active - {removed.flow};
          return;
        }
        i := i + 1;
      }
    }
  }

  lemma LeftWithout(lookup: Lookup, id: nat)
    requires !HasId(lookup.clients, id)
    ensures Left(lookup, id) == lookup
  {
  }

  /** Removal takes out the one client with that id, keeps every other client
      and their order, and frees that client's flow only. */
  lemma LeftRemovesOne(lookup: Lookup, id: nat, at: nat)
    requires DistinctIds(lookup.clients) && at < |lookup.clients| && lookup.clients[at].id == id
    ensures Left(lookup, id).clients == lookup.clients[..at] + lookup.clients[at + 1..]
    ensures Left(lookup, id).active == lookup.active - {lookup.clients[at].flow}
    ensures !HasId(Left(lookup, id).clients, id) && DistinctIds(Left(lookup, id).clients)
    ensures forall c :: c in Left(lookup, id).clients <==> c in lookup.clients && c.id != id
  {
    assert IndexOf(lookup.clients, id) == at;
    var rest := lookup.clients[..at] + lookup.clients[at + 1..];
    RestIsDistinct(lookup.clients, at);
    hide IndexOf;
    forall c ensures c in rest <==> c in lookup.clients && c.id != id {
      OthersStay(lookup.clients, at, c);
    }
  }

  lemma RestIsDistinct(clients: seq<Client>, at: nat)
    requires DistinctIds(clients) && at < |clients|
    ensures var rest := clients[..at] + clients[at + 1..];
            DistinctIds(rest) && !HasId(rest, clients[at].id)
  {
    var rest := clients[..at] + clients[at + 1..];
    assert forall j :: 0 <= j < |rest| ==> rest[j] == clients[if j < at then j else j + 1];
  }

  lemma OthersStay(clients: seq<Client>, at: nat, c: Client)
    requires DistinctIds(clients) && at < |clients|
    ensures c in clients[..at] + clients[at + 1..] <==> c in clients && c.id != clients[at].id
  {
    assert clients == clients[..at] + [clients[at]] + clients[at + 1..];
  }

  /** Registering a client and removing it again gives back the clients, and
      the flows but for the client's own. */
  lemma LeftUndoesJoined(lookup: Lookup, client: Client)
    requires !HasId(lookup.clients, client.id)
    ensures Left(Joined(lookup, client), client.id) == Lookup(lookup.active - {client.flow}, lookup.clients)
  {
    var joined := Joined(lookup, client);
    assert joined.clients[|lookup.clients|] == client;
    assert forall k :: 0 <= k < |lookup.clients| ==> joined.clients[k] == lookup.clients[k];
    assert IndexOf(joined.clients, client.id) == |lookup.clients|;
    assert joined.clients[..|lookup.clients|] + joined.clients[|lookup.clients| + 1..] == lookup.clients;
    assert joined.active - {client.flow} == lookup.active - {client.flow};
  }
}
