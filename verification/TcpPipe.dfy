/** One direction of a tunnelled connection: the copying loop. What the
    sockets, the clock, the stop flag and the other direction do on each turn
    of the loop is an input. */
module TcpPipe {
  import opened Basics

  const BUFFER_SIZE: nat := 2048
  const IDLE_LIMIT: nat := 60_000

  datatype ReadOutcome =
    | Data(bytes: seq<byte>)   // empty at the end of the stream
    | ReadFailed
    | TimedOut

  datatype WriteOutcome =
    | WroteAll
    | WriteFailed(accepted: nat)   // `write_all` passed on a prefix before failing

  /** The time the other direction last stored since the previous turn. */
  datatype OtherStore = Nothing | StoredAt(time: nat)

  /** One turn: the stop flag, the clock, and what the sockets do. */
  datatype Turn = Turn(keepRunning: bool, now: nat, other: OtherStore, read: ReadOutcome, write: WriteOutcome)

  predicate Possible(turn: Turn) {
    && (turn.read.Data? ==> |turn.read.bytes| <= BUFFER_SIZE)
    && (turn.read.Data? && turn.write.WriteFailed? ==> turn.write.accepted <= |turn.read.bytes|)
  }

  datatype End = Running | ToldToStop | EndOfStream | ReadError | WriteError | Idle | ClockWentBack

  class Client {
    var fromTunnelBytes: nat
    var toTunnelBytes: nat
    var lastMessageAt: nat

    constructor ()
      ensures fromTunnelBytes == 0 && toTunnelBytes == 0 && lastMessageAt == 0
    {
      fromTunnelBytes, toTunnelBytes, lastMessageAt := 0, 0, 0;
    }

    method Count(fromTunnel: bool, received: nat)
      modifies this`fromTunnelBytes, this`toTunnelBytes
      ensures fromTunnelBytes == old(fromTunnelBytes) + if fromTunnel then received else 0
      ensures toTunnelBytes == old(toTunnelBytes) + if fromTunnel then 0 else received
      ensures Counted(fromTunnel) == old(Counted(fromTunnel)) + received
      ensures Counted(!fromTunnel) == old(Counted(!fromTunnel))
    {
      if fromTunnel {
        fromTunnelBytes := fromTunnelBytes + received;
      } else {
        toTunnelBytes := toTunnelBytes + received;
      }
    }

    function Counted(fromTunnel: bool): nat
      reads this
    {
      if fromTunnel then fromTunnelBytes else toTunnelBytes
    }
  }

  function Arrived(turn: Turn): seq<byte> {
    if turn.keepRunning && turn.read.Data? then turn.read.bytes else []
  }

  /** All bytes read on these turns, in order. */
  ghost function Stream(turns: seq<Turn>): seq<byte> {
    if turns == [] then [] else Stream(turns[..|turns| - 1]) + Arrived(turns[|turns| - 1])
  }

  /** When something last arrived, as a turn sees it: the other direction stores
      its time too. */
  function Seen(before: nat, turn: Turn): nat {
    if turn.other.StoredAt? then turn.other.time else before
  }

  /** And as the turn leaves it. */
  function Stored(before: nat, turn: Turn): nat {
    if turn.keepRunning && turn.read.Data? then turn.now else Seen(before, turn)
  }

  ghost function LastMessage(start: nat, turns: seq<Turn>): nat {
    if turns == [] then start else Stored(LastMessage(start, turns[..|turns| - 1]), turns[|turns| - 1])
  }

  /** How a turn ends that begins with this time stored. */
  function EndOf(before: nat, turn: Turn): End {
    if !turn.keepRunning then ToldToStop
    else match turn.read
      case ReadFailed => ReadError
      case TimedOut =>
        if turn.now < Seen(before, turn) then ClockWentBack
        else if turn.now - Seen(before, turn) > IDLE_LIMIT then Idle else Running
      case Data(bytes) =>
        if bytes == [] then EndOfStream else if turn.write.WriteFailed? then WriteError else Running
  }

  ghost function EndAt(start: nat, turns: seq<Turn>, k: nat): End
    requires k < |turns|
  {
    EndOf(LastMessage(start, turns[..k]), turns[k])
  }

  /** The time a turn leaves stored, if it or the other direction stores one. */
  predicate Stores(turn: Turn, t: nat) {
    if turn.keepRunning && turn.read.Data? then t == turn.now else turn.other == StoredAt(t)
  }

  predicate IsQuiet(turn: Turn) {
    !(turn.keepRunning && turn.read.Data?) && turn.other == Nothing
  }

  /** What the first `k` turns leave stored: what the last one left that was not
      quiet, or what was stored at the start. */
  ghost predicate IsLeft(start: nat, turns: seq<Turn>, k: nat, t: nat)
    requires k <= |turns|
  {
    || (exists j :: 0 <= j < k && Stores(turns[j], t) && forall m :: j < m < k ==> IsQuiet(turns[m]))
    || (t == start && forall m :: 0 <= m < k ==> IsQuiet(turns[m]))
  }

  /** The time of the latest message in either direction, as turn `k` sees it. */
  ghost predicate IsLatest(start: nat, turns: seq<Turn>, k: nat, t: nat)
    requires k < |turns|
  {
    turns[k].other == StoredAt(t) || (turns[k].other == Nothing && IsLeft(start, turns, k, t))
  }

  /** How turn `k` ends, and when exactly it ends so. */
  ghost predicate EndsBecause(start: nat, turns: seq<Turn>, k: nat, end: End)
    requires k < |turns|
  {
    var turn := turns[k];
    var timedOut := turn.keepRunning && turn.read == TimedOut;
    var received := turn.keepRunning && turn.read.Data? && turn.read.bytes != [];
    && (end == ToldToStop <==> !turn.keepRunning)
    && (end == ReadError <==> turn.keepRunning && turn.read == ReadFailed)
    && (end == EndOfStream <==> turn.keepRunning && turn.read == Data([]))
    && (end == WriteError <==> received && turn.write.WriteFailed?)
    && (end == Idle <==> timedOut && exists t :: IsLatest(start, turns, k, t) && turn.now - t > 60_000)
    && (end == ClockWentBack <==> timedOut && exists t :: IsLatest(start, turns, k, t) && turn.now < t)
    && (end == Running <==>
          || (received && turn.write == WroteAll)
          || (timedOut && exists t :: IsLatest(start, turns, k, t) && 0 <= turn.now - t <= 60_000))
  }

  lemma StreamExtends(turns: seq<Turn>, start: nat, k: nat)
    requires k < |turns|
    ensures Stream(turns[..k + 1]) == Stream(turns[..k]) + Arrived(turns[k])
    ensures LastMessage(start, turns[..k + 1]) == Stored(LastMessage(start, turns[..k]), turns[k])
  {
    assert turns[..k + 1][..k] == turns[..k];
  }

  lemma {:induction false} LeftIsLast(start: nat, turns: seq<Turn>, k: nat, t: nat)
    requires k <= |turns|
    ensures IsLeft(start, turns, k, t) <==> t == LastMessage(start, turns[..k])
  {
    if k == 0 {
      assert turns[..0] == [];
    } else {
      LeftIsLast(start, turns, k - 1, t);
      StreamExtends(turns, start, k - 1);
      hide LastMessage, Stream;
      if IsQuiet(turns[k - 1]) {
        QuietKeeps(start, turns, k - 1, t);
      } else {
        NoisyStores(start, turns, k - 1, t);
      }
    }
  }

  lemma QuietKeeps(start: nat, turns: seq<Turn>, k: nat, t: nat)
    requires k < |turns| && IsQuiet(turns[k])
    ensures IsLeft(start, turns, k + 1, t) <==> IsLeft(start, turns, k, t)
  {
    assert !Stores(turns[k], t);
    hide Stores, IsQuiet;
    if j :| 0 <= j < k && Stores(turns[j], t) && forall m :: j < m < k ==> IsQuiet(turns[m]) {
      assert forall m :: j < m < k + 1 ==> IsQuiet(turns[m]);
    }
  }

  lemma NoisyStores(start: nat, turns: seq<Turn>, k: nat, t: nat)
    requires k < |turns| && !IsQuiet(turns[k])
    ensures IsLeft(start, turns, k + 1, t) <==> Stores(turns[k], t)
  {
    hide Stores, IsQuiet;
    if Stores(turns[k], t) {
      assert IsLeft(start, turns, k + 1, t);
    }
  }

  /** A turn ends as the stop flag, the sockets, and the time since the latest
      message have it end. */
  lemma EndsExactly(start: nat, turns: seq<Turn>, k: nat)
    requires k < |turns|
    ensures EndsBecause(start, turns, k, EndAt(start, turns, k))
  {
    var latest := Seen(LastMessage(start, turns[..k]), turns[k]);
    forall t: nat ensures IsLatest(start, turns, k, t) <==> t == latest {
      LeftIsLast(start, turns, k, t);
    }
    assert IsLatest(start, turns, k, latest);
    hide IsLatest, LastMessage;
  }

  lemma StartsEmpty(start: nat)
    ensures Stream([]) == [] && LastMessage(start, []) == start
  {
  }

  /** A read lands at the front of the buffer; what an earlier read left
      behind it stays there. */
  method ReadInto(buffer: array<byte>, bytes: seq<byte>)
    requires |bytes| <= buffer.Length
    modifies buffer
    ensures buffer[..|bytes|] == bytes
    ensures buffer[|bytes|..] == old(buffer[|bytes|..])
  {
    forall i | 0 <= i < |bytes| {
      buffer[i] := bytes[i];
    }
  }

  /** The body of the loop. */
  method TakeTurn(turn: Turn, buffer: array<byte>, client: Client, fromTunnel: bool)
    returns (written: seq<byte>, end: End)
    requires Possible(turn) && buffer.Length == BUFFER_SIZE
    modifies buffer, client
    ensures client.Counted(!fromTunnel) == old(client.Counted(!fromTunnel))
    ensures if turn.keepRunning && turn.read.Data? then
              && client.Counted(fromTunnel) == old(client.Counted(fromTunnel)) + |turn.read.bytes|
              && (end.WriteError? ==> turn.write.WriteFailed?)
              && written == (if end.WriteError? then turn.read.bytes[..turn.write.accepted] else turn.read.bytes)
            else client.Counted(fromTunnel) == old(client.Counted(fromTunnel)) && written == [] && !end.WriteError?
    ensures end == EndOf(old(client.lastMessageAt), turn)
    ensures client.lastMessageAt == Stored(old(client.lastMessageAt), turn)
  {
    written := [];
    if turn.other.StoredAt? {
      client.lastMessageAt := turn.other.time;
    }
    if !turn.keepRunning {
      return written, ToldToStop;
    }
    match turn.read {
      case ReadFailed => end := ReadError;
      case TimedOut =>
        if turn.now < client.lastMessageAt {
          end := ClockWentBack;   // the unsigned subtraction overflows
        } else if turn.now - client.lastMessageAt > IDLE_LIMIT {
          end := Idle;
        } else {
          end := Running;
        }
      case Data(bytes) =>
        ReadInto(buffer, bytes);
        client.lastMessageAt := turn.now;
        if bytes == [] {
          return written, EndOfStream;
        }
        client.Count(fromTunnel, |bytes|);
        if turn.write.WriteFailed? {
          written := buffer[..turn.write.accepted];
          assert written == buffer[..|bytes|][..turn.write.accepted];
          end := WriteError;
        } else {
          written := buffer[..|bytes|];
          end := Running;
        }
    }
  }

  /** Copies until an end. Every turn but the last went round again, and how the
      last one ended is how its turn ends, given when something last arrived. The
      bytes counted are those that arrived, and the bytes written the same in order,
      unless a write failed: then only what it accepted of the last chunk. */
  method Pipe(turns: seq<Turn>, buffer: array<byte>, client: Client, fromTunnel: bool)
    returns (written: seq<byte>, used: nat, end: End)
    requires forall t :: t in turns ==> Possible(t)
    requires buffer.Length == BUFFER_SIZE
    modifies buffer, client
    ensures used <= |turns|
    ensures client.Counted(fromTunnel) == old(client.Counted(fromTunnel)) + |Stream(turns[..used])|
    ensures client.Counted(!fromTunnel) == old(client.Counted(!fromTunnel))
    ensures written <= Stream(turns[..used])
    ensures !end.WriteError? ==> written == Stream(turns[..used])
    ensures end.WriteError? ==>
              && used > 0 && Possible(turns[used - 1])
              && turns[used - 1].read.Data? && turns[used - 1].write.WriteFailed?
              && written == Stream(turns[..used - 1]) + turns[used - 1].read.bytes[..turns[used - 1].write.accepted]
    ensures client.lastMessageAt == LastMessage(old(client.lastMessageAt), turns[..used])
    ensures forall i :: 0 <= i < used - 1 ==> EndsBecause(old(client.lastMessageAt), turns, i, Running)
    ensures used > 0 ==> EndsBecause(old(client.lastMessageAt), turns, used - 1, end)
    ensures end.Running? ==> used == |turns|
  {
    hide EndOf, Stream, LastMessage, Stored, EndsBecause;
    written, used, end := [], 0, Running;
    ghost var start := client.lastMessageAt;
    assert turns[..0] == [];
    StartsEmpty(start);
    while used < |turns|
      invariant used <= |turns| && end.Running?
      invariant client.Counted(fromTunnel) == old(client.Counted(fromTunnel)) + |Stream(turns[..used])|
      invariant client.Counted(!fromTunnel) == old(client.Counted(!fromTunnel))
      invariant written == Stream(turns[..used])
      invariant client.lastMessageAt == LastMessage(start, turns[..used])
      invariant forall i :: 0 <= i < used ==> EndsBecause(start, turns, i, Running)
    {
      var turn := turns[used];
      assert turn in turns;
      StreamExtends(turns, start, used);
      EndsExactly(start, turns, used);
      var chunk;
      chunk, end := TakeTurn(turn, buffer, client, fromTunnel);
      written := written + chunk;
      used := used + 1;
      if !end.Running? {
        return;
      }
    }
  }
}
