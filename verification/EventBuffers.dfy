/** The task that sorts broadcast events into bounded buffers. */
module EventBuffers {
  import opened Basics
  import opened Events

  const EVENTS_CAPACITY: nat := 512
  const CONSOLE_CAPACITY: nat := 1024

  datatype Receive = Received(event: Event) | Lagged | Closed

  /** `Event::is_event_console_message`. */
  predicate IsConsoleMessage(e: Event) {
    e.inner.InstanceEvent?
    && (e.inner.instanceKind.InstanceOutput? || e.inner.instanceKind.PlayerMessage?
        || e.inner.instanceKind.SystemMessage?)
  }

  /** `Event::get_instance_uuid`. */
  function InstanceUuidOf(e: Event): Option<InstanceUuid> {
    if e.inner.InstanceEvent? then Some(e.inner.instanceUuid) else None
  }

  /** A ring buffer: pushing onto a full one drops the oldest. */
  function Pushed<T>(buffer: seq<T>, capacity: nat, x: T): seq<T> {
    if |buffer| < capacity || buffer == [] then buffer + [x] else buffer[1..] + [x]
  }

  function Last<T>(s: seq<T>, n: nat): seq<T> {
    if |s| <= n then s else s[|s| - n..]
  }

  lemma PushedIsLast<T>(s: seq<T>, capacity: nat, x: T)
    requires capacity > 0
    ensures Pushed(Last(s, capacity), capacity, x) == Last(s + [x], capacity)
  {
  }

  /** What was received before the channel closed. */
  ghost function Delivered(receives: seq<Receive>): seq<Event> {
    if receives == [] then [] else
      Delivered(receives[..|receives| - 1])
      + if receives[|receives| - 1].Received? then [receives[|receives| - 1].event] else []
  }

  /** What belongs to the console of an instance: its output, and the messages of
      its players and of the system. */
  function ConsoleOf(uuid: InstanceUuid): Event -> bool {
    (e: Event) => && e.inner.InstanceEvent? && e.inner.instanceUuid == uuid
                  && e.inner.instanceKind in {InstanceOutput, PlayerMessage, SystemMessage}
  }

  ghost function NotConsole(): Event -> bool {
    (e: Event) => forall uuid :: !ConsoleOf(uuid)(e)
  }

  /** The two kinds of buffers. */
  datatype Contents = Contents(events: seq<Event>, console: map<InstanceUuid, seq<Event>>)

  function BufferOf(c: Contents, uuid: InstanceUuid): seq<Event> {
    if uuid in c.console then c.console[uuid] else []
  }

  function Routed(c: Contents, e: Event): Contents {
    if IsConsoleMessage(e) then
      var uuid := InstanceUuidOf(e).value;
      c.(console := c.console[uuid := Pushed(BufferOf(c, uuid), CONSOLE_CAPACITY, e)])
    else c.(events := Pushed(c.events, EVENTS_CAPACITY, e))
  }

  ghost predicate HoldsConsole(c: Contents, delivered: seq<Event>, uuid: InstanceUuid) {
    BufferOf(c, uuid) == Last(Select(delivered, ConsoleOf(uuid)), 1024)
  }

  /** The buffers hold the latest of what was routed to them. */
  ghost predicate Holds(c: Contents, delivered: seq<Event>) {
    && c.events == Last(Select(delivered, NotConsole()), 512)
    && forall uuid :: HoldsConsole(c, delivered, uuid)
  }

  /** The routing looks for exactly these. */
  lemma ConsoleIs(e: Event)
    ensures NotConsole()(e) <==> !IsConsoleMessage(e)
    ensures IsConsoleMessage(e) ==> InstanceUuidOf(e).Some?
    ensures forall uuid :: ConsoleOf(uuid)(e) <==> IsConsoleMessage(e) && InstanceUuidOf(e) == Some(uuid)
  {
    if IsConsoleMessage(e) {
      assert ConsoleOf(e.inner.instanceUuid)(e);
    }
  }

  lemma RoutedKeepsEvents(c: Contents, delivered: seq<Event>, e: Event)
    requires c.events == Last(Select(delivered, NotConsole()), EVENTS_CAPACITY)
    ensures Routed(c, e).events == Last(Select(delivered + [e], NotConsole()), EVENTS_CAPACITY)
  {
    ConsoleIs(e);
    hide Last, Pushed, NotConsole, IsConsoleMessage;
    SelectOne(delivered, e, NotConsole());
    PushedIsLast(Select(delivered, NotConsole()), EVENTS_CAPACITY, e);
  }

  lemma RoutedKeepsConsole(c: Contents, delivered: seq<Event>, e: Event, uuid: InstanceUuid)
    requires HoldsConsole(c, delivered, uuid)
    ensures HoldsConsole(Routed(c, e), delivered + [e], uuid)
  {
    ConsoleIs(e);
    hide Last, Pushed, NotConsole, IsConsoleMessage, ConsoleOf;
    SelectOne(delivered, e, ConsoleOf(uuid));
    PushedIsLast(Select(delivered, ConsoleOf(uuid)), CONSOLE_CAPACITY, e);
  }

  lemma RoutedHolds(c: Contents, delivered: seq<Event>, e: Event)
    requires Holds(c, delivered)
    ensures Holds(Routed(c, e), delivered + [e])
  {
    hide HoldsConsole, Routed;
    RoutedKeepsEvents(c, delivered, e);
    forall uuid
      ensures HoldsConsole(Routed(c, e), delivered + [e], uuid)
    {
      RoutedKeepsConsole(c, delivered, e, uuid);
    }
  }

  /** The events of the first receives. */
  ghost function SoFar(receives: seq<Receive>, k: nat): seq<Event>
    requires k <= |receives|
  {
    Delivered(receives[..k])
  }

  class Buffers {
    var events: seq<Event>
    var console: map<InstanceUuid, seq<Event>>

    constructor ()
      ensures Now() == Contents([], map[])
    {
      events, console := [], map[];
    }

    function Now(): Contents
      reads this
    {
      Contents(events, console)
    }

    /** Routes one event; a console message always has an instance id. */
    method Route(event: Event)
      modifies this
      ensures Now() == Routed(old(Now()), event)
    {
      if IsConsoleMessage(event) {
        var uuid := InstanceUuidOf(event).value;
        if uuid !in console {
          console := console[uuid := []];
        }
        console := console[uuid := Pushed(console[uuid], CONSOLE_CAPACITY, event)];
      } else {
        events := Pushed(events, EVENTS_CAPACITY, event);
      }
    }

    /** Routes the next event, after which the buffers hold one more. */
    method RouteNext(event: Event, ghost receives: seq<Receive>, ghost k: nat)
      requires k < |receives| && receives[k] == Received(event) && Holds(Now(), SoFar(receives, k))
      modifies this
      ensures Holds(Now(), SoFar(receives, k + 1))
    {
      hide Holds, Routed, SoFar;
      SoFarOne(receives, k);
      RoutedHolds(Now(), SoFar(receives, k), event);
      Route(event);
    }

    /** The task, from empty buffers until the channel closes: whatever was
        received, the event buffer is the last 512 other events and the buffer
        of an instance its last 1024 console events. */
    method Run(receives: seq<Receive>) returns (used: nat)
      requires Now() == Contents([], map[])
      modifies this
      ensures used <= |receives| && (used < |receives| ==> receives[used].Closed?)
      ensures forall i :: 0 <= i < used ==> !receives[i].Closed?
      ensures Holds(Now(), SoFar(receives, used))
    {
      hide *;
      used := 0;
      SoFarNothing(receives);
      while used < |receives|
        invariant used <= |receives|
        invariant forall i :: 0 <= i < used ==> !receives[i].Closed?
        invariant Holds(Now(), SoFar(receives, used))
      {
        match receives[used] {
          case Lagged => SoFarLagged(receives, used);
          case Closed => break;
          case Received(event) => RouteNext(event, receives, used);
        }
        used := used + 1;
      }
    }
  }

  lemma SoFarNothing(receives: seq<Receive>)
    ensures Holds(Contents([], map[]), SoFar(receives, 0))
  {
  }

  lemma SoFarLagged(receives: seq<Receive>, k: nat)
    requires k < |receives| && receives[k].Lagged?
    ensures SoFar(receives, k + 1) == SoFar(receives, k)
  {
    SoFarOne(receives, k);
  }

  lemma SoFarOne(receives: seq<Receive>, k: nat)
    requires k < |receives|
    ensures SoFar(receives, k + 1)
         == if receives[k].Received? then SoFar(receives, k) + [receives[k].event] else SoFar(receives, k)
  {
    assert receives[..k + 1][..k] == receives[..k];
  }

  /** Every event has exactly one buffer: that of the other events, or the
      console of one instance, which it names. */
  lemma RoutedOnce(e: Event)
    ensures NotConsole()(e) <==> forall uuid :: !ConsoleOf(uuid)(e)
    ensures forall a, b :: ConsoleOf(a)(e) && ConsoleOf(b)(e) ==> a == b
    ensures !NotConsole()(e) ==> InstanceUuidOf(e).Some? && ConsoleOf(InstanceUuidOf(e).value)(e)
  {
    ConsoleIs(e);
  }
}
