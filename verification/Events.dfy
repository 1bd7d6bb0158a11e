/** The events the program broadcasts, as far as filters and routing look at
    them. */
module Events {
  import opened Basics

  type InstanceUuid = string
  type UserId = string

  datatype InstanceEventKind =
    | StateTransition | InstanceWarning | InstanceError | InstanceInput
    | InstanceOutput | SystemMessage | PlayerChange | PlayerMessage

  datatype UserEventKind =
    UserCreated | UserDeleted | UserLoggedIn | UserLoggedOut | UsernameChanged | PermissionChanged

  datatype MacroEventKind = Started | Detach | Stopped(success: bool)

  datatype ProgressionEventKind = ProgressionStart | ProgressionUpdate | ProgressionEnd(success: bool)

  datatype EventInner =
    | InstanceEvent(instanceUuid: InstanceUuid, instanceKind: InstanceEventKind, message: string)
    | UserEvent(userId: UserId, userKind: UserEventKind)
    | MacroEvent(macroKind: MacroEventKind)
    | FSEvent
    | ProgressionEvent(progressionKind: ProgressionEventKind)
    | PlayitggRunnerEvent

  datatype EventType = TInstance | TUser | TMacro | TFS | TProgression | TPlayitggRunner

  datatype EventLevel = Info | Warning | Error

  datatype Event = Event(inner: EventInner, details: string, snowflake: int)

  function TypeOf(inner: EventInner): EventType {
    match inner
    case InstanceEvent(_, _, _) => TInstance
    case UserEvent(_, _) => TUser
    case MacroEvent(_) => TMacro
    case FSEvent => TFS
    case ProgressionEvent(_) => TProgression
    case PlayitggRunnerEvent => TPlayitggRunner
  }

  /** The level an event gets on its way to clients. */
  function LevelOf(inner: EventInner): EventLevel {
    match inner
    case InstanceEvent(_, InstanceError, _) => Error
    case InstanceEvent(_, InstanceWarning, _) => Warning
    case MacroEvent(Stopped(false)) => Error
    case ProgressionEvent(ProgressionEnd(false)) => Error
    case _ => Info
  }

  predicate IsProgressUpdate(e: Event) {
    e.inner.ProgressionEvent? && e.inner.progressionKind.ProgressionUpdate?
  }

  datatype TimeRange = TimeRange(start: int, end: int)

  datatype EventQuery = EventQuery(
    levels: Option<seq<EventLevel>>,
    types: Option<seq<EventType>>,
    instanceKinds: Option<seq<InstanceEventKind>>,
    userKinds: Option<seq<UserEventKind>>,
    userIds: Option<seq<UserId>>,
    instanceIds: Option<seq<InstanceUuid>>,
    timeRange: Option<TimeRange>)

  const ANYTHING := EventQuery(None, None, None, None, None, None, None)

  /** `EventQuery::filter`; the time range is not looked at. */
  function Filter(q: EventQuery, e: Event): bool {
    if q.levels.Some? && LevelOf(e.inner) !in q.levels.value then false
    else if q.types.Some? && TypeOf(e.inner) !in q.types.value then false
    else if q.instanceKinds.Some? && (!e.inner.InstanceEvent? || e.inner.instanceKind !in q.instanceKinds.value)
    then false
    else if q.userKinds.Some? && (!e.inner.UserEvent? || e.inner.userKind !in q.userKinds.value) then false
    else if q.userIds.Some? && (!e.inner.UserEvent? || e.inner.userId !in q.userIds.value) then false
    else if q.instanceIds.Some? && (!e.inner.InstanceEvent? || e.inner.instanceUuid !in q.instanceIds.value) then false
    else true
  }

  // ---------------------------------------------------------------------
  // What a query asks for
  // ---------------------------------------------------------------------

  /** Errors are what went wrong in an instance, a macro or a progression. */
  predicate HasLevel(inner: EventInner, level: EventLevel) {
    var isError :=
      || (inner.InstanceEvent? && inner.instanceKind == InstanceError)
      || (inner.MacroEvent? && inner.macroKind == Stopped(false))
      || (inner.ProgressionEvent? && inner.progressionKind == ProgressionEnd(false));
    var isWarning := inner.InstanceEvent? && inner.instanceKind == InstanceWarning;
    match level
    case Error => isError
    case Warning => isWarning
    case Info => !isError && !isWarning
  }

  predicate HasType(inner: EventInner, type_: EventType) {
    match type_
    case TInstance => inner.InstanceEvent?
    case TUser => inner.UserEvent?
    case TMacro => inner.MacroEvent?
    case TFS => inner.FSEvent?
    case TProgression => inner.ProgressionEvent?
    case TPlayitggRunner => inner.PlayitggRunnerEvent?
  }

  /** Whatever is asked for, the event has it: one of the levels, one of the
      types, and so on; only instance events have an instance, and only user
      events a user. */
  ghost predicate Meets(q: EventQuery, e: Event) {
    && (q.levels.Some? ==> exists level :: level in q.levels.value && HasLevel(e.inner, level))
    && (q.types.Some? ==> exists type_ :: type_ in q.types.value && HasType(e.inner, type_))
    && (q.instanceKinds.Some? ==> e.inner.InstanceEvent? && e.inner.instanceKind in q.instanceKinds.value)
    && (q.userKinds.Some? ==> e.inner.UserEvent? && e.inner.userKind in q.userKinds.value)
    && (q.userIds.Some? ==> e.inner.UserEvent? && e.inner.userId in q.userIds.value)
    && (q.instanceIds.Some? ==> e.inner.InstanceEvent? && e.inner.instanceUuid in q.instanceIds.value)
  }

  lemma LevelIs(inner: EventInner, level: EventLevel)
    ensures LevelOf(inner) == level <==> HasLevel(inner, level)
  {
  }

  lemma TypeIs(inner: EventInner, type_: EventType)
    ensures TypeOf(inner) == type_ <==> HasType(inner, type_)
  {
  }

  /** The filter lets through exactly what is asked for. */
  lemma FilterMeets(q: EventQuery, e: Event)
    ensures Filter(q, e) <==> Meets(q, e)
  {
    forall level ensures LevelOf(e.inner) == level <==> HasLevel(e.inner, level) {
      LevelIs(e.inner, level);
    }
    forall type_ ensures TypeOf(e.inner) == type_ <==> HasType(e.inner, type_) {
      TypeIs(e.inner, type_);
    }
    hide LevelOf, TypeOf, HasLevel, HasType;
  }

  /** A query without criteria lets everything through, and one with several what
      each of them lets through. */
  lemma FilterIsConjunction(q: EventQuery, e: Event)
    ensures Filter(ANYTHING, e)
    ensures Filter(q, e) <==>
              && Filter(ANYTHING.(levels := q.levels), e)
              && Filter(ANYTHING.(types := q.types), e)
              && Filter(ANYTHING.(instanceKinds := q.instanceKinds), e)
              && Filter(ANYTHING.(userKinds := q.userKinds), e)
              && Filter(ANYTHING.(userIds := q.userIds), e)
              && Filter(ANYTHING.(instanceIds := q.instanceIds), e)
  {
    hide LevelOf, TypeOf;
  }

  // ---------------------------------------------------------------------
  // Selecting
  // ---------------------------------------------------------------------

  /** The subsequence of the events for which `keep` holds. */
  ghost function Select(events: seq<Event>, keep: Event -> bool): (kept: seq<Event>)
    ensures |kept| <= |events|
  {
    if events == [] then [] else
      Select(events[..|events| - 1], keep)
      + if keep(events[|events| - 1]) then [events[|events| - 1]] else []
  }

  lemma SelectOne(events: seq<Event>, e: Event, keep: Event -> bool)
    ensures Select(events + [e], keep) == if keep(e) then Select(events, keep) + [e] else Select(events, keep)
  {
    assert (events + [e])[..|events|] == events;
  }

  /** Selecting depends only on what `keep` says about the events there. */
  lemma {:induction false} SelectSame(events: seq<Event>, a: Event -> bool, b: Event -> bool)
    requires forall e :: e in events ==> a(e) == b(e)
    ensures Select(events, a) == Select(events, b)
  {
    if events != [] {
      SelectSame(events[..|events| - 1], a, b);
      assert events[|events| - 1] in events;
    }
  }

  ghost function Both(a: Event -> bool, b: Event -> bool): Event -> bool {
    (e: Event) => a(e) && b(e)
  }

  /** Selecting twice is selecting by both. */
  lemma {:induction false} SelectTwice(events: seq<Event>, a: Event -> bool, b: Event -> bool)
    ensures Select(Select(events, a), b) == Select(events, Both(a, b))
  {
    if events != [] {
      var init, last := events[..|events| - 1], events[|events| - 1];
      SelectTwice(init, a, b);
      if a(last) {
        SelectOne(Select(init, a), last, b);
      } else {
        assert Select(events, a) == Select(init, a);
      }
    }
  }
}
