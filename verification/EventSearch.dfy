/** Storing broadcast events and searching them by time. */
module EventSearch {
  import opened Basics
  import opened Events

  // ---------------------------------------------------------------------
  // 64-bit ids
  // ---------------------------------------------------------------------

  const LODESTONE_EPOCH: int := 1667530800000
  const MS_UNIT: int := 0x40_0000                       // 2^22 ids to a millisecond
  const MS_LIMIT: int := 0x200_0000_0000                // 2^41 milliseconds
  const I64_LIMIT: int := 0x8000_0000_0000_0000
  const MACHINE_AND_NODE: int := 0x2_1000               // machine 1 and node 1, shifted into place
  const SEQUENCE_LIMIT: int := 0x1000

  predicate IsI64(x: int) {
    -I64_LIMIT <= x < I64_LIMIT
  }

  /** What is left of a number in 64 bits. */
  function Wrapped(x: int): (r: int)
    ensures IsI64(r)
    ensures IsI64(x) ==> r == x
  {
    (x + I64_LIMIT) % (2 * I64_LIMIT) - I64_LIMIT
  }

  /** `x << 22`, which drops the bits shifted out. */
  function ShiftedBy22(x: int): int {
    Wrapped(x * MS_UNIT)
  }

  function Snowflake(ms: int, sequence: int): int {
    ms * MS_UNIT + MACHINE_AND_NODE + sequence
  }

  /** The ids the generator makes, `ms` counted from the epoch. */
  ghost predicate IsSnowflake(id: int, ms: int) {
    && 0 <= ms < MS_LIMIT
    && exists sequence :: 0 <= sequence < SEQUENCE_LIMIT && id == Snowflake(ms, sequence)
  }

  /** The timestamp of an id, as the dashboard reads it. */
  function Timestamp(id: int): int {
    id / 0x40_0000 + 1667530800000
  }

  lemma TimestampOfSnowflake(id: int, ms: int)
    requires IsSnowflake(id, ms)
    ensures Timestamp(id) == ms + LODESTONE_EPOCH
  {
    var sequence :| 0 <= sequence < SEQUENCE_LIMIT && id == Snowflake(ms, sequence);
    assert id / MS_UNIT == ms;
  }

  /** What is left of a number of milliseconds once it is shifted into 64 bits:
      it wraps around 2^41 milliseconds from the epoch, either way. */
  function Kept(ms: int): (kept: int)
    ensures -MS_LIMIT <= kept < MS_LIMIT
    ensures -MS_LIMIT <= ms < MS_LIMIT ==> kept == ms
  {
    (ms + MS_LIMIT) % (2 * MS_LIMIT) - MS_LIMIT
  }

  lemma WholeTurns(x: int, k: int)
    ensures Wrapped(x - k * (2 * I64_LIMIT)) == Wrapped(x)
  {
    var y, m := (x + I64_LIMIT) % (2 * I64_LIMIT), (x + I64_LIMIT) / (2 * I64_LIMIT);
    assert x - k * (2 * I64_LIMIT) + I64_LIMIT == y + (m - k) * (2 * I64_LIMIT);
  }

  lemma ShiftIsKept(x: int)
    ensures ShiftedBy22(x) == Kept(x) * MS_UNIT
  {
    var k := (x + MS_LIMIT) / (2 * MS_LIMIT);
    assert Kept(x) == x - k * (2 * MS_LIMIT);
    WholeTurns(x * MS_UNIT, k);
    hide Wrapped;
    assert x * MS_UNIT - k * (2 * I64_LIMIT) == Kept(x) * MS_UNIT;
  }

  /** The comparison the query makes is a comparison of milliseconds, wrapped
      and without the upper bound: the low bits of an id are never zero. */
  lemma WindowOfKept(id: int, ms: int, lo: int, hi: int)
    requires IsSnowflake(id, ms)
    ensures ShiftedBy22(lo) <= id <= ShiftedBy22(hi) <==> Kept(lo) <= ms < Kept(hi)
  {
    var sequence :| 0 <= sequence < SEQUENCE_LIMIT && id == Snowflake(ms, sequence);
    ShiftIsKept(lo);
    ShiftIsKept(hi);
  }

  /** Where nothing wraps, the window with its inclusive upper bound is exactly
      the range of milliseconds. */
  lemma WindowIsExact(id: int, ms: int, lo: int, hi: int)
    requires IsSnowflake(id, ms) && -MS_LIMIT <= lo < MS_LIMIT && -MS_LIMIT <= hi + 1 < MS_LIMIT
    ensures ShiftedBy22(lo) <= id <= ShiftedBy22(hi + 1) <==> lo <= ms <= hi
  {
    WindowOfKept(id, ms, lo, hi + 1);
  }

  // ---------------------------------------------------------------------
  // Storing
  // ---------------------------------------------------------------------

  datatype Receive = Received(event: Event) | Lagged | Closed

  /** One turn of the writing task: what the channel gives, and whether the
      insertion works. */
  datatype Turn = Turn(receive: Receive, inserted: bool)

  /** A row; the text of the event may turn out not to parse. */
  datatype Row = Row(value: Option<Event>, snowflake: int)

  function RowOf(e: Event): Row {
    Row(Some(e), e.snowflake)
  }

  ghost function Rows(events: seq<Event>): seq<Row> {
    seq(|events|, i requires 0 <= i < |events| => RowOf(events[i]))
  }

  ghost function Broadcast(turns: seq<Turn>): seq<Event> {
    if turns == [] then [] else
      Broadcast(turns[..|turns| - 1])
      + if turns[|turns| - 1].receive.Received? then [turns[|turns| - 1].receive.event] else []
  }

  function Storable(): Event -> bool {
    (e: Event) => !IsProgressUpdate(e)
  }

  function Within(lo: int, hi: int): Event -> bool {
    (e: Event) => lo <= e.snowflake <= hi
  }

  function Passing(q: EventQuery): Event -> bool {
    (e: Event) => Filter(q, e)
  }

  lemma BroadcastOne(turns: seq<Turn>, k: nat)
    requires k < |turns|
    ensures Broadcast(turns[..k + 1])
         == if turns[k].receive.Received? then Broadcast(turns[..k]) + [turns[k].receive.event]
            else Broadcast(turns[..k])
  {
    assert turns[..k + 1][..k] == turns[..k];
  }

  /** What should be in the table after some turns. */
  ghost function StoredRows(turns: seq<Turn>): seq<Row> {
    Rows(Select(Broadcast(turns), Storable()))
  }

  lemma StoredOne(turns: seq<Turn>, k: nat)
    requires k < |turns|
    ensures StoredRows(turns[..k + 1])
         == if turns[k].receive.Received? && !IsProgressUpdate(turns[k].receive.event)
            then StoredRows(turns[..k]) + [RowOf(turns[k].receive.event)] else StoredRows(turns[..k])
  {
    BroadcastOne(turns, k);
    hide Broadcast, Rows, Select, RowOf, IsProgressUpdate;
    if turns[k].receive.Received? {
      var before := Broadcast(turns[..k]);
      SelectOne(before, turns[k].receive.event, Storable());
      RowsOne(Select(before, Storable()), turns[k].receive.event);
    }
  }

  lemma RowsOne(events: seq<Event>, e: Event)
    ensures Rows(events + [e]) == Rows(events) + [RowOf(e)]
  {
    hide RowOf;
  }

  ghost predicate GoesOn(turn: Turn) {
    && turn.receive != Closed
    && (turn.receive.Received? ==>
          turn.inserted || turn.receive.event.inner == ProgressionEvent(ProgressionUpdate))
  }

  /** `write_event_to_db_task`: up to the first turn that ends it, every event
      received but progress updates is stored, in order. */
  method WriteEvents(turns: seq<Turn>) returns (table: seq<Row>, used: nat)
    ensures used <= |turns|
    ensures forall i :: 0 <= i < used ==>
              && turns[i].receive != Closed
              && (turns[i].receive.Received? ==>
                    turns[i].inserted || turns[i].receive.event.inner == ProgressionEvent(ProgressionUpdate))
    ensures used < |turns| ==>
              || turns[used].receive == Closed
              || (turns[used].receive.Received? && !turns[used].inserted
                  && turns[used].receive.event.inner != ProgressionEvent(ProgressionUpdate))
    ensures table == StoredRows(turns[..used])
  {
    table, used := [], 0;
    while used < |turns|
      invariant used <= |turns|
      invariant forall i :: 0 <= i < used ==> GoesOn(turns[i])
      invariant table == StoredRows(turns[..used])
    {
      StoredOne(turns, used);
      match turns[used].receive {
        case Lagged =>
        case Closed => break;
        case Received(event) =>
          if !IsProgressUpdate(event) {
            if !turns[used].inserted {
              break;
            }
            table := table + [RowOf(event)];
          }
      }
      used := used + 1;
    }
  }

  // ---------------------------------------------------------------------
  // Searching
  // ---------------------------------------------------------------------

  function RowsBetween(table: seq<Row>, lo: int, hi: int): seq<Row> {
    if table == [] then [] else
      RowsBetween(table[..|table| - 1], lo, hi)
      + if lo <= table[|table| - 1].snowflake <= hi then [table[|table| - 1]] else []
  }

  ghost function Parsed(rows: seq<Row>): seq<Event> {
    if rows == [] then [] else
      Parsed(rows[..|rows| - 1]) + if rows[|rows| - 1].value.Some? then [rows[|rows| - 1].value.value] else []
  }

  /** How the program is built: with checks of overflow, as for debugging, or
      without, as for release. */
  datatype Build = Checked | Unchecked

  /** No step of computing the bounds leaves 64 bits. */
  predicate FitsI64(range: TimeRange) {
    && IsI64(range.start - LODESTONE_EPOCH)
    && IsI64(range.end + 1)
    && IsI64(range.end + 1 - LODESTONE_EPOCH)
  }

  /** The rows the query asks the database for. */
  function Candidates(table: seq<Row>, q: EventQuery): seq<Row> {
    if q.timeRange.None? then table
    else RowsBetween(table, ShiftedBy22(q.timeRange.value.start - LODESTONE_EPOCH),
                            ShiftedBy22(q.timeRange.value.end + 1 - LODESTONE_EPOCH))
  }

  /** What a search gives. None is the panic of a checked overflow. */
  ghost function Searched(table: seq<Row>, q: EventQuery, build: Build): Option<seq<Event>> {
    if q.timeRange.Some? && build.Checked? && !FitsI64(q.timeRange.value) then None
    else Some(Select(Parsed(Candidates(table, q)), Passing(q)))
  }

  /** Where the subtraction wraps, the shift drops the difference. */
  lemma WrappingIsDropped(x: int)
    ensures ShiftedBy22(Wrapped(x)) == ShiftedBy22(x)
  {
    var k := (x + I64_LIMIT) / (2 * I64_LIMIT);
    assert Wrapped(x) == x - k * (2 * I64_LIMIT);
    WholeTurns(x * MS_UNIT, k * MS_UNIT);
  }

  /** `search_events`, in 64-bit arithmetic. */
  method SearchEvents(table: seq<Row>, q: EventQuery, build: Build) returns (result: Option<seq<Event>>)
    ensures result == Searched(table, q, build)
  {
    hide Parsed, Select, Passing, RowsBetween, ShiftedBy22, Wrapped;
    var rows := table;
    if q.timeRange.Some? {
      var range := q.timeRange.value;
      if build.Checked? && !FitsI64(range) {
        return None;
      }
      var lo := ShiftedBy22(Wrapped(range.start - LODESTONE_EPOCH));
      var hi := ShiftedBy22(Wrapped(Wrapped(range.end + 1) - LODESTONE_EPOCH));
      WrappingIsDropped(range.start - LODESTONE_EPOCH);
      UpperBound(range.end);
      rows := RowsBetween(table, lo, hi);
    }
    var events := ParseRows(rows);
    var filtered := FilterEvents(events, q);
    return Some(filtered);
  }

  lemma UpperBound(end: int)
    ensures ShiftedBy22(Wrapped(Wrapped(end + 1) - LODESTONE_EPOCH)) == ShiftedBy22(end + 1 - LODESTONE_EPOCH)
  {
    var k := (end + 1 + I64_LIMIT) / (2 * I64_LIMIT);
    assert Wrapped(end + 1) == end + 1 - k * (2 * I64_LIMIT);
    WholeTurns(end + 1 - LODESTONE_EPOCH, k);
    hide Wrapped;
    WrappingIsDropped(end + 1 - LODESTONE_EPOCH);
  }

  /** The rows that do not parse are left out. */
  method ParseRows(rows: seq<Row>) returns (events: seq<Event>)
    ensures events == Parsed(rows)
  {
    events := [];
    var i := 0;
    while i < |rows|
      invariant i <= |rows|
      invariant events == Parsed(rows[..i])
    {
      ParsedOne(rows, i);
      if rows[i].value.Some? {
        events := events + [rows[i].value.value];
      }
      i := i + 1;
    }
    assert rows[..i] == rows;
  }

  lemma ParsedOne(rows: seq<Row>, k: nat)
    requires k < |rows|
    ensures Parsed(rows[..k + 1])
         == if rows[k].value.Some? then Parsed(rows[..k]) + [rows[k].value.value] else Parsed(rows[..k])
  {
    assert rows[..k + 1][..k] == rows[..k];
  }

  method FilterEvents(events: seq<Event>, q: EventQuery) returns (filtered: seq<Event>)
    ensures filtered == Select(events, Passing(q))
  {
    hide Select, Filter;
    filtered := [];
    SelectNone(Passing(q));
    var i := 0;
    while i < |events|
      invariant i <= |events|
      invariant filtered == Select(events[..i], Passing(q))
    {
      assert events[..i + 1] == events[..i] + [events[i]];
      SelectOne(events[..i], events[i], Passing(q));
      if Filter(q, events[i]) {
        filtered := filtered + [events[i]];
      }
      i := i + 1;
    }
    assert events[..i] == events;
  }

  lemma SelectNone(keep: Event -> bool)
    ensures Select([], keep) == []
  {
  }

  lemma {:induction false} ParsedRowsBetween(events: seq<Event>, lo: int, hi: int)
    ensures Parsed(RowsBetween(Rows(events), lo, hi)) == Select(events, Within(lo, hi))
  {
    if events != [] {
      var init, last := events[..|events| - 1], events[|events| - 1];
      ParsedRowsBetween(init, lo, hi);
      assert Rows(events)[..|events| - 1] == Rows(init);
      var before := RowsBetween(Rows(init), lo, hi);
      if lo <= last.snowflake <= hi {
        assert (before + [RowOf(last)])[..|before|] == before;
      } else {
        assert before + [] == before;
      }
    }
  }

  lemma {:induction false} ParsedRows(events: seq<Event>)
    ensures Parsed(Rows(events)) == events
  {
    if events != [] {
      ParsedRows(events[..|events| - 1]);
      assert Rows(events)[..|events| - 1] == Rows(events[..|events| - 1]);
    }
  }

  // ---------------------------------------------------------------------
  // Storing, then searching
  // ---------------------------------------------------------------------

  /** What a search should find among the broadcast events. */
  ghost function Wanted(q: EventQuery): Event -> bool {
    (e: Event) =>
      && e.inner != ProgressionEvent(ProgressionUpdate)
      && Meets(q, e)
      && (q.timeRange.Some? ==> q.timeRange.value.start <= Timestamp(e.snowflake) <= q.timeRange.value.end)
  }

  ghost predicate Genuine(events: seq<Event>) {
    forall e :: e in events ==> exists ms :: IsSnowflake(e.snowflake, ms)
  }

  /** When the window is what was asked for. If some id can be in the range,
      the end must not wrap, and a start that wraps must not land after the
      epoch. If none can be, the wrapped window must hold none either. */
  predicate IsExact(range: TimeRange) {
    var lo, hi := range.start - LODESTONE_EPOCH, range.end + 1 - LODESTONE_EPOCH;
    if lo < hi && 0 < hi && lo < MS_LIMIT then
      hi < MS_LIMIT && (lo < -MS_LIMIT ==> Kept(lo) <= 0)
    else
      Kept(hi) <= 0 || Kept(hi) <= Kept(lo)
  }

  /** The search finds what was asked for. */
  predicate FindsExactly(range: TimeRange, build: Build) {
    && (build.Checked? ==> IsI64(range.start - 1667530800000) && IsI64(range.end + 1)
                           && IsI64(range.end + 1 - 1667530800000))
    && IsExact(range)
  }

  /** It does in every build, whenever both ends are within 2^41 milliseconds of
      the epoch. */
  lemma NearRangesAreExact(range: TimeRange, build: Build)
    requires -MS_LIMIT <= range.start - LODESTONE_EPOCH < MS_LIMIT
    requires -MS_LIMIT <= range.end + 1 - LODESTONE_EPOCH < MS_LIMIT
    ensures FindsExactly(range, build)
  {
  }

  lemma ExactAt(range: TimeRange, ms: int)
    requires IsExact(range) && 0 <= ms < MS_LIMIT
    ensures var lo, hi := range.start - LODESTONE_EPOCH, range.end + 1 - LODESTONE_EPOCH;
            Kept(lo) <= ms < Kept(hi) <==> lo <= ms < hi
  {
    hide Kept;
  }

  /** A millisecond on which the window and the range disagree. */
  lemma InexactAt(range: TimeRange) returns (ms: int)
    requires !IsExact(range)
    ensures 0 <= ms < MS_LIMIT
    ensures var lo, hi := range.start - LODESTONE_EPOCH, range.end + 1 - LODESTONE_EPOCH;
            (Kept(lo) <= ms < Kept(hi)) != (lo <= ms < hi)
  {
    hide Kept;
    var lo, hi := range.start - LODESTONE_EPOCH, range.end + 1 - LODESTONE_EPOCH;
    if lo < hi && 0 < hi && lo < MS_LIMIT {
      ms := if hi >= MS_LIMIT then MS_LIMIT - 1 else 0;
    } else {
      ms := if Kept(lo) > 0 then Kept(lo) else 0;
    }
  }

  /** What is read back of the stored events. */
  ghost function Found(events: seq<Event>, q: EventQuery): seq<Event> {
    Select(Parsed(Candidates(Rows(Select(events, Storable())), q)), Passing(q))
  }

  lemma WindowAgrees(e: Event, range: TimeRange)
    requires IsExact(range) && exists ms :: IsSnowflake(e.snowflake, ms)
    ensures ShiftedBy22(range.start - LODESTONE_EPOCH) <= e.snowflake <= ShiftedBy22(range.end + 1 - LODESTONE_EPOCH)
            <==> range.start <= Timestamp(e.snowflake) <= range.end
  {
    var ms :| IsSnowflake(e.snowflake, ms);
    TimestampOfSnowflake(e.snowflake, ms);
    hide ShiftedBy22, Kept, IsExact;
    ExactAt(range, ms);
    WindowOfKept(e.snowflake, ms, range.start - LODESTONE_EPOCH, range.end + 1 - LODESTONE_EPOCH);
  }

  /** The three selections together ask for what is wanted. */
  lemma SelectionsAgree(e: Event, q: EventQuery)
    requires q.timeRange.Some? && IsExact(q.timeRange.value) && exists ms :: IsSnowflake(e.snowflake, ms)
    ensures var lo := ShiftedBy22(q.timeRange.value.start - LODESTONE_EPOCH);
            var hi := ShiftedBy22(q.timeRange.value.end + 1 - LODESTONE_EPOCH);
            Both(Both(Storable(), Within(lo, hi)), Passing(q))(e) == Wanted(q)(e)
  {
    FilterMeets(q, e);
    hide ShiftedBy22, Timestamp, IsSnowflake, IsExact, Filter, Meets;
    WindowAgrees(e, q.timeRange.value);
  }

  lemma FoundAreWanted(events: seq<Event>, q: EventQuery)
    requires Genuine(events) && (q.timeRange.Some? ==> IsExact(q.timeRange.value))
    ensures Found(events, q) == Select(events, Wanted(q))
  {
    var kept := Select(events, Storable());
    if q.timeRange.None? {
      forall e ensures Filter(q, e) <==> Meets(q, e) {
        FilterMeets(q, e);
      }
      hide Filter, Meets;
      ParsedRows(kept);
      SelectTwice(events, Storable(), Passing(q));
      SelectSame(events, Both(Storable(), Passing(q)), Wanted(q));
    } else {
      SearchWindow(events, q);
    }
  }

  lemma SearchWindow(events: seq<Event>, q: EventQuery)
    requires Genuine(events) && q.timeRange.Some? && IsExact(q.timeRange.value)
    ensures Found(events, q) == Select(events, Wanted(q))
  {
    hide ShiftedBy22, IsSnowflake, IsExact, Storable, Within, Passing, Wanted, Both, Select, Parsed, RowsBetween, Rows;
    var lo := ShiftedBy22(q.timeRange.value.start - LODESTONE_EPOCH);
    var hi := ShiftedBy22(q.timeRange.value.end + 1 - LODESTONE_EPOCH);
    ParsedRowsBetween(Select(events, Storable()), lo, hi);
    SelectTwice(events, Storable(), Within(lo, hi));
    SelectTwice(events, Both(Storable(), Within(lo, hi)), Passing(q));
    forall e | e in events ensures Both(Both(Storable(), Within(lo, hi)), Passing(q))(e) == Wanted(q)(e) {
      SelectionsAgree(e, q);
    }
    SelectSame(events, Both(Both(Storable(), Within(lo, hi)), Passing(q)), Wanted(q));
  }

  /** A search over what was stored finds exactly the wanted events, in order. */
  lemma SearchFindsExactly(turns: seq<Turn>, q: EventQuery, build: Build)
    requires Genuine(Broadcast(turns)) && (q.timeRange.Some? ==> FindsExactly(q.timeRange.value, build))
    ensures Searched(StoredRows(turns), q, build) == Some(Select(Broadcast(turns), Wanted(q)))
  {
    FoundAreWanted(Broadcast(turns), q);
  }

  function During(start: int, end: int): EventQuery {
    ANYTHING.(timeRange := Some(TimeRange(start, end)))
  }

  /** For every start and end, what is searched in the table of any turns is
      what was wanted of them, if and only if the range is of those. */
  lemma SearchIsExactIff(start: int, end: int, build: Build)
    ensures FindsExactly(TimeRange(start, end), build) <==>
              forall turns: seq<Turn> :: Genuine(Broadcast(turns)) ==>
                Searched(StoredRows(turns), During(start, end), build)
                == Some(Select(Broadcast(turns), Wanted(During(start, end))))
  {
    hide Genuine, Broadcast, StoredRows, Searched, IsI64, IsExact, Wanted;
    var q := During(start, end);
    if FindsExactly(TimeRange(start, end), build) {
      forall turns: seq<Turn> | Genuine(Broadcast(turns))
        ensures Searched(StoredRows(turns), q, build) == Some(Select(Broadcast(turns), Wanted(q)))
      {
        SearchFindsExactly(turns, q, build);
      }
    } else if build.Checked? && !FitsI64(TimeRange(start, end)) {
      var turns := NothingFound(start, end);
    } else {
      var turns := SomeEventIsWrong(start, end, build);
    }
  }

  /** A checked overflow of the bounds finds nothing at all. */
  lemma NothingFound(start: int, end: int) returns (turns: seq<Turn>)
    requires !FitsI64(TimeRange(start, end))
    ensures Genuine(Broadcast(turns)) && Searched(StoredRows(turns), During(start, end), Checked).None?
  {
    turns := [];
  }

  /** One event, stored. */
  function Storing(e: Event): seq<Turn> {
    [Turn(Received(e), true)]
  }

  lemma StoredAlone(e: Event)
    ensures Broadcast(Storing(e)) == [e] && StoredRows(Storing(e)) == Rows(Select([e], Storable()))
  {
    assert Storing(e)[..0] == [];
    assert Broadcast([]) + [e] == [e];
  }

  lemma SomeEventIsWrong(start: int, end: int, build: Build) returns (turns: seq<Turn>)
    requires !IsExact(TimeRange(start, end))
    ensures Genuine(Broadcast(turns))
    ensures Searched(StoredRows(turns), During(start, end), build)
            != Some(Select(Broadcast(turns), Wanted(During(start, end))))
  {
    var ms := InexactAt(TimeRange(start, end));
    var wrong := Event(FSEvent, "", Snowflake(ms, 0));
    assert IsSnowflake(wrong.snowflake, ms);
    WrongOne(start, end, wrong, ms);
    turns := Storing(wrong);
    hide Broadcast, StoredRows, Snowflake, Select, Wanted, IsSnowflake, IsExact, Kept;
    StoredAlone(wrong);
  }

  /** An event on whose millisecond the window and the range disagree is found
      and not wanted, or wanted and not found. */
  lemma WrongOne(start: int, end: int, e: Event, ms: int)
    requires IsSnowflake(e.snowflake, ms) && e.inner.FSEvent?
    requires var lo, hi := start - LODESTONE_EPOCH, end + 1 - LODESTONE_EPOCH;
             (Kept(lo) <= ms < Kept(hi)) != (lo <= ms < hi)
    ensures Found([e], During(start, end)) != Select([e], Wanted(During(start, end)))
  {
    var q := During(start, end);
    var lo, hi := ShiftedBy22(start - LODESTONE_EPOCH), ShiftedBy22(end + 1 - LODESTONE_EPOCH);
    TimestampOfSnowflake(e.snowflake, ms);
    WindowOfKept(e.snowflake, ms, start - LODESTONE_EPOCH, end + 1 - LODESTONE_EPOCH);
    assert Wanted(q)(e) != Within(lo, hi)(e);
    assert Passing(q)(e) && Storable()(e);
    hide Filter, ShiftedBy22, Timestamp, Snowflake, IsSnowflake, Within, Wanted, Kept, Passing, Storable;
    FoundAlone(e, q, lo, hi);
    SelectAlone(e, Wanted(q));
  }

  lemma FoundAlone(e: Event, q: EventQuery, lo: int, hi: int)
    requires q.timeRange.Some? && Storable()(e) && Passing(q)(e)
    requires lo == ShiftedBy22(q.timeRange.value.start - LODESTONE_EPOCH)
    requires hi == ShiftedBy22(q.timeRange.value.end + 1 - LODESTONE_EPOCH)
    ensures Found([e], q) == if Within(lo, hi)(e) then [e] else []
  {
    hide ShiftedBy22, Within, Passing, Storable;
    SelectAlone(e, Storable());
    ParsedRowsBetween([e], lo, hi);
    SelectAlone(e, Within(lo, hi));
    SelectAlone(e, Passing(q));
  }

  /** The event is wanted, and a search over what was stored does not find it. */
  ghost predicate Loses(start: int, end: int, build: Build, lost: Event) {
    && Genuine([lost]) && Wanted(During(start, end))(lost)
    && Searched(StoredRows(Storing(lost)), During(start, end), build) == Some([])
  }

  /** An end past the last id wraps: the latest events are lost. */
  lemma LateEndLosesEvents(build: Build) returns (lost: Event)
    ensures !IsExact(TimeRange(LODESTONE_EPOCH, LODESTONE_EPOCH + MS_LIMIT))
    ensures Loses(LODESTONE_EPOCH, LODESTONE_EPOCH + MS_LIMIT, build, lost)
  {
    lost := LostAt(LODESTONE_EPOCH, LODESTONE_EPOCH + MS_LIMIT, build, MS_LIMIT - 1);
  }

  /** A start one millisecond too early wraps too, to the last millisecond there
      is: everything is lost. */
  lemma EarlyStartLosesEvents(build: Build) returns (lost: Event)
    ensures !IsExact(TimeRange(LODESTONE_EPOCH - MS_LIMIT - 1, LODESTONE_EPOCH + 1000))
    ensures Loses(LODESTONE_EPOCH - MS_LIMIT - 1, LODESTONE_EPOCH + 1000, build, lost)
  {
    assert Kept(-MS_LIMIT - 1) == MS_LIMIT - 1;
    lost := LostAt(LODESTONE_EPOCH - MS_LIMIT - 1, LODESTONE_EPOCH + 1000, build, 0);
  }

  /** The least start there is leaves 64 bits: a checked build panics on any
      table, though without checks the window would be exact. */
  lemma OverflowAtAnExample(table: seq<Row>)
    ensures var range := TimeRange(-I64_LIMIT, LODESTONE_EPOCH + 1000);
            && IsI64(range.start) && IsExact(range) && !FitsI64(range)
            && Searched(table, During(range.start, range.end), Checked) == None
            && FindsExactly(range, Unchecked)
  {
    assert -I64_LIMIT - LODESTONE_EPOCH + MS_LIMIT == -2097152 * (2 * MS_LIMIT) + (MS_LIMIT - LODESTONE_EPOCH);
  }

  lemma LostAt(start: int, end: int, build: Build, ms: int) returns (lost: Event)
    requires 0 <= ms < MS_LIMIT && start <= ms + LODESTONE_EPOCH <= end && FitsI64(TimeRange(start, end))
    requires !(Kept(start - LODESTONE_EPOCH) <= ms < Kept(end + 1 - LODESTONE_EPOCH))
    ensures Loses(start, end, build, lost)
  {
    lost := Event(FSEvent, "", Snowflake(ms, 0));
    assert IsSnowflake(lost.snowflake, ms);
    TimestampOfSnowflake(lost.snowflake, ms);
    WindowOfKept(lost.snowflake, ms, start - LODESTONE_EPOCH, end + 1 - LODESTONE_EPOCH);
    assert Wanted(During(start, end))(lost) && Storable()(lost) && Passing(During(start, end))(lost);
    assert !Within(ShiftedBy22(start - LODESTONE_EPOCH), ShiftedBy22(end + 1 - LODESTONE_EPOCH))(lost);
    hide Kept, ShiftedBy22, Snowflake, IsSnowflake, Timestamp, Wanted, Storable, Passing, Within,
         Rows, Select, Parsed, Candidates, StoredRows;
    FoundAlone(lost, During(start, end), ShiftedBy22(start - LODESTONE_EPOCH), ShiftedBy22(end + 1 - LODESTONE_EPOCH));
    StoredAlone(lost);
  }

  lemma SelectAlone(e: Event, keep: Event -> bool)
    ensures Select([e], keep) == if keep(e) then [e] else []
  {
    SelectOne([], e, keep);
    assert [] + [e] == [e];
  }
}
