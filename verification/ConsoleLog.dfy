/** The console log of the dashboard: batches of events merged without
    duplicates. */
module ConsoleLog {
  import opened Events

  type Id = string

  datatype ClientEvent = ClientEvent(inner: EventInner, details: string, snowflake: Id)

  datatype ConsoleEvent = ConsoleEvent(snowflake: Id, detail: string, uuid: InstanceUuid, message: string)

  predicate IsOutput(e: ClientEvent) {
    e.inner.InstanceEvent? && e.inner.instanceKind.InstanceOutput?
  }

  function ToConsoleEvent(e: ClientEvent): ConsoleEvent
    requires IsOutput(e)
  {
    ConsoleEvent(e.snowflake, e.details, e.inner.instanceUuid, e.inner.message)
  }

  /** The output events of a batch, filtered and converted. */
  function ConsoleEvents(batch: seq<ClientEvent>): seq<ConsoleEvent> {
    if batch == [] then [] else
      ConsoleEvents(batch[..|batch| - 1])
      + if IsOutput(batch[|batch| - 1]) then [ToConsoleEvent(batch[|batch| - 1])] else []
  }

  /** `findIndex`: where the first event with this snowflake stands. */
  function FindIndex(log: seq<ConsoleEvent>, id: Id): (k: nat)
    ensures k <= |log|
    ensures k < |log| ==> log[k].snowflake == id
    ensures forall j :: 0 <= j < k ==> log[j].snowflake != id
  {
    if log == [] || log[0].snowflake == id then 0 else 1 + FindIndex(log[1..], id)
  }

  /** The first k elements, keeping those that are their own `findIndex` in the
      whole log. */
  function KeepFirsts(log: seq<ConsoleEvent>, k: nat): seq<ConsoleEvent>
    requires k <= |log|
  {
    if k == 0 then [] else
      KeepFirsts(log, k - 1) + if FindIndex(log, log[k - 1].snowflake) == k - 1 then [log[k - 1]] else []
  }

  /** `mergeConsoleLog`. */
  function Merged(oldLog: seq<ConsoleEvent>, batch: seq<ClientEvent>): seq<ConsoleEvent> {
    var merged := oldLog + ConsoleEvents(batch);
    KeepFirsts(merged, |merged|)
  }

  // ---------------------------------------------------------------------
  // Reading it from the left: an event stays if no earlier one has its id
  // ---------------------------------------------------------------------

  ghost function Ids(log: seq<ConsoleEvent>): set<Id> {
    set e | e in log :: e.snowflake
  }

  ghost predicate NoDuplicates(log: seq<ConsoleEvent>) {
    forall i, j :: 0 <= i < j < |log| ==> log[i].snowflake != log[j].snowflake
  }

  /** The events of `more` that are new to a log which keeps none twice. */
  ghost function Appended(log: seq<ConsoleEvent>, more: seq<ConsoleEvent>): seq<ConsoleEvent>
    decreases |more|
  {
    if more == [] then log
    else Appended(if more[0].snowflake in Ids(log) then log else log + [more[0]], more[1..])
  }

  lemma {:induction false} AppendedInTurn(log: seq<ConsoleEvent>, a: seq<ConsoleEvent>, b: seq<ConsoleEvent>)
    ensures Appended(log, a + b) == Appended(Appended(log, a), b)
    decreases |a|
  {
    if a == [] {
      assert a + b == b;
    } else {
      assert (a + b)[1..] == a[1..] + b;
      AppendedInTurn(if a[0].snowflake in Ids(log) then log else log + [a[0]], a[1..], b);
    }
  }

  lemma OneMoreId(log: seq<ConsoleEvent>, e: ConsoleEvent)
    ensures Ids(log + [e]) == Ids(log) + {e.snowflake}
    ensures Ids([e] + log) == Ids(log) + {e.snowflake}
  {
    assert forall x :: x in log + [e] <==> x in log || x == e;
    assert forall x :: x in [e] + log <==> x in log || x == e;
  }

  lemma {:induction false} AppendedIds(log: seq<ConsoleEvent>, more: seq<ConsoleEvent>)
    ensures Ids(Appended(log, more)) == Ids(log) + Ids(more)
    ensures log <= Appended(log, more)
    decreases |more|
  {
    if more != [] {
      var head, rest := more[0], more[1..];
      assert more == [head] + rest;
      OneMoreId(log, head);
      OneMoreId(rest, head);
      hide Ids;
      AppendedIds(if head.snowflake in Ids(log) then log else log + [head], rest);
    }
  }

  lemma {:induction false} AppendedHasNoDuplicates(log: seq<ConsoleEvent>, more: seq<ConsoleEvent>)
    requires NoDuplicates(log)
    ensures NoDuplicates(Appended(log, more))
    decreases |more|
  {
    if more != [] {
      assert forall i :: 0 <= i < |log| ==> log[i].snowflake in Ids(log);
      AppendedHasNoDuplicates(if more[0].snowflake in Ids(log) then log else log + [more[0]], more[1..]);
    }
  }

  lemma AppendedOne(log: seq<ConsoleEvent>, e: ConsoleEvent)
    ensures Appended(log, [e]) == if e.snowflake in Ids(log) then log else log + [e]
  {
  }

  lemma AppendedLast(log: seq<ConsoleEvent>, e: ConsoleEvent)
    ensures Appended([], log + [e]) == Appended([], log) + if e.snowflake in Ids(log) then [] else [e]
  {
    assert Ids([]) + Ids(log) == Ids(log);
    hide Appended, Ids;
    AppendedInTurn([], log, [e]);
    AppendedOne(Appended([], log), e);
    AppendedIds([], log);
    assert Appended([], log) + [] == Appended([], log);
  }

  lemma KeepOneMore(log: seq<ConsoleEvent>, k: nat)
    requires 0 < k <= |log|
    ensures KeepFirsts(log, k) == KeepFirsts(log, k - 1) + if log[k - 1].snowflake in Ids(log[..k - 1]) then []
                                                           else [log[k - 1]]
  {
    FirstMeansNew(log, k - 1);
    hide Ids, FindIndex;
  }

  lemma KeepNothing(log: seq<ConsoleEvent>)
    ensures KeepFirsts(log, 0) == Appended([], log[..0]) == []
  {
  }

  /** Keeping the first occurrences is appending from the left. */
  lemma {:induction false} KeepFirstsIsAppended(log: seq<ConsoleEvent>, k: nat)
    requires k <= |log|
    ensures KeepFirsts(log, k) == Appended([], log[..k])
  {
    hide *;
    if k == 0 {
      KeepNothing(log);
    } else {
      KeepFirstsIsAppended(log, k - 1);
      KeepOneMore(log, k);
      AppendedLast(log[..k - 1], log[k - 1]);
      assert log[..k] == log[..k - 1] + [log[k - 1]];
    }
  }

  lemma FirstMeansNew(log: seq<ConsoleEvent>, k: nat)
    requires k < |log|
    ensures FindIndex(log, log[k].snowflake) == k <==> log[k].snowflake !in Ids(log[..k])
  {
    var j := FindIndex(log, log[k].snowflake);
    if j < k {
      assert log[..k][j] in log[..k];
    }
  }

  lemma {:induction false} AppendedNew(log: seq<ConsoleEvent>, more: seq<ConsoleEvent>)
    requires NoDuplicates(log + more)
    ensures Appended(log, more) == log + more
    decreases |more|
  {
    if more == [] {
      assert log + more == log;
    } else {
      forall e | e in log ensures e.snowflake != more[0].snowflake {
        var i :| 0 <= i < |log| && log[i] == e;
        assert (log + more)[i] == e && (log + more)[|log|] == more[0];
      }
      assert log + more == (log + [more[0]]) + more[1..];
      AppendedNew(log + [more[0]], more[1..]);
    }
  }

  /** Merging into a log without duplicates appends what is new. */
  lemma MergedIsAppended(log: seq<ConsoleEvent>, batch: seq<ClientEvent>)
    requires NoDuplicates(log)
    ensures Merged(log, batch) == Appended(log, ConsoleEvents(batch))
  {
    var merged := log + ConsoleEvents(batch);
    KeepFirstsIsAppended(merged, |merged|);
    assert merged[..|merged|] == merged;
    AppendedInTurn([], log, ConsoleEvents(batch));
    assert [] + log == log;
    AppendedNew([], log);
  }

  lemma {:induction false} ConsoleEventsAppend(a: seq<ClientEvent>, b: seq<ClientEvent>)
    ensures ConsoleEvents(a + b) == ConsoleEvents(a) + ConsoleEvents(b)
  {
    if b == [] {
      assert a + b == a;
    } else {
      assert (a + b)[..|a + b| - 1] == a + b[..|b| - 1];
      ConsoleEventsAppend(a, b[..|b| - 1]);
    }
  }

  /** Of one event, that is its output if it is one, with its own snowflake. */
  lemma OneConsoleEvent(e: ClientEvent)
    ensures ConsoleEvents([e]) == match e.inner
              case InstanceEvent(uuid, InstanceOutput, message) =>
                [ConsoleEvent(e.snowflake, e.details, uuid, message)]
              case _ => []
  {
    assert [e][..0] == [];
  }

  lemma {:induction false} NothingNew(log: seq<ConsoleEvent>, more: seq<ConsoleEvent>)
    requires Ids(more) <= Ids(log)
    ensures Appended(log, more) == log
    decreases |more|
  {
    if more != [] {
      assert more[0] in more;
      assert forall e :: e in more[1..] ==> e in more;
      NothingNew(log, more[1..]);
    }
  }

  /** One merge: the log never has two equal snowflakes, what was there stays at
      the front, and the snowflakes are those of the log and of the batch's
      output events. */
  lemma MergeKeepsFirsts(log: seq<ConsoleEvent>, batch: seq<ClientEvent>)
    ensures NoDuplicates(Merged(log, batch))
    ensures Ids(Merged(log, batch)) == Ids(log) + Ids(ConsoleEvents(batch))
    ensures NoDuplicates(log) ==> log <= Merged(log, batch)
  {
    var merged := log + ConsoleEvents(batch);
    KeepFirstsIsAppended(merged, |merged|);
    assert merged[..|merged|] == merged;
    AppendedIds([], merged);
    AppendedHasNoDuplicates([], merged);
    assert Ids(merged) == Ids(log) + Ids(ConsoleEvents(batch));
    if NoDuplicates(log) {
      MergedIsAppended(log, batch);
      AppendedIds(log, ConsoleEvents(batch));
    }
  }

  /** Merging a batch again changes nothing. */
  lemma MergeTwice(log: seq<ConsoleEvent>, batch: seq<ClientEvent>)
    ensures Merged(Merged(log, batch), batch) == Merged(log, batch)
  {
    MergeKeepsFirsts(log, batch);
    MergedIsAppended(Merged(log, batch), batch);
    NothingNew(Merged(log, batch), ConsoleEvents(batch));
  }

  /** Merging batch by batch is merging them joined. */
  lemma MergeInTurn(log: seq<ConsoleEvent>, a: seq<ClientEvent>, b: seq<ClientEvent>)
    requires NoDuplicates(log)
    ensures Merged(Merged(log, a), b) == Merged(log, a + b)
  {
    MergeKeepsFirsts(log, a);
    MergedIsAppended(log, a);
    MergedIsAppended(Merged(log, a), b);
    MergedIsAppended(log, a + b);
    ConsoleEventsAppend(a, b);
    AppendedInTurn(log, ConsoleEvents(a), ConsoleEvents(b));
  }

  /** Any number of batches, history or live. */
  ghost function AllMerged(log: seq<ConsoleEvent>, batches: seq<seq<ClientEvent>>): seq<ConsoleEvent> {
    if batches == [] then log else Merged(AllMerged(log, batches[..|batches| - 1]), batches[|batches| - 1])
  }

  ghost function AllIds(batches: seq<seq<ClientEvent>>): set<Id> {
    set batch, e | batch in batches && e in ConsoleEvents(batch) :: e.snowflake
  }

  lemma AllIdsOfOneMore(batches: seq<seq<ClientEvent>>, last: seq<ClientEvent>)
    ensures AllIds(batches + [last]) == AllIds(batches) + Ids(ConsoleEvents(last))
  {
    assert forall batch :: batch in batches + [last] <==> batch in batches || batch == last;
  }

  lemma OneMoreBatch(log: seq<ConsoleEvent>, batches: seq<seq<ClientEvent>>, last: seq<ClientEvent>)
    requires Ids(AllMerged(log, batches)) == Ids(log) + AllIds(batches)
    ensures Ids(AllMerged(log, batches + [last])) == Ids(log) + AllIds(batches + [last])
    ensures NoDuplicates(AllMerged(log, batches + [last]))
  {
    assert (batches + [last])[..|batches|] == batches;
    hide Ids, AllIds, Merged, NoDuplicates;
    MergeKeepsFirsts(AllMerged(log, batches), last);
    AllIdsOfOneMore(batches, last);
  }

  lemma {:induction false} AllMergedIds(log: seq<ConsoleEvent>, batches: seq<seq<ClientEvent>>)
    ensures Ids(AllMerged(log, batches)) == Ids(log) + AllIds(batches)
    ensures NoDuplicates(log) ==> NoDuplicates(AllMerged(log, batches))
  {
    if batches == [] {
      assert AllIds(batches) == {};
    } else {
      var n := |batches| - 1;
      assert batches == batches[..n] + [batches[n]];
      hide *;
      AllMergedIds(log, batches[..n]);
      OneMoreBatch(log, batches[..n], batches[n]);
    }
  }

  /** However the batches are interleaved, the log ends with the same
      snowflakes. */
  lemma OrderDoesNotMatter(log: seq<ConsoleEvent>, a: seq<seq<ClientEvent>>, b: seq<seq<ClientEvent>>)
    requires multiset(a) == multiset(b)
    ensures Ids(AllMerged(log, a)) == Ids(AllMerged(log, b))
    ensures NoDuplicates(log) ==> |AllMerged(log, a)| == |AllMerged(log, b)|
  {
    AllMergedIds(log, a);
    AllMergedIds(log, b);
    assert forall batch :: batch in a <==> batch in multiset(a);
    assert forall batch :: batch in b <==> batch in multiset(b);
    assert AllIds(a) == AllIds(b);
    if NoDuplicates(log) {
      IdCount(AllMerged(log, a));
      IdCount(AllMerged(log, b));
    }
  }

  lemma {:induction false} IdCount(log: seq<ConsoleEvent>)
    requires NoDuplicates(log)
    ensures |Ids(log)| == |log|
  {
    if log == [] {
      assert Ids(log) == {};
    } else {
      var init, last := log[..|log| - 1], log[|log| - 1];
      IdCount(init);
      assert log == init + [last];
      assert Ids(log) == Ids(init) + {last.snowflake};
    }
  }
}
