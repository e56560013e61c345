/**
 * The live record merge of the dashboard's WebSocket context: every change
 * event pushed on `/topic/records` carries one full record, and the state
 * updater folds it into the client-held list by "upsert by id": the first
 * entry with the same id is replaced in place, otherwise the record is
 * appended at the end.
 */
module RecordMerge {

  /** One record as the server pushes it: the complete new state of the row. */
  datatype Record = Record(id: int, name: string, salary: int)

  /** Optional value, used for the "entry for an id" lookup. */
  datatype Option<T> = None | Some(value: T)

  /** Some entry of `s` carries `id`. */
  predicate HasId(s: seq<Record>, id: int) {
    exists j :: 0 <= j < |s| && s[j].id == id
  }

  /** The ids present in `s`. */
  function Ids(s: seq<Record>): (ids: set<int>) {
    set j | 0 <= j < |s| :: s[j].id
  }

  /** At most one entry per id: the snapshot invariant of the record list. */
  predicate UniqueIds(s: seq<Record>) {
    forall i, j :: 0 <= i < j < |s| ==> s[i].id != s[j].id
  }

  /**
   * `findIndex` with the test `record.id === id`: the lowest index whose
   * entry carries `id`, or -1 when there is none.
   */
  function FirstIndex(s: seq<Record>, id: int): (k: int)
    ensures -1 <= k < |s|
    ensures k == -1 <==> !HasId(s, id)
    ensures 0 <= k ==> s[k].id == id
    ensures forall j :: 0 <= j < k ==> s[j].id != id
  {
    if s == [] then -1
    else if s[0].id == id then 0
    else
      var k' := FirstIndex(s[1..], id);
      if k' == -1 then
        assert forall j :: 1 <= j < |s| ==> s[j] == s[1..][j - 1];
        -1
      else k' + 1
  }

  /**
   * Where the incoming record lands: the first slot holding its id, or the
   * position just past the end of the list.
   */
  function Slot(prev: seq<Record>, id: int): (i: nat)
    ensures i <= |prev|
    ensures i < |prev| <==> HasId(prev, id)
  {
    var k := FirstIndex(prev, id);
    if k > -1 then k else |prev|
  }

  /**
   * The state updater: replace the first entry with the incoming id by the
   * incoming record, keeping the slices before and after it, or append the
   * record when no entry has that id.
   */
  function ApplyChange(prev: seq<Record>, incoming: Record): (next: seq<Record>)
    ensures |next| == if HasId(prev, incoming.id) then |prev| else |prev| + 1
    ensures next[Slot(prev, incoming.id)] == incoming
    ensures forall j :: 0 <= j < |prev| && j != Slot(prev, incoming.id) ==> next[j] == prev[j]
  {
    var index := FirstIndex(prev, incoming.id);
    if index > -1 then
      var next := prev[..index] + [incoming] + prev[index + 1..];
      assert next[index] == incoming;
      assert forall j :: 0 <= j < index ==> next[j] == prev[j];
      assert forall j :: index < j < |prev| ==> next[j] == prev[j];
      next
    else
      prev + [incoming]
  }

  /** The entry the list holds for `id`: the first one with that id. */
  function Lookup(s: seq<Record>, id: int): (r: Option<Record>)
    ensures r.None? <==> !HasId(s, id)
    ensures r.Some? ==> r.value in s && r.value.id == id
  {
    var k := FirstIndex(s, id);
    if k > -1 then Some(s[k]) else None
  }

  /**
   * Applying a sequence of change events in the order they are delivered.
   * Entries never move: every old position keeps its id, and the list grows
   * by at most one entry per event.
   */
  function ApplyAll(prev: seq<Record>, events: seq<Record>): (next: seq<Record>)
    ensures |prev| <= |next| <= |prev| + |events|
    ensures forall j :: 0 <= j < |prev| ==> next[j].id == prev[j].id
    decreases |events|
  {
    if events == [] then prev
    else ApplyAll(ApplyChange(prev, events[0]), events[1..])
  }

  /** The last event in `events` that carries `id`, if any. */
  function LastWith(events: seq<Record>, id: int): (r: Option<Record>)
    ensures r.None? <==> !HasId(events, id)
    ensures r.Some? ==> r.value in events && r.value.id == id
    ensures r.Some? ==> exists k :: 0 <= k < |events| && r.value == events[k] &&
                                    (forall j :: k < j < |events| ==> events[j].id != id)
    decreases |events|
  {
    if events == [] then None
    else if events[|events| - 1].id == id then Some(events[|events| - 1])
    else
      var r := LastWith(events[..|events| - 1], id);
      assert forall j :: 0 <= j < |events| - 1 ==> events[..|events| - 1][j] == events[j];
      r
  }

  // ---------------------------------------------------------------------
  // Replace-or-append, one event at a time
  // ---------------------------------------------------------------------

  /** An id already present: the list keeps its length and the slot is overwritten in place. */
  lemma ReplaceInPlace(prev: seq<Record>, incoming: Record)
    requires HasId(prev, incoming.id)
    ensures ApplyChange(prev, incoming) == prev[FirstIndex(prev, incoming.id) := incoming]
  {
  }

  /** A new id: the result is the previous list with the record appended. */
  lemma AppendOnMiss(prev: seq<Record>, incoming: Record)
    requires !HasId(prev, incoming.id)
    ensures ApplyChange(prev, incoming) == prev + [incoming]
  {
  }

  /**
   * Full replacement, not a field merge: the entry the result holds for the
   * incoming id is exactly the incoming record; when the list held at most
   * one entry per id, every entry with that id is the incoming record.
   */
  lemma FullReplacement(prev: seq<Record>, incoming: Record)
    ensures Lookup(ApplyChange(prev, incoming), incoming.id) == Some(incoming)
    ensures UniqueIds(prev) ==>
      forall k :: 0 <= k < |ApplyChange(prev, incoming)| && ApplyChange(prev, incoming)[k].id == incoming.id ==>
        ApplyChange(prev, incoming)[k] == incoming
  {
  }

  /** The ids of the result are those of the list plus the incoming id. */
  lemma IdsAfterChange(prev: seq<Record>, incoming: Record)
    ensures Ids(ApplyChange(prev, incoming)) == Ids(prev) + {incoming.id}
  {
  }

  /** At most one record per id before the change means at most one after it. */
  lemma UniqueIdsPreserved(prev: seq<Record>, incoming: Record)
    requires UniqueIds(prev)
    ensures UniqueIds(ApplyChange(prev, incoming))
  {
  }

  /** Delivering the same event twice leaves the list as delivering it once. */
  lemma Idempotent(prev: seq<Record>, incoming: Record)
    ensures ApplyChange(ApplyChange(prev, incoming), incoming) == ApplyChange(prev, incoming)
  {
  }

  /**
   * Last applied wins: event `a` followed by event `b` for the same id gives
   * the list that `b` alone would give; arrival order decides, nothing else.
   */
  lemma LastAppliedWins(prev: seq<Record>, a: Record, b: Record)
    requires a.id == b.id
    ensures ApplyChange(ApplyChange(prev, a), b) == ApplyChange(prev, b)
  {
  }

  /**
   * Only the first match is replaced: an entry further on that repeats the
   * incoming id is left as it was, so duplicates already in the list survive.
   */
  lemma LaterDuplicatesSurvive(prev: seq<Record>, incoming: Record, i: nat, j: nat)
    requires i < j < |prev|
    requires prev[i].id == incoming.id && prev[j].id == incoming.id
    ensures FirstIndex(prev, incoming.id) <= i
    ensures ApplyChange(prev, incoming)[j] == prev[j]
    ensures !UniqueIds(ApplyChange(prev, incoming))
  {
  }

  /** Looking up any other id gives the same entry as before the change. */
  lemma LookupAfterChange(prev: seq<Record>, incoming: Record, id: int)
    ensures Lookup(ApplyChange(prev, incoming), id) ==
      if id == incoming.id then Some(incoming) else Lookup(prev, id)
  {
    if id == incoming.id {
      FullReplacement(prev, incoming);
    } else {
      var next := ApplyChange(prev, incoming);
      var s := Slot(prev, incoming.id);
      assert next[s].id != id;
      var k := FirstIndex(prev, id);
      if k == -1 {
        forall j | 0 <= j < |next| ensures next[j].id != id {
          if j != s {
            assert next[j] == prev[j];
          }
        }
      } else {
        assert next[k] == prev[k];
        var k' := FirstIndex(next, id);
        assert k' <= k;
      }
    }
  }

  // ---------------------------------------------------------------------
  // A stream of change events
  // ---------------------------------------------------------------------

  /** Every prefix of deliveries keeps the at-most-one-record-per-id invariant. */
  lemma {:induction false} ApplyAllUniqueIds(prev: seq<Record>, events: seq<Record>)
    requires UniqueIds(prev)
    ensures UniqueIds(ApplyAll(prev, events))
    decreases |events|
  {
    if events != [] {
      UniqueIdsPreserved(prev, events[0]);
      ApplyAllUniqueIds(ApplyChange(prev, events[0]), events[1..]);
    }
  }

  /** Applying events one after another equals applying the whole stream. */
  lemma {:induction false} ApplyAllSnoc(prev: seq<Record>, events: seq<Record>, e: Record)
    ensures ApplyAll(prev, events + [e]) == ApplyChange(ApplyAll(prev, events), e)
    decreases |events|
  {
    if events == [] {
      assert events + [e] == [e];
      assert ApplyAll(ApplyChange(prev, e), []) == ApplyChange(prev, e);
    } else {
      assert (events + [e])[0] == events[0];
      assert (events + [e])[1..] == events[1..] + [e];
      ApplyAllSnoc(ApplyChange(prev, events[0]), events[1..], e);
    }
  }

  /** An id occurs in `init + [e]` when `e` carries it or `init` does. */
  lemma HasIdSnoc(init: seq<Record>, e: Record, id: int)
    ensures HasId(init + [e], id) <==> e.id == id || HasId(init, id)
  {
    var events := init + [e];
    if HasId(events, id) && e.id != id {
      var j :| 0 <= j < |events| && events[j].id == id;
      assert init[j].id == id;
    }
    if HasId(init, id) {
      var j :| 0 <= j < |init| && init[j].id == id;
      assert events[j].id == id;
    }
    assert events[|init|] == e;
  }

  /** The ids of a non-empty stream: those of its first event and of the rest. */
  lemma IdsCons(events: seq<Record>)
    requires events != []
    ensures Ids(events) == {events[0].id} + Ids(events[1..])
  {
  }

  /**
   * After a stream of deliveries, the entry for each id is the last event
   * delivered for it; an id no event mentioned keeps its earlier entry.
   */
  lemma {:induction false} LookupAfterStream(prev: seq<Record>, events: seq<Record>, id: int)
    ensures Lookup(ApplyAll(prev, events), id) ==
      if HasId(events, id) then LastWith(events, id) else Lookup(prev, id)
    decreases |events|
  {
    if events != [] {
      var init := events[..|events| - 1];
      var e := events[|events| - 1];
      assert init + [e] == events;
      var before := ApplyAll(prev, init);
      ApplyAllSnoc(prev, init, e);
      assert ApplyAll(prev, events) == ApplyChange(before, e);
      LookupAfterStream(prev, init, id);
      LookupAfterChange(before, e, id);
      HasIdSnoc(init, e, id);
    }
  }

  /** The ids after a stream are the earlier ids plus every delivered id. */
  lemma {:induction false} IdsAfterStream(prev: seq<Record>, events: seq<Record>)
    ensures Ids(ApplyAll(prev, events)) == Ids(prev) + Ids(events)
    decreases |events|
  {
    if events != [] {
      var next := ApplyChange(prev, events[0]);
      assert ApplyAll(prev, events) == ApplyAll(next, events[1..]);
      IdsAfterChange(prev, events[0]);
      IdsAfterStream(next, events[1..]);
      IdsCons(events);
    }
  }

  /** The three worked examples of the merge on a one-entry list. */
  lemma Scenarios()
    ensures ApplyChange([], Record(1, "Ann", 5000)) == [Record(1, "Ann", 5000)]
    ensures ApplyChange([Record(1, "Ann", 5000)], Record(1, "Ann", 6000)) == [Record(1, "Ann", 6000)]
    ensures ApplyChange([Record(1, "Ann", 5000)], Record(2, "Bo", 4000)) ==
      [Record(1, "Ann", 5000), Record(2, "Bo", 4000)]
  {
  }
}
