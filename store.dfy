/**
 * The `records` state cell of the WebSocket provider. It starts as the empty
 * list, and every message on `/topic/records` replaces its value with the
 * result of the merge updater.
 */
module RecordStore {
  import opened RecordMerge

  class RecordsCell {
    /** The current snapshot, as consumers of the context read it. */
    var records: seq<Record>
    /** Every change event delivered so far, in arrival order. */
    ghost var delivered: seq<Record>

    /**
     * The snapshot is the fold of the delivered events over the empty list;
     * it holds one entry per delivered id and no other.
     */
    ghost predicate Valid()
      reads this
    {
      && records == ApplyAll([], delivered)
      && UniqueIds(records)
      && Ids(records) == Ids(delivered)
    }

    constructor ()
      ensures Valid()
      ensures records == [] && delivered == []
    {
      records := [];
      delivered := [];
    }

    /** Handles one decoded change event: the state update of the subscription callback. */
    method OnMessage(updated: Record)
      requires Valid()
      modifies this
      ensures Valid()
      ensures delivered == old(delivered) + [updated]
      ensures records == ApplyChange(old(records), updated)
      ensures Lookup(records, updated.id) == Some(updated)
    {
      ApplyAllSnoc([], delivered, updated);
      UniqueIdsPreserved(records, updated);
      IdsAfterStream([], delivered + [updated]);
      FullReplacement(records, updated);
      records := ApplyChange(records, updated);
      delivered := delivered + [updated];
    }
  }
}
