/**
 * `AccumulatingDocIdPusher`, the pusher the tests use in place of a real feed:
 * instead of sending Records anywhere it remembers, in order, the DocId of each
 * Record pushed to it.
 */
module Accumulating {
  import opened Jdk
  import DocIds
  import Records

  /** An access-control list; only carried, never looked at. */
  type Acl(==)

  /** The callback a pusher consults when a push fails; this pusher never calls it. */
  type PushErrorHandler

  /**
   * The DocIds of `records`, in iteration order. Every element must be non-null:
   * `FirstNull` says how far the pusher gets otherwise.
   */
  function DocIdsOf(records: seq<Option<Records.Record>>): (ids: seq<DocIds.DocId>)
    requires forall i :: 0 <= i < |records| ==> records[i].Some?
    ensures |ids| == |records|
    ensures forall i :: 0 <= i < |records| ==> ids[i] == records[i].value.id
  {
    if records == [] then []
    else DocIdsOf(records[..|records| - 1]) + [records[|records| - 1].value.id]
  }

  /** The index of the first null element, or the length when there is none. */
  function FirstNull(records: seq<Option<Records.Record>>): (n: nat)
    ensures n <= |records|
    ensures forall i :: 0 <= i < n ==> records[i].Some?
    ensures n < |records| ==> records[n].None?
  {
    if records == [] || records[0].None? then 0 else 1 + FirstNull(records[1..])
  }

  /** Pushing one batch and then another accumulates the same DocIds as pushing both at once. */
  lemma {:induction false} DocIdsOfConcat(a: seq<Option<Records.Record>>, b: seq<Option<Records.Record>>)
    requires forall i :: 0 <= i < |a| ==> a[i].Some?
    requires forall i :: 0 <= i < |b| ==> b[i].Some?
    ensures DocIdsOf(a + b) == DocIdsOf(a) + DocIdsOf(b)
  {
    var ab := a + b;
    assert forall i :: 0 <= i < |ab| ==> ab[i] == (if i < |a| then a[i] else b[i - |a|]);
  }

  /** A batch without nulls is pushed whole. */
  lemma FirstNullOfNullFree(records: seq<Option<Records.Record>>)
    requires forall i :: 0 <= i < |records| ==> records[i].Some?
    ensures FirstNull(records) == |records|
  {
  }

  class AccumulatingDocIdPusher {
    /** The DocIds pushed since construction or the last `reset`, oldest first. */
    var ids: seq<DocIds.DocId>

    constructor ()
      ensures ids == []
    {
      ids := [];
    }

    /**
     * `pushRecords(records, handler)`: appends each Record's DocId in iteration
     * order and reports that no Record failed. A null element makes
     * `record.getDocId()` throw once the DocIds before it have been appended.
     */
    method PushRecords(records: seq<Option<Records.Record>>, handler: Option<PushErrorHandler>)
      returns (r: Result<Option<Records.Record>>)
      modifies this
      ensures ids == old(ids) + DocIdsOf(records[..FirstNull(records)])
      ensures FirstNull(records) == |records| ==> r == Success(None)
      ensures FirstNull(records) < |records| ==> r == Failure(NullPointer)
    {
      var i := 0;
      while i < |records|
        invariant 0 <= i <= |records|
        invariant forall j :: 0 <= j < i ==> records[j].Some?
        invariant ids == old(ids) + DocIdsOf(records[..i])
      {
        if records[i].None? {
          assert FirstNull(records) == i;
          return Failure(NullPointer);
        }
        assert records[..i + 1][..i] == records[..i];
        ids := ids + [records[i].value.id];
        i := i + 1;
      }
      assert records[..i] == records;
      FirstNullOfNullFree(records);
      return Success(None);
    }

    /** `getDocIds()`: the DocIds accumulated so far, without changing them. */
    method GetDocIds() returns (r: seq<DocIds.DocId>)
      ensures r == ids
    {
      r := ids;
    }

    /** `reset()`: forgets every DocId accumulated so far. */
    method Reset()
      modifies this
      ensures ids == []
    {
      ids := [];
    }

    /** `pushNamedResources(resources, handler)`: not supported, and nothing is recorded. */
    method PushNamedResources(resources: map<DocIds.DocId, Acl>, handler: Option<PushErrorHandler>)
      returns (r: Result<Option<DocIds.DocId>>)
      ensures r == Failure(UnsupportedOperation)
    {
      r := Failure(UnsupportedOperation);
    }
  }

  /**
   * Two pushes in a row accumulate both batches in order, an empty push changes
   * nothing, and `getDocIds` then reports exactly that.
   */
  method PushTwice(p: AccumulatingDocIdPusher, first: seq<Records.Record>, second: seq<Records.Record>)
    returns (seen: seq<DocIds.DocId>)
    modifies p
    ensures seen == p.ids == old(p.ids) + Ids(first) + Ids(second)
  {
    var batch1 := NonNull(first);
    var batch2 := NonNull(second);
    var r1 := p.PushRecords(batch1, None);
    var r0 := p.PushRecords([], None);
    var r2 := p.PushRecords(batch2, None);
    FirstNullOfNullFree(batch1);
    FirstNullOfNullFree(batch2);
    assert batch1[..|batch1|] == batch1;
    assert batch2[..|batch2|] == batch2;
    seen := p.GetDocIds();
  }

  /** A batch of Records as the non-null references the pusher iterates over. */
  function NonNull(records: seq<Records.Record>): (refs: seq<Option<Records.Record>>)
    ensures |refs| == |records|
    ensures forall i :: 0 <= i < |records| ==> refs[i] == Some(records[i])
  {
    seq(|records|, i requires 0 <= i < |records| => Some(records[i]))
  }

  /** The DocIds of a batch of Records, in order. */
  function Ids(records: seq<Records.Record>): (ids: seq<DocIds.DocId>)
    ensures |ids| == |records|
    ensures forall i :: 0 <= i < |records| ==> ids[i] == records[i].id
  {
    DocIdsOf(NonNull(records))
  }
}
