/** The transaction segmenter (`readTransactionSegment` and the segment loop
    of `meshJoin`). The transaction stream is a sequence and the cursor an
    index into it; a segment starts at the row under the cursor. */
module Segmenter {
  import opened Records
  import opened Keyed

  /** One past the last row a segment read starting at `pos` consumes. The
      read is a do-while: the row under the cursor is always taken, then
      further rows while fewer than `limit` have been taken and the stream
      has more. */
  function SegmentEnd(txs: seq<Transaction>, pos: nat, limit: int): (e: nat)
    requires pos < |txs|
    ensures pos < e <= |txs|
    ensures e - pos <= limit || e == pos + 1
    ensures e == |txs| || e - pos >= limit
  {
    if limit <= 1 then pos + 1
    else if pos + limit <= |txs| then pos + limit
    else |txs|
  }

  /** The segment map: the consumed rows keyed by order id, a later row
      replacing an earlier one with the same id. */
  function SegmentMap(txs: seq<Transaction>, pos: nat, limit: int): (m: map<int, Transaction>)
    requires pos < |txs|
    ensures 1 <= |m| <= SegmentEnd(txs, pos, limit) - pos
    ensures m.Keys == set i | pos <= i < SegmentEnd(txs, pos, limit) :: txs[i].orderId
    ensures forall k :: k in m ==> m[k].orderId == k
  {
    SegmentMapKeys(txs, pos, limit);
    LastWins(txs[pos..SegmentEnd(txs, pos, limit)], OrderKey)
  }

  /** The collapsed rows of a segment hold exactly the segment's order ids,
      at least one and at most one per row, each under its own id. */
  lemma SegmentMapKeys(txs: seq<Transaction>, pos: nat, limit: int)
    requires pos < |txs|
    ensures var m := LastWins(txs[pos..SegmentEnd(txs, pos, limit)], OrderKey);
            && 1 <= |m| <= SegmentEnd(txs, pos, limit) - pos
            && m.Keys == (set i | pos <= i < SegmentEnd(txs, pos, limit) :: txs[i].orderId)
            && forall k :: k in m ==> m[k].orderId == k
  {
    var rows := txs[pos..SegmentEnd(txs, pos, limit)];
    var m := LastWins(rows, OrderKey);
    LastWinsKeys(rows, OrderKey);
    assert forall i :: 0 <= i < |rows| ==> rows[i] == txs[pos + i];
    assert KeySet(rows, OrderKey) == set i | pos <= i < SegmentEnd(txs, pos, limit) :: txs[i].orderId by {
      forall k | k in set i | pos <= i < SegmentEnd(txs, pos, limit) :: txs[i].orderId
        ensures k in KeySet(rows, OrderKey)
      {
        var i :| pos <= i < SegmentEnd(txs, pos, limit) && txs[i].orderId == k;
        assert OrderKey(rows[i - pos]) == k;
      }
    }
    assert OrderKey(rows[0]) in m;
  }

  /** Last write wins within a segment: an order id maps to the last row of
      the segment that carries it. */
  lemma SegmentLastWriteWins(txs: seq<Transaction>, pos: nat, limit: int, i: nat)
    requires pos <= i < |txs| && i < SegmentEnd(txs, pos, limit)
    requires forall j :: i < j < SegmentEnd(txs, pos, limit) ==> txs[j].orderId != txs[i].orderId
    ensures txs[i].orderId in SegmentMap(txs, pos, limit)
    ensures SegmentMap(txs, pos, limit)[txs[i].orderId] == txs[i]
  {
    var rows := txs[pos..SegmentEnd(txs, pos, limit)];
    assert rows[i - pos] == txs[i];
    assert forall j :: i - pos < j < |rows| ==> rows[j] == txs[pos + j];
    assert LastOf(rows, OrderKey, i - pos);
    LastWinsLast(rows, OrderKey, i - pos);
  }

  /** One work queue of a segment: the rows that survive collapsing, in
      stream order. The source drains `HashMap.values()`, whose order is the
      hash map's own; that order decides which buffer refreshes happen and
      so which transactions resolve. The engine therefore takes the queue
      as a parameter (see `ValidOrder`), and this stream-order queue is one
      instance of it. */
  function SegmentQueue(txs: seq<Transaction>, pos: nat, limit: int): (q: seq<Transaction>)
    requires pos < |txs|
    ensures Enumerates(q, SegmentMap(txs, pos, limit), OrderKey)
    ensures |q| <= SegmentEnd(txs, pos, limit) - pos
  {
    var rows := txs[pos..SegmentEnd(txs, pos, limit)];
    SurvivorsEnumerate(rows, OrderKey);
    SurvivorsShorter(rows, OrderKey);
    Survivors(rows, OrderKey)
  }

  /** A drain order: for the segment starting at each cursor position, the
      queue it is drained in, which lists every row of the segment map once,
      in whatever order the map iterates. */
  ghost predicate ValidOrder(txs: seq<Transaction>, limit: int, order: nat -> seq<Transaction>)
  {
    forall pos: nat :: pos < |txs| ==> Enumerates(order(pos), SegmentMap(txs, pos, limit), OrderKey)
  }

  /** Every row of a drain queue carries the order id of a row of its
      segment. */
  lemma QueuedIdInSegment(txs: seq<Transaction>, pos: nat, limit: int, q: seq<Transaction>, j: nat)
    requires pos < |txs| && j < |q|
    requires Enumerates(q, SegmentMap(txs, pos, limit), OrderKey)
    ensures exists i :: pos <= i < SegmentEnd(txs, pos, limit) && txs[i].orderId == q[j].orderId
  {
    var m := SegmentMap(txs, pos, limit);
    assert OrderKey(q[j]) in m;
    assert q[j].orderId in set i | pos <= i < SegmentEnd(txs, pos, limit) :: txs[i].orderId;
  }

  /** The drain order that takes each segment's survivors in stream order. */
  function StreamOrder(txs: seq<Transaction>, limit: int): nat -> seq<Transaction>
  {
    (pos: nat) => if pos < |txs| then SegmentQueue(txs, pos, limit) else []
  }

  /** The stream order is a drain order. */
  lemma StreamOrderValid(txs: seq<Transaction>, limit: int)
    ensures ValidOrder(txs, limit, StreamOrder(txs, limit))
  {
    forall pos: nat | pos < |txs|
      ensures Enumerates(StreamOrder(txs, limit)(pos), SegmentMap(txs, pos, limit), OrderKey)
    {
      assert StreamOrder(txs, limit)(pos) == SegmentQueue(txs, pos, limit);
    }
  }

  /** `readTransactionSegment`: reads rows into a map, starting with the row
      under the cursor, and returns the map and the new cursor position. */
  method ReadTransactionSegment(txs: seq<Transaction>, pos: nat, limit: int)
    returns (m: map<int, Transaction>, next: nat)
    requires pos < |txs|
    ensures next == SegmentEnd(txs, pos, limit)
    ensures m == SegmentMap(txs, pos, limit)
  {
    var cur := pos;
    assert LastWins(txs[pos..pos], OrderKey) == map[];
    LastWinsExtend(txs, OrderKey, pos, pos);
    m := map[OrderKey(txs[cur]) := txs[cur]];
    var count := 1;
    while count < limit && cur + 1 < |txs|
      invariant pos <= cur < |txs|
      invariant count == cur - pos + 1
      invariant count <= limit || count == 1
      invariant m == LastWins(txs[pos..cur + 1], OrderKey)
    {
      cur := cur + 1;
      LastWinsExtend(txs, OrderKey, pos, cur);
      m := m[OrderKey(txs[cur]) := txs[cur]];
      count := count + 1;
    }
    next := cur + 1;
    ReadStopsAtSegmentEnd(txs, pos, limit, cur);
  }

  /** The read loop stops exactly one row before the segment end: when it
      has taken `limit` rows, or one row for a `limit` below 2, or reached
      the last row. */
  lemma ReadStopsAtSegmentEnd(txs: seq<Transaction>, pos: nat, limit: int, cur: nat)
    requires pos <= cur < |txs|
    requires cur - pos + 1 >= limit || cur + 1 >= |txs|
    requires cur - pos + 1 <= limit || cur == pos
    ensures cur + 1 == SegmentEnd(txs, pos, limit)
    ensures SegmentMap(txs, pos, limit) == LastWins(txs[pos..cur + 1], OrderKey)
  {
  }
}
