/** The fact batch writer (`addToTransactionBatch` / `flushTransactionBatch`).
    The shared prepared statement is either absent (`Closed`) or open with
    the facts added to it so far; a flush executes them all against the
    sales table and closes the statement. */
module FactBatch {
  import opened Records

  datatype Batch = Closed | Open(pending: seq<SalesFact>)

  /** The facts waiting to be written. */
  function Pending(b: Batch): seq<SalesFact>
  {
    if b.Closed? then [] else b.pending
  }

  /** Adds one fact, opening the statement first if there is none. */
  function Append(b: Batch, f: SalesFact): (b': Batch)
    ensures b'.Open?
    ensures |Pending(b')| == |Pending(b)| + 1
    ensures Pending(b')[..|Pending(b)|] == Pending(b)
    ensures Pending(b')[|Pending(b)|] == f
  {
    Open(Pending(b) + [f])
  }

  /** Adds several facts in order. */
  function AppendAll(b: Batch, fs: seq<SalesFact>): Batch
    decreases |fs|
  {
    if |fs| == 0 then b else AppendAll(Append(b, fs[0]), fs[1..])
  }

  /** Executes the open statement, if any, appending its facts to the sales
      table in the order they were added, and leaves no statement open. With
      no statement open it does nothing. */
  function Flush(b: Batch, sales: seq<SalesFact>): (r: (Batch, seq<SalesFact>))
    ensures r.0 == Closed
    ensures r.1 == sales + Pending(b)
    ensures b.Closed? ==> r.1 == sales
  {
    (Closed, sales + Pending(b))
  }

  /** Appending facts one by one leaves exactly those facts pending, in
      order, after the ones already pending. */
  lemma {:induction false} AppendAllPending(b: Batch, fs: seq<SalesFact>)
    ensures Pending(AppendAll(b, fs)) == Pending(b) + fs
    decreases |fs|
  {
    if |fs| > 0 {
      var b1 := Append(b, fs[0]);
      AppendAllPending(b1, fs[1..]);
      assert Pending(b1) == Pending(b) + [fs[0]];
      AppendHeadThenRest(Pending(b), fs);
    }
  }

  lemma AppendHeadThenRest(p: seq<SalesFact>, fs: seq<SalesFact>)
    requires |fs| > 0
    ensures (p + [fs[0]]) + fs[1..] == p + fs
  {
    assert [fs[0]] + fs[1..] == fs;
  }

  /** A flush right after another flush writes nothing. */
  lemma FlushTwiceIsFlushOnce(b: Batch, sales: seq<SalesFact>)
    ensures Flush(Flush(b, sales).0, Flush(b, sales).1) == Flush(b, sales)
  {
  }

  /** A segment's write: starting from a closed statement, the facts of the
      segment appended and then flushed land in the sales table in append
      order, and the statement is closed again. */
  lemma SegmentWrite(fs: seq<SalesFact>, sales: seq<SalesFact>)
    ensures Flush(AppendAll(Closed, fs), sales) == (Closed, sales + fs)
  {
    AppendAllPending(Closed, fs);
    assert Pending(Closed) + fs == fs;
  }
}
