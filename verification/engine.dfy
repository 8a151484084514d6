/** The `meshJoin` loop: segment by segment, each surviving transaction of
    the segment is looked up in the customer and product buffers (each
    refreshed on a miss), resolved against the warehouse, and the segment's
    facts are flushed once its queue is drained. The source tables are
    values that do not change during a run. */
module MeshJoin {
  import opened Results
  import opened Records
  import opened Keyed
  import opened Segmenter
  import opened Partition
  import opened Warehouse
  import opened TimeDimension
  import opened Resolver
  import opened FactBatch

  /** The three source tables, in the order a full scan returns them. */
  datatype Source = Source(transactions: seq<Transaction>, customers: seq<Customer>, products: seq<ProductRow>)

  /** The products table as the product buffer loads it. */
  function ProductsOf(rows: seq<ProductRow>): (ps: seq<Product>)
    ensures |ps| == |rows|
    ensures forall i :: 0 <= i < |rows| ==> ps[i] == rows[i].product
  {
    seq(|rows|, i requires 0 <= i < |rows| => rows[i].product)
  }

  /** Everything the loop carries from one transaction to the next. */
  datatype Engine = Engine(customers: Buffer<Customer>, products: Buffer<Product>, batch: Batch, wh: Warehouse)

  /** The state before the first segment: empty buffers at offset 0 and no
      open statement. */
  function Start(wh: Warehouse): Engine
  {
    Engine(EmptyBuffer(), EmptyBuffer(), Closed, wh)
  }

  /** One transaction of the queue: refresh the customer buffer if it lacks
      the customer, then the product buffer if it lacks the product, then
      resolve. A buffer that already holds its key is left as it is. */
  function Step(src: Source, e: Engine, limit: nat, t: Transaction): (r: Result<Engine, Fault>)
    ensures r.Ok? && t.customerId in e.customers.contents ==> r.value.customers == e.customers
    ensures r.Ok? && t.productId in e.products.contents ==> r.value.products == e.products
    ensures r.Ok? ==> DimensionsExtend(e.wh, r.value.wh) && r.value.wh.sales == e.wh.sales
    ensures r.Ok? ==> |Pending(e.batch)| <= |Pending(r.value.batch)| <= |Pending(e.batch)| + 1
    ensures r.Ok? ==> Pending(r.value.batch)[..|Pending(e.batch)|] == Pending(e.batch)
    ensures r.Err? ==> TimeKeyClash(src.transactions, e.wh.times, 0)
  {
    var cb := EnsureBuffered(src.customers, CustomerKey, e.customers, limit, t.customerId);
    var pb := EnsureBuffered(ProductsOf(src.products), ProductKey, e.products, limit, t.productId);
    var r := Resolve(src.transactions, src.products, cb.contents, pb.contents, t, e.wh, e.batch);
    if r.Err? then Err(r.error) else Ok(Engine(cb, pb, r.value.1, r.value.0))
  }

  /** What holds between any two transactions of a run: both buffers keep
      their invariant, every fact pending or written references product,
      customer, store and supplier rows of the warehouse, and its time row
      whenever a dated transaction carries its time id. */
  ghost predicate Inv(src: Source, e: Engine, limit: nat)
  {
    && BufferInv(src.customers, CustomerKey, e.customers, limit)
    && BufferInv(ProductsOf(src.products), ProductKey, e.products, limit)
    && Integrity(e.wh, Pending(e.batch))
    && Integrity(e.wh, e.wh.sales)
    && TimeLinked(src.transactions, e.wh, Pending(e.batch))
    && TimeLinked(src.transactions, e.wh, e.wh.sales)
  }

  /** The state at start keeps the invariant when the warehouse's facts do. */
  lemma StartInv(src: Source, wh: Warehouse, limit: nat)
    requires limit > 0 && Integrity(wh, wh.sales) && TimeLinked(src.transactions, wh, wh.sales)
    ensures Inv(src, Start(wh), limit)
  {
  }

  /** The buffers after the lookups of `t` (the engine's state just before
      resolution). */
  function Buffered(src: Source, e: Engine, limit: nat, t: Transaction): (Buffer<Customer>, Buffer<Product>)
  {
    (EnsureBuffered(src.customers, CustomerKey, e.customers, limit, t.customerId),
     EnsureBuffered(ProductsOf(src.products), ProductKey, e.products, limit, t.productId))
  }

  /** A step leaves the buffers as the lookups left them. */
  lemma StepBuffers(src: Source, e: Engine, limit: nat, t: Transaction)
    requires Step(src, e, limit, t).Ok?
    ensures (Step(src, e, limit, t).value.customers, Step(src, e, limit, t).value.products)
            == Buffered(src, e, limit, t)
  {
  }

  /** A step keeps every pending and written fact's references intact, the
      new fact's included, provided the buffers file rows under their own
      ids. */
  lemma StepKeepsIntegrity(src: Source, e: Engine, limit: nat, t: Transaction)
    requires Integrity(e.wh, Pending(e.batch)) && Integrity(e.wh, e.wh.sales)
    requires forall k :: k in Buffered(src, e, limit, t).0.contents ==> Buffered(src, e, limit, t).0.contents[k].customerId == k
    requires forall k :: k in Buffered(src, e, limit, t).1.contents ==> Buffered(src, e, limit, t).1.contents[k].productId == k
    requires Step(src, e, limit, t).Ok?
    ensures Integrity(Step(src, e, limit, t).value.wh, Pending(Step(src, e, limit, t).value.batch))
    ensures Integrity(Step(src, e, limit, t).value.wh, Step(src, e, limit, t).value.wh.sales)
  {
    var (cb, pb) := Buffered(src, e, limit, t);
    ResolveKeepsIntegrity(src.transactions, src.products, cb.contents, pb.contents, t, e.wh, e.batch);
  }

  /** A step keeps the invariant. */
  lemma StepKeepsInv(src: Source, e: Engine, limit: nat, t: Transaction)
    requires Inv(src, e, limit)
    requires Step(src, e, limit, t).Ok?
    ensures Inv(src, Step(src, e, limit, t).value, limit)
  {
    var (cb, pb) := Buffered(src, e, limit, t);
    EnsureBufferedKeepsInv(src.customers, CustomerKey, e.customers, limit, t.customerId);
    EnsureBufferedKeepsInv(ProductsOf(src.products), ProductKey, e.products, limit, t.productId);
    BufferKeyed(src.customers, CustomerKey, cb, limit);
    BufferKeyed(ProductsOf(src.products), ProductKey, pb, limit);
    StepBuffers(src, e, limit, t);
    StepKeepsIntegrity(src, e, limit, t);
    ResolveKeepsTimeLinked(src.transactions, src.products, cb.contents, pb.contents, t, e.wh, e.batch);
  }

  /** The fact a step emits carries the transaction's ids and quantity. */
  lemma StepEmits(src: Source, e: Engine, limit: nat, t: Transaction)
    requires Step(src, e, limit, t).Ok?
    requires |Pending(Step(src, e, limit, t).value.batch)| > |Pending(e.batch)|
    ensures var f := Pending(Step(src, e, limit, t).value.batch)[|Pending(e.batch)|];
            && f.orderId == t.orderId && f.quantity == t.quantity && f.timeId == t.timeId
            && f.customerId == t.customerId && f.productId == t.productId
  {
    var (cb, pb) := Buffered(src, e, limit, t);
    ResolveEmits(src.transactions, src.products, cb.contents, pb.contents, t, e.wh, e.batch);
  }

  /** Under the invariant, an emitted fact is backed by the source: the
      customer is a row of the customers table, and the total is the price
      of a products row with that id times the quantity. */
  lemma StepFactFromSource(src: Source, e: Engine, limit: nat, t: Transaction)
    requires Inv(src, e, limit)
    requires Step(src, e, limit, t).Ok?
    requires |Pending(Step(src, e, limit, t).value.batch)| > |Pending(e.batch)|
    ensures t.customerId in KeySet(src.customers, CustomerKey)
    ensures var f := Pending(Step(src, e, limit, t).value.batch)[|Pending(e.batch)|];
            exists i :: 0 <= i < |src.products| && src.products[i].product.productId == t.productId
              && f.totalSales == src.products[i].product.price * t.quantity
  {
    var (cb, pb) := Buffered(src, e, limit, t);
    EnsureBufferedKeepsInv(src.customers, CustomerKey, e.customers, limit, t.customerId);
    EnsureBufferedKeepsInv(ProductsOf(src.products), ProductKey, e.products, limit, t.productId);
    assert Resolvable(t, cb.contents, pb.contents, src.products);
    ResolveEmits(src.transactions, src.products, cb.contents, pb.contents, t, e.wh, e.batch);
    var c :| 0 <= c < |src.customers| && src.customers[c] == cb.contents[t.customerId]
             && CustomerKey(src.customers[c]) == t.customerId;
    var i :| 0 <= i < |ProductsOf(src.products)| && ProductsOf(src.products)[i] == pb.contents[t.productId]
             && ProductKey(ProductsOf(src.products)[i]) == t.productId;
    assert src.products[i].product == pb.contents[t.productId];
  }

  /** The dropped-transaction rule: a transaction whose customer or product
      is missing from its source table is skipped without error, and
      neither the batch nor the warehouse changes. */
  lemma StepDropsUnknown(src: Source, e: Engine, limit: nat, t: Transaction)
    requires Inv(src, e, limit)
    requires t.customerId !in KeySet(src.customers, CustomerKey)
             || t.productId !in KeySet(ProductsOf(src.products), ProductKey)
    ensures Step(src, e, limit, t).Ok?
    ensures Step(src, e, limit, t).value.batch == e.batch && Step(src, e, limit, t).value.wh == e.wh
  {
    if t.customerId !in KeySet(src.customers, CustomerKey) {
      BufferedKeysInTable(src.customers, CustomerKey, e.customers, limit, t.customerId);
    } else {
      BufferedKeysInTable(ProductsOf(src.products), ProductKey, e.products, limit, t.productId);
    }
  }

  /** Drains the queue from position `from` on, one step per transaction;
      the first fault aborts the run. */
  function DrainQueue(src: Source, e: Engine, limit: nat, q: seq<Transaction>, from: nat): Result<Engine, Fault>
    decreases |q| - from
  {
    if from >= |q| then Ok(e)
    else
      var r := Step(src, e, limit, q[from]);
      if r.Err? then Err(r.error) else DrainQueue(src, r.value, limit, q, from + 1)
  }

  /** Draining keeps the invariant. */
  lemma {:induction false} DrainKeepsInv(src: Source, e: Engine, limit: nat, q: seq<Transaction>, from: nat)
    requires Inv(src, e, limit)
    requires DrainQueue(src, e, limit, q, from).Ok?
    ensures Inv(src, DrainQueue(src, e, limit, q, from).value, limit)
    decreases |q| - from
  {
    if from < |q| {
      StepKeepsInv(src, e, limit, q[from]);
      DrainKeepsInv(src, Step(src, e, limit, q[from]).value, limit, q, from + 1);
    }
  }

  /** Draining writes nothing to the sales table and only grows the
      dimension tables. */
  lemma {:induction false} DrainKeepsWarehouse(src: Source, e: Engine, limit: nat, q: seq<Transaction>, from: nat)
    requires DrainQueue(src, e, limit, q, from).Ok?
    ensures var e' := DrainQueue(src, e, limit, q, from).value;
            DimensionsExtend(e.wh, e'.wh) && e'.wh.sales == e.wh.sales
    decreases |q| - from
  {
    if from < |q| {
      var e1 := Step(src, e, limit, q[from]).value;
      DrainKeepsWarehouse(src, e1, limit, q, from + 1);
      DimensionsExtendTransitive(e.wh, e1.wh, DrainQueue(src, e1, limit, q, from + 1).value.wh);
    }
  }

  /** Draining keeps the facts already pending and appends at most one fact
      per queued transaction. */
  lemma {:induction false} DrainFacts(src: Source, e: Engine, limit: nat, q: seq<Transaction>, from: nat)
    requires from <= |q|
    requires DrainQueue(src, e, limit, q, from).Ok?
    ensures var e' := DrainQueue(src, e, limit, q, from).value;
            && |Pending(e.batch)| <= |Pending(e'.batch)| <= |Pending(e.batch)| + (|q| - from)
            && Pending(e'.batch)[..|Pending(e.batch)|] == Pending(e.batch)
    decreases |q| - from
  {
    if from < |q| {
      var e1 := Step(src, e, limit, q[from]).value;
      DrainFacts(src, e1, limit, q, from + 1);
      var e' := DrainQueue(src, e1, limit, q, from + 1).value;
      PrefixTransitive(Pending(e.batch), Pending(e1.batch), Pending(e'.batch));
    }
  }

  /** A prefix of a prefix is a prefix. */
  lemma PrefixTransitive(a: seq<SalesFact>, b: seq<SalesFact>, c: seq<SalesFact>)
    requires |a| <= |b| <= |c| && b[..|a|] == a && c[..|b|] == b
    ensures c[..|a|] == a
  {
    assert c[..|a|] == c[..|b|][..|a|];
  }

  /** Each fact appended while draining carries the order id of a
      transaction still queued. */
  lemma {:induction false} DrainOrderIds(src: Source, e: Engine, limit: nat, q: seq<Transaction>, from: nat)
    requires from <= |q|
    requires DrainQueue(src, e, limit, q, from).Ok?
    ensures var e' := DrainQueue(src, e, limit, q, from).value;
            forall k :: |Pending(e.batch)| <= k < |Pending(e'.batch)| ==>
              exists j :: from <= j < |q| && Pending(e'.batch)[k].orderId == q[j].orderId
    decreases |q| - from
  {
    if from < |q| {
      var e1 := Step(src, e, limit, q[from]).value;
      DrainOrderIds(src, e1, limit, q, from + 1);
      DrainFacts(src, e1, limit, q, from + 1);
      var e' := DrainQueue(src, e1, limit, q, from + 1).value;
      assert DrainQueue(src, e, limit, q, from).value == e';
      var P, P1, P' := Pending(e.batch), Pending(e1.batch), Pending(e'.batch);
      var n, n1 := |P|, |P1|;
      forall k | n <= k < |P'|
        ensures exists j :: from <= j < |q| && P'[k].orderId == q[j].orderId
      {
        if k < n1 {
          StepEmits(src, e, limit, q[from]);
          assert k == n && P'[k] == P'[..n1][k];
          assert P'[k].orderId == q[from].orderId;
        } else {
          var j :| from + 1 <= j < |q| && P'[k].orderId == q[j].orderId;
        }
      }
    }
  }

  /** One step of draining, seen from the pending facts: the rest of the
      queue is drained from the engine `e1` the step produced, which holds
      either the facts pending before or one more, in which case the
      drained batch has the order id of `q[from]` at that position. */
  lemma DrainStep(src: Source, e: Engine, limit: nat, q: seq<Transaction>, from: nat)
    requires from < |q|
    requires DrainQueue(src, e, limit, q, from).Ok?
    ensures Step(src, e, limit, q[from]).Ok?
    ensures var e1 := Step(src, e, limit, q[from]).value;
            && DrainQueue(src, e1, limit, q, from + 1) == DrainQueue(src, e, limit, q, from)
            && (Pending(e1.batch) == Pending(e.batch)
                || (|Pending(e1.batch)| == |Pending(e.batch)| + 1
                    && |Pending(DrainQueue(src, e, limit, q, from).value.batch)| > |Pending(e.batch)|
                    && Pending(DrainQueue(src, e, limit, q, from).value.batch)[|Pending(e.batch)|].orderId == q[from].orderId))
  {
    var e1 := Step(src, e, limit, q[from]).value;
    var n := |Pending(e.batch)|;
    if |Pending(e1.batch)| > n {
      StepEmits(src, e, limit, q[from]);
      DrainFacts(src, e1, limit, q, from + 1);
      var P := Pending(DrainQueue(src, e1, limit, q, from + 1).value.batch);
      assert P[n] == P[..n + 1][n];
    } else {
      assert Pending(e1.batch) == Pending(e1.batch)[..n];
    }
  }

  /** Draining a queue whose order ids are distinct appends facts whose
      order ids are distinct. */
  lemma DrainDistinct(src: Source, e: Engine, limit: nat, q: seq<Transaction>, from: nat)
    requires from <= |q|
    requires DrainQueue(src, e, limit, q, from).Ok?
    requires forall a, b :: 0 <= a < b < |q| ==> q[a].orderId != q[b].orderId
    ensures var P := Pending(DrainQueue(src, e, limit, q, from).value.batch);
            forall a, b :: |Pending(e.batch)| <= a < b < |P| ==> P[a].orderId != P[b].orderId
  {
    var P := Pending(DrainQueue(src, e, limit, q, from).value.batch);
    forall a, b | |Pending(e.batch)| <= a < b < |P|
      ensures P[a].orderId != P[b].orderId
    {
      DrainDistinctPair(src, e, limit, q, from, a, b);
    }
  }

  /** `DrainDistinct` for one pair of positions, by induction on the queue:
      the fact emitted for `q[from]` differs from every later one, which
      comes from a later transaction. */
  lemma {:induction false} DrainDistinctPair(src: Source, e: Engine, limit: nat, q: seq<Transaction>, from: nat,
                                             a: nat, b: nat)
    requires from <= |q|
    requires DrainQueue(src, e, limit, q, from).Ok?
    requires forall a, b :: 0 <= a < b < |q| ==> q[a].orderId != q[b].orderId
    requires |Pending(e.batch)| <= a < b < |Pending(DrainQueue(src, e, limit, q, from).value.batch)|
    ensures var P := Pending(DrainQueue(src, e, limit, q, from).value.batch);
            P[a].orderId != P[b].orderId
    decreases |q| - from
  {
    if from < |q| {
      var e1 := Step(src, e, limit, q[from]).value;
      DrainStep(src, e, limit, q, from);
      if a >= |Pending(e1.batch)| {
        DrainDistinctPair(src, e1, limit, q, from + 1, a, b);
        assert Pending(DrainQueue(src, e1, limit, q, from + 1).value.batch)[a].orderId
            != Pending(DrainQueue(src, e1, limit, q, from + 1).value.batch)[b].orderId;
      } else {
        var P := Pending(DrainQueue(src, e1, limit, q, from + 1).value.batch);
        DrainOrderIds(src, e1, limit, q, from + 1);
        assert b >= |Pending(e1.batch)|;
        var j :| from + 1 <= j < |q| && P[b].orderId == q[j].orderId;
        assert a == |Pending(e.batch)|;
        assert P[a].orderId == q[from].orderId;
        assert q[from].orderId != q[j].orderId;
      }
    }
  }

  /** One segment: drain its queue, then flush the batch. The queue is the
      segment map's rows in the map's iteration order (see `ValidOrder`). */
  function ProcessSegment(src: Source, e: Engine, limit: nat, q: seq<Transaction>): (r: Result<Engine, Fault>)
    ensures r.Ok? ==> r.value.batch == Closed
  {
    var d := DrainQueue(src, e, limit, q, 0);
    if d.Err? then Err(d.error)
    else
      var (b, sales) := Flush(d.value.batch, d.value.wh.sales);
      Ok(d.value.(batch := b, wh := d.value.wh.(sales := sales)))
  }

  /** Processing a segment keeps the invariant. */
  lemma SegmentKeepsInv(src: Source, e: Engine, limit: nat, q: seq<Transaction>)
    requires Inv(src, e, limit)
    requires ProcessSegment(src, e, limit, q).Ok?
    ensures Inv(src, ProcessSegment(src, e, limit, q).value, limit)
  {
    DrainKeepsInv(src, e, limit, q, 0);
    var d := DrainQueue(src, e, limit, q, 0).value;
    var e' := ProcessSegment(src, e, limit, q).value;
    assert e'.wh.sales == d.wh.sales + Pending(d.batch);
    assert e'.wh == d.wh.(sales := e'.wh.sales);
    forall i | 0 <= i < |e'.wh.sales|
      ensures References(e'.wh, e'.wh.sales[i])
    {
      if i < |d.wh.sales| {
        assert References(d.wh, d.wh.sales[i]);
      } else {
        assert References(d.wh, Pending(d.batch)[i - |d.wh.sales|]);
      }
    }
    TimeLinkedConcat(src.transactions, d.wh, d.wh.sales, Pending(d.batch));
  }

  /** The sales table after a segment is the table before it followed by
      the facts the drain left pending. */
  lemma SegmentFlushes(src: Source, e: Engine, limit: nat, q: seq<Transaction>)
    requires ProcessSegment(src, e, limit, q).Ok?
    ensures var d := DrainQueue(src, e, limit, q, 0);
            && d.Ok?
            && ProcessSegment(src, e, limit, q).value.wh == d.value.wh.(sales := d.value.wh.sales + Pending(d.value.batch))
  {
  }

  /** Flush discipline: starting with no open statement, a segment only
      grows the dimension tables, keeps the rows already written to the
      sales table and appends at most one fact per row it consumed,
      whatever order its map is drained in. */
  lemma SegmentWritesFacts(src: Source, e: Engine, limit: nat, pos: nat, q: seq<Transaction>)
    requires pos < |src.transactions|
    requires Enumerates(q, SegmentMap(src.transactions, pos, limit), OrderKey)
    requires e.batch == Closed
    requires ProcessSegment(src, e, limit, q).Ok?
    ensures var e' := ProcessSegment(src, e, limit, q).value;
            && DimensionsExtend(e.wh, e'.wh)
            && |e.wh.sales| <= |e'.wh.sales| <= |e.wh.sales| + (SegmentEnd(src.transactions, pos, limit) - pos)
            && e'.wh.sales[..|e.wh.sales|] == e.wh.sales
  {
    EnumeratesBound(q, SegmentMap(src.transactions, pos, limit), OrderKey);
    SegmentFlushes(src, e, limit, q);
    DrainKeepsWarehouse(src, e, limit, q, 0);
    DrainFacts(src, e, limit, q, 0);
    var d := DrainQueue(src, e, limit, q, 0).value;
    var e' := ProcessSegment(src, e, limit, q).value;
    assert e'.wh.sales[..|e.wh.sales|] == e.wh.sales;
  }

  /** A segment writes, after the rows already in the sales table, exactly
      the facts its drain left pending. */
  lemma SegmentWritten(src: Source, e: Engine, limit: nat, q: seq<Transaction>)
    requires ProcessSegment(src, e, limit, q).Ok?
    ensures var d := DrainQueue(src, e, limit, q, 0);
            && d.Ok?
            && ProcessSegment(src, e, limit, q).value.wh.sales == e.wh.sales + Pending(d.value.batch)
  {
    SegmentFlushes(src, e, limit, q);
    DrainKeepsWarehouse(src, e, limit, q, 0);
  }

  /** Every fact a segment writes carries the order id of a row of that
      segment, whatever order its map is drained in. */
  lemma SegmentFactIds(src: Source, e: Engine, limit: nat, pos: nat, q: seq<Transaction>)
    requires pos < |src.transactions|
    requires Enumerates(q, SegmentMap(src.transactions, pos, limit), OrderKey)
    requires e.batch == Closed
    requires ProcessSegment(src, e, limit, q).Ok?
    ensures var S := ProcessSegment(src, e, limit, q).value.wh.sales;
            |S| >= |e.wh.sales| &&
            forall k :: |e.wh.sales| <= k < |S| ==>
              exists i :: pos <= i < SegmentEnd(src.transactions, pos, limit) && S[k].orderId == src.transactions[i].orderId
  {
    var txs := src.transactions;
    SegmentWritten(src, e, limit, q);
    DrainOrderIds(src, e, limit, q, 0);
    var P := Pending(DrainQueue(src, e, limit, q, 0).value.batch);
    forall k | 0 <= k < |P|
      ensures exists i :: pos <= i < SegmentEnd(txs, pos, limit) && P[k].orderId == txs[i].orderId
    {
      var j :| 0 <= j < |q| && P[k].orderId == q[j].orderId;
      QueuedIdInSegment(txs, pos, limit, q, j);
    }
    AppendedIds(e.wh.sales, P);
  }

  /** No two facts a segment writes share an order id, whatever order its
      map is drained in. */
  lemma SegmentDistinct(src: Source, e: Engine, limit: nat, pos: nat, q: seq<Transaction>)
    requires pos < |src.transactions|
    requires Enumerates(q, SegmentMap(src.transactions, pos, limit), OrderKey)
    requires e.batch == Closed
    requires ProcessSegment(src, e, limit, q).Ok?
    ensures var S := ProcessSegment(src, e, limit, q).value.wh.sales;
            forall a, b :: |e.wh.sales| <= a < b < |S| ==> S[a].orderId != S[b].orderId
  {
    SegmentWritten(src, e, limit, q);
    forall a, b | 0 <= a < b < |q|
      ensures q[a].orderId != q[b].orderId
    {
      assert OrderKey(q[a]) != OrderKey(q[b]);
    }
    DrainDistinct(src, e, limit, q, 0);
    AppendedIds(e.wh.sales, Pending(DrainQueue(src, e, limit, q, 0).value.batch));
  }

  /** A segment's write is the batch writer's: the facts the drain left
      pending, appended one by one to a closed statement and flushed, give
      the sales table and the closed statement the segment ends with. */
  lemma SegmentIsBatchWrite(src: Source, e: Engine, limit: nat, q: seq<Transaction>)
    requires ProcessSegment(src, e, limit, q).Ok?
    ensures var P := Pending(DrainQueue(src, e, limit, q, 0).value.batch);
            var e' := ProcessSegment(src, e, limit, q).value;
            Flush(AppendAll(Closed, P), e.wh.sales) == (e'.batch, e'.wh.sales)
  {
    SegmentWritten(src, e, limit, q);
    SegmentWrite(Pending(DrainQueue(src, e, limit, q, 0).value.batch), e.wh.sales);
  }

  /** Order-id facts about `P` carry over to `P` written after `s`. */
  lemma AppendedIds(s: seq<SalesFact>, P: seq<SalesFact>)
    ensures forall a, b :: 0 <= a < b < |P| && P[a].orderId != P[b].orderId ==>
              (s + P)[|s| + a].orderId != (s + P)[|s| + b].orderId
    ensures forall k :: 0 <= k < |P| ==> (s + P)[|s| + k] == P[k]
  {
  }

  /** The segment loop from cursor position `pos` to the end of the stream,
      draining the segment that starts at `pos` in the queue `order(pos)`. */
  function Run(src: Source, e: Engine, limit: nat, order: nat -> seq<Transaction>, pos: nat): Result<Engine, Fault>
    decreases |src.transactions| - pos
  {
    if pos >= |src.transactions| then Ok(e)
    else
      var r := ProcessSegment(src, e, limit, order(pos));
      if r.Err? then Err(r.error) else Run(src, r.value, limit, order, SegmentEnd(src.transactions, pos, limit))
  }

  /** A run keeps the invariant and leaves no statement open: every fact
      added to a batch has been flushed. */
  lemma {:induction false} RunKeepsInv(src: Source, e: Engine, limit: nat, order: nat -> seq<Transaction>, pos: nat)
    requires Inv(src, e, limit) && e.batch == Closed
    requires Run(src, e, limit, order, pos).Ok?
    ensures Inv(src, Run(src, e, limit, order, pos).value, limit)
    ensures Run(src, e, limit, order, pos).value.batch == Closed
    decreases |src.transactions| - pos
  {
    if pos < |src.transactions| {
      SegmentKeepsInv(src, e, limit, order(pos));
      RunKeepsInv(src, ProcessSegment(src, e, limit, order(pos)).value, limit, order, SegmentEnd(src.transactions, pos, limit));
    }
  }

  /** A run in any drain order only grows the dimension tables and only
      appends to the sales table, at most one fact per transaction row
      read. */
  lemma {:induction false} RunWrites(src: Source, e: Engine, limit: nat, order: nat -> seq<Transaction>, pos: nat)
    requires ValidOrder(src.transactions, limit, order)
    requires e.batch == Closed
    requires pos <= |src.transactions|
    requires Run(src, e, limit, order, pos).Ok?
    ensures var e' := Run(src, e, limit, order, pos).value;
            && DimensionsExtend(e.wh, e'.wh)
            && |e.wh.sales| <= |e'.wh.sales| <= |e.wh.sales| + (|src.transactions| - pos)
            && e'.wh.sales[..|e.wh.sales|] == e.wh.sales
    decreases |src.transactions| - pos
  {
    if pos < |src.transactions| {
      var e1 := ProcessSegment(src, e, limit, order(pos)).value;
      var next := SegmentEnd(src.transactions, pos, limit);
      SegmentWritesFacts(src, e, limit, pos, order(pos));
      RunWrites(src, e1, limit, order, next);
      var e' := Run(src, e1, limit, order, next).value;
      DimensionsExtendTransitive(e.wh, e1.wh, e'.wh);
      PrefixTransitive(e.wh.sales, e1.wh.sales, e'.wh.sales);
    }
  }

  /** `meshJoin` over a whole source with the fixed partition size, each
      segment drained in the queue `order` gives for it. */
  function Load(src: Source, wh: Warehouse, order: nat -> seq<Transaction>): Result<Warehouse, Fault>
  {
    var r := Run(src, Start(wh), PartitionSize, order, 0);
    if r.Err? then Err(r.error) else Ok(r.value.wh)
  }

  /** A whole run, in any drain order, never loses a written fact or a
      dimension row, writes at most one fact per transaction row, and keeps
      every fact's product, customer, store and supplier references intact,
      and its time reference whenever a dated transaction carries its time
      id; nothing is left unflushed. */
  lemma LoadProperties(src: Source, wh: Warehouse, order: nat -> seq<Transaction>)
    requires ValidOrder(src.transactions, PartitionSize, order)
    requires Integrity(wh, wh.sales) && TimeLinked(src.transactions, wh, wh.sales)
    requires Load(src, wh, order).Ok?
    ensures var wh' := Load(src, wh, order).value;
            && DimensionsExtend(wh, wh')
            && |wh.sales| <= |wh'.sales| <= |wh.sales| + |src.transactions|
            && wh'.sales[..|wh.sales|] == wh.sales
            && Integrity(wh', wh'.sales)
            && TimeLinked(src.transactions, wh', wh'.sales)
  {
    StartInv(src, wh, PartitionSize);
    RunKeepsInv(src, Start(wh), PartitionSize, order, 0);
    RunWrites(src, Start(wh), PartitionSize, order, 0);
  }
}
