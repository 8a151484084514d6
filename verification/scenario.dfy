/** A worked run: one customer, one product priced 9.50 (950 cents), one
    order of three units dated 2024-02-15, loaded into an empty warehouse. */
module Scenario {
  import opened Results
  import opened Records
  import opened Keyed
  import opened Segmenter
  import opened Partition
  import opened Warehouse
  import opened TimeDimension
  import opened Resolver
  import opened FactBatch
  import opened MeshJoin

  function Alice(): Customer { Customer(1, "Alice", "F") }

  function Widget(): Product { Product(10, "Widget", 950) }

  function WidgetRow(): ProductRow { ProductRow(Widget(), 7, "Main Street", 8, "Acme") }

  function Order(): Transaction { Transaction(500, Some(Date(2024, 2, 15)), 10, 3, 1, 1) }

  function Demo(): Source { Source([Order()], [Alice()], [WidgetRow()]) }

  function DemoTime(): TimeRow { TimeRow(1, Date(2024, 2, 15), 15, 2, 2024, Some(1)) }

  function DemoFact(): SalesFact { SalesFact(500, 3, 1, 10, 7, 8, 2850, 1) }

  /** The order is a segment of its own and its queue. */
  lemma DemoSegment()
    ensures SegmentEnd(Demo().transactions, 0, PartitionSize) == 1
    ensures SegmentQueue(Demo().transactions, 0, PartitionSize) == [Order()]
  {
    var t := Order();
    assert Demo().transactions[0..1] == [t];
    assert Survivors([t], OrderKey) == [t];
  }

  /** Both lookups miss the empty buffers and load the one-row tables. */
  lemma DemoBuffers()
    ensures EnsureBuffered(Demo().customers, CustomerKey, EmptyBuffer(), PartitionSize, 1)
            == Buffer(map[1 := Alice()], 0)
    ensures EnsureBuffered(ProductsOf(Demo().products), ProductKey, EmptyBuffer(), PartitionSize, 10)
            == Buffer(map[10 := Widget()], 0)
  {
    assert Window(Demo().customers, 0, PartitionSize) == [Alice()];
    assert LastWins([Alice()], CustomerKey) == map[1 := Alice()];
    assert ProductsOf(Demo().products) == [Widget()];
    assert Window([Widget()], 0, PartitionSize) == [Widget()];
    assert LastWins([Widget()], ProductKey) == map[10 := Widget()];
  }

  /** The time row of 2024-02-15 falls in the first quarter. */
  lemma DemoTimeTable()
    ensures PopulateTimeTable(Demo().transactions, map[]) == Ok(map[1 := DemoTime()])
  {
    var txs := Demo().transactions;
    assert CandidateRow(Order()) == DemoTime();
    assert CollectTimeRows(txs, map[], map[1 := DemoTime()], 1) == Ok(map[1 := DemoTime()]);
    assert CollectTimeRows(txs, map[], map[], 0) == Ok(map[1 := DemoTime()]);
    assert map[] + map[1 := DemoTime()] == map[1 := DemoTime()];
  }

  /** Resolving the order upserts the four dimension rows and the time row
      and adds one fact of 3 x 950 cents to the batch. */
  lemma DemoStep()
    ensures Step(Demo(), Start(EmptyWarehouse()), PartitionSize, Order()) == Ok(DemoResolved())
  {
    DemoBuffers();
    DemoResolve();
  }

  /** Resolution against the loaded buffers. */
  lemma DemoResolve()
    ensures Resolve(Demo().transactions, Demo().products, map[1 := Alice()], map[10 := Widget()], Order(),
                    EmptyWarehouse(), Closed)
            == Ok((DemoResolved().wh, DemoResolved().batch))
  {
    DemoTimeTable();
    assert LookupDetails(Demo().products, 10) == Some(WidgetRow());
    assert EnsureDimensions(EmptyWarehouse(), Alice(), Widget(), WidgetRow())
        == Warehouse(map[10 := Widget()], map[1 := Alice()], map[7 := "Main Street"], map[8 := "Acme"], map[], []);
    assert MakeFact(Order(), Widget(), WidgetRow()) == DemoFact();
    assert Append(Closed, DemoFact()) == Open([DemoFact()]);
  }

  /** The warehouse after the run. */
  function DemoWarehouse(): Warehouse
  {
    Warehouse(map[10 := Widget()], map[1 := Alice()], map[7 := "Main Street"], map[8 := "Acme"],
              map[1 := DemoTime()], [DemoFact()])
  }

  /** The engine after the order is resolved, before the flush. */
  function DemoResolved(): Engine
  {
    Engine(Buffer(map[1 := Alice()], 0), Buffer(map[10 := Widget()], 0), Open([DemoFact()]),
           DemoWarehouse().(sales := []))
  }

  /** Draining the one-transaction queue is the one step. */
  lemma DemoDrain()
    ensures DrainQueue(Demo(), Start(EmptyWarehouse()), PartitionSize, [Order()], 0) == Ok(DemoResolved())
  {
    DemoStep();
    assert DrainQueue(Demo(), DemoResolved(), PartitionSize, [Order()], 1) == Ok(DemoResolved());
  }

  /** The single segment drains its one transaction and flushes its fact. */
  lemma DemoProcessSegment()
    ensures ProcessSegment(Demo(), Start(EmptyWarehouse()), PartitionSize, [Order()])
            == Ok(Engine(Buffer(map[1 := Alice()], 0), Buffer(map[10 := Widget()], 0), Closed, DemoWarehouse()))
  {
    DemoDrain();
    var d := DemoResolved();
    assert Pending(d.batch) == [DemoFact()];
    assert d.wh.sales + [DemoFact()] == [DemoFact()];
    assert d.(batch := Closed, wh := d.wh.(sales := [DemoFact()]))
        == Engine(Buffer(map[1 := Alice()], 0), Buffer(map[10 := Widget()], 0), Closed, DemoWarehouse());
  }

  /** The run loads the product, customer, store, supplier and time rows
      and writes one fact of 2850 cents, and nothing else. */
  lemma EndToEnd()
    ensures Load(Demo(), EmptyWarehouse(), StreamOrder(Demo().transactions, PartitionSize)) == Ok(DemoWarehouse())
  {
    var order := StreamOrder(Demo().transactions, PartitionSize);
    DemoSegment();
    assert order(0) == [Order()];
    DemoProcessSegment();
    var e := ProcessSegment(Demo(), Start(EmptyWarehouse()), PartitionSize, [Order()]).value;
    assert Run(Demo(), e, PartitionSize, order, 1) == Ok(e);
  }

  /* The drain order matters. Two orders of one segment, three customers
     and a partition size of 2: `Early` (order 2) is for customer 1, in the
     first window, and `Late` (order 1) for customer 3, in the second. */

  function Bob(): Customer { Customer(2, "Bob", "M") }

  function Carol(): Customer { Customer(3, "Carol", "F") }

  function Early(): Transaction { Transaction(2, Some(Date(2024, 1, 5)), 10, 1, 1, 1) }

  function Late(): Transaction { Transaction(1, Some(Date(2024, 1, 6)), 10, 1, 3, 2) }

  function Pair(): Source { Source([Early(), Late()], [Alice(), Bob(), Carol()], [WidgetRow()]) }

  /** The pair is one segment, whose map holds both rows. */
  lemma PairMap()
    ensures SegmentEnd(Pair().transactions, 0, 2) == 2
    ensures SegmentMap(Pair().transactions, 0, 2) == map[2 := Early(), 1 := Late()]
  {
    var rows := Pair().transactions;
    assert rows[0..2] == [Early(), Late()];
    assert [Early(), Late()][..1] == [Early()];
    assert [Early()][..0] == [];
    assert LastWins([Early()], OrderKey) == map[2 := Early()];
    assert LastWins([Early(), Late()], OrderKey) == map[2 := Early(), 1 := Late()];
  }

  /** Both orders of the two rows are drain orders of the one segment. */
  lemma PairQueues()
    ensures Enumerates([Early(), Late()], SegmentMap(Pair().transactions, 0, 2), OrderKey)
    ensures Enumerates([Late(), Early()], SegmentMap(Pair().transactions, 0, 2), OrderKey)
  {
    PairMap();
    var m := map[2 := Early(), 1 := Late()];
    assert m[2] == Early() && m[1] == Late();
    PairEnumerates([Early(), Late()]);
    PairEnumerates([Late(), Early()]);
  }

  /** Either arrangement of the two rows enumerates the pair's map. */
  lemma PairEnumerates(r: seq<Transaction>)
    requires r == [Early(), Late()] || r == [Late(), Early()]
    ensures Enumerates(r, map[2 := Early(), 1 := Late()], OrderKey)
  {
    var m := map[2 := Early(), 1 := Late()];
    assert Early() in r && Late() in r;
    assert forall k :: k in m ==> m[k] in r;
    assert forall i :: 0 <= i < |r| ==> OrderKey(r[i]) in m && m[OrderKey(r[i])] == r[i];
    assert forall a, b :: 0 <= a < b < |r| ==> OrderKey(r[a]) != OrderKey(r[b]);
  }

  /** The customer buffer: the first load holds customers 1 and 2, the
      second customer 3. */
  lemma PairCustomerWindows()
    ensures EnsureBuffered(Pair().customers, CustomerKey, EmptyBuffer(), 2, 1)
            == Buffer(map[1 := Alice(), 2 := Bob()], 2)
    ensures EnsureBuffered(Pair().customers, CustomerKey, EmptyBuffer(), 2, 3)
            == Buffer(map[1 := Alice(), 2 := Bob()], 2)
    ensures EnsureBuffered(Pair().customers, CustomerKey, Buffer(map[1 := Alice(), 2 := Bob()], 2), 2, 3)
            == Buffer(map[3 := Carol()], 0)
  {
    var cs := Pair().customers;
    assert Window(cs, 0, 2) == [Alice(), Bob()];
    assert LastWins([Alice(), Bob()], CustomerKey) == map[1 := Alice(), 2 := Bob()];
    assert Window(cs, 2, 2) == [Carol()];
    assert LastWins([Carol()], CustomerKey) == map[3 := Carol()];
  }

  /** The product buffer loads the one product on its first miss. */
  lemma PairProductWindow()
    ensures EnsureBuffered(ProductsOf(Pair().products), ProductKey, EmptyBuffer(), 2, 10)
            == Buffer(map[10 := Widget()], 0)
  {
    assert ProductsOf(Pair().products) == [Widget()];
    assert Window([Widget()], 0, 2) == [Widget()];
    assert LastWins([Widget()], ProductKey) == map[10 := Widget()];
  }

  /** The two transactions have different time ids, so the time table
      insert cannot fail. */
  lemma PairNoClash(times: map<int, TimeRow>)
    ensures !TimeKeyClash(Pair().transactions, times, 0)
  {
    var txs := Pair().transactions;
    assert txs[0].timeId != txs[1].timeId;
  }

  /** In stream order both transactions resolve: customer 3 is found by
      the refresh its miss triggers. */
  lemma PairStreamOrder()
    ensures var d := DrainQueue(Pair(), Start(EmptyWarehouse()), 2, [Early(), Late()], 0);
            d.Ok? && |Pending(d.value.batch)| == 2
  {
    PairCustomerWindows();
    PairProductWindow();
    var q := [Early(), Late()];
    PairNoClash(EmptyWarehouse().times);
    assert LookupDetails(Pair().products, 10) == Some(WidgetRow());
    var e1 := Step(Pair(), Start(EmptyWarehouse()), 2, Early()).value;
    assert |Pending(e1.batch)| == 1 && e1.customers == Buffer(map[1 := Alice(), 2 := Bob()], 2);
    assert e1.products.contents == map[10 := Widget()];
    PairNoClash(e1.wh.times);
    var e2 := Step(Pair(), e1, 2, Late()).value;
    assert |Pending(e2.batch)| == 2;
    assert DrainQueue(Pair(), e2, 2, q, 2) == Ok(e2);
  }

  /** With `Late` first, customer 3 misses the first load and the
      transaction is dropped; `Early` then hits the loaded window. One fact
      instead of two. */
  lemma PairReversedOrder()
    ensures var d := DrainQueue(Pair(), Start(EmptyWarehouse()), 2, [Late(), Early()], 0);
            d.Ok? && |Pending(d.value.batch)| == 1
  {
    PairCustomerWindows();
    PairProductWindow();
    var q := [Late(), Early()];
    PairNoClash(EmptyWarehouse().times);
    assert LookupDetails(Pair().products, 10) == Some(WidgetRow());
    var e1 := Step(Pair(), Start(EmptyWarehouse()), 2, Late()).value;
    assert |Pending(e1.batch)| == 0 && e1.customers == Buffer(map[1 := Alice(), 2 := Bob()], 2);
    assert e1.products.contents == map[10 := Widget()];
    PairNoClash(e1.wh.times);
    var e2 := Step(Pair(), e1, 2, Early()).value;
    assert |Pending(e2.batch)| == 1;
    assert DrainQueue(Pair(), e2, 2, q, 2) == Ok(e2);
  }

  /** The number of facts a segment writes depends on the order its map is
      drained in. */
  lemma QueueOrderMatters()
    ensures Enumerates([Early(), Late()], SegmentMap(Pair().transactions, 0, 2), OrderKey)
    ensures Enumerates([Late(), Early()], SegmentMap(Pair().transactions, 0, 2), OrderKey)
    ensures ProcessSegment(Pair(), Start(EmptyWarehouse()), 2, [Early(), Late()]).Ok?
    ensures ProcessSegment(Pair(), Start(EmptyWarehouse()), 2, [Late(), Early()]).Ok?
    ensures |ProcessSegment(Pair(), Start(EmptyWarehouse()), 2, [Early(), Late()]).value.wh.sales| == 2
    ensures |ProcessSegment(Pair(), Start(EmptyWarehouse()), 2, [Late(), Early()]).value.wh.sales| == 1
  {
    PairQueues();
    PairStreamOrder();
    PairReversedOrder();
    SegmentWritten(Pair(), Start(EmptyWarehouse()), 2, [Early(), Late()]);
    SegmentWritten(Pair(), Start(EmptyWarehouse()), 2, [Late(), Early()]);
  }

  /** The demo order without a date. */
  function Undated(): Source { Demo().(transactions := [Order().(orderDate := None)]) }

  /** An undated transaction still resolves and emits a fact, but the time
      table only takes rows of dated transactions: the fact's time id has no
      time row. */
  lemma UndatedFactHasNoTimeRow()
    ensures var r := Step(Undated(), Start(EmptyWarehouse()), PartitionSize, Undated().transactions[0]);
            && r.Ok? && |Pending(r.value.batch)| == 1
            && Pending(r.value.batch)[0].timeId == 1
            && 1 !in r.value.wh.times
  {
    var src, t := Undated(), Undated().transactions[0];
    DemoBuffers();
    assert src.customers == Demo().customers && src.products == Demo().products;
    assert LookupDetails(src.products, 10) == Some(WidgetRow());
    assert !TimeKeyClash(src.transactions, map[], 0);
    var r := Step(src, Start(EmptyWarehouse()), PartitionSize, t);
    StepEmits(src, Start(EmptyWarehouse()), PartitionSize, t);
    var w4 := EnsureDimensions(EmptyWarehouse(), Alice(), Widget(), WidgetRow());
    var times := PopulateTimeTable(src.transactions, w4.times);
    assert r.value.wh == w4.(times := times.value);
    assert !IsCandidate(src.transactions[0], w4.times);
  }
}
