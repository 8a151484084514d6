/** The join resolver (`processTransactions`): a transaction becomes a
    sales fact only when its customer is in the customer buffer, its product
    is in the product buffer, and the product's source row (with its store
    and supplier) is found by a point lookup. The warehouse dimension rows
    are ensured first, then the time table is populated, then the fact is
    added to the batch. */
module Resolver {
  import opened Results
  import opened Records
  import opened Warehouse
  import opened TimeDimension
  import opened FactBatch

  /** The point lookup of a product's store and supplier: the first source
      products row with that id, if any. */
  function LookupDetails(rows: seq<ProductRow>, productId: int): (r: Option<ProductRow>)
    ensures r.Some? <==> exists i :: 0 <= i < |rows| && rows[i].product.productId == productId
    ensures r.Some? ==> exists i :: 0 <= i < |rows| && rows[i] == r.value
                          && forall j :: 0 <= j < i ==> rows[j].product.productId != productId
    ensures r.Some? ==> r.value.product.productId == productId
    decreases |rows|
  {
    if |rows| == 0 then None
    else if rows[0].product.productId == productId then Some(rows[0])
    else
      var r := LookupDetails(rows[1..], productId);
      assert forall i :: 1 <= i < |rows| ==> rows[i] == rows[1..][i - 1];
      r
  }

  /** The fact a resolved transaction contributes. */
  function MakeFact(t: Transaction, p: Product, d: ProductRow): SalesFact
  {
    SalesFact(t.orderId, t.quantity, t.customerId, t.productId, d.storeId, d.supplierId, p.price * t.quantity, t.timeId)
  }

  /** The four check-then-insert upserts of a resolved transaction, in
      source order: afterwards the fact's product, customer, store and
      supplier rows exist, no existing row changed, and the time and sales
      tables are untouched. */
  function EnsureDimensions(w: Warehouse, c: Customer, p: Product, d: ProductRow): (w': Warehouse)
    ensures DimensionsExtend(w, w')
    ensures p.productId in w'.products && c.customerId in w'.customers
    ensures d.storeId in w'.stores && d.supplierId in w'.suppliers
    ensures w'.products[p.productId] == (if p.productId in w.products then w.products[p.productId] else p)
    ensures w'.customers[c.customerId] == (if c.customerId in w.customers then w.customers[c.customerId] else c)
    ensures w'.times == w.times && w'.sales == w.sales
  {
    var w1 := EnsureProductExists(w, p);
    var w2 := EnsureCustomerExists(w1, c);
    var w3 := EnsureStoreExists(w2, d.storeId, d.storeName);
    var w4 := EnsureSupplierExists(w3, d.supplierId, d.supplierName);
    DimensionsExtendTransitive(w, w1, w2);
    DimensionsExtendTransitive(w, w2, w3);
    DimensionsExtendTransitive(w, w3, w4);
    w4
  }

  /** The emit condition: customer and product buffered, and the product's
      source row found. */
  predicate Resolvable(t: Transaction, customers: map<int, Customer>, products: map<int, Product>,
                       productRows: seq<ProductRow>)
  {
    t.customerId in customers && t.productId in products && LookupDetails(productRows, t.productId).Some?
  }

  /** `processTransactions` for one transaction `t` against the current
      buffers. `txs` is the whole source transaction table, which the time
      table insert reads; `w.times` is the warehouse's time table, which it
      writes. The insert names both tables by database (`datasource`,
      `datawarehouse`), so this holds when the two connections' databases
      carry those names. An unresolvable transaction is skipped; a
      resolvable one fails only when the time table insert breaks its key. */
  function Resolve(txs: seq<Transaction>, productRows: seq<ProductRow>, customers: map<int, Customer>,
                   products: map<int, Product>, t: Transaction, w: Warehouse, b: Batch)
    : (r: Result<(Warehouse, Batch), Fault>)
    ensures !Resolvable(t, customers, products, productRows) ==> r == Ok((w, b))
    ensures Resolvable(t, customers, products, productRows) ==> (r.Err? <==> TimeKeyClash(txs, w.times, 0))
    ensures r.Ok? ==> DimensionsExtend(w, r.value.0) && r.value.0.sales == w.sales
    ensures r.Ok? ==> |Pending(r.value.1)| == |Pending(b)| + (if Resolvable(t, customers, products, productRows) then 1 else 0)
    ensures r.Ok? ==> Pending(r.value.1)[..|Pending(b)|] == Pending(b)
  {
    if !Resolvable(t, customers, products, productRows) then Ok((w, b))
    else
      var customer := customers[t.customerId];
      var product := products[t.productId];
      var d := LookupDetails(productRows, t.productId).value;
      var w4 := EnsureDimensions(w, customer, product, d);
      var times := PopulateTimeTable(txs, w4.times);
      if times.Err? then Err(times.error)
      else
        var w5 := w4.(times := times.value);
        Ok((w5, Append(b, MakeFact(t, product, d))))
  }

  /** What a resolved transaction emits: one fact appended to the batch,
      carrying the transaction's order, quantity, customer, product and time
      ids, the store and supplier of the looked-up product row, and the
      buffered price times the quantity. */
  lemma ResolveEmits(txs: seq<Transaction>, productRows: seq<ProductRow>, customers: map<int, Customer>,
                     products: map<int, Product>, t: Transaction, w: Warehouse, b: Batch)
    requires Resolvable(t, customers, products, productRows)
    requires Resolve(txs, productRows, customers, products, t, w, b).Ok?
    ensures var b' := Resolve(txs, productRows, customers, products, t, w, b).value.1;
            var d := LookupDetails(productRows, t.productId).value;
            var f := Pending(b')[|Pending(b)|];
            && f.orderId == t.orderId && f.quantity == t.quantity && f.timeId == t.timeId
            && f.customerId == t.customerId && f.productId == t.productId
            && f.storeId == d.storeId && f.supplierId == d.supplierId
            && f.totalSales == products[t.productId].price * t.quantity
  {
    var d := LookupDetails(productRows, t.productId).value;
    var f := MakeFact(t, products[t.productId], d);
    assert Resolve(txs, productRows, customers, products, t, w, b).value.1 == Append(b, f);
  }

  /** With buffers keyed by their rows' own ids, as the partition loads
      build them, the product, customer, store and supplier rows the
      emitted fact points to are in the warehouse afterwards, and so is its
      time row when some dated transaction carries its time id. */
  lemma ResolveReferences(txs: seq<Transaction>, productRows: seq<ProductRow>, customers: map<int, Customer>,
                          products: map<int, Product>, t: Transaction, w: Warehouse, b: Batch)
    requires Resolvable(t, customers, products, productRows)
    requires forall k :: k in customers ==> customers[k].customerId == k
    requires forall k :: k in products ==> products[k].productId == k
    requires Resolve(txs, productRows, customers, products, t, w, b).Ok?
    ensures var (w', b') := Resolve(txs, productRows, customers, products, t, w, b).value;
            References(w', Pending(b')[|Pending(b)|])
    ensures var (w', b') := Resolve(txs, productRows, customers, products, t, w, b).value;
            forall i :: 0 <= i < |txs| && txs[i].orderDate.Some? && txs[i].timeId == t.timeId ==>
              Pending(b')[|Pending(b)|].timeId in w'.times
  {
    var d := LookupDetails(productRows, t.productId).value;
    var w4 := EnsureDimensions(w, customers[t.customerId], products[t.productId], d);
    var times := PopulateTimeTable(txs, w4.times);
    var f := MakeFact(t, products[t.productId], d);
    var w' := w4.(times := times.value);
    assert Resolve(txs, productRows, customers, products, t, w, b).value == (w', Append(b, f));
    assert w'.products == w4.products && w'.customers == w4.customers;
    assert w'.stores == w4.stores && w'.suppliers == w4.suppliers;
  }

  /** A resolved transaction leaves an existing product or customer row as
      it was and inserts the buffered one otherwise, and afterwards every
      dated transaction's time id is in the time table. */
  lemma ResolveUpserts(txs: seq<Transaction>, productRows: seq<ProductRow>, customers: map<int, Customer>,
                       products: map<int, Product>, t: Transaction, w: Warehouse, b: Batch)
    requires Resolvable(t, customers, products, productRows)
    requires forall k :: k in customers ==> customers[k].customerId == k
    requires forall k :: k in products ==> products[k].productId == k
    requires Resolve(txs, productRows, customers, products, t, w, b).Ok?
    ensures var w' := Resolve(txs, productRows, customers, products, t, w, b).value.0;
            && t.productId in w'.products && t.customerId in w'.customers
            && w'.products[t.productId] == (if t.productId in w.products then w.products[t.productId]
                                            else products[t.productId])
            && w'.customers[t.customerId] == (if t.customerId in w.customers then w.customers[t.customerId]
                                              else customers[t.customerId])
    ensures var w' := Resolve(txs, productRows, customers, products, t, w, b).value.0;
            forall i :: 0 <= i < |txs| && txs[i].orderDate.Some? ==> txs[i].timeId in w'.times
  {
    var d := LookupDetails(productRows, t.productId).value;
    var w4 := EnsureDimensions(w, customers[t.customerId], products[t.productId], d);
    var times := PopulateTimeTable(txs, w4.times);
    var w' := w4.(times := times.value);
    assert Resolve(txs, productRows, customers, products, t, w, b).value.0 == w';
    assert w'.products == w4.products && w'.customers == w4.customers;
  }

  /** Resolution keeps referential integrity: every fact that was pending
      or written still references warehouse rows, and so does the new one
      when the buffers file rows under their own ids. */
  lemma ResolveKeepsIntegrity(txs: seq<Transaction>, productRows: seq<ProductRow>, customers: map<int, Customer>,
                              products: map<int, Product>, t: Transaction, w: Warehouse, b: Batch)
    requires Integrity(w, Pending(b)) && Integrity(w, w.sales)
    requires forall k :: k in customers ==> customers[k].customerId == k
    requires forall k :: k in products ==> products[k].productId == k
    requires Resolve(txs, productRows, customers, products, t, w, b).Ok?
    ensures var (w', b') := Resolve(txs, productRows, customers, products, t, w, b).value;
            Integrity(w', Pending(b')) && Integrity(w', w'.sales)
  {
    var (w', b') := Resolve(txs, productRows, customers, products, t, w, b).value;
    IntegrityKept(w, w', Pending(b));
    IntegrityKept(w, w', w.sales);
    var n := |Pending(b)|;
    if |Pending(b')| > n {
      ResolveReferences(txs, productRows, customers, products, t, w, b);
      assert |Pending(b')| == n + 1;
      forall i | 0 <= i < |Pending(b')|
        ensures References(w', Pending(b')[i])
      {
        if i < n {
          assert Pending(b')[i] == Pending(b)[i];
          assert References(w', Pending(b)[i]);
        } else {
          assert i == n;
        }
      }
    } else {
      assert Pending(b') == Pending(b')[..n];
    }
  }

  /** Resolution keeps the time links of every pending and written fact,
      the new one's included: resolving fills the time table with the time
      id of every dated transaction. */
  lemma ResolveKeepsTimeLinked(txs: seq<Transaction>, productRows: seq<ProductRow>, customers: map<int, Customer>,
                               products: map<int, Product>, t: Transaction, w: Warehouse, b: Batch)
    requires TimeLinked(txs, w, Pending(b)) && TimeLinked(txs, w, w.sales)
    requires Resolve(txs, productRows, customers, products, t, w, b).Ok?
    ensures var (w', b') := Resolve(txs, productRows, customers, products, t, w, b).value;
            TimeLinked(txs, w', Pending(b')) && TimeLinked(txs, w', w'.sales)
  {
    if Resolvable(t, customers, products, productRows) {
      var d := LookupDetails(productRows, t.productId).value;
      var w4 := EnsureDimensions(w, customers[t.customerId], products[t.productId], d);
      var times := PopulateTimeTable(txs, w4.times);
      var w' := w4.(times := times.value);
      assert Resolve(txs, productRows, customers, products, t, w, b).value.0 == w';
      assert forall i :: 0 <= i < |txs| && txs[i].orderDate.Some? ==> txs[i].timeId in w'.times;
    }
  }
}
