/** The warehouse as a value: one map per dimension table, keyed by its
    primary key, and the sales fact table as the sequence of rows written
    so far. The `ensure*Exists` operations are check-then-insert upserts. */
module Warehouse {
  import opened Records

  datatype Warehouse = Warehouse(
    products: map<int, Product>,
    customers: map<int, Customer>,
    stores: map<int, string>,
    suppliers: map<int, string>,
    times: map<int, TimeRow>,
    sales: seq<SalesFact>)

  /** An empty warehouse. */
  function EmptyWarehouse(): Warehouse
  {
    Warehouse(map[], map[], map[], map[], map[], [])
  }

  /** `m'` keeps every row of `m` unchanged (it may have more). */
  ghost predicate MapExtends<V>(m: map<int, V>, m': map<int, V>)
  {
    forall k :: k in m ==> k in m' && m'[k] == m[k]
  }

  /** Every dimension table of `w'` keeps the rows of `w`: the warehouse
      only ever gains dimension rows. */
  ghost predicate DimensionsExtend(w: Warehouse, w': Warehouse)
  {
    && MapExtends(w.products, w'.products)
    && MapExtends(w.customers, w'.customers)
    && MapExtends(w.stores, w'.stores)
    && MapExtends(w.suppliers, w'.suppliers)
    && MapExtends(w.times, w'.times)
  }

  /** Referential integrity of one fact: the product, customer, store and
      supplier rows it points to are in the warehouse. */
  ghost predicate References(w: Warehouse, f: SalesFact)
  {
    && f.productId in w.products
    && f.customerId in w.customers
    && f.storeId in w.stores
    && f.supplierId in w.suppliers
  }

  /** Every fact of `facts` references rows of `w`. */
  ghost predicate Integrity(w: Warehouse, facts: seq<SalesFact>)
  {
    forall i :: 0 <= i < |facts| ==> References(w, facts[i])
  }

  /** Facts that reference `w` still do once the dimensions have grown. */
  lemma IntegrityKept(w: Warehouse, w': Warehouse, facts: seq<SalesFact>)
    requires Integrity(w, facts) && DimensionsExtend(w, w')
    ensures Integrity(w', facts)
  {
    forall i | 0 <= i < |facts|
      ensures References(w', facts[i])
    {
      assert References(w, facts[i]);
    }
  }

  /** The time half of referential integrity, as far as the program keeps
      it: a fact's time id has a row in the time table whenever some dated
      transaction of `txs` carries that time id. A fact whose time id only
      undated transactions carry may point at no time row, because the time
      table is filled from dated transactions alone. */
  ghost predicate TimeLinked(txs: seq<Transaction>, w: Warehouse, facts: seq<SalesFact>)
  {
    forall k, i :: 0 <= k < |facts| && 0 <= i < |txs| && txs[i].orderDate.Some? && txs[i].timeId == facts[k].timeId
      ==> facts[k].timeId in w.times
  }

  /** Time links of two fact lists are those of the two written one after
      the other. */
  lemma TimeLinkedConcat(txs: seq<Transaction>, w: Warehouse, a: seq<SalesFact>, b: seq<SalesFact>)
    requires TimeLinked(txs, w, a) && TimeLinked(txs, w, b)
    ensures TimeLinked(txs, w, a + b)
  {
    forall k, i | 0 <= k < |a + b| && 0 <= i < |txs| && txs[i].orderDate.Some? && txs[i].timeId == (a + b)[k].timeId
      ensures (a + b)[k].timeId in w.times
    {
      if k < |a| {
        assert (a + b)[k] == a[k];
      } else {
        assert (a + b)[k] == b[k - |a|];
      }
    }
  }

  /** Dimension tables only grow along a run. */
  lemma DimensionsExtendTransitive(w1: Warehouse, w2: Warehouse, w3: Warehouse)
    requires DimensionsExtend(w1, w2) && DimensionsExtend(w2, w3)
    ensures DimensionsExtend(w1, w3)
  {
  }

  /** Check-then-insert: a row is inserted under `key` only if no row has
      that key; an existing row is never overwritten. */
  function InsertIfAbsent<V>(table: map<int, V>, key: int, row: V): (t: map<int, V>)
    ensures key in t
    ensures key in table ==> t == table
    ensures key !in table ==> t[key] == row && |t| == |table| + 1
    ensures t.Keys == table.Keys + {key}
    ensures forall k :: k in table ==> t[k] == table[k]
  {
    if key in table then table else table[key := row]
  }

  /** A second upsert under the same key changes nothing, whatever row it
      carries: the first writer wins. */
  lemma InsertIfAbsentIdempotent<V>(table: map<int, V>, key: int, row: V, row': V)
    ensures InsertIfAbsent(InsertIfAbsent(table, key, row), key, row') == InsertIfAbsent(table, key, row)
  {
  }

  /** `ensureProductExists`: only the product table can change, and only at
      the product's id. */
  function EnsureProductExists(w: Warehouse, p: Product): (w': Warehouse)
    ensures p.productId in w'.products
    ensures p.productId in w.products ==> w' == w
    ensures p.productId !in w.products ==> w'.products == w.products[p.productId := p]
    ensures w' == w.(products := w'.products)
    ensures DimensionsExtend(w, w')
  {
    w.(products := InsertIfAbsent(w.products, p.productId, p))
  }

  /** `ensureCustomerExists`: only the customer table can change, and only
      at the customer's id. */
  function EnsureCustomerExists(w: Warehouse, c: Customer): (w': Warehouse)
    ensures c.customerId in w'.customers
    ensures c.customerId in w.customers ==> w' == w
    ensures c.customerId !in w.customers ==> w'.customers == w.customers[c.customerId := c]
    ensures w' == w.(customers := w'.customers)
    ensures DimensionsExtend(w, w')
  {
    w.(customers := InsertIfAbsent(w.customers, c.customerId, c))
  }

  /** `ensureStoreExists`: only the store table can change, and only at
      `storeId`. */
  function EnsureStoreExists(w: Warehouse, storeId: int, storeName: string): (w': Warehouse)
    ensures storeId in w'.stores
    ensures storeId in w.stores ==> w' == w
    ensures storeId !in w.stores ==> w'.stores == w.stores[storeId := storeName]
    ensures w' == w.(stores := w'.stores)
    ensures DimensionsExtend(w, w')
  {
    w.(stores := InsertIfAbsent(w.stores, storeId, storeName))
  }

  /** `ensureSupplierExists`: only the supplier table can change, and only
      at `supplierId`. */
  function EnsureSupplierExists(w: Warehouse, supplierId: int, supplierName: string): (w': Warehouse)
    ensures supplierId in w'.suppliers
    ensures supplierId in w.suppliers ==> w' == w
    ensures supplierId !in w.suppliers ==> w'.suppliers == w.suppliers[supplierId := supplierName]
    ensures w' == w.(suppliers := w'.suppliers)
    ensures DimensionsExtend(w, w')
  {
    w.(suppliers := InsertIfAbsent(w.suppliers, supplierId, supplierName))
  }

  /** Calling an upsert twice with the same record is the same as calling it
      once: exactly one row for the key, nothing else changed. */
  lemma EnsureExistsIdempotent(w: Warehouse, p: Product, c: Customer, storeId: int, storeName: string,
                               supplierId: int, supplierName: string)
    ensures EnsureProductExists(EnsureProductExists(w, p), p) == EnsureProductExists(w, p)
    ensures EnsureCustomerExists(EnsureCustomerExists(w, c), c) == EnsureCustomerExists(w, c)
    ensures EnsureStoreExists(EnsureStoreExists(w, storeId, storeName), storeId, storeName)
            == EnsureStoreExists(w, storeId, storeName)
    ensures EnsureSupplierExists(EnsureSupplierExists(w, supplierId, supplierName), supplierId, supplierName)
            == EnsureSupplierExists(w, supplierId, supplierName)
  {
  }
}
