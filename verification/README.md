# MeshJoin warehouse loader — a Dafny model

This project models the join-and-load engine of `MeshJoinProcessor.java`. The
engine streams the source `transactions` table segment by segment. It joins
each transaction against in-memory windows ("buffers") of the `customers` and
`products` tables, which are reloaded on a miss and rotate through their
tables. For every transaction it can resolve, it makes sure the warehouse has
the product, customer, store and supplier rows, and the time row whenever some
dated transaction carries its time id. It then adds one sales
fact to a batch, and the batch is written to the `sales` table once per
segment.

Every database table is a value:

- A source table is a sequence of rows, in the order a full scan returns them.
- A warehouse dimension table is a map keyed by its primary key.
- The warehouse `sales` table is the sequence of rows written so far.

The engine is a pure state machine over these values:
`Step` handles one transaction, `DrainQueue` one segment's queue,
`ProcessSegment` one segment with its flush, `Run` the segment loop, and
`Load` the whole `meshJoin` call.

Modules, one per piece of the engine:

- `Results`: `Option` and `Result`.
- `Records`: the `Transaction`, `Customer` and `Product` records, the source
  products row with its store and supplier columns, the sales fact and time
  rows, and `PARTITION_SIZE`.
- `Keyed`: the last-write-wins collapse that every `HashMap.put` loop of the
  source performs.
- `Segmenter`: `readTransactionSegment`, the segment queue and drain orders.
- `Partition`: the rotating customer and product buffers.
- `Warehouse`: the warehouse value and the four check-then-insert upserts.
- `TimeDimension`: the time-table insert with quarter derivation.
- `FactBatch`: the fact batch writer.
- `Resolver`: `processTransactions`.
- `MeshJoin`: the `meshJoin` loop.
- `Scenario`: a worked run of one order through the whole engine, a segment
  whose drain order changes its output, and an undated order.

Prices and `TOTAL_SALES` are integers (cents), so `price × quantity` is exact.

A buffer's offset advances by `limit` on each refresh and resets to 0 once it
reaches the row count (MeshJoinProcessor.java:81-82 and 88-89). So the offset
after `k` refreshes from 0 is `(k mod ⌈rowCount/limit⌉)·limit`, not
`(k·limit) mod rowCount`. For a positive `limit` and a positive row count,
the two agree for every `k` exactly when `limit` divides the row count or the
row count divides `limit`; for a row count of 0 the second form has no value,
while the source's offset stays 0. The buffers always start at multiples of
`limit`.
`Partition.RotateForever` states this closed form for every `k`.

The work queue of a segment is `HashMap.values()` (MeshJoinProcessor.java:72-73).
Its order is the hash map's own, and it matters: a miss refreshes a buffer,
so the order decides which transactions find their customer and product.
The engine therefore takes the drain order as a parameter. Every run property
holds for any order that lists each row of the segment map once
(`Segmenter.ValidOrder`). `Scenario.QueueOrderMatters` shows one segment whose
two orders write two facts and one fact.

Referential integrity has two parts. Every fact points at existing product,
customer, store and supplier rows. Its time row is guaranteed to exist
whenever some transaction with a non-NULL date carries its time id, because
the time table is filled from dated transactions (MeshJoinProcessor.java:352).
A transaction with a NULL date still emits a fact with its time id
(MeshJoinProcessor.java:202-204), and that time id has a row only if an
earlier insert put one there. `Warehouse.TimeLinked` states the guaranteed
part, and `Scenario.UndatedFactHasNoTimeRow` shows a fact left without a time
row.

## Model

| member | source | states |
|---|---|---|
| Segmenter.SegmentEnd | MeshJoinProcessor.java:113-130 | a segment read consumes at least one row (the do-while always takes the row under the cursor) and at most `limit` rows, and stops short of `limit` only at the end of the stream |
| Segmenter.SegmentMap | MeshJoinProcessor.java:113-130 | the segment map is keyed by order id, each entry filed under its own order id; its keys are exactly the order ids of the consumed rows, and it has at least one and at most as many entries as rows consumed |
| Segmenter.SegmentLastWriteWins | MeshJoinProcessor.java:125 | within a segment, an order id maps to the last consumed row that carries it |
| Segmenter.SegmentQueue | MeshJoinProcessor.java:72-73 | the work queue lists every value of the segment map exactly once, with no two entries sharing an order id, and is no longer than the segment |
| Segmenter.ReadTransactionSegment | MeshJoinProcessor.java:113-130 | the row-by-row read loop returns exactly the collapsed map of the consumed rows, and returns the index of the first row of the next segment: the row the outer `next()` at :70 lands on, since the `&&` at :127 skips `next()` once `limit` rows are taken |
| Keyed.LastWinsKeys | MeshJoinProcessor.java:125 | a collapsed map holds exactly the keys occurring in the rows, each under a row carrying that key, with no more entries than rows |
| Keyed.LastWinsLast | MeshJoinProcessor.java:125 | a row that no later row overrides is the value stored under its key |
| Keyed.LastWinsFrom | MeshJoinProcessor.java:143 | every value of a collapsed map is a row of the input that no later row overrides |
| Keyed.SurvivorsEnumerate | MeshJoinProcessor.java:73 | the rows that survive collapsing, in stream order, enumerate the collapsed map: each once, under its own key |
| Keyed.EnumeratesBound | MeshJoinProcessor.java:72-73 | a queue listing each value of a map once, under distinct keys, is no longer than the map |
| Segmenter.StreamOrderValid | MeshJoinProcessor.java:72-73 | taking each segment's surviving rows in stream order is a valid drain order: every segment's queue lists each row of its map once |
| Segmenter.QueuedIdInSegment | MeshJoinProcessor.java:72-73 | every row of a valid drain queue carries the order id of a row of its segment |
| Partition.Window | MeshJoinProcessor.java:134-137 | `LIMIT offset, limit` returns at most `limit` consecutive table rows starting at `offset`, and fewer only when the table ends |
| Partition.LoadPartition | MeshJoinProcessor.java:132-166 | a loaded partition has at most `limit` entries; its keys are exactly the ids of the table rows in `[offset, offset+limit)`; each entry is one of those rows, filed under its own id |
| Partition.Refresh | MeshJoinProcessor.java:80-82 | a refresh replaces the buffer by the partition at its offset and never merges with the old contents; it holds at most `limit` rows, an empty table gives an empty buffer, and the offset rotates |
| Partition.NextOffset | MeshJoinProcessor.java:81-82 | the new offset is `offset+limit`, or 0 once that reaches the row count; a non-zero offset is below the row count |
| Partition.EnsureBuffered | MeshJoinProcessor.java:79-90 | a buffer is refreshed only on a miss; on a hit its contents and its offset are unchanged |
| Partition.RefreshKeepsAligned | MeshJoinProcessor.java:81-82 | starting from a multiple of `limit`, the offset stays a multiple of `limit` and strictly below the row count of a non-empty table |
| Partition.EnsureBufferedKeepsInv | MeshJoinProcessor.java:79-90 | lookups keep each buffer aligned, within `limit` rows, and holding only table rows filed under their own ids |
| Partition.BufferedKeysInTable | MeshJoinProcessor.java:79-83 | an id that its table lacks is never found in the buffer, whatever the refreshes |
| Partition.RotateCycles | MeshJoinProcessor.java:81-82 | within one cycle (`t` up to the window count), `t` refreshes from window `j` reach window `j+t`, wrapping once past the last window, and a full cycle returns to the start |
| Partition.RotateForever | MeshJoinProcessor.java:81-82 | for every `t`, `t` refreshes from window `j` land on offset `((j+t) mod ⌈rowCount/limit⌉)·limit` |
| Partition.EveryRowIsVisited | MeshJoinProcessor.java:79-90 | within one cycle of refreshes from an aligned offset, every row of a non-empty table is loaded into the buffer at some refresh |
| Warehouse.InsertIfAbsent | MeshJoinProcessor.java:249-259 | check-then-insert: the key is present afterwards; an existing row is never overwritten; a new key adds exactly one row |
| Warehouse.InsertIfAbsentIdempotent | MeshJoinProcessor.java:249-259 | a second insert under the same key changes nothing, whatever row it carries |
| Warehouse.EnsureProductExists | MeshJoinProcessor.java:240-262 | the product row exists afterwards; it is inserted only when its id is absent; no other table and no other key changes |
| Warehouse.EnsureCustomerExists | MeshJoinProcessor.java:264-286 | the customer row exists afterwards; it is inserted only when its id is absent; no other table and no other key changes |
| Warehouse.EnsureStoreExists | MeshJoinProcessor.java:288-309 | the store row exists afterwards; it is inserted only when its id is absent; no other table and no other key changes |
| Warehouse.EnsureSupplierExists | MeshJoinProcessor.java:311-333 | the supplier row exists afterwards; it is inserted only when its id is absent; no other table and no other key changes |
| Warehouse.EnsureExistsIdempotent | MeshJoinProcessor.java:240-333 | calling each upsert twice with the same record is the same as calling it once |
| Warehouse.IntegrityKept | MeshJoinProcessor.java:194-198 | facts whose product, customer, store and supplier rows exist keep them as the dimension tables grow |
| Warehouse.TimeLinkedConcat | MeshJoinProcessor.java:232-238 | the flushed sales table keeps the time links of the rows written before and of the batch |
| TimeDimension.Quarter | MeshJoinProcessor.java:345-350 | the quarter is defined exactly for months 1 to 12, lies in 1..4, and is the quarter whose three-month range contains the month |
| TimeDimension.CollectFailsIffClash | MeshJoinProcessor.java:338-353 | the DISTINCT candidate rows fail to form a keyed table exactly when two of them share a time id but not a date |
| TimeDimension.CollectOk | MeshJoinProcessor.java:338-353 | the collected rows keep the accumulated ones, come only from candidates, and include the derived row of every candidate |
| TimeDimension.PopulateTimeTable | MeshJoinProcessor.java:335-360 | the insert fails only on a time-id key clash; otherwise existing rows are untouched, each new row is derived from a transaction with a non-NULL date and a time id that was absent, and every dated transaction's time id is present afterwards |
| TimeDimension.PopulateTimeIdempotent | MeshJoinProcessor.java:351-353 | re-running the insert after it succeeded inserts nothing |
| FactBatch.Append | MeshJoinProcessor.java:213-230 | adding a fact opens the statement if needed, grows the batch by exactly one fact at the end, and keeps the earlier facts |
| FactBatch.AppendAllPending | MeshJoinProcessor.java:213-230 | appending facts one by one leaves exactly those facts pending, in order, after the facts already pending |
| FactBatch.FlushTwiceIsFlushOnce | MeshJoinProcessor.java:232-238 | flushing with no statement open is a no-op, so a second flush writes nothing |
| FactBatch.Flush | MeshJoinProcessor.java:232-238 | executing the batch appends the pending facts to the sales table in append order and closes the statement; with none open it writes nothing |
| FactBatch.SegmentWrite | MeshJoinProcessor.java:213-238 | appending facts to a closed batch and flushing writes exactly those facts, in append order, and closes the batch |
| Resolver.LookupDetails | MeshJoinProcessor.java:184-192 | the store/supplier lookup finds a row exactly when the products table has a row with that id, and returns the first such row |
| Resolver.EnsureDimensions | MeshJoinProcessor.java:194-198 | after the four upserts the fact's product, customer, store and supplier rows exist, existing rows are unchanged, and the time and sales tables are untouched |
| Resolver.Resolve | MeshJoinProcessor.java:174-209 | an unresolvable transaction leaves batch and warehouse unchanged; a resolvable one fails exactly on a time-table key clash, otherwise adds exactly one fact and only grows dimension tables |
| Resolver.ResolveEmits | MeshJoinProcessor.java:202-204 | the emitted fact carries the transaction's order, quantity, customer, product and time ids, the looked-up store and supplier, and total = buffered price × quantity |
| Resolver.ResolveReferences | MeshJoinProcessor.java:194-204 | the emitted fact's product, customer, store and supplier rows are in the warehouse afterwards, and so is its time row when some dated transaction carries its time id |
| Resolver.ResolveUpserts | MeshJoinProcessor.java:194-199 | an existing product or customer row is left as it was, otherwise the buffered record is inserted, and every dated transaction's time id is present afterwards |
| Resolver.ResolveKeepsIntegrity | MeshJoinProcessor.java:174-209 | resolution keeps every pending and written fact, and the new one, pointing at existing product, customer, store and supplier rows |
| Resolver.ResolveKeepsTimeLinked | MeshJoinProcessor.java:174-209 | resolution keeps every pending and written fact, and the new one, pointing at an existing time row whenever a dated transaction carries its time id |
| MeshJoin.Step | MeshJoinProcessor.java:76-93 | one transaction: a buffer that holds its key is kept; dimension tables only grow; the sales table is untouched; the batch keeps its facts and gains at most one; a failure is a time-table key clash |
| MeshJoin.StepKeepsInv | MeshJoinProcessor.java:76-93 | a step keeps both buffers aligned, bounded and filed by id; every fact keeps pointing at existing product, customer, store and supplier rows, and at its time row when a dated transaction carries its time id |
| MeshJoin.StepEmits | MeshJoinProcessor.java:93 | a fact emitted by a step carries the transaction's ids and quantity |
| MeshJoin.StepFactFromSource | MeshJoinProcessor.java:179-204 | an emitted fact's customer is in the customers table, and its total is the price of a products-table row with that id times the quantity |
| MeshJoin.StepDropsUnknown | MeshJoinProcessor.java:179-182 | a transaction whose customer or product is absent from its source table is skipped without error, leaving batch and warehouse unchanged |
| MeshJoin.DrainKeepsWarehouse | MeshJoinProcessor.java:75-94 | draining a queue writes nothing to the sales table and only grows the dimension tables |
| MeshJoin.DrainFacts | MeshJoinProcessor.java:75-94 | draining keeps the facts already pending and adds at most one per queued transaction |
| MeshJoin.DrainOrderIds | MeshJoinProcessor.java:75-94 | each fact added while draining carries the order id of a queued transaction |
| MeshJoin.DrainDistinct | MeshJoinProcessor.java:75-94 | a queue with distinct order ids yields facts with distinct order ids |
| MeshJoin.ProcessSegment | MeshJoinProcessor.java:71-95 | a segment that completes, drained in any order, leaves no statement open: its facts are flushed once the queue drains |
| MeshJoin.SegmentFlushes | MeshJoinProcessor.java:95 | a segment's flush appends exactly the drained batch to the sales table and changes nothing else |
| MeshJoin.SegmentIsBatchWrite | MeshJoinProcessor.java:92-95 | what a segment writes is exactly the batch writer's append-all-then-flush of the facts its drain emitted, leaving the statement closed |
| MeshJoin.SegmentKeepsInv | MeshJoinProcessor.java:71-95 | processing a segment keeps the buffer invariant, the product, customer, store and supplier references of pending and written facts, and their time references where a dated transaction carries the time id |
| MeshJoin.SegmentWritesFacts | MeshJoinProcessor.java:71-95 | in any drain order, a segment keeps every sales row already written, only grows dimension tables, and writes at most one fact per row consumed |
| MeshJoin.SegmentFactIds | MeshJoinProcessor.java:71-95 | in any drain order, every fact a segment writes carries the order id of a row of that segment |
| MeshJoin.SegmentDistinct | MeshJoinProcessor.java:71-95 | in any drain order, no two facts written by one segment share an order id |
| MeshJoin.RunKeepsInv | MeshJoinProcessor.java:70-97 | the segment loop keeps the invariant and ends with no statement open, so no fact is left unflushed |
| MeshJoin.RunWrites | MeshJoinProcessor.java:70-97 | in any valid drain order, the segment loop keeps every row already written, only grows dimension tables, and writes at most one fact per transaction row |
| MeshJoin.LoadProperties | MeshJoinProcessor.java:52-99 | in any valid drain order, a whole run never loses a written fact or a dimension row, writes at most one fact per transaction, leaves every fact pointing at existing product, customer, store and supplier rows, and at its time row whenever a dated transaction carries its time id |
| Scenario.EndToEnd | MeshJoinProcessor.java:52-99 | one order of 3 units of a 950-cent product, on 2024-02-15, loads one product, customer, store, supplier and first-quarter time row, and one fact of 2850 cents |
| Scenario.QueueOrderMatters | MeshJoinProcessor.java:72-90 | one segment, two valid drain orders: in stream order the second customer's miss refreshes the buffer and both transactions resolve; in the other order that miss comes first and is dropped, so the segment writes one fact instead of two |
| Scenario.UndatedFactHasNoTimeRow | MeshJoinProcessor.java:199-204 | a transaction with a NULL date still emits a fact carrying its time id, but the time table gains no row for it |

## Left out

- `main` (console prompts, connection URLs, `DriverManager`) is I/O only and is not modelled.
- JDBC cursor mechanics are not modelled: the scrollable result set, `getRow()`, the unused `totalTransactions`, and the `getRow() % limit` loop condition. For a positive `limit` that condition never repeats the inner loop's body, so the model reads the stream as successive chunks from a cursor index.
- `getRowCount` is not modelled as a query. The row count is the length of the table sequence, and the source tables do not change during a run.
- `double` prices are modelled as integer cents, so the model has no floating-point rounding in `TOTAL_SALES`.
- Day, month and year are fields of the date, not MySQL calendar functions. The `WEEK(…, 1)` column (ISO 8601 week numbering) is not modelled.
- `insertSales` is not modelled: nothing calls it.
- `getTimeIdFromTransaction` is not modelled: it only returns the transaction's field.
- Concurrency between check and insert is not modelled, because the program is a single writer.
- Integer columns are unbounded: 32-bit overflow of `int` ids, offsets or quantities is not modelled.
- The iteration order of `HashMap.values()` is not computed: the model does not reproduce Java's bucket order. `Run` and `Load` take the drain order as a parameter, and the properties are proved for every valid order.
- SQL exceptions other than a time-table primary-key clash are not modelled: connection loss, a constraint on `sales`, and a failed product-id lookup. The model assumes `TIME_ID` is the time table's key.
- MeshJoin.Run takes any partition size and `Load` fixes it at `PARTITION_SIZE` (200). A size of 0, which would make the source divide by zero in its loop condition, is not rejected by the model; with 0 each segment reads one row.
- Resolver.ResolveReferences: requires that the buffers file each row under its own id. This holds for the buffers the engine builds (`BufferKeyed`), but a caller passing arbitrary maps gets no guarantee.
- Resolver.ResolveUpserts: requires the same buffer keying as `ResolveReferences`.
- Warehouse.References: covers the product, customer, store and supplier columns only. The time column is covered by `Warehouse.TimeLinked`, which promises a time row only for a time id that some dated transaction carries. A fact from a transaction with a NULL date can point at no time row.
- The time-table insert names its tables by database, `datawarehouse.timee` and `datasource.transactions` (MeshJoinProcessor.java:337, 351, 353), while every other query uses the databases named at the prompt (MeshJoinProcessor.java:24-28, 37-38). The model assumes the two coincide: the insert reads the streamed transactions and writes the warehouse's time table. With other database names the source reads and writes different tables, and `Resolver.Resolve`, `TimeDimension.PopulateTimeTable` and the time-link properties do not describe it.
- The partition queries `SELECT * FROM customers/products LIMIT ?, ?` have no ORDER BY (MeshJoinProcessor.java:134, 152). The model assumes successive pages slice one stable row order, the table sequence. `Partition.Window` and `Partition.EveryRowIsVisited` rest on that assumption; SQL does not promise it.
- MeshJoin.Load: a failed run returns only the fault, with no warehouse. In the source the connection autocommits (no `setAutoCommit` call), so when the time-table insert throws (MeshJoinProcessor.java:199), the four dimension upserts of the failing transaction (MeshJoinProcessor.java:195-198) and every earlier segment's flushed facts stay in the warehouse. The model does not state what a failed run leaves behind.
- The integer columns `ORDER_ID`, `PRODUCT_ID`, `QUANTITY`, `CUSTOMER_ID` and `TIME_ID` of `transactions` are assumed non-NULL; only `ORDER_DATE` is nullable in the model. The source reads them with `getInt` (MeshJoinProcessor.java:118-123), which turns a NULL into 0, while the time-table insert (MeshJoinProcessor.java:337-353) sees the raw NULL. For a dated row with a NULL `TIME_ID` the source writes a fact with time id 0 and inserts no time row for it, whereas `Records.Transaction` has one `timeId` for both readings, so `Warehouse.TimeLinked` does not describe such a row.
- MeshJoin.LoadProperties: the time part of its integrity clause is `TimeLinked`, for the reason above, and it requires the warehouse's earlier facts to satisfy both parts.
