/** The value records the engine reads from the source database and writes
    to the warehouse (the `Transaction`, `Customer` and `Product` classes of
    MeshJoinProcessor.java, and the rows of the warehouse tables). Every
    record is immutable. */
module Records {
  import opened Results

  /** Number of rows read per transaction segment and per dimension
      partition (`PARTITION_SIZE`). */
  const PartitionSize: nat := 200

  /** A calendar date as the database returns it. */
  datatype Date = Date(year: int, month: int, day: int)

  /** One row of the source `transactions` table. `orderDate` is `None`
      when the column is NULL; the integer columns are taken to be non-NULL,
      so one value serves both `getInt` and the time-table insert. */
  datatype Transaction = Transaction(
    orderId: int,
    orderDate: Option<Date>,
    productId: int,
    quantity: int,
    customerId: int,
    timeId: int)

  datatype Customer = Customer(customerId: int, name: string, gender: string)

  /** A product as buffered in memory; `price` is in cents. */
  datatype Product = Product(productId: int, name: string, price: int)

  /** One row of the source `products` table: the product itself plus the
      store and supplier columns that are looked up per transaction. */
  datatype ProductRow = ProductRow(
    product: Product,
    storeId: int,
    storeName: string,
    supplierId: int,
    supplierName: string)

  /** One row of the warehouse `sales` fact table; `totalSales` in cents. */
  datatype SalesFact = SalesFact(
    orderId: int,
    quantity: int,
    customerId: int,
    productId: int,
    storeId: int,
    supplierId: int,
    totalSales: int,
    timeId: int)

  /** One row of the warehouse time table. `quarter` is `None` when no
      month range matches (the SQL CASE yields NULL). */
  datatype TimeRow = TimeRow(
    timeId: int,
    orderDate: Date,
    day: int,
    month: int,
    year: int,
    quarter: Option<int>)

  /** The fatal errors the model can raise: inserting two different time
      rows under the same `TIME_ID` violates that table's primary key. */
  datatype Fault = DuplicateTimeKey(timeId: int)

  function OrderKey(t: Transaction): int { t.orderId }

  function CustomerKey(c: Customer): int { c.customerId }

  function ProductKey(p: Product): int { p.productId }
}
