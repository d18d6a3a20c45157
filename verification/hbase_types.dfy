/** The Thrift records the client builds and reads (index.go), reduced to
    the fields it touches. Go strings and byte slices are both `Bytes`. */
module HBaseTypes {
  import opened Wrappers
  import opened RowKeys

  /** TColumnValue: one (family, qualifier, value) cell. */
  datatype ColumnValue = ColumnValue(family: Bytes, qualifier: Bytes, value: Bytes)

  /** TGet: a point read of one row. */
  datatype TGet = TGet(row: Bytes)

  /** TResult_: a returned row; its key may be nil. */
  datatype TResult = TResult(row: Option<Bytes>, columnValues: seq<ColumnValue>)

  /** TPut: a write of the given cells under one row. */
  datatype TPut = TPut(row: Bytes, columnValues: seq<ColumnValue>)
}
