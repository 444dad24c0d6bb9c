/** A CSV file read by pandas: its columns by name. */
module Tables {
  type Table<T> = map<string, seq<T>>

  /** A data frame: every column has the same number of rows. */
  predicate Rectangular<T>(table: Table<T>)
  {
    forall a, b :: a in table && b in table ==> |table[a]| == |table[b]|
  }
}
