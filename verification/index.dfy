/** The secondary index: a column name together with a mapping from each
    value seen in that column to the row positions holding it, in the order
    the positions were added. */
module Indexes {

  /** A row position. `src/index.rs` stores `usize`; no arithmetic is ever
      done on a position (it is only stored, compared and used to index the
      rows), so `nat` loses nothing: a `nat` above the `usize` range is past
      the end of every table and fails exactly as a large `usize` would. */
  type RowPos = nat

  /** Equality of `Index` values is structural, as the derived `PartialEq`
      of `Index` in `src/index.rs`: same column name, same key set, same sequence per key. */
  datatype Index = Index(columnName: string, entries: map<string, seq<RowPos>>)

  /** The positions recorded under `value`, or none when it is not a key. */
  function Positions(ix: Index, value: string): seq<RowPos> {
    if value in ix.entries then ix.entries[value] else []
  }

  /** An index on `columnName` that holds no entries yet. */
  function New(columnName: string): (ix: Index)
    ensures ix.columnName == columnName
    ensures ix.entries.Keys == {}
    ensures forall v :: Positions(ix, v) == []
  {
    Index(columnName, map[])
  }

  /** Appends `rowIndex` to the sequence kept under `value`, first creating
      an empty sequence when `value` is new. Nothing is deduplicated. */
  function AddEntry(ix: Index, value: string, rowIndex: RowPos): (r: Index)
    ensures r.columnName == ix.columnName
    ensures r.entries.Keys == ix.entries.Keys + {value}
    ensures value !in ix.entries ==> r.entries[value] == [rowIndex]
    ensures value in ix.entries ==> r.entries[value] == ix.entries[value] + [rowIndex]
    ensures |r.entries[value]| == |Positions(ix, value)| + 1
    ensures forall k :: k in ix.entries && k != value ==> r.entries[k] == ix.entries[k]
  {
    var prior := if value in ix.entries then ix.entries[value] else [];
    ix.(entries := ix.entries[value := prior + [rowIndex]])
  }

  /** Seen through `Positions`, adding an entry extends exactly one
      sequence by exactly one position, at its end. */
  lemma AddEntryPositions(ix: Index, value: string, rowIndex: RowPos, w: string)
    ensures Positions(AddEntry(ix, value, rowIndex), w)
         == Positions(ix, w) + (if w == value then [rowIndex] else [])
  {
  }

  /** Two indexes are equal exactly when their column names agree, their
      key sets agree, and every key carries the same sequence in the same
      order. */
  lemma IndexEquality(a: Index, b: Index)
    ensures a == b <==>
              && a.columnName == b.columnName
              && a.entries.Keys == b.entries.Keys
              && forall k :: k in a.entries ==> a.entries[k] == b.entries[k]
  {
  }
}
