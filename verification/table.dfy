/** The table: column metadata plus rows of text fields, with the linear
    equality scan, the index builder and the index-backed lookup. */
module Tables {
  import opened Outcomes
  import opened Indexes

  /** `dtype` is a free-form label that nothing checks against the rows. */
  datatype Column = Column(name: string, dtype: string)

  type Row = seq<string>

  datatype Table = Table(name: string, columns: seq<Column>, rows: seq<Row>)

  // ---------------------------------------------------------------------
  // Column resolution
  // ---------------------------------------------------------------------

  /** Whether some column is called `name`. */
  predicate HasColumn(columns: seq<Column>, name: string) {
    exists j :: 0 <= j < |columns| && columns[j].name == name
  }

  /** The position of the FIRST column called `name`, as
      `columns.iter().position(|c| c.name == name)` finds it. */
  function ColumnPosition(columns: seq<Column>, name: string): (r: Option<nat>)
    ensures r.None? <==> !HasColumn(columns, name)
    ensures r.Some? ==> r.value < |columns| && columns[r.value].name == name
    ensures r.Some? ==> forall j :: 0 <= j < r.value ==> columns[j].name != name
  {
    if |columns| == 0 then None
    else if columns[0].name == name then Some(0)
    else
      match ColumnPosition(columns[1..], name)
      case None => None
      case Some(j) => Some(j + 1)
  }

  // ---------------------------------------------------------------------
  // Reference definitions over a column position
  // ---------------------------------------------------------------------

  /** Every row has a field at position `p`, so `row[p]` cannot panic. */
  predicate FieldsPresent(rows: seq<Row>, p: nat) {
    forall i :: 0 <= i < |rows| ==> p < |rows[i]|
  }

  /** The distinct values of column position `p`. */
  function ColumnValues(rows: seq<Row>, p: nat): set<string>
    requires FieldsPresent(rows, p)
  {
    set i | 0 <= i < |rows| :: rows[i][p]
  }

  /** The positions of the rows whose field `p` equals `v`, scanned in row
      order. */
  function MatchingPositions(rows: seq<Row>, p: nat, v: string): (ps: seq<RowPos>)
    requires FieldsPresent(rows, p)
    ensures forall k :: 0 <= k < |ps| ==> ps[k] < |rows| && rows[ps[k]][p] == v
    ensures forall i :: 0 <= i < |rows| && rows[i][p] == v ==> i in ps
    ensures forall k, l :: 0 <= k < l < |ps| ==> ps[k] < ps[l]
    decreases |rows|
  {
    if |rows| == 0 then []
    else
      var last := |rows| - 1;
      MatchingPositions(rows[..last], p, v) + (if rows[last][p] == v then [last] else [])
  }

  /** Every position in `ps` names a row of `rows`. */
  predicate PositionsInRange(rows: seq<Row>, ps: seq<RowPos>) {
    forall k :: 0 <= k < |ps| ==> ps[k] < |rows|
  }

  /** The rows at the positions `ps`, in the order of `ps`. */
  function RowsAt(rows: seq<Row>, ps: seq<RowPos>): seq<Row>
    requires PositionsInRange(rows, ps)
  {
    seq(|ps|, k requires 0 <= k < |ps| => rows[ps[k]])
  }

  // ---------------------------------------------------------------------
  // Operations
  // ---------------------------------------------------------------------

  /** Appends `row` unconditionally: no check of its arity against the
      columns. */
  function Insert(t: Table, row: Row): (r: Table)
    ensures r.name == t.name && r.columns == t.columns
    ensures |r.rows| == |t.rows| + 1
    ensures r.rows[..|t.rows|] == t.rows
    ensures r.rows[|t.rows|] == row
  {
    t.(rows := t.rows + [row])
  }

  /** The rows whose field `p` equals `v`, in row order (the body of the
      `filter(...).collect()` scan once the column is resolved). */
  function Filter(rows: seq<Row>, p: nat, v: string): (r: seq<Row>)
    requires FieldsPresent(rows, p)
    ensures r == RowsAt(rows, MatchingPositions(rows, p, v))
    decreases |rows|
  {
    if |rows| == 0 then []
    else
      var last := |rows| - 1;
      var front := Filter(rows[..last], p, v);
      RowsAtExtend(rows, MatchingPositions(rows[..last], p, v), last, rows[last][p] == v);
      front + (if rows[last][p] == v then [rows[last]] else [])
  }

  /** Linear equality scan on the column called `c`. Fails with
      `ColumnNotFound` when no column has that name (the `unwrap`) and with
      `MissingField` when some row is too short (the `row[column_index]`). */
  function Select(t: Table, c: string, v: string): (r: Result<seq<Row>>)
    ensures !HasColumn(t.columns, c) ==> r == Err(ColumnNotFound)
    ensures HasColumn(t.columns, c) ==>
              var p := ColumnPosition(t.columns, c).value;
              && (FieldsPresent(t.rows, p) ==> r == Ok(RowsAt(t.rows, MatchingPositions(t.rows, p, v))))
              && (!FieldsPresent(t.rows, p) ==> r == Err(MissingField))
  {
    match ColumnPosition(t.columns, c)
    case None => Err(ColumnNotFound)
    case Some(p) =>
      if FieldsPresent(t.rows, p) then Ok(Filter(t.rows, p, v)) else Err(MissingField)
  }

  /** The fold of `create_index`: starting from an empty index named
      `name`, adds each row's field `p` under its position, in row order. */
  function BuildIndex(rows: seq<Row>, p: nat, name: string): (ix: Index)
    requires FieldsPresent(rows, p)
    ensures ix.columnName == name
    ensures ix.entries.Keys == ColumnValues(rows, p)
    ensures forall v :: Positions(ix, v) == MatchingPositions(rows, p, v)
    decreases |rows|
  {
    if |rows| == 0 then New(name)
    else
      var last := |rows| - 1;
      var front := BuildIndex(rows[..last], p, name);
      var ix := AddEntry(front, rows[last][p], last);
      assert ColumnValues(rows, p) == ColumnValues(rows[..last], p) + {rows[last][p]} by {
        ColumnValuesExtend(rows, p);
      }
      assert forall v :: Positions(ix, v) == MatchingPositions(rows, p, v) by {
        forall v ensures Positions(ix, v) == MatchingPositions(rows, p, v) {
          AddEntryPositions(front, rows[last][p], last, v);
        }
      }
      ix
  }

  /** Builds an index on the column called `c`. Fails like `Select` when the
      column is absent (the `expect`) or some row is too short. */
  function CreateIndex(t: Table, c: string): (r: Result<Index>)
    ensures r.Ok? <==> HasColumn(t.columns, c) && FieldsPresent(t.rows, ColumnPosition(t.columns, c).value)
    ensures !HasColumn(t.columns, c) ==> r == Err(ColumnNotFound)
    ensures r.Ok? ==>
              var p := ColumnPosition(t.columns, c).value;
              && r.value.columnName == c
              && r.value.entries.Keys == ColumnValues(t.rows, p)
              && forall v :: v in r.value.entries ==> r.value.entries[v] == MatchingPositions(t.rows, p, v)
  {
    match ColumnPosition(t.columns, c)
    case None => Err(ColumnNotFound)
    case Some(p) =>
      if FieldsPresent(t.rows, p) then
        var ix := BuildIndex(t.rows, p, c);
        assert forall v :: v in ix.entries ==> ix.entries[v] == MatchingPositions(t.rows, p, v) by {
          forall v | v in ix.entries ensures ix.entries[v] == MatchingPositions(t.rows, p, v) {
            assert Positions(ix, v) == MatchingPositions(t.rows, p, v);
          }
        }
        Ok(ix)
      else Err(MissingField)
  }

  /** Looks `v` up in the index and maps the stored positions back to rows.
      An absent value gives no rows; a stored position past the end of the
      table fails with `RowOutOfRange` (the `self.rows[i]`). The index's
      column name is never consulted. */
  function SelectWithIndex(t: Table, ix: Index, v: string): (r: Result<seq<Row>>)
    ensures v !in ix.entries ==> r == Ok([])
    ensures r.Ok? <==> PositionsInRange(t.rows, Positions(ix, v))
    ensures r.Ok? ==> |r.value| == |Positions(ix, v)|
    ensures r.Ok? ==> forall k :: 0 <= k < |r.value| ==> r.value[k] == t.rows[Positions(ix, v)[k]]
  {
    if v in ix.entries then
      var ps := ix.entries[v];
      if PositionsInRange(t.rows, ps) then Ok(RowsAt(t.rows, ps)) else Err(RowOutOfRange)
    else Ok([])
  }

  // ---------------------------------------------------------------------
  // Helpers
  // ---------------------------------------------------------------------

  /** The values of a column grow by the last row's value. */
  lemma ColumnValuesExtend(rows: seq<Row>, p: nat)
    requires |rows| > 0 && FieldsPresent(rows, p)
    ensures ColumnValues(rows, p) == ColumnValues(rows[..|rows| - 1], p) + {rows[|rows| - 1][p]}
  {
  }

  /** Rows appended after a set of positions do not change the rows found
      at those positions. */
  lemma RowsAtAppend(rows: seq<Row>, extra: seq<Row>, ps: seq<RowPos>)
    requires PositionsInRange(rows, ps)
    ensures PositionsInRange(rows + extra, ps)
    ensures RowsAt(rows + extra, ps) == RowsAt(rows, ps)
  {
  }

  /** Mapping positions below `n` over `rows` reads only the first `n`
      rows; a final position `n` contributes `rows[n]`. */
  lemma RowsAtExtend(rows: seq<Row>, ps: seq<RowPos>, n: nat, add: bool)
    requires n < |rows|
    requires forall k :: 0 <= k < |ps| ==> ps[k] < n
    ensures RowsAt(rows, ps + (if add then [n] else []))
         == RowsAt(rows[..n], ps) + (if add then [rows[n]] else [])
  {
  }
}
