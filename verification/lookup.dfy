/** How the two lookups of a table relate: the index-backed lookup through a
    freshly built index answers exactly as the linear scan, and both evolve
    in step with `Insert`. */
module Lookup {
  import opened Outcomes
  import opened Indexes
  import opened Tables

  /** The central property: looking `v` up through `CreateIndex(t, c)`
      gives the same rows, in the same order, as scanning column `c` for
      `v`; when the index cannot be built, the scan fails the same way. */
  lemma IndexedSelectAgreesWithScan(t: Table, c: string, v: string)
    ensures match CreateIndex(t, c)
            case Ok(ix) => SelectWithIndex(t, ix, v) == Select(t, c, v)
            case Err(e) => Select(t, c, v) == Err(e)
  {
    match ColumnPosition(t.columns, c)
    case None =>
    case Some(p) =>
      if FieldsPresent(t.rows, p) {
        var ix := BuildIndex(t.rows, p, c);
        assert Positions(ix, v) == MatchingPositions(t.rows, p, v);
      }
  }

  /** A scan comes back empty exactly when no row holds `v` in the column. */
  lemma SelectEmptyIffAbsent(t: Table, c: string, v: string)
    requires Select(t, c, v).Ok?
    ensures HasColumn(t.columns, c)
    ensures var p := ColumnPosition(t.columns, c).value;
            FieldsPresent(t.rows, p)
            && (Select(t, c, v).value == [] <==> v !in ColumnValues(t.rows, p))
  {
    var p := ColumnPosition(t.columns, c).value;
    var ps := MatchingPositions(t.rows, p, v);
    if v in ColumnValues(t.rows, p) {
      var i :| 0 <= i < |t.rows| && t.rows[i][p] == v;
      assert i in ps;
    }
    if |ps| > 0 {
      var i := ps[0];
      assert 0 <= i < |t.rows| && t.rows[i][p] == v;
      assert v in ColumnValues(t.rows, p);
    }
  }

  /** Building an index on a table without rows gives an empty mapping. */
  lemma CreateIndexOnEmptyTable(t: Table, c: string)
    requires t.rows == [] && HasColumn(t.columns, c)
    ensures CreateIndex(t, c) == Ok(New(c))
  {
  }

  /** After an insert the scan returns its previous answer, followed by the
      new row when that row matches; a new row too short for the column
      makes the scan fail. */
  lemma SelectAfterInsert(t: Table, row: Row, c: string, v: string)
    requires Select(t, c, v).Ok?
    ensures var p := ColumnPosition(t.columns, c).value;
            Select(Insert(t, row), c, v)
              == if p < |row| then Ok(Select(t, c, v).value + (if row[p] == v then [row] else []))
                 else Err(MissingField)
  {
  }

  /** Building the index after an insert equals adding the new row's entry
      to the index built before it: the index is the in-order fold of
      `AddEntry` over the rows. */
  lemma CreateIndexAfterInsert(t: Table, row: Row, c: string)
    requires CreateIndex(t, c).Ok?
    requires ColumnPosition(t.columns, c).value < |row|
    ensures var p := ColumnPosition(t.columns, c).value;
            CreateIndex(Insert(t, row), c) == Ok(AddEntry(CreateIndex(t, c).value, row[p], |t.rows|))
  {
    var p := ColumnPosition(t.columns, c).value;
    var t' := Insert(t, row);
    assert FieldsPresent(t'.rows, p);
    assert t'.rows[..|t.rows|] == t.rows;
  }

  /** An index is a snapshot: once rows are inserted after it was built, it
      still answers with the rows the table had at build time, and misses
      every inserted row. */
  lemma StaleIndexAnswersForSnapshot(t: Table, row: Row, c: string, v: string)
    requires CreateIndex(t, c).Ok?
    ensures SelectWithIndex(Insert(t, row), CreateIndex(t, c).value, v) == Select(t, c, v)
  {
    IndexedSelectAgreesWithScan(t, c, v);
    var ix := CreateIndex(t, c).value;
    var t' := Insert(t, row);
    var ps := Positions(ix, v);
    if v in ix.entries {
      RowsAtAppend(t.rows, [row], ps);
    }
  }

  /** The index-backed lookup never reads the index's column name: an index
      relabelled with any other column answers identically. */
  lemma SelectWithIndexIgnoresColumnName(t: Table, ix: Index, name: string, v: string)
    ensures SelectWithIndex(t, ix.(columnName := name), v) == SelectWithIndex(t, ix, v)
  {
  }
}
