/** The concrete `users` table of the unit tests, and the results those
    tests expect of each operation on it. */
module UsersScenario {
  import opened Outcomes
  import opened Indexes
  import opened Tables
  import Lookup

  const UserColumns: seq<Column> := [Column("id", "int"), Column("name", "string")]
  const AliceRow: Row := ["1", "Alice"]
  const BobRow: Row := ["2", "Bob"]

  /** The two-row table shared by the select and index tests. */
  function Users(): Table {
    Table("users", UserColumns, [AliceRow, BobRow])
  }

  lemma NameIsSecondColumn()
    ensures ColumnPosition(UserColumns, "name") == Some(1)
    ensures ColumnPosition(UserColumns, "id") == Some(0)
  {
  }

  /** Inserting one row into the empty `users` table stores exactly it. */
  lemma InsertIntoEmpty()
    ensures var t := Insert(Table("users", UserColumns, []), AliceRow);
            |t.rows| == 1 && t.rows[0] == ["1", "Alice"]
  {
  }

  /** The `name` index maps "Alice" to row 0 and "Bob" to row 1. */
  lemma CreateNameIndex()
    ensures CreateIndex(Users(), "name") == Ok(NameIndex)
  {
    NameIsSecondColumn();
    var rows := Users().rows;
    assert rows[..1] == [AliceRow];
    assert rows[..1][..0] == [];
  }

  const NameIndex: Index := Index("name", map["Alice" := [0], "Bob" := [1]])

  /** Looking "Alice" up through the `name` index finds the first row only. */
  lemma SelectAliceWithIndex()
    ensures SelectWithIndex(Users(), CreateIndex(Users(), "name").value, "Alice") == Ok([["1", "Alice"]])
  {
    CreateNameIndex();
    AliceInNameIndex();
  }

  lemma AliceInNameIndex()
    ensures SelectWithIndex(Users(), NameIndex, "Alice") == Ok([AliceRow])
  {
    assert NameIndex.entries["Alice"] == [0];
    assert RowsAt(Users().rows, [0]) == [AliceRow];
  }

  /** Scanning `name` for "Alice" finds the first row only. */
  lemma SelectAlice()
    ensures Select(Users(), "name", "Alice") == Ok([["1", "Alice"]])
  {
    SelectAliceWithIndex();
    CreateNameIndex();
    Lookup.IndexedSelectAgreesWithScan(Users(), "name", "Alice");
  }

  const IdIndex: Index := Index("id", map["1" := [0], "2" := [1]])

  /** The `id` index maps "1" to row 0 and "2" to row 1. */
  lemma CreateIdIndex()
    ensures CreateIndex(Users(), "id") == Ok(IdIndex)
  {
    NameIsSecondColumn();
    var rows := Users().rows;
    assert rows == [AliceRow, BobRow];
    assert rows[..1] == [AliceRow];
    assert rows[..1][..0] == [];
  }

  /** An index built on `id` but consulted for a name silently answers
      nothing, where the scan on `name` finds Alice. */
  lemma MismatchedIndexMissesAlice()
    ensures CreateIndex(Users(), "id").Ok?
    ensures SelectWithIndex(Users(), CreateIndex(Users(), "id").value, "Alice") == Ok([])
    ensures Select(Users(), "name", "Alice") != Ok([])
  {
    CreateIdIndex();
    AliceNotInIdIndex();
    SelectAlice();
  }

  lemma AliceNotInIdIndex()
    ensures SelectWithIndex(Users(), IdIndex, "Alice") == Ok([])
  {
    assert "Alice" !in IdIndex.entries;
  }
}
