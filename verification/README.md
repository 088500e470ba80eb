# Secondary index of a small in-memory table store

This project models the indexing core of a small Rust tabular store. A
`Table` holds named columns and rows of text fields. It answers an
equality lookup on one column in two ways: by scanning every row
(`select`), or through an `Index` built from the table (`create_index`,
then `select_with_index`). The `Index` maps each value of the column to
the positions of the rows that hold it.

Layout:

- `outcomes.dfy` (`Outcomes`): `Option`, and `Result` with the error kinds.
  Every panic site of the Rust store (`unwrap`/`expect` on the column lookup,
  `row[column_index]`, `self.rows[i]`) becomes an `Err` here, so the model
  states exactly which inputs fail.
- `index.dfy` (`Indexes`): the `Index` value, `New` and `AddEntry`
  (`src/index.rs`).
- `table.dfy` (`Tables`): `Column`, `Table`, first-match column resolution,
  `Insert`, the scan `Select`, the fold `BuildIndex` behind `CreateIndex`,
  and `SelectWithIndex` (`src/table.rs`). `MatchingPositions` is the
  reference definition: the ascending positions of the rows whose field
  equals a value. Both the scan and the index are characterised against it.
- `lookup.dfy` (`Lookup`): lemmas relating the operations. The main one
  says that a lookup through a freshly built index equals the scan.
- `scenarios.dfy` (`UsersScenario`): the two-row `users` table of the unit
  tests and the results those tests expect.

`src/main.rs` lines 7-102 declare `Index`, `Column` and `Table` a second
time. The text matches `src/index.rs` and `src/table.rs` apart from
visibility, so one definition models both copies. The rows below cite the
module files for operations and `src/main.rs` for the unit tests.

A collection of rows comes back as row values. The Rust store returns
references to rows, but nothing in the core tells the two apart.

## Model

| member | source | states |
|---|---|---|
| `Indexes.New` | src/index.rs:13-18 | a new index carries the given column name and has no keys, so every lookup in it finds no positions |
| `Indexes.AddEntry` | src/index.rs:20-25 | the key set becomes the old keys plus `value`; a new key maps to `[rowIndex]`; an existing key keeps its old sequence with `rowIndex` appended last; that sequence grows by exactly one (no deduplication); the column name and every other key's sequence are unchanged |
| `Indexes.AddEntryPositions` | src/index.rs:21-24 | seen through a lookup, adding an entry extends the looked-up sequence by `rowIndex` at its end when the key is `value`, and leaves it as it was otherwise |
| `Indexes.IndexEquality` | src/index.rs:6-10 | two indexes are equal exactly when their column names, their key sets, and each key's sequence (in order) are equal |
| `Tables.ColumnPosition` | src/table.rs:25-29 | there is no position exactly when no column has the name; otherwise the position holds a column with that name and no earlier column has it (first match) |
| `Tables.MatchingPositions` | src/table.rs:30-33 | the positions are in range, each names a row whose field equals the value, every such row is listed, and they are strictly ascending (row order, no duplicates) |
| `Tables.Insert` | src/table.rs:21-23 | the row is appended after the existing rows, which are unchanged; name and columns are unchanged; arity is not checked |
| `Tables.Filter` | src/table.rs:30-33 | the in-order filter yields exactly the rows at the matching positions, in row order |
| `Tables.Select` | src/table.rs:24-34 | with no column of that name the scan fails with `ColumnNotFound`; with a row too short for the first matching column it fails with `MissingField`; otherwise it returns the rows at the matching positions of that column, in row order |
| `Tables.BuildIndex` | src/table.rs:53-59 | folding `AddEntry` over the rows in order gives an index with the requested column name, whose keys are exactly the distinct values of the column and whose lookup of any value is its matching positions |
| `Tables.CreateIndex` | src/table.rs:47-60 | the build succeeds exactly when the column exists and every row has a field there; it fails with `ColumnNotFound` when the column is missing; on success the index names the column, its keys are the column's distinct values, and each key maps to the strictly ascending positions of all rows holding it |
| `Tables.SelectWithIndex` | src/table.rs:61-67 | a value that is not a key gives no rows; the lookup fails exactly when a stored position is past the last row; otherwise it returns the row at each stored position, in stored order |
| `Lookup.IndexedSelectAgreesWithScan` | src/table.rs:24-67 | for every table, column and value, looking up through `CreateIndex(t, c)` returns the same rows in the same order as `Select(t, c, v)`; when the index cannot be built the scan fails with the same error |
| `Lookup.SelectEmptyIffAbsent` | src/table.rs:30-33 | a successful scan is empty exactly when the value does not occur in the column |
| `Lookup.CreateIndexOnEmptyTable` | src/table.rs:53-59 | on a table with no rows, the index built on an existing column is the empty index |
| `Lookup.SelectAfterInsert` | src/table.rs:21-34 | after an insert the scan returns its earlier result followed by the new row when it matches; a new row too short for the column makes the scan fail |
| `Lookup.CreateIndexAfterInsert` | src/table.rs:53-59 | the index of a table with one more row is the earlier index with one `AddEntry` for the new row at position equal to the old row count |
| `Lookup.StaleIndexAnswersForSnapshot` | src/table.rs:61-67 | an index built before an insert still answers with the pre-insert scan result: it never sees rows inserted after it was built |
| `Lookup.SelectWithIndexIgnoresColumnName` | src/table.rs:61-67 | the index-backed lookup does not read the index's column name: relabelling the index does not change any answer |
| `UsersScenario.InsertIntoEmpty` | src/main.rs:174-176 | inserting `["1","Alice"]` into the empty `users` table gives one row, equal to `["1","Alice"]` |
| `UsersScenario.SelectAlice` | src/main.rs:199-201 | scanning `name` for "Alice" on the two-row table returns exactly `[["1","Alice"]]` |
| `UsersScenario.CreateNameIndex` | src/main.rs:224-226 | the `name` index on the two-row table is `{"Alice": [0], "Bob": [1]}`, so it holds "Alice" with positions `[0]` |
| `UsersScenario.SelectAliceWithIndex` | src/main.rs:249-252 | looking "Alice" up through the `name` index returns exactly `[["1","Alice"]]` |
| `UsersScenario.MismatchedIndexMissesAlice` | src/table.rs:61-67 | an index built on `id` and used to look up "Alice" silently returns no rows, while the scan on `name` finds one |

## Left out

- `save_to_file` / `load_from_file` of `Index` and `Table` (src/index.rs:26-37, src/table.rs:35-46, src/main.rs:27-38 and 69-80): file-system I/O plus JSON encoding by an external library whose format is not visible. The save/load unit test (src/main.rs:255-280) depends on both and is not modelled.
- The `main` driver (src/main.rs:104-151): it fills a million rows, times both lookups and prints the results. This is benchmarking output with clocks and I/O.
- Integer width: row positions are `usize` in `src/index.rs` and `nat` here. No arithmetic is done on positions: they are stored, compared and used as indices, and the enumeration in `create_index` never goes past the row count. A `nat` above the `usize` range is past the end of every table, so `SelectWithIndex` gives it the same `RowOutOfRange` error as a large `usize`.
- Ordering of the index's keys: `src/index.rs` keeps them in a sorted map, which only affects serialisation order and lookup cost. The model uses a Dafny `map`.
- Panics are modelled as `Err` values. The Rust store aborts instead, and in `create_index` it does so after adding the entries of the rows before the short one. Those partial entries are never observable, so the model does not represent them.
- `Column.dtype` is carried as an unchecked label, as in `src/table.rs`.
