# RowList: a verified functional model of the grid's row collection

This project models the row collection of the grid, `src/js/data/rowList.js`, in Dafny.
The collection is the grid's data source: an ordered list of rows, each with
- a stable row key (`rowKey`),
- column values,
- a checked flag (`_button`),
- and an `_extraData` block carrying per-column row-span metadata
  `{count, isMainRow, mainRowKey}`.

The model is functional. The collection is a `seq<Row>`, and every mutation returns a new
collection or `TypeError` where the JavaScript would dereference a missing row.

Modules, following the structure of the source:

- `Wrappers`, `Values`: `Option`/`Result`, and JSON-like values with structural equality (`Blank` is `''`).
- `Rows`: the row entity; `_baseFormat`, `_createRowKey`, the JSON view of a row (`toJSON`), and Backbone `get`/`indexOf`/`add`/`remove` as `Find`/`Insert`/`Delete`.
- `Sorting`: the sort options, `setSortOptionValues`, `sortByField`, `isSortedByField`, `isRowSpanEnable` and `comparator`.
- `Blocks`: the row-span invariant.
  - A main row holds the block size.
  - Each of the following `count - 1` rows holds its negative distance to the main row and the main row's key.
  - The module also provides the splice lemmas used to show that mutations keep the invariant.
- `Propagator`:
  - `_formatData`, `_setExtraRowSpanData` and `_updateSubRowSpanData`;
  - the per-column steps of `_syncRowSpanDataForAppend` and `_syncRowSpanDataForRemove`;
  - `Combine`, which runs the per-column steps, each on the same input, and merges their cells.
- `Preservation`: removal and insertion keep every column consistent and keys unique.
- `Findings`: the counterexample for the removal guard described under Findings.
- `Table`: the collection state (rows, key counter, sort options, baseline rows). It also holds
  - `getMainRowKey`;
  - `_syncRowSpannedData`, reduced to one direct write to the block;
  - `removeRow`, `append`/`prepend`, `_createModelList`, `_createDummyRow` and `setOriginalRowList`.
- `Diff`: `_removePrivateProp`, `_.indexBy`, `_isModifiedRow` and `getModifiedRowList`.

Design decisions:
- A cell without span metadata reads as `{count: 0, isMainRow: true, mainRowKey: <own key>}`.
- Setting metadata to `null` removes it.
- Setting `{count}` alone on an existing cell (the covered-row branch of removal) merges into the existing metadata.

## Model

| member | source | states |
|---|---|---|
| Rows.CreateRowKey | src/js/data/rowList.js:103-106 | the returned key is the new counter value, strictly above the old one |
| Rows.BaseFormat | src/js/data/rowList.js:84-101 | the row is checked exactly when its row state is `CHECKED`; without a key column it gets key `lastRowKey + 1` and advances the counter; with one the key is that column's value (`null` if absent) and the counter stays; `_extraData` is kept and the formatting properties leave the values |
| Rows.Find | src/js/data/rowList.js:220-222 | the index found holds the key and no earlier row does; no index means no row has the key |
| Rows.ToJson | src/js/data/rowList.js:164-168 | a row's plain object has exactly its values and the formatting properties, with `rowKey` its key and every other column's value kept |
| Rows.Delete | src/js/data/rowList.js:514-516 | removal shortens the collection by one, keeps the rows before the index and shifts the rows after it down |
| Rows.Insert | src/js/data/rowList.js:596-603 | insertion keeps the rows before the position, places the batch there and shifts the rest up by the batch size |
| Rows.DeleteKeySet | src/js/data/rowList.js:514-516 | removing a row of a collection with unique keys removes exactly its key |
| Rows.InsertKeySet | src/js/data/rowList.js:596-603 | inserting a batch adds exactly the batch's keys |
| Sorting.InitialSortOptions | src/js/data/rowList.js:35-39 | sorting starts on `rowKey`, ascending, client-side unless `useClientSort` is `false` |
| Sorting.SetSortOptionValues | src/js/data/rowList.js:259-288 | missing arguments default to `rowKey` and ascending; the options become the effective arguments; `sortChanged` is emitted exactly when the column or direction changed, carrying them |
| Sorting.SortByField | src/js/data/rowList.js:290-302 | an omitted direction toggles when re-sorting the same column and is ascending otherwise; an emitted event asks for a fetch exactly when sorting is not client-side |
| Sorting.SortByFieldTwiceRestores | src/js/data/rowList.js:290-302 | re-sorting the current column twice without a direction restores the options |
| Sorting.SortDecidesRowSpan | src/js/data/rowList.js:241-251 | after sorting, `isSortedByField` holds exactly when a column other than `rowKey` was given, and `isRowSpanEnable` exactly when none or `rowKey` was |
| Sorting.Compare | src/js/data/rowList.js:450-467 | the result is -1, 0 or 1, and -1 exactly when the values are in order for the direction; strings are ordered by their UTF-16 code units |
| Sorting.CodeUnits | src/js/data/rowList.js:450-467 | a character is one code unit below U+10000 and otherwise a high and a low surrogate that decode back to it |
| Sorting.Utf16 | src/js/data/rowList.js:450-467 | a string has at least as many code units as characters, each below 0x10000 |
| Sorting.Utf16OfBmp | src/js/data/rowList.js:450-467 | inside the Basic Multilingual Plane the code units are exactly the characters |
| Sorting.SurrogatesSortBelowFFFF | src/js/data/rowList.js:450-467 | U+1F600 sorts below U+FFFF, as its first code unit is a high surrogate |
| Sorting.CompareAntisymmetric | src/js/data/rowList.js:450-467 | swapping the rows negates the comparison |
| Sorting.CompareDescendingNegates | src/js/data/rowList.js:463-465 | the descending result is the negated ascending result |
| Sorting.CompareTransitive | src/js/data/rowList.js:450-467 | "before" is transitive |
| Propagator.StampChildren | src/js/data/rowList.js:143-153 | exactly the rows at offsets `k..n-1` below a main row get its value and metadata `{-offset, false, key}` |
| Propagator.SeedColumn | src/js/data/rowList.js:136-155 | a declared span `N` on a cell without metadata makes the row main with `{N, true, key}` and the next `N - 1` rows covered with `{-k, false, key}` and the main row's value; nothing else changes; too few rows is a `TypeError`; a cell with metadata is left alone |
| Propagator.SeedRow | src/js/data/rowList.js:115-162 | seeding a row's declarations keeps its key, checked flag, values, declarations and row state, and the declarations and row state of the later rows |
| Propagator.SeedRowColumn | src/js/data/rowList.js:115-162 | per column, seeding makes a declared cell without metadata a main row of the declared count and the rows below it its covered rows; any other column, and a cell that already has metadata, is untouched |
| Propagator.FormatHead | src/js/data/rowList.js:65-71 | the first row is formatted (checked flag, key, counter); its declarations are seeded into the rows below only when span handling is on, so without it formatting never fails, leaves the rows below as given and keeps the row's `_extraData` and non-formatting values; the rows below keep their row states |
| Propagator.FormatHeadColumn | src/js/data/rowList.js:65-71 | formatting the first row keeps the metadata it came with for a column, or seeds that column's block when it is declared and span handling is on |
| Propagator.FormatData | src/js/data/rowList.js:63-82 | formatting keeps the length and advances the counter by the batch size when keys are generated, and not at all with a key column; without span seeding it never fails |
| Propagator.FormatDataChecked | src/js/data/rowList.js:63-101 | each formatted row is checked exactly when its raw row state is `CHECKED` |
| Propagator.FormatDataKeys | src/js/data/rowList.js:63-106 | without a key column the `j`-th formatted row gets key `lastRowKey + 1 + j` |
| Propagator.GeneratedKeysIncrease | src/js/data/rowList.js:84-106 | generated keys are strictly increasing and above the old counter, so pairwise distinct |
| Propagator.FormatUndeclared | src/js/data/rowList.js:63-82 | a batch without span declarations formats without failure, keeping `_extraData` and the non-formatting values |
| Propagator.StampRange | src/js/data/rowList.js:689-711 | exactly the rows from offset `s` to `n - 1` below the main row become covered with `''`; nothing else changes; a row outside the collection is a `TypeError` |
| Propagator.UpdateSubRowSpanData | src/js/data/rowList.js:689-711 | as `StampRange`, with the main row's own key |
| Propagator.GrowEffect | src/js/data/rowList.js:673-678 | growing sets the main row's count and changes nothing outside the block |
| Propagator.AppendAt | src/js/data/rowList.js:665-678 | a main row without metadata is a `TypeError`; a block that neither continues past the insertion point nor is extended is left alone; keys are kept |
| Propagator.AppendAtEffect | src/js/data/rowList.js:665-678 | a block that continues past the insertion point, or is extended, grows by exactly the number of inserted rows and nothing outside it changes |
| Propagator.SyncColumnForAppend | src/js/data/rowList.js:655-686 | a previous row with count 0 leaves the column alone; a main row that cannot be found is a `TypeError`; a block that does not take in the new rows is left alone; keys are kept |
| Propagator.SyncColumnForAppendEffect | src/js/data/rowList.js:655-686 | a block that continues past the previous row, or with `extendPrevRowSpan`, grows by exactly the number of inserted rows and nothing outside it changes |
| Propagator.SyncRowSpanDataForAppend | src/js/data/rowList.js:648-653 | no previous row means no change; keys, order and checked flags are kept, and columns the previous row has no metadata for are untouched |
| Propagator.PromoteNext | src/js/data/rowList.js:540-565 | removing a main row of count `N >= 2` fails exactly when the next row or the block is missing, and keeps keys |
| Propagator.ShrinkBlock | src/js/data/rowList.js:555-568 | removing a covered row keeps keys and length |
| Propagator.ShrinkBlockEffect | src/js/data/rowList.js:555-568 | when the main row is found, its count drops by one (the metadata is cleared once it reaches 1) and nothing outside the re-stamped rows changes |
| Propagator.ShrinkBlockRun | src/js/data/rowList.js:555-568 | the rows from the removed offset to the new block end become covered rows of the main row with `''` |
| Propagator.SyncColumnForRemoveAsWritten | src/js/data/rowList.js:540-544 | the guard as written: only a main row with count exactly 1 is skipped |
| Propagator.SyncColumnForRemove | src/js/data/rowList.js:532-573 | a main row with count 1 or less leaves the column alone; keys and length are kept |
| Propagator.Combine | src/js/data/rowList.js:536-573 | each column's cells come from that column's own result and every other cell, key and flag from the input; any failing column fails the whole |
| Propagator.SyncRowSpanDataForRemove | src/js/data/rowList.js:532-573 | with the corrected guard: a row without metadata changes nothing; keys, length, checked flags and row states are kept, and columns the removed row had no metadata for are untouched |
| Blocks.Splice | src/js/data/rowList.js:648-711 | a collection spliced from a consistent one at block boundaries, with a consistent middle, is consistent |
| Blocks.InsertAtBoundary | src/js/data/rowList.js:602-603 | inserting rows without metadata where no block spans keeps the column consistent |
| Blocks.WellFormedCongruent | src/js/data/rowList.js:364-379 | consistency depends only on the keys and the column's metadata, so value writes keep it |
| Preservation.SeededRowsKeep | src/js/data/rowList.js:63-162 | rows that already carry metadata from a block seeded above keep it through formatting |
| Preservation.SeededRowsOk | src/js/data/rowList.js:63-162 | every row after those that carry metadata from a block seeded above comes out consistent in the column |
| Preservation.FormatDataWellFormed | src/js/data/rowList.js:63-162 | formatting a batch without span metadata yields a batch consistent in every column, whatever it declares: a declaration past the end fails and one inside an earlier block is skipped |
| Preservation.FormatDataTableOk | src/js/data/rowList.js:63-162 | with generated keys such a batch is a consistent collection on its own |
| Preservation.RemoveKeepsTableOk | src/js/data/rowList.js:500-573 | with the corrected guard, removing any row of a consistent collection never fails and leaves every column consistent and keys unique |
| Preservation.RemoveMainKeepsWellFormed | src/js/data/rowList.js:540-565 | removing a main row of count `N >= 2` hands the block to the next row consistently |
| Preservation.RemoveCoveredKeepsWellFormed | src/js/data/rowList.js:555-568 | removing a covered row shrinks its block consistently |
| Preservation.AppendKeepsTableOk | src/js/data/rowList.js:592-686 | inserting rows without metadata anywhere into a consistent collection with fresh keys never fails and keeps every column consistent |
| Preservation.AppendGrowsBlock | src/js/data/rowList.js:665-676 | growing a block over the inserted rows keeps the column consistent |
| Preservation.AppendCoveredEnds | src/js/data/rowList.js:660-676 | inserting after the last covered row of a block, without extending, keeps the column consistent |
| Findings.AsWrittenBreaksZeroSpan | src/js/data/rowList.js:540-553 | with the guard as written, removing a main row with count 0 blanks the next row and breaks consistency |
| Findings.AsWrittenThrowsOnLastZeroSpan | src/js/data/rowList.js:540-553 | ...and throws when that row is the last |
| Findings.CorrectedKeepsZeroSpan | src/js/data/rowList.js:540-553 | with the corrected guard the same removal leaves the remaining rows as they were |
| Table.NewRowList | src/js/data/rowList.js:23-40 | `initialize` leaves the collection empty, its counter at -1 and span handling enabled |
| Table.NewRowListInvariant | src/js/data/rowList.js:23-40 | a new collection satisfies the invariant |
| Table.GetMainRowKey | src/js/data/rowList.js:205-213 | the key comes back unchanged when span handling is off, the key is unknown or the cell has no metadata |
| Table.MainRowKeyIsBlockHead | src/js/data/rowList.js:205-213 | in a consistent collection the resolved key is the main row of the block holding the row, at or above it; resolving again changes nothing |
| Table.FillBlock | src/js/data/rowList.js:371-376 | exactly the covered rows of the block take the value; a block running past the end is a `TypeError` |
| Table.SyncRowSpannedData | src/js/data/rowList.js:364-379 | with span handling off nothing changes; otherwise every row is unchanged or takes the value in that column |
| Table.SyncKeepsTableOk | src/js/data/rowList.js:364-379 | value propagation keeps the collection consistent |
| Table.SyncFillsBlock | src/js/data/rowList.js:364-379 | after a cell changes, its whole block holds the value and nothing else changes, unless the main row already held it |
| Table.RemoveRow | src/js/data/rowList.js:500-523 | an unknown key is a no-op; otherwise the rows are the old ones without that row, in order, with checked flags and row states kept, and every cell is unchanged outside the columns the removed row had span metadata for; the baseline becomes the remaining rows exactly when `removeOriginalData` is set |
| Table.RemoveRowKeepsInvariant | src/js/data/rowList.js:500-523 | with the corrected guard, removal never fails on a consistent collection, keeps it consistent and removes exactly the given key |
| Table.RemoveMainHandsOver | src/js/data/rowList.js:540-565 | removing a main row of count `N >= 2` makes the next row main with count `N - 1` (or clears it at `N = 2`); its value is the removed row's with `keepRowSpanData`, otherwise `''` |
| Table.RemoveCoveredShrinks | src/js/data/rowList.js:555-568 | removing a covered row drops its main row's count by 1 (clearing it at 1) and re-stamps the rows from the removed offset as covered with `''` |
| Table.DummyRow | src/js/data/rowList.js:576-584 | the dummy row holds `''` for exactly the data columns |
| Table.CreateModelList | src/js/data/rowList.js:624-640 | the new rows are all checked; generated keys continue the counter; undeclared rows never fail and keep `_extraData`; the dummy row has no metadata and `''` in every data column |
| Table.FormattedBatch | src/js/data/rowList.js:624-640 | a formatted batch numbers generated keys from the counter, and a batch without declarations formats without failure and keeps `_extraData` |
| Table.CreateModelListWellFormed | src/js/data/rowList.js:624-640 | the rows made from a batch without span metadata are consistent in every column |
| Table.Append | src/js/data/rowList.js:592-606 | the result is the old collection with the formatted batch inserted at the position, each new row in place and checked, and every cell unchanged outside the columns the row before the insertion point has span metadata for; generated keys continue the counter; sort options and the baseline are unchanged |
| Table.AppendKeepsInvariant | src/js/data/rowList.js:592-686 | appending undeclared rows without a key column never fails and keeps the invariant |
| Table.AppendTableOk | src/js/data/rowList.js:592-686 | ...so every column stays consistent and keys stay unique |
| Table.AppendKeysGenerated | src/js/data/rowList.js:592-640 | every key after an append is one the counter issued |
| Table.AppendKeySet | src/js/data/rowList.js:592-640 | an append adds exactly the new keys, none of which was in the collection |
| Table.SetOriginalRowList | src/js/data/rowList.js:164-168 | without rows the baseline is the current rows' JSON; with rows it succeeds exactly when formatting them does and is then their formatted form, and, without a key column, the counter advances by their number; the rows are untouched |
| Table.SetOriginalRowListKeys | src/js/data/rowList.js:164-168 | a baseline from given rows without a key column holds keys numbered from the old counter and each row's checked flag as `_button` |
| Table.Snapshot | src/js/data/rowList.js:164-168 | the collection's plain objects are its rows' `toJSON`, in order, each carrying its row's key |
| Diff.RemovePrivateProp | src/js/data/rowList.js:475-491 | each object loses exactly `_button`, `_number` and `_extraData` and keeps every other value |
| Diff.RemovePrivatePropIdempotent | src/js/data/rowList.js:475-491 | stripping twice equals stripping once, and the row key survives |
| Diff.IndexBy | src/js/data/rowList.js:748-749 | every keyed object's key is indexed; each entry is an object with that key; the last object with a key wins |
| Diff.UnmodifiedRowIsNotModified | src/js/data/rowList.js:714-723 | a row compared with itself is not modified |
| Diff.FilteringHidesModifications | src/js/data/rowList.js:714-723 | filtering more columns can only hide modifications |
| Diff.LostColumnsGoUnnoticed | src/js/data/rowList.js:714-723 | only the current row's columns are compared; a column only the original has never counts |
| Diff.IsModifiedRowByItems | src/js/data/rowList.js:714-724 | `_isModifiedRow` holds exactly when some unfiltered column-value pair of the row is not one of the original |
| Diff.GetModifiedRowList | src/js/data/rowList.js:735-774 | with `isOnlyRowKeyList`: a key is created exactly when only current (and checked, if asked), updated exactly when in both with a differing unfiltered column (and checked, if asked), and deleted exactly when only in the baseline |
| Diff.GetModifiedRowListRows | src/js/data/rowList.js:735-774 | without `isOnlyRowKeyList` each list holds exactly the row objects of those same keys: the current row for created and updated keys, the baseline row for deleted ones |
| Diff.ModifiedListsDisjoint | src/js/data/rowList.js:755-772 | no row is in two lists |
| Diff.DeletionsIgnoreChecks | src/js/data/rowList.js:753-772 | `isOnlyChecked` never changes the deletions and only narrows the other two lists |
| Diff.NothingModifiedAfterBaseline | src/js/data/rowList.js:164-168 | right after the baseline is taken from the current rows all three lists are empty |
| Diff.RemovedRowIsDeleted | src/js/data/rowList.js:500-523 | removing a baseline row without resetting the baseline reports its key as deleted |
| Diff.BaselineFromCurrentIsGenerated | src/js/data/rowList.js:164-168 | a baseline taken from a consistent collection holds only keys the counter issued |
| Diff.AppendedRowsAreCreated | src/js/data/rowList.js:592-640 | appended rows are reported as created, even with `isOnlyChecked`, when the baseline holds only keys the counter issued |

## Left out

- Backbone events: the `sortChanged` event is returned as a value, and the other `trigger` calls, `silent` flags, `row.previous` and the `_onChange` handler are not modelled.
- `_syncRowSpannedData` cascade: in the source, `_onChange` makes `_syncRowSpannedData` re-enter through change events. The model writes the block once: a covered cell updates its main row and then the block.
- Column-model callbacks: `changeBeforeCallback`/`changeAfterCallback` are calls into code outside this model.
- The row class (`./row`) is not part of this model. Its `getRowSpanData`/`setRowSpanData` are modelled as a per-column map, as described above.
- Sorting itself: the stable sort that Backbone `sort()` performs is not modelled; only the comparator and the option bookkeeping are.
- `Sorting.Compare`: JavaScript `<` between values of different types (coercion) is not modelled. Numbers compare with numbers, strings by their UTF-16 code units with strings, and `false` before `true`; any other pair is unordered.
- Values are integers, strings, booleans, `null`, arrays and objects. Floating point, `NaN` and `undefined` values are left out.
- `Diff.Differs`: `$.toJSON` comparison is modelled as structural equality. Key order inside objects, which the serialization depends on, is not modelled.
- `Diff.GetModifiedRowList`: the lists are sets, since their order is JavaScript's key enumeration order.
- `Diff.GetModifiedRowList`: the baseline is a copy by value. In the source, `setOriginalRowList()` without rows stores `toJSON()` (rowList.js:165), which is Backbone's shallow clone of each row's attributes. Each baseline object therefore shares its row's `_extraData` object, and in-place writes such as the count growth at rowList.js:674 appear in the baseline too. With `isRaw` the model can report a row as updated whose `_extraData` the source sees as unchanged. Without `isRaw`, `_extraData` is stripped before the comparison.
- `Diff.IndexBy`: skips objects without a row key. `_.indexBy` would file them under `"undefined"`, but every formatted row has a key.
- `Diff.IndexBy`: does not convert keys to strings, so a numeric key `1` and a string key `"1"` stay distinct.
- Backbone `add`: skipping duplicate ids and negative `at` positions are not modelled.
- `Table.Position`: an `at` past the end appends at the end.
- Partial mutation: a JavaScript `TypeError` part-way through leaves earlier writes in place. The model returns only `TypeError`.
- Not modelled: `parse`, `getRowList`, `getOriginalRowList`, `getOriginalRow`, `getOriginal`, `indexOfRowKey` (used through `Find`), `startIndex`, `originalRowMap`, and `_executeChange*`/`_createChangeCallbackEvent`. These are accessors or event plumbing.
- `Table.NewRowList`: models `initialize` only. The Backbone constructor also `reset`s the collection with its `models` argument through `parse` (rowList.js:48-55). That is `Propagator.FormatData` on the data's `contents`. Unlike `Table.Append`, it keeps each row's checked flag as its row state gives it, makes no dummy row and runs no span sync. This path has no member of its own.
- `prepend` is `Table.Append` with position `Some(0)`; it has no separate member.
- `Table.AppendKeepsInvariant`: proved only for batches without span declarations or metadata and without a key column. With declarations, formatting may seed blocks that overlap the insertion point. With a key column, keys need not be fresh.
- `Diff.AppendedRowsAreCreated`: needs a baseline holding only generated keys, which `Diff.BaselineFromCurrentIsGenerated` provides for a baseline taken from the rows.
- `Propagator.SyncColumnForAppendEffect`: the count growth is stated only when the first re-stamped offset is at least 1. In a consistent collection it always is.
- `Table.RemoveRow`: runs the corrected removal guard (see Findings). A main row with count 0 therefore leaves the next row alone, where the source blanks that row's cell and clears its metadata, or throws when the row is last. `Propagator.SyncColumnForRemoveAsWritten` models the guard as written.
- `Table.RemoveRowKeepsInvariant`: "never fails" is proved of the corrected guard. With the guard as written, removal throws on the consistent collection of `Findings.AsWrittenThrowsOnLastZeroSpan`.
- `Preservation.RemoveKeepsTableOk`: proved of the corrected guard, for the same reason.
- `Propagator.SyncRowSpanDataForRemove`: runs each column through `Propagator.SyncColumnForRemove`, the corrected guard.
- `Rows.Find`: compares keys as values. Backbone `get` looks a key up as an object property, so the number `1` and the string `"1"` find the same row. The model keeps them apart because it has no JavaScript number-to-string conversion.
- `Preservation.FormatDataWellFormed`: stated for batches that come without span metadata. Metadata the caller supplies is kept as given and may be inconsistent.

## Findings

| source | as written | input that shows it | evidently intended | confidence | as-written member | corrected member |
|---|---|---|---|---|---|---|
| src/js/data/rowList.js:540-553 | `_syncRowSpanDataForRemove` skips a main row only when `count === 1` | a main row declared with `rowSpan` 0 (count 0, which means "not spanned"): removing it treats the block as having `count - 1 = -1` rows, blanks the next row's value and clears its metadata, or throws when it was the last row | skip every main row with `count <= 1`, which spans nothing | not executed | Propagator.SyncColumnForRemoveAsWritten, Findings.AsWrittenBreaksZeroSpan | Propagator.SyncColumnForRemove, Findings.CorrectedKeepsZeroSpan |
