/** The collection of src/js/data/rowList.js as a value: its rows, the key counter, the
    sort options and the baseline that modifications are measured against, with the
    public operations that change them. */
module Table {
  import opened Wrappers
  import opened Values
  import opened Rows
  import opened Sorting
  import opened Propagator
  import opened Blocks
  import opened Preservation

  /** What the collection asks of the grid's column model: the key column (if rows carry
      their own keys), the data columns (for the empty row) and the columns that never
      count as modified. */
  datatype ColumnModel = ColumnModel(keyColumnName: Option<string>, dataColumnNames: seq<string>, ignoredColumnNames: set<string>)

  /** The collection state. `original` holds the baseline rows as plain objects. */
  datatype RowList = RowList(rows: seq<Row>, lastRowKey: int, sortOptions: SortOptions, original: seq<map<string, Value>>)

  /** The data handed to `append`: nothing (an empty row is made up), one row, or a list. */
  datatype RowData = Nothing | One(raw: RawRow) | Many(raws: seq<RawRow>)

  /** `initialize`: no rows, the counter at -1 so that the first generated key is 0,
      natural order, and client-side sorting unless the caller turned it off. */
  function NewRowList(useClientSort: Option<bool>): (t: RowList)
    ensures t.rows == [] && t.original == [] && t.lastRowKey == -1
    ensures IsRowSpanEnable(t.sortOptions)
    ensures t.sortOptions.useClient <==> useClientSort != Some(false)
  {
    RowList([], -1, InitialSortOptions(useClientSort), [])
  }

  /** Backbone `toJSON` of the whole collection. */
  function Snapshot(rows: seq<Row>): (s: seq<map<string, Value>>)
    ensures |s| == |rows|
    ensures forall j :: 0 <= j < |rows| ==> s[j] == ToJson(rows[j])
    ensures forall j :: 0 <= j < |rows| ==> KeyProperty in s[j] && s[j][KeyProperty] == rows[j].key
  {
    seq(|rows|, j requires 0 <= j < |rows| => ToJson(rows[j]))
  }

  // ---------------------------------------------------------------------------
  // The invariant of a collection whose keys are generated
  // ---------------------------------------------------------------------------

  /** Every key is a generated number not above the counter. */
  predicate KeysGenerated(rows: seq<Row>, last: int) {
    forall j :: 0 <= j < |rows| ==> rows[j].key.Num? && rows[j].key.n <= last
  }

  ghost predicate Invariant(t: RowList) {
    TableOk(t.rows) && KeysGenerated(t.rows, t.lastRowKey)
  }

  lemma NewRowListInvariant(useClientSort: Option<bool>)
    ensures Invariant(NewRowList(useClientSort))
  {
  }

  // ---------------------------------------------------------------------------
  // getMainRowKey
  // ---------------------------------------------------------------------------

  /** `getMainRowKey(k, c)`: while rows are in natural order, the key of the main row
      recorded for the cell; otherwise (or for an unknown key) `k` itself. */
  function GetMainRowKey(t: RowList, k: Key, c: string): (r: Key)
    ensures !IsRowSpanEnable(t.sortOptions) ==> r == k
    ensures Find(t.rows, k).None? ==> r == k
    ensures Find(t.rows, k).Some? && c !in Spans(t.rows[Find(t.rows, k).value]) ==> r == k
  {
    if !IsRowSpanEnable(t.sortOptions) then k
    else match Find(t.rows, k)
      case None => k
      case Some(i) => SpanDataOf(t.rows[i], c).mainRowKey
  }

  /** On a consistent table the resolved key is the key of the row heading the block
      that holds row `k` (the row itself when it is not covered), and resolving it again
      changes nothing. */
  lemma MainRowKeyIsBlockHead(t: RowList, k: Key, c: string)
    requires TableOk(t.rows) && IsRowSpanEnable(t.sortOptions) && Find(t.rows, k).Some?
    ensures var i := Find(t.rows, k).value;
            var r := GetMainRowKey(t, k, c);
            && Find(t.rows, r).Some?
            && var m := Find(t.rows, r).value;
            && m <= i
            && (m < i ==> IsMain(t.rows[m], c) && i < m + Spans(t.rows[m])[c].count)
            && GetMainRowKey(t, r, c) == r
  {
    var rows := t.rows;
    var i := Find(rows, k).value;
    assert WellFormed(rows, c);
    assert RowOk(rows, i, c);
    if c in Spans(rows[i]) && !Spans(rows[i])[c].isMainRow {
      var m := i + Spans(rows[i])[c].count;
      assert RowOk(rows, m, c);
      FindUnique(rows, m);
    } else {
      FindUnique(rows, i);
    }
  }

  // ---------------------------------------------------------------------------
  // _syncRowSpannedData
  // ---------------------------------------------------------------------------

  /** The loop of `_syncRowSpannedData` over a main row at `m`: rows `m + 1` up to
      `m + count - 1` receive `v` in column `c`; a block running past the end throws. */
  function FillBlock(rows: seq<Row>, m: nat, c: string, v: Value): (res: Result<seq<Row>>)
    requires m < |rows|
    ensures var n := SpanDataOf(rows[m], c).count;
            res.Success? <==> (n <= 1 || m + n <= |rows|)
    ensures var n := SpanDataOf(rows[m], c).count;
            res.Success? ==> (|res.value| == |rows| &&
              forall j :: 0 <= j < |rows| ==>
                res.value[j] == if m < j < m + n then WithValue(rows[j], c, Some(v)) else rows[j])
  {
    var n := SpanDataOf(rows[m], c).count;
    if n >= 2 && m + n > |rows| then TypeError
    else Success(seq(|rows|, j requires 0 <= j < |rows| => if m < j < m + n then WithValue(rows[j], c, Some(v)) else rows[j]))
  }

  /** `_syncRowSpannedData(row, c, v)` after row `i` has just received `v` in column `c`,
      with the change-event cascade it sets off written as one step: a covered row hands
      the value to its main row (which fires only when the main row's value changes),
      and a main row hands it to its covered rows. Nothing happens while the rows are
      sorted by a field. */
  function SyncRowSpannedData(rows: seq<Row>, i: nat, c: string, v: Value, enabled: bool): (res: Result<seq<Row>>)
    requires i < |rows|
    ensures !enabled ==> res == Success(rows)
    ensures res.Success? ==> (|res.value| == |rows| &&
              forall j :: 0 <= j < |rows| ==> res.value[j] == rows[j] || res.value[j] == WithValue(rows[j], c, Some(v)))
  {
    if !enabled then Success(rows)
    else
      var data := SpanDataOf(rows[i], c);
      if !data.isMainRow then
        match Find(rows, data.mainRowKey)
        case None => TypeError
        case Some(m) =>
          if ValueOf(rows[m], c) == Some(v) then Success(rows)
          else
            var rows1 := rows[m := WithValue(rows[m], c, Some(v))];
            assert SpanDataOf(rows1[m], c) == SpanDataOf(rows[m], c);
            FillBlock(rows1, m, c, v)
      else
        FillBlock(rows, Find(rows, rows[i].key).value, c, v)
  }

  /** Passing a value along never touches keys or span metadata, so it keeps every
      column of a consistent table consistent. */
  lemma SyncKeepsTableOk(rows: seq<Row>, i: nat, c: string, v: Value, enabled: bool)
    requires TableOk(rows) && i < |rows|
    requires SyncRowSpannedData(rows, i, c, v, enabled).Success?
    ensures TableOk(SyncRowSpannedData(rows, i, c, v, enabled).value)
  {
    var r := SyncRowSpannedData(rows, i, c, v, enabled).value;
    assert SameKeys(rows, r);
    forall d
      ensures WellFormed(r, d)
    {
      assert WellFormed(rows, d);
      forall j | 0 <= j < |rows|
        ensures SpanOf(rows[j], d) == SpanOf(r[j], d)
      {
      }
      WellFormedCongruent(rows, r, d);
    }
  }

  /** The index of the main row heading the block that holds row `i` in column `c`. */
  function BlockHead(rows: seq<Row>, i: nat, c: string): int
    requires i < |rows|
  {
    if c in Spans(rows[i]) && !Spans(rows[i])[c].isMainRow then i + Spans(rows[i])[c].count else i
  }

  /** After row `i` has received `v`, passing the value along in natural order never
      throws on a consistent table. Every row of the block holding row `i` then has `v`,
      and no other row changes. The one exception is a covered row whose main row
      already holds `v`: the main row does not change, so nothing is passed on. */
  lemma SyncFillsBlock(rows: seq<Row>, i: nat, c: string, v: Value)
    requires WellFormed(rows, c) && UniqueKeys(rows) && i < |rows|
    requires ValueOf(rows[i], c) == Some(v)
    ensures var res := SyncRowSpannedData(rows, i, c, v, true);
            var h := BlockHead(rows, i, c);
            && 0 <= h < |rows|
            && res.Success?
            && (h != i && ValueOf(rows[h], c) == Some(v) ==> res.value == rows)
            && (h == i || ValueOf(rows[h], c) != Some(v) ==>
                  forall j :: 0 <= j < |rows| ==>
                    if h <= j < Reach(rows[h], h, c) then ValueOf(res.value[j], c) == Some(v) else res.value[j] == rows[j])
  {
    var h := BlockHead(rows, i, c);
    assert RowOk(rows, i, c);
    if h == i {
      FindUnique(rows, i);
    } else {
      assert RowOk(rows, h, c);
      FindUnique(rows, h);
      if ValueOf(rows[h], c) != Some(v) {
        var rows1 := rows[h := WithValue(rows[h], c, Some(v))];
        assert SpanDataOf(rows1[h], c) == SpanDataOf(rows[h], c);
      }
    }
  }

  // ---------------------------------------------------------------------------
  // removeRow
  // ---------------------------------------------------------------------------

  /** `removeRow(k, {keepRowSpanData, removeOriginalData})`: an unknown key is ignored;
      otherwise the row leaves the collection, the blocks it belonged to are repaired,
      and with `removeOriginalData` the baseline becomes the remaining rows. */
  function RemoveRow(t: RowList, k: Key, keepRowSpanData: bool, removeOriginalData: bool): (res: Result<RowList>)
    ensures Find(t.rows, k).None? ==> res == Success(t)
    ensures res.Success? && Find(t.rows, k).Some? ==>
              SameKeys(res.value.rows, Delete(t.rows, Find(t.rows, k).value))
    ensures res.Success? ==> res.value.lastRowKey == t.lastRowKey && res.value.sortOptions == t.sortOptions
    ensures res.Success? && Find(t.rows, k).Some? ==>
              res.value.original == if removeOriginalData then Snapshot(res.value.rows) else t.original
    ensures res.Success? && Find(t.rows, k).Some? ==>
              var rest := Delete(t.rows, Find(t.rows, k).value);
              && (forall j :: 0 <= j < |rest| ==>
                    res.value.rows[j].checked == rest[j].checked && res.value.rows[j].extra.rowState == rest[j].extra.rowState)
              && (forall j, c :: 0 <= j < |rest| && c !in Spans(t.rows[Find(t.rows, k).value]) ==>
                    SameCell(res.value.rows[j], rest[j], c))
  {
    match Find(t.rows, k)
    case None => Success(t)
    case Some(i) =>
      var kept := if keepRowSpanData then Some(ToJson(t.rows[i])) else None;
      match SyncRowSpanDataForRemove(Delete(t.rows, i), i, Spans(t.rows[i]), kept)
      case TypeError => TypeError
      case Success(rows) =>
        var t1 := t.(rows := rows);
        Success(if removeOriginalData then t1.(original := Snapshot(rows)) else t1)
  }

  /** Removing a row keeps a consistent table consistent, never throws, and removes
      exactly the key asked for. */
  lemma RemoveRowKeepsInvariant(t: RowList, k: Key, keepRowSpanData: bool, removeOriginalData: bool)
    requires Invariant(t)
    ensures var res := RemoveRow(t, k, keepRowSpanData, removeOriginalData);
            res.Success? && Invariant(res.value) && KeySet(res.value.rows) == KeySet(t.rows) - {k}
  {
    match Find(t.rows, k)
    case None =>
      assert k !in KeySet(t.rows);
    case Some(i) =>
      var kept := if keepRowSpanData then Some(ToJson(t.rows[i])) else None;
      RemoveKeepsTableOk(t.rows, i, kept);
      var res := RemoveRow(t, k, keepRowSpanData, removeOriginalData);
      SameKeysKeySet(res.value.rows, Delete(t.rows, i));
      DeleteKeySet(t.rows, i);
  }

  /** After a removal the cells of a column the removed row had metadata for are those
      the single-column step computes. */
  lemma RemovedColumnCells(rows0: seq<Row>, i: nat, kept: Option<map<string, Value>>, c: string)
    requires TableOk(rows0) && i < |rows0| && c in Spans(rows0[i])
    ensures var res := SyncRowSpanDataForRemove(Delete(rows0, i), i, Spans(rows0[i]), kept);
            var col := SyncColumnForRemove(Delete(rows0, i), i, Spans(rows0[i])[c], kept, c);
            && res.Success? && col.Success? && |col.value| == |res.value|
            && forall j :: 0 <= j < |res.value| ==> SameCell(res.value[j], col.value[j], c)
  {
    var rows := Delete(rows0, i);
    var snapshot := Spans(rows0[i]);
    var results := map d | d in snapshot :: SyncColumnForRemove(rows, i, snapshot[d], kept, d);
    assert results[c] == SyncColumnForRemove(rows, i, snapshot[c], kept, c);
    assert SyncRowSpanDataForRemove(rows, i, snapshot, kept) == Combine(rows, results);
    assert Combine(rows, results).Success? by {
      RemoveKeepsTableOk(rows0, i, kept);
    }
  }

  /** The rows `RemoveRow` leaves when it finds the key at index `i`. */
  lemma RemoveRowRows(t: RowList, k: Key, keepRowSpanData: bool, removeOriginalData: bool)
    requires Invariant(t) && Find(t.rows, k).Some?
    ensures var i := Find(t.rows, k).value;
            var kept := if keepRowSpanData then Some(ToJson(t.rows[i])) else None;
            var res := RemoveRow(t, k, keepRowSpanData, removeOriginalData);
            var sync := SyncRowSpanDataForRemove(Delete(t.rows, i), i, Spans(t.rows[i]), kept);
            res.Success? && sync.Success? && res.value.rows == sync.value
  {
    var i := Find(t.rows, k).value;
    var kept := if keepRowSpanData then Some(ToJson(t.rows[i])) else None;
    RemoveKeepsTableOk(t.rows, i, kept);
  }

  /** After `RemoveRow` finds the key at `i`, the cells of every column the removed row
      had metadata for are those the single-column step computes. */
  lemma RemoveRowCells(t: RowList, k: Key, c: string, keepRowSpanData: bool, removeOriginalData: bool)
    requires Invariant(t) && Find(t.rows, k).Some? && c in Spans(t.rows[Find(t.rows, k).value])
    ensures var i := Find(t.rows, k).value;
            var kept := if keepRowSpanData then Some(ToJson(t.rows[i])) else None;
            var res := RemoveRow(t, k, keepRowSpanData, removeOriginalData);
            var col := SyncColumnForRemove(Delete(t.rows, i), i, Spans(t.rows[i])[c], kept, c);
            && res.Success? && col.Success? && |col.value| == |res.value.rows|
            && forall j :: 0 <= j < |res.value.rows| ==> SameCell(res.value.rows[j], col.value[j], c)
  {
    var i := Find(t.rows, k).value;
    var kept := if keepRowSpanData then Some(ToJson(t.rows[i])) else None;
    RemoveRowRows(t, k, keepRowSpanData, removeOriginalData);
    RemovedColumnCells(t.rows, i, kept, c);
  }

  /** Removing the main row of a block of `n >= 2` rows in column `c` hands the block to
      the next row: it becomes the main row of the remaining `n - 1` rows (or spans
      nothing when one row is left) and receives the removed row's value when the caller
      asked to keep it, the empty string otherwise. */
  lemma RemoveMainHandsOver(t: RowList, k: Key, c: string, keepRowSpanData: bool, removeOriginalData: bool)
    requires Invariant(t) && Find(t.rows, k).Some?
    requires IsMain(t.rows[Find(t.rows, k).value], c) && Spans(t.rows[Find(t.rows, k).value])[c].count >= 2
    ensures var i := Find(t.rows, k).value;
            var n := Spans(t.rows[i])[c].count;
            var res := RemoveRow(t, k, keepRowSpanData, removeOriginalData);
            && i + 1 < |t.rows|
            && res.Success?
            && res.value.rows[i].key == t.rows[i + 1].key
            && SpanOf(res.value.rows[i], c) == (if n > 2 then Some(SpanData(n - 1, true, t.rows[i + 1].key)) else None)
            && ValueOf(res.value.rows[i], c) == (if keepRowSpanData then Attribute(t.rows[i], c) else Some(Blank))
  {
    var i := Find(t.rows, k).value;
    var kept := if keepRowSpanData then Some(ToJson(t.rows[i])) else None;
    RemoveRowCells(t, k, c, keepRowSpanData, removeOriginalData);
    MainHandOverCarried(t.rows, i, kept, c, RemoveRow(t, k, keepRowSpanData, removeOriginalData).value.rows);
  }

  /** Rows whose cells of column `c` are those the single-column step computes for a
      removed main row show the block handed over to the next row. */
  lemma MainHandOverCarried(rows0: seq<Row>, i: nat, kept: Option<map<string, Value>>, c: string, r: seq<Row>)
    requires TableOk(rows0) && i < |rows0| && IsMain(rows0[i], c) && Spans(rows0[i])[c].count >= 2
    requires var col := SyncColumnForRemove(Delete(rows0, i), i, Spans(rows0[i])[c], kept, c);
             col.Success? && |col.value| == |r| && forall j :: 0 <= j < |r| ==> SameCell(r[j], col.value[j], c)
    requires SameKeys(r, Delete(rows0, i))
    ensures var n := Spans(rows0[i])[c].count;
            && i + 1 < |rows0|
            && r[i].key == rows0[i + 1].key
            && SpanOf(r[i], c) == (if n > 2 then Some(SpanData(n - 1, true, rows0[i + 1].key)) else None)
            && ValueOf(r[i], c) == KeptValue(kept, c)
  {
    var n := Spans(rows0[i])[c].count;
    assert i + 1 < |rows0| by {
      assert WellFormed(rows0, c);
      assert RowOk(rows0, i, c);
    }
    var rows := Delete(rows0, i);
    var col := PromoteNext(rows, i, n - 1, kept, c);
    assert SyncColumnForRemove(rows, i, Spans(rows0[i])[c], kept, c) == col;
    var next := WithValue(rows[i], c, KeptValue(kept, c));
    assert col.value[i] == WithSpan(next, c, if n > 2 then Some(SpanData(n - 1, true, rows[i].key)) else None);
    assert SameCell(r[i], col.value[i], c);
  }

  /** Where the main row of a covered row sits before and after the covered row is
      removed. */
  lemma CoveredHead(rows0: seq<Row>, i: nat, c: string)
    requires WellFormed(rows0, c) && UniqueKeys(rows0) && i < |rows0| && c in Spans(rows0[i]) && !Spans(rows0[i])[c].isMainRow
    ensures var m := BlockHead(rows0, i, c);
            && 0 <= m < i && c in Spans(rows0[m]) && i < m + Spans(rows0[m])[c].count <= |rows0|
            && Spans(rows0[m])[c] == SpanData(Spans(rows0[m])[c].count, true, rows0[m].key)
            && Delete(rows0, i)[m] == rows0[m]
            && Find(Delete(rows0, i), Spans(rows0[i])[c].mainRowKey) == Some(m)
  {
    var m := BlockHead(rows0, i, c);
    assert RowOk(rows0, i, c);
    assert RowOk(rows0, m, c);
    DeleteKeepsUniqueKeys(rows0, i);
    FindUnique(Delete(rows0, i), m);
  }

  /** The single-column removal step for a covered row, in terms of the table before
      the removal. */
  lemma CoveredColumnCells(rows0: seq<Row>, i: nat, kept: Option<map<string, Value>>, c: string)
    requires WellFormed(rows0, c) && UniqueKeys(rows0) && i < |rows0| && c in Spans(rows0[i]) && !Spans(rows0[i])[c].isMainRow
    ensures 0 <= BlockHead(rows0, i, c) < i && c in Spans(rows0[BlockHead(rows0, i, c)])
    ensures var m := BlockHead(rows0, i, c);
            var n := Spans(rows0[m])[c].count - 1;
            var col := SyncColumnForRemove(Delete(rows0, i), i, Spans(rows0[i])[c], kept, c);
            && col.Success? && |col.value| == |rows0| - 1
            && SpanOf(col.value[m], c) == (if n > 1 then Some(SpanData(n, true, rows0[m].key)) else None)
            && CoveredRun(col.value, c, i, m + n, m, rows0[m].key)
  {
    CoveredHead(rows0, i, c);
    ShrinkBlockEffect(Delete(rows0, i), Spans(rows0[i])[c], c, BlockHead(rows0, i, c));
    ShrinkBlockRun(Delete(rows0, i), Spans(rows0[i])[c], c, BlockHead(rows0, i, c));
  }

  /** Column `c` of `r` is that of `col`, so a covered run of `col` is one of `r`. */
  lemma SameCellsCarry(r: seq<Row>, col: seq<Row>, c: string, lo: int, hi: int, m: nat, key: Key)
    requires |r| == |col| && m < |r|
    requires forall j :: 0 <= j < |r| ==> SameCell(r[j], col[j], c)
    requires CoveredRun(col, c, lo, hi, m, key)
    ensures SpanOf(r[m], c) == SpanOf(col[m], c)
    ensures CoveredRun(r, c, lo, hi, m, key)
  {
    assert SameCell(r[m], col[m], c);
    forall j | lo <= j < hi
      ensures SpanOf(r[j], c) == Some(SpanData(m - j, false, key)) && ValueOf(r[j], c) == Some(Blank)
    {
      assert SameCell(r[j], col[j], c);
    }
  }

  /** Removing a covered row shrinks its block by one: the main row's count drops by one
      (its span is cleared when one row is left), and the rows from the removed row's
      place to the new end of the block are re-stamped as covered rows of it. */
  lemma RemoveCoveredShrinks(t: RowList, k: Key, c: string, keepRowSpanData: bool, removeOriginalData: bool, i: nat, m: int)
    requires Invariant(t) && Find(t.rows, k) == Some(i)
    requires c in Spans(t.rows[i]) && !Spans(t.rows[i])[c].isMainRow
    requires m == i + Spans(t.rows[i])[c].count
    ensures 0 <= m < i && c in Spans(t.rows[m])
    ensures RemoveRow(t, k, keepRowSpanData, removeOriginalData).Success?
    ensures SpanOf(RemoveRow(t, k, keepRowSpanData, removeOriginalData).value.rows[m], c)
              == if Spans(t.rows[m])[c].count - 1 > 1
                 then Some(SpanData(Spans(t.rows[m])[c].count - 1, true, t.rows[m].key)) else None
    ensures CoveredRun(RemoveRow(t, k, keepRowSpanData, removeOriginalData).value.rows, c,
                       i, m + (Spans(t.rows[m])[c].count - 1), m, t.rows[m].key)
  {
    var kept := if keepRowSpanData then Some(ToJson(t.rows[i])) else None;
    RemoveRowCells(t, k, c, keepRowSpanData, removeOriginalData);
    assert WellFormed(t.rows, c);
    CoveredShrinkCarried(t.rows, i, kept, c, m, RemoveRow(t, k, keepRowSpanData, removeOriginalData).value.rows);
  }

  /** Rows whose cells of column `c` are those the single-column step computes for a
      removed covered row show the shrunk block. */
  lemma CoveredShrinkCarried(rows0: seq<Row>, i: nat, kept: Option<map<string, Value>>, c: string, m: int, r: seq<Row>)
    requires WellFormed(rows0, c) && UniqueKeys(rows0) && i < |rows0| && c in Spans(rows0[i]) && !Spans(rows0[i])[c].isMainRow
    requires m == i + Spans(rows0[i])[c].count
    requires var col := SyncColumnForRemove(Delete(rows0, i), i, Spans(rows0[i])[c], kept, c);
             col.Success? && |col.value| == |r| && forall j :: 0 <= j < |r| ==> SameCell(r[j], col.value[j], c)
    ensures 0 <= m < i && c in Spans(rows0[m])
    ensures SpanOf(r[m], c) == if Spans(rows0[m])[c].count - 1 > 1
                               then Some(SpanData(Spans(rows0[m])[c].count - 1, true, rows0[m].key)) else None
    ensures CoveredRun(r, c, i, m + (Spans(rows0[m])[c].count - 1), m, rows0[m].key)
  {
    assert BlockHead(rows0, i, c) == m;
    CoveredColumnCells(rows0, i, kept, c);
    var col := SyncColumnForRemove(Delete(rows0, i), i, Spans(rows0[i])[c], kept, c);
    SameCellsCarry(r, col.value, c, i, m + (Spans(rows0[m])[c].count - 1), m, rows0[m].key);
  }

  // ---------------------------------------------------------------------------
  // append / prepend (`_createModelList`, `_createDummyRow`)
  // ---------------------------------------------------------------------------

  /** `_createDummyRow`: every data column holds the empty string. */
  function DummyRow(cm: ColumnModel): (raw: RawRow)
    ensures raw.extra == DefaultExtra
    ensures forall c :: c in raw.values <==> c in cm.dataColumnNames
    ensures forall c :: c in raw.values ==> raw.values[c] == Blank
  {
    RawRow(map c | c in cm.dataColumnNames :: Blank, DefaultExtra)
  }

  /** The raw rows `append` formats. */
  function Batch(cm: ColumnModel, data: RowData): seq<RawRow> {
    match data
    case Nothing => [DummyRow(cm)]
    case One(raw) => [raw]
    case Many(raws) => raws
  }

  /** `_createModelList`: formats the batch (seeding its span declarations in natural
      order) and marks every new row as checked. Returns the rows and the new counter. */
  function CreateModelList(t: RowList, cm: ColumnModel, data: RowData): (res: Result<(seq<Row>, int)>)
    ensures res.Success? ==> |res.value.0| == |Batch(cm, data)| && forall j :: 0 <= j < |res.value.0| ==> res.value.0[j].checked
    ensures res.Success? && cm.keyColumnName.None? ==>
              res.value.1 == t.lastRowKey + |res.value.0| &&
              forall j :: 0 <= j < |res.value.0| ==> res.value.0[j].key == Num(t.lastRowKey + 1 + j)
    ensures (forall j :: 0 <= j < |Batch(cm, data)| ==> Batch(cm, data)[j].extra.rowSpan == []) ==>
              res.Success? && forall j :: 0 <= j < |res.value.0| ==> res.value.0[j].extra == Batch(cm, data)[j].extra
    ensures data.Nothing? && res.Success? ==>
              Spans(res.value.0[0]) == map[] &&
              forall c :: c in cm.dataColumnNames && c !in FormatProperties ==> ValueOf(res.value.0[0], c) == Some(Blank)
  {
    var raws := Batch(cm, data);
    var spanEnabled := IsRowSpanEnable(t.sortOptions);
    var formatted := FormatData(raws, t.lastRowKey, cm.keyColumnName, spanEnabled);
    FormattedBatch(raws, t.lastRowKey, cm.keyColumnName, spanEnabled);
    CheckAll(formatted)
  }

  /** The facts about a formatted batch that `_createModelList` passes on: generated keys
      continue the counter, and a batch without declarations formats without failure and
      keeps its `_extraData`. */
  lemma FormattedBatch(raws: seq<RawRow>, lastRowKey: int, keyColumn: Option<string>, spanEnabled: bool)
    ensures var res := FormatData(raws, lastRowKey, keyColumn, spanEnabled);
            res.Success? && keyColumn.None? ==> forall j :: 0 <= j < |raws| ==> res.value.0[j].key == Num(lastRowKey + 1 + j)
    ensures var res := FormatData(raws, lastRowKey, keyColumn, spanEnabled);
            (forall j :: 0 <= j < |raws| ==> raws[j].extra.rowSpan == []) ==>
              res.Success? && forall j :: 0 <= j < |raws| ==> res.value.0[j].extra == raws[j].extra
  {
    if forall j :: 0 <= j < |raws| ==> raws[j].extra.rowSpan == [] {
      FormatUndeclared(raws, lastRowKey, keyColumn, spanEnabled);
    }
    if FormatData(raws, lastRowKey, keyColumn, spanEnabled).Success? && keyColumn.None? {
      FormatDataKeys(raws, lastRowKey, spanEnabled);
    }
  }

  /** The rows `_createModelList` makes from a batch without span metadata are
      consistent in every column, whatever the batch declares. */
  lemma CreateModelListWellFormed(t: RowList, cm: ColumnModel, data: RowData)
    requires CreateModelList(t, cm, data).Success?
    requires forall j :: 0 <= j < |Batch(cm, data)| ==> Batch(cm, data)[j].extra.rowSpanData == map[]
    ensures forall c :: WellFormed(CreateModelList(t, cm, data).value.0, c)
  {
    var raws := Batch(cm, data);
    var spanEnabled := IsRowSpanEnable(t.sortOptions);
    var formatted := FormatData(raws, t.lastRowKey, cm.keyColumnName, spanEnabled);
    var rows := CreateModelList(t, cm, data).value.0;
    assert CreateModelList(t, cm, data) == CheckAll(formatted);
    FormatDataWellFormed(raws, t.lastRowKey, cm.keyColumnName, spanEnabled);
    forall c ensures WellFormed(rows, c) {
      WellFormedCongruent(formatted.value.0, rows, c);
    }
  }

  /** Sets `_button` on every formatted row. */
  function CheckAll(formatted: Result<(seq<Row>, int)>): (res: Result<(seq<Row>, int)>)
    ensures res.Success? <==> formatted.Success?
    ensures res.Success? ==> res.value.1 == formatted.value.1 && |res.value.0| == |formatted.value.0|
    ensures res.Success? ==> forall j :: 0 <= j < |res.value.0| ==>
              res.value.0[j] == formatted.value.0[j].(checked := true)
  {
    match formatted
    case TypeError => TypeError
    case Success((rows, last)) => Success((seq(|rows|, j requires 0 <= j < |rows| => rows[j].(checked := true)), last))
  }

  /** Where Backbone `add` puts the batch: at `at`, or at the end when `at` is past it. */
  function Position(t: RowList, at: Option<nat>): (p: nat)
    ensures p <= |t.rows|
  {
    var index := at.GetOr(|t.rows|);
    if index <= |t.rows| then index else |t.rows|
  }

  /** `append(data, {at, extendPrevRowSpan})` (and `prepend`, which is `at = 0`): formats
      the batch, inserts it and lets the blocks around the insertion point absorb it.
      Returns the new collection and the inserted rows. */
  function Append(t: RowList, cm: ColumnModel, data: RowData, at: Option<nat>, extend: bool): (res: Result<(RowList, seq<Row>)>)
    ensures res.Success? ==>
              && SameKeys(res.value.0.rows, Insert(t.rows, Position(t, at), res.value.1))
              && (forall k {:trigger res.value.0.rows[k]} :: Position(t, at) <= k < Position(t, at) + |res.value.1| ==>
                    res.value.0.rows[k].key == res.value.1[k - Position(t, at)].key && res.value.0.rows[k].checked)
              && res.value.0.sortOptions == t.sortOptions && res.value.0.original == t.original
              && CreateModelList(t, cm, data) == Success((res.value.1, res.value.0.lastRowKey))
    ensures res.Success? ==>
              var inserted := Insert(t.rows, Position(t, at), res.value.1);
              var index := at.GetOr(|t.rows|);
              forall j, c :: 0 <= j < |inserted| && (index == 0 || index > |inserted| || c !in Spans(inserted[index - 1])) ==>
                SameCell(res.value.0.rows[j], inserted[j], c)
    ensures res.Success? && cm.keyColumnName.None? ==>
              && res.value.0.lastRowKey == t.lastRowKey + |res.value.1|
              && forall j :: 0 <= j < |res.value.1| ==> res.value.1[j].key == Num(t.lastRowKey + 1 + j)
  {
    match CreateModelList(t, cm, data)
    case TypeError => TypeError
    case Success((batch, last)) =>
      match SyncRowSpanDataForAppend(Insert(t.rows, Position(t, at), batch), at.GetOr(|t.rows|), |batch|, extend)
      case TypeError => TypeError
      case Success(rows) =>
        Success((t.(rows := rows, lastRowKey := last), batch))
  }

  /** Generated keys above the counter keep keys unique and generated. */
  lemma InsertFreshKeys(rows: seq<Row>, last: int, p: nat, batch: seq<Row>)
    requires UniqueKeys(rows) && KeysGenerated(rows, last) && p <= |rows|
    requires forall j :: 0 <= j < |batch| ==> batch[j].key == Num(last + 1 + j)
    ensures UniqueKeys(Insert(rows, p, batch)) && KeysGenerated(Insert(rows, p, batch), last + |batch|)
  {
    var r := Insert(rows, p, batch);
    forall a, b | 0 <= a < b < |r|
      ensures r[a].key != r[b].key
    {
      var oa := if a < p then a else if a < p + |batch| then -1 else a - |batch|;
      var ob := if b < p then b else if b < p + |batch| then -1 else b - |batch|;
      if oa >= 0 && ob >= 0 {
        assert r[a] == rows[oa] && r[b] == rows[ob];
      } else if oa < 0 && ob < 0 {
        assert r[a] == batch[a - p] && r[b] == batch[b - p];
      } else if oa < 0 {
        assert r[a] == batch[a - p] && r[b] == rows[ob];
      } else {
        assert r[a] == rows[oa] && r[b] == batch[b - p];
      }
    }
  }

  /** Appending rows without a key column and without span declarations or metadata keeps
      the table consistent and never throws. */
  lemma AppendKeepsInvariant(t: RowList, cm: ColumnModel, data: RowData, at: Option<nat>, extend: bool)
    requires Invariant(t) && cm.keyColumnName.None?
    requires forall j :: 0 <= j < |Batch(cm, data)| ==>
               Batch(cm, data)[j].extra.rowSpan == [] && Batch(cm, data)[j].extra.rowSpanData == map[]
    ensures var res := Append(t, cm, data, at, extend);
            res.Success? && Invariant(res.value.0)
  {
    AppendTableOk(t, cm, data, at, extend);
    AppendKeysGenerated(t, cm, data, at, extend);
  }

  lemma AppendTableOk(t: RowList, cm: ColumnModel, data: RowData, at: Option<nat>, extend: bool)
    requires Invariant(t) && cm.keyColumnName.None?
    requires forall j :: 0 <= j < |Batch(cm, data)| ==>
               Batch(cm, data)[j].extra.rowSpan == [] && Batch(cm, data)[j].extra.rowSpanData == map[]
    ensures var res := Append(t, cm, data, at, extend);
            res.Success? && TableOk(res.value.0.rows)
  {
    var (batch, last) := CreateModelList(t, cm, data).value;
    InsertFreshKeys(t.rows, t.lastRowKey, Position(t, at), batch);
    AppendKeepsTableOk(t.rows, at.GetOr(|t.rows|), batch, extend);
  }

  lemma AppendKeysGenerated(t: RowList, cm: ColumnModel, data: RowData, at: Option<nat>, extend: bool)
    requires KeysGenerated(t.rows, t.lastRowKey) && cm.keyColumnName.None?
    requires Append(t, cm, data, at, extend).Success?
    ensures var res := Append(t, cm, data, at, extend);
            KeysGenerated(res.value.0.rows, res.value.0.lastRowKey)
  {
    var res := Append(t, cm, data, at, extend);
    var rows, batch, p := res.value.0.rows, res.value.1, Position(t, at);
    var ins := Insert(t.rows, p, batch);
    forall j | 0 <= j < |rows|
      ensures rows[j].key.Num? && rows[j].key.n <= res.value.0.lastRowKey
    {
      assert rows[j].key == ins[j].key;
      if j < p {
        assert ins[j] == t.rows[j];
      } else if j < p + |batch| {
        assert ins[j] == batch[j - p];
      } else {
        assert ins[j] == t.rows[j - |batch|];
      }
    }
  }

  /** Without a key column the appended rows carry fresh keys, and the collection gains
      exactly those. */
  lemma AppendKeySet(t: RowList, cm: ColumnModel, data: RowData, at: Option<nat>, extend: bool)
    requires KeysGenerated(t.rows, t.lastRowKey) && cm.keyColumnName.None?
    requires Append(t, cm, data, at, extend).Success?
    ensures var res := Append(t, cm, data, at, extend);
            && KeySet(res.value.0.rows) == KeySet(t.rows) + KeySet(res.value.1)
            && forall j :: 0 <= j < |res.value.1| ==> res.value.1[j].key !in KeySet(t.rows)
  {
    var res := Append(t, cm, data, at, extend);
    var p := Position(t, at);
    SameKeysKeySet(res.value.0.rows, Insert(t.rows, p, res.value.1));
    InsertKeySet(t.rows, p, res.value.1);
  }

  // ---------------------------------------------------------------------------
  // setOriginalRowList
  // ---------------------------------------------------------------------------

  /** `setOriginalRowList(list)`: the baseline becomes the given rows, formatted (which
      advances the key counter), or the current rows when none are given. */
  function SetOriginalRowList(t: RowList, cm: ColumnModel, data: Option<seq<RawRow>>): (res: Result<RowList>)
    ensures data.None? ==> res.Success? && res.value.original == Snapshot(t.rows) && res.value.lastRowKey == t.lastRowKey
    ensures res.Success? ==> res.value.rows == t.rows && res.value.sortOptions == t.sortOptions
    ensures data.Some? ==> (res.Success? <==> FormatData(data.value, t.lastRowKey, cm.keyColumnName, IsRowSpanEnable(t.sortOptions)).Success?)
    ensures res.Success? && data.Some? ==>
              res.value.original == Snapshot(FormatData(data.value, t.lastRowKey, cm.keyColumnName, IsRowSpanEnable(t.sortOptions)).value.0)
    ensures res.Success? && data.Some? ==> |res.value.original| == |data.value|
    ensures res.Success? && data.Some? && cm.keyColumnName.None? ==> res.value.lastRowKey == t.lastRowKey + |data.value|
  {
    match data
    case None => Success(t.(original := Snapshot(t.rows)))
    case Some(raws) =>
      match FormatData(raws, t.lastRowKey, cm.keyColumnName, IsRowSpanEnable(t.sortOptions))
      case TypeError => TypeError
      case Success((rows, last)) => Success(t.(original := Snapshot(rows), lastRowKey := last))
  }

  /** A baseline set from given rows without a key column numbers them from the old
      counter on and carries each row's checked flag as `_button`. */
  lemma SetOriginalRowListKeys(t: RowList, cm: ColumnModel, raws: seq<RawRow>)
    requires cm.keyColumnName.None? && SetOriginalRowList(t, cm, Some(raws)).Success?
    ensures var original := SetOriginalRowList(t, cm, Some(raws)).value.original;
            forall j :: 0 <= j < |raws| ==>
              && original[j][KeyProperty] == Num(t.lastRowKey + 1 + j)
              && original[j][ButtonProperty] == Bool(raws[j].extra.rowState == Some(CheckedState))
  {
    var spanEnabled := IsRowSpanEnable(t.sortOptions);
    FormatDataKeys(raws, t.lastRowKey, spanEnabled);
    FormatDataChecked(raws, t.lastRowKey, None, spanEnabled);
  }
}
