/** The modification report of src/js/data/rowList.js: what changed between the baseline
    rows and the current rows, compared as plain objects indexed by row key. */
module Diff {
  import opened Wrappers
  import opened Values
  import opened Rows
  import opened Blocks
  import opened Table

  /** The properties the collection adds to rows for its own use. */
  const PrivateProperties: set<string> := {ButtonProperty, NumberProperty, ExtraProperty}

  /** `_removePrivateProp`: the plain rows without the private properties. */
  function RemovePrivateProp(objs: seq<map<string, Value>>): (r: seq<map<string, Value>>)
    ensures |r| == |objs|
    ensures forall j :: 0 <= j < |objs| ==> r[j].Keys == objs[j].Keys - PrivateProperties
    ensures forall j, c :: 0 <= j < |objs| && c in r[j] ==> r[j][c] == objs[j][c]
  {
    seq(|objs|, j requires 0 <= j < |objs| => objs[j] - PrivateProperties)
  }

  /** Stripping twice strips nothing more, and the row key always survives. */
  lemma RemovePrivatePropIdempotent(objs: seq<map<string, Value>>)
    ensures RemovePrivateProp(RemovePrivateProp(objs)) == RemovePrivateProp(objs)
    ensures forall j :: 0 <= j < |objs| && KeyProperty in objs[j] ==>
              KeyProperty in RemovePrivateProp(objs)[j] && RemovePrivateProp(objs)[j][KeyProperty] == objs[j][KeyProperty]
  {
    var once := RemovePrivateProp(objs);
    var twice := RemovePrivateProp(once);
    forall j | 0 <= j < |objs|
      ensures twice[j] == once[j]
    {
      assert twice[j].Keys == once[j].Keys;
    }
  }

  /** The view the report compares: raw, or without the private properties. */
  function View(objs: seq<map<string, Value>>, isRaw: bool): seq<map<string, Value>> {
    if isRaw then objs else RemovePrivateProp(objs)
  }

  predicate HasKey(o: map<string, Value>, k: Key) {
    KeyProperty in o && o[KeyProperty] == k
  }

  /** No later object carries the key of object `j`. */
  predicate LastWithKey(objs: seq<map<string, Value>>, j: nat)
    requires j < |objs| && KeyProperty in objs[j]
  {
    forall j' :: j < j' < |objs| ==> !HasKey(objs[j'], objs[j][KeyProperty])
  }

  /** `_.indexBy(objs, 'rowKey')`: each key maps to the last object that carries it.
      Objects without a row key are skipped. */
  function IndexBy(objs: seq<map<string, Value>>): (m: map<Key, map<string, Value>>)
    decreases |objs|
    ensures forall j :: 0 <= j < |objs| && KeyProperty in objs[j] ==> objs[j][KeyProperty] in m
    ensures forall k :: k in m ==> exists j :: 0 <= j < |objs| && HasKey(objs[j], k) && m[k] == objs[j]
    ensures forall j :: 0 <= j < |objs| && KeyProperty in objs[j] && LastWithKey(objs, j) ==> m[objs[j][KeyProperty]] == objs[j]
  {
    if objs == [] then map[]
    else
      var init := objs[..|objs| - 1];
      var last := objs[|objs| - 1];
      var m := IndexBy(init);
      assert forall j :: 0 <= j < |init| ==> init[j] == objs[j];
      if KeyProperty in last then m[last[KeyProperty] := last] else m
  }

  /** Whether one value differs from the original's. The source compares objects (and
      `null`) by their serialization and everything else with `!==`; with structural
      values both amount to inequality. A column the original lacks always differs. */
  predicate Differs(v: Value, original: Option<Value>) {
    original != Some(v)
  }

  /** `_isModifiedRow(row, originalRow, filtered)`: some column of the current row that
      is not filtered out differs from the original. */
  predicate IsModifiedRow(row: map<string, Value>, original: map<string, Value>, filtered: set<string>) {
    exists c :: c in row && c !in filtered && Differs(row[c], if c in original then Some(original[c]) else None)
  }

  /** A row is modified exactly when some unfiltered column-value pair of it is not a
      column-value pair of the original. */
  lemma IsModifiedRowByItems(row: map<string, Value>, original: map<string, Value>, filtered: set<string>)
    ensures IsModifiedRow(row, original, filtered) <==> !((row - filtered).Items <= original.Items)
  {
    var kept := row - filtered;
    if IsModifiedRow(row, original, filtered) {
      var c :| c in row && c !in filtered && Differs(row[c], if c in original then Some(original[c]) else None);
      assert (c, row[c]) in kept.Items;
      assert (c, row[c]) !in original.Items;
    } else {
      forall p | p in kept.Items
        ensures p in original.Items
      {
        var c := p.0;
        assert c in kept && kept[c] == p.1;
        assert !Differs(row[c], if c in original then Some(original[c]) else None);
      }
    }
  }

  /** A row is never modified with respect to itself. */
  lemma UnmodifiedRowIsNotModified(row: map<string, Value>, filtered: set<string>)
    ensures !IsModifiedRow(row, row, filtered)
  {
  }

  /** Filtering out more columns can only hide modifications. */
  lemma FilteringHidesModifications(row: map<string, Value>, original: map<string, Value>, f1: set<string>, f2: set<string>)
    requires f1 <= f2
    ensures IsModifiedRow(row, original, f2) ==> IsModifiedRow(row, original, f1)
  {
  }

  /** Only the current row's columns are compared: a column present only in the
      original (one the current row lost) never makes a row modified. */
  lemma LostColumnsGoUnnoticed(row: map<string, Value>, original: map<string, Value>, filtered: set<string>, c: string, v: Value)
    requires c !in row
    ensures IsModifiedRow(row, original[c := v], filtered) <==> IsModifiedRow(row, original, filtered)
  {
  }

  /** `getModifiedRowList` options; `filteringColumnList` is a set since only membership
      matters. */
  datatype DiffOptions = DiffOptions(isOnlyChecked: bool, isRaw: bool, isOnlyRowKeyList: bool, filteringColumnList: set<string>)

  /** An entry of a report list: a row key, or the row itself. */
  datatype Item = KeyItem(key: Key) | RowItem(row: map<string, Value>)

  /** The three lists of the report, as sets: their order is that in which JavaScript
      enumerates the keys of an object. */
  datatype ModifiedRowList = ModifiedRowList(createList: set<Item>, updateList: set<Item>, deleteList: set<Item>)

  function Baseline(t: RowList, o: DiffOptions): map<Key, map<string, Value>> {
    IndexBy(View(t.original, o.isRaw))
  }

  function Current(t: RowList, o: DiffOptions): map<Key, map<string, Value>> {
    IndexBy(View(Snapshot(t.rows), o.isRaw))
  }

  /** `this.get(rowKey).get('_button')`. */
  predicate IsChecked(rows: seq<Row>, k: Key) {
    Find(rows, k).Some? && rows[Find(rows, k).value].checked
  }

  function ItemOf(o: DiffOptions, k: Key, row: map<string, Value>): Item {
    if o.isOnlyRowKeyList then KeyItem(k) else RowItem(row)
  }

  /** The current rows indexed by key hold exactly the collection's keys, each under its
      own key. */
  lemma CurrentKeys(t: RowList, o: DiffOptions)
    ensures Current(t, o).Keys == KeySet(t.rows)
    ensures forall k :: k in Current(t, o) ==> HasKey(Current(t, o)[k], k)
  {
    ViewKeepsKeys(t.rows, o.isRaw);
    IndexAllKeyed(View(Snapshot(t.rows), o.isRaw), t.rows);
  }

  /** Indexing objects that all carry the key of the matching row yields exactly the
      rows' keys. */
  lemma IndexAllKeyed(objs: seq<map<string, Value>>, rows: seq<Row>)
    requires |objs| == |rows|
    requires forall j :: 0 <= j < |rows| ==> HasKey(objs[j], rows[j].key)
    ensures IndexBy(objs).Keys == KeySet(rows)
    ensures forall k :: k in IndexBy(objs) ==> HasKey(IndexBy(objs)[k], k)
  {
    var m := IndexBy(objs);
    forall k | k in KeySet(rows) ensures k in m {
      var j :| 0 <= j < |rows| && rows[j].key == k;
      assert HasKey(objs[j], k);
    }
    forall k | k in m ensures k in KeySet(rows) {
      var j :| 0 <= j < |objs| && HasKey(objs[j], k) && m[k] == objs[j];
      assert HasKey(objs[j], rows[j].key);
    }
  }

  /** Both views of the current rows carry every row's key. */
  lemma ViewKeepsKeys(rows: seq<Row>, isRaw: bool)
    ensures |View(Snapshot(rows), isRaw)| == |rows|
    ensures forall j :: 0 <= j < |rows| ==> HasKey(View(Snapshot(rows), isRaw)[j], rows[j].key)
  {
    var s := Snapshot(rows);
    forall j | 0 <= j < |rows| ensures HasKey(s[j], rows[j].key) {
      assert s[j] == ToJson(rows[j]);
    }
    RemovePrivatePropIdempotent(s);
  }

  /** Every baseline object is indexed under its own key. */
  lemma BaselineKeys(t: RowList, o: DiffOptions)
    ensures forall k :: k in Baseline(t, o) ==> HasKey(Baseline(t, o)[k], k)
  {
  }

  /** Whether `isOnlyChecked` lets the row with key `k` be reported. */
  predicate Eligible(t: RowList, o: DiffOptions, k: Key) {
    !o.isOnlyChecked || IsChecked(t.rows, k)
  }

  function CreatedKeys(t: RowList, o: DiffOptions): set<Key> {
    set k | k in Current(t, o) && Eligible(t, o, k) && k !in Baseline(t, o)
  }

  function UpdatedKeys(t: RowList, cm: ColumnModel, o: DiffOptions): set<Key> {
    set k | k in Current(t, o) && Eligible(t, o, k) && k in Baseline(t, o) &&
            IsModifiedRow(Current(t, o)[k], Baseline(t, o)[k], o.filteringColumnList + cm.ignoredColumnNames)
  }

  function DeletedKeys(t: RowList, o: DiffOptions): set<Key> {
    set k | k in Baseline(t, o) && k !in Current(t, o)
  }

  /** The report entries of the rows with the given keys. */
  function Items(o: DiffOptions, keys: set<Key>, index: map<Key, map<string, Value>>): (r: set<Item>)
    requires keys <= index.Keys
    ensures o.isOnlyRowKeyList ==> forall k :: KeyItem(k) in r <==> k in keys
    ensures !o.isOnlyRowKeyList ==> forall i :: i in r <==> exists k :: k in keys && i == RowItem(index[k])
  {
    set k | k in keys :: ItemOf(o, k, index[k])
  }

  /** `getModifiedRowList(options)`: rows whose key is only current are created, rows
      whose key is only in the baseline are deleted, and rows in both whose unfiltered
      columns differ are updated. `isOnlyChecked` narrows the first two to checked rows;
      the column model's ignored columns are always filtered. */
  function GetModifiedRowList(t: RowList, cm: ColumnModel, o: DiffOptions): (r: ModifiedRowList)
    ensures o.isOnlyRowKeyList ==> forall k ::
              KeyItem(k) in r.createList <==> k in KeySet(t.rows) && k !in Baseline(t, o) && Eligible(t, o, k)
    ensures o.isOnlyRowKeyList ==> forall k ::
              KeyItem(k) in r.updateList <==>
                (&& k in KeySet(t.rows) && k in Baseline(t, o) && Eligible(t, o, k)
                 && IsModifiedRow(Current(t, o)[k], Baseline(t, o)[k], o.filteringColumnList + cm.ignoredColumnNames))
    ensures o.isOnlyRowKeyList ==> forall k ::
              KeyItem(k) in r.deleteList <==> k in Baseline(t, o) && k !in KeySet(t.rows)
  {
    CurrentKeys(t, o);
    ModifiedRowList(
      Items(o, CreatedKeys(t, o), Current(t, o)),
      Items(o, UpdatedKeys(t, cm, o), Current(t, o)),
      Items(o, DeletedKeys(t, o), Baseline(t, o)))
  }

  /** In the default mode each list holds row objects, each found under its own key:
      the current row for created and updated keys, the baseline row for deleted ones. */
  ghost predicate ListsRows(items: set<Item>, keys: set<Key>, index: map<Key, map<string, Value>>)
    requires keys <= index.Keys
  {
    && (forall i :: i in items ==> i.RowItem?)
    && forall m :: RowItem(m) in items <==> KeyProperty in m && m[KeyProperty] in keys && m == index[m[KeyProperty]]
  }

  /** Listing the rows of some keys of an index whose objects carry their own keys. */
  lemma ItemsAreRows(o: DiffOptions, keys: set<Key>, index: map<Key, map<string, Value>>)
    requires !o.isOnlyRowKeyList && keys <= index.Keys
    requires forall k :: k in index ==> HasKey(index[k], k)
    ensures ListsRows(Items(o, keys, index), keys, index)
  {
    var r := Items(o, keys, index);
    forall m ensures RowItem(m) in r <==> KeyProperty in m && m[KeyProperty] in keys && m == index[m[KeyProperty]] {
      if KeyProperty in m && m[KeyProperty] in keys && m == index[m[KeyProperty]] {
        assert RowItem(index[m[KeyProperty]]) in r;
      }
    }
  }

  /** The default mode of `getModifiedRowList`: created rows are the current rows whose
      key is only current (and checked, if asked), updated rows the current rows whose
      key is in both with a differing unfiltered column (and checked, if asked), deleted
      rows the baseline rows whose key is only in the baseline. */
  lemma GetModifiedRowListRows(t: RowList, cm: ColumnModel, o: DiffOptions)
    requires !o.isOnlyRowKeyList
    ensures Current(t, o).Keys == KeySet(t.rows)
    ensures var r := GetModifiedRowList(t, cm, o);
            && CreatedKeys(t, o) <= Current(t, o).Keys
            && ListsRows(r.createList, CreatedKeys(t, o), Current(t, o))
            && forall k :: k in CreatedKeys(t, o) <==> k in KeySet(t.rows) && k !in Baseline(t, o) && Eligible(t, o, k)
    ensures var r := GetModifiedRowList(t, cm, o);
            && UpdatedKeys(t, cm, o) <= Current(t, o).Keys
            && ListsRows(r.updateList, UpdatedKeys(t, cm, o), Current(t, o))
            && forall k :: k in UpdatedKeys(t, cm, o) <==>
                 (&& k in KeySet(t.rows) && k in Baseline(t, o) && Eligible(t, o, k)
                  && IsModifiedRow(Current(t, o)[k], Baseline(t, o)[k], o.filteringColumnList + cm.ignoredColumnNames))
    ensures var r := GetModifiedRowList(t, cm, o);
            && DeletedKeys(t, o) <= Baseline(t, o).Keys
            && ListsRows(r.deleteList, DeletedKeys(t, o), Baseline(t, o))
            && forall k :: k in DeletedKeys(t, o) <==> k in Baseline(t, o) && k !in KeySet(t.rows)
  {
    CurrentKeys(t, o);
    BaselineKeys(t, o);
    ItemsAreRows(o, CreatedKeys(t, o), Current(t, o));
    ItemsAreRows(o, UpdatedKeys(t, cm, o), Current(t, o));
    ItemsAreRows(o, DeletedKeys(t, o), Baseline(t, o));
  }

  /** A row is reported at most once: the three lists are disjoint. */
  lemma ModifiedListsDisjoint(t: RowList, cm: ColumnModel, o: DiffOptions)
    ensures var r := GetModifiedRowList(t, cm, o);
            r.createList !! r.updateList && r.createList !! r.deleteList && r.updateList !! r.deleteList
  {
    CurrentKeys(t, o);
    BaselineKeys(t, o);
  }

  /** `isOnlyChecked` does not narrow the deletions. */
  lemma DeletionsIgnoreChecks(t: RowList, cm: ColumnModel, o: DiffOptions)
    ensures GetModifiedRowList(t, cm, o).deleteList == GetModifiedRowList(t, cm, o.(isOnlyChecked := false)).deleteList
    ensures o.isOnlyChecked ==> GetModifiedRowList(t, cm, o).createList <= GetModifiedRowList(t, cm, o.(isOnlyChecked := false)).createList
    ensures o.isOnlyChecked ==> GetModifiedRowList(t, cm, o).updateList <= GetModifiedRowList(t, cm, o.(isOnlyChecked := false)).updateList
  {
  }

  /** Right after the baseline is taken from the current rows nothing is modified. */
  lemma NothingModifiedAfterBaseline(t: RowList, cm: ColumnModel, o: DiffOptions)
    ensures var t1 := SetOriginalRowList(t, cm, None).value;
            GetModifiedRowList(t1, cm, o) == ModifiedRowList({}, {}, {})
  {
    var t1 := SetOriginalRowList(t, cm, None).value;
    assert Baseline(t1, o) == Current(t1, o);
    forall k | k in Current(t1, o)
      ensures !IsModifiedRow(Current(t1, o)[k], Baseline(t1, o)[k], o.filteringColumnList + cm.ignoredColumnNames)
    {
      UnmodifiedRowIsNotModified(Current(t1, o)[k], o.filteringColumnList + cm.ignoredColumnNames);
    }
  }

  /** Removing a row that the baseline holds, without resetting the baseline, reports
      its key as deleted. */
  lemma RemovedRowIsDeleted(t: RowList, cm: ColumnModel, o: DiffOptions, k: Key, keepRowSpanData: bool)
    requires Invariant(t) && o.isOnlyRowKeyList
    requires k in Baseline(t, o)
    ensures var res := RemoveRow(t, k, keepRowSpanData, false);
            res.Success? && KeyItem(k) in GetModifiedRowList(res.value, cm, o).deleteList
  {
    RemoveRowKeepsInvariant(t, k, keepRowSpanData, false);
  }

  /** The baseline holds only keys the counter has already handed out. */
  predicate BaselineGenerated(t: RowList) {
    KeysBelow(t.original, t.lastRowKey)
  }

  /** Every keyed object carries a generated key no greater than `last`. */
  predicate KeysBelow(objs: seq<map<string, Value>>, last: int) {
    forall j :: 0 <= j < |objs| && KeyProperty in objs[j] ==>
      objs[j][KeyProperty].Num? && objs[j][KeyProperty].n <= last
  }

  /** Taking the baseline from a consistent collection gives such a baseline. */
  lemma BaselineFromCurrentIsGenerated(t: RowList, cm: ColumnModel)
    requires Invariant(t)
    ensures BaselineGenerated(SetOriginalRowList(t, cm, None).value)
  {
    var t1 := SetOriginalRowList(t, cm, None).value;
    forall j | 0 <= j < |t1.original|
      ensures t1.original[j][KeyProperty].Num? && t1.original[j][KeyProperty].n <= t1.lastRowKey
    {
      assert t1.original[j] == ToJson(t.rows[j]);
    }
  }

  /** A key the counter has not reached is not in such a baseline. */
  lemma FreshKeyNotInBaseline(original: seq<map<string, Value>>, last: int, o: DiffOptions, n: int)
    requires KeysBelow(original, last)
    requires n > last
    ensures Num(n) !in IndexBy(View(original, o.isRaw))
  {
    var objs := View(original, o.isRaw);
    RemovePrivatePropIdempotent(original);
    forall i | 0 <= i < |objs| ensures !HasKey(objs[i], Num(n)) {
      assert KeyProperty in objs[i] ==> KeyProperty in original[i] && objs[i][KeyProperty] == original[i][KeyProperty];
    }
  }

  /** A checked row whose key is fresh with respect to the baseline is reported as
      created. */
  lemma FreshCheckedRowIsCreated(t: RowList, cm: ColumnModel, o: DiffOptions, last: int, q: nat, k: Key)
    requires UniqueKeys(t.rows) && o.isOnlyRowKeyList && q < |t.rows|
    requires KeysBelow(t.original, last)
    requires t.rows[q].key == k && k.Num? && k.n > last && t.rows[q].checked
    ensures KeyItem(k) in GetModifiedRowList(t, cm, o).createList
  {
    FindUnique(t.rows, q);
    FreshKeyNotInBaseline(t.original, last, o, k.n);
  }

  /** The rows of `batch` sit, checked, at index `p` of `rows`, and carry the keys the
      counter hands out after `last`. */
  predicate FreshAt(rows: seq<Row>, p: nat, batch: seq<Row>, last: int) {
    && p + |batch| <= |rows|
    && forall k {:trigger rows[k]} :: p <= k < p + |batch| ==>
         rows[k].key == batch[k - p].key == Num(last + 1 + (k - p)) && rows[k].checked
  }

  /** Checked rows with keys past the counter of a baseline it generated are all
      reported as created. */
  lemma FreshCheckedRowsAreCreated(t: RowList, t1: RowList, cm: ColumnModel, o: DiffOptions, p: nat, batch: seq<Row>)
    requires UniqueKeys(t1.rows) && o.isOnlyRowKeyList && BaselineGenerated(t) && t1.original == t.original
    requires FreshAt(t1.rows, p, batch, t.lastRowKey)
    ensures forall j :: 0 <= j < |batch| ==> KeyItem(batch[j].key) in GetModifiedRowList(t1, cm, o).createList
  {
    forall j | 0 <= j < |batch|
      ensures KeyItem(batch[j].key) in GetModifiedRowList(t1, cm, o).createList
    {
      FreshBatchRowIsCreated(t, t1, cm, o, p, batch, j);
    }
  }

  lemma FreshBatchRowIsCreated(t: RowList, t1: RowList, cm: ColumnModel, o: DiffOptions, p: nat, batch: seq<Row>, j: nat)
    requires UniqueKeys(t1.rows) && o.isOnlyRowKeyList && BaselineGenerated(t) && t1.original == t.original
    requires FreshAt(t1.rows, p, batch, t.lastRowKey) && j < |batch|
    ensures KeyItem(batch[j].key) in GetModifiedRowList(t1, cm, o).createList
  {
    assert t1.rows[p + j].key == batch[j].key;
    FreshCheckedRowIsCreated(t1, cm, o, t.lastRowKey, p + j, batch[j].key);
  }

  /** Appended rows, which start out checked, are reported as created even when only
      checked rows are asked for, provided the baseline holds only keys the counter has
      already handed out. */
  lemma AppendedRowsAreCreated(t: RowList, cm: ColumnModel, o: DiffOptions, data: RowData, at: Option<nat>, extend: bool)
    requires Invariant(t) && cm.keyColumnName.None? && o.isOnlyRowKeyList && BaselineGenerated(t)
    requires forall j :: 0 <= j < |Batch(cm, data)| ==>
               Batch(cm, data)[j].extra.rowSpan == [] && Batch(cm, data)[j].extra.rowSpanData == map[]
    ensures var res := Append(t, cm, data, at, extend);
            res.Success? && forall j :: 0 <= j < |res.value.1| ==>
              KeyItem(res.value.1[j].key) in GetModifiedRowList(res.value.0, cm, o).createList
  {
    var res := Append(t, cm, data, at, extend);
    AppendFacts(t, cm, data, at, extend);
    AppendFresh(t, cm, data, at, extend);
    FreshCheckedRowsAreCreated(t, res.value.0, cm, o, Position(t, at), res.value.1);
  }

  /** What appending tells about the new rows: fresh keys, checked, in place. */
  lemma AppendFacts(t: RowList, cm: ColumnModel, data: RowData, at: Option<nat>, extend: bool)
    requires Invariant(t) && cm.keyColumnName.None?
    requires forall j :: 0 <= j < |Batch(cm, data)| ==>
               Batch(cm, data)[j].extra.rowSpan == [] && Batch(cm, data)[j].extra.rowSpanData == map[]
    ensures var res := Append(t, cm, data, at, extend);
            && res.Success? && UniqueKeys(res.value.0.rows) && res.value.0.original == t.original
  {
    AppendKeepsInvariant(t, cm, data, at, extend);
  }

  /** The appended rows sit at the insertion position with keys above the old counter. */
  lemma AppendFresh(t: RowList, cm: ColumnModel, data: RowData, at: Option<nat>, extend: bool)
    requires cm.keyColumnName.None? && Append(t, cm, data, at, extend).Success?
    ensures var res := Append(t, cm, data, at, extend);
            FreshAt(res.value.0.rows, Position(t, at), res.value.1, t.lastRowKey)
  {
  }
}
