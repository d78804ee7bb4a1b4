/** The row entity of the grid's data source (src/js/data/rowList.js): a record with a
    stable row key, column values, a checked flag and the `_extraData` block that carries
    row-span declarations, per-column row-span metadata and the row state. */
module Rows {
  import opened Wrappers
  import opened Values

  /** Row keys are generated integers or the value of the key column. */
  type Key = Value

  /** Row-span metadata of one cell. On a main row `count` is the size of the merged
      block; on a covered row it is the negative distance to the main row. A count of 0
      means "not spanned". */
  datatype SpanData = SpanData(count: int, isMainRow: bool, mainRowKey: Key)

  /** A caller-supplied span declaration `_extraData.rowSpan[column] = count`; kept in
      the insertion order of the JavaScript object. */
  datatype SpanDecl = SpanDecl(column: string, count: int)

  /** `_extraData` after merging with its defaults: no declarations, no span metadata and
      no row state. */
  datatype Extra = Extra(rowSpan: seq<SpanDecl>, rowSpanData: map<string, SpanData>, rowState: Option<string>)

  const DefaultExtra: Extra := Extra([], map[], None)

  /** A row as supplied by the caller, before formatting. */
  datatype RawRow = RawRow(values: map<string, Value>, extra: Extra)

  /** A formatted row: `rowKey`, column values, `_button` and `_extraData`. */
  datatype Row = Row(key: Key, values: map<string, Value>, checked: bool, extra: Extra)

  const KeyProperty: string := "rowKey"
  const ButtonProperty: string := "_button"
  const NumberProperty: string := "_number"
  const ExtraProperty: string := "_extraData"

  /** The properties that formatting writes onto every row object. */
  const FormatProperties: set<string> := {KeyProperty, ButtonProperty, ExtraProperty}

  /** The row state that makes a formatted row start out checked. */
  const CheckedState: string := "CHECKED"

  function Spans(r: Row): map<string, SpanData> {
    r.extra.rowSpanData
  }

  function SpanOf(r: Row, c: string): Option<SpanData> {
    if c in Spans(r) then Some(Spans(r)[c]) else None
  }

  function ValueOf(r: Row, c: string): Option<Value> {
    if c in r.values then Some(r.values[c]) else None
  }

  /** `getRowSpanData(c)`: a cell without metadata reads as a main row of count 0 that
      names its own row. */
  function SpanDataOf(r: Row, c: string): (d: SpanData)
    ensures c !in Spans(r) ==> d.count == 0 && d.isMainRow && d.mainRowKey == r.key
    ensures c in Spans(r) ==> SpanOf(r, c) == Some(d)
  {
    if c in Spans(r) then Spans(r)[c] else SpanData(0, true, r.key)
  }

  /** The span count of a cell; a cell without metadata reads as count 0. */
  function CountOf(r: Row, c: string): int {
    if c in Spans(r) then Spans(r)[c].count else 0
  }

  /** Sets `c` to `v`, or removes it when `v` is `None` (JavaScript `undefined`). */
  function Put<V>(m: map<string, V>, c: string, v: Option<V>): (m': map<string, V>)
    ensures c in m' <==> v.Some?
    ensures v.Some? ==> m'[c] == v.value
    ensures forall d :: d != c ==> (d in m' <==> d in m)
    ensures forall d :: d != c && d in m ==> m'[d] == m[d]
  {
    match v
    case Some(x) => m[c := x]
    case None => m - {c}
  }

  function WithValue(r: Row, c: string, v: Option<Value>): (r': Row)
    ensures ValueOf(r', c) == v
  {
    r.(values := Put(r.values, c, v))
  }

  /** `setRowSpanData(c, d)`; a `None` argument (`null` in the source) clears the cell. */
  function WithSpan(r: Row, c: string, d: Option<SpanData>): (r': Row)
    ensures SpanOf(r', c) == d
  {
    r.(extra := r.extra.(rowSpanData := Put(r.extra.rowSpanData, c, d)))
  }

  /** `setRowSpanData(c, {count: n})`, merged into the existing metadata of the cell. */
  function WithCount(r: Row, c: string, n: int): (r': Row)
    requires c in Spans(r)
    ensures SpanOf(r', c) == Some(Spans(r)[c].(count := n))
  {
    WithSpan(r, c, Some(Spans(r)[c].(count := n)))
  }

  /** `_createRowKey`: advances the counter and returns its new value as the key. */
  function CreateRowKey(lastRowKey: int): (r: (Key, int))
    ensures r.1 > lastRowKey
    ensures r.0 == Num(r.1)
  {
    (Num(lastRowKey + 1), lastRowKey + 1)
  }

  /** `_baseFormat`: assigns the row key (generated, or read from the key column),
      merges `_extraData` with its defaults and derives the checked flag from the row
      state. Returns the row and the new key counter. */
  function BaseFormat(raw: RawRow, lastRowKey: int, keyColumn: Option<string>): (r: (Row, int))
    ensures r.0.checked <==> raw.extra.rowState == Some(CheckedState)
    ensures keyColumn.None? ==> r.0.key == Num(lastRowKey + 1) && r.1 == lastRowKey + 1
    ensures keyColumn.Some? ==> r.1 == lastRowKey
    ensures keyColumn.Some? && keyColumn.value in raw.values ==> r.0.key == raw.values[keyColumn.value]
    ensures keyColumn.Some? && keyColumn.value !in raw.values ==> r.0.key == Null
    ensures r.0.extra == raw.extra
    ensures r.0.values.Keys == raw.values.Keys - FormatProperties
    ensures forall c :: c in r.0.values ==> r.0.values[c] == raw.values[c]
  {
    var (key, last) := match keyColumn
      case None => CreateRowKey(lastRowKey)
      case Some(k) => (if k in raw.values then raw.values[k] else Null, lastRowKey);
    (Row(key, raw.values - FormatProperties, raw.extra.rowState == Some(CheckedState), raw.extra), last)
  }

  function EncodeSpanData(d: SpanData): Value {
    Obj(map["count" := Num(d.count), "isMainRow" := Bool(d.isMainRow), "mainRowKey" := d.mainRowKey])
  }

  function EncodeDecls(decls: seq<SpanDecl>): map<string, Value>
    decreases |decls|
  {
    if decls == [] then map[]
    else EncodeDecls(decls[..|decls| - 1])[decls[|decls| - 1].column := Num(decls[|decls| - 1].count)]
  }

  function EncodeExtra(e: Extra): Value {
    Obj(map[
      "rowSpan" := Obj(EncodeDecls(e.rowSpan)),
      "rowSpanData" := Obj(map c | c in e.rowSpanData :: EncodeSpanData(e.rowSpanData[c])),
      "rowState" := (match e.rowState case Some(s) => Str(s) case None => Null)])
  }

  /** The plain object of a row (Backbone `toJSON`): its column values together with
      `rowKey`, `_button` and `_extraData`. */
  function ToJson(r: Row): (j: map<string, Value>)
    ensures j.Keys == r.values.Keys + FormatProperties
    ensures j[KeyProperty] == r.key
    ensures forall c :: c in r.values && c !in FormatProperties ==> j[c] == r.values[c]
  {
    r.values + map[KeyProperty := r.key, ButtonProperty := Bool(r.checked), ExtraProperty := EncodeExtra(r.extra)]
  }

  /** `get(column)` on a row model; `None` is `undefined`. */
  function Attribute(r: Row, column: string): Option<Value> {
    var j := ToJson(r);
    if column in j then Some(j[column]) else None
  }

  /** Collection `get(rowKey)` followed by `indexOf`: the index of the first row with key
      `k`, if any. */
  function Find(rows: seq<Row>, k: Key): (r: Option<nat>)
    ensures r.Some? ==> r.value < |rows| && rows[r.value].key == k
    ensures r.Some? ==> forall j :: 0 <= j < r.value ==> rows[j].key != k
    ensures r.None? ==> forall j :: 0 <= j < |rows| ==> rows[j].key != k
  {
    if |rows| == 0 then None
    else if rows[0].key == k then Some(0)
    else match Find(rows[1..], k)
      case None => None
      case Some(j) => Some(j + 1)
  }

  function KeySet(rows: seq<Row>): set<Key> {
    set j | 0 <= j < |rows| :: rows[j].key
  }

  /** Two tables holding rows with the same keys in the same order. */
  predicate SameKeys(a: seq<Row>, b: seq<Row>) {
    |a| == |b| && forall j :: 0 <= j < |a| ==> a[j].key == b[j].key
  }

  predicate UniqueKeys(rows: seq<Row>) {
    forall a, b :: 0 <= a < b < |rows| ==> rows[a].key != rows[b].key
  }

  /** Backbone `remove` of the row at index `i`. */
  function Delete(rows: seq<Row>, i: nat): (r: seq<Row>)
    requires i < |rows|
    ensures |r| == |rows| - 1
    ensures forall j {:trigger r[j]} :: 0 <= j < i ==> r[j] == rows[j]
    ensures forall j :: i <= j < |r| ==> r[j] == rows[j + 1]
  {
    rows[..i] + rows[i + 1..]
  }

  /** Backbone `add(batch, {at: p})`. */
  function Insert(rows: seq<Row>, p: nat, batch: seq<Row>): (r: seq<Row>)
    requires p <= |rows|
    ensures |r| == |rows| + |batch|
    ensures forall j {:trigger r[j]} :: 0 <= j < p ==> r[j] == rows[j]
    ensures forall j :: p <= j < p + |batch| ==> r[j] == batch[j - p]
    ensures forall j :: p + |batch| <= j < |r| ==> r[j] == rows[j - |batch|]
  {
    rows[..p] + batch + rows[p..]
  }

  /** With unique keys, looking a key up finds exactly the row that carries it. */
  lemma FindUnique(rows: seq<Row>, j: nat)
    requires UniqueKeys(rows)
    requires j < |rows|
    ensures Find(rows, rows[j].key) == Some(j)
  {
  }

  lemma SameKeysKeySet(a: seq<Row>, b: seq<Row>)
    requires SameKeys(a, b)
    ensures KeySet(a) == KeySet(b)
  {
    forall k | k in KeySet(a) ensures k in KeySet(b) {
      var j :| 0 <= j < |a| && a[j].key == k;
      assert b[j].key == k;
    }
  }

  /** Removing a row of a table with unique keys removes exactly its key. */
  lemma DeleteKeySet(rows: seq<Row>, i: nat)
    requires UniqueKeys(rows) && i < |rows|
    ensures KeySet(Delete(rows, i)) == KeySet(rows) - {rows[i].key}
  {
    var r := Delete(rows, i);
    forall k | k in KeySet(rows) - {rows[i].key} ensures k in KeySet(r) {
      var j :| 0 <= j < |rows| && rows[j].key == k;
      if j < i { assert r[j] == rows[j]; } else { assert r[j - 1] == rows[j]; }
    }
    forall k | k in KeySet(r) ensures k in KeySet(rows) - {rows[i].key} {
      var j :| 0 <= j < |r| && r[j].key == k;
      if j < i { assert r[j] == rows[j]; } else { assert r[j] == rows[j + 1]; }
    }
  }

  /** Inserting a batch adds exactly the batch's keys. */
  lemma InsertKeySet(rows: seq<Row>, p: nat, batch: seq<Row>)
    requires p <= |rows|
    ensures KeySet(Insert(rows, p, batch)) == KeySet(rows) + KeySet(batch)
  {
    var r := Insert(rows, p, batch);
    forall k | k in KeySet(rows) ensures k in KeySet(r) {
      var j :| 0 <= j < |rows| && rows[j].key == k;
      if j < p { assert r[j] == rows[j]; } else { assert r[j + |batch|] == rows[j]; }
    }
    forall k | k in KeySet(batch) ensures k in KeySet(r) {
      var j :| 0 <= j < |batch| && batch[j].key == k;
      assert r[p + j] == batch[j];
    }
    forall k | k in KeySet(r) ensures k in KeySet(rows) + KeySet(batch) {
      var j :| 0 <= j < |r| && r[j].key == k;
      if j < p { assert r[j] == rows[j]; }
      else if j < p + |batch| { assert r[j] == batch[j - p]; }
      else { assert r[j] == rows[j - |batch|]; }
    }
  }
}
