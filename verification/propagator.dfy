/** The row-span propagator of src/js/data/rowList.js: seeding span metadata while
    formatting, re-stamping covered rows, and keeping blocks consistent when rows are
    inserted or removed. */
module Propagator {
  import opened Wrappers
  import opened Values
  import opened Rows

  // ---------------------------------------------------------------------------
  // Formatting and seeding (`_formatData`, `_setExtraRowSpanData`)
  // ---------------------------------------------------------------------------

  /** Writes value `v` and span metadata `d` for column `c` into a row that has not been
      formatted yet. */
  function StampRaw(raw: RawRow, c: string, v: Option<Value>, d: SpanData): RawRow {
    RawRow(Put(raw.values, c, v), raw.extra.(rowSpanData := raw.extra.rowSpanData[c := d]))
  }

  /** The loop over the covered rows of a freshly seeded block: `rest[k - 1]` is the row
      `k` places below the main row. */
  function StampChildren(rest: seq<RawRow>, c: string, v: Option<Value>, key: Key, k: nat, n: int): (r: seq<RawRow>)
    requires 1 <= k
    requires n - 1 <= |rest|
    decreases n - k
    ensures |r| == |rest|
    ensures forall j :: 0 <= j < |rest| ==>
              r[j] == if k - 1 <= j < n - 1 then StampRaw(rest[j], c, v, SpanData(-(j + 1), false, key)) else rest[j]
  {
    if k >= n then rest
    else StampChildren(rest[k - 1 := StampRaw(rest[k - 1], c, v, SpanData(-(k as int), false, key))], c, v, key, k + 1, n)
  }

  /** Seeds one declaration `rowSpan[c] = n` of the formatted row `r`, whose following
      (not yet formatted) rows are `rest`. A cell that already has metadata is left
      alone; a block that runs past the end of the list makes the source throw. */
  function SeedColumn(r: Row, c: string, n: int, rest: seq<RawRow>): (res: Result<(Row, seq<RawRow>)>)
    ensures c in Spans(r) ==> res == Success((r, rest))
    ensures c !in Spans(r) ==> (res.Success? <==> n - 1 <= |rest|)
    ensures c !in Spans(r) && res.Success? ==> res.value.0 == WithSpan(r, c, Some(SpanData(n, true, r.key)))
    ensures res.Success? ==> |res.value.1| == |rest|
    ensures c !in Spans(r) && res.Success? ==>
              forall j :: 0 <= j < |rest| ==>
                res.value.1[j] == if j < n - 1 then StampRaw(rest[j], c, ValueOf(r, c), SpanData(-(j + 1), false, r.key)) else rest[j]
  {
    if c in Spans(r) then Success((r, rest))
    else if n - 1 > |rest| then TypeError
    else Success((WithSpan(r, c, Some(SpanData(n, true, r.key))), StampChildren(rest, c, ValueOf(r, c), r.key, 1, n)))
  }

  /** Seeds every declaration of a row, in declaration order. Seeding never touches a
      row's key, checked flag, declarations or row state. */
  function SeedRow(r: Row, decls: seq<SpanDecl>, rest: seq<RawRow>): (res: Result<(Row, seq<RawRow>)>)
    decreases |decls|
    ensures res.Success? ==> |res.value.1| == |rest|
    ensures res.Success? ==> res.value.0.key == r.key && res.value.0.checked == r.checked && res.value.0.values == r.values
    ensures res.Success? ==> res.value.0.extra.rowSpan == r.extra.rowSpan && res.value.0.extra.rowState == r.extra.rowState
    ensures res.Success? ==> forall j :: 0 <= j < |rest| ==>
              res.value.1[j].extra.rowSpan == rest[j].extra.rowSpan && res.value.1[j].extra.rowState == rest[j].extra.rowState
  {
    if decls == [] then Success((r, rest))
    else match SeedColumn(r, decls[0].column, decls[0].count, rest)
      case TypeError => TypeError
      case Success((r1, rest1)) => SeedRow(r1, decls[1..], rest1)
  }

  /** The span metadata a not yet formatted row carries for column `c`. */
  function RawSpanOf(raw: RawRow, c: string): Option<SpanData> {
    if c in raw.extra.rowSpanData then Some(raw.extra.rowSpanData[c]) else None
  }

  /** The count of the first declaration for column `c`, if any; later ones for the same
      column find the cell already seeded. */
  function DeclaredCount(decls: seq<SpanDecl>, c: string): (n: Option<int>)
    decreases |decls|
    ensures n.Some? <==> exists k :: 0 <= k < |decls| && decls[k].column == c
  {
    if decls == [] then None
    else if decls[0].column == c then Some(decls[0].count)
    else DeclaredCount(decls[1..], c)
  }

  /** Seeding one column leaves every other column as it was. */
  lemma SeedColumnOther(r: Row, d: string, n: int, rest: seq<RawRow>, c: string)
    requires d != c && SeedColumn(r, d, n, rest).Success?
    ensures var res := SeedColumn(r, d, n, rest).value;
            && res.0.key == r.key
            && SpanOf(res.0, c) == SpanOf(r, c)
            && forall j :: 0 <= j < |rest| ==> RawSpanOf(res.1[j], c) == RawSpanOf(rest[j], c)
  {
  }

  /** What seeding a row does to one column: a cell without metadata that is declared
      becomes a main row of the declared count and the rows below it its covered rows;
      otherwise the column is untouched. */
  lemma {:induction false} SeedRowColumn(r: Row, decls: seq<SpanDecl>, rest: seq<RawRow>, c: string)
    requires SeedRow(r, decls, rest).Success?
    decreases |decls|
    ensures var res := SeedRow(r, decls, rest).value;
            var seeds := c !in Spans(r) && DeclaredCount(decls, c).Some?;
            var n := if seeds then DeclaredCount(decls, c).value else 0;
            && SpanOf(res.0, c) == (if seeds then Some(SpanData(n, true, r.key)) else SpanOf(r, c))
            && (seeds ==> n - 1 <= |rest|)
            && forall j :: 0 <= j < |rest| ==>
                 RawSpanOf(res.1[j], c) == if j < n - 1 then Some(SpanData(-(j + 1), false, r.key)) else RawSpanOf(rest[j], c)
  {
    if decls != [] {
      var d := decls[0];
      var step := SeedColumn(r, d.column, d.count, rest).value;
      SeedRowColumn(step.0, decls[1..], step.1, c);
      if d.column != c {
        SeedColumnOther(r, d.column, d.count, rest, c);
      }
    }
  }

  /** Formats the first row of `raws` and, in natural order, seeds its declarations into
      the rows that follow. Returns the formatted row, the remaining (seeded) raw rows and
      the new key counter. */
  function FormatHead(raws: seq<RawRow>, lastRowKey: int, keyColumn: Option<string>, spanEnabled: bool)
    : (res: Result<(Row, seq<RawRow>, int)>)
    requires raws != []
    ensures !spanEnabled ==> res.Success? && res.value.1 == raws[1..]
    ensures res.Success? ==> |res.value.1| == |raws| - 1
    ensures res.Success? ==> (res.value.0.checked <==> raws[0].extra.rowState == Some(CheckedState))
    ensures res.Success? ==> forall j :: 0 <= j < |res.value.1| ==>
              res.value.1[j].extra.rowState == raws[j + 1].extra.rowState
    ensures res.Success? && keyColumn.None? ==> res.value.0.key == Num(lastRowKey + 1) && res.value.2 == lastRowKey + 1
    ensures res.Success? && keyColumn.Some? ==> res.value.2 == lastRowKey
    ensures !spanEnabled ==> res.value.0.extra == raws[0].extra && res.value.0.values == raws[0].values - FormatProperties
  {
    var (r, last) := BaseFormat(raws[0], lastRowKey, keyColumn);
    if !spanEnabled then Success((r, raws[1..], last))
    else match SeedRow(r, r.extra.rowSpan, raws[1..])
      case TypeError => TypeError
      case Success((r1, rest)) => Success((r1, rest, last))
  }

  /** What formatting the first row does to one column: the row keeps the metadata it
      came with, or (in natural order) a declared cell without metadata seeds a block over
      the rows below it. */
  lemma FormatHeadColumn(raws: seq<RawRow>, lastRowKey: int, keyColumn: Option<string>, spanEnabled: bool, c: string)
    requires raws != [] && FormatHead(raws, lastRowKey, keyColumn, spanEnabled).Success?
    ensures var res := FormatHead(raws, lastRowKey, keyColumn, spanEnabled).value;
            var seeds := spanEnabled && RawSpanOf(raws[0], c).None? && DeclaredCount(raws[0].extra.rowSpan, c).Some?;
            var n := if seeds then DeclaredCount(raws[0].extra.rowSpan, c).value else 0;
            && SpanOf(res.0, c) == (if seeds then Some(SpanData(n, true, res.0.key)) else RawSpanOf(raws[0], c))
            && (seeds ==> n - 1 <= |res.1|)
            && forall j :: 0 <= j < |res.1| ==>
                 RawSpanOf(res.1[j], c) == if j < n - 1 then Some(SpanData(-(j + 1), false, res.0.key)) else RawSpanOf(raws[j + 1], c)
  {
    var (r, last) := BaseFormat(raws[0], lastRowKey, keyColumn);
    if spanEnabled {
      SeedRowColumn(r, r.extra.rowSpan, raws[1..], c);
    }
  }

  /** `_formatData`: formats the rows in order and, in natural order, seeds the span
      declarations of each row right after formatting it. Returns the formatted rows and
      the new key counter. */
  function FormatData(raws: seq<RawRow>, lastRowKey: int, keyColumn: Option<string>, spanEnabled: bool)
    : (res: Result<(seq<Row>, int)>)
    decreases |raws|
    ensures !spanEnabled ==> res.Success?
    ensures res.Success? ==> |res.value.0| == |raws|
    ensures res.Success? && keyColumn.None? ==> res.value.1 == lastRowKey + |raws|
    ensures res.Success? && keyColumn.Some? ==> res.value.1 == lastRowKey
  {
    if raws == [] then Success(([], lastRowKey))
    else
      var head := FormatHead(raws, lastRowKey, keyColumn, spanEnabled);
      if head.TypeError? then TypeError
      else
        var tail := FormatData(head.value.1, head.value.2, keyColumn, spanEnabled);
        if tail.TypeError? then TypeError
        else Success(([head.value.0] + tail.value.0, tail.value.1))
  }

  /** Every formatted row starts out checked exactly when its row state says so. */
  lemma {:induction false} FormatDataChecked(raws: seq<RawRow>, lastRowKey: int, keyColumn: Option<string>, spanEnabled: bool)
    requires FormatData(raws, lastRowKey, keyColumn, spanEnabled).Success?
    decreases |raws|
    ensures var rows := FormatData(raws, lastRowKey, keyColumn, spanEnabled).value.0;
            forall j :: 0 <= j < |raws| ==> (rows[j].checked <==> raws[j].extra.rowState == Some(CheckedState))
  {
    if raws != [] {
      var head := FormatHead(raws, lastRowKey, keyColumn, spanEnabled);
      FormatDataChecked(head.value.1, head.value.2, keyColumn, spanEnabled);
    }
  }

  /** Without a key column, the `j`-th formatted row gets key `lastRowKey + 1 + j`. */
  lemma {:induction false} FormatDataKeys(raws: seq<RawRow>, lastRowKey: int, spanEnabled: bool)
    requires FormatData(raws, lastRowKey, None, spanEnabled).Success?
    decreases |raws|
    ensures var rows := FormatData(raws, lastRowKey, None, spanEnabled).value.0;
            forall j :: 0 <= j < |raws| ==> rows[j].key == Num(lastRowKey + 1 + j)
  {
    if raws != [] {
      var head := FormatHead(raws, lastRowKey, None, spanEnabled);
      FormatDataKeys(head.value.1, head.value.2, spanEnabled);
    }
  }

  /** Keys generated for a batch without a key column are pairwise distinct and strictly
      increasing, and all lie above the counter the batch started from. */
  lemma GeneratedKeysIncrease(raws: seq<RawRow>, lastRowKey: int, spanEnabled: bool, a: nat, b: nat)
    requires FormatData(raws, lastRowKey, None, spanEnabled).Success?
    requires a < b < |raws|
    ensures var rows := FormatData(raws, lastRowKey, None, spanEnabled).value.0;
            rows[a].key.Num? && rows[b].key.Num? && lastRowKey < rows[a].key.n < rows[b].key.n
  {
    FormatDataKeys(raws, lastRowKey, spanEnabled);
  }

  /** Rows that declare no spans are formatted without seeding, even in natural order:
      formatting succeeds and every row keeps its `_extraData` and its values. */
  lemma {:induction false} FormatUndeclared(raws: seq<RawRow>, lastRowKey: int, keyColumn: Option<string>, spanEnabled: bool)
    requires forall j :: 0 <= j < |raws| ==> raws[j].extra.rowSpan == []
    decreases |raws|
    ensures var res := FormatData(raws, lastRowKey, keyColumn, spanEnabled);
            res.Success? && forall j :: 0 <= j < |raws| ==>
              res.value.0[j].extra == raws[j].extra && res.value.0[j].values == raws[j].values - FormatProperties
  {
    if raws != [] {
      var (r, last) := BaseFormat(raws[0], lastRowKey, keyColumn);
      assert SeedRow(r, r.extra.rowSpan, raws[1..]) == Success((r, raws[1..]));
      assert FormatHead(raws, lastRowKey, keyColumn, spanEnabled) == Success((r, raws[1..], last));
      FormatUndeclared(raws[1..], last, keyColumn, spanEnabled);
      var tail := FormatData(raws[1..], last, keyColumn, spanEnabled).value.0;
      assert FormatData(raws, lastRowKey, keyColumn, spanEnabled).value.0 == [r] + tail;
      forall j | 1 <= j < |raws|
        ensures raws[1..][j - 1] == raws[j]
      {
      }
    }
  }

  // ---------------------------------------------------------------------------
  // Re-stamping (`_updateSubRowSpanData`)
  // ---------------------------------------------------------------------------

  /** A row re-stamped as covered, `offset` rows below the main row keyed `mainKey`; its
      value for the column is blanked. */
  function Covered(r: Row, c: string, offset: int, mainKey: Key): (r': Row)
    ensures SpanOf(r', c) == Some(SpanData(-offset, false, mainKey))
    ensures ValueOf(r', c) == Some(Blank)
    ensures r'.key == r.key
  {
    WithValue(WithSpan(r, c, Some(SpanData(-offset, false, mainKey))), c, Some(Blank))
  }

  /** The re-stamping loop from `offset` up to (excluding) `n`. */
  function StampRange(rows: seq<Row>, m: nat, c: string, offset: int, n: int, mainKey: Key): (res: Result<seq<Row>>)
    requires m < |rows|
    decreases n - offset
    ensures res.Success? <==> (offset >= n || (0 <= m + offset && m + n <= |rows|))
    ensures res.Success? ==> |res.value| == |rows|
    ensures res.Success? ==> forall j :: 0 <= j < |rows| ==>
              res.value[j] == if m + offset <= j < m + n then Covered(rows[j], c, j - m, mainKey) else rows[j]
  {
    if offset >= n then Success(rows)
    else if !(0 <= m + offset < |rows|) then TypeError
    else StampRange(rows[m + offset := Covered(rows[m + offset], c, offset, mainKey)], m, c, offset + 1, n, mainKey)
  }

  /** `_updateSubRowSpanData(mainRow, c, start, n)`: the rows `start .. n-1` places below
      the main row at index `m` become covered rows of it; nothing else changes. It throws
      when one of those places is outside the collection. */
  function UpdateSubRowSpanData(rows: seq<Row>, m: nat, c: string, start: int, n: int): (res: Result<seq<Row>>)
    requires m < |rows|
    ensures res.Success? <==> (start >= n || (0 <= m + start && m + n <= |rows|))
    ensures res.Success? ==> |res.value| == |rows|
    ensures res.Success? ==> forall j :: 0 <= j < |rows| ==>
              res.value[j] == if m + start <= j < m + n then Covered(rows[j], c, j - m, rows[m].key) else rows[j]
  {
    StampRange(rows, m, c, start, n, rows[m].key)
  }

  // ---------------------------------------------------------------------------
  // Insertion (`_syncRowSpanDataForAppend`)
  // ---------------------------------------------------------------------------

  /** A block whose main row is at `m` grows to `n` rows; rows from `start` places below
      the main row on are re-stamped. */
  function Grow(rows: seq<Row>, m: nat, c: string, start: int, n: int): (res: Result<seq<Row>>)
    requires m < |rows| && c in Spans(rows[m])
    ensures res.Success? ==> SameKeys(res.value, rows)
  {
    UpdateSubRowSpanData(rows[m := WithCount(rows[m], c, n)], m, c, start, n)
  }

  /** Growing sets the main row's count and touches nothing outside the block. */
  lemma GrowEffect(rows: seq<Row>, m: nat, c: string, start: int, n: int)
    requires m < |rows| && c in Spans(rows[m]) && 1 <= start
    ensures var res := Grow(rows, m, c, start, n);
            res.Success? ==>
              && SpanOf(res.value[m], c) == Some(Spans(rows[m])[c].(count := n))
              && forall j :: 0 <= j < |rows| && j != m && !(m + start <= j < m + n) ==> res.value[j] == rows[j]
  {
  }

  /** The main row of the block that row `p` belongs to in column `c`: `p` itself, or
      the row holding the key it names, when that row exists and has metadata for `c`. */
  function BlockMain(rows: seq<Row>, p: nat, c: string): (m: Option<nat>)
    requires p < |rows| && c in Spans(rows[p])
    ensures m.Some? ==> m.value < |rows| && c in Spans(rows[m.value])
    ensures Spans(rows[p])[c].isMainRow ==> m == Some(p)
  {
    if Spans(rows[p])[c].isMainRow then Some(p)
    else match Find(rows, Spans(rows[p])[c].mainRowKey)
      case None => None
      case Some(m) => if c in Spans(rows[m]) then Some(m) else None
  }

  /** The offset from the main row of the first row after `p`. */
  function AppendStart(rows: seq<Row>, p: nat, c: string): int
    requires p < |rows| && c in Spans(rows[p])
  {
    if Spans(rows[p])[c].isMainRow then 1 else -Spans(rows[p])[c].count + 1
  }

  /** Whether the block of row `p` takes in rows inserted right after `p`: it continues
      past `p`, or the caller asks to extend it. */
  predicate Absorbs(rows: seq<Row>, p: nat, c: string, extend: bool)
    requires p < |rows| && c in Spans(rows[p]) && BlockMain(rows, p, c).Some?
  {
    Spans(rows[BlockMain(rows, p, c).value])[c].count > AppendStart(rows, p, c) || extend
  }

  /** The block whose main row is `m` takes in `len` rows inserted at offset `start`
      from it, when it continues past them or the caller asks to extend it. */
  function AppendAt(rows: seq<Row>, m: nat, c: string, start: int, len: nat, extend: bool): (res: Result<seq<Row>>)
    requires m < |rows|
    ensures res.Success? ==> SameKeys(res.value, rows)
    ensures c !in Spans(rows[m]) ==> res == TypeError
    ensures c in Spans(rows[m]) && !(Spans(rows[m])[c].count > start || extend) ==> res == Success(rows)
  {
    if c !in Spans(rows[m]) then TypeError
    else
      var count := Spans(rows[m])[c].count;
      if count > start || extend then Grow(rows, m, c, start, count + len)
      else Success(rows)
  }

  /** A block that takes in the new rows grows by exactly their number, and nothing
      outside it changes. */
  lemma AppendAtEffect(rows: seq<Row>, m: nat, c: string, start: int, len: nat, extend: bool)
    requires m < |rows| && c in Spans(rows[m]) && 1 <= start
    requires Spans(rows[m])[c].count > start || extend
    ensures var res := AppendAt(rows, m, c, start, len, extend);
            res.Success? ==>
              && SpanOf(res.value[m], c) == Some(Spans(rows[m])[c].(count := Spans(rows[m])[c].count + len))
              && forall j {:trigger res.value[j]} :: 0 <= j < |rows| && j != m && !(m + start <= j < m + Spans(rows[m])[c].count + len) ==>
                   res.value[j] == rows[j]
  {
    GrowEffect(rows, m, c, start, Spans(rows[m])[c].count + len);
  }

  /** One column of `_syncRowSpanDataForAppend`: `rows` already holds the `len` inserted
      rows, and `p` is the index of the row just before them, which has metadata for
      `c`. When that row lies in a block that continues past it, or when the caller asks
      to extend the span, the block grows by `len` rows. */
  function SyncColumnForAppend(rows: seq<Row>, p: nat, len: nat, extend: bool, c: string): (res: Result<seq<Row>>)
    requires p < |rows| && c in Spans(rows[p])
    ensures res.Success? ==> |res.value| == |rows|
    ensures res.Success? ==> SameKeys(res.value, rows)
    ensures Spans(rows[p])[c].count == 0 ==> res == Success(rows)
    ensures Spans(rows[p])[c].count != 0 && BlockMain(rows, p, c).None? ==> res == TypeError
    ensures Spans(rows[p])[c].count != 0 && BlockMain(rows, p, c).Some? && !Absorbs(rows, p, c, extend) ==> res == Success(rows)
  {
    if Spans(rows[p])[c].count == 0 then Success(rows)
    else
      match BlockMain(rows, p, c)
      case None => TypeError
      case Some(m) => AppendAt(rows, m, c, AppendStart(rows, p, c), len, extend)
  }

  /** When the block of the previous row takes in the new rows, it grows by exactly their
      number and nothing outside it changes. */
  lemma SyncColumnForAppendEffect(rows: seq<Row>, p: nat, len: nat, extend: bool, c: string)
    requires p < |rows| && c in Spans(rows[p])
    requires Spans(rows[p])[c].count != 0 && BlockMain(rows, p, c).Some? && Absorbs(rows, p, c, extend)
    requires AppendStart(rows, p, c) >= 1
    ensures var res := SyncColumnForAppend(rows, p, len, extend, c);
            var m := BlockMain(rows, p, c).value;
            res.Success? ==>
              && SpanOf(res.value[m], c) == Some(Spans(rows[m])[c].(count := Spans(rows[m])[c].count + len))
              && forall j {:trigger res.value[j]} :: 0 <= j < |rows| && j != m && !(m + AppendStart(rows, p, c) <= j < m + Spans(rows[m])[c].count + len) ==>
                   res.value[j] == rows[j]
  {
    AppendAtEffect(rows, BlockMain(rows, p, c).value, c, AppendStart(rows, p, c), len, extend);
  }


  // ---------------------------------------------------------------------------
  // Removal (`_syncRowSpanDataForRemove`)
  // ---------------------------------------------------------------------------

  /** The value the new main row receives: the removed row's value when the caller asked
      to keep it (`undefined` when it had none), the empty string otherwise. */
  function KeptValue(kept: Option<map<string, Value>>, c: string): Option<Value> {
    match kept
    case None => Some(Blank)
    case Some(m) => if c in m then Some(m[c]) else None
  }

  /** The main row of an `n + 1` row block was removed: the row that moved up into its
      place at index `i` becomes the main row of the remaining `n` rows. */
  function PromoteNext(rows: seq<Row>, i: nat, n: int, kept: Option<map<string, Value>>, c: string): (res: Result<seq<Row>>)
    ensures res.Success? <==> i < |rows| && (n <= 1 || i + n <= |rows|)
    ensures res.Success? ==> |res.value| == |rows|
    ensures res.Success? ==> SameKeys(res.value, rows)
  {
    if i >= |rows| then TypeError
    else
      var next := WithValue(rows[i], c, KeptValue(kept, c));
      if n > 1 then UpdateSubRowSpanData(rows[i := WithSpan(next, c, Some(SpanData(n, true, rows[i].key)))], i, c, 1, n)
      else Success(rows[i := WithSpan(next, c, None)])
  }

  /** A covered row of the block whose main row is keyed `data.mainRowKey` was removed:
      the block shrinks by one and is re-stamped from the removed row's offset. */
  function ShrinkBlock(rows: seq<Row>, data: SpanData, c: string): (res: Result<seq<Row>>)
    ensures res.Success? ==> |res.value| == |rows|
    ensures res.Success? ==> SameKeys(res.value, rows)
  {
    match Find(rows, data.mainRowKey)
    case None => TypeError
    case Some(m) => ShrinkAt(rows, m, c, -data.count)
  }

  /** The block whose main row is at `m` loses a row; rows from `start` places below the
      main row on are re-stamped. */
  function ShrinkAt(rows: seq<Row>, m: nat, c: string, start: int): (res: Result<seq<Row>>)
    requires m < |rows|
    ensures res.Success? ==> |res.value| == |rows|
    ensures res.Success? ==> SameKeys(res.value, rows)
  {
    var n := CountOf(rows[m], c) - 1;
    if n > 1 then UpdateSubRowSpanData(rows[m := WithCount(rows[m], c, n)], m, c, start, n)
    else Success(rows[m := WithSpan(rows[m], c, None)])
  }

  /** Rows `lo .. hi-1` of `r` are covered rows of the main row at `m` keyed `key`,
      with their value for `c` blanked. */
  predicate CoveredRun(r: seq<Row>, c: string, lo: int, hi: int, m: int, key: Key) {
    && 0 <= lo && hi <= |r|
    && forall j :: lo <= j < hi ==> SpanOf(r[j], c) == Some(SpanData(m - j, false, key)) && ValueOf(r[j], c) == Some(Blank)
  }

  /** Re-stamping leaves a covered run behind. */
  lemma StampedRun(rows: seq<Row>, m: nat, c: string, start: int, n: int)
    requires m < |rows| && UpdateSubRowSpanData(rows, m, c, start, n).Success? && 0 <= m + start && m + n <= |rows|
    ensures CoveredRun(UpdateSubRowSpanData(rows, m, c, start, n).value, c, m + start, m + n, m, rows[m].key)
  {
    var r := UpdateSubRowSpanData(rows, m, c, start, n).value;
    forall j | m + start <= j < m + n
      ensures SpanOf(r[j], c) == Some(SpanData(m - j, false, rows[m].key)) && ValueOf(r[j], c) == Some(Blank)
    {
      assert r[j] == Covered(rows[j], c, j - m, rows[m].key);
    }
  }

  /** A shrunk block: the main row's count drops by one (its metadata is cleared when
      one row is left) and nothing outside the block changes. */
  lemma ShrinkBlockEffect(rows: seq<Row>, data: SpanData, c: string, m: nat)
    requires Find(rows, data.mainRowKey) == Some(m) && data.count <= -1
    requires CountOf(rows[m], c) - 1 <= 1 || m + CountOf(rows[m], c) - 1 <= |rows|
    ensures var n := CountOf(rows[m], c) - 1;
            var start := -data.count;
            var res := ShrinkBlock(rows, data, c);
            && res.Success?
            && SpanOf(res.value[m], c) == (if n > 1 then Some(Spans(rows[m])[c].(count := n)) else None)
            && forall j {:trigger res.value[j]} :: 0 <= j < |rows| && j != m && !(m + start <= j < m + n) ==>
                 res.value[j] == rows[j]
  {
    ShrinkAtEffect(rows, m, c, -data.count);
    ShrinkBlockIsShrinkAt(rows, data, c, m);
  }

  /** ...and the rows from the removed row's place to the new end of the block are
      covered rows of it. */
  lemma ShrinkBlockRun(rows: seq<Row>, data: SpanData, c: string, m: nat)
    requires Find(rows, data.mainRowKey) == Some(m) && data.count <= -1
    requires CountOf(rows[m], c) - 1 <= 1 || m + CountOf(rows[m], c) - 1 <= |rows|
    ensures var n := CountOf(rows[m], c) - 1;
            var res := ShrinkBlock(rows, data, c);
            res.Success? && CoveredRun(res.value, c, m + -data.count, m + n, m, rows[m].key)
  {
    ShrinkAtEffect(rows, m, c, -data.count);
    ShrinkBlockIsShrinkAt(rows, data, c, m);
  }

  /** The shrink step acts on the main row the key lookup finds. */
  lemma ShrinkBlockIsShrinkAt(rows: seq<Row>, data: SpanData, c: string, m: nat)
    requires Find(rows, data.mainRowKey) == Some(m)
    ensures ShrinkBlock(rows, data, c) == ShrinkAt(rows, m, c, -data.count)
  {
  }

  lemma ShrinkAtEffect(rows: seq<Row>, m: nat, c: string, start: int)
    requires m < |rows| && 1 <= start
    requires CountOf(rows[m], c) - 1 <= 1 || m + CountOf(rows[m], c) - 1 <= |rows|
    ensures var n := CountOf(rows[m], c) - 1;
            var res := ShrinkAt(rows, m, c, start);
            && res.Success?
            && SpanOf(res.value[m], c) == (if n > 1 then Some(Spans(rows[m])[c].(count := n)) else None)
            && CoveredRun(res.value, c, m + start, m + n, m, rows[m].key)
            && forall j {:trigger res.value[j]} :: 0 <= j < |rows| && j != m && !(m + start <= j < m + n) ==>
                 res.value[j] == rows[j]
  {
    var n := CountOf(rows[m], c) - 1;
    if n > 1 {
      var rows1 := rows[m := WithCount(rows[m], c, n)];
      StampedRun(rows1, m, c, start, n);
    }
  }

  /** One column of `_syncRowSpanDataForRemove` exactly as the source writes it: `rows`
      no longer holds the removed row, `i` is its former index and `data` its metadata
      for `c`. Only a main row with count 1 is skipped. */
  function SyncColumnForRemoveAsWritten(rows: seq<Row>, i: nat, data: SpanData, kept: Option<map<string, Value>>, c: string)
    : (res: Result<seq<Row>>)
    ensures data.isMainRow && data.count == 1 ==> res == Success(rows)
    ensures res.Success? ==> |res.value| == |rows|
    ensures res.Success? ==> SameKeys(res.value, rows)
  {
    if data.isMainRow then
      if data.count == 1 then Success(rows) else PromoteNext(rows, i, data.count - 1, kept, c)
    else ShrinkBlock(rows, data, c)
  }

  /** One column of `_syncRowSpanDataForRemove`, skipping every main row whose count
      says it spans nothing (count 1 or less, as the insertion path reads count 0). */
  function SyncColumnForRemove(rows: seq<Row>, i: nat, data: SpanData, kept: Option<map<string, Value>>, c: string)
    : (res: Result<seq<Row>>)
    ensures data.isMainRow && data.count <= 1 ==> res == Success(rows)
    ensures res.Success? ==> |res.value| == |rows|
    ensures res.Success? ==> SameKeys(res.value, rows)
  {
    if data.isMainRow then
      if data.count <= 1 then Success(rows) else PromoteNext(rows, i, data.count - 1, kept, c)
    else ShrinkBlock(rows, data, c)
  }

  // ---------------------------------------------------------------------------
  // Several columns at once
  // ---------------------------------------------------------------------------

  /** The cells of column `c` of row `r`. */
  predicate SameCell(r: Row, s: Row, c: string) {
    ValueOf(r, c) == ValueOf(s, c) && SpanOf(r, c) == SpanOf(s, c)
  }

  /** The entries of `own` for columns not in `from`, and for every column `d` in `from`
      the entry `pick(from[d])` has for `d`. */
  function MergeCells<V>(own: map<string, V>, from: map<string, Row>, pick: Row -> map<string, V>): (m: map<string, V>)
    ensures forall d :: d !in from ==> (d in m <==> d in own) && (d in m ==> m[d] == own[d])
    ensures forall d :: d in from ==> (d in m <==> d in pick(from[d])) && (d in m ==> m[d] == pick(from[d])[d])
    ensures from == map[] ==> m == own
  {
    (map d | d in own && d !in from :: own[d]) + (map d | d in from && d in pick(from[d]) :: pick(from[d])[d])
  }

  /** Row `r` with the cells of every column `c` in `from` taken from `from[c]`. */
  function TakeCells(r: Row, from: map<string, Row>): (r': Row)
    ensures r'.key == r.key && r'.checked == r.checked
    ensures r'.extra.rowSpan == r.extra.rowSpan && r'.extra.rowState == r.extra.rowState
    ensures forall c :: c in from ==> SameCell(r', from[c], c)
    ensures forall c :: c !in from ==> SameCell(r', r, c)
    ensures from == map[] ==> r' == r
  {
    var values := MergeCells(r.values, from, (s: Row) => s.values);
    var spans := MergeCells(Spans(r), from, Spans);
    Row(r.key, values, r.checked, r.extra.(rowSpanData := spans))
  }

  /** Row `j` of every column's successful result. */
  function RowsAt(results: map<string, Result<seq<Row>>>, j: nat): (r: map<string, Row>)
    requires forall c :: c in results ==> results[c].Success? && j < |results[c].value|
    ensures r.Keys == results.Keys
    ensures forall c :: c in r ==> r[c] == results[c].value[j]
  {
    map c | c in results :: results[c].value[j]
  }

  /** Combines per-column results: column `c` of the outcome is column `c` of
      `results[c]`; all other cells are those of `rows`. The source processes the columns
      one after another, but each column's step reads and writes only that column's
      cells (and row keys), so the order does not matter. Any column that throws makes
      the whole step throw. */
  function Combine(rows: seq<Row>, results: map<string, Result<seq<Row>>>): (res: Result<seq<Row>>)
    requires forall c :: c in results && results[c].Success? ==> |results[c].value| == |rows|
    ensures res.Success? <==> forall c :: c in results ==> results[c].Success?
    ensures res.Success? ==> |res.value| == |rows|
    ensures res.Success? ==> forall j :: 0 <= j < |rows| ==>
              res.value[j].key == rows[j].key && res.value[j].checked == rows[j].checked &&
              res.value[j].extra.rowSpan == rows[j].extra.rowSpan && res.value[j].extra.rowState == rows[j].extra.rowState
    ensures res.Success? ==> forall j, c :: 0 <= j < |rows| && c in results ==> SameCell(res.value[j], results[c].value[j], c)
    ensures res.Success? ==> forall j, c :: 0 <= j < |rows| && c !in results ==> SameCell(res.value[j], rows[j], c)
    ensures results == map[] ==> res == Success(rows)
  {
    if exists c :: c in results && results[c].TypeError? then TypeError
    else
      var combined := seq(|rows|, j requires 0 <= j < |rows| => TakeCells(rows[j], RowsAt(results, j)));
      assert results == map[] ==> combined == rows;
      Success(combined)
  }

  /** `_syncRowSpanDataForAppend(index, len, extendPrevRowSpan)` on the collection that
      already holds the inserted rows. Without a row before `index` nothing happens. */
  function SyncRowSpanDataForAppend(rows: seq<Row>, index: nat, len: nat, extend: bool): (res: Result<seq<Row>>)
    ensures index == 0 || index > |rows| ==> res == Success(rows)
    ensures res.Success? ==> |res.value| == |rows|
    ensures res.Success? ==> SameKeys(res.value, rows)
    ensures res.Success? ==> forall j :: 0 <= j < |rows| ==> res.value[j].checked == rows[j].checked
    ensures res.Success? && 0 < index <= |rows| ==> forall j, c :: 0 <= j < |rows| && c !in Spans(rows[index - 1]) ==>
              SameCell(res.value[j], rows[j], c)
  {
    if index == 0 || index > |rows| then Success(rows)
    else
      var p := index - 1;
      var results := map c | c in Spans(rows[p]) :: SyncColumnForAppend(rows, p, len, extend, c);
      assert results.Keys == Spans(rows[p]).Keys;
      Combine(rows, results)
  }

  /** `_syncRowSpanDataForRemove(rowSpanData, nextRow, removedData)` on the collection
      that no longer holds the removed row; `i` is the removed row's former index, so the
      next row, if any, is now at `i`. */
  function SyncRowSpanDataForRemove(rows: seq<Row>, i: nat, snapshot: map<string, SpanData>, kept: Option<map<string, Value>>)
    : (res: Result<seq<Row>>)
    ensures snapshot == map[] ==> res == Success(rows)
    ensures res.Success? ==> |res.value| == |rows|
    ensures res.Success? ==> SameKeys(res.value, rows)
    ensures res.Success? ==> forall j :: 0 <= j < |rows| ==>
              res.value[j].checked == rows[j].checked && res.value[j].extra.rowState == rows[j].extra.rowState
    ensures res.Success? ==> forall j, c :: 0 <= j < |rows| && c !in snapshot ==> SameCell(res.value[j], rows[j], c)
  {
    Combine(rows, map c | c in snapshot :: SyncColumnForRemove(rows, i, snapshot[c], kept, c))
  }
}
