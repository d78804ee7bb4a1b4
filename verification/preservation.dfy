/** The span operations keep the row-span invariant of every column. */
module Preservation {
  import opened Wrappers
  import opened Values
  import opened Rows
  import opened Propagator
  import opened Blocks

  lemma DeleteKeepsUniqueKeys(rows: seq<Row>, i: nat)
    requires UniqueKeys(rows) && i < |rows|
    ensures UniqueKeys(Delete(rows, i))
  {
    var r := Delete(rows, i);
    forall a, b | 0 <= a < b < |r|
      ensures r[a].key != r[b].key
    {
      var a', b' := if a < i then a else a + 1, if b < i then b else b + 1;
      assert r[a] == rows[a'] && r[b] == rows[b'];
    }
  }

  /** Removing the main row of a block of `N >= 2` rows hands the block over to the next
      row, which heads the remaining `N - 1` rows. */
  lemma RemoveMainKeepsWellFormed(rows0: seq<Row>, i: nat, c: string, kept: Option<map<string, Value>>)
    requires WellFormed(rows0, c) && i < |rows0|
    requires IsMain(rows0[i], c) && Spans(rows0[i])[c].count >= 2
    ensures var r := SyncColumnForRemove(Delete(rows0, i), i, Spans(rows0[i])[c], kept, c);
            r.Success? && WellFormed(r.value, c)
  {
    var data := Spans(rows0[i])[c];
    var rows := Delete(rows0, i);
    assert RowOk(rows0, i, c);
    BoundaryBeforeUncovered(rows0, c, i);
    BoundaryAfterMain(rows0, c, i);
    PromotedShape(rows0, i, c, kept);
    var r := PromoteNext(rows, i, data.count - 1, kept, c);
    assert SyncColumnForRemove(rows, i, data, kept, c) == r;
    Splice(rows0, r.value, c, i, i + data.count - 1, i + data.count, -1);
  }

  /** The outcome of promoting the next row, in isolation: the rows before the removed
      one and after its old block are untouched, and the block itself is consistent. */
  lemma PromotedShape(rows0: seq<Row>, i: nat, c: string, kept: Option<map<string, Value>>)
    requires i < |rows0| && IsMain(rows0[i], c) && Spans(rows0[i])[c].count >= 2 && MainOk(rows0, i, c)
    ensures var bigN := Spans(rows0[i])[c].count;
            var r := PromoteNext(Delete(rows0, i), i, bigN - 1, kept, c);
            r.Success? && Spliced(rows0, r.value, c, i, i + bigN - 1, i + bigN, -1)
  {
    var n := Spans(rows0[i])[c].count - 1;
    var rows := Delete(rows0, i);
    var next := WithValue(rows[i], c, KeptValue(kept, c));
    if n > 1 {
      var rows1 := rows[i := WithSpan(next, c, Some(SpanData(n, true, rows[i].key)))];
      var r := UpdateSubRowSpanData(rows1, i, c, 1, n);
      assert PromoteNext(rows, i, n, kept, c) == r;
      FreshBlock(r.value, c, i, n);
    } else {
      var res := rows[i := WithSpan(next, c, None)];
      assert PromoteNext(rows, i, n, kept, c) == Success(res);
      assert RowOk(res, i, c);
    }
  }

  /** Removing a covered row shrinks its block by one and re-stamps the rows after it. */
  lemma RemoveCoveredKeepsWellFormed(rows0: seq<Row>, i: nat, c: string, kept: Option<map<string, Value>>)
    requires WellFormed(rows0, c) && UniqueKeys(rows0) && i < |rows0|
    requires c in Spans(rows0[i]) && !Spans(rows0[i])[c].isMainRow
    ensures var r := SyncColumnForRemove(Delete(rows0, i), i, Spans(rows0[i])[c], kept, c);
            r.Success? && WellFormed(r.value, c)
  {
    var data := Spans(rows0[i])[c];
    var rows := Delete(rows0, i);
    assert RowOk(rows0, i, c);
    var m: nat := i + data.count;
    assert RowOk(rows0, m, c);
    var bigN := Spans(rows0[m])[c].count;
    DeleteKeepsUniqueKeys(rows0, i);
    FindUnique(rows, m);
    BoundaryBeforeUncovered(rows0, c, m);
    BoundaryAfterMain(rows0, c, m);
    ShrunkShape(rows0, i, m, c);
    var r := ShrinkBlock(rows, data, c);
    assert SyncColumnForRemove(rows, i, data, kept, c) == r;
    Splice(rows0, r.value, c, m, m + bigN - 1, m + bigN, -1);
  }

  /** The shrunk block in isolation: the rows before the block and after its old end
      are untouched, and the block itself is consistent. */
  lemma ShrunkShape(rows0: seq<Row>, i: nat, m: nat, c: string)
    requires i < |rows0| && c in Spans(rows0[i]) && !Spans(rows0[i])[c].isMainRow
    requires m == i + Spans(rows0[i])[c].count && m < i
    requires IsMain(rows0[m], c) && MainOk(rows0, m, c) && i < m + Spans(rows0[m])[c].count
    requires Find(Delete(rows0, i), Spans(rows0[i])[c].mainRowKey) == Some(m)
    ensures var bigN := Spans(rows0[m])[c].count;
            var r := ShrinkBlock(Delete(rows0, i), Spans(rows0[i])[c], c);
            r.Success? && Spliced(rows0, r.value, c, m, m + bigN - 1, m + bigN, -1)
  {
    var data := Spans(rows0[i])[c];
    var bigN := Spans(rows0[m])[c].count;
    var n := bigN - 1;
    var rows := Delete(rows0, i);
    assert rows[m] == rows0[m];
    assert CountOf(rows[m], c) - 1 == n;
    ShrinkBlockEffect(rows, data, c, m);
    ShrinkBlockRun(rows, data, c, m);
    var r := ShrinkBlock(rows, data, c).value;
    if n > 1 {
      forall t | m < t < m + n
        ensures SpanOf(r[t], c) == Some(SpanData(m - t, false, r[m].key))
      {
        if t < i {
          assert r[t] == rows[t] == rows0[t];
        } else {
          assert SpanOf(r[t], c) == Some(SpanData(m - t, false, rows[m].key));
        }
      }
      FreshBlock(r, c, m, n);
    } else {
      assert RowOk(r, m, c);
    }
    forall t | 0 <= t < m ensures r[t] == rows0[t] {
      assert r[t] == rows[t];
    }
    forall t | m + bigN <= t < |rows0| ensures r[t - 1] == rows0[t] {
      assert r[t - 1] == rows[t - 1];
    }
  }

  /** Removing any row keeps any column consistent: columns the row has no metadata for
      are untouched, and the others are repaired by their sync step. */
  lemma RemoveColumnKeepsWellFormed(rows0: seq<Row>, i: nat, c: string, kept: Option<map<string, Value>>)
    requires WellFormed(rows0, c) && UniqueKeys(rows0) && i < |rows0|
    ensures c !in Spans(rows0[i]) ==> WellFormed(Delete(rows0, i), c)
    ensures c in Spans(rows0[i]) ==>
              var r := SyncColumnForRemove(Delete(rows0, i), i, Spans(rows0[i])[c], kept, c);
              r.Success? && WellFormed(r.value, c)
  {
    if c !in Spans(rows0[i]) || (IsMain(rows0[i], c) && Spans(rows0[i])[c].count <= 1) {
      BoundaryBeforeUncovered(rows0, c, i);
      BoundaryAfterLone(rows0, c, i + 1);
      DeleteAtBoundary(rows0, i, c);
    } else if IsMain(rows0[i], c) {
      RemoveMainKeepsWellFormed(rows0, i, c, kept);
    } else {
      RemoveCoveredKeepsWellFormed(rows0, i, c, kept);
    }
  }

  /** `_syncRowSpanDataForRemove` (with the guard fixed) never throws on a consistent
      table and leaves it consistent in every column. */
  lemma RemoveKeepsTableOk(rows0: seq<Row>, i: nat, kept: Option<map<string, Value>>)
    requires TableOk(rows0) && i < |rows0|
    ensures var r := SyncRowSpanDataForRemove(Delete(rows0, i), i, Spans(rows0[i]), kept);
            r.Success? && TableOk(r.value)
  {
    var rows := Delete(rows0, i);
    var snapshot := Spans(rows0[i]);
    var results := map c | c in snapshot :: SyncColumnForRemove(rows, i, snapshot[c], kept, c);
    forall c | c in snapshot
      ensures results[c].Success? && WellFormed(results[c].value, c)
    {
      assert WellFormed(rows0, c);
      RemoveColumnKeepsWellFormed(rows0, i, c, kept);
    }
    var r := Combine(rows, results);
    assert SyncRowSpanDataForRemove(rows, i, snapshot, kept) == r;
    var res := r.value;
    DeleteKeepsUniqueKeys(rows0, i);
    forall c
      ensures WellFormed(res, c)
    {
      assert WellFormed(rows0, c);
      RemoveColumnKeepsWellFormed(rows0, i, c, kept);
      if c in snapshot {
        WellFormedCongruent(results[c].value, res, c);
      } else {
        WellFormedCongruent(rows, res, c);
      }
    }
  }

  // ---------------------------------------------------------------------------
  // Seeding (`_formatData`, `_setExtraRowSpanData`)
  // ---------------------------------------------------------------------------

  /** Formatting is the formatted first row followed by the formatted rest. */
  lemma FormatDataCons(raws: seq<RawRow>, lastRowKey: int, keyColumn: Option<string>, spanEnabled: bool)
    requires raws != [] && FormatData(raws, lastRowKey, keyColumn, spanEnabled).Success?
    ensures var head := FormatHead(raws, lastRowKey, keyColumn, spanEnabled);
            && head.Success?
            && FormatData(head.value.1, head.value.2, keyColumn, spanEnabled).Success?
            && FormatData(raws, lastRowKey, keyColumn, spanEnabled).value.0 ==
               [head.value.0] + FormatData(head.value.1, head.value.2, keyColumn, spanEnabled).value.0
  {
  }

  /** Formatting rows whose first `pend` rows already carry metadata for `c` (covered
      rows of a block seeded further up) and whose others carry none leaves the metadata
      of those first rows as it was. */
  lemma {:induction false} SeededRowsKeep(raws: seq<RawRow>, lastRowKey: int, keyColumn: Option<string>, spanEnabled: bool, c: string, pend: nat)
    requires FormatData(raws, lastRowKey, keyColumn, spanEnabled).Success?
    requires forall j :: 0 <= j < |raws| ==> (RawSpanOf(raws[j], c).Some? <==> j < pend)
    decreases |raws|
    ensures var rows := FormatData(raws, lastRowKey, keyColumn, spanEnabled).value.0;
            forall j :: 0 <= j < |raws| && j < pend ==> SpanOf(rows[j], c) == RawSpanOf(raws[j], c)
  {
    if raws != [] && pend > 0 {
      FormatDataCons(raws, lastRowKey, keyColumn, spanEnabled);
      FormatHeadColumn(raws, lastRowKey, keyColumn, spanEnabled, c);
      var head := FormatHead(raws, lastRowKey, keyColumn, spanEnabled).value;
      var rest := head.1;
      assert forall j :: 0 <= j < |rest| ==> RawSpanOf(rest[j], c) == RawSpanOf(raws[j + 1], c);
      SeededRowsKeep(rest, head.2, keyColumn, spanEnabled, c, pend - 1);
      var tail := FormatData(rest, head.2, keyColumn, spanEnabled).value.0;
      var rows := FormatData(raws, lastRowKey, keyColumn, spanEnabled).value.0;
      forall j | 0 < j < |raws| && j < pend
        ensures SpanOf(rows[j], c) == RawSpanOf(raws[j], c)
      {
        assert rows[j] == tail[j - 1];
      }
    }
  }

  /** A row that seeds a block of `n` rows, followed by its covered rows, is consistent
      up to the end of the block. */
  lemma SeededBlockOk(h: Row, tail: seq<Row>, c: string, n: int)
    requires SpanOf(h, c) == Some(SpanData(n, true, h.key))
    requires n - 1 <= |tail|
    requires forall j :: 0 <= j < |tail| && j < n - 1 ==> SpanOf(tail[j], c) == Some(SpanData(-(j + 1), false, h.key))
    ensures forall j :: 0 <= j < 1 + |tail| && (j == 0 || j < n) ==> RowOk([h] + tail, j, c)
  {
    var rows := [h] + tail;
    forall j | 0 < j < 1 + |tail| && j < n
      ensures RowOk(rows, j, c)
    {
      assert rows[j] == tail[j - 1];
    }
    if n >= 2 {
      forall t | 0 < t < n
        ensures SpanOf(rows[t], c) == Some(SpanData(0 - t, false, h.key))
      {
        assert rows[t] == tail[t - 1];
      }
    }
  }

  /** Consistent rows stay consistent behind rows put in front. */
  lemma ShiftAllOk(pre: seq<Row>, rows: seq<Row>, c: string, from: nat)
    requires forall j :: from <= j < |rows| ==> RowOk(rows, j, c)
    ensures forall j :: |pre| + from <= j < |pre| + |rows| ==> RowOk(pre + rows, j, c)
  {
    forall j | |pre| + from <= j < |pre| + |rows|
      ensures RowOk(pre + rows, j, c)
    {
      ShiftRowOk(pre, rows, j - |pre|, c);
    }
  }

  /** ...and every later row is consistent. */
  lemma {:induction false} SeededRowsOk(raws: seq<RawRow>, lastRowKey: int, keyColumn: Option<string>, spanEnabled: bool, c: string, pend: nat)
    requires FormatData(raws, lastRowKey, keyColumn, spanEnabled).Success?
    requires forall j :: 0 <= j < |raws| ==> (RawSpanOf(raws[j], c).Some? <==> j < pend)
    decreases |raws|
    ensures var rows := FormatData(raws, lastRowKey, keyColumn, spanEnabled).value.0;
            forall j :: pend <= j < |raws| ==> RowOk(rows, j, c)
  {
    if raws != [] {
      FormatDataCons(raws, lastRowKey, keyColumn, spanEnabled);
      FormatHeadColumn(raws, lastRowKey, keyColumn, spanEnabled, c);
      var head := FormatHead(raws, lastRowKey, keyColumn, spanEnabled).value;
      var h := head.0;
      var rest := head.1;
      var seeds := spanEnabled && RawSpanOf(raws[0], c).None? && DeclaredCount(raws[0].extra.rowSpan, c).Some?;
      var n := if seeds then DeclaredCount(raws[0].extra.rowSpan, c).value else 0;
      var pend1: nat := if pend >= 1 then pend - 1 else if n >= 1 then n - 1 else 0;
      assert forall j :: 0 <= j < |rest| ==> (RawSpanOf(rest[j], c).Some? <==> j < pend1);
      SeededRowsOk(rest, head.2, keyColumn, spanEnabled, c, pend1);
      var tail := FormatData(rest, head.2, keyColumn, spanEnabled).value.0;
      if seeds {
        SeededRowsKeep(rest, head.2, keyColumn, spanEnabled, c, pend1);
        SeededBlockOk(h, tail, c, n);
      }
      ShiftAllOk([h], tail, c, pend1);
    }
  }

  /** Formatting a batch that comes without span metadata yields a batch consistent in
      every column, whatever it declares: a declaration that reaches past the end makes
      formatting fail, and one on a row inside an earlier block is skipped. */
  lemma FormatDataWellFormed(raws: seq<RawRow>, lastRowKey: int, keyColumn: Option<string>, spanEnabled: bool)
    requires FormatData(raws, lastRowKey, keyColumn, spanEnabled).Success?
    requires forall j :: 0 <= j < |raws| ==> raws[j].extra.rowSpanData == map[]
    ensures forall c :: WellFormed(FormatData(raws, lastRowKey, keyColumn, spanEnabled).value.0, c)
  {
    forall c ensures WellFormed(FormatData(raws, lastRowKey, keyColumn, spanEnabled).value.0, c) {
      SeededRowsOk(raws, lastRowKey, keyColumn, spanEnabled, c, 0);
    }
  }

  /** ...and with generated keys it is a consistent collection on its own. */
  lemma FormatDataTableOk(raws: seq<RawRow>, lastRowKey: int, spanEnabled: bool)
    requires FormatData(raws, lastRowKey, None, spanEnabled).Success?
    requires forall j :: 0 <= j < |raws| ==> raws[j].extra.rowSpanData == map[]
    ensures TableOk(FormatData(raws, lastRowKey, None, spanEnabled).value.0)
  {
    FormatDataWellFormed(raws, lastRowKey, None, spanEnabled);
    FormatDataKeys(raws, lastRowKey, spanEnabled);
  }

  // ---------------------------------------------------------------------------
  // Insertion
  // ---------------------------------------------------------------------------

  /** A block of `N >= 2` rows headed at `m` that reaches the insertion point `p` grows
      over the `L` inserted rows: in isolation, the rows before the block and after its
      old end are untouched, and the grown block is consistent. */
  lemma GrowShape(rows0: seq<Row>, p: nat, batch: seq<Row>, m: nat, c: string, start: int, n: int)
    requires p <= |rows0| && m < p && IsMain(rows0[m], c) && MainOk(rows0, m, c)
    requires 2 <= Spans(rows0[m])[c].count && p <= m + Spans(rows0[m])[c].count
    requires start == p - m && n == Spans(rows0[m])[c].count + |batch|
    ensures var r := Grow(Insert(rows0, p, batch), m, c, start, n);
            r.Success? && Spliced(rows0, r.value, c, m, m + n, m + Spans(rows0[m])[c].count, |batch|)
  {
    var rows := Insert(rows0, p, batch);
    assert rows[m] == rows0[m];
    var rows1 := rows[m := WithCount(rows[m], c, n)];
    var r := UpdateSubRowSpanData(rows1, m, c, start, n);
    assert Grow(rows, m, c, start, n) == r;
    forall t | m < t < m + n
      ensures SpanOf(r.value[t], c) == Some(SpanData(m - t, false, r.value[m].key))
    {
      if t < p {
        assert r.value[t] == rows0[t];
      }
    }
    FreshBlock(r.value, c, m, n);
  }

  /** A main row spanning at most itself, extended over the `L` rows inserted right after
      it: it covers the first `count + L - 1` of them. */
  lemma ExtendLoneShape(rows0: seq<Row>, p: nat, batch: seq<Row>, c: string)
    requires 0 < p <= |rows0| && IsMain(rows0[p - 1], c) && MainOk(rows0, p - 1, c)
    requires Spans(rows0[p - 1])[c].count <= 1
    requires forall k :: 0 <= k < |batch| ==> c !in Spans(batch[k])
    ensures var rows := Insert(rows0, p, batch);
            var r := Grow(rows, p - 1, c, 1, Spans(rows0[p - 1])[c].count + |batch|);
            r.Success? && Spliced(rows0, r.value, c, p - 1, p + |batch|, p, |batch|)
  {
    var q := p - 1;
    var rows := Insert(rows0, p, batch);
    var n := Spans(rows0[q])[c].count + |batch|;
    assert rows[q] == rows0[q];
    var rows1 := rows[q := WithCount(rows[q], c, n)];
    var r := UpdateSubRowSpanData(rows1, q, c, 1, n);
    assert Grow(rows, q, c, 1, n) == r;
    if n >= 2 {
      FreshBlock(r.value, c, q, n);
    }
    forall j | p - 1 <= j < p + |batch|
      ensures RowOk(r.value, j, c)
    {
      if j >= q + n && j > q {
        assert r.value[j] == batch[j - p];
      }
    }
  }

  /** Inserting rows without metadata for `c` after the row at `p - 1` and running that
      row's sync step for `c` keeps `c` consistent. */
  lemma AppendColumnKeepsWellFormed(rows0: seq<Row>, p: nat, batch: seq<Row>, extend: bool, c: string)
    requires WellFormed(rows0, c) && 0 < p <= |rows0|
    requires UniqueKeys(rows0)
    requires forall k :: 0 <= k < |batch| ==> c !in Spans(batch[k])
    ensures c !in Spans(rows0[p - 1]) ==> WellFormed(Insert(rows0, p, batch), c)
    ensures c in Spans(rows0[p - 1]) ==>
              var r := SyncColumnForAppend(Insert(rows0, p, batch), p - 1, |batch|, extend, c);
              r.Success? && WellFormed(r.value, c)
  {
    var q := p - 1;
    var rows := Insert(rows0, p, batch);
    assert rows[q] == rows0[q];
    assert RowOk(rows0, q, c);
    if c !in Spans(rows0[q]) {
      BoundaryAfterLone(rows0, c, p);
      InsertAtBoundary(rows0, p, batch, c);
    } else if !Spans(rows0[q])[c].isMainRow {
      AppendAfterCovered(rows0, p, batch, extend, c);
    } else if Spans(rows0[q])[c].count >= 2 {
      AppendAfterBlock(rows0, p, batch, extend, c);
    } else {
      AppendAfterLone(rows0, p, batch, extend, c);
    }
  }

  /** Rows inserted after row `m` do not change which row a lookup of its key finds. */
  lemma FindBeforeInsert(rows0: seq<Row>, p: nat, batch: seq<Row>, m: nat)
    requires UniqueKeys(rows0) && m < p <= |rows0|
    ensures Find(Insert(rows0, p, batch), rows0[m].key) == Some(m)
  {
    var rows := Insert(rows0, p, batch);
    assert rows[m] == rows0[m];
    forall j | 0 <= j < m
      ensures rows[j].key != rows0[m].key
    {
      assert rows[j] == rows0[j];
    }
  }

  /** ...after a main row spanning at most itself. */
  lemma AppendAfterLone(rows0: seq<Row>, p: nat, batch: seq<Row>, extend: bool, c: string)
    requires WellFormed(rows0, c) && 0 < p <= |rows0|
    requires IsMain(rows0[p - 1], c) && Spans(rows0[p - 1])[c].count <= 1
    requires forall k :: 0 <= k < |batch| ==> c !in Spans(batch[k])
    ensures var r := SyncColumnForAppend(Insert(rows0, p, batch), p - 1, |batch|, extend, c);
            r.Success? && WellFormed(r.value, c)
  {
    var q := p - 1;
    var rows := Insert(rows0, p, batch);
    var data := Spans(rows0[q])[c];
    assert rows[q] == rows0[q];
    if data.count == 0 || !extend {
      BoundaryAfterLone(rows0, c, p);
      InsertAtBoundary(rows0, p, batch, c);
      assert SyncColumnForAppend(rows, q, |batch|, extend, c) == Success(rows);
      WellFormedOutcome(Success(rows), SyncColumnForAppend(rows, q, |batch|, extend, c), c);
    } else {
      AppendExtendsLone(rows0, p, batch, c);
    }
  }

  lemma AppendExtendsLone(rows0: seq<Row>, p: nat, batch: seq<Row>, c: string)
    requires WellFormed(rows0, c) && 0 < p <= |rows0|
    requires IsMain(rows0[p - 1], c) && Spans(rows0[p - 1])[c].count <= 1
    requires forall k :: 0 <= k < |batch| ==> c !in Spans(batch[k])
    ensures var r := Grow(Insert(rows0, p, batch), p - 1, c, 1, Spans(rows0[p - 1])[c].count + |batch|);
            r.Success? && WellFormed(r.value, c)
  {
    var q := p - 1;
    assert RowOk(rows0, q, c);
    BoundaryBeforeUncovered(rows0, c, q);
    BoundaryAfterLone(rows0, c, p);
    ExtendLoneShape(rows0, p, batch, c);
    var r := Grow(Insert(rows0, p, batch), q, c, 1, Spans(rows0[q])[c].count + |batch|);
    Splice(rows0, r.value, c, q, p + |batch|, p, |batch|);
  }

  /** ...after the main row of a block of two or more rows. */
  lemma AppendAfterBlock(rows0: seq<Row>, p: nat, batch: seq<Row>, extend: bool, c: string)
    requires WellFormed(rows0, c) && 0 < p <= |rows0|
    requires IsMain(rows0[p - 1], c) && Spans(rows0[p - 1])[c].count >= 2
    ensures var r := SyncColumnForAppend(Insert(rows0, p, batch), p - 1, |batch|, extend, c);
            r.Success? && WellFormed(r.value, c)
  {
    var q := p - 1;
    var rows := Insert(rows0, p, batch);
    assert rows[q] == rows0[q];
    var n := Spans(rows[q])[c].count + |batch|;
    AppendGrowsBlock(rows0, p, batch, extend, q, c, 1, n);
  }

  /** ...after a covered row: its main row is found by key, and the block grows when it
      continues past the insertion point or the caller asks to extend it. */
  lemma AppendAfterCovered(rows0: seq<Row>, p: nat, batch: seq<Row>, extend: bool, c: string)
    requires WellFormed(rows0, c) && 0 < p <= |rows0|
    requires UniqueKeys(rows0)
    requires c in Spans(rows0[p - 1]) && !Spans(rows0[p - 1])[c].isMainRow
    requires forall k :: 0 <= k < |batch| ==> c !in Spans(batch[k])
    ensures var r := SyncColumnForAppend(Insert(rows0, p, batch), p - 1, |batch|, extend, c);
            r.Success? && WellFormed(r.value, c)
  {
    var q := p - 1;
    var data := Spans(rows0[q])[c];
    assert CoveredOk(rows0, q, c) by {
      assert RowOk(rows0, q, c);
    }
    var m: nat := q + data.count;
    FindBeforeInsert(rows0, p, batch, m);
    if Spans(rows0[m])[c].count > -data.count + 1 || extend {
      AppendCoveredSyncs(rows0, p, batch, extend, m, c);
    } else {
      AppendCoveredEnds(rows0, p, batch, extend, m, c);
    }
  }

  lemma AppendCoveredGrows(rows0: seq<Row>, p: nat, batch: seq<Row>, extend: bool, m: nat, c: string)
    requires WellFormed(rows0, c) && 0 < p <= |rows0|
    requires c in Spans(rows0[p - 1]) && !Spans(rows0[p - 1])[c].isMainRow && CoveredOk(rows0, p - 1, c)
    requires Find(Insert(rows0, p, batch), Spans(rows0[p - 1])[c].mainRowKey) == Some(m)
    requires m == p - 1 + Spans(rows0[p - 1])[c].count
    requires Spans(rows0[m])[c].count > -Spans(rows0[p - 1])[c].count + 1 || extend
    ensures var r := AppendAt(Insert(rows0, p, batch), m, c, p - m, |batch|, extend);
            r.Success? && WellFormed(r.value, c)
  {
    var q := p - 1;
    var rows := Insert(rows0, p, batch);
    var bigN := Spans(rows0[m])[c].count;
    assert rows[q] == rows0[q] && rows[m] == rows0[m];
    var start := -Spans(rows[q])[c].count + 1;
    var n := Spans(rows[m])[c].count + |batch|;
    AppendGrowsBlock(rows0, p, batch, extend, m, c, start, n);
  }

  /** ...so the sync step of the covered row grows that block too. */
  lemma AppendCoveredSyncs(rows0: seq<Row>, p: nat, batch: seq<Row>, extend: bool, m: nat, c: string)
    requires WellFormed(rows0, c) && 0 < p <= |rows0|
    requires c in Spans(rows0[p - 1]) && !Spans(rows0[p - 1])[c].isMainRow && CoveredOk(rows0, p - 1, c)
    requires Find(Insert(rows0, p, batch), Spans(rows0[p - 1])[c].mainRowKey) == Some(m)
    requires m == p - 1 + Spans(rows0[p - 1])[c].count
    requires Spans(rows0[m])[c].count > -Spans(rows0[p - 1])[c].count + 1 || extend
    ensures var r := SyncColumnForAppend(Insert(rows0, p, batch), p - 1, |batch|, extend, c);
            r.Success? && WellFormed(r.value, c)
  {
    AppendCoveredGrows(rows0, p, batch, extend, m, c);
    var rows := Insert(rows0, p, batch);
    assert rows[p - 1] == rows0[p - 1] && rows[m] == rows0[m];
    CoveredSync(rows, p - 1, |batch|, extend, c, m);
  }

  /** A covered row whose main row has been found appends exactly as that main row does. */
  lemma CoveredSync(rows: seq<Row>, q: nat, len: nat, extend: bool, c: string, m: nat)
    requires q < |rows| && c in Spans(rows[q]) && !Spans(rows[q])[c].isMainRow && Spans(rows[q])[c].count != 0
    requires Find(rows, Spans(rows[q])[c].mainRowKey) == Some(m) && c in Spans(rows[m])
    requires var r := AppendAt(rows, m, c, -Spans(rows[q])[c].count + 1, len, extend);
             r.Success? && WellFormed(r.value, c)
    ensures var r := SyncColumnForAppend(rows, q, len, extend, c);
            r.Success? && WellFormed(r.value, c)
  {
    SyncIsAppendAt(rows, q, len, extend, c, m);
    WellFormedOutcome(AppendAt(rows, m, c, -Spans(rows[q])[c].count + 1, len, extend), SyncColumnForAppend(rows, q, len, extend, c), c);
  }

  /** The sync step is the step of the main row of the previous row's block. */
  lemma SyncIsAppendAt(rows: seq<Row>, q: nat, len: nat, extend: bool, c: string, m: nat)
    requires q < |rows| && c in Spans(rows[q]) && Spans(rows[q])[c].count != 0
    requires BlockMain(rows, q, c) == Some(m)
    ensures SyncColumnForAppend(rows, q, len, extend, c) == AppendAt(rows, m, c, AppendStart(rows, q, c), len, extend)
  {
  }

  /** Consistency carries over between equal outcomes. */
  lemma WellFormedOutcome(a: Result<seq<Row>>, b: Result<seq<Row>>, c: string)
    requires a == b && a.Success? && WellFormed(a.value, c)
    ensures b.Success? && WellFormed(b.value, c)
  {
  }

  lemma AppendCoveredEnds(rows0: seq<Row>, p: nat, batch: seq<Row>, extend: bool, m: nat, c: string)
    requires WellFormed(rows0, c) && 0 < p <= |rows0|
    requires c in Spans(rows0[p - 1]) && !Spans(rows0[p - 1])[c].isMainRow && CoveredOk(rows0, p - 1, c)
    requires Find(Insert(rows0, p, batch), Spans(rows0[p - 1])[c].mainRowKey) == Some(m)
    requires forall k :: 0 <= k < |batch| ==> c !in Spans(batch[k])
    requires m == p - 1 + Spans(rows0[p - 1])[c].count
    requires !(Spans(rows0[m])[c].count > -Spans(rows0[p - 1])[c].count + 1 || extend)
    ensures var r := SyncColumnForAppend(Insert(rows0, p, batch), p - 1, |batch|, extend, c);
            r.Success? && WellFormed(r.value, c)
  {
    var q := p - 1;
    var rows := Insert(rows0, p, batch);
    assert rows[q] == rows0[q] && rows[m] == rows0[m];
    assert Boundary(rows0, c, p) by {
      BoundaryAfterMain(rows0, c, m);
      assert RowOk(rows0, m, c);
    }
    InsertAtBoundary(rows0, p, batch, c);
    assert SyncColumnForAppend(rows, q, |batch|, extend, c) == Success(rows);
    WellFormedOutcome(Success(rows), SyncColumnForAppend(rows, q, |batch|, extend, c), c);
  }

  lemma AppendGrowsBlock(rows0: seq<Row>, p: nat, batch: seq<Row>, extend: bool, m: nat, c: string, start: int, n: int)
    requires WellFormed(rows0, c) && p <= |rows0| && m < p
    requires IsMain(rows0[m], c) && 2 <= Spans(rows0[m])[c].count && p <= m + Spans(rows0[m])[c].count
    requires start == p - m && n == Spans(rows0[m])[c].count + |batch|
    requires Spans(rows0[m])[c].count > start || extend
    ensures var r := AppendAt(Insert(rows0, p, batch), m, c, start, |batch|, extend);
            r.Success? && WellFormed(r.value, c)
  {
    var bigN := Spans(rows0[m])[c].count;
    assert Boundary(rows0, c, m) && Boundary(rows0, c, m + bigN) && m + bigN <= |rows0| by {
      BoundaryBeforeUncovered(rows0, c, m);
      BoundaryAfterMain(rows0, c, m);
    }
    assert MainOk(rows0, m, c) by {
      assert RowOk(rows0, m, c);
    }
    GrowShape(rows0, p, batch, m, c, start, n);
    var rows := Insert(rows0, p, batch);
    var r := Grow(rows, m, c, start, n);
    Splice(rows0, r.value, c, m, m + n, m + bigN, |batch|);
    assert rows[m] == rows0[m];
    AppendAtIsGrow(rows, m, c, start, |batch|, extend);
    WellFormedOutcome(r, AppendAt(rows, m, c, start, |batch|, extend), c);
  }

  /** A block that takes in the new rows grows. */
  lemma AppendAtIsGrow(rows: seq<Row>, m: nat, c: string, start: int, len: nat, extend: bool)
    requires m < |rows| && c in Spans(rows[m])
    requires Spans(rows[m])[c].count > start || extend
    ensures AppendAt(rows, m, c, start, len, extend) == Grow(rows, m, c, start, Spans(rows[m])[c].count + len)
  {
  }

  /** `add(batch, {at})` followed by `_syncRowSpanDataForAppend(at, |batch|, extend)`:
      rows without span metadata and with fresh keys, inserted anywhere, leave a
      consistent table consistent, and the sync step never throws. Past the end, Backbone
      appends the rows. */
  lemma AppendKeepsTableOk(rows0: seq<Row>, at: nat, batch: seq<Row>, extend: bool)
    requires TableOk(rows0)
    requires var p := if at <= |rows0| then at else |rows0|; UniqueKeys(Insert(rows0, p, batch))
    requires forall k :: 0 <= k < |batch| ==> Spans(batch[k]) == map[]
    ensures var p := if at <= |rows0| then at else |rows0|;
            var r := SyncRowSpanDataForAppend(Insert(rows0, p, batch), at, |batch|, extend);
            r.Success? && TableOk(r.value)
  {
    var p := if at <= |rows0| then at else |rows0|;
    var rows := Insert(rows0, p, batch);
    var r := SyncRowSpanDataForAppend(rows, at, |batch|, extend);
    if at == 0 || at > |rows0| {
      if at > |rows0| && at <= |rows| {
        assert Spans(rows[at - 1]) == map[];
        assert r == Combine(rows, map[]);
      }
      forall c
        ensures WellFormed(rows, c)
      {
        assert WellFormed(rows0, c);
        BoundaryBeforeUncovered(rows0, c, |rows0|);
        InsertAtBoundary(rows0, p, batch, c);
      }
    } else {
      AppendAtKeepsTableOk(rows0, p, batch, extend);
    }
  }

  lemma AppendAtKeepsTableOk(rows0: seq<Row>, p: nat, batch: seq<Row>, extend: bool)
    requires TableOk(rows0) && 0 < p <= |rows0|
    requires UniqueKeys(Insert(rows0, p, batch))
    requires forall k :: 0 <= k < |batch| ==> Spans(batch[k]) == map[]
    ensures var r := SyncRowSpanDataForAppend(Insert(rows0, p, batch), p, |batch|, extend);
            r.Success? && TableOk(r.value)
  {
    var rows := Insert(rows0, p, batch);
    assert rows[p - 1] == rows0[p - 1];
    var cols := Spans(rows0[p - 1]);
    var results := map c | c in cols :: SyncColumnForAppend(rows, p - 1, |batch|, extend, c);
    forall c | c in cols
      ensures results[c].Success?
    {
      assert WellFormed(rows0, c);
      AppendColumnKeepsWellFormed(rows0, p, batch, extend, c);
    }
    var r := Combine(rows, results);
    assert SyncRowSpanDataForAppend(rows, p, |batch|, extend) == r;
    forall c
      ensures WellFormed(r.value, c)
    {
      assert WellFormed(rows0, c);
      AppendCombinedColumn(rows0, p, batch, extend, results, r.value, c);
    }
  }

  lemma AppendCombinedColumn(rows0: seq<Row>, p: nat, batch: seq<Row>, extend: bool,
                             results: map<string, Result<seq<Row>>>, res: seq<Row>, c: string)
    requires WellFormed(rows0, c) && UniqueKeys(rows0) && 0 < p <= |rows0|
    requires forall k :: 0 <= k < |batch| ==> Spans(batch[k]) == map[]
    requires forall d :: d in results <==> d in Spans(rows0[p - 1])
    requires forall d :: d in results ==> results[d] == SyncColumnForAppend(Insert(rows0, p, batch), p - 1, |batch|, extend, d)
    requires forall d :: d in results ==> results[d].Success? && |results[d].value| == |Insert(rows0, p, batch)|
    requires SameKeys(res, Insert(rows0, p, batch))
    requires forall j, d :: 0 <= j < |res| && d in results ==> SameCell(res[j], results[d].value[j], d)
    requires forall j, d :: 0 <= j < |res| && d !in results ==> SameCell(res[j], Insert(rows0, p, batch)[j], d)
    ensures WellFormed(res, c)
  {
    var rows := Insert(rows0, p, batch);
    assert rows[p - 1] == rows0[p - 1];
    AppendColumnKeepsWellFormed(rows0, p, batch, extend, c);
    if c in results {
      WellFormedCongruent(results[c].value, res, c);
    } else {
      WellFormedCongruent(rows, res, c);
    }
  }
}
