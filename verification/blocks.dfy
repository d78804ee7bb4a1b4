/** The row-span invariant: for every column, span metadata describes disjoint contiguous
    blocks, each made of one main row holding the block size followed by covered rows
    holding their negative distance to it and its key. */
module Blocks {
  import opened Wrappers
  import opened Values
  import opened Rows

  predicate IsMain(r: Row, c: string) {
    c in Spans(r) && Spans(r)[c].isMainRow
  }

  /** A main row carries its own key; when its count is 2 or more, the following
      `count - 1` rows exist and are its covered rows. */
  predicate MainOk(rows: seq<Row>, m: nat, c: string)
    requires m < |rows| && c in Spans(rows[m])
  {
    var d := Spans(rows[m])[c];
    && d.mainRowKey == rows[m].key
    && (d.count >= 2 ==>
          && m + d.count <= |rows|
          && forall t :: m < t < m + d.count ==> SpanOf(rows[t], c) == Some(SpanData(m - t, false, rows[m].key)))
  }

  /** A covered row points back, by its count, to a main row that carries the key it
      names and whose block reaches it. */
  predicate CoveredOk(rows: seq<Row>, j: nat, c: string)
    requires j < |rows| && c in Spans(rows[j])
  {
    var d := Spans(rows[j])[c];
    && d.count <= -1
    && 0 <= j + d.count
    && IsMain(rows[j + d.count], c)
    && Spans(rows[j + d.count])[c].count > -d.count
    && rows[j + d.count].key == d.mainRowKey
  }

  predicate RowOk(rows: seq<Row>, j: nat, c: string)
    requires j < |rows|
  {
    c in Spans(rows[j]) ==> if Spans(rows[j])[c].isMainRow then MainOk(rows, j, c) else CoveredOk(rows, j, c)
  }

  /** The span metadata of column `c` is consistent. */
  predicate WellFormed(rows: seq<Row>, c: string) {
    forall j :: 0 <= j < |rows| ==> RowOk(rows, j, c)
  }

  /** One past the last row of the block a row starts (the row itself when it starts
      none). */
  function Reach(r: Row, m: int, c: string): int {
    if IsMain(r, c) && Spans(r)[c].count >= 2 then m + Spans(r)[c].count else m + 1
  }

  /** No block of column `c` starts before index `q` and continues at or past it. */
  predicate Boundary(rows: seq<Row>, c: string, q: int) {
    forall m :: 0 <= m < q && m < |rows| ==> Reach(rows[m], m, c) <= q
  }

  /** A well-formed table is cut cleanly just before any row that is not covered. */
  lemma BoundaryBeforeUncovered(rows: seq<Row>, c: string, q: nat)
    requires WellFormed(rows, c)
    requires q <= |rows|
    requires q < |rows| ==> !(c in Spans(rows[q]) && !Spans(rows[q])[c].isMainRow)
    ensures Boundary(rows, c, q)
  {
    forall m | 0 <= m < q
      ensures Reach(rows[m], m, c) <= q
    {
      assert RowOk(rows, m, c);
    }
  }

  /** ...and just after a row that neither spans anything nor is covered. */
  lemma BoundaryAfterLone(rows: seq<Row>, c: string, q: nat)
    requires WellFormed(rows, c)
    requires 0 < q <= |rows|
    requires c !in Spans(rows[q - 1]) || (Spans(rows[q - 1])[c].isMainRow && Spans(rows[q - 1])[c].count <= 1)
    ensures Boundary(rows, c, q)
  {
    BoundaryBeforeUncovered(rows, c, q - 1);
  }

  /** ...and right after the block a main row starts. */
  lemma BoundaryAfterMain(rows: seq<Row>, c: string, m: nat)
    requires WellFormed(rows, c)
    requires m < |rows| && IsMain(rows[m], c)
    ensures Reach(rows[m], m, c) <= |rows|
    ensures Boundary(rows, c, Reach(rows[m], m, c))
  {
    BoundaryBeforeUncovered(rows, c, m);
    assert RowOk(rows, m, c);
    var e := Reach(rows[m], m, c);
    forall k | 0 <= k < e
      ensures Reach(rows[k], k, c) <= e
    {
      if m < k {
        assert SpanOf(rows[k], c) == Some(SpanData(m - k, false, rows[m].key));
      }
    }
  }

  /** The main row of a covered row lies on the same side of every boundary. */
  lemma MainOfCoveredAfterBoundary(rows: seq<Row>, c: string, q: int, j: nat)
    requires WellFormed(rows, c) && Boundary(rows, c, q)
    requires q <= j < |rows| && c in Spans(rows[j]) && !Spans(rows[j])[c].isMainRow
    ensures j + Spans(rows[j])[c].count >= q
  {
    assert RowOk(rows, j, c);
    var m := j + Spans(rows[j])[c].count;
    assert IsMain(rows[m], c);
  }

  /** Rows before a boundary that are copied unchanged stay consistent. */
  lemma KeepLeft(rows: seq<Row>, r: seq<Row>, c: string, q: nat, j: nat)
    requires WellFormed(rows, c) && Boundary(rows, c, q)
    requires q <= |rows| && q <= |r|
    requires forall t {:trigger r[t]} :: 0 <= t < q ==> r[t] == rows[t]
    requires j < q
    ensures RowOk(r, j, c)
  {
    assert RowOk(rows, j, c);
    assert Reach(rows[j], j, c) <= q;
  }

  /** Rows after a boundary that are copied unchanged, shifted by `s` places, stay
      consistent. */
  lemma KeepRight(rows: seq<Row>, r: seq<Row>, c: string, q: nat, s: int, j: nat)
    requires WellFormed(rows, c) && Boundary(rows, c, q)
    requires q <= |rows| && |r| == |rows| + s && 0 <= q + s
    requires forall t :: q <= t < |rows| ==> r[t + s] == rows[t]
    requires q + s <= j < |r|
    ensures RowOk(r, j, c)
  {
    var o := j - s;
    assert r[j] == rows[o];
    assert RowOk(rows, o, c);
    if c in Spans(rows[o]) {
      var d := Spans(rows[o])[c];
      if d.isMainRow {
        if d.count >= 2 {
          forall t | j < t < j + d.count
            ensures SpanOf(r[t], c) == Some(SpanData(j - t, false, r[j].key))
          {
            assert r[t] == rows[t - s];
          }
        }
      } else {
        MainOfCoveredAfterBoundary(rows, c, q, o);
        assert r[j + d.count] == rows[o + d.count];
      }
    }
  }

  /** `r` is `rows` with the part before `a` kept, the part from `q` on kept but
      shifted by `s` places, and in between a part `[a, b)` of `r` that is consistent in
      itself. */
  predicate Spliced(rows: seq<Row>, r: seq<Row>, c: string, a: nat, b: nat, q: nat, s: int) {
    && a <= |rows| && q <= |rows| && a <= b <= |r| && |r| == |rows| + s && q + s == b
    && (forall t {:trigger r[t]} :: 0 <= t < a ==> r[t] == rows[t])
    && (forall t :: q <= t < |rows| ==> r[t + s] == rows[t])
    && (forall j :: a <= j < b ==> RowOk(r, j, c))
  }

  /** A table spliced from a consistent table cut at boundaries is consistent. */
  lemma Splice(rows: seq<Row>, r: seq<Row>, c: string, a: nat, b: nat, q: nat, s: int)
    requires WellFormed(rows, c) && Boundary(rows, c, a) && Boundary(rows, c, q)
    requires Spliced(rows, r, c, a, b, q, s)
    ensures WellFormed(r, c)
  {
    forall j | 0 <= j < |r|
      ensures RowOk(r, j, c)
    {
      if j < a {
        KeepLeft(rows, r, c, a, j);
      } else if j >= b {
        KeepRight(rows, r, c, q, s, j);
      }
    }
  }

  /** A main row followed by its `n - 1` covered rows is consistent in itself. */
  lemma FreshBlock(r: seq<Row>, c: string, m: nat, n: int)
    requires 2 <= n && m + n <= |r|
    requires SpanOf(r[m], c) == Some(SpanData(n, true, r[m].key))
    requires forall t :: m < t < m + n ==> SpanOf(r[t], c) == Some(SpanData(m - t, false, r[m].key))
    ensures forall j :: m <= j < m + n ==> RowOk(r, j, c)
  {
  }

  /** Inserting rows without metadata for `c` at a boundary keeps `c` consistent. */
  lemma InsertAtBoundary(rows: seq<Row>, p: nat, batch: seq<Row>, c: string)
    requires WellFormed(rows, c) && p <= |rows| && Boundary(rows, c, p)
    requires forall k :: 0 <= k < |batch| ==> c !in Spans(batch[k])
    ensures WellFormed(Insert(rows, p, batch), c)
  {
    var r := Insert(rows, p, batch);
    forall j | p <= j < p + |batch|
      ensures RowOk(r, j, c)
    {
      assert r[j] == batch[j - p];
    }
    assert Spliced(rows, r, c, p, p + |batch|, p, |batch|);
    Splice(rows, r, c, p, p + |batch|, p, |batch|);
  }

  /** Removing a row that lies in no block of `c` keeps `c` consistent. */
  lemma DeleteAtBoundary(rows: seq<Row>, i: nat, c: string)
    requires WellFormed(rows, c) && i < |rows|
    requires Boundary(rows, c, i) && Boundary(rows, c, i + 1)
    ensures WellFormed(Delete(rows, i), c)
  {
    assert Spliced(rows, Delete(rows, i), c, i, i, i + 1, -1);
    Splice(rows, Delete(rows, i), c, i, i, i + 1, -1);
  }

  /** A row stays consistent when rows are put in front of the collection: covered rows
      point back and main rows forward by distances that do not change. */
  lemma ShiftRowOk(pre: seq<Row>, rows: seq<Row>, j: nat, c: string)
    requires j < |rows| && RowOk(rows, j, c)
    ensures RowOk(pre + rows, |pre| + j, c)
  {
    var r := pre + rows;
    var i := |pre| + j;
    assert r[i] == rows[j];
    if c in Spans(rows[j]) {
      var d := Spans(rows[j])[c];
      if d.isMainRow {
        if d.count >= 2 {
          forall t | i < t < i + d.count
            ensures SpanOf(r[t], c) == Some(SpanData(i - t, false, r[i].key))
          {
            assert r[t] == rows[t - |pre|];
          }
        }
      } else {
        assert r[i + d.count] == rows[j + d.count];
      }
    }
  }

  /** Consistency of `c` depends only on the row keys and the metadata of `c`. */
  lemma WellFormedCongruent(a: seq<Row>, b: seq<Row>, c: string)
    requires WellFormed(a, c) && SameKeys(a, b)
    requires forall j :: 0 <= j < |a| ==> SpanOf(a[j], c) == SpanOf(b[j], c)
    ensures WellFormed(b, c)
  {
    forall j | 0 <= j < |b|
      ensures RowOk(b, j, c)
    {
      assert RowOk(a, j, c);
      if c in Spans(b[j]) {
        assert SpanOf(a[j], c) == SpanOf(b[j], c);
        var d := Spans(b[j])[c];
        if !d.isMainRow {
          var m := j + d.count;
          if 0 <= m < |a| {
            assert SpanOf(a[m], c) == SpanOf(b[m], c);
          }
        }
      }
    }
  }

  /** Every column of the table is consistent, and row keys are unique. */
  ghost predicate TableOk(rows: seq<Row>) {
    UniqueKeys(rows) && forall c :: WellFormed(rows, c)
  }
}
