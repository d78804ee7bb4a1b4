/** A concrete table on which `_syncRowSpanDataForRemove`, as written, breaks the row-span
    metadata, and the same table under the corrected guard. */
module Findings {
  import opened Wrappers
  import opened Values
  import opened Rows
  import opened Propagator
  import opened Blocks
  import opened Preservation

  const Col: string := "name"

  function SpanRow(key: int, v: string, d: SpanData): Row {
    Row(Num(key), map[Col := Str(v)], false, Extra([], map[Col := d], None))
  }

  /** Row 0 declared `rowSpan: {name: 0}` (so it is a main row with count 0); rows 1 and
      2 form a block of two. */
  function ZeroSpanTable(): (rows: seq<Row>)
    ensures WellFormed(rows, Col) && UniqueKeys(rows)
  {
    var rows := [SpanRow(0, "a", SpanData(0, true, Num(0))),
                 SpanRow(1, "b", SpanData(2, true, Num(1))),
                 SpanRow(2, "", SpanData(-1, false, Num(1)))];
    assert RowOk(rows, 0, Col) && RowOk(rows, 1, Col) && RowOk(rows, 2, Col);
    rows
  }

  /** Removing row 0 with the guard as written promotes row 1 as if it had inherited a
      block: its value is blanked and its own span is dropped, so row 2 is left covered
      by a row that is no longer a main row. */
  lemma AsWrittenBreaksZeroSpan()
    ensures var rows0 := ZeroSpanTable();
            var r := SyncColumnForRemoveAsWritten(Delete(rows0, 0), 0, Spans(rows0[0])[Col], None, Col);
            && r.Success?
            && ValueOf(r.value[0], Col) == Some(Blank) && SpanOf(r.value[0], Col) == None
            && !WellFormed(r.value, Col)
  {
    var rows0 := ZeroSpanTable();
    var rows := Delete(rows0, 0);
    assert rows[0] == rows0[1] && rows[1] == rows0[2];
    var r := SyncColumnForRemoveAsWritten(rows, 0, Spans(rows0[0])[Col], None, Col);
    var next := WithValue(rows[0], Col, Some(Blank));
    assert r == Success(rows[0 := WithSpan(next, Col, None)]);
    assert r.value[1] == rows0[2];
    assert !RowOk(r.value, 1, Col);
  }

  /** Removing the last row when it declared a span of 0 throws with the guard as
      written, since there is no next row to promote. */
  lemma AsWrittenThrowsOnLastZeroSpan()
    ensures var rows0 := [SpanRow(0, "a", SpanData(0, true, Num(0)))];
            SyncColumnForRemoveAsWritten(Delete(rows0, 0), 0, SpanData(0, true, Num(0)), None, Col) == TypeError
  {
  }

  /** With the corrected guard the same removal leaves the table consistent and row 1
      untouched. */
  lemma CorrectedKeepsZeroSpan()
    ensures var rows0 := ZeroSpanTable();
            var r := SyncColumnForRemove(Delete(rows0, 0), 0, Spans(rows0[0])[Col], None, Col);
            && r == Success(Delete(rows0, 0))
            && WellFormed(r.value, Col) && r.value[0] == rows0[1]
  {
    var rows0 := ZeroSpanTable();
    RemoveColumnKeepsWellFormed(rows0, 0, Col, None);
  }
}
