/** Sort-state bookkeeping and the comparator of the row collection
    (src/js/data/rowList.js, `setSortOptionValues`, `sortByField`, `comparator`). */
module Sorting {
  import opened Wrappers
  import opened Values
  import opened Rows

  /** `sortOptions`: the sort column, its direction and whether sorting happens on the
      client (otherwise the server is asked to refetch). */
  datatype SortOptions = SortOptions(columnName: string, isAscending: bool, useClient: bool)

  /** Payload of the `sortChanged` event. `isRequireFetch` is optional in the source. */
  datatype SortChanged = SortChanged(columnName: string, isAscending: bool, isRequireFetch: Option<bool>)

  /** The column that stands for the natural (row-key) order. */
  const NaturalColumn: string := KeyProperty

  /** The options a new collection starts with; `useClientSort` defaults to true. */
  function InitialSortOptions(useClientSort: Option<bool>): (o: SortOptions)
    ensures o.columnName == NaturalColumn && o.isAscending
    ensures o.useClient <==> useClientSort != Some(false)
  {
    SortOptions(NaturalColumn, true, useClientSort.GetOr(true))
  }

  /** Sorted by some column other than the row key. */
  predicate IsSortedByField(o: SortOptions) {
    o.columnName != NaturalColumn
  }

  /** Row-span is honoured only in natural order. */
  predicate IsRowSpanEnable(o: SortOptions) {
    !IsSortedByField(o)
  }

  /** Sorting by a column other than the row key turns span handling off; sorting by
      the row key (or by no column) turns it back on. */
  lemma SortDecidesRowSpan(o: SortOptions, columnName: Option<string>, isAscending: Option<bool>)
    ensures var o1 := SortByField(o, columnName, isAscending).0;
            && (IsSortedByField(o1) <==> columnName.Some? && columnName.value != NaturalColumn)
            && (IsRowSpanEnable(o1) <==> columnName.GetOr(NaturalColumn) == NaturalColumn)
  {
  }

  /** `setSortOptionValues`: an omitted column means the row key, an omitted direction
      means ascending; the options always take the effective arguments and a
      `sortChanged` event is emitted exactly when column or direction changed. */
  function SetSortOptionValues(o: SortOptions, columnName: Option<string>, isAscending: Option<bool>, isRequireFetch: Option<bool>)
    : (r: (SortOptions, Option<SortChanged>))
    ensures r.0.columnName == columnName.GetOr(NaturalColumn)
    ensures r.0.isAscending == isAscending.GetOr(true)
    ensures r.0.useClient == o.useClient
    ensures r.1.Some? <==> (o.columnName != r.0.columnName || o.isAscending != r.0.isAscending)
    ensures r.1.Some? ==> r.1.value == SortChanged(r.0.columnName, r.0.isAscending, isRequireFetch)
  {
    var col := columnName.GetOr(NaturalColumn);
    var asc := isAscending.GetOr(true);
    var changed := o.columnName != col || o.isAscending != asc;
    (o.(columnName := col, isAscending := asc), if changed then Some(SortChanged(col, asc, isRequireFetch)) else None)
  }

  /** `sortByField` without the reordering itself: an omitted direction toggles when the
      same column is sorted again and is ascending otherwise; the event asks for a refetch
      exactly when sorting is not done on the client. */
  function SortByField(o: SortOptions, columnName: Option<string>, isAscending: Option<bool>)
    : (r: (SortOptions, Option<SortChanged>))
    ensures r.0.columnName == columnName.GetOr(NaturalColumn)
    ensures r.0.useClient == o.useClient
    ensures isAscending.Some? ==> r.0.isAscending == isAscending.value
    ensures isAscending.None? && columnName == Some(o.columnName) ==> r.0.isAscending == !o.isAscending && r.1.Some?
    ensures isAscending.None? && columnName != Some(o.columnName) ==> r.0.isAscending
    ensures r.1.Some? ==> r.1.value.isRequireFetch == Some(!o.useClient)
  {
    var asc := match isAscending
      case Some(a) => a
      case None => if columnName == Some(o.columnName) then !o.isAscending else true;
    SetSortOptionValues(o, columnName, Some(asc), Some(!o.useClient))
  }

  /** Sorting the same column twice without a direction returns to the first direction
      and leaves the options as they were. */
  lemma SortByFieldTwiceRestores(o: SortOptions)
    ensures SortByField(SortByField(o, Some(o.columnName), None).0, Some(o.columnName), None).0 == o
  {
  }

  /** The UTF-16 code units of a character: itself below U+10000, otherwise its
      surrogate pair. */
  function CodeUnits(ch: char): (u: seq<int>)
    ensures 1 <= |u| <= 2
    ensures forall k :: 0 <= k < |u| ==> 0 <= u[k] < 0x1_0000
    ensures |u| == 1 <==> (ch as int) < 0x1_0000
    ensures |u| == 1 ==> u[0] == ch as int
    ensures |u| == 2 ==> 0xD800 <= u[0] < 0xDC00 <= u[1] < 0xE000
    ensures |u| == 2 ==> 0x1_0000 + (u[0] - 0xD800) * 0x400 + (u[1] - 0xDC00) == ch as int
  {
    var v := ch as int;
    if v < 0x1_0000 then [v]
    else [0xD800 + (v - 0x1_0000) / 0x400, 0xDC00 + (v - 0x1_0000) % 0x400]
  }

  /** A JavaScript string: the sequence of UTF-16 code units of its characters. */
  function Utf16(s: string): (u: seq<int>)
    decreases |s|
    ensures |u| >= |s|
    ensures forall k :: 0 <= k < |u| ==> 0 <= u[k] < 0x1_0000
  {
    if s == [] then [] else CodeUnits(s[0]) + Utf16(s[1..])
  }

  /** Lexicographic order of two sequences of code units, a proper prefix first. */
  predicate UnitsLess(a: seq<int>, b: seq<int>)
    decreases |a|
  {
    if |a| == 0 then |b| > 0
    else if |b| == 0 then false
    else if a[0] != b[0] then a[0] < b[0]
    else UnitsLess(a[1..], b[1..])
  }

  /** JavaScript's `<` on strings: lexicographic order of the UTF-16 code units. */
  predicate StrLess(a: string, b: string) {
    UnitsLess(Utf16(a), Utf16(b))
  }

  /** On text inside the Basic Multilingual Plane the code units are the characters. */
  lemma {:induction false} Utf16OfBmp(s: string)
    requires forall k :: 0 <= k < |s| ==> (s[k] as int) < 0x1_0000
    decreases |s|
    ensures |Utf16(s)| == |s|
    ensures forall k :: 0 <= k < |s| ==> Utf16(s)[k] == s[k] as int
  {
    if s != [] {
      Utf16OfBmp(s[1..]);
      assert Utf16(s) == [s[0] as int] + Utf16(s[1..]);
    }
  }

  /** A character beyond U+FFFF sorts below U+FFFF, since its first code unit is a high
      surrogate; by code point it would sort above. */
  lemma SurrogatesSortBelowFFFF()
    ensures StrLess("\U{1F600}", "\U{FFFF}")
  {
    assert CodeUnits('\U{1F600}') == [0xD83D, 0xDE00];
    assert Utf16("\U{1F600}") == [0xD83D, 0xDE00];
    assert Utf16("\U{FFFF}") == [0xFFFF];
  }

  lemma {:induction false} UnitsLessIrreflexive(a: seq<int>)
    ensures !UnitsLess(a, a)
    decreases |a|
  {
    if |a| > 0 {
      UnitsLessIrreflexive(a[1..]);
    }
  }

  lemma {:induction false} UnitsLessAsymmetric(a: seq<int>, b: seq<int>)
    ensures UnitsLess(a, b) ==> !UnitsLess(b, a)
    decreases |a|
  {
    if |a| > 0 && |b| > 0 && a[0] == b[0] {
      UnitsLessAsymmetric(a[1..], b[1..]);
    }
  }

  lemma {:induction false} UnitsLessTransitive(a: seq<int>, b: seq<int>, c: seq<int>)
    requires UnitsLess(a, b) && UnitsLess(b, c)
    ensures UnitsLess(a, c)
    decreases |a|
  {
    if |a| > 0 && |b| > 0 && |c| > 0 && a[0] == b[0] && b[0] == c[0] {
      UnitsLessTransitive(a[1..], b[1..], c[1..]);
    }
  }

  /** JavaScript's `<` on two cell values, for values of the same kind: numbers by value,
      strings lexicographically, `false < true`. Any other pair (an `undefined` operand
      included) compares false both ways. */
  predicate Less(a: Option<Value>, b: Option<Value>) {
    match (a, b)
    case (Some(Num(x)), Some(Num(y))) => x < y
    case (Some(Str(x)), Some(Str(y))) => StrLess(x, y)
    case (Some(Bool(x)), Some(Bool(y))) => !x && y
    case _ => false
  }

  lemma LessAsymmetric(a: Option<Value>, b: Option<Value>)
    ensures Less(a, b) ==> !Less(b, a)
  {
    if a.Some? && b.Some? && a.value.Str? && b.value.Str? {
      UnitsLessAsymmetric(Utf16(a.value.s), Utf16(b.value.s));
    }
  }

  lemma LessTransitive(a: Option<Value>, b: Option<Value>, c: Option<Value>)
    requires Less(a, b) && Less(b, c)
    ensures Less(a, c)
  {
    if a.value.Str? {
      UnitsLessTransitive(Utf16(a.value.s), Utf16(b.value.s), Utf16(c.value.s));
    }
  }

  /** `comparator`: -1, 0 or 1 by the sort column's values, negated when descending. */
  function Compare(o: SortOptions, a: Row, b: Row): (r: int)
    ensures r == -1 || r == 0 || r == 1
    ensures r == -1 <==> (if o.isAscending then Less(Attribute(a, o.columnName), Attribute(b, o.columnName))
                          else Less(Attribute(b, o.columnName), Attribute(a, o.columnName)))
  {
    var x := Attribute(a, o.columnName);
    var y := Attribute(b, o.columnName);
    var result := if Less(x, y) then -1 else if Less(y, x) then 1 else 0;
    LessAsymmetric(x, y);
    if o.isAscending then result else -result
  }

  /** Swapping the operands negates the comparison. */
  lemma CompareAntisymmetric(o: SortOptions, a: Row, b: Row)
    ensures Compare(o, a, b) == -Compare(o, b, a)
  {
    LessAsymmetric(Attribute(a, o.columnName), Attribute(b, o.columnName));
  }

  /** The descending comparison is exactly the negated ascending one. */
  lemma CompareDescendingNegates(o: SortOptions, a: Row, b: Row)
    ensures Compare(o.(isAscending := false), a, b) == -Compare(o.(isAscending := true), a, b)
  {
  }

  /** "Sorts before" is transitive. */
  lemma CompareTransitive(o: SortOptions, a: Row, b: Row, c: Row)
    requires Compare(o, a, b) == -1 && Compare(o, b, c) == -1
    ensures Compare(o, a, c) == -1
  {
    var x, y, z := Attribute(a, o.columnName), Attribute(b, o.columnName), Attribute(c, o.columnName);
    if o.isAscending {
      LessTransitive(x, y, z);
    } else {
      LessTransitive(z, y, x);
    }
  }
}
