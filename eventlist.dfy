/**
 * The event-search list's pure logic: arrow-key navigation through the listed
 * events, the derivation of the table's dynamic columns from the first row,
 * the rendering of cell text with `<br>` line breaks, and the sort request
 * issued when a column header is clicked.
 */
module EventList {
  import opened Optional
  import opened Strings

  // ---------------------------------------------------------------------------
  // Keyboard navigation
  // ---------------------------------------------------------------------------

  const ArrowUp: int := 38
  const ArrowDown: int := 40

  /** The event id that stands for "no event selected". */
  const NoSelection: int := -1

  /** What a key press does to the selection. */
  datatype KeyOutcome =
    | Ignored                  // nothing is selected anew
    | Select(eventID: int)     // the handler calls `selectEvent(eventID)`
    | TypeError                // the handler reads `.EventID` of `undefined` and throws

  /** `Array.prototype.indexOf`: the first position of `x`, or -1 when it is absent. */
  function IndexOf(ids: seq<int>, x: int): (i: int)
    ensures -1 <= i < |ids|
    ensures i == -1 <==> x !in ids
    ensures 0 <= i ==> ids[i] == x && x !in ids[..i]
  {
    if ids == [] then -1
    else if ids[0] == x then 0
    else
      var j := IndexOf(ids[1..], x);
      if j == -1 then -1
      else
        assert ids[..j + 1] == [ids[0]] + ids[1..][..j];
        j + 1
  }

  /** `data[k].EventID`: the id at position `k`, or a `TypeError` outside the list. */
  function SelectAt(ids: seq<int>, k: int): (o: KeyOutcome)
    ensures o.TypeError? <==> !(0 <= k < |ids|)
    ensures o.Select? ==> o.eventID == ids[k]
    ensures 0 <= k < |ids| ==> o == Select(ids[k])
  {
    if 0 <= k < |ids| then Select(ids[k]) else TypeError
  }

  /**
   * The key handler, given the listed event ids in display order, the currently
   * selected id and the key code. Arrow down moves to the next entry and arrow up
   * to the previous one, wrapping at either end; with no selection, down picks
   * the first entry and up the last.
   */
  function HandleKeyPress(ids: seq<int>, current: int, key: int): (o: KeyOutcome)
    ensures o == Ignored <==> |ids| == 0 || (key != ArrowUp && key != ArrowDown)
    ensures o.Select? ==> o.eventID in ids
    ensures o.TypeError? <==> |ids| > 0 && key == ArrowUp && current != NoSelection && current !in ids
  {
    if |ids| == 0 then Ignored
    else
      var index := IndexOf(ids, current);
      if key == ArrowDown then
        if current == NoSelection then SelectAt(ids, 0)
        else if index == |ids| - 1 then SelectAt(ids, 0)
        else SelectAt(ids, index + 1)
      else if key == ArrowUp then
        if current == NoSelection then SelectAt(ids, |ids| - 1)
        else if index == 0 then SelectAt(ids, |ids| - 1)
        else SelectAt(ids, index - 1)
      else Ignored
  }

  /** No two entries share an id. */
  predicate Distinct(ids: seq<int>)
  {
    forall i, j :: 0 <= i < j < |ids| ==> ids[i] != ids[j]
  }

  lemma IndexOfDistinct(ids: seq<int>, k: int)
    requires Distinct(ids) && 0 <= k < |ids|
    ensures IndexOf(ids, ids[k]) == k
  {
  }

  /** Arrow down from a listed id selects the entry after its first occurrence, cyclically. */
  lemma DownSelectsSuccessor(ids: seq<int>, current: int)
    requires current in ids && current != NoSelection
    ensures HandleKeyPress(ids, current, ArrowDown) == Select(ids[(IndexOf(ids, current) + 1) % |ids|])
  {
    ModBelowTwice(IndexOf(ids, current) + 1, |ids|);
  }

  /** Arrow up from a listed id selects the entry before its first occurrence, cyclically. */
  lemma UpSelectsPredecessor(ids: seq<int>, current: int)
    requires current in ids && current != NoSelection
    ensures HandleKeyPress(ids, current, ArrowUp) == Select(ids[(IndexOf(ids, current) + |ids| - 1) % |ids|])
  {
    ModBelowTwice(IndexOf(ids, current) + |ids| - 1, |ids|);
  }

  /** With nothing selected, arrow down picks the first entry and arrow up the last. */
  lemma NoSelectionPicksEnds(ids: seq<int>)
    requires |ids| > 0
    ensures HandleKeyPress(ids, NoSelection, ArrowDown) == Select(ids[0])
    ensures HandleKeyPress(ids, NoSelection, ArrowUp) == Select(ids[|ids| - 1])
  {
  }

  /**
   * A selected id that is not in the list: arrow down picks the first entry,
   * while arrow up reads the entry at position -2 and throws.
   */
  lemma MissingSelection(ids: seq<int>, current: int)
    requires |ids| > 0 && current != NoSelection && current !in ids
    ensures HandleKeyPress(ids, current, ArrowDown) == Select(ids[0])
    ensures HandleKeyPress(ids, current, ArrowUp) == TypeError
  {
  }

  /**
   * The id a key press leaves selected, assuming the page applies the handler's
   * selection; a press that throws leaves the selection as it was.
   */
  function Step(ids: seq<int>, current: int, key: int): int
  {
    match HandleKeyPress(ids, current, key)
    case Select(id) => id
    case _ => current
  }

  /** Down then up, and up then down, come back to the starting entry, also across the wrap-around. */
  lemma DownUpRoundTrip(ids: seq<int>, current: int)
    requires Distinct(ids) && NoSelection !in ids && current in ids
    ensures Step(ids, Step(ids, current, ArrowDown), ArrowUp) == current
    ensures Step(ids, Step(ids, current, ArrowUp), ArrowDown) == current
  {
    var n, i := |ids|, IndexOf(ids, current);
    DownSelectsSuccessor(ids, current);
    UpSelectsPredecessor(ids, current);
    var next, prev := (i + 1) % n, (i + n - 1) % n;
    IndexOfDistinct(ids, next);
    IndexOfDistinct(ids, prev);
    UpSelectsPredecessor(ids, ids[next]);
    DownSelectsSuccessor(ids, ids[prev]);
    if i == n - 1 {
      assert next == 0;
    } else {
      assert next == i + 1;
    }
    if i == 0 {
      assert prev == n - 1;
    } else {
      assert prev == i - 1;
    }
  }

  /** One arrow-down press from the entry at position `j` of a list of distinct ids. */
  lemma DownStep(ids: seq<int>, j: int)
    requires Distinct(ids) && NoSelection !in ids && 0 <= j < |ids|
    ensures Step(ids, ids[j], ArrowDown) == if j == |ids| - 1 then ids[0] else ids[j + 1]
  {
    IndexOfDistinct(ids, j);
  }

  /** The id selected after pressing `key` `k` times. */
  function PressRepeatedly(ids: seq<int>, current: int, key: int, k: nat): int
  {
    if k == 0 then current else Step(ids, PressRepeatedly(ids, current, key, k - 1), key)
  }

  /**
   * Pressing down `k <= |ids|` times from position `j` walks `k` entries
   * forward, continuing from the first entry after the last one.
   */
  lemma {:induction false} RepeatedDownWalks(ids: seq<int>, j: nat, k: nat)
    requires Distinct(ids) && NoSelection !in ids && j < |ids| && k <= |ids|
    ensures PressRepeatedly(ids, ids[j], ArrowDown, k) ==
            if j + k < |ids| then ids[j + k] else ids[j + k - |ids|]
  {
    if k > 0 {
      RepeatedDownWalks(ids, j, k - 1);
      var p := if j + k - 1 < |ids| then j + k - 1 else j + k - 1 - |ids|;
      var prev := PressRepeatedly(ids, ids[j], ArrowDown, k - 1);
      assert prev == ids[p];
      assert PressRepeatedly(ids, ids[j], ArrowDown, k) == Step(ids, prev, ArrowDown);
      DownStep(ids, p);
    }
  }

  /** Pressing down once per entry brings the selection back where it started, through the wrap-around. */
  lemma FullCycleReturns(ids: seq<int>, current: int)
    requires Distinct(ids) && NoSelection !in ids && current in ids
    ensures PressRepeatedly(ids, current, ArrowDown, |ids|) == current
  {
    var i := IndexOf(ids, current);
    RepeatedDownWalks(ids, i, |ids|);
  }

  /** A multiple of `n` strictly between `-n` and `n` is zero. */
  lemma SmallMultiple(c: int, n: int)
    requires n > 0 && -n < c * n < n
    ensures c == 0
  {
  }

  /** `%` is determined by any decomposition `a == q * n + r` with `0 <= r < n`. */
  lemma ModUnique(a: int, n: int, q: int, r: int)
    requires n > 0 && 0 <= r < n && a == q * n + r
    ensures a % n == r
  {
    var q', r' := a / n, a % n;
    assert a == q' * n + r';
    assert (q - q') * n == r' - r;
    SmallMultiple(q - q', n);
  }

  lemma ModBelowTwice(a: int, n: int)
    requires n > 0 && 0 <= a < 2 * n
    ensures a % n == if a < n then a else a - n
  {
    if a < n {
      ModUnique(a, n, 0, a);
    } else {
      ModUnique(a, n, 1, a - n);
    }
  }

  /**
   * The arrow-up handling the code evidently intends: a selected id that is not
   * in the list is treated like no selection (up picks the last entry), as arrow
   * down already treats it like no selection.
   */
  function HandleKeyPressIntended(ids: seq<int>, current: int, key: int): (o: KeyOutcome)
    ensures !o.TypeError?
    ensures o == Ignored <==> |ids| == 0 || (key != ArrowUp && key != ArrowDown)
    ensures o.Select? ==> o.eventID in ids
  {
    if |ids| > 0 && key == ArrowUp && current != NoSelection && current !in ids
    then SelectAt(ids, |ids| - 1)
    else HandleKeyPress(ids, current, key)
  }

  /** The intended handler differs from the written one exactly where the written one throws. */
  lemma IntendedAgreesExceptOnFault(ids: seq<int>, current: int, key: int)
    ensures HandleKeyPress(ids, current, key).TypeError? ||
            HandleKeyPressIntended(ids, current, key) == HandleKeyPress(ids, current, key)
    ensures HandleKeyPress(ids, current, key).TypeError? ==>
            HandleKeyPressIntended(ids, current, key) == Select(ids[|ids| - 1])
  {
  }

  // ---------------------------------------------------------------------------
  // Column derivation
  // ---------------------------------------------------------------------------

  /** Fields of a row that never become dynamic columns (Time is always shown first on its own). */
  const ExcludedFields: set<string> :=
    {"Time", "DisturbanceID", "EventID", "EventID1", "MagDurDuration", "MagDurMagnitude"}

  /** The order `Array.prototype.sort()` uses for strings: character by character, a prefix first. */
  predicate LexLessEq(a: string, b: string): (r: bool)
    ensures a <= b ==> r
    ensures r && a != [] ==> b != [] && a[0] <= b[0]
  {
    a == [] || (b != [] && (a[0] < b[0] || (a[0] == b[0] && LexLessEq(a[1..], b[1..]))))
  }

  lemma {:induction false} LexTotal(a: string, b: string)
    ensures LexLessEq(a, b) || LexLessEq(b, a)
  {
    if a != [] && b != [] && a[0] == b[0] {
      LexTotal(a[1..], b[1..]);
    }
  }

  lemma {:induction false} LexTransitive(a: string, b: string, c: string)
    requires LexLessEq(a, b) && LexLessEq(b, c)
    ensures LexLessEq(a, c)
  {
    if a != [] && b != [] && c != [] && a[0] == b[0] && b[0] == c[0] {
      LexTransitive(a[1..], b[1..], c[1..]);
    }
  }

  predicate Sorted(s: seq<string>)
  {
    forall i, j :: 0 <= i < j < |s| ==> LexLessEq(s[i], s[j])
  }

  /** `x` placed into the sorted list `s` before the first entry it does not follow. */
  function Insert(x: string, s: seq<string>): (r: seq<string>)
    requires Sorted(s)
    ensures Sorted(r)
    ensures multiset(r) == multiset(s) + multiset{x}
  {
    if s == [] then [x]
    else if LexLessEq(x, s[0]) then
      forall j | 0 <= j < |s| ensures LexLessEq(x, s[j]) {
        if j > 0 { LexTransitive(x, s[0], s[j]); }
      }
      [x] + s
    else
      var rest := Insert(x, s[1..]);
      LexTotal(x, s[0]);
      assert s == [s[0]] + s[1..];
      forall e | e in rest ensures LexLessEq(s[0], e) {
        assert e in multiset(rest);
        if e != x {
          assert e in multiset(s[1..]);
          var j :| 0 <= j < |s[1..]| && s[1..][j] == e;
          assert s[j + 1] == e;
        }
      }
      [s[0]] + rest
  }

  /** `Array.prototype.sort()` on strings: a sorted rearrangement. */
  function SortStrings(s: seq<string>): (r: seq<string>)
    ensures Sorted(r)
    ensures multiset(r) == multiset(s)
  {
    if s == [] then []
    else
      assert s == [s[0]] + s[1..];
      Insert(s[0], SortStrings(s[1..]))
  }

  /** The row's field names other than the excluded ones, in order. */
  function WithoutExcluded(keys: seq<string>): (r: seq<string>)
    ensures forall k :: multiset(r)[k] == if k in ExcludedFields then 0 else multiset(keys)[k]
  {
    if keys == [] then []
    else
      assert keys == [keys[0]] + keys[1..];
      (if keys[0] in ExcludedFields then [] else [keys[0]]) + WithoutExcluded(keys[1..])
  }

  /**
   * The dynamic columns for a first row with the given field names: every
   * field except the excluded ones, each as often as it occurs, in sorted order.
   */
  function DynamicColumns(keys: seq<string>): (cols: seq<string>)
    ensures Sorted(cols)
    ensures forall k :: multiset(cols)[k] == if k in ExcludedFields then 0 else multiset(keys)[k]
  {
    SortStrings(WithoutExcluded(keys))
  }

  /**
   * The column list after the data changes: with no rows it is kept; otherwise
   * it is replaced by the first row's dynamic columns only when their number differs.
   */
  function NextColumns(firstRowKeys: Option<seq<string>>, cols: seq<string>): (next: seq<string>)
    ensures firstRowKeys.None? ==> next == cols
    ensures firstRowKeys.Some? ==> |next| == |DynamicColumns(firstRowKeys.value)|
    ensures firstRowKeys.Some? && |DynamicColumns(firstRowKeys.value)| != |cols| ==> next == DynamicColumns(firstRowKeys.value)
    ensures firstRowKeys.Some? && |DynamicColumns(firstRowKeys.value)| == |cols| ==> next == cols
  {
    match firstRowKeys
    case None => cols
    case Some(keys) =>
      var flds := DynamicColumns(keys);
      if |flds| != |cols| then flds else cols
  }

  /** The table's columns: Time, then the dynamic columns. */
  function DisplayedColumns(cols: seq<string>): (shown: seq<string>)
    ensures |shown| == |cols| + 1 && shown[0] == "Time" && shown[1..] == cols
  {
    ["Time"] + cols
  }

  /** Starting from no dynamic columns, Time is shown first and exactly once after any sequence of data changes. */
  lemma {:induction false} TimeShownOnce(history: seq<Option<seq<string>>>)
    ensures var shown := DisplayedColumns(ColumnsAfter(history));
            shown[0] == "Time" && multiset(shown)["Time"] == 1
    decreases |history|
  {
    var cols := ColumnsAfter(history);
    var shown := DisplayedColumns(cols);
    if history != [] {
      TimeShownOnce(history[..|history| - 1]);
    }
    assert multiset(cols)["Time"] == 0;
    assert shown == ["Time"] + cols;
  }

  /** The dynamic columns after the given data changes, starting from none. */
  function ColumnsAfter(history: seq<Option<seq<string>>>): (cols: seq<string>)
    ensures multiset(cols)["Time"] == 0
  {
    if history == [] then []
    else NextColumns(history[|history| - 1], ColumnsAfter(history[..|history| - 1]))
  }

  // ---------------------------------------------------------------------------
  // Cell text
  // ---------------------------------------------------------------------------

  /** One line of a cell: its text, preceded by a `<br/>` unless it is the first line. */
  datatype Line = Line(breakBefore: bool, text: string)

  /** A rendered cell: the text "N/A", or its lines. */
  datatype CellContent = NotAvailable | Lines(lines: seq<Line>)

  function Texts(lines: seq<Line>): (ts: seq<string>)
    ensures |ts| == |lines| && forall k :: 0 <= k < |lines| ==> ts[k] == lines[k].text
  {
    seq(|lines|, k requires 0 <= k < |lines| => lines[k].text)
  }

  /**
   * A cell value (`None` for null or undefined) rendered for the table: "N/A"
   * for no value, otherwise one line per `<br>`-separated piece of its text.
   */
  function ProcessWhitespace(txt: Option<string>): (c: CellContent)
    ensures txt.None? <==> c == NotAvailable
    ensures txt.Some? ==>
              |c.lines| > 0 &&
              Join(Texts(c.lines), "<br>") == txt.value &&
              (forall k :: 0 <= k < |c.lines| ==> Free(c.lines[k].text, "<br>")) &&
              (forall k :: 0 <= k < |c.lines| ==> (c.lines[k].breakBefore <==> k > 0))
  {
    match txt
    case None => NotAvailable
    case Some(s) =>
      var pieces := Split(s, "<br>");
      SplitPiecesFree(s, "<br>");
      var lines := seq(|pieces|, k requires 0 <= k < |pieces| => Line(k > 0, pieces[k]));
      assert Texts(lines) == pieces;
      Lines(lines)
  }

  /** Text without `<br>` renders as a single line holding the whole text. */
  lemma PlainTextIsOneLine(s: string)
    requires Free(s, "<br>")
    ensures ProcessWhitespace(Some(s)) == Lines([Line(false, s)])
  {
    if s != [] {
      assert !("<br>" <= s[0..]);
      assert s[0..] == s;
      var rest := Split(s[1..], "<br>");
      PlainTextStaysWhole(s);
    }
  }

  /** A whole-number cell, rendered through its decimal text, is a single line. */
  lemma IntegerCellIsOneLine(n: nat)
    ensures ProcessWhitespace(Some(DecimalString(n))) == Lines([Line(false, DecimalString(n))])
  {
    DigitsFree(DecimalString(n), "<br>");
    PlainTextIsOneLine(DecimalString(n));
  }

  lemma {:induction false} PlainTextStaysWhole(s: string)
    requires Free(s, "<br>")
    ensures Split(s, "<br>") == [s]
    decreases |s|
  {
    if s != [] {
      assert s[0..] == s;
      assert Free(s[1..], "<br>") by {
        forall i | 0 <= i <= |s[1..]| ensures !("<br>" <= s[1..][i..]) {
          assert s[1..][i..] == s[i + 1..];
        }
      }
      PlainTextStaysWhole(s[1..]);
      assert [s[0]] + s[1..] == s;
    }
  }

  // ---------------------------------------------------------------------------
  // Sorting by a column
  // ---------------------------------------------------------------------------

  /** The payload of the `Sort` action dispatched when a column header is clicked. */
  datatype SortRequest = SortRequest(ascending: bool, sortField: string)

  /**
   * Clicking the header of `colKey` while the table is sorted by `sortField`:
   * the request always names `colKey`; a different column starts ascending, and
   * the same column passes the current direction through unchanged.
   */
  function OnSort(colKey: string, sortField: string, ascending: bool): (r: SortRequest)
    ensures r.sortField == colKey
    ensures colKey != sortField ==> r.ascending
    ensures colKey == sortField ==> r.ascending == ascending
  {
    if colKey == sortField then SortRequest(ascending, sortField) else SortRequest(true, colKey)
  }
}
