# Event search: magnitude-duration chart and event list

This project models the core of two views in SEBrowser's event search:

- **The magnitude-duration chart** (`EventSearchMagDur.tsx`) plots each event at its
  duration and magnitude. The events are red, clickable circles. The plot component
  clusters nearby circles by calling back into two rules that the chart supplies:
  - `CanAggregate` decides whether two circles overlap on screen;
  - `AggregateCurves` builds the grey circle that replaces a group. It is labelled with
    the member count, and clicking it zooms to the group's box.

  The chart also turns each magnitude-duration curve's `Area` text into points. The
  text is a comma-separated list of "duration magnitude" pairs.
- **The event list** (`EventSearchList.tsx`) is a table of events:
  - the arrow keys move the selection up and down the list, wrapping at both ends;
  - its dynamic columns are the first row's fields, without a fixed set of excluded
    fields, sorted;
  - a cell's text is split into lines at every `<br>`;
  - clicking a column header asks for a sort by that column.

Modules:

- `Optional`: the option type. It stands for `null`/`undefined`.
- `Strings`: the JavaScript string operations the views rely on:
  - `split` on a string separator and `join`, with their round trip;
  - `trim` with ECMAScript whitespace;
  - the decimal text of a count.
- `MagDur`: the chart's merge predicate, the aggregate circle, how the circles are
  prepared, and how the curves are generated.
- `EventList`: key navigation, column derivation, cell text and the sort request.

Choices in the model:

- The plot's axis transformations are four arbitrary `real -> real` functions.
  Lemmas that need an inverse or a monotone transformation say so in their
  `requires`.
- `parseFloat` is a parameter. A missing word reaches it as the text `"undefined"`.
- Arithmetic is on exact reals.
- An outcome of `handleKeyPress` is `Ignored`, `Select(id)` or `TypeError`. The last
  stands for the exception thrown when `data[-2].EventID` is read.
- Event ids are compared as integers. The source compares their decimal texts, which
  for integers is the same.

Two properties of the aggregate circle deserve attention:

- **Aggregate radius.** The radius is the larger half-extent of the group's box
  (`EventSearchMagDur.tsx:125`), not its half-diagonal. So a member in a corner of the
  box can lie outside the drawn circle (`MagDur.AggregateMayMissCornerMembers`).
- **Member radii.** The box pads the members' centres by 5 pixels
  (`EventSearchMagDur.tsx:119-122`) and ignores the members' own radii.

## Model

| member | source | states |
|---|---|---|
| MagDur.CanAggregate | SEBrowser/Scripts/TSX/Components/EventSearch/EventSearchMagDur.tsx:141-146 | circles that may merge are closer than the sum of their radii (in size) on each axis separately |
| MagDur.CanAggregateSymmetric | SEBrowser/Scripts/TSX/Components/EventSearch/EventSearchMagDur.tsx:141-146 | whether two circles may merge does not depend on their order |
| MagDur.CanAggregateScreenOnly | SEBrowser/Scripts/TSX/Components/EventSearch/EventSearchMagDur.tsx:141-146 | the merge decision depends only on the two screen positions and the radii |
| MagDur.ZeroRadiiNeverMerge | SEBrowser/Scripts/TSX/Components/EventSearch/EventSearchMagDur.tsx:144-145 | circles whose radii sum to zero never merge, because the comparison is strict |
| MagDur.CoincidentMerge | SEBrowser/Scripts/TSX/Components/EventSearch/EventSearchMagDur.tsx:142-145 | circles at the same screen position merge exactly when their radii do not sum to zero |
| MagDur.NearCirclesMerge | SEBrowser/Scripts/TSX/Components/EventSearch/EventSearchMagDur.tsx:142-145 | circles whose taxicab screen distance is below the sum of the radii merge |
| MagDur.FarCirclesNeverMerge | SEBrowser/Scripts/TSX/Components/EventSearch/EventSearchMagDur.tsx:142-145 | with non-negative radii, a gap on either axis at least the sum of the radii prevents a merge |
| MagDur.Abs | SEBrowser/Scripts/TSX/Components/EventSearch/EventSearchMagDur.tsx:125 | `Math.abs` is non-negative and is the value or its negation |
| MagDur.ScreenSameValues | SEBrowser/Scripts/TSX/Components/EventSearch/EventSearchMagDur.tsx:119-122 | reordering the group does not change which screen x and y coordinates the maps produce |
| MagDur.Max | SEBrowser/Scripts/TSX/Components/EventSearch/EventSearchMagDur.tsx:119-120 | `Math.max` of a non-empty list bounds every element and equals one of them |
| MagDur.Min | SEBrowser/Scripts/TSX/Components/EventSearch/EventSearchMagDur.tsx:121-122 | `Math.min` of a non-empty list is below every element and equals one of them |
| MagDur.PaddedBox | SEBrowser/Scripts/TSX/Components/EventSearch/EventSearchMagDur.tsx:119-122 | every member's screen centre lies at least 5 pixels inside the box, and each extent is at least 10 pixels |
| MagDur.PaddedBoxTight | SEBrowser/Scripts/TSX/Components/EventSearch/EventSearchMagDur.tsx:119-122 | on each of the four sides, some member lies exactly 5 pixels inside the box |
| MagDur.CentreX | SEBrowser/Scripts/TSX/Components/EventSearch/EventSearchMagDur.tsx:123 | the horizontal centre is equally far from both vertical edges, and between them when the box is not inverted |
| MagDur.CentreY | SEBrowser/Scripts/TSX/Components/EventSearch/EventSearchMagDur.tsx:124 | the vertical centre is equally far from both horizontal edges, and between them when the box is not inverted |
| MagDur.Max4 | SEBrowser/Scripts/TSX/Components/EventSearch/EventSearchMagDur.tsx:125 | `Math.max` of four values bounds them all and is one of them |
| MagDur.AggregateCurves | SEBrowser/Scripts/TSX/Components/EventSearch/EventSearchMagDur.tsx:118-139 | the radius is at least 5 and is the larger of the box's two half-extents; the label is the decimal text of the member count, without a leading zero |
| MagDur.AggregateStyle | SEBrowser/Scripts/TSX/Components/EventSearch/EventSearchMagDur.tsx:126-133 | the aggregate is grey, has a black border of thickness 2 and opacity 0.5 |
| MagDur.AggregateContainsMembers | SEBrowser/Scripts/TSX/Components/EventSearch/EventSearchMagDur.tsx:119-125 | every member lies strictly inside the box, and within radius minus 5 of the centre on each axis |
| MagDur.AggregateCentredOnBox | SEBrowser/Scripts/TSX/Components/EventSearch/EventSearchMagDur.tsx:123-127 | when the transforms undo their inverses, the aggregate is drawn at the box's midpoint |
| MagDur.ZoomBracketsMembers | SEBrowser/Scripts/TSX/Components/EventSearch/EventSearchMagDur.tsx:134-137 | a click requests the box edges mapped back to data coordinates; when the inverses are monotone and undo the transforms at the members' coordinates (as on a logarithmic duration axis), each range brackets every member |
| MagDur.AggregateOrderIndependent | SEBrowser/Scripts/TSX/Components/EventSearch/EventSearchMagDur.tsx:118-125 | any reordering of the group gives the same aggregate |
| MagDur.AggregateDeterminedByBox | SEBrowser/Scripts/TSX/Components/EventSearch/EventSearchMagDur.tsx:118-139 | two groups of the same size with the same box give the same aggregate |
| MagDur.DiagonalPairBox | SEBrowser/Scripts/TSX/Components/EventSearch/EventSearchMagDur.tsx:119-122 | for markers at screen positions (0, 0) and (100, 100), the box runs from -5 to 105 on both axes |
| MagDur.AggregateMayMissCornerMembers | SEBrowser/Scripts/TSX/Components/EventSearch/EventSearchMagDur.tsx:125 | their aggregate has radius 55, and the member at (0, 0) lies outside it |
| MagDur.EventMarker | SEBrowser/Scripts/TSX/Components/EventSearch/EventSearchMagDur.tsx:95-98 | an event's marker sits at (duration, magnitude), has radius 5, and selects that event when clicked |
| MagDur.AggregationInput | SEBrowser/Scripts/TSX/Components/EventSearch/EventSearchMagDur.tsx:93-100 | every circle handed to the plot is a red radius-5 marker of some event other than the selected one |
| MagDur.SelectedMarker | SEBrowser/Scripts/TSX/Components/EventSearch/EventSearchMagDur.tsx:167-172 | the blue marker sits at the event's (duration, magnitude), has radius 5 and no click action |
| MagDur.SelectedMarkers | SEBrowser/Scripts/TSX/Components/EventSearch/EventSearchMagDur.tsx:167-172 | the selected event's markers are blue, have radius 5, cannot be clicked, and each sits at the position of an event carrying the selected id |
| MagDur.SelectedMarkersKeepSelected | SEBrowser/Scripts/TSX/Components/EventSearch/EventSearchMagDur.tsx:167-172 | every event carrying the selected id gets its blue marker |
| MagDur.AggregationInputAppend | SEBrowser/Scripts/TSX/Components/EventSearch/EventSearchMagDur.tsx:94 | filtering and mapping a concatenation gives the concatenation of the parts, so the order is kept |
| MagDur.AggregationInputKeepsOthers | SEBrowser/Scripts/TSX/Components/EventSearch/EventSearchMagDur.tsx:94-99 | every event other than the selected one gets its marker |
| MagDur.EveryEventDrawnOnce | SEBrowser/Scripts/TSX/Components/EventSearch/EventSearchMagDur.tsx:94 | for one and the same selected id, the aggregated markers and the selected markers together number exactly the events |
| MagDur.ChartAsWritten | SEBrowser/Scripts/TSX/Components/EventSearch/EventSearchMagDur.tsx:93-100 | the aggregated circles exclude the id selected when `points` last changed, the blue markers use the id selected now; when the two ids agree, the markers number exactly the events (what goes wrong when they differ: `MagDur.StaleSelectionMisdrawn`) |
| MagDur.StaleSelectionMisdrawn | SEBrowser/Scripts/TSX/Components/EventSearch/EventSearchMagDur.tsx:93-100 | when the two ids differ, the newly selected event is drawn both red and blue, the previously selected event has no red circle, and no red circle selects it |
| MagDur.StaleSelectionExample | SEBrowser/Scripts/TSX/Components/EventSearch/EventSearchMagDur.tsx:93-100 | events 1 and 2, group built while 1 was selected, 2 selected now: event 2 is drawn red and blue, event 1 not at all |
| MagDur.ChartIntended | SEBrowser/Scripts/TSX/Components/EventSearch/EventSearchMagDur.tsx:93-100 | rebuilding the group on every selection change draws each event exactly once: red unless selected, blue if selected |
| MagDur.EveryEventMarked | SEBrowser/Scripts/TSX/Components/EventSearch/EventSearchMagDur.tsx:94-99 | each unselected event gets its red marker and each selected event its blue marker |
| MagDur.NoneSelectsTheExcluded | SEBrowser/Scripts/TSX/Components/EventSearch/EventSearchMagDur.tsx:94-98 | no aggregated circle selects the excluded id |
| MagDur.WordAt | SEBrowser/Scripts/TSX/Components/EventSearch/EventSearchMagDur.tsx:111 | the requested word when there is one, otherwise the text `undefined` (what `s[1]` gives to `parseFloat`) |
| MagDur.CurvePoint | SEBrowser/Scripts/TSX/Components/EventSearch/EventSearchMagDur.tsx:111 | a segment whose trimmed text holds no space gives its whole trimmed text as duration and `parseFloat(undefined)` as magnitude; otherwise the first two space-separated words |
| MagDur.CurvePointIgnoresOuterWhitespace | SEBrowser/Scripts/TSX/Components/EventSearch/EventSearchMagDur.tsx:111 | whitespace around a segment does not change the point read from it |
| MagDur.GenerateCurve | SEBrowser/Scripts/TSX/Components/EventSearch/EventSearchMagDur.tsx:107-116 | a curve with a lower or upper curve gives no points; otherwise there is one point per comma in the area plus one, each read from its own segment |
| MagDur.GenerateCurveFromSegments | SEBrowser/Scripts/TSX/Components/EventSearch/EventSearchMagDur.tsx:110-111 | comma-joined segments that contain no commas give back one point per segment, in order |
| MagDur.CurvePointOfPair | SEBrowser/Scripts/TSX/Components/EventSearch/EventSearchMagDur.tsx:111 | "a b" with space-free words and no outer whitespace reads back as (parse(a), parse(b)) |
| MagDur.GenerateCurveRoundTrip | SEBrowser/Scripts/TSX/Components/EventSearch/EventSearchMagDur.tsx:107-112 | writing durations and magnitudes as comma-joined pairs and generating the curve gives back the parsed pairs |
| Strings.Split | SEBrowser/Scripts/TSX/Components/EventSearch/EventSearchMagDur.tsx:110 | `split` gives at least one piece, and joining the pieces restores the text |
| Strings.SplitPiecesFree | SEBrowser/Scripts/TSX/Components/EventSearch/EventSearchList.tsx:151 | no piece of a split contains the separator |
| Strings.SplitCount | SEBrowser/Scripts/TSX/Components/EventSearch/EventSearchMagDur.tsx:110 | splitting on a character gives one more piece than the character's occurrences |
| Strings.SplitJoin | SEBrowser/Scripts/TSX/Components/EventSearch/EventSearchMagDur.tsx:110 | splitting the join of separator-free pieces gives the pieces back |
| Strings.JoinStartsWithHead | SEBrowser/Scripts/TSX/Components/EventSearch/EventSearchList.tsx:151 | a join starts with its first piece |
| Strings.TrimStart | SEBrowser/Scripts/TSX/Components/EventSearch/EventSearchMagDur.tsx:111 | removes exactly the leading whitespace and leaves a suffix |
| Strings.TrimEnd | SEBrowser/Scripts/TSX/Components/EventSearch/EventSearchMagDur.tsx:111 | removes exactly the trailing whitespace and leaves a prefix |
| Strings.IsWhitespace | SEBrowser/Scripts/TSX/Components/EventSearch/EventSearchMagDur.tsx:111 | the characters `trim` removes; none is a digit, a sign, a decimal point, a comma or `<` |
| Strings.Trim | SEBrowser/Scripts/TSX/Components/EventSearch/EventSearchMagDur.tsx:111 | the result has no whitespace at either end, and is empty exactly when the text is all whitespace |
| Strings.TrimInfix | SEBrowser/Scripts/TSX/Components/EventSearch/EventSearchMagDur.tsx:111 | the trimmed text is a contiguous piece of the original, and everything cut off before and after it is whitespace |
| Strings.TrimFixed | SEBrowser/Scripts/TSX/Components/EventSearch/EventSearchMagDur.tsx:111 | text without outer whitespace is its own trim, and trimming is idempotent on it |
| Strings.DigitChar | SEBrowser/Scripts/TSX/Components/EventSearch/EventSearchMagDur.tsx:131 | a digit value becomes the character that many places after '0' |
| Strings.DecimalString | SEBrowser/Scripts/TSX/Components/EventSearch/EventSearchMagDur.tsx:131 | `toString` of a count is a non-empty string of digits without a leading zero; 0 gives "0" |
| Strings.DecimalRoundTrip | SEBrowser/Scripts/TSX/Components/EventSearch/EventSearchMagDur.tsx:131 | reading the decimal text back gives the count |
| EventList.IndexOf | SEBrowser/Scripts/TSX/Components/EventSearch/EventSearchList.tsx:102 | `indexOf` gives the first position of the id, or -1 exactly when the id is absent |
| EventList.SelectAt | SEBrowser/Scripts/TSX/Components/EventSearch/EventSearchList.tsx:109-125 | reading `data[k].EventID` selects the k-th id, and throws exactly when k is out of range |
| EventList.HandleKeyPress | SEBrowser/Scripts/TSX/Components/EventSearch/EventSearchList.tsx:99-129 | a key is ignored exactly when the list is empty or the key is not an arrow; a selection is always a listed id; it throws exactly on arrow up with a selection that is neither -1 nor listed |
| EventList.IndexOfDistinct | SEBrowser/Scripts/TSX/Components/EventSearch/EventSearchList.tsx:102 | in a list of distinct ids, `indexOf` finds each id's own position |
| EventList.DownSelectsSuccessor | SEBrowser/Scripts/TSX/Components/EventSearch/EventSearchList.tsx:104-113 | arrow down on a listed id selects the next entry, wrapping to the first |
| EventList.UpSelectsPredecessor | SEBrowser/Scripts/TSX/Components/EventSearch/EventSearchList.tsx:116-125 | arrow up on a listed id selects the previous entry, wrapping to the last |
| EventList.NoSelectionPicksEnds | SEBrowser/Scripts/TSX/Components/EventSearch/EventSearchList.tsx:108-121 | with no selection, arrow down selects the first entry and arrow up the last |
| EventList.MissingSelection | SEBrowser/Scripts/TSX/Components/EventSearch/EventSearchList.tsx:102-125 | with an unlisted selection, arrow down selects the first entry, but arrow up throws |
| EventList.DownUpRoundTrip | SEBrowser/Scripts/TSX/Components/EventSearch/EventSearchList.tsx:104-125 | on distinct ids, down then up, or up then down, returns to the selected id |
| EventList.DownStep | SEBrowser/Scripts/TSX/Components/EventSearch/EventSearchList.tsx:104-113 | on distinct ids, one arrow down moves from entry j to entry j+1, or from the last entry to the first |
| EventList.RepeatedDownWalks | SEBrowser/Scripts/TSX/Components/EventSearch/EventSearchList.tsx:104-113 | on distinct ids, k presses of arrow down from entry j, for k at most the list length, reach entry j+k, wrapped around the list |
| EventList.FullCycleReturns | SEBrowser/Scripts/TSX/Components/EventSearch/EventSearchList.tsx:104-113 | pressing arrow down once per entry returns to the selected id |
| EventList.HandleKeyPressIntended | SEBrowser/Scripts/TSX/Components/EventSearch/EventSearchList.tsx:116-125 | the corrected handler never throws, ignores the same keys and selects only listed ids |
| EventList.IntendedAgreesExceptOnFault | SEBrowser/Scripts/TSX/Components/EventSearch/EventSearchList.tsx:116-125 | the corrected handler agrees with the written one except where that one throws; there it selects the last entry |
| EventList.LexLessEq | SEBrowser/Scripts/TSX/Components/EventSearch/EventSearchList.tsx:81 | the default string order of `sort()`: a prefix comes first, and an ordered pair has ordered first characters |
| EventList.LexTotal | SEBrowser/Scripts/TSX/Components/EventSearch/EventSearchList.tsx:81 | the default string order of `sort()` is total |
| EventList.LexTransitive | SEBrowser/Scripts/TSX/Components/EventSearch/EventSearchList.tsx:81 | the default string order of `sort()` is transitive |
| EventList.Insert | SEBrowser/Scripts/TSX/Components/EventSearch/EventSearchList.tsx:81 | inserting into a sorted list keeps it sorted and adds exactly the new element |
| EventList.SortStrings | SEBrowser/Scripts/TSX/Components/EventSearch/EventSearchList.tsx:81 | `sort()` gives a sorted permutation of its input |
| EventList.WithoutExcluded | SEBrowser/Scripts/TSX/Components/EventSearch/EventSearchList.tsx:81 | the filter drops every excluded field and keeps every other field with its multiplicity |
| EventList.DynamicColumns | SEBrowser/Scripts/TSX/Components/EventSearch/EventSearchList.tsx:81 | the columns are sorted, contain no excluded field, and hold every other key of the first row |
| EventList.NextColumns | SEBrowser/Scripts/TSX/Components/EventSearch/EventSearchList.tsx:76-88 | empty data leaves the columns alone; otherwise the derived columns replace them exactly when the count differs, and the old ones stay when it matches |
| EventList.DisplayedColumns | SEBrowser/Scripts/TSX/Components/EventSearch/EventSearchList.tsx:168-170 | the columns offered to the table are Time, then the dynamic columns |
| EventList.ColumnsAfter | SEBrowser/Scripts/TSX/Components/EventSearch/EventSearchList.tsx:76-88 | after any sequence of data changes, the dynamic columns never include Time |
| EventList.TimeShownOnce | SEBrowser/Scripts/TSX/Components/EventSearch/EventSearchList.tsx:81-86 | in the columns offered to the table, Time is first and appears exactly once |
| EventList.ProcessWhitespace | SEBrowser/Scripts/TSX/Components/EventSearch/EventSearchList.tsx:148-157 | no value renders "N/A"; otherwise the lines, joined by `<br>`, restore the text, no line contains `<br>`, and every line except the first starts with a break |
| EventList.PlainTextIsOneLine | SEBrowser/Scripts/TSX/Components/EventSearch/EventSearchList.tsx:151-156 | text without `<br>` renders as one line holding the whole text |
| EventList.PlainTextStaysWhole | SEBrowser/Scripts/TSX/Components/EventSearch/EventSearchList.tsx:151 | splitting text without `<br>` on `<br>` gives the text itself |
| EventList.IntegerCellIsOneLine | SEBrowser/Scripts/TSX/Components/EventSearch/EventSearchList.tsx:151-154 | a whole-number cell, rendered through its decimal text, is one line holding that text |
| EventList.OnSort | SEBrowser/Scripts/TSX/Components/EventSearch/EventSearchList.tsx:175-178 | the request always names the clicked column; a new column starts ascending, and the current column passes the current direction through |

## Left out

- The plot component: `Plot`, `Line`, `Circle` and `AggregatingCircles`. They come from a
  charting library that is not part of this model. So the clustering loop that calls
  `CanAggregate` and `AggregateCurves`, and the axis transformations themselves, are
  not modelled. The transformations are parameters.
- Floating point: all arithmetic is on exact reals. `parseFloat` is a parameter, so
  `NaN` and partial parses are not modelled.
- MagDur.AggregateCurves: requires a non-empty group. On an empty group, `Math.max()`
  gives `-Infinity` in the code; the plot only aggregates non-empty groups.
- Number-to-text conversion: only non-negative integers (the member count and
  whole-number cells). `toString` of fractions and of negative numbers is not modelled.
- EventList.ProcessWhitespace: takes the cell's text. For a number cell, that text is
  the number's `toString()`, which is modelled only for non-negative integers
  (`EventList.IntegerCellIsOneLine`).
- EventList.HandleKeyPress: does not model `event.preventDefault()`. The source calls it
  exactly when the outcome is not `Ignored`.
- EventList.HandleKeyPress: does not model `setScrollBar`. It reads DOM heights and the
  window size to scroll the table.
- Event ids are integers compared by value. The source compares their `toString()`
  texts, which for integers is the same.
- String order: `sort()` compares UTF-16 code units; the model compares characters.
  The two orders differ only for characters outside the Basic Multilingual Plane.
- React, Redux and the browser are not modelled: effects, state hooks, listeners,
  timers, layout measurement, the loading spinner, and the result-count banners and
  their colours. `props.selectEvent` and `dispatch(Sort(...))` become returned values.
- ConfigurableTable's column chooser is not modelled: `requiredColumns`, `defaultColumns`,
  the settings portal and the column choice saved under `localStorageKey`
  (EventSearchList.tsx:188-192). The model therefore says which columns are offered to
  the table, not which of them the user sees.
- What the `Sort` reducer does with a request is not modelled. It is not in the
  sources; it may toggle the direction when the field repeats.
- ReportTimeFilter.tsx, SOEQueryController.cs and SEBrowserController.cs are not part
  of this model.

## Findings

| source | as written | input that shows it | evidently intended | confidence | as-written member | corrected member |
|---|---|---|---|---|---|---|
| SEBrowser/Scripts/TSX/Components/EventSearch/EventSearchList.tsx:116-125 | arrow up with a selected id that is neither -1 nor in the list takes index -1 and reads `data[-2].EventID`, which throws a TypeError | ids [1, 2], selected id 7, key 38 | select the last entry, as arrow down selects the first entry in the same situation | medium, not executed | EventList.MissingSelection | EventList.HandleKeyPressIntended |
| SEBrowser/Scripts/TSX/Components/EventSearch/EventSearchMagDur.tsx:93-100 | the effect that builds the aggregated circles depends only on `points`, so after a new selection with unchanged `points` the new event is drawn red and blue and the previous one not at all | events 1 and 2, circles built while 1 was selected, then event 2 selected | rebuild the circles when `props.EventID` changes too, so every event is drawn exactly once | low, not executed | MagDur.StaleSelectionExample | MagDur.ChartIntended |
