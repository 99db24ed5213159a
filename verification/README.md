# Verified models of eight programs

This project models the parts of the system's applications that keep state or run a
real algorithm, and proves what they are for. Each group of modules follows one source
file; `Basics` holds what several of them use.

- **grep** (`GrepSyntax`, `GrepSemantics`, `GrepPrinter`, `GrepEngine`, `GrepLines`;
  apps/grep.c). The pattern is parsed as the matcher reads it, and the parse undoes a
  printer that writes every pattern there is; `Matches` says declaratively what a pattern
  matches; `Run` is the backtracking search on the parsed pattern; the methods move the
  cursors as the C code does and are proved to compute `Run`. The search is sound for
  every pattern, and finds the longest match in the sense that a group keeps the longest
  text it can take. The line loops select, print and invert lines accordingly.
- **polygons** (`Sorting`, `Polygons`, `PolygonPaint`, `PolygonPicture`; apps/polygons.c).
  The growing edge array of the contour builder, the finished shape, and the scanline
  painter, over exact reals. What is painted is the length of the inside by the non-zero
  winding rule, with the winding number of the edges as they were drawn.
- **compositor** (`CompositorState`, `CompositorInvariant`, `CompositorSteps`,
  `CompositorBuffers`, `CompositorPixels`, `CompositorDamage`, `CompositorTiling`,
  `CompositorFocus`, `CompositorEvents`, `Compositor`;
  apps/compositor.c, with the z-order constants of base/usr/include/toaru/yutani.h). A
  `Desktop` value and a function for each operation make up a state machine over messages
  and redraws; the class `Globals` updates its fields in place and follows it step by
  step. Invariants hold over every run.
- **msk** (`Msk`; apps/msk.c): the dependency order of packages.
- **julia** (`Julia`; apps/julia.c): the coarse-to-fine renderer, for any pixel function.
- **esh** (`Esh`, `EshLines`; apps/esh.c): the tokeniser of the shell, and what command
  lines mean.
- **hexify** (`Hexify`, `HexifyRoundTrip`; apps/hexify.c): the hex dump and its parser.
- **crc32** (`ShiftRegister`, `Crc32Table`, `Crc32`; apps/crc32.c): the table-driven
  checksum against the bit-at-a-time definition. `ShiftRegister` holds the algebra, over
  any kind of word.

Where the code does not do what it promises, the model follows the code, and a lemma
gives the exact condition: `RunDecides` (a group keeps its first match),
`RestackNeedsNotMinimized`, `CloseDamage` and `StepDamage` (the bottom window),
`FinePassComplete`, `EndsWithoutCycle`, `RequestsEnd`, `ComesBackWhole` and `QuotedFits`.
`GroupCommits`, `CloseFails` and `RestackIsNotDamaged` give inputs where a pattern that
matches is not found, and where a picture changes without damage.

## Model

| member | source | states |
|---|---|---|
| `GrepSyntax.BracketEndNotEscaped` | apps/grep.c:163-174 | the scan for the closing `]` never stops just after a backslash |
| `GrepSyntax.DefinedUnlessLoneBackslash` | apps/grep.c:153-185 | the pattern is parsed without reading past its end if and only if, reading escapes in pairs and skipping brackets, no backslash is left over; no call for such a pattern reads past its end |
| `GrepSyntax.OtherLastCharacter` | apps/grep.c:153-185 | in particular for patterns that end in anything else |
| `GrepSyntax.BackslashAlone` | apps/grep.c:153-160 | an input that is read past its end: for a backslash alone the first turn of every call does |
| `GrepSyntax.CaseIsIgnored` | apps/grep.c:62-73 | with -i exactly the two cases of each of the 26 letters are taken for one another |
| `GrepSyntax.OrderOfBytes` | apps/grep.c:62-73 | ranges compare ASCII characters as usual, and bytes above 127 before them |
| `GrepSyntax.SetsMean` | apps/grep.c:86-115 | a bracket expression accepts what one of its elements does, its complement the rest, and one with a dangling dash and `^` nothing |
| `GrepSyntax.ElementsMean` | apps/grep.c:99-113 | a single element accepts its character, a range what lies in it |
| `GrepPrinter.PrintIsParsed` | apps/grep.c:86-227 | patterns are read as they are written: the parse undoes a printer of its own, for every printable tree, with all special characters escaped and with as few as possible |
| `GrepPrinter.PatternsArePrintable` | apps/grep.c:129-227 | a tree without open brackets and groups is that of some pattern if and only if it is printable |
| `GrepPrinter.OpenBracketFails` | apps/grep.c:163-170 | a bracket that is not closed ends the search |
| `GrepPrinter.OpenGroupFails` | apps/grep.c:137-145 | a group that is not closed matches nothing |
| `GrepPrinter.QuantifierMeans` | apps/grep.c:186-224 | what a character matches alone, with `\?`, with `\+` and with `*`, as pattern text |
| `GrepPrinter.MarkersMean` | apps/grep.c:132-157 | `^` matches at the start of a line, `$` at its end, `.` any one character |
| `GrepSemantics.Extent` | apps/grep.c:207-211 | the longest run of characters that fit: all in it fit, the next one does not |
| `GrepSemantics.RunFromFindsLast` | apps/grep.c:212-219 | the downward repetition loop succeeds at the largest place at which the rest of the pattern does, or nowhere |
| `GrepSemantics.RunSound` | apps/grep.c:129-227 | for every pattern, groups included, every success of the search is a match of the declarative relation `Matches` |
| `GrepSemantics.CommitsMatches` | apps/grep.c:175-182 | such a match is a match of `Matches` |
| `GrepSemantics.Crossing` | apps/grep.c:186-224 | of two such matches that cross, the later start also reaches the later end |
| `GrepSemantics.RunIsLongest` | apps/grep.c:129-227 | every success of the search is the longest such match |
| `GrepSemantics.RunFinds` | apps/grep.c:129-227 | wherever there is such a match the search succeeds |
| `GrepSemantics.ItemSplit` | apps/grep.c:186-224 | a successful item splits the text at the largest place from which the rest can be searched |
| `GrepSemantics.FixedMatchesOnce` | apps/grep.c:175-182 | a pattern of fixed length matches from an index in at most one way |
| `GrepSemantics.RigidCommits` | apps/grep.c:175-182 | if the groups leave no choice, every match is one with committed groups |
| `GrepSemantics.RunComplete` | apps/grep.c:129-227 | if the groups leave no choice, in particular without groups, the search finds every match of `Matches`, and one at least as long |
| `GrepSemantics.RunDecides` | apps/grep.c:129-227 | for every pattern, nested groups included: the search succeeds if and only if the pattern matches with every group taking the longest text its body can take (`Commits`), and it finds j if and only if j is the longest such match |
| `GrepSemantics.RunIsGreedy` | apps/grep.c:186-224 | for every pattern, the first item gets as many characters as any such match can give it, and the rest its longest match |
| `GrepSemantics.GroupCommits` | apps/grep.c:175-182 | where committing matters: `(a*)a` matches "a" but not with committed groups, and the search fails |
| `GrepSemantics.LiteralIgnoresCase` | apps/grep.c:62-81 | with -i a letter of the pattern fits in either case |
| `GrepEngine.ScanDecides` | apps/grep.c:86-115 | the left-to-right scan of a bracket body decides membership in the set that the body denotes |
| `GrepEngine.SquareChar` | apps/grep.c:93-108 | one possibly escaped character; the cursor moves and stays at or before the end |
| `GrepEngine.ScanElements` | apps/grep.c:89-114 | the loop ends, its cursor never passes `end`, and it computes the scan |
| `GrepEngine.MatchSquares` | apps/grep.c:86-115 | returns membership in the bracket set |
| `GrepEngine.Test` | apps/grep.c:79-122 | a matcher accepts a character exactly when the atom it was read from fits it |
| `GrepEngine.ScanBracket` | apps/grep.c:163-174 | finds the closing bracket, or reports an open one |
| `GrepEngine.ScanRepetitions` | apps/grep.c:207-211 | the cursor ends after the longest fitting run, one past the line when the run reaches its end, whatever the sentinel holds |
| `GrepEngine.ReadMatcher` | apps/grep.c:153-185 | reads the atom at the cursor, and fails exactly on an open bracket |
| `GrepEngine.MatchRepeated` | apps/grep.c:207-220 | `*` and `\+`: the result of the greedy search with backtracking |
| `GrepEngine.MatchOptional` | apps/grep.c:186-196 | `\?`: the item once if that leads to a match, otherwise not at all |
| `GrepEngine.MatchRepeatedItem` | apps/grep.c:197-220 | the branch as a whole agrees with the search |
| `GrepEngine.MatchItem` | apps/grep.c:153-224 | an atom with its quantifier agrees with the search |
| `GrepEngine.MatchMarker` | apps/grep.c:137-151 | end of pattern, end of group and `$` |
| `GrepEngine.MatchGroup` | apps/grep.c:175-182 | a group is searched by a recursive call and what follows it from where that call stopped |
| `GrepEngine.TakeTurn` | apps/grep.c:137-224 | one turn of the loop |
| `GrepEngine.RegexMatches` | apps/grep.c:129-227 | `regex_matches` ends, and its success, length and needle-out are those of the search on the line up to `actual`: nothing depends on the byte at `text[actual]`, and j + len <= actual |
| `GrepLines.SubsearchMatches` | apps/grep.c:234-243 | what is found at an index, with and without -F |
| `GrepLines.SelectedWhenMatching` | apps/grep.c:439-517 | without -F a line is selected exactly when the pattern matches somewhere in it with committed groups, and with -x exactly when it so matches the whole line |
| `GrepLines.SelectedWhenRigid` | apps/grep.c:439-517 | if the groups leave no choice, the same with `Matches`, with and without -x |
| `GrepLines.WrittenSelects` | apps/grep.c:439-517 | the same for the text of any printable pattern |
| `GrepLines.FixedIgnoresCase` | apps/grep.c:234-243 | with -F and -i the pattern is found where the line has its letters in either case |
| `GrepLines.HitsAreLeftmost` | apps/grep.c:442-508 | the hits that -o reports are the leftmost ones, in order, none overlapping, none left out |
| `GrepLines.ReportIsHitLines` | apps/grep.c:468-501 | what -o prints is the text of the non-empty hits, one a line |
| `GrepLines.TakeHit` | apps/grep.c:468-501 | what one find prints and where the loop goes on |
| `GrepLines.AfterFind` | apps/grep.c:446-506 | a turn of the loop keeps what was printed so far in step with the finds, or leaves the loop settled |
| `GrepLines.MatchLoop` | apps/grep.c:442-508 | the loop ends, settled: matched exactly when the line is selected |
| `GrepLines.MatchLine` | apps/grep.c:439-517 | the pieces printed plus the tail are exactly the line; with -o exactly the report; nothing when the line is not selected or output is suppressed |
| `GrepLines.InvertLine` | apps/grep.c:518-567 | with -v the line is rejected exactly when it is selected without -v, with and without -x, and printed whole otherwise |
| `GrepLines.ScanForNul` | apps/grep.c:429-437 | a NUL in the line makes the file binary |
| `GrepLines.TakeLine` | apps/grep.c:416-568 | a line is reported exactly when it is selected, or with -v exactly when it is not; what is printed of it, NUL included |
| `Sorting.SortBy` | apps/polygons.c:71-86 | what `qsort` promises: a sorted permutation |
| `Sorting.SumPermutation` | apps/polygons.c:71-86 | sums do not depend on the order that the sort picks |
| `Polygons.DrawKeepsPathOk` | apps/polygons.c:207-248 | every add_point or move_to leaves closed contours followed by one open chain |
| `Polygons.DrawAllOk` | apps/polygons.c:207-248 | so does every sequence of them |
| `Polygons.OutlineIsClosed` | apps/polygons.c:103-115 | the closing edge of path_finish turns the drawing into closed contours |
| `Polygons.NetLinked` | apps/polygons.c:103-136 | along a chain the signed crossings of a horizontal telescope |
| `Polygons.NetContours` | apps/polygons.c:103-136 | closed contours cross every horizontal as often downwards as upwards |
| `Polygons.OrientedEffect` | apps/polygons.c:117-126 | orienting edges keeps the signed crossings |
| `Polygons.FinishedIsBalanced` | apps/polygons.c:103-136 | after path_finish the directions of the edges with start.y < y <= end.y sum to zero for every y, whatever order the sort leaves |
| `Polygons.OrientInPlace` | apps/polygons.c:117-126 | the loop orients every edge in place |
| `Polygons.LastScanline` | apps/polygons.c:130-133 | every edge ends above the returned scanline |
| `Polygons.Contour.AddPoint` | apps/polygons.c:207-228 | draws the point; edgeCount < nextAlloc is kept, the array grows when it must |
| `Polygons.Contour.MoveTo` | apps/polygons.c:230-248 | closes the open contour and starts a new one; the same invariant |
| `Polygons.Contour.Grow` | apps/polygons.c:217-220 | reallocation doubles the array and keeps its edges |
| `Polygons.Contour.CopyOutline` | apps/polygons.c:103-115 | the copy holds all edges and the closing one |
| `Polygons.Contour.Finish` | apps/polygons.c:103-136 | the finished shape: sorted, a permutation of the oriented outline, balanced, all above lastY |
| `Polygons.Replay` | apps/polygons.c:207-248 | any sequence of clicks leaves a valid builder that holds the path those clicks draw |
| `PolygonPaint.ActivePrefix` | apps/polygons.c:88-101 | past an edge that starts at or below y nothing is active |
| `PolygonPaint.PruneEdges` | apps/polygons.c:88-101 | the early break loses nothing: exactly the active edges, in order |
| `PolygonPaint.EdgeAtBetween` | apps/polygons.c:98-101 | a crossing lies between the ends of its edge, on both sides |
| `PolygonPaint.ScanBalance` | apps/polygons.c:153-162 | on a balanced shape the winding ends where it began |
| `PolygonPaint.CoveredSplits` | apps/polygons.c:167-186 | the covered length is additive over adjacent intervals |
| `PolygonPaint.CoveredIsLength` | apps/polygons.c:167-186 | it is the whole length where the winding number is never zero and nothing where it always is |
| `PolygonPaint.CoveredAnyOrder` | apps/polygons.c:161-162 | it does not depend on how the sort orders crossings at one place |
| `PolygonPaint.SkipCrossings` | apps/polygons.c:170-173 | skips exactly the crossings left of the column |
| `PolygonPaint.CoverCell` | apps/polygons.c:174-185 | adds exactly the covered length of the column |
| `PolygonPaint.PaintCell` | apps/polygons.c:170-185 | one column of a sub-scanline |
| `PolygonPaint.NothingAfterLast` | apps/polygons.c:169-186 | past the last crossing of a balanced row nothing is covered |
| `PolygonPaint.PaintRow` | apps/polygons.c:167-186 | every column gets exactly its covered length although the loop stops when the crossings are used up |
| `PolygonPaint.FindCrossings` | apps/polygons.c:153-162 | the crossings of the active edges, in order |
| `PolygonPaint.PaintSubScanline` | apps/polygons.c:153-187 | one sub-scanline adds exactly the covered length to every column, and all of it lies between startX and maxX |
| `PolygonPaint.Accumulate` | apps/polygons.c:149-189 | after four sub-scanlines every column holds its coverage (`CoverageIsSamples` says at which heights) |
| `PolygonPaint.PathPaint` | apps/polygons.c:138-196 | every painted row holds the coverage of the shape (`CoverageIsSamples` says at which heights); a shape without edges paints nothing, whatever its unset first edge holds |
| `PolygonPaint.NothingOutside` | apps/polygons.c:138-196 | the rows that are not visited would get nothing, and a shape without edges gets nothing anywhere |
| `PolygonPaint.CoverageBounds` | apps/polygons.c:152-196 | at most one unit per sub-scanline and never less than nothing |
| `PolygonPicture.OutlineIsPolygons` | apps/polygons.c:103-248 | what is finished are the closed polygons through the clicked points, one for each run of points between moves |
| `PolygonPicture.CoverageIsSamples` | apps/polygons.c:147-188 | the coverage of a pixel is what is inside at the heights y, y + 1/4, y + 1/2 and y + 3/4 |
| `PolygonPicture.CoverageAnyOrder` | apps/polygons.c:71-86 | the coverage of a pixel depends neither on the order of the edges nor on that of the crossings |
| `PolygonPicture.WindingIsDrawn` | apps/polygons.c:153-185 | the winding that the painter counts left of a point is the winding number of the drawn edges, their own directions and crossings, around it |
| `PolygonPicture.CoveredIsInside` | apps/polygons.c:167-186 | the covered length is all of an interval whose points are inside the drawing by the winding number, and nothing of one whose points are outside |
| `PolygonPicture.PixelInside` | apps/polygons.c:149-189 | a pixel whose rows at y + l/4 run inside the drawing is covered fully, one whose rows run outside not at all |
| `PolygonPicture.ShapeOnScreen` | apps/polygons.c:103-248 | clicks without negative coordinates give a shape without them |
| `PolygonPicture.PaintDrawing` | apps/polygons.c:103-248 | draw, finish and paint, for any clicks without negative coordinates: every painted pixel is the mean of the inside at the four heights, and every row that is not painted has none |
| `PolygonPicture.RectanglePixel` | apps/polygons.c:149-189 | under a rectangle a pixel gets a quarter for each of the heights y, y + 1/4, y + 1/2 and y + 3/4 that lies in it |
| `PolygonPicture.PaintRectangle` | apps/polygons.c:103-248 | the same of a rectangle that is clicked, finished and painted |
| `CompositorInvariant.TidyPlaces` | apps/compositor.c:232-285 | in a tidy desktop a live window is in exactly one of top slot, bottom slot, mid, menu, overlay, minimised or nowhere, the one its fields name; any other window is in none |
| `CompositorInvariant.UnorderTidy` | apps/compositor.c:249-270 | unordering keeps the desktop tidy |
| `CompositorInvariant.ReorderTidy` | apps/compositor.c:272-302 | restacking a window that is not minimised does, displacing the holder of a slot |
| `CompositorInvariant.RestackNeedsNotMinimized` | apps/compositor.c:272-302 | exactly the windows that are not minimised may be restacked: a minimised one ends up in two places |
| `CompositorInvariant.FocusTidy` | apps/compositor.c:326-356 | so does a change of focus |
| `CompositorInvariant.CloseTidy` | apps/compositor.c:1474-1522 | so does closing, and the window leaves the list |
| `CompositorInvariant.FinishMinimizeTidy` | apps/compositor.c:1448-1469 | so does minimising |
| `CompositorSteps.PaintOrderNoDup` | apps/compositor.c:970-988 | no window is painted twice and only live windows are |
| `CompositorSteps.ToRemoveNoDup` | apps/compositor.c:1306-1313 | a redraw never queues a window for removal twice |
| `CompositorSteps.ToMinimizeNoDup` | apps/compositor.c:779-794 | nor for minimising, and never one that it removes |
| `CompositorSteps.RedrawStep` | apps/compositor.c:1306-1330 | the end of a redraw keeps the desktop tidy |
| `CompositorSteps.Step` | apps/compositor.c:2696-3049 | every event keeps the desktop tidy |
| `CompositorSteps.Run` | apps/compositor.c:2696-3049 | so does every run |
| `CompositorSteps.ReachableIsTidy` | apps/compositor.c:249-356 | over every run from the start: one place per live window, none for a closed one, and the focused window is live and not minimised |
| `CompositorBuffers.AcceptBuffers` | apps/compositor.c:461-478 | an accepted resize takes a buffer that is neither in use nor released; a repeated accept changes nothing |
| `CompositorBuffers.DoneBuffers` | apps/compositor.c:486-539 | a finished resize releases exactly the buffer that was shown and shows the pending one |
| `CompositorBuffers.CloseBuffers` | apps/compositor.c:1508-1518 | closing releases the buffer that is shown, once |
| `CompositorBuffers.StepBuffers` | apps/compositor.c:461-539 | every event keeps all current and pending buffers pairwise distinct and unreleased, only adds releases, revives no closed window, and keeps the pending buffer of every window whose resize it does not finish |
| `CompositorBuffers.RunBuffers` | apps/compositor.c:461-539 | so does every run: nothing in use is released, nothing is released twice |
| `CompositorBuffers.RunKeepsPending` | apps/compositor.c:461-478 | over every run that does not finish the resize of a window that is live at its end, the pending buffer stays and a repeated accept returns it |
| `CompositorBuffers.ReachableIsBuffered` | apps/compositor.c:148-151 | this holds from the start |
| `CompositorPixels.LastHitOf` | apps/compositor.c:648-664 | searching a list from its end finds its last hit |
| `CompositorPixels.TopAt` | apps/compositor.c:627-664 | `top_at` returns the last painted window among those that pass the hit test, and none exactly when none passes |
| `CompositorPixels.MoveDamage` | apps/compositor.c:1579-1588 | every pixel whose composite a move changes lies in a queued rectangle |
| `CompositorPixels.FocusDamage` | apps/compositor.c:326-356 | the same for a change of focus to a window that is not minimised |
| `CompositorPixels.CloseDamage` | apps/compositor.c:1474-1522 | whatever the windows show, closing a window damages each pixel it changes if and only if it is not the bottom window, or is in an animation, or the pixel held black, or it lies in a rectangle that is queued anyway |
| `CompositorPixels.CloseBottomClears` | apps/compositor.c:970-974 | with a bottom window without animation gone, the background is cleared: every pixel that held another colour than black and shows through changes |
| `CompositorPixels.CloseQueuesExactly` | apps/compositor.c:1474-1506 | closing queues exactly the place of the window, and that of the window that gets its focus |
| `CompositorDamage.EventRepaired` | apps/compositor.c:2696-3049 | every event but a restacking or a redraw only adds damage, and leaves the same windows in the same places over every pixel that it does not damage |
| `CompositorDamage.EventCleared` | apps/compositor.c:970-974 | the events that toggle whether the background is cleared: the bottom window closes, starts an animation, or is shown without one |
| `CompositorDamage.TogglesQueue` | apps/compositor.c:1418-1522 | what such an event queues |
| `CompositorDamage.StepDamage` | apps/compositor.c:1182-1206 | whatever the windows show, each pixel that an event changes is painted with the next frame if and only if the event does not toggle the background, or the pixel held black, or the event queues it, or the redraw does |
| `CompositorDamage.StepQueues` | apps/compositor.c:2696-3049 | an event that does not toggle the background queues every pixel it changes itself: flip, move, focus, tile, resize, close, minimise, advertise and create |
| `CompositorDamage.RestackIsNotDamaged` | apps/compositor.c:272-302 | restacking queues nothing: a covered window put into the top slot changes the picture and damages no pixel |
| `CompositorDamage.CloseFails` | apps/compositor.c:970-974 | a run that leads to a change without damage: a window that is never shown is put into the bottom slot and closed |
| `CompositorFocus.ClickFocuses` | apps/compositor.c:326-356 | a live window that is clicked or asks for the focus has it, is not minimised, and if it did not have it before is the last of the stack that holds it |
| `CompositorFocus.FocusFallsBack` | apps/compositor.c:342-343 | a click on nothing takes the focus from its holder to the bottom window |
| `CompositorFocus.CloseHandsOn` | apps/compositor.c:1496-1506 | when the focused window closes, the last menu window that is left has the focus, else the last window of the middle stack, else the bottom one; other windows close without moving it |
| `CompositorFocus.MinimizeHandsOn` | apps/compositor.c:1448-1464 | the same when it is minimised |
| `CompositorFocus.RedrawFocus` | apps/compositor.c:1306-1330 | through a redraw the focused window keeps the focus unless it is removed or minimised; then the same rule holds of what is left |
| `CompositorFocus.StepFocus` | apps/compositor.c:2696-3049 | who has the focus after every event |
| `CompositorFocus.FocusOfRun` | apps/compositor.c:2696-3049 | at the end of every run the focus is where its last event put it |
| `CompositorEvents.NewDoes` | apps/compositor.c:387-433 | a new window is hidden, in the corner, with the size asked for, and last of the middle stack |
| `CompositorEvents.FlipDoes` | apps/compositor.c:1668-1674 | after a flip the window is shown, with the animation its flags choose, and its place is queued |
| `CompositorEvents.MoveDoes` | apps/compositor.c:2768-2784 | a client may move a window at most a screen beyond the left and upper edges and 100 pixels beyond the others |
| `CompositorEvents.DoneDoes` | apps/compositor.c:486-539 | size and buffer change when a resize that is under way is done, and only then |
| `CompositorEvents.MinimizeDoes` | apps/compositor.c:1693-1697 | only advertised windows are minimised on request |
| `CompositorEvents.CloseDoes` | apps/compositor.c:1425-1432 | a window that is shown closes with the animation its flags choose, any other at once |
| `CompositorEvents.RestoreDoes` | apps/compositor.c:1676-1691 | a minimised window that gets the focus comes back in front of the middle stack |
| `CompositorEvents.OthersStay` | apps/compositor.c:2696-3049 | a message about one window, other than a restacking, leaves all others as they are |
| `CompositorEvents.StackDoes` | base/usr/include/toaru/yutani.h:336-340 | the numbers of the protocol, modulo 65536: 0 is the bottom slot, 65535 the top slot, 65534 the menus, 65517 the overlays, any other the middle stack |
| `CompositorEvents.PaintedByLayer` | apps/compositor.c:970-988 | windows are painted bottom, middle, overlays, menus, top |
| `CompositorEvents.HitIsInFront` | apps/compositor.c:632-664 | without thresholds what is hit is what is seen in front |
| `CompositorEvents.OpaqueEnough` | apps/compositor.c:632-646 | a window alone at a pixel is hit there if and only if it is at least as opaque as its threshold |
| `CompositorEvents.MaximizeDoes` | apps/compositor.c:1596-1644 | a maximised window goes to the left edge, at the lower edge of the panel in the top slot if that is not moved down, and to the upper edge without one |
| `CompositorEvents.PanelStaysFree` | apps/compositor.c:1597-1604 | a panel at the upper edge and a maximised window do not overlap |
| `CompositorEvents.WholeArea` | apps/compositor.c:1614-1644 | the size offered to it is the rest of the screen |
| `CompositorEvents.UnmaximizeDoes` | apps/compositor.c:1660-1666 | a second request moves it back |
| `CompositorEvents.TileFocusedDoes` | apps/compositor.c:1596-1655 | keys tile the focused window, but neither the background nor the panel |
| `CompositorEvents.RedrawStepDoes` | apps/compositor.c:779-794 | a redraw removes, minimises or ends exactly what has run out, and leaves every other window as it is |
| `CompositorTiling.TileEdges` | apps/compositor.c:1614-1649 | tiles start and end at the edges of the work area and overlap their neighbours by one pixel |
| `CompositorTiling.TilesCover` | apps/compositor.c:1614-1649 | a pixel is in some tile if and only if it is in the work area |
| `CompositorTiling.StepTiling` | apps/compositor.c:1596-1666 | only a maximise request about a window ends its tiling or makes it forget its old geometry |
| `CompositorTiling.UntileRestores` | apps/compositor.c:1596-1666 | tile a window, let anything happen but a maximise request about it: untile-and-move restores the geometry from before |
| `Compositor.TileCell` | apps/compositor.c:1614-1649 | the cell ends where the work area or its neighbour demands |
| `Compositor.Globals.UnorderWindow` | apps/compositor.c:249-270 | searches only the list that the z field names, and takes the window off |
| `Compositor.Globals.ReorderWindow` | apps/compositor.c:272-302 | restacks |
| `Compositor.Globals.TakeTopSlot` | apps/compositor.c:287-293 | the holder of the top slot is unordered, the window gets it |
| `Compositor.Globals.TakeBottomSlot` | apps/compositor.c:295-301 | the same for the bottom slot |
| `Compositor.Globals.MakeTop` | apps/compositor.c:307-317 | raises within its stack |
| `Compositor.Globals.SetFocusedWindow` | apps/compositor.c:326-356 | the target has the focus, or the bottom window in its place; unminimising and raising follow the step |
| `Compositor.Globals.HandFocusOn` | apps/compositor.c:1496-1506 | who gets the focus when its holder goes |
| `Compositor.Globals.WindowUnminimize` | apps/compositor.c:1676-1691 | off the minimised list and onto the mid stack |
| `Compositor.Globals.WindowFinishMinimize` | apps/compositor.c:1448-1469 | onto the minimised list, the focus handed on |
| `Compositor.Globals.RemoveWindow` | apps/compositor.c:1474-1493 | off every list, its place damaged |
| `Compositor.Globals.WindowActuallyClose` | apps/compositor.c:1474-1522 | closes: lists, focus, damage and buffer |
| `Compositor.Globals.WindowMarkForClose` | apps/compositor.c:1425-1432 | closes at once what is not shown, otherwise starts the closing animation |
| `Compositor.Globals.ServerWindowCreate` | apps/compositor.c:387-433 | the new window has a number and a buffer that nothing used before, and is last in the mid stack |
| `Compositor.Globals.ServerWindowResize` | apps/compositor.c:461-478 | a pending buffer; a repeated accept gets the same one |
| `Compositor.Globals.ServerWindowResizeFinish` | apps/compositor.c:486-539 | swaps the buffers and releases the old one |
| `Compositor.Globals.MarkWindow` | apps/compositor.c:1352-1420 | exactly the pixels of a window that is shown are damaged |
| `Compositor.Globals.WindowMove` | apps/compositor.c:1579-1588 | whatever the windows show, every pixel that the move changes is damaged |
| `Compositor.Globals.WindowTile` | apps/compositor.c:1596-1655 | remembers the geometry once, moves to the tile and offers its size |
| `Compositor.Globals.WindowUntile` | apps/compositor.c:1660-1666 | offers the remembered size and moves back |
| `Compositor.Globals.BlitWindows` | apps/compositor.c:970-988 | ended animations, in paint order |
| `Compositor.Globals.FindLoose` | apps/compositor.c:1306-1313 | the closing windows that no stack holds |
| `Compositor.Globals.RedrawWindows` | apps/compositor.c:1306-1330 | removals, then minimising |
| `Compositor.Globals.HandleWindowMessage` | apps/compositor.c:2734-3049 | a message about a live window does what the step says; a restack takes the low 16 bits of its z |
| `Compositor.Globals.Handle` | apps/compositor.c:2696-3049 | the object that is updated in place follows the state machine, event by event |
| `Compositor.Serve` | apps/compositor.c:2696-3049 | the object, from its start and over every run of events, follows the state machine, so all that holds over runs holds of it; the focus is where the last event put it, and a last click has it |
| `Msk.OrderedIsClosed` | apps/msk.c:276-305 | an ordered list has everything that its packages need |
| `Msk.InstallOrder` | apps/msk.c:276-305 | with a complete manifest every dependency of a listed package is installed or earlier |
| `Msk.InsertAdds` | apps/msk.c:301-304 | inserting a package after its dependencies adds exactly what it needs |
| `Msk.CycleNeverEnds` | apps/msk.c:276-305 | a package that reaches a cycle of dependencies is not done at any depth |
| `Msk.ProcessEnds` | apps/msk.c:276-305 | one that reaches none is done, at a depth of at most the number of packages |
| `Msk.EndsWithoutCycle` | apps/msk.c:276-305 | processing ends if and only if no cycle is in reach |
| `Msk.RequestsEnd` | apps/msk.c:445-449 | the request loop ends if and only if no request up to the first unknown one reaches a cycle |
| `Msk.Resolver.ListContains` | apps/msk.c:268-274 | membership |
| `Msk.Resolver.ProcessPackage` | apps/msk.c:276-305 | adds, without duplicates and in order, exactly the packages reachable through packages that are not installed; fails exactly on an unknown name |
| `Msk.Resolver.ProcessDependencies` | apps/msk.c:290-299 | the same for a list of dependencies; their results are ignored |
| `Msk.Resolver.ResolveRequests` | apps/msk.c:442-449 | the same for the requests; fails exactly when one is unknown, and looks at none after the first unknown one |
| `Julia.EvenBlockKept` | apps/julia.c:343-345 | a block at even places has the corner of the block twice its size, so it may be skipped |
| `Julia.DrawnRange` | apps/julia.c:356-362 | the rows drawn so far lie together around the middle |
| `Julia.FinePassComplete` | apps/julia.c:356-362 | the fine pass draws every row exactly once if and only if the height is even; for an odd one its last row index is -1 |
| `Julia.Renderer.DoLine` | apps/julia.c:239-245 | one row gets the pixel function |
| `Julia.Renderer.DrawBlock` | apps/julia.c:344-351 | after a block is drawn or skipped its pixels hold the colour of its corner |
| `Julia.Renderer.DrawBlockRow` | apps/julia.c:343-352 | the same for a row of blocks, nothing else changes |
| `Julia.Renderer.CoarseStep` | apps/julia.c:342-355 | one row of a coarse pass |
| `Julia.Renderer.EndPass` | apps/julia.c:322-330 | after each coarse pass every pixel holds the colour of its block corner |
| `Julia.Renderer.FineStep` | apps/julia.c:356-362 | one row of the fine pass |
| `Julia.Renderer.StepOnce` | apps/julia.c:321-363 | keeps the phase invariant and makes progress |
| `Julia.Renderer.StartProcessing` | apps/julia.c:257-279 | starts the coarse phase |
| `Julia.Renderer.Render` | apps/julia.c:257-363 | a rendering ends, and the picture is the pixel function everywhere under the labels; for an odd height all but the last row is |
| `Esh.Tokenize` | apps/esh.c:926-1200 | the loop computes the tokens of the line, or reports an unterminated quote |
| `Esh.Turns` | apps/esh.c:940-1169 | the switch with its jumps is one turn of the scanner |
| `Esh.Expand` | apps/esh.c:1000-1015 | the value of a variable, split at its spaces outside quotes |
| `Esh.SingleQuoteIsLiteral` | apps/esh.c:940-1169 | inside single quotes everything but a quote is taken as it is |
| `Esh.InnerQuote` | apps/esh.c:940-1169 | a close, an escaped quote and a reopening add one quote |
| `Esh.QuotingRoundTrip` | apps/esh.c:926-1200 | for words without NUL, quoting each one and joining with spaces is tokenised back to exactly the words, empty ones included, in every environment |
| `Esh.QuotedFits` | apps/esh.c:926-1200 | such a line keeps within the 512-byte buffer if and only if every word does |
| `EshLines.SegmentScans` | apps/esh.c:940-1169 | text adds itself to a word as it is, with backslashes, in double and in single quotes |
| `EshLines.LineMeans` | apps/esh.c:926-1200 | a command line gives exactly the words that are written in it and a token for each pipe, `>` and `2>`, whatever the writing and the spaces, up to its end, a `;` that leaves the rest, a comment or a line feed |
| `EshLines.OpenDouble` | apps/esh.c:1172-1192 | a double quote that is not closed leaves the line unfinished, its text kept |
| `EshLines.OpenSingle` | apps/esh.c:1172-1192 | so does a single quote |
| `EshLines.OpenBackslash` | apps/esh.c:1172-1192 | and a backslash at the end |
| `EshLines.StarMeans` | apps/esh.c:1070-1084 | the first `*` of a word stands for file names, any other for itself |
| `EshLines.HomeMeans` | apps/esh.c:1020-1038 | a `~` that begins a word, alone or in front of a `/`, is the home directory if there is one; any other is itself |
| `EshLines.VariableInDouble` | apps/esh.c:942-1018 | in double quotes a variable adds its value to the word, spaces included |
| `EshLines.VariableSplits` | apps/esh.c:1000-1015 | outside quotes it gives a word for each field of its value |
| `Hexify.WordRoundTrip` | apps/hexify.c:50-67 | numbers are read back from their hex digits |
| `Hexify.Stoih` | apps/hexify.c:50-67 | the number that hex digits spell, or an error exactly when one is not a hex digit |
| `Hexify.DigitsRead` | apps/hexify.c:50-67 | the digits of either case and no other characters |
| `Hexify.PrintCells` | apps/hexify.c:20-34 | the hex part of a line: two lower-case digits for each byte at column 2i + i/2, a space after each pair, blanks past the data |
| `Hexify.PrintText` | apps/hexify.c:36-46 | the text part: byte i itself if it is 32..126, a dot if it is any other, a blank past the data |
| `Hexify.PrintLine` | apps/hexify.c:18-48 | a whole line: offset, colon and space, hex part, space, text part and line feed, each spelled out |
| `Hexify.LineLooks` | apps/hexify.c:18-48 | offset with at least eight digits and no more than it needs, hex part and text part of every line |
| `Hexify.FeedsOfDump` | apps/hexify.c:121-141 | a dump has as many line feeds as lines |
| `Hexify.EncodeTurn` | apps/hexify.c:127-137 | a turn of the encode loop keeps the printed text in step with the bytes read |
| `Hexify.Encode` | apps/hexify.c:121-141 | the whole dump, with exactly one line feed for each line that the data takes |
| `Hexify.UndumpCells` | apps/hexify.c:178-202 | the byte loop of a line |
| `Hexify.UndumpLine` | apps/hexify.c:147-221 | one line, stopping where the code stops |
| `Hexify.Undump` | apps/hexify.c:144-222 | what is written before the decode loop stops |
| `HexifyRoundTrip.FullCells` | apps/hexify.c:178-202 | the bytes of a full line are read back; with an odd width the separator is used up |
| `HexifyRoundTrip.ShortCells` | apps/hexify.c:178-202 | so are those of a short line of any length, up to its first blank |
| `HexifyRoundTrip.EmptyLine` | apps/hexify.c:147-192 | at the end of the file nothing is written, whatever the uninitialised buffers hold |
| `HexifyRoundTrip.LongOffset` | apps/hexify.c:148-165 | an offset of more than eight digits is refused |
| `HexifyRoundTrip.ClippedLine` | apps/hexify.c:148-165 | so is a line that lost its first character |
| `HexifyRoundTrip.WrongOffset` | apps/hexify.c:153-165 | a line whose offset is not the expected one, or no number, stops the parser |
| `HexifyRoundTrip.WrongColon` | apps/hexify.c:167-175 | so does one without colon and space after the offset |
| `HexifyRoundTrip.EvenRoundTrip` | apps/hexify.c:121-222 | lines of even width are read back up to the first offset of nine digits |
| `HexifyRoundTrip.OddRoundTrip` | apps/hexify.c:121-222 | of lines of odd width the first is |
| `HexifyRoundTrip.RoundTrip` | apps/hexify.c:121-222 | what `-d` makes of every dump, for every width: the bytes that were dumped, up to a known limit |
| `HexifyRoundTrip.ComesBackWhole` | apps/hexify.c:121-222 | the data comes back whole if and only if it is one line, or the width is even and all offsets have eight digits |
| `Crc32Table.TableIsRight` | apps/crc32.c:13-57 | every entry of the table is the register after eight zero bits |
| `ShiftRegister.ZerosOfHigh` | apps/crc32.c:80-83 | bits that are not shifted out yet may be added later |
| `ShiftRegister.BitsAtOnce` | apps/crc32.c:80-83 | the bits of a message unit may be added to the register at once |
| `ShiftRegister.ChangeDetected` | apps/crc32.c:80-83 | messages that differ within one word leave different registers |
| `Crc32.StepIsByte` | apps/crc32.c:81-82 | a step with the table takes the eight bits of a byte, sign extension included |
| `Crc32.Update` | apps/crc32.c:80-83 | the byte loop over one buffer is the bit-at-a-time register |
| `Crc32.Checksum` | apps/crc32.c:73-85 | for every way of reading the file in chunks, the result is the bit-at-a-time CRC of section 8 of RFC 1952 |
| `Crc32.CheckValue` | apps/crc32.c:72-85 | the check value: "123456789" gives cbf43926 |
| `Crc32.ChangeDetected` | apps/crc32.c:72-85 | a file that is changed within four consecutive bytes gets another checksum |

## Left out

- GrepEngine.RegexMatches: requires a pattern that is parsed without reading past its end; `DefinedUnlessLoneBackslash` says which patterns these are. For the others nothing is claimed: some calls read beyond the pattern (`BackslashAlone`), others fail before they get there.
- GrepLines.MatchLine: does not model file name and line number prefixes, colour escapes, counts and the order of options.
- Characters are compared as the signed bytes of the target; locales other than C are not modelled.
- Sorting.SortBy: is an insertion in place of the C library's `qsort`; only its contract is used, and `CoveredAnyOrder` shows that ties do not matter.
- PolygonPaint.PathPaint: requires coordinates that are not negative, which `PaintDrawing` derives from the clicks; conversion of negative floats to column numbers is not modelled, and neither are float rounding, colours and blending.
- Compositor.Globals.Handle: requires that clients do not restack minimised windows (see `RestackNeedsNotMinimized`), and identifiers do not wrap around at 32 bits.
- CompositorDamage.StepDamage: says nothing about redraws, which paint before they remove and minimise windows, nor about restacking, which queues no damage (`RestackIsNotDamaged`).
- CompositorBuffers.CloseBuffers: claims nothing about the pending buffer of a window that closes during a resize, which the code does not release.
- Rotation, scaling, animation timing, blur, cursor drawing, dragging and resizing by the mouse (dragging tiles windows and untiles tiled ones), client lists, notifications and packet I/O of the compositor.
- Msk.Resolver.ProcessPackage: does not model a dependency field of nothing but spaces, where the code passes on a null pointer.
- Downloads, locking, configuration files and install commands of msk.
- Julia.Renderer.Render: takes what the two labels make of a pixel as a parameter; fonts and timing are not modelled.
- Esh.Tokenize: takes the expansion of variables from its environment parameter, and models neither history, globbing, redirection, continuation lines nor the overflow of the 512-byte buffer, for which `QuotedFits` gives the condition.
- Hexify.Undump: does not model error messages, exit status and read errors; the uninitialised buffers of each line are parameters.
- Crc32.Checksum: leaves out the printing of the result and read errors.
- All other applications: user interfaces, thin wrappers over system calls, option parsing and printing.
