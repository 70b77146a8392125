# turnjet: turn detection and coordinate cleaning, in Dafny

turnjet records ADS-B position reports of aircraft. Once any report of an
aircraft is more than an hour old, the tool analyses its track, even if the
aircraft is still reporting. It turns the aircraft's headings into
"plateaus", which are runs of samples whose spread stays within a fixed
width. It reports one turn point between each pair of
consecutive plateaus, and then evicts the aircraft's rows from the store. Two
small tools convert navigation-aid and waypoint lists from
degrees-minutes-seconds text (`45°39'21.0""N`) into decimal degrees.

This project models that core as pure functions over sequences and proves
properties of it:

- `Segmenter` models the plateau segmenter `detect_segments_fourchette`. It has
  a recursive reference definition `Detect` and the nested-`while` method
  `DetectSegments`, which is proved equal to it. The module also proves the
  bounds, tiling, greedy-maximality, filtering and counting facts.
  `SegmenterExamples` pins down the worked examples shipped with the segmenter.
- `Transitions` models `extract_transitions`.
- `Angles` models `angular_difference` and the reversed heading used for the
  second ray.
- `Turns` models `detect_turns` and the non-geometric part of
  `estimate_turn_point_from_indices`:
  - the heading sequence goes through an `unwrap` parameter (numpy's phase
    unwrapping);
  - the planar ray intersection is an `intersect` oracle that returns a single
    point or nothing.
- `TrackStore` models the sweep of `process_aircraft_turns`:
  - which aircraft are old;
  - per-aircraft sorting and analysis;
  - eviction of every row of an old aircraft.

  The current time is a parameter `now`, and timestamps are whole seconds.
- `Text` models Python's `str.strip` and `str.split` and the digit strings
  read by `float()`.
- `Dms` models `dms_to_decimal`: the anchored regular-expression match, the
  `float()` conversion of the three groups (including the `ValueError` that
  `float()` raises) and the signed sum.
- `Coordinates` models the coordinate-pair field and the line loop of
  `parse_coordinates_csv`. That function is shared by both tools.
- `Radionavs` models the per-line logic of `tools/clean_radionavs_2.py`.
- `Waypoints` models the per-line logic of `tools/clean_waypoints_2.py`.

Three facts about the code are worth stating, because they are easy to
assume otherwise:

- **No angle filter.** `detect_turns` filters transitions by nothing: every
  transition between consecutive plateaus becomes a turn, however small the
  heading change (`Turns.TurnsFollowTransitions`).
- **Midpoint fallback.** When the two rays do not meet in one point, the code
  always falls back to the midpoint of the two reports.
- **A 90° turn can yield one plateau.** The headings
  `[90, 91, 89, 90, 92, 178, 179, 181, 180]`, with width 2 and minimum size 3,
  give only the segment `(0, 3)`, so no turn. The window that starts at index
  4 stops at 4, because `|178 − 92| > 2`. That window is discarded, and the
  scan restarts at 5 with 4 samples left. The window from 5 stops at 6,
  because adding 181 would make its range 3, so it is also too short. The
  next window, from 7, has only 2 samples. See `SegmenterExamples.NinetyDegreeTurn`.

## Model

| member | source | states |
|---|---|---|
| Segmenter.Detect | main.py:264-332 | the segmenter finishes with a list of segments exactly when the width is non-negative, the table is empty, or the table is shorter than the minimum size; otherwise it loops forever (width negative, minimum size at least 1) or `min([])` raises (minimum size at most 0) |
| Segmenter.DetectSegments | main.py:283-330 | the nested `while` loop, with its `break`, the step back on the first violation and the clamp to the last index, computes the same outcome as the recursive window definition |
| Segmenter.WidenWindow | main.py:295-311 | the inner `while`, with its `break` on the first overflow, the step back and the clamp to the last index, stops exactly where the recursive scan definition ends |
| Segmenter.ScanEnd | main.py:295-311 | the inner scan from a start index ends at most at the last index and never more than one index before where it began |
| Segmenter.ScanEndFits | main.py:295-311 | the window the inner scan returns has range within the width, and if it stops before the end, adding the next sample would push the range strictly above the width |
| Segmenter.ScanEndAt | main.py:295-311 | any index whose window fits and whose one-longer window does not (or that is the last index) is the one the scan stops at, whatever its starting position |
| Segmenter.ScanEndProgress | main.py:295-330 | with a non-negative width a single sample always fits, so the restart index `fin + 1` is past the start and the outer loop advances |
| Segmenter.KeptStep | main.py:313-330 | one turn of the outer loop: the window opened at `i` ends at or after `i`, and it is reported exactly when it holds at least `min_size` samples, ahead of the segments found from `fin + 1` on |
| Segmenter.LoopStep | main.py:283-330 | the invariant of the outer loop survives one turn: the segments found so far, plus the window opened at `i` when it is long enough, followed by what the scan from `fin + 1` keeps, are all the segments |
| Segmenter.NegativeWidthNeverAdvances | main.py:295-330 | with a negative width the scan steps back at once, so `fin + 1` equals the start and the outer loop never advances |
| Segmenter.MinMaxBounds | main.py:298-299 | `min` and `max` of a window are values of the window and bound every value in it |
| Segmenter.CandidateWindows | main.py:289-330 | the candidate windows, whether kept or discarded, tile indices `0 … len−1` contiguously without overlap; each one is greedy-maximal (it reaches the end, or the next sample makes the range exceed the width, and a range equal to the width is accepted) |
| Segmenter.SegmentsWellFormed | main.py:313-327 | every kept segment lies in bounds, has at least the minimum size, has values equal to `table[debut..fin]`, has min, max and range equal to those of its values with range at most the width, and kept segments are strictly increasing and disjoint |
| Segmenter.KeptIffLongEnough | main.py:313-327 | a window is reported as a segment if and only if it is a candidate window of size at least the minimum size; discarded windows' samples are never reused |
| Segmenter.SegmentCountBound | main.py:283-330 | kept segments together hold at most `len(table)` samples, so there are at most `len / min_size` segments, and at most one when the table is shorter than twice the minimum size |
| SegmenterExamples.SignalTooShort | snippet_fourchette.py:179-182 | `[1.0, 1.1]` with minimum size 3 yields no segment, through the length guard |
| SegmenterExamples.ConstantSignal | snippet_fourchette.py:167-170 | a constant 6-sample signal with width 0.1 and minimum size 2 yields one segment covering 0–5 |
| SegmenterExamples.VeryVariableSignal | snippet_fourchette.py:173-176 | `[1,10,2,15,3,20,4,25]` with width 2 and minimum size 2 yields no segment, because every candidate window has length 1 |
| SegmenterExamples.Singletons | main.py:295-311 | when every sample differs from the next by more than the width, every candidate window holds exactly one sample |
| SegmenterExamples.Plateau | main.py:295-311 | a run of samples inside a band no wider than the width, followed by a sample farther than the width from one of them, is exactly one candidate window |
| SegmenterExamples.OutlierThenPlateau | snippet_fourchette.py:89-94 | the first example, with width 2 and minimum size 2, drops the leading outlier and yields one segment 1–6 |
| SegmenterExamples.FourPlateaus | snippet_fourchette.py:100-108 | the four-plateau signal with width 0.6 and minimum size 3 yields 0–3, 4–7, 8–11 and 12–14, matching the commented plateaus |
| SegmenterExamples.GradualDescentWide | snippet_fourchette.py:115-121 | the descent 100 … 85 with width 5 and minimum size 4 yields 0–5, 6–11 and 12–15 |
| SegmenterExamples.GradualDescentStrict | snippet_fourchette.py:115-126 | the same descent with width 2 and minimum size 3 yields 0–2, 3–5, 6–8, 9–11 and 12–14, and the last sample is discarded |
| SegmenterExamples.NoisyPlateaus | snippet_fourchette.py:132-139 | the noisy signal with width 0.8 and minimum size 4 yields 0–5, 6–10 and 11–16 |
| SegmenterExamples.TemperaturesNarrow | snippet_fourchette.py:146-154 | the temperature series with width 0.5 and minimum size 3 yields 0–3, 4–8, 9–13 and 14–18 |
| SegmenterExamples.TemperaturesWide | snippet_fourchette.py:146-158 | the same series with width 1.0 yields the same four segments |
| SegmenterExamples.NinetyDegreeTurn | main.py:283-330 | headings `[90,91,89,90,92,178,179,181,180]` with width 2 and minimum size 3 yield the single segment 0–3 |
| Transitions.ExtractTransitions | main.py:351-377 | fewer than two segments give no transition; otherwise there are exactly `len − 1` pairs, the k-th being (end of segment k, start of segment k+1) |
| Transitions.TransitionsIncrease | main.py:351-377 | for the segmenter's output, every transition `(i, j)` has `i < j` inside the table, and consecutive transitions increase strictly |
| Transitions.ShortSignalHasNoTransition | main.py:363-364 | a table shorter than twice the minimum size has no transition |
| Angles.AngularDifference | main.py:471-482 | for angles at most 360° apart the difference lies in [0, 180]; it is 0 for equal angles and never more than the raw absolute difference |
| Angles.AngularDifferenceSymmetric | main.py:481-482 | the difference does not depend on the order of its arguments |
| Angles.AngularDifferencePeriodic | main.py:481-482 | moving the second angle by a full turn inside the 360° window does not change the difference |
| Angles.AngularDifferenceBeyondFullTurn | main.py:481-482 | for angles more than 360° apart the formula goes negative |
| Angles.ReverseHeading | main.py:392 | `(track + 180) % 360` with Python's floored modulo lies in [0, 360) and differs from `track + 180` by a whole number of turns |
| Angles.ReverseHeadingOpposite | main.py:392 | for a heading in [0, 360) the reversed heading is the opposite direction, exactly 180° away |
| Turns.Midpoint | main.py:439 | the turn time `t_i + (t_j − t_i)/2`, truncated to whole seconds by the output format, is the floor of the mean of the two times |
| Turns.MidpointMonotone | main.py:439 | later report times never give an earlier turn time |
| Turns.EstimateTurnPoint | main.py:380-447 | the turn time lies between the two report times; callsign, registration and hex come from report i; the position is the intersection of the ray along track i from report i with the ray along the reversed track j from report j, or the midpoint of the two positions when they do not meet in one point |
| Turns.WithTrack | main.py:198 | the rows kept by `dropna(subset=['track'])` are exactly the rows with a heading, and there are no more of them than rows |
| Turns.WithTrackAppend | main.py:198 | `dropna` keeps the order and the repeats of the tracked rows: filtering a concatenation is filtering each part and concatenating |
| Turns.WithTrackAll | main.py:198 | rows that all carry a heading are kept unchanged, and rows that carry none are all dropped |
| Turns.TurnsAt | main.py:241-256 | one turn per transition, in transition order, each estimated from the tracked rows at the transition's two indices |
| Turns.TrackTransitions | main.py:204-231 | the transitions of the unwrapped headings, segmented with width 2.0 and minimum size 2, are forward pairs of indices into the tracked rows |
| Turns.DetectTurns | main.py:181-261 | fewer than 6 rows, or fewer than 6 rows with a heading, give no turn; every turn's identity comes from one of the aircraft's tracked rows |
| Turns.TurnsFollowTransitions | main.py:222-256 | past the guards there is exactly one turn per transition, in order, with no angle filter, and turn k is the estimate between tracked rows `i_k < j_k` |
| Turns.WithTrackChronological | main.py:198 | dropping rows without a heading keeps time order |
| Turns.TurnsAtChronological | main.py:241-256 | on time-ordered rows, consecutive turns have non-decreasing times |
| Turns.TurnsChronological | main.py:181-261 | for an aircraft's time-sorted rows, its turns come out in time order and within the time span of its rows |
| TrackStore.OldRowHexes | main.py:141-142 | a hex is listed exactly when one of its rows is strictly older than the cutoff |
| TrackStore.Unique | main.py:142 | `unique()` keeps exactly the listed values, each once |
| TrackStore.UniqueFirstOccurrences | main.py:142 | `unique()` lists the values in the order of their first occurrence, which fixes the order in which aircraft are analysed and their turns appended |
| TrackStore.OldHexes | main.py:137-142 | the old hexes are exactly those with a row older than one hour before `now`, each listed once |
| TrackStore.Retained | main.py:170 | the kept rows are exactly the rows whose hex is not old |
| TrackStore.Evicted | main.py:170 | the removed rows are exactly the rows whose hex is old |
| TrackStore.RowsOf | main.py:151 | an aircraft's rows are exactly the rows with its hex |
| TrackStore.Insert | main.py:151 | inserting a row into a sorted list adds exactly that row, and adds one tracked row if the row has a heading |
| TrackStore.InsertChronological | main.py:151 | inserting into a time-ordered list keeps it time-ordered |
| TrackStore.SortByTime | main.py:151 | `sort_values('timestamp')` gives a time-ordered permutation of the rows with the same number of tracked rows |
| TrackStore.TurnsForHexes | main.py:150-157 | every reported turn belongs to an analysed hex that has at least 6 rows and at least 6 rows with a heading |
| TrackStore.AircraftTurns | main.py:151-156 | the turns of one aircraft, from its rows sorted by time, all carry its hex, and there are none when it has fewer than 6 rows or fewer than 6 with a heading |
| TrackStore.TurnsForHexesPerAircraft | main.py:150-157 | when the analysed hexes are distinct, the turns of any one of them in the combined list are exactly its own turns, in their order |
| TrackStore.ProcessAircraftTurns | main.py:137-173 | turns are reported only for old aircraft; the rows written back are exactly the rows of aircraft that are not old, and all of them are at least as recent as the cutoff |
| TrackStore.RetainedKeepsOrder | main.py:170 | the filter keeps rows in their original order, because filtering distributes over concatenation |
| TrackStore.RetainedEvictedPartition | main.py:170 | kept and removed rows together are exactly the original rows, as a multiset |
| TrackStore.ShortTrackEvictedWithoutTurns | main.py:150-170 | an old aircraft with fewer than 6 rows, or fewer than 6 with a heading, gets no turn and is still removed |
| TrackStore.RetainNothing | main.py:170 | with no old hex nothing is removed |
| TrackStore.NoneOld | main.py:141-142 | when no row is older than the cutoff, no hex is old |
| TrackStore.SweepIdempotent | main.py:137-173 | a second sweep at the same time over the rows written back evicts nothing and reports no turn |
| TrackStore.SweepReportsEachOldAircraft | main.py:140-157 | every old aircraft is analysed exactly once: the sweep's turns for it are the turns of its time-sorted rows, complete and in order |
| Text.Strip | tools/clean_radionavs_2.py:39-48 | `strip` gives a result that is no longer than its input and that neither starts nor ends with a removed character (that it is the middle slice is `Text.StripUnique`) |
| Text.StripUnique | tools/clean_radionavs_2.py:39 | any decomposition into removable prefix, clean middle and removable suffix gives exactly that middle |
| Text.StripIdempotent | tools/clean_radionavs_2.py:39-47 | stripping twice is stripping once |
| Text.StripClean | tools/clean_radionavs_2.py:39 | a string whose ends are not removable is unchanged |
| Text.StripKeepsPrefix | tools/clean_radionavs_2.py:12 | stripping a string that starts with a clean prefix keeps that prefix at the front |
| Text.StripKeepsOut | tools/clean_radionavs_2.py:39-42 | stripping never introduces a character, so a line without `;` stays without one |
| Text.Split | tools/clean_radionavs_2.py:44 | `split(sep)` gives one more part than separator occurrences, no part holds the separator, and joining the parts with the separator gives back the input |
| Text.SplitFindsSeparator | tools/clean_radionavs_2.py:42-44 | a string containing the separator splits into at least two parts, so the final `else` of the line loop cannot be reached |
| Text.SplitJoin | tools/clean_radionavs_2.py:44 | splitting the join of separator-free parts gives back those parts |
| Text.SplitTwo | tools/clean_radionavs_2.py:56 | `a sep b` with separator-free `a` and `b` splits into exactly `[a, b]` |
| Text.SplitThree | tools/clean_radionavs_2.py:44 | `a sep b sep c` with separator-free pieces splits into exactly `[a, b, c]` |
| Text.SplitTwoThen | tools/clean_waypoints_2.py:43 | after two separator-free fields, the remaining fields are those of the tail |
| Text.Numeral | tools/clean_radionavs_2.py:140-147 | a zero-padded decimal numeral is a non-empty digit string at least as wide as requested |
| Text.NumeralValue | tools/clean_radionavs_2.py:17-18 | `float()` of a zero-padded numeral is the number it writes, whatever the padding |
| Text.DigitsValue | tools/clean_radionavs_2.py:17-18 | the digits of a natural number read back as that number |
| Dms.MatchSound | tools/clean_radionavs_2.py:11-15 | a match yields well-formed groups whose rendering is a prefix of the input; text after it is ignored |
| Dms.MatchIff | tools/clean_radionavs_2.py:11-12 | the anchored pattern `(\d+)°(\d+)'([\d.]+)""([NSEW])` matches with given groups exactly when those groups are well formed and their rendering starts the input |
| Dms.MatchRendered | tools/clean_radionavs_2.py:11-12 | any input that starts with a rendering of well-formed groups matches with exactly those groups |
| Dms.ConvertRendered | tools/clean_radionavs_2.py:12 | surrounding blanks are stripped before matching, so a rendering followed by any text matches its own groups |
| Dms.ParseDecimal | tools/clean_radionavs_2.py:19 | `float()` on a string of digits and dots succeeds exactly when there is at most one dot and at least one digit, and the value is non-negative |
| Dms.ParseFixed | tools/clean_radionavs_2.py:19 | a seconds text written as whole part, dot and `k` fraction digits reads back as `whole + frac / 10^k` |
| Dms.DmsToDecimal | tools/clean_radionavs_2.py:5-29 | no match gives `None`; a match whose seconds have several dots or no digit makes `float()` raise; a negative value only comes from an `S` or `W` direction |
| Dms.RenderedValue | tools/clean_radionavs_2.py:17-28 | on a match, the value is `degrees + minutes/60 + seconds/3600`, negated when the direction is `S` or `W` |
| Dms.ConvertDmsString | tools/clean_radionavs_2.py:5-29 | a DMS text written from numbers reads back as the signed sum of those numbers, whatever follows it |
| Dms.DmsRoundTrip | tools/clean_radionavs_2.py:5-29 | writing degrees, minutes and seconds in the files' layout (with any zero padding) and converting gives back their signed decimal value, whatever text follows |
| Dms.DmsStringConverts | tools/clean_waypoints_2.py:5-29 | the same round trip for the bare DMS text |
| Dms.TwoDotsRaise | tools/clean_radionavs_2.py:11-19 | seconds such as `1.2.3` match the pattern, but `float()` raises instead of returning `None` |
| Dms.DocumentedText | tools/clean_radionavs_2.py:8 | the documented example text is the rendering of 45°, 39′, 21.0″ north |
| Dms.PaddedText | tools/clean_radionavs_2.py:140 | the padded layout of the data files (`001°51'16.9""E`) is a rendering with padding widths 3, 2 and 2 |
| Dms.DocumentedExample | tools/clean_radionavs_2.py:6-8 | `45°39'21.0""N`, with any padding and any trailing text, converts to 45 + 39/60 + 21/3600 |
| Dms.DocumentedValue | tools/clean_waypoints_2.py:8 | that value is 45.6558333 to within 10⁻⁷ |
| Coordinates.ConvertPair | tools/clean_radionavs_2.py:56-69 | a pair converts exactly when it splits on `' '` into two tokens that both convert, and the result is their two values; it raises exactly when it splits into two tokens and `float()` raises on either; any other field gives no pair |
| Coordinates.PairRoundTrip | tools/clean_radionavs_2.py:56-69 | two space-free coordinate texts joined by one space convert to their two values |
| Coordinates.PairErrorEither | tools/clean_radionavs_2.py:64-65 | if either token makes `float()` raise, the pair raises |
| Coordinates.RenderingIsCoordinate | tools/clean_radionavs_2.py:5-29 | every DMS text written from numbers is framed (it starts with a digit, ends with a direction, and has no blank or `;`) and converts to its value |
| Coordinates.UnquotePair | tools/clean_radionavs_2.py:48 | `strip('"')` of the quoted pair field gives back the unquoted pair |
| Coordinates.QuotedPairConverts | tools/clean_radionavs_2.py:48-69 | a quoted pair of coordinate texts converts to their values |
| Coordinates.ParseLines | tools/clean_radionavs_2.py:31-104 | the file converts exactly when no line raises; otherwise the error is at the first raising line; there is at most one record per line |
| Coordinates.ParseLinesFromLines | tools/clean_radionavs_2.py:35-104 | every record of a file that converts is the record one of its lines yields |
| Coordinates.ParseLinesAppend | tools/clean_radionavs_2.py:35-104 | records follow line order: a file that converts, followed by more lines, gives its records followed by theirs |
| Coordinates.ParseLinesAllEmit | tools/clean_radionavs_2.py:35-104 | when every line yields a record, the result is those records in line order |
| Coordinates.ParseLinesSkip | tools/clean_radionavs_2.py:35-104 | removing a skipped line changes nothing except the index of a later failing line |
| Radionavs.RadionavLine | tools/clean_radionavs_2.py:38-101 | a line without `;` is skipped; a line yields a record exactly when the quoted pair of its second field converts, and the record holds that pair's latitude and longitude; it raises exactly when converting that pair raises; the code is `parts[0].strip()` of the stripped line, so it is stripped and free of `;`; the record carries the empty `info` key exactly when the stripped line has two fields |
| Radionavs.FieldsOutcome | tools/clean_radionavs_2.py:46-99 | the fields give a record exactly when `parts[1].strip('"')` converts to a pair, with that pair's values, and raise exactly when that conversion raises; the code is `parts[0].strip()`, and the note of a three-field line is dropped while a two-field line gets `info = ''` |
| Radionavs.ParseRadionavs | tools/clean_radionavs_2.py:31-104 | every record comes from a line that yields it, and a failure names a line whose conversion raised |
| Radionavs.NoteLineFields | tools/clean_radionavs_2.py:39-49 | a three-column line with a clean code is left alone by `strip` and splits into its three fields |
| Radionavs.ShortLineFields | tools/clean_radionavs_2.py:80-83 | a two-column line splits into its two fields |
| Radionavs.NoteLineRoundTrip | tools/clean_radionavs_2.py:44-75 | `code;"lat lon";"note"` reads back as the record of the code and the two values, without an `info` key |
| Radionavs.ShortLineRoundTrip | tools/clean_radionavs_2.py:80-99 | `code;"lat lon"` reads back as the record with `info = ''` |
| Radionavs.BadCoordinateRaises | tools/clean_radionavs_2.py:64-65 | a coordinate whose seconds `float()` rejects makes the line, and so the whole file, fail |
| Waypoints.WaypointLine | tools/clean_waypoints_2.py:38-64 | a line without `;` is skipped; a line yields a waypoint exactly when the quoted pair of its second field converts, with that pair's latitude and longitude, and raises exactly when converting that pair raises; the code is the unstripped first field, which starts the stripped line |
| Waypoints.ParseWaypoints | tools/clean_waypoints_2.py:31-66 | every record comes from a line that yields it, and a failure names a line whose conversion raised |
| Waypoints.WaypointFields | tools/clean_waypoints_2.py:39-45 | a waypoint line with extra fields splits into code, pair and the fields of the rest |
| Waypoints.WaypointRoundTrip | tools/clean_waypoints_2.py:38-64 | `code;"lat lon"`, followed by any extra fields, reads back as the waypoint of the code and the two values |

## Left out

- Network polling, the CSV files (`records.csv`, `turns.csv`), JSON output,
  `config.ini`, the sleep loop, printing and plotting (`print_segments_simple`,
  `plot_aircraft_tracks`, `plot_debug`, `afficher_segments`, map.py) are left
  out. They are I/O only. The sweep returns its turns and its remaining rows
  instead of writing them.
- `datetime.now()` becomes the parameter `now`, a whole number of seconds.
  Stored timestamps are whole seconds because the recorder drops the
  microseconds when it writes a report (main.py:68). The sweep's own
  `datetime.now()` keeps its microseconds. The strict `timestamp < now - 1h`
  test on whole-second timestamps therefore gives the same answer as the model
  when `now` is that wall-clock time rounded up to the next whole second.
- `np.unwrap`, `np.radians` and `np.degrees` are left out. They are a foreign
  floating-point call, so they become the parameter `unwrap`, which is only
  required to keep one value per sample.
- The `extend` trigonometry and shapely's `LineString.intersection` are left
  out. They are floating-point geometry in a foreign library, so they become
  the oracle `intersect`, which returns a single point or nothing (empty, or
  not a point).
- The exception handler in `detect_turns` (main.py:258-259) is not modelled.
  The model's functions are total, so an exception raised part-way (by
  plotting, say) is not modelled. Such an exception would return only the
  turns appended before it.
- Floating point is left out: all arithmetic is over exact reals. This covers
  the headings, the segment ranges, the turn midpoints and the DMS values.
- `round(…, 6)` in the tools is left out, for the same reason.
- Dms.DmsToDecimal: reads only ASCII digits. Python's `\d` and `float()`
  also accept other Unicode decimal digits.
- TrackStore.SortByTime: is a stable insertion sort. pandas' default sort is
  not stable, so rows with equal timestamps may come out in another order.
- Segmenter.Detect: represents the negative-width loop as the outcome `Hangs`
  and the `min([])` error as `EmptyWindowError`. It does not model
  non-termination. `detect_turns` always passes width 2.0, so neither outcome
  is reached there.
- Reports with a missing position are not modelled. Latitude and longitude are
  plain reals; only the heading may be missing.
- The header row of `records.csv` is left out, and so is the crash it causes.
  The recorder writes that row when it creates the file (main.py:574-578). The
  sweep reads the file with explicit column names, so the header comes back as
  a data row whose timestamp is the text `timestamp`. `pd.to_datetime(...,
  format='ISO8601')` at main.py:134 then raises, before any turn is written
  and before the file is rewritten at main.py:173. So as long as the header row
  is in the file, the sweep ends in that exception and evicts nothing. The
  model starts from reports whose timestamps are already parsed.
- `convert_coordinates_file` and the test-file writing at module level in the
  tools are left out. They are file output.
- `tools/clean_radionavs_1.py` and `tools/clean_waypoints_1.py` are not part
  of this model. They are whole-file regular-expression rewrites whose
  behaviour is that of Python's backtracking regex engine.
