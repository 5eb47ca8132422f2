# Pattern-lock gesture engine, modelled and proved in Dafny

This project models the core of the zipper-lock Android demo. Most of that core is the
pattern-lock view, which works like this:
- A finger dragged over an N x N grid of dots turns into an ordered, duplicate-free list of dots.
- A dot counts as hit only when the touch lies inside both its row band and its column band.
- When a drag jumps over a dot, that dot is filled in.
- A boolean lookup table marks the selected dots.
- Listeners are told when a gesture starts, progresses, completes or is cleared.

Around the view sit:
- the `Dot` id arithmetic;
- the digit-string serialisation of patterns (`PatternLockUtils`);
- the file-name mappings of the style helper (`LottieImageReplacer`).

Modules:

- `Results` (results.dfy): `Option` and `Result`, used to model nullable returns and thrown exceptions.
- `Decimal` (decimal.dfy): Kotlin's decimal rendering of an `Int` and the value of a digit string.
- `Dots` (dots.dfy):
  - the `Dot` value and its row-major id;
  - the two `Dot.of` factories with their range check;
  - Kotlin's truncating `/` and `%`;
  - `toString`.
- `PatternCodec` (pattern_codec.dfy):
  - `patternToString` and `stringToPattern` as loop methods, each proved against a recursive specification function;
  - both round trips, including where and why the second one fails.
- `Thumbnails` (thumbnails.dfy): Kotlin's `String.replace`, `getThumbnailPath`, and the per-style asset folder and stored-file name.
- `Gesture` (gesture.dfy): the gesture engine as values.
  - `Engine` holds the pattern, the set of marked dots, the in-progress flag, the view mode and the notification log.
  - Functions model hit testing, gap fill, `addCellToPattern`, `detectAndAddHit`, and the down, move, up and cancel handlers.
  - The lemmas prove what those handlers promise. The central invariant is `Consistent`: the table marks exactly the pattern's dots and no dot appears twice. Any run of touch events that begins with a down event keeps it, and it bounds the pattern by `count * count`.
- `PatternLock` (pattern_lock_view.dfy): the view as a class.
  - Fields: the pattern (a `seq`), the lookup table (an `array2<bool>`), the flags and mode, and the listener log.
  - The touch handlers (`HandleActionDown`, `HandleActionMove`, `MoveSampleStep`, `HandleActionUp`, `OnTouchEvent`), `AddCellToPattern`, `DetectAndAddHit`, `ResetPattern` and `ClearPattern` each ensure `State() == Gesture.F(old(State()))` for the matching engine function F. The properties proved in `Gesture` therefore carry over to those methods.
  - `SetViewMode`, `SetPattern`, `AutoDrawFrame`, `Mark`, `MarkPrefix` and `ClearPatternDrawLookup` have no engine counterpart. Each states its new state directly, as a record update of the old state.
  - Those methods do not keep `Consistent`. `setPattern` accepts a list with repeated dots. In AUTO_DRAW mode the table marks only a prefix of the pattern.
  - The scanning loops of `getRowHit`/`getColumnHit` and the nested loops that clear the table are proved against their specifications.
  - Also here: the auto-draw frame, `getCurrentColor` and `onMeasure`.

The grid size (`sDotCount`) and the hit factor are parameters. The view in the `patternlock`
package uses hit factor 0.6. The older copy in the root package uses 0.4 and otherwise has the same
logic, so one model covers both. Coordinates are `real`. Listener notifications are appended to an
event log, in the order the listeners receive them.

Behaviours of the code that are easy to get wrong, each followed by the model:
- The digit-string format round-trips only on grids up to 3 x 3. On every grid from 4 x 4 on, the
  dot with id 10 is written with two digits and read back as two dots (`PatternCodec.DecodeEncodeFailsFromFourByFour`).
- `resetPattern` and `clearPattern` notify no listener. `onCleared` is sent only by the cancel
  action and by a down event that misses every dot (`Gesture.MissAndCancel`).
- Gap fill steps along an axis only when the drag moved exactly two along it and any distance
  but one along the other. After `[(0,0),(1,1)]`, a hit on `(2,0)` adds no fill-in dot: the row
  moved by one, so the fill-in is the last dot `(1,1)`, which is already marked. A knight's move
  from `(0,0)` to `(2,1)` adds none either (`Gesture.KnightMoveNoFill`).
- `handleActionMove` detects hits whatever the in-progress flag says, and `Gesture.Move` does the same.

Specification functions. The functions below model source code directly but carry no contract
of their own. Each is the definition that the class methods and loops are proved equal to, and
the rows named after it in "## Model" state its properties:
- `Dots.Id` (`app/src/main/java/com/wellycorp/demolottie/patternlock/Dot.kt:24-25`, `Dot.id`): `Dots.IdInRange`, `Dots.IdInjective`, `Dots.OfIdOfId`, `Dots.IdOfOfId`.
- `Dots.InGrid` (`app/src/main/java/com/wellycorp/demolottie/patternlock/Dot.kt:50-57`, `checkRange`): `Dots.Of`, whose success condition it is.
- `Gesture.FirstBand` (`app/src/main/java/com/wellycorp/demolottie/patternlock/PatternLockView.kt:670-696`, the scans of `getRowHit`/`getColumnHit`): `Gesture.FirstBandMeaning`, `Gesture.FirstBandFindsBand`, `Gesture.BandEdges`, `PatternLock.ScanBands`, `PatternLock.PatternLockView.RowHit`, `PatternLock.PatternLockView.ColumnHit`.
- `Gesture.NewHit` (`app/src/main/java/com/wellycorp/demolottie/patternlock/PatternLockView.kt:658-668`, `checkForNewHit`): `Gesture.NewHitMeaning`, `PatternLock.PatternLockView.CheckForNewHit`.
- `Gesture.FillIn` (`app/src/main/java/com/wellycorp/demolottie/patternlock/PatternLockView.kt:536-551`, the fill-in dot of `detectAndAddHit`): `Gesture.FillInMeaning`, `Gesture.FillInExamples`, `PatternLock.FillInGapDot`.
- `Gesture.AddCell` (`app/src/main/java/com/wellycorp/demolottie/patternlock/PatternLockView.kt:571-578`, `addCellToPattern`): `Gesture.AddCellKeepsConsistent`, `PatternLock.PatternLockView.AddCellToPattern`.
- `Gesture.DetectAndAddHit` (`app/src/main/java/com/wellycorp/demolottie/patternlock/PatternLockView.kt:530-569`, `detectAndAddHit`): `Gesture.DetectAndAddHitGrowth`, `Gesture.DetectAndAddHitKeepsConsistent`, `PatternLock.PatternLockView.DetectAndAddHit`.
- `Gesture.Down` (`app/src/main/java/com/wellycorp/demolottie/patternlock/PatternLockView.kt:793-826`, `handleActionDown`): `Gesture.DownMeaning`, `PatternLock.PatternLockView.HandleActionDown`.
- `Gesture.Move` and `Gesture.MoveSample` (`app/src/main/java/com/wellycorp/demolottie/patternlock/PatternLockView.kt:698-761`, `handleActionMove`): `Gesture.MoveSampleMeaning`, `Gesture.MoveConcat`, `Gesture.MoveKeepsConsistent`, `PatternLock.PatternLockView.HandleActionMove`, `PatternLock.PatternLockView.MoveSampleStep`.
- `Gesture.Up` (`app/src/main/java/com/wellycorp/demolottie/patternlock/PatternLockView.kt:767-778`, `handleActionUp`) and `Gesture.Cancel` (`app/src/main/java/com/wellycorp/demolottie/patternlock/PatternLockView.kt:372-375`, the cancel branch of `onTouchEvent`): `Gesture.EndOfGesture`, `PatternLock.PatternLockView.HandleActionUp`, `PatternLock.PatternLockView.OnTouchEvent`.
- `Gesture.Reset` (`app/src/main/java/com/wellycorp/demolottie/patternlock/PatternLockView.kt:499-504`, `resetPattern`): `Gesture.ResetIdempotent`, `PatternLock.PatternLockView.ResetPattern`, `PatternLock.PatternLockView.ClearPattern`.
- `PatternCodec.Encode` (`app/src/main/java/com/wellycorp/demolottie/patternlock/PatternLockUtils.kt:11-19`, the loop of `patternToString`): `PatternCodec.PatternToString`, `PatternCodec.EncodeAppend`, `PatternCodec.DecodeEncode`, `PatternCodec.EncodeDecode`.
- `PatternCodec.Decode` (`app/src/main/java/com/wellycorp/demolottie/patternlock/PatternLockUtils.kt:24-33`, the loop of `stringToPattern`): `PatternCodec.StringToPattern`, `PatternCodec.DecodeMeaning`, `PatternCodec.DecodeSnoc`, `PatternCodec.FailureSticks`, `PatternCodec.DecodeStopsAtFirstFailure`, `PatternCodec.DecodeRejects`.
- `Thumbnails.ReplaceAll` (`app/src/main/java/com/wellycorp/demolottie/LottieImageReplacer.kt:98`, Kotlin's `String.replace`): `Thumbnails.ReplaceAllSkip`, `Thumbnails.ReplaceAllHead`, `Thumbnails.ReplaceAllAbsent`, `Thumbnails.ReplaceAllSelf`.
- `Thumbnails.AssetFolder` (`app/src/main/java/com/wellycorp/demolottie/LottieImageReplacer.kt:37-41`, the folder of each style): `Thumbnails.AssetJsonPath`, `Thumbnails.AssetJsonPathInjective`, `Thumbnails.StyleFilesDistinct`.
- `Thumbnails.ModifiedJsonFile` (`app/src/main/java/com/wellycorp/demolottie/LottieImageReplacer.kt:13-15` and 37-41, the stored copy of each style): `Thumbnails.StyleFilesDistinct`.

## Model

| member | source | states |
|---|---|---|
| Decimal.DigitChar | app/src/main/java/com/wellycorp/demolottie/patternlock/PatternLockUtils.kt:16 | a decimal digit renders as the character whose offset from '0' is its value |
| Decimal.DigitValue | app/src/main/java/com/wellycorp/demolottie/patternlock/PatternLockUtils.kt:27 | a digit character's numeric value is below 10 and renders back to the same character |
| Decimal.NatToString | app/src/main/java/com/wellycorp/demolottie/patternlock/PatternLockUtils.kt:16 | the decimal rendering of a natural number is all digits, non-empty, one character exactly when the number is below 10, and has no leading zero |
| Decimal.IntToString | app/src/main/java/com/wellycorp/demolottie/patternlock/PatternLockUtils.kt:16 | an `Int` renders as its digits, with a leading '-' exactly when it is negative, and the digits read back as its magnitude |
| Decimal.ValueOfNatToString | app/src/main/java/com/wellycorp/demolottie/patternlock/PatternLockUtils.kt:16 | reading back the decimal rendering of n gives n |
| Decimal.IntToStringInjective | app/src/main/java/com/wellycorp/demolottie/patternlock/Dot.kt:61-63 | distinct integers render differently |
| Decimal.NatToStringInjective | app/src/main/java/com/wellycorp/demolottie/patternlock/PatternLockUtils.kt:16 | distinct numbers render differently |
| Dots.TruncDiv | app/src/main/java/com/wellycorp/demolottie/patternlock/Dot.kt:47 | Kotlin's `/` agrees with floor division on non-negative dividends and is never positive on negative ones |
| Dots.TruncRem | app/src/main/java/com/wellycorp/demolottie/patternlock/Dot.kt:47 | Kotlin's `%` completes the division identity, is smaller in magnitude than the divisor, and takes the dividend's sign |
| Dots.Of | app/src/main/java/com/wellycorp/demolottie/patternlock/Dot.kt:38-58 | `Dot.of(row, column)` succeeds exactly when both lie in [0, count-1], returns a dot with exactly those coordinates, and otherwise fails with the range-check exception |
| Dots.OfId | app/src/main/java/com/wellycorp/demolottie/patternlock/Dot.kt:44-48 | `Dot.of(id)` fails on a zero grid size (the division throws); `dotOf(id)` at patternlock/PatternLockView.kt:883-886 is the same computation |
| Dots.IdInRange | app/src/main/java/com/wellycorp/demolottie/patternlock/Dot.kt:24-25 | the id of an in-range dot lies in [0, count²) |
| Dots.IdInjective | app/src/main/java/com/wellycorp/demolottie/patternlock/Dot.kt:24-25 | two in-range dots with the same id are equal |
| Dots.OfIdOfId | app/src/main/java/com/wellycorp/demolottie/patternlock/Dot.kt:24-48 | `of(d.id) == d` for every in-range dot |
| Dots.IdOfOfId | app/src/main/java/com/wellycorp/demolottie/patternlock/Dot.kt:24-48 | `of(i)` succeeds and `of(i).id == i` for every i in [0, count²) |
| Dots.OfIdRejects | app/src/main/java/com/wellycorp/demolottie/patternlock/Dot.kt:44-58 | `of(id)` throws for every id outside [0, count²), negative ids included |
| Dots.ToString | app/src/main/java/com/wellycorp/demolottie/patternlock/Dot.kt:61-63 | the rendering starts with "(Row = " and ends with ")" |
| Dots.ToStringInjective | app/src/main/java/com/wellycorp/demolottie/patternlock/Dot.kt:61-63 | distinct dots render differently: row and column can be read back from the rendering |
| Dots.ToStringExample | app/src/main/java/com/wellycorp/demolottie/patternlock/Dot.kt:61-63 | (1,2) renders as "(Row = 1, Col = 2)" and (0,-1) as "(Row = 0, Col = -1)" |
| PatternCodec.NumericValue | app/src/main/java/com/wellycorp/demolottie/patternlock/PatternLockUtils.kt:27 | a digit's value is its decimal value; any other character gives -1 or a value of at least 10 |
| PatternCodec.PatternToString | app/src/main/java/com/wellycorp/demolottie/patternlock/PatternLockUtils.kt:11-19 | null gives ""; a list gives the concatenation of its dots' decimal ids, in order |
| PatternCodec.StringToPattern | app/src/main/java/com/wellycorp/demolottie/patternlock/PatternLockUtils.kt:24-33 | the loop's result is the specification `Decode`: one dot per character, or the exception of the first bad character |
| PatternCodec.FailureSticks | app/src/main/java/com/wellycorp/demolottie/patternlock/PatternLockUtils.kt:26-31 | once a prefix throws, the whole string throws the same exception |
| PatternCodec.EncodeAppend | app/src/main/java/com/wellycorp/demolottie/patternlock/PatternLockUtils.kt:14-18 | serialising a concatenation concatenates the serialisations |
| PatternCodec.DecodeMeaning | app/src/main/java/com/wellycorp/demolottie/patternlock/PatternLockUtils.kt:24-33 | parsing succeeds exactly when every character's value is in [0, count²); then the result has one dot per character, with row = value div count and column = value mod count |
| PatternCodec.DecodeEncode | app/src/main/java/com/wellycorp/demolottie/patternlock/PatternLockUtils.kt:11-34 | an in-range pattern whose ids are all single digits reads back as itself |
| PatternCodec.DecodeEncodeSmallGrid | app/src/main/java/com/wellycorp/demolottie/patternlock/PatternLockUtils.kt:11-34 | on grids of at most 3 x 3 every in-range pattern round-trips |
| PatternCodec.DecodeSnoc | app/src/main/java/com/wellycorp/demolottie/patternlock/PatternLockUtils.kt:26-31 | parsing one more character keeps an earlier failure, else fails with that character's failure, else appends its dot |
| PatternCodec.DecodeEncodeFailsFromFourByFour | app/src/main/java/com/wellycorp/demolottie/patternlock/PatternLockUtils.kt:11-34 | on every grid of size 4 or more, the in-grid dot with id 10 ((2,2) on 4 x 4) is stored as "10", which reads back as [(0,1),(0,0)], so the round trip fails |
| PatternCodec.EncodeDecode | app/src/main/java/com/wellycorp/demolottie/patternlock/PatternLockUtils.kt:11-34 | a string of decimal digits, each below count², parses and serialises back to itself |
| PatternCodec.DecodeRejects | app/src/main/java/com/wellycorp/demolottie/patternlock/PatternLockUtils.kt:27-31 | on a 3 x 3 grid a digit past the grid, a letter (value 10) and a non-alphanumeric character (value -1) all throw; on 4 x 4 'a' is the dot (2,2); a zero grid size throws a division error |
| PatternCodec.DecodeStopsAtFirstFailure | app/src/main/java/com/wellycorp/demolottie/patternlock/PatternLockUtils.kt:26-31 | valid characters before a bad one do not save the parse |
| Thumbnails.ThumbnailPath | app/src/main/java/com/wellycorp/demolottie/LottieImageReplacer.kt:95-111 | the path is the style's fixed prefix, then the file name with both replacements applied, then ".png" (row, zipper) or ".jpg" (wallpaper) |
| Thumbnails.ReplaceAllSkip | app/src/main/java/com/wellycorp/demolottie/LottieImageReplacer.kt:98 | characters that cannot start the target are copied unchanged by `replace` |
| Thumbnails.ReplaceAllHead | app/src/main/java/com/wellycorp/demolottie/LottieImageReplacer.kt:98 | a leading occurrence of the target is replaced |
| Thumbnails.ReplaceAllAbsent | app/src/main/java/com/wellycorp/demolottie/LottieImageReplacer.kt:98 | `replace` leaves a string without the target unchanged |
| Thumbnails.ReplaceAllSelf | app/src/main/java/com/wellycorp/demolottie/LottieImageReplacer.kt:98 | replacing a target by itself changes nothing |
| Thumbnails.StripAssetName | app/src/main/java/com/wellycorp/demolottie/LottieImageReplacer.kt:97-109 | an asset name "<prefix><name>.json" loses its prefix (or has it swapped) and its extension, leaving the name |
| Thumbnails.ThumbnailOfAsset | app/src/main/java/com/wellycorp/demolottie/LottieImageReplacer.kt:95-111 | for every style, the thumbnail of "<style prefix><name>.json" is the style's prefix, the name and the extension |
| Thumbnails.RowThumbnailExample | app/src/main/java/com/wellycorp/demolottie/LottieImageReplacer.kt:89-100 | "video_row_1.json" maps to "row/thumbnail_big_row_1.png" |
| Thumbnails.ZipperThumbnailExample | app/src/main/java/com/wellycorp/demolottie/LottieImageReplacer.kt:92-104 | "video_zipper_1.json" maps to "zipper/thumbnail_big_zipper_1.png" |
| Thumbnails.WallpaperThumbnailExample | app/src/main/java/com/wellycorp/demolottie/LottieImageReplacer.kt:93-109 | "video_ai_art_1.json" maps to "wallpaper/thumb/thumbnail_big_wallpaper_ai_art_1.jpg" |
| Thumbnails.AssetJsonPath | app/src/main/java/com/wellycorp/demolottie/LottieImageReplacer.kt:37-43 | the asset read is the style's folder, a slash and the file name: folder and name can be recovered from the path |
| Thumbnails.AssetJsonPathInjective | app/src/main/java/com/wellycorp/demolottie/LottieImageReplacer.kt:37-43 | distinct (file name, style) pairs read distinct assets |
| Thumbnails.StyleFilesDistinct | app/src/main/java/com/wellycorp/demolottie/LottieImageReplacer.kt:13-15 | different styles have different stored-copy names (the one mapping shared by `selectStyle`, `getModifiedJsonPath`, `hasModifiedJson`, `clearModifiedJson`) and different asset folders (the one mapping shared by `selectStyle` and `getAvailableStyles`) |
| Gesture.FirstBandMeaning | app/src/main/java/com/wellycorp/demolottie/PatternLockView.kt:668-694 | the band scan returns -1 exactly when no band holds the coordinate, and otherwise the least index in [0, count) whose inclusive band holds it |
| Gesture.BandsDisjoint | app/src/main/java/com/wellycorp/demolottie/PatternLockView.kt:668-694 | with a positive cell and hit factor below 1, no coordinate lies in two bands |
| Gesture.FirstBandFindsBand | app/src/main/java/com/wellycorp/demolottie/patternlock/PatternLockView.kt:670-696 | a coordinate inside band i resolves to i |
| Gesture.BandEdges | app/src/main/java/com/wellycorp/demolottie/PatternLockView.kt:672-678 | both edges of a band are hits; the boundary between two cells is a miss |
| Gesture.CellEdgeOutside | app/src/main/java/com/wellycorp/demolottie/PatternLockView.kt:672-678 | a cell boundary lies in no band |
| Gesture.NewHitMeaning | app/src/main/java/com/wellycorp/demolottie/PatternLockView.kt:656-666 | `checkForNewHit` returns a dot exactly when both axes hit and the dot is unmarked; that dot is in the grid and its bands hold the point |
| Gesture.FillInMeaning | app/src/main/java/com/wellycorp/demolottie/patternlock/PatternLockView.kt:536-551 | on a skipped axis the fill-in is halfway between the last dot and the hit; otherwise it stays on the last dot's line; it is at most one step from the last dot, between the two, inside the grid, and never the hit |
| Gesture.FillInExamples | app/src/main/java/com/wellycorp/demolottie/patternlock/PatternLockView.kt:541-548 | (0,0)→(0,2) fills (0,1), (0,0)→(2,2) fills (1,1), (0,0)→(2,1) yields the last dot itself |
| Gesture.DetectAndAddHitGrowth | app/src/main/java/com/wellycorp/demolottie/patternlock/PatternLockView.kt:530-578 | a hit grows the pattern by 1 or 2 (by 2 exactly when the fill-in is unmarked, which is then added first); the hit becomes the last dot; the marked set grows by the added dots; one progress notification per added dot; a miss changes nothing |
| Gesture.DetectAndAddHitKeepsConsistent | app/src/main/java/com/wellycorp/demolottie/patternlock/PatternLockView.kt:553-578 | a hit keeps the table equal to the pattern's dots and the pattern duplicate-free |
| Gesture.AddCellKeepsConsistent | app/src/main/java/com/wellycorp/demolottie/patternlock/PatternLockView.kt:571-578 | adding an unmarked in-grid dot keeps the table and the pattern in step |
| Gesture.PatternBounded | app/src/main/java/com/wellycorp/demolottie/patternlock/PatternLockView.kt:665 | a duplicate-free pattern of in-grid dots has at most count² dots |
| Gesture.MoveSampleMeaning | app/src/main/java/com/wellycorp/demolottie/patternlock/PatternLockView.kt:704-712 | a sample's progress notifications come first; `onStarted` follows, and the gesture becomes in progress, exactly when the sample hit and left a one-dot pattern |
| Gesture.MoveConcat | app/src/main/java/com/wellycorp/demolottie/patternlock/PatternLockView.kt:704-713 | processing samples in one batch equals processing them one after another, in order |
| Gesture.MoveKeepsConsistent | app/src/main/java/com/wellycorp/demolottie/patternlock/PatternLockView.kt:698-713 | moves only extend the pattern and keep the table consistent |
| Gesture.DownMeaning | app/src/main/java/com/wellycorp/demolottie/patternlock/PatternLockView.kt:793-805 | down resets, leaves mode CORRECT, a consistent table and at most one dot; a hit sends progress then started and sets in-progress; a miss sends cleared and clears in-progress |
| Gesture.EndOfGesture | app/src/main/java/com/wellycorp/demolottie/patternlock/PatternLockView.kt:767-773 | up with a pattern clears in-progress and reports it unchanged; up without one does nothing; cancel (lines 372-376) empties the pattern, clears in-progress, sets CORRECT and reports cleared |
| Gesture.ResetIdempotent | app/src/main/java/com/wellycorp/demolottie/patternlock/PatternLockView.kt:499-504 | resetting twice is resetting once, and a reset state is consistent |
| Gesture.TouchKeepsConsistent | app/src/main/java/com/wellycorp/demolottie/patternlock/PatternLockView.kt:353-386 | every touch action keeps a consistent state consistent; a down event makes any state consistent |
| Gesture.GestureRunConsistent | app/src/main/java/com/wellycorp/demolottie/patternlock/PatternLockView.kt:353-386 | after any run of touch events beginning with a down event the pattern is duplicate-free, the table marks exactly its dots, and it has at most count² dots |
| Gesture.StraightDragFillsGap | app/src/main/java/com/wellycorp/demolottie/patternlock/PatternLockView.kt:530-578 | on a 3 x 3 grid, down on (0,0), a drag to (2,0), then up, selects (0,0),(1,0),(2,0) and reports progress, started, progress, progress, complete |
| Gesture.KnightMoveNoFill | app/src/main/java/com/wellycorp/demolottie/patternlock/PatternLockView.kt:530-578 | on a 3 x 3 grid, down on (0,0), a drag to (2,1), then up, selects only (0,0),(2,1): the fill-in is the already-marked (0,0); it reports progress, started, progress, complete |
| Gesture.MissAndCancel | app/src/main/java/com/wellycorp/demolottie/patternlock/PatternLockView.kt:372-376 | a down between rows reports only cleared; down on a dot then cancel reports progress, started, cleared and leaves the pattern empty |
| PatternLock.ScanBands | app/src/main/java/com/wellycorp/demolottie/patternlock/PatternLockView.kt:670-696 | the scanning loop returns what the band-scan specification does |
| PatternLock.ResolveMeasured | app/src/main/java/com/wellycorp/demolottie/PatternLockView.kt:467-475 | UNSPECIFIED gives the desired size; AT_MOST gives the larger of spec size and desired size; any other mode gives the spec size |
| PatternLock.CirclesShown | app/src/main/java/com/wellycorp/demolottie/PatternLockView.kt:222-226 | the auto-draw dot count never exceeds the pattern length and is non-negative for non-negative elapsed time, so the marking loop never indexes past the pattern |
| PatternLock.AutoDrawSchedule | app/src/main/java/com/wellycorp/demolottie/PatternLockView.kt:222-226 | during the j-th 700 ms step exactly j dots are shown, and the same count returns in that step of every later cycle of (n+1)·700 ms |
| PatternLock.FillInGapDot | app/src/main/java/com/wellycorp/demolottie/patternlock/PatternLockView.kt:536-551 | the step-by-step fill-in computation yields the engine's `FillIn` dot |
| PatternLock.PatternLockView.constructor | app/src/main/java/com/wellycorp/demolottie/patternlock/PatternLockView.kt:146-148 | a new view has an empty pattern and table, mode AUTO_DRAW, input enabled and no notifications; cell sizes start at 0 (the `0f` fields of lines 75-76) and so do the paddings until the first size change |
| PatternLock.PatternLockView.OnSizeChanged | app/src/main/java/com/wellycorp/demolottie/patternlock/PatternLockView.kt:329-335 | each cell side is the padded-in view side divided by the dot count |
| PatternLock.PatternLockView.RowHit | app/src/main/java/com/wellycorp/demolottie/patternlock/PatternLockView.kt:670-682 | `getRowHit` returns the band scan of the row axis |
| PatternLock.PatternLockView.ColumnHit | app/src/main/java/com/wellycorp/demolottie/patternlock/PatternLockView.kt:684-696 | `getColumnHit` returns the band scan of the column axis |
| PatternLock.PatternLockView.CheckForNewHit | app/src/main/java/com/wellycorp/demolottie/patternlock/PatternLockView.kt:658-668 | reading the lookup table gives exactly the engine's new-hit result |
| PatternLock.PatternLockView.AddCellToPattern | app/src/main/java/com/wellycorp/demolottie/patternlock/PatternLockView.kt:571-578 | sets the table cell, appends the dot and logs progress, keeping the table in step with the marked set |
| PatternLock.PatternLockView.Mark | app/src/main/java/com/wellycorp/demolottie/patternlock/PatternLockView.kt:572 | setting one table cell adds exactly that dot to the marked set |
| PatternLock.PatternLockView.MarkPrefix | app/src/main/java/com/wellycorp/demolottie/patternlock/PatternLockView.kt:392-394 | on a cleared table the marking loop marks exactly the first k dots of the pattern |
| PatternLock.PatternLockView.DetectAndAddHit | app/src/main/java/com/wellycorp/demolottie/patternlock/PatternLockView.kt:530-569 | the new state and returned hit are the engine's `DetectAndAddHit`; the fill-in's range check always passes |
| PatternLock.PatternLockView.ResetPattern | app/src/main/java/com/wellycorp/demolottie/patternlock/PatternLockView.kt:499-504 | empties pattern and table and sets CORRECT, with no notification |
| PatternLock.PatternLockView.ClearPatternDrawLookup | app/src/main/java/com/wellycorp/demolottie/patternlock/PatternLockView.kt:522-528 | the nested loops set every cell false and change nothing else |
| PatternLock.PatternLockView.ClearPattern | app/src/main/java/com/wellycorp/demolottie/PatternLockView.kt:463-465 | `clearPattern` is a reset and sends no notification |
| PatternLock.PatternLockView.SetViewMode | app/src/main/java/com/wellycorp/demolottie/PatternLockView.kt:396-408 | sets the mode; switching to AUTO_DRAW with a pattern restarts the animation clock and unmarks every dot |
| PatternLock.PatternLockView.SetPattern | app/src/main/java/com/wellycorp/demolottie/PatternLockView.kt:386-394 | the pattern becomes the argument and the table marks exactly its dots, except that AUTO_DRAW with a non-empty pattern leaves the table empty |
| PatternLock.PatternLockView.HandleActionDown | app/src/main/java/com/wellycorp/demolottie/patternlock/PatternLockView.kt:793-826 | the state changes exactly as the engine's `Down` |
| PatternLock.PatternLockView.HandleActionMove | app/src/main/java/com/wellycorp/demolottie/patternlock/PatternLockView.kt:698-761 | historical samples are processed in order, then the current position, exactly as the engine's `Move` |
| PatternLock.PatternLockView.MoveSampleStep | app/src/main/java/com/wellycorp/demolottie/patternlock/PatternLockView.kt:708-713 | one pass of the move loop changes the state exactly as the engine's `MoveSample` |
| PatternLock.PatternLockView.HandleActionUp | app/src/main/java/com/wellycorp/demolottie/patternlock/PatternLockView.kt:767-778 | the state changes exactly as the engine's `Up` |
| PatternLock.PatternLockView.OnTouchEvent | app/src/main/java/com/wellycorp/demolottie/patternlock/PatternLockView.kt:353-386 | with input or the view disabled nothing is handled and nothing changes; otherwise down, move, up and cancel are handled as the engine's `Touch` and any other action is declined |
| PatternLock.PatternLockView.AutoDrawFrame | app/src/main/java/com/wellycorp/demolottie/PatternLockView.kt:221-252 | in AUTO_DRAW the table marks exactly the first `CirclesShown` dots, and the segment between dots k-1 and k is returned only when 0 < k < n; other modes change nothing |
| PatternLock.PatternLockView.CurrentColor | app/src/main/java/com/wellycorp/demolottie/PatternLockView.kt:845-857 | normal colour off the pattern, in stealth mode or mid-gesture; otherwise wrong for WRONG and correct for CORRECT and AUTO_DRAW; the exception exactly for any other mode |
| PatternLock.PatternLockView.Measure | app/src/main/java/com/wellycorp/demolottie/PatternLockView.kt:188-214 | disabled keeps the superclass measurement; SQUARE gives (min, min), WIDTH_BIAS (w, min), HEIGHT_BIAS (min, h); the two sides are resolved sizes, at most the resolved ones, one keeps its length, and the biased side is the longer one; any other ratio throws |

## Left out

- Rendering and animation are not modelled:
  - drawing of dots and paths, dot-size and line-end animations, and `DotState`;
  - `calculateLastSegmentAlpha`;
  - the in-progress point (`mInProgressX/Y`) and its float interpolation; `AutoDrawFrame` returns the segment being animated instead;
  - invalidate rectangles.
- Haptic feedback, accessibility announcements, `onHoverEvent` remapping and method-tracing profiling are platform calls with no effect on the modelled state.
- Float rounding: coordinates, cell sizes and the hit factor are exact reals. `PatternLock.PatternLockView.OnSizeChanged` requires a positive dot count, because a float division by zero has no real-number counterpart.
- PatternLock.PatternLockView.OnSizeChanged: records the padding when the size changes, and the hit tests use that recorded value. The source reads the live `paddingLeft`/`paddingTop` on every hit test (patternlock/PatternLockView.kt:674 and 688). A padding change that keeps the size, and so triggers no `onSizeChanged`, is therefore not modelled.
- 32-bit overflow of `Int` and `Long` arithmetic (ids, measure sizes, the animation clock) is not modelled; integers are unbounded.
- `setDotCount` is not modelled. The grid size is fixed at construction, because the lazily built canonical dot grid is never rebuilt to match a new size.
- The canonical-instance identity of `Dot` objects is not modelled: dots are compared as values.
- `PatternLock.PatternLockView.SetPattern` requires every dot to be in the grid. The source would throw `ArrayIndexOutOfBoundsException` part-way through, after already replacing the list.
- Listeners receive a snapshot of the pattern. The source passes its live list, which later changes under a listener that keeps it. Registering listeners is not modelled either: the source has no method to add one, so the event log stands for every listener.
- `isEnabled` is a framework property and is a parameter of `OnTouchEvent`. Input-enabled and stealth mode have no setter in the source, so they keep their initial values (true and false).
- Setters for attributes read only by drawing (`setPathWidth`, `setDotNormalSize`, `setDotAnimationDuration`) are not modelled. The same goes for `setAspectRatioEnabled` and `setAspectRatio`: the model takes both values at construction.
- `MeasureSpec` bit packing is Android's. A spec is given already split into mode and size, and the mode constants are written as unsigned values (`AT_MOST` is `0x8000_0000`, negative as a 32-bit `Int`); modes are only compared for equality, so no behaviour depends on that.
- PatternCodec.NumericValue: models `Character.getNumericValue` on ASCII only: digits, Latin letters (10-35), and -1 for everything else. Non-ASCII numeric characters (other scripts' digits, Roman numerals, fractions) are not modelled.
- `LottieImageReplacer` asset reads, file writes, existence checks and deletion are I/O. Only their name and folder mappings are modelled.
- The overlay service, the settings and main activities, the style adapter, the mask and clipping views, and saved-state serialisation are UI, storage or framework code and are not part of this model.
