# Frame comparison against an expected image

This project models the `FrameComparer` class of `lib/frame-comparer.ts`,
the part of the video-testing library that answers: "does some frame of a
processed video, with a frame number in a given range, match an expected
image?"

- `processVideo` finishes by filling the frame list `_frames` from a listing
  of the frame storage directory. Each entry is resolved against the
  directory.
- `compareImageFromVideo` first checks that the expected image exists. If
  not, it rejects with `"<name> is not available!!!"`. Otherwise:
  - it clamps the end of the range to the number of frames;
  - it keeps the frames whose number lies in the inclusive range, in list
    order. The number is the path with every non-digit removed. JavaScript
    reads the empty string as 0;
  - it compares the kept frames one at a time with the expected image,
    using blink-diff, a percentage threshold equal to the caller's
    tolerance and delta 20. Each comparison writes a diff image to
    `<logStorage>/<basename of the frame path with its first ".png" turned into "_diff.png">`;
  - it settles `true` at the first comparison that passes, and `false` when
    none does.

## Structure

- `Comparison.FrameComparer` is a class. Its field `frames` is `_frames`;
  `None` stands for "still undefined".
- Blink-diff is `BlinkDiff.Engine`, an oracle. Its `verdict` decides whether
  a comparison passes, and `runs` logs every comparison it has been asked
  for, in order. The methods are proved against the specification
  functions `Comparisons`, `FirstAccepted` and `ScanRuns`, so a contract can
  say exactly which comparisons ran and in which order.
- The promise returned by `compareImageFromVideo` becomes `Outcome`:
  - `Rejected(message)` when the expected image is missing (line 12);
  - `Settled(found)` for the answer;
  - `Pending` when `_frames` is still undefined. Reading `.length` then
    throws inside the `async` promise executor. That exception only rejects
    the executor's own promise, so the returned promise never settles.
    That rejection is unhandled, and Node 15 and later end the process on an
    unhandled rejection by default. `Pending` is the state of the promise,
    not of the program; process termination is not modelled.
- The frame number, the range filter and the diff-image naming are pure
  functions in `FrameNumbers`, `FrameRange` and `PathNaming`. Lemmas state
  their properties.

The frame number reads every digit of the full path, not only the file
name. A digit in the storage directory's name is therefore read in front of
the frame index: frame 5 under `/tmp/run2` has number 25. The model keeps
this behaviour (`FrameNumbers.DirectoryDigitShiftsFrameNumber`). When
neither the directory nor the name prefix contains a digit, the number of
frame `n` is `n` (`FrameNumbers.ExtractedFrameNumberIsIndex`).

## Model

| member | source | states |
|---|---|---|
| Comparison.FrameComparer.CompareImageFromVideo | lib/frame-comparer.ts:10-35 | missing expected image: rejected with "`<name>` is not available!!!" and no comparison runs; undefined frame list: never settles and no comparison runs; otherwise settles to whether some comparison of the in-range frames passes, and the runs are exactly that scan's runs, in order; the frame list is unchanged |
| Comparison.FrameComparer.ScanFrames | lib/frame-comparer.ts:24-33 | the loop compares the kept frames in order, stops right after the first pass, and answers whether one passed |
| Comparison.FrameComparer.CompareFrame | lib/frame-comparer.ts:26-27 | one loop step runs exactly the comparison of the frame at that index, with its diff-image path, and returns the engine's verdict on it |
| Comparison.FrameComparer.CompareImages | lib/frame-comparer.ts:73-85 | exactly one engine run, with the options built from the arguments (output limit "all", delta 20), and its verdict is the result |
| BlinkDiff.Engine.Run | lib/frame-comparer.ts:87-109 | a run appends its options to the log and returns the verdict for them |
| Comparison.FrameComparer.CollectFrames | lib/frame-comparer.ts:52-58 | the frame list becomes the storage listing, in listing order, each entry resolved against the storage directory |
| Comparison.FrameComparer.constructor | lib/frame-comparer.ts:8 | a new comparer's frame list is undefined |
| Comparison.FoundIffSomeFramePasses | lib/frame-comparer.ts:15-33 | the answer is true if and only if some listed frame whose number lies between the start and the clamped end passes its comparison |
| Comparison.ScanRunCount | lib/frame-comparer.ts:24-33 | the runs are a prefix of the comparisons: first-pass index + 1 of them, or all of them when none passes; every run but the last fails; the last passes exactly when the answer is true |
| Comparison.ScanRunsForwardTolerance | lib/frame-comparer.ts:26-27 | every run compares an in-range listed frame with the expected image, using the caller's tolerance as a percentage threshold, delta 20, output limit "all", and that frame's diff-image path |
| Comparison.EmptyRangeComparesNothing | lib/frame-comparer.ts:15-33 | a start above the clamped end gives the answer false and no comparison at all |
| Comparison.FirstAcceptedIsFirst | lib/frame-comparer.ts:24-30 | the scan's stopping point is the first comparison that passes: all before it fail, and it passes if it is inside the list |
| Comparison.ComparisonsAt | lib/frame-comparer.ts:24-27 | the i-th comparison of the scan is the comparison for the i-th kept frame |
| Comparison.NotAvailable | lib/frame-comparer.ts:12 | the message of the missing-image error, the expected image's name followed by " is not available!!!"; `CompareImageFromVideo` rejects with it |
| Comparison.CompareOptions | lib/frame-comparer.ts:74-82 | the blink-diff options: images A and B, the diff output path, output limit "all", the threshold type and value, delta 20; `CompareImages` runs the engine on exactly these |
| Comparison.FrameComparison | lib/frame-comparer.ts:26-27 | the options for one frame: the frame against the expected image, its diff-image path, the caller's tolerance as a percentage threshold; `ScanRunsForwardTolerance` proves every run has this form |
| Comparison.FirstAccepted | lib/frame-comparer.ts:24-30 | the position at which the scan stops: the first comparison that passes, or the number of comparisons; never beyond the list, and `FirstAcceptedIsFirst` proves it is the first pass |
| Comparison.ScanRuns | lib/frame-comparer.ts:24-33 | the comparisons the scan runs: up to and including the first pass, or all of them; `ScanRunCount` proves their number and verdicts |
| Comparison.ResolvedListing | lib/frame-comparer.ts:54-58 | the storage listing with each entry resolved against the storage directory, in listing order; `CollectFrames` is proved to build it |
| Comparison.Comparisons | lib/frame-comparer.ts:24-27 | one comparison per kept frame |
| Comparison.ScanStopsAt | lib/frame-comparer.ts:28-29 | a pass at a position the scan has reached ends the scan there, and the runs are the comparisons up to and including it |
| Comparison.ScanPassesOver | lib/frame-comparer.ts:24-31 | a failing comparison at a position the scan has reached lets the scan continue past it |
| FrameRange.EffectiveEnd | lib/frame-comparer.ts:15 | the clamped end is the smaller of the requested end and the number of frames |
| FrameRange.InRange | lib/frame-comparer.ts:18 | the inclusive range test on a frame number: at least the start and at most the end |
| FrameRange.FramesInRange | lib/frame-comparer.ts:15-23 | the filter applied with the clamped end; `SelectedFramesRespectClamp` and `EmptyRangeSelectsNothing` state what it selects |
| FrameRange.FilterFrames | lib/frame-comparer.ts:16-23 | the filter never lengthens the list |
| FrameRange.FilterMembership | lib/frame-comparer.ts:16-23 | a frame is kept if and only if it is listed and its number lies in the inclusive range |
| FrameRange.FilterKeepsExactlyTheFramesInRange | lib/frame-comparer.ts:16-23 | each in-range frame is kept as many times as it is listed, and every other frame is dropped |
| FrameRange.FilterIsSubsequence | lib/frame-comparer.ts:16-23 | the filter only deletes frames; the kept frames keep their order |
| FrameRange.FilterOfConcat | lib/frame-comparer.ts:16-23 | filtering two concatenated lists is the concatenation of the filtered lists |
| FrameRange.FilterKeepsAllInRange | lib/frame-comparer.ts:16-23 | when every frame is in range, the filter returns the list unchanged |
| FrameRange.FilterOfEmptyRange | lib/frame-comparer.ts:18 | a range whose start is above its end keeps nothing |
| FrameRange.EmptyRangeSelectsNothing | lib/frame-comparer.ts:15-23 | a start above the clamped end selects no frame |
| FrameRange.SelectedFramesRespectClamp | lib/frame-comparer.ts:15-23 | every selected frame is listed, and its number is at least the start and at most both the requested end and the number of frames |
| FrameNumbers.FrameNumber | lib/frame-comparer.ts:17-18 | the number a frame path is compared by: its digit string read as a decimal number, the empty string as 0; `FrameNumberWithoutDigits`, `NonDigitTextDoesNotCount`, `FrameNumberOfJoin` and `ExtractedFrameNumber` state its value |
| FrameNumbers.DecimalValue | lib/frame-comparer.ts:18 | a digit string read as a decimal number; `NumeralRoundTrip`, `DecimalValueRoundTrip` and `DecimalValueOfConcat` characterise it against `Numeral` |
| FrameNumbers.Digits | lib/frame-comparer.ts:17 | removing the non-digits leaves only digits |
| FrameNumbers.DigitsEmptyIffNoDigits | lib/frame-comparer.ts:17 | nothing is left if and only if the path has no digit |
| FrameNumbers.FrameNumberWithoutDigits | lib/frame-comparer.ts:17-18 | a path with no digit has number 0, because the empty string reads as 0 |
| FrameNumbers.DigitsKeepExactlyTheDigits | lib/frame-comparer.ts:17 | every digit is kept as many times as it occurs, and every other character is dropped |
| FrameNumbers.DigitsOfConcat | lib/frame-comparer.ts:17 | digit removal distributes over concatenation |
| FrameNumbers.DigitsIdempotent | lib/frame-comparer.ts:17 | removing non-digits twice gives the same result as once |
| FrameNumbers.AllDigitsAreKept | lib/frame-comparer.ts:17 | a string of digits is unchanged |
| FrameNumbers.Numeral | lib/frame-comparer.ts:68 | the numeral ffmpeg writes for `%d` is a non-empty string of digits |
| FrameNumbers.NumeralRoundTrip | lib/frame-comparer.ts:18 | reading the numeral written for a frame (line 68) gives the number back |
| FrameNumbers.DecimalValueRoundTrip | lib/frame-comparer.ts:18 | writing the value of a digit string with no leading zero gives the string back |
| FrameNumbers.DecimalValueOfConcat | lib/frame-comparer.ts:18 | reading concatenated digit strings: the value of the first, shifted by the length of the second, plus the value of the second |
| FrameNumbers.LeadingDigitPositive | lib/frame-comparer.ts:18 | a digit string with a non-zero first digit reads as a positive number |
| FrameNumbers.NonDigitTextDoesNotCount | lib/frame-comparer.ts:17-18 | two paths that differ only in a piece of text without digits have the same frame number |
| FrameNumbers.DigitsOfJoin | lib/frame-comparer.ts:17 | a path resolved at line 56's digits are the directory's digits followed by the name's |
| FrameNumbers.FrameNumberOfJoin | lib/frame-comparer.ts:17-18 | in a path resolved at line 56, the directory's digits are read in front of the name's digits |
| FrameNumbers.DigitsOfFramePath | lib/frame-comparer.ts:17 | the digits of the path of a frame extracted at lines 44, 56 and 68 are the directory's, then the prefix's, then the frame numeral |
| FrameNumbers.ValueAfterLead | lib/frame-comparer.ts:18 | a numeral read after leading digits adds the number to the shifted value of those digits |
| FrameNumbers.ExtractedFrameNumber | lib/frame-comparer.ts:17-18 | the number of frame n as extracted at lines 44, 56 and 68 is the value of the directory's and prefix's digits, shifted by the width of n, plus n |
| FrameNumbers.ExtractedFrameNumberIsIndex | lib/frame-comparer.ts:17-18 | with no digit in the directory or the prefix, frame n as extracted at lines 44, 56 and 68 has number n |
| FrameNumbers.DirectoryDigitShiftsFrameNumber | lib/frame-comparer.ts:17-18 | a digit at the end of the name of the directory a frame is resolved against (line 56) is read in front of the frame's numeral |
| PathNaming.Join | lib/frame-comparer.ts:56 | `resolve(dir, name)` for a plain name: the name under the directory; `BasenameOfJoin` proves `basename` undoes it |
| PathNaming.ReplaceFirst | lib/frame-comparer.ts:26 | `replace` with a string pattern: only the first occurrence is replaced; `ReplaceFirstAtFirstOccurrence` and `ReplaceFirstWithoutOccurrence` characterise it |
| PathNaming.DiffImagePath | lib/frame-comparer.ts:26 | the diff-image path of a frame: the base name of the frame path with its first ".png" turned into "_diff.png", under the log directory; `DiffImageOfFrameName` gives its value whenever the directory holds no ".png", `DiffImageWhenDirectoryHoldsPng` when it does, `DiffImageWithoutPng` when the path holds none, and `DiffImageOfPngFrame` for the usual `dir/stem.png` |
| PathNaming.IndexFrom | lib/frame-comparer.ts:26 | a found occurrence lies entirely inside the string |
| PathNaming.IndexOf | lib/frame-comparer.ts:26 | a found occurrence lies entirely inside the string |
| PathNaming.IndexFromFindsFirst | lib/frame-comparer.ts:26 | the search finds the first occurrence at or after its start, and finds none only when there is none |
| PathNaming.IndexOfFindsFirst | lib/frame-comparer.ts:26 | `indexOf` finds the first occurrence, and reports none if and only if the pattern does not occur |
| PathNaming.ReplaceFirstAtFirstOccurrence | lib/frame-comparer.ts:26 | a string-pattern `replace` cuts out the first occurrence and puts the replacement in its place |
| PathNaming.ReplaceFirstWithoutOccurrence | lib/frame-comparer.ts:26 | without an occurrence, `replace` changes nothing |
| PathNaming.StripTrailingSlashes | lib/frame-comparer.ts:26 | stripping never lengthens the path |
| PathNaming.StripTrailingSlashesRemovesOnlySeparators | lib/frame-comparer.ts:26 | the result is a prefix that does not end in a separator, and only separators are removed |
| PathNaming.LastSegment | lib/frame-comparer.ts:26 | the last segment contains no separator |
| PathNaming.LastSegmentIsSuffix | lib/frame-comparer.ts:26 | the last segment is a suffix, preceded by a separator unless it is the whole string |
| PathNaming.Basename | lib/frame-comparer.ts:26 | a base name contains no separator |
| PathNaming.LastSegmentOfJoin | lib/frame-comparer.ts:26 | the last segment of `dir/name` is `name` |
| PathNaming.BasenameOfJoin | lib/frame-comparer.ts:26 | `basename` undoes `resolve` for a non-empty name with no separator |
| PathNaming.DiffImageOfPngFrame | lib/frame-comparer.ts:26 | for a frame `dir/stem.png` whose first ".png" is its extension, the diff image is `logStorage/stem_diff.png` |
| PathNaming.DiffImageWhenDirectoryHoldsPng | lib/frame-comparer.ts:26 | when the directory contains ".png", that occurrence is the one replaced, and the diff image takes the frame's own name: `logStorage/name` |
| PathNaming.DiffImageWithoutPng | lib/frame-comparer.ts:26 | a frame path with no ".png" gives the diff image `logStorage/<basename of the frame path>` |
| PathNaming.OccursInJoinedName | lib/frame-comparer.ts:26 | past the separator, a pattern occurs in `dir/name` exactly where it occurs in `name` |
| PathNaming.NoEarlierOccurrenceInJoin | lib/frame-comparer.ts:26 | with no occurrence before the separator and none early in `name`, there is none early in `dir/name` |
| PathNaming.ReplaceFirstInJoinedNameAt | lib/frame-comparer.ts:26 | with no occurrence before the separator, the first occurrence in `name` is the one replaced in `dir/name` |
| PathNaming.ReplaceFirstInJoinedNameWithout | lib/frame-comparer.ts:26 | with no occurrence in `dir/name` before the name and none in `name`, the replacement changes neither |
| PathNaming.ReplaceFirstInJoinedName | lib/frame-comparer.ts:26 | with no occurrence before the separator, replacing in `dir/name` is replacing in `name` |
| PathNaming.ReplaceFirstKeepsNameSeparatorFree | lib/frame-comparer.ts:26 | replacing with separator-free text keeps a separator-free name separator-free |
| PathNaming.DiffImageOfFrameName | lib/frame-comparer.ts:26 | for a frame `dir/name` whose directory holds no ".png", the diff image is `logStorage/` followed by `name` with its first ".png" turned into "_diff.png", wherever that ".png" is (`x.png.bak` gives `x_diff.png.bak`) |

## Left out

- The ffmpeg extraction in `processVideo` (lines 37-51 and 59-69) is not modelled: decoding, the progress and error handlers, and console output. The listing of the storage directory is a parameter of `CollectFrames`. `_frameStorageFullName` (line 38), which nothing reads after `processVideo`, is not modelled either.
- `cleanDir`, `isDirectory` and the other file-system helpers are not modelled. `existsSync(expectedImageFullName)` is the boolean parameter `expectedExists`.
- Blink-diff's image comparison is not modelled: decoding, pixel differences, thresholds and writing the diff image. The engine is an oracle whose verdict stands for `hasPassed(result.code)`.
- An error passed to the blink-diff callback (lines 90-91) is not modelled. It is thrown inside a callback and never settles the comparison promise.
- `console.log` output (lines 25, 97-98, 102-103) is not modelled.
- Promise scheduling and `await` are not modelled. The comparisons are sequential, and `Outcome` records how the returned promise ends.
- `PathNaming.Join`: paths follow POSIX `path` semantics; the Windows forms of `path.resolve` and `path.basename`, with `\` as a separator and drive letters, are not modelled. `path.resolve` is modelled as `dir + "/" + name`. The working-directory prefix of a relative directory and the normalisation of `.`, `..` and repeated separators are not modelled.
- `PathNaming.ReplaceFirst`: `$` substitution patterns in the replacement string are not modelled. The only replacement the source uses, `"_diff.png"`, contains none.
- `FrameNumbers.FrameNumber`: the digit string is read as an exact integer. JavaScript's rounding of numerals beyond 2^53 is not modelled.
- Range bounds are integers. Comparisons with non-numeric, fractional or missing bounds (JavaScript's `undefined`, `NaN`, or a string bound compared as text) are not modelled.
- Default arguments are not modelled: the default tolerance 0.2 of `compareImageFromVideo` (line 10) and the default threshold 0.01 of `compareImages` (line 73). Every call in the model passes its arguments explicitly. The one call of `compareImages` (line 27) omits only the threshold type, and the model passes its default, the percentage threshold, explicitly.
- video-comparer.ts and index.ts are not part of this model. video-comparer.ts holds an earlier, separate class, `VideoComparer`, which does not use `FrameComparer`. index.ts is the entry point that exports `FrameComparer` and `createFrameComparer`.
