# Cell tracker core in Dafny

This project models the core of a cell tracker. The tracker takes a table
of ellipse detections, one row per cell per image frame, and chains the
detections into tracks.

- **Greedy grouper.** `group` in src/util.py and `Data.sort` in src/data.py.
  The grouper repeatedly takes the first remaining detection and picks the
  frame-wise nearest detections around it. It runs two proximity passes and
  a size filter. `sort` turns the groups into tracks with shuffled IDs
  `0..k-1` when they cover enough frames, and into rejects with ID -1
  otherwise.
- **Refinement rules** in src/data.py:
  - the constructor;
  - one `_improve` round: remember the best RMS snapshot, reassign every row
    to its best or second-best scoring track, then `remove_distant` and
    `remove_duplicates`;
  - `improve`, which runs the rounds and restores the best snapshot;
  - `add_time`.
- **Helpers** from src/util.py: `distance`, `get_rms`, `get_frequency` and
  `num_sorted`.
- **Frame timing** of src/getfps.py. It reads each image's slice number from
  its file name and the clock from its stamp, counts the frames of every
  second, and derives the start time, the interior rates and a
  slice-to-time dictionary.

Modules, one per concern:

- `Wrappers`: `Option` and `Result`, with Python's exceptions as `Exception`.
- `Seqs`: filter, map, flatten, a stable insertion sort and multiset facts.
- `Numeric`:
  - pandas division, with an infinity or NaN for a zero divisor;
  - means;
  - the linear-interpolation quantile.
- `Geometry`: points, squared distance and centroids.
- `Detections`: the row record and label bookkeeping.
- `Grouping`: `group` and the repeated grouping loop of `sort`.
- `Sorting`: `sort`.
- `Scoring`:
  - the score table;
  - the best and second-best columns;
  - the reassignment rule;
  - `get_rms`.
- `Pruning`: `remove_distant` and `remove_duplicates`.
- `Refinement`: the `Data` record, `_improve`, `improve` and `add_time`.
- `Frequency`: `get_frequency`.
- `Text`:
  - Python's `int()` on ASCII text;
  - `str.split`, `str.replace` with an empty replacement;
  - `num_sorted`.
- `FrameTiming`: `Fps`.

Choices that shape the model:

- **Numbers.**
  - Floats are reals.
  - `distance` is compared through its square, so no square root is needed
    there.
  - The square root of `get_rms` is a function parameter `root`. Lemmas
    assume it is a true square root (`IsRoot`).
  - NaN and the infinities that pandas produces are the `Ext` datatype.
- **Inputs.**
  - The random shuffle of `sort` is a parameter that must return a
    permutation.
  - The random-forest scorer is a parameter mapping a round number and a
    table to a score table.
  - The stamps that exifread reads from the image files are part of the
    input (`Image.stamp`).
- **Row labels.** A row label is the `row` field of a detection, which is
  the pandas index. The label-based `.loc` updates are modelled on sets of
  labels. `sort` and `improve` order rows with `sort_values(by=" ")`, the
  row-number column that ImageJ writes first. The model takes that column
  to order rows exactly as the index does, which holds for tables that
  `read_csv` reads from ImageJ output, and sorts by `row`.

## Model

| member | source | states |
|---|---|---|
| Geometry.DistanceLaws | src/util.py:9-18 | The squared distance is non-negative and symmetric, and it is zero exactly when the two points coincide. |
| Geometry.WithinMatchesDistance | src/util.py:9-18 | Comparing the squared distance with a squared limit agrees with comparing the Euclidean distance with the limit. |
| Numeric.Divide | src/util.py:100 | Pandas column division: finite exactly when the divisor is non-zero, in which case the quotient times the divisor gives back the dividend; NaN exactly for 0/0. |
| Numeric.Quantile | src/util.py:32 | An empty column gives NaN. Otherwise, when `q*(n-1)` is a whole number `k`, the quantile is the `k`-th smallest value, so `q = 0` gives the minimum and `q = 1` the maximum; it always lies between two of the values. |
| Numeric.Interpolate | src/util.py:40 | On a sorted column, at a whole position `q*(n-1) = k` the interpolated quantile is the `k`-th value; otherwise it lies between the values at the whole positions just below and just above `q*(n-1)`. |
| Grouping.Nearest | src/util.py:26-30 | Keeps exactly the rows that are nearest to the seed within their own frame, ties included. |
| Grouping.ProximityFilter | src/util.py:32-33 | Keeps exactly the rows no farther from the centre than the 0.9 quantile of the group's major axes. |
| Grouping.SizeFilter | src/util.py:42 | Keeps exactly the rows whose major axis is at most 1.3 times the group's median. |
| Grouping.SecondPass | src/util.py:35-42 | Around the centroid of the first pass, keeps exactly the rows that pass the frame-nearest, proximity and size filters; nothing is kept when the first pass is empty. |
| Grouping.Group | src/util.py:21-50 | The group is never empty and is taken from the pool. The remaining pool is every row whose label is not in the group, and it is strictly smaller. |
| Grouping.GroupShape | src/util.py:44-45 | The group is the filtered second pass when that is non-empty, and otherwise the seed row alone. |
| Grouping.SeedKept | src/util.py:26-33 | With non-negative major axes, the seed survives its own first pass, so the second pass always has a centre. |
| Grouping.GroupSplitsPool | src/util.py:47 | Group and remainder partition the pool as multisets and share no row. |
| Grouping.GroupsPartition | src/data.py:26-28 | The groups of the `while` loop together hold every row of the table exactly once. |
| Grouping.GroupsNonEmpty | src/data.py:26-28 | Every group the loop produces is non-empty. |
| Sorting.TrackIds | src/data.py:41-42 | The shuffled IDs are a permutation of `0..k-1`, so they are distinct and in range. |
| Sorting.SortKeepsRows | src/data.py:34-50 | Every input row appears exactly once in the sorted table, changed at most in its ID. |
| Sorting.SortIds | src/data.py:34-50 | A covering group's rows get that group's shuffled ID, and a non-covering group's rows get -1. No row gets any other ID. |
| Sorting.SortAsWritten | src/data.py:34-50 | `sort` as written raises exactly when no group is a reject. Otherwise its result equals the corrected `Sort`. |
| Sorting.SortAsWrittenFailsOnOneRow | src/data.py:37 | On a one-row table the code as written raises, while the corrected sort returns the row as track 0. |
| Scoring.LastMax | src/data.py:63 | The column reversed `argsort` ranks first: the largest score, with ties going to the later column. |
| Scoring.Ranks | src/data.py:62-64 | The first and second columns of the reversed `argsort`: the best column, then the best of the rest. |
| Scoring.TopUnique | src/data.py:63 | The best column is unique. |
| Scoring.SecondUnique | src/data.py:63 | The second-best column is unique. |
| Scoring.NewId | src/data.py:66-71 | The new ID is a score column: the best one if its score exceeds 0.8 or it differs from the current ID, otherwise the second best. |
| Scoring.KeepsIdIff | src/data.py:66-71 | A row keeps its ID exactly when its own ID is the best column and scores above 0.8. |
| Scoring.Reassign | src/data.py:66-71 | Every row gets its `NewId` and only its ID changes. Fewer than two score columns raise. |
| Scoring.NoTrackColumns | src/util.py:75 | There are no track columns exactly when every score column is -1. |
| Scoring.GetRms | src/util.py:71-77 | With no track column, `get_rms` raises ZeroDivisionError. It is NaN exactly when some track column has no rows, and finite otherwise. |
| Scoring.RmsNonNegative | src/util.py:71-77 | A finite RMS is never negative. |
| Scoring.RmsZeroIff | src/util.py:71-77 | A finite RMS is zero exactly when every track row scores exactly 1 for its own track. |
| Pruning.Core | src/data.py:104 | The rows at the smallest distance from the centre: never empty, and exactly the innermost rows. |
| Pruning.RemoveDistant | src/data.py:96-107 | Only IDs change, and only to -1. A row is sent to -1 exactly when it is a track row lying farther than 1.1 times the 0.9 quantile of its track's major axes from the refined centre. |
| Pruning.RemoveDistantLoopIsSimultaneous | src/data.py:98-107 | The loop over the set of IDs, in any order, gives the same table as pruning every track at once. |
| Pruning.RemoveDuplicates | src/data.py:109-123 | Only IDs change, and only to -1. It raises IndexError exactly when a duplicated track ID has no score column. |
| Pruning.DuplicatesRule | src/data.py:111-123 | A row is sent to -1 exactly when it is a track row that shares its slice and ID with a row scoring strictly more for that ID. |
| Pruning.SurvivorsTie | src/data.py:121-123 | Rows that still share slice and track ID afterwards score the same for that ID. |
| Pruning.GroupKeepsBest | src/data.py:114-123 | Every duplicated slice-and-ID pair keeps at least one row. |
| Refinement.SliceCount | src/data.py:11 | `Slice.max()` is NaN for an empty table, and otherwise a slice of some row that no row exceeds. |
| Refinement.Prepared | src/data.py:16-18 | Only Angle and AspectRatio change. Angle becomes 180 minus itself, and AspectRatio is finite exactly for a non-zero Minor, in which case it times Minor gives Major. |
| Refinement.Load | src/data.py:6-18 | `best` is the untransformed input and `rms` starts at 1. The frame count comes from `SliceCount`. The table is kept when it has IDs and transformed row by row otherwise. |
| Refinement.Remember | src/data.py:56-59 | The stored RMS never grows. The snapshot becomes the current table exactly on a strict improvement, and a NaN RMS changes nothing. |
| Refinement.ImproveRound | src/data.py:52-75 | One round changes IDs only and leaves only score-column IDs or -1. It raises when there is no track column. When it does not raise, the RMS of its input table is defined; if that RMS is finite and below the stored one it becomes the stored RMS with the input table as snapshot, and otherwise both stay. |
| Refinement.Rounds | src/data.py:81-84 | Over any number of rounds the RMS never grows and the table changes in IDs only. The snapshot is the old one or a table differing only in IDs. The frame count and start time are unchanged. That the stored RMS is the lowest one seen is Refinement.RoundsLowest. |
| Refinement.ScoredRms | src/data.py:52-59 | Each trial the rounds record is the RMS that round's scorer call gives the table the round scored. |
| Refinement.RoundsLowest | src/data.py:52-84 | The loop scores one table per round. Afterwards the stored RMS is at most the starting RMS and at most every finite RMS a round scored. Either it and the snapshot are the starting ones, or it is below the starting RMS and the snapshot is a table a round scored at exactly that RMS. |
| Refinement.Improve | src/data.py:77-94 | Fewer than one round leaves the data alone. Otherwise the RMS never grows and the working table is the restored snapshot in row-label order. The frame count and start time are unchanged. That the snapshot has the lowest RMS seen is Refinement.ImproveLowest. |
| Refinement.TriedRms | src/data.py:77-94 | Each table `improve` scores, in the rounds and in the final comparison, is recorded with the RMS that call's scorer gives it. |
| Refinement.ImproveLowest | src/data.py:77-94 | `improve` scores `rounds + 1` tables. The restored RMS is at most the starting RMS and every finite RMS seen. Either it and the snapshot are the starting ones, or it is below the starting RMS and the snapshot is a table that scored exactly that RMS. |
| Refinement.ImproveBestScored | src/data.py:88-94 | A snapshot restored in place of the starting one beats the starting RMS, and some scorer call gives that table exactly the stored RMS. |
| Refinement.WithTimes | src/data.py:126 | Every row gets its frame's time. A frame missing from the dictionary raises KeyError with a missing frame of some row. |
| Refinement.AddTime | src/data.py:125-127 | The Time column is filled from the dictionary and the start time set; every other field of the data is unchanged. It raises exactly when a row's frame is missing. |
| Frequency.Wrap | src/util.py:83-84 | A turn is shifted by at most half a turn into (-90, 90] when it lies within [-180, 180]; turns already in range are kept. |
| Frequency.Turns | src/util.py:81-84 | One wrapped angle difference per consecutive pair of samples. |
| Frequency.Smooth | src/util.py:90-92 | The centred rolling mean of five replaces each turn that has two neighbours on each side; the rest are kept. |
| Frequency.SmoothInRange | src/util.py:90-92 | Smoothing keeps every turn within (-90, 90]. |
| Frequency.Cumulative | src/util.py:93-94 | The running sum starts at 0 and adds one turn per row. |
| Frequency.WrappedTotal | src/util.py:81-94 | Before smoothing, the cumulative rotation differs from the raw angle change by a whole number of half turns. |
| Frequency.GetFrequency | src/util.py:79-100 | An empty table raises IndexError. Otherwise there is one row per sample. The first row has no rotation (NaN), a zero cumulative rotation and a NaN frequency. Every later row has as rotation the absolute smoothed turn into it, and a cumulative rotation that exceeds the previous row's by that signed turn. Its frequency is finite exactly when the time advances, and then times 360 times the time step it gives the rotation. |
| Frequency.SpinsRows | src/util.py:91-100 | From any list of turns, every row after the first has the absolute turn as rotation and adds the signed turn to the running total. Its frequency is finite exactly when the time advances, and then times 360 times the time step it gives the rotation. |
| Frequency.RotationBounded | src/util.py:97 | With angles in [0, 180], no absolute rotation exceeds 90 degrees. |
| Frequency.ShortTrackTotal | src/util.py:86-94 | On tracks of at most five rows, the cumulative rotation equals the angle change up to whole half turns. |
| Text.ParseInt | src/getfps.py:9 | `int()` succeeds exactly on an optionally signed run of digits, and otherwise raises ValueError. An unsigned literal is non-negative. |
| Text.ParseShowNat | src/getfps.py:15-17 | `int()` reads back every decimal numeral, with or without a minus sign. |
| Text.SplitJoin | src/getfps.py:15-17 | Splitting what `join` built gives back the pieces when no piece contains the separator. |
| Text.SplitPieces | src/getfps.py:15-17 | No piece of a split contains the separator. |
| Text.LastPieceAfter | src/getfps.py:9 | `split(c)[-1]` is the text after the last separator, and there are at least two pieces. |
| Text.RemoveTrailing | src/getfps.py:9 | `replace(pat, "")` removes a trailing copy of the pattern when the pattern's first character occurs nowhere else. |
| Text.NumSorted | src/util.py:103-104 | `num_sorted` raises ValueError exactly when some string has no digit. Otherwise it returns a permutation ordered by the number its digits spell. |
| Text.NumSortedStable | src/util.py:103-104 | Strings with the same number keep their input order. |
| Text.NumberedName | src/util.py:103-104 | A name whose only digits are one decimal numeral sorts by that number. |
| FrameTiming.Collect | src/getfps.py:7-11 | A list comprehension whose element expression may raise: it succeeds exactly when every element succeeds, with the values in order. |
| FrameTiming.CollectFirstError | src/getfps.py:7-11 | The exception raised is that of the first element that raises. |
| FrameTiming.SliceOf | src/getfps.py:9 | Reading a slice number fails only with ValueError. |
| FrameTiming.SliceOfNumbered | src/getfps.py:9 | A name `prefix-N.tif` whose prefix has no dot reads as slice N. |
| FrameTiming.SecondOf | src/getfps.py:14-17 | A clock without three colon-separated fields after its last space never reads. With three fields, any failure is ValueError. |
| FrameTiming.SecondOfClock | src/getfps.py:14-17 | A stamp `date h:m:s` reads as `h*3600 + m*60 + s`. |
| FrameTiming.Frames | src/getfps.py:7-12 | When the table can be built, it has one frame per image, in non-decreasing slice order. |
| FrameTiming.FramesReadAll | src/getfps.py:7-17 | The table can be built exactly when every name and every stamp is readable. It then holds the images' frames, rearranged. |
| FrameTiming.Ascending | src/getfps.py:20 | The distinct seconds, each once, in increasing order. |
| FrameTiming.CountOf | src/getfps.py:20 | The number of frames in a second is positive exactly when some frame falls in it. |
| FrameTiming.Counts | src/getfps.py:20 | `groupby("Time").size()`: seconds strictly increase, every count is positive, and every frame's second has a row. |
| FrameTiming.CountsRows | src/getfps.py:20 | Every row is a second of some frame and holds that second's frame count. |
| FrameTiming.CountsTotal | src/getfps.py:20 | The counts add up to the number of frames. |
| FrameTiming.CountsStartEarliest | src/getfps.py:20-21 | The first row's second is no later than any frame's. |
| FrameTiming.TwoSeconds | src/getfps.py:20-21 | There are two rows exactly when two frames fall in different seconds. |
| FrameTiming.Start | src/getfps.py:21 | The start lies between the first second and one second later. It equals the first second exactly when the first count reaches the second count, and it is one second later exactly when the first count is zero. |
| FrameTiming.SummarizeStart | src/getfps.py:21 | The start lies in [t0, t0 + 1), where t0 is the earliest frame's second. It equals t0 exactly when the first second is at least as full as the next. |
| FrameTiming.Values | src/getfps.py:23 | The counts of every row but the first and the last, in order. |
| FrameTiming.ValuesInterior | src/getfps.py:23 | The values are the frame counts of the seconds strictly between the first and the last second. |
| FrameTiming.Edged | src/getfps.py:25-28 | Interior rows are unchanged and counts only grow. The first count becomes the larger of the first two. The last becomes the larger of the last two, after the first was corrected. |
| FrameTiming.EdgedSettled | src/getfps.py:25-28 | After the correction both edges are at least their neighbours, and a second correction changes nothing. |
| FrameTiming.RateOfRow | src/getfps.py:31 | Summing the counts of the rows for a second gives that row's count. |
| FrameTiming.RateOfFrame | src/getfps.py:31 | A frame's rate is the corrected count of its second. For an interior second that is the second's own frame count. |
| FrameTiming.Times | src/getfps.py:32-33 | The first time is 0, and each later time adds the previous frame's period. |
| FrameTiming.Period | src/getfps.py:32 | One over a positive rate lies in (0, 1]. |
| FrameTiming.TimesIncrease | src/getfps.py:32-33 | Times strictly increase. |
| FrameTiming.TimesBounded | src/getfps.py:32-33 | The i-th time is at most i seconds. |
| FrameTiming.SteadyTimes | src/getfps.py:32-33 | At a constant rate, the i-th time is i over the rate. |
| FrameTiming.TimelineSteps | src/getfps.py:31-33 | The frame times start at 0 and increase by the previous frame's period. |
| FrameTiming.Renumbered | src/getfps.py:35 | The slices shift so that the smallest is 1. All are at least 1 and every difference between slices is kept. |
| FrameTiming.TimeTable | src/getfps.py:38 | The dictionary's keys are exactly the renumbered slices. |
| FrameTiming.TimeTableAt | src/getfps.py:38 | A slice that no later row repeats maps to its own time. |
| FrameTiming.SummarizeTimes | src/getfps.py:35-38 | A frame whose slice is unique maps, once renumbered, to its own time. |
| FrameTiming.Summarize | src/getfps.py:20-38 | Fewer than two seconds raise IndexError, and only then. |
| FrameTiming.GetFps | src/getfps.py:5-38 | No images at all raise IndexError. |
| FrameTiming.GetFpsSucceeds | src/getfps.py:5-38 | `Fps` succeeds exactly when every name and stamp is readable and two stamps read as different seconds. |
| FrameTiming.SpreadKept | src/getfps.py:12 | Reordering the frames does not change whether they span two seconds. |

## Left out

- Reading files is left out. That covers `load_files`, EXIF reading and
  opening images. The stamps and detection tables are inputs.
- Progress printing in `sort` and `improve` is left out. It has no effect
  on the results.
- The random forest (`Model`, `predict`) is left out; it is foreign code.
  It is the `scorer` parameter, which maps a round and a table to a score
  table.
- `random.shuffle` is a parameter. Its only assumed property is that it
  returns a permutation.
- The square root is not modelled. Distances are compared through their
  squares. `get_rms` takes the root as a parameter, and its lemmas assume a
  true square root.
- `get_results`, the diffusion and Brownian analysis, plotting and the GUI
  are outside the core.
- Floating point is modelled as exact reals. Rounding, overflow and
  `0.185e-6` style constants that only serve the results are not modelled.
- Text.ParseInt: Python's `int()` also accepts surrounding whitespace,
  underscores between digits and non-ASCII digits. Only an optional `+` or
  `-` sign and ASCII digits are modelled.
- Text.NumSorted: `str.isnumeric` also accepts other Unicode numerals; only
  ASCII digits are modelled. Python's `sorted` is stable, as is the
  insertion sort used here.
- FrameTiming.Frames: `sort_values` uses pandas' default quicksort, which
  is not stable. The model uses a stable sort, so frames sharing a slice
  number may be listed, and so timed, in a different order than pandas
  gives.
- FrameTiming.SummarizeTimes: when two images share a slice number, the
  dictionary keeps the later row. Only the unique-slice case is stated.
- Pruning.RemoveDistant: the loop over `set(IDs)` visits tracks in an
  order Python does not fix. `RemoveDistantLoopIsSimultaneous` proves every
  order gives the same table when row labels are distinct, and the rest of
  the model uses the simultaneous form.
- Refinement.Improve: the `score` attribute is not modelled. `improve`
  ends with `self.predict()` (src/data.py:87) and does not clear `score`
  afterwards. A later `_improve`, as in a second `improve(rounds >= 1)` on
  the same data or `predict()` followed by `improve`, then evaluates `not`
  on a DataFrame at src/data.py:54, which raises ValueError. The model
  starts every `improve` with no score, as a fresh `Data` does. Within one
  `improve`, `_improve` clears `score` after each round (src/data.py:75),
  so each round predicts afresh, as the `scorer` parameter models.
- Pruning.RemoveDuplicates: rows tied at the group's maximum all keep
  their ID, because `!= score_pair.max()` (src/data.py:121) marks only the
  rows below it. `SurvivorsTie` states what remains.
- Scoring.Ranks: the tie order follows a stable ascending `argsort`
  reversed. NumPy's default `argsort` is a quicksort whose tie order is not
  specified, so tied scores may rank differently there.
- Idempotence of the pruning passes is not claimed. Pruning moves a
  track's centre, so a second pass may prune further rows.

## Findings

| source | as written | input that shows it | evidently intended | confidence | as-written member | corrected member |
|---|---|---|---|---|---|---|
| src/data.py:37 | `bad = pd.concat(bad)` runs even when every group covers enough frames, and `pd.concat([])` raises ValueError | a one-row table: its one group covers its one frame, so `bad` is empty | with no rejects, the table is just the tracks | not executed | Sorting.SortAsWrittenFailsOnOneRow | Sorting.Sort |
