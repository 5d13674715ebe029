# Photo clustering by capture-time gaps, in Dafny

A photogrammetry rig photographs a specimen as follows:

- The specimen turns on a turntable (a *rotation*).
- At each turntable position the camera takes a short bracket of exposures.
- Between sets of rotations an operator moves the tripod (a new *angle*).

`python_scripts/cluster_photos_by_time_intervals.py` recovers this structure from capture times alone. It works in four steps:

1. It sorts the photos by timestamp.
2. It takes the gap between each pair of consecutive photos.
3. It gives each gap a level:
   - 0: between angles;
   - 1: between rotations of one angle;
   - 2: between exposures of one rotation.
4. It walks the levels with two counters, `angle_id` and `rotation_id`, and creates `angle_<a>/rotation_<r>` directories as the counters move. Each photo is copied into the current rotation directory, or moved when no output directory is given.

This project models that core and proves what it guarantees.

| module | file | models |
|---|---|---|
| `Results` | results.dfy | the `Result` type and the failures a run can end in |
| `Sorting` | sorting.dfy | Python's stable `list.sort(key=…)`, as an insertion sort on sequences |
| `Intervals` | intervals.dfy | the chronological sort and the gap list |
| `MixtureTranslator` | translator.dfy | `use_gmm_to_cluster_intervals`: components ranked by descending mean, component id → level |
| `Classifier` | classifier.dfy | `cluster`, in threshold mode and in buffering (mixture) mode |
| `OutputTree` | output_tree.dfy | the output directory: the angle and rotation directories that exist, and the log of placed photos |
| `Hierarchy` | hierarchy.dfy | the directory-building loop of `main` and its specification |
| `Pipeline` | pipeline.dfy | `main` from the photo list on |

## How the pieces fit

- **Gaps.** Timestamps are `real` seconds. `Intervals.Gaps` is proved lossless up to the first timestamp. It is also proved non-negative exactly when the photos are in order, which the sort guarantees.
- **Mixture fit.** The Gaussian mixture fit is an *oracle*, a function parameter `gmm: (samples, n) -> Fit`. A fit holds `n` means and, for each sample, a component below `n`. All that is proved about `use_gmm_to_cluster_intervals` concerns the translator it builds from the means. Levels are the 1-based positions of the components sorted by descending mean, with ties kept in component order by the stable sort.
- **Too few samples.** The fit refuses fewer samples than components, and it refuses a single sample for any number of components. Both are modelled as `Err(TooFewSamples(..))`. The script always asks for two components, so for it the failure is exactly a one-sample buffer.
- **Buffering mode.** `Classifier.BufferedLevels` is a recursive specification over runs of small gaps. The loop `ClusterBuffered` is proved equal to it.
- **The sentinel.** Buffering mode is selected by `angle_threshold == -1`. Every non-negative gap is above -1, so in this mode every gap gets level 0 and the fit is never reached (`SentinelLabelsEveryGapZero`). The model keeps this behaviour as written.
- **Directory tree.** The filesystem is the class `OutputTree.Tree`:
  - `Mkdir` fails on an existing directory or a missing parent, as `Path.mkdir()` does without `exist_ok`;
  - `Place` needs its destination directory.
- **Building the tree.** `Hierarchy.Build` is the loop. It succeeds exactly when none of the planned directories exists beforehand. On success it creates exactly `PlannedDirs(levels)` and logs exactly `PlannedPlacements(photos, levels)`. On failure (`StoppedAtClash`) it names the first gap whose directories clash and keeps exactly what was made before the raising `mkdir`: the directories and placements planned for the earlier gaps, plus a new `angle_<a>` when the failing gap was level 0. `PlannedDirs` and `PlannedPlacements` are folds over the levels; lemmas show they are dense, fresh and complete.
- **The whole run.** `Pipeline.SessionLevels` gives the level of every gap from the two thresholds alone. `Pipeline.Organize` is proved to build the tree those levels plan, so each photo's directory follows from the gaps.

The default arguments of `cluster` (`rotation_threshold=10, angle_threshold=1.`) order the thresholds the other way round from the command-line defaults (`-r 1`, `-a 15`): the rotation threshold is the larger of the two. With those defaults level 1 could never occur. `main` always passes both thresholds explicitly, so the defaults play no part, and the model takes both thresholds as parameters.

The help text of `-r` says that -1 selects the mixture fit. The code tests `angle_threshold`, i.e. `-a -1`. The model follows the code.

## Model

| member | source | states |
|---|---|---|
| Sorting.SortBy | python_scripts/cluster_photos_by_time_intervals.py:164 | the result is a permutation (same multiset) of the input, ordered by the key |
| Sorting.SortByIsStable | python_scripts/cluster_photos_by_time_intervals.py:85 | elements with equal keys keep their input order (the sort is stable, as Python's is) |
| Intervals.Chronological | python_scripts/cluster_photos_by_time_intervals.py:164 | the sorted photos are the same photos (same length and multiset), earliest first |
| Intervals.Gaps | python_scripts/cluster_photos_by_time_intervals.py:172-173 | there is one gap per consecutive pair: n - 1 gaps for n photos, none for none |
| Intervals.GapsRoundTrip | python_scripts/cluster_photos_by_time_intervals.py:172-173 | adding the gaps up from the first capture time gives back every capture time, so the gaps lose nothing else |
| Intervals.GapsNonNegativeIffAscending | python_scripts/cluster_photos_by_time_intervals.py:164-173 | every gap is non-negative exactly when the photos are in capture order (both directions) |
| Intervals.ChronologicalGapsNonNegative | python_scripts/cluster_photos_by_time_intervals.py:164-173 | after the sort no gap is negative |
| MixtureTranslator.RankingIsRanking | python_scripts/cluster_photos_by_time_intervals.py:84-85 | `Ranking`, the stable sort by negated mean, lists every component exactly once, larger means first, equal means by ascending component id |
| MixtureTranslator.RankMap | python_scripts/cluster_photos_by_time_intervals.py:86 | the component at position k of the ranking maps to k + 1, and every key comes from the ranking |
| MixtureTranslator.Translator | python_scripts/cluster_photos_by_time_intervals.py:84-86 | the keys are exactly the component ids 0..n-1 and the values exactly 1..n; one component gets a smaller level than another exactly when it is ranked before it |
| MixtureTranslator.TranslatorInjective | python_scripts/cluster_photos_by_time_intervals.py:86 | distinct components get distinct levels |
| MixtureTranslator.TranslatorExtremes | python_scripts/cluster_photos_by_time_intervals.py:85-86 | level 1 goes to a component with the largest mean, level n to one with the smallest |
| MixtureTranslator.TwoComponentTranslator | python_scripts/cluster_photos_by_time_intervals.py:84-86 | with two components the one ranked first gets 1 and the other 2 |
| MixtureTranslator.UseGmm | python_scripts/cluster_photos_by_time_intervals.py:81-91 | it fails exactly when there are fewer samples than components or fewer than two samples, with that error; otherwise one level per sample, each in 1..n |
| MixtureTranslator.UseGmmRanksByMean | python_scripts/cluster_photos_by_time_intervals.py:84-91 | two samples get the same level exactly when the fit puts them in the same component, and a smaller level exactly when their component is ranked first |
| MixtureTranslator.TwoComponentLabels | python_scripts/cluster_photos_by_time_intervals.py:81-91 | with two components a sample is labelled 1 exactly when its component has the larger mean (the lower id on a tie), and 2 otherwise |
| Classifier.SmallRun | python_scripts/cluster_photos_by_time_intervals.py:119-127 | the length of the longest prefix of gaps not above the threshold, i.e. the buffer collected before the next large gap |
| Classifier.LevelsFromLargeGap | python_scripts/cluster_photos_by_time_intervals.py:120-125 | a gap above the threshold flushes the buffer through the translator, gets level 0 and starts an empty buffer |
| Classifier.LevelsFromSmallGap | python_scripts/cluster_photos_by_time_intervals.py:126-127 | a gap not above the threshold only joins the buffer |
| Classifier.BufferedLevelsMeaning | python_scripts/cluster_photos_by_time_intervals.py:117-129 | on success buffering mode yields one level per gap: 0 for a gap above the threshold, 1 or 2 for any other |
| Classifier.BufferedFailsIffLoneSmallGap | python_scripts/cluster_photos_by_time_intervals.py:117-129 | buffering mode fails exactly when some run of small gaps has length one (the fit refuses one sample for two components), and the error then says so |
| Classifier.SentinelLabelsEveryGapZero | python_scripts/cluster_photos_by_time_intervals.py:117-120 | with the sentinel -1 and non-negative gaps, every gap gets level 0 and the fit is never consulted |
| Classifier.FlushInto | python_scripts/cluster_photos_by_time_intervals.py:121-129 | appending a flushed buffer yields the earlier levels followed by the buffer's translated levels, or the fit's failure, as `Flush` (nothing for an empty buffer, `UseGmm` with two components otherwise) says |
| Classifier.ClusterBuffered | python_scripts/cluster_photos_by_time_intervals.py:117-129 | the buffering loop computes exactly the run-based specification `BufferedLevels` |
| Classifier.ClusterByThresholds | python_scripts/cluster_photos_by_time_intervals.py:131-139 | one level per gap, `ThresholdLevel` of it: 0 exactly above the angle threshold, 1 exactly between the thresholds, 2 exactly at or below both; level 1 never occurs when the rotation threshold is not below the angle threshold |
| Classifier.Cluster | python_scripts/cluster_photos_by_time_intervals.py:101-140 | the sentinel selects buffering mode (the result is `BufferedLevels`); any other angle threshold selects threshold mode, which always succeeds with the level of each gap as above |
| OutputTree.Tree.Mkdir | python_scripts/cluster_photos_by_time_intervals.py:193-199 | creating a directory succeeds exactly when it does not exist and its parent does; only that directory is added |
| OutputTree.Tree.Place | python_scripts/cluster_photos_by_time_intervals.py:94-98 | placing a photo succeeds exactly when the destination directory exists, and appends that one placement to the log |
| Hierarchy.PlannedDirsShape | python_scripts/cluster_photos_by_time_intervals.py:186-227 | the directories of any run are dense (angles 1..K, rotations 1..R within each angle, every rotation under its angle) and the counters name the newest angle and rotation |
| Hierarchy.CreatedAreNew | python_scripts/cluster_photos_by_time_intervals.py:208-221 | each `mkdir` in the loop names a directory the run has not created before, so the run never trips over itself |
| Hierarchy.AnglesAreOneToK | python_scripts/cluster_photos_by_time_intervals.py:186-227 | the angle directories are exactly `angle_1` .. `angle_K`, K being the final `angle_id` |
| Hierarchy.PlacementsLandInPlannedDirs | python_scripts/cluster_photos_by_time_intervals.py:186-227 | every photo goes into a rotation directory the run created |
| Hierarchy.FirstPhotoInFirstRotation | python_scripts/cluster_photos_by_time_intervals.py:186-203 | the first photo goes into `angle_1/rotation_1` |
| Hierarchy.EveryPhotoPlacedOnceIffKnownLevels | python_scripts/cluster_photos_by_time_intervals.py:206-227 | the photos are placed exactly once each, in order, exactly when every level is 0, 1 or 2; only input photos are placed, none more often than it occurs; with distinct photos, the photo after gap i is placed exactly when level i is 0, 1 or 2 |
| Hierarchy.PlacedPhotosComeFromInput | python_scripts/cluster_photos_by_time_intervals.py:206-227 | the placed photos form a sub-multiset of the input photos |
| Hierarchy.PhotoPlacedIffLevelKnown | python_scripts/cluster_photos_by_time_intervals.py:208-227 | with distinct photos, the photo after gap i is placed exactly when level i is 0, 1 or 2; the loop has no `else`, so any other level skips that photo and no other |
| Hierarchy.PlannedPlacementsStep | python_scripts/cluster_photos_by_time_intervals.py:206-227 | one more gap appends the placement of the photo after it into the directory the new counters name, or nothing when its level is unknown |
| Hierarchy.AllAngleGapsOnePhotoPerAngle | python_scripts/cluster_photos_by_time_intervals.py:208-216 | when every level is 0, photo k lands alone in `angle_<k+1>/rotation_1` and the final counters are (n, 1) |
| Hierarchy.PlaceFirst | python_scripts/cluster_photos_by_time_intervals.py:186-203 | the start succeeds exactly when neither `angle_1` nor `angle_1/rotation_1` existed; it creates both and places the first photo there; on failure it has created exactly `angle_1` (unless it existed) and places nothing |
| Hierarchy.PlaceNext | python_scripts/cluster_photos_by_time_intervals.py:206-227 | one loop pass moves the counters as `Step` says (0: next angle, rotation 1; 1: next rotation; otherwise unchanged) and succeeds exactly when the directories it creates did not exist before the run; the tree and log are then as planned; on failure it has created exactly the new `angle_<a>` when the level was 0, nothing otherwise, and places nothing |
| Hierarchy.Build | python_scripts/cluster_photos_by_time_intervals.py:186-227 | the run succeeds exactly when no planned directory existed beforehand; on success it adds exactly the planned directories and logs exactly the planned placements; on failure nothing is rolled back (`StoppedAtClash`): either `angle_1/rotation_1` clashed and at most `angle_1` is new with nothing placed, or gap j is the first whose directories clash, and the tree holds exactly the directories planned before gap j plus the `angle_<a>` gap j made, and the log exactly the placements planned before gap j |
| Hierarchy.FailedRunKeepsItsWork | python_scripts/cluster_photos_by_time_intervals.py:186-227 | a run that failed after creating `angle_1/rotation_1` still has both directories and the first photo placed after the earlier log: a failure undoes nothing |
| Pipeline.LevelsOf | python_scripts/cluster_photos_by_time_intervals.py:172-184 | on sorted photos, classifying the gaps cannot fail, and the levels are `SessionLevels`, one per gap: each gap compared with the two thresholds, or all 0 with the sentinel, whatever the mixture fit would answer |
| Pipeline.TwoAnglesAtThresholdsOneAndFifteen | python_scripts/cluster_photos_by_time_intervals.py:172-227 | with thresholds 1 and 15, gaps 0.2, 0.3, 20.0 and 0.25 put the first three photos in `angle_1/rotation_1` and the last two in `angle_2/rotation_1`, and create only those directories |
| Pipeline.Organize | python_scripts/cluster_photos_by_time_intervals.py:142-227 | no photos stops with nothing changed; otherwise the run finishes exactly when none of its planned directories exists, so always into an empty output directory, with a dense tree; a finished run creates the directories and makes the placements that `SessionLevels` of the sorted photos plan, each photo exactly once, in capture order, and with the sentinel each photo gets an angle of its own; a failed run is left exactly as `StoppedAtClash` says: the first clashing gap is identified and everything made before the failing `mkdir` stays |

## Left out

- The Gaussian mixture fit and predict (scikit-learn, line 82) are an oracle parameter. Only their shape is assumed: n means and a component below n per sample. Their numerics, random initialisation and convergence are not modelled.
- Timestamp extraction through exiftool (`get_precise_date`, `get_precise_dates`, `check_exiftool_availability`, lines 37-78) is left out. It is foreign-process I/O. The model starts from photos that already carry their capture time in seconds.
- Command-line parsing (`get_options`, lines 12-34) and the progress and warning output are left out.
- `Organize` assumes timestamp extraction succeeded. With `quiet` off (the default, line 32), one to nine photos make line 73 divide by zero, because `print_step` is 0 (line 66). The script then stops before creating anything, and the model does not capture this crash.
- The glob over the input directory (line 157) is left out. The model takes the list of photos as given, including the empty list, which stops the run (lines 158-160).
- The `mkdir(exist_ok=True)` of the output root (line 189) is left out. The model assumes the root exists; `Mkdir` only tracks the angle and rotation directories beneath it.
- Copy versus move (line 94-98) is one placement event in the model. Name collisions between photos placed in the same directory are not modelled, nor is the loss of the original file on a move.
- A failing `mkdir` raises and ends the Python process. The model ends the run at that point with a failure value and keeps the changes already made. The traceback itself is not modelled.
- Interval values are Python floats holding `timedelta.total_seconds()`. The model uses exact reals. Each interval is also a one-element list (the shape sklearn needs), and the model uses the number itself.
- The path locals `new_angle_p`, `new_rotation_p` and `new_photo_p` are not variables of the model. They are derived from the counters (`Here`), which is what they always hold.
- `python_scripts/helicon_focus.py`, `autophotogram/__main__.py`, `autophotogram/calibrate.py` and `setup.py` are not part of this model. They do not take part in clustering.
