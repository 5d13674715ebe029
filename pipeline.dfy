/**
 * `main` (lines 142-227) from the photo list on: sort by capture time, take
 * the gaps, classify them, build the directory tree.
 */
module Pipeline {
  import opened Results
  import opened Intervals
  import opened MixtureTranslator
  import opened Classifier
  import opened OutputTree
  import opened Hierarchy

  datatype Outcome = Done | Failed(fault: Fault)

  /**
   * The level of each gap between the sorted photos, as `cluster` assigns it
   * from the command-line thresholds. With the sentinel -1 every gap is
   * labelled 0 (see `SentinelLabelsEveryGapZero`), so the mixture fit never
   * decides anything; otherwise each gap is compared with the two thresholds.
   */
  function SessionLevels(dated: seq<Photo>, rotationThreshold: real, angleThreshold: real): (levels: seq<int>)
    ensures |levels| == |Gaps(dated)|
    ensures dated != [] ==> |levels| == |dated| - 1
    ensures forall i :: 0 <= i < |levels| ==> KnownLevel(levels[i])
  {
    var gaps := Gaps(dated);
    if angleThreshold == GmmSentinel then seq(|gaps|, i => 0)
    else seq(|gaps|, i requires 0 <= i < |gaps| => ThresholdLevel(gaps[i], rotationThreshold, angleThreshold) as int)
  }

  /**
   * Lines 172-184: the gaps of the sorted photos and their levels. Sorting
   * leaves no negative gap, so the classifier cannot fail here, and the levels
   * are those of `SessionLevels`, whatever the mixture fit would answer.
   */
  method LevelsOf(dated: seq<Photo>, rotationThreshold: real, angleThreshold: real, gmm: Oracle)
    returns (levels: seq<int>)
    requires SoundOracle(gmm)
    requires dated != [] && Ascending(dated)
    ensures |levels| == |dated| - 1
    ensures levels == SessionLevels(dated, rotationThreshold, angleThreshold)
  {
    var intervals := Gaps(dated);
    GapsNonNegativeIffAscending(dated);
    SentinelLabelsEveryGapZero(intervals, gmm);
    var r := Cluster(intervals, rotationThreshold, angleThreshold, gmm);
    assert r.Ok?;
    levels := r.value;
    assert levels == SessionLevels(dated, rotationThreshold, angleThreshold);
  }

  /**
   * With thresholds `-r 1 -a 15`, photos taken at 0, 0.2,
   * 0.5, 20.5 and 20.75 seconds have gaps 0.2, 0.3, 20.0 and 0.25: the first
   * three photos share `angle_1/rotation_1`, the last two `angle_2/rotation_1`.
   */
  lemma TwoAnglesAtThresholdsOneAndFifteen(p0: Photo, p1: Photo, p2: Photo, p3: Photo, p4: Photo)
    requires p0.time == 0.0 && p1.time == 0.2 && p2.time == 0.5 && p3.time == 20.5 && p4.time == 20.75
    ensures var levels := SessionLevels([p0, p1, p2, p3, p4], 1.0, 15.0);
      PlannedDirs(levels) == {AngleDir(1), RotationDir(1, 1), AngleDir(2), RotationDir(2, 1)} &&
      PlannedPlacements([p0, p1, p2, p3, p4], levels) ==
        [Placement(p0, RotationDir(1, 1)), Placement(p1, RotationDir(1, 1)), Placement(p2, RotationDir(1, 1)),
         Placement(p3, RotationDir(2, 1)), Placement(p4, RotationDir(2, 1))]
  {
    var dated := [p0, p1, p2, p3, p4];
    var gaps := Gaps(dated);
    assert |gaps| == 4;
    assert gaps[0] == 0.2 && gaps[1] == 0.3 && gaps[2] == 20.0 && gaps[3] == 0.25;
    assert gaps == [0.2, 0.3, 20.0, 0.25];
    var levels := SessionLevels(dated, 1.0, 15.0);
    assert levels == [2, 2, 0, 2];
    var a := Here(Start);
    var b := RotationDir(2, 1);
    assert [2][..0] == [] && [p0, p1][..1] == [p0];
    assert PlannedPlacements([p0], []) == [Placement(p0, a)];
    assert CursorAfter([2]) == Start;
    assert PlannedPlacements([p0, p1], [2]) == [Placement(p0, a), Placement(p1, a)];
    assert [2, 2][..1] == [2] && [p0, p1, p2][..2] == [p0, p1];
    assert CursorAfter([2, 2]) == Start;
    assert PlannedPlacements([p0, p1, p2], [2, 2]) == [Placement(p0, a), Placement(p1, a), Placement(p2, a)];
    assert [2, 2, 0][..2] == [2, 2] && [p0, p1, p2, p3][..3] == [p0, p1, p2];
    assert CursorAfter([2, 2, 0]) == Cursor(2, 1);
    assert PlannedPlacements([p0, p1, p2, p3], [2, 2, 0]) ==
      [Placement(p0, a), Placement(p1, a), Placement(p2, a), Placement(p3, b)];
    assert levels[..3] == [2, 2, 0] && dated[..4] == [p0, p1, p2, p3];
    assert CursorAfter(levels) == Cursor(2, 1);
    assert PlannedDirs([2]) == PlannedDirs([]);
    assert PlannedDirs([2, 2]) == PlannedDirs([]);
    assert PlannedDirs([2, 2, 0]) == PlannedDirs([]) + {AngleDir(2), b};
  }

  /**
   * What a finished run amounts to when every level is 0, 1 or 2: each photo
   * placed once, in order, into a dense tree, and one angle per photo when
   * every level is 0.
   */
  lemma FinishedRun(dated: seq<Photo>, levels: seq<int>)
    requires |dated| == |levels| + 1
    requires forall i :: 0 <= i < |levels| ==> KnownLevel(levels[i])
    ensures PhotosOf(PlannedPlacements(dated, levels)) == dated
    ensures Dense(PlannedDirs(levels))
    ensures (forall i :: 0 <= i < |levels| ==> levels[i] == 0) ==>
      PlannedPlacements(dated, levels) ==
        seq(|dated|, k requires 0 <= k < |dated| => Placement(dated[k], RotationDir(k + 1, 1)))
  {
    EveryPhotoPlacedOnceIffKnownLevels(dated, levels);
    PlannedDirsShape(levels);
    if forall i :: 0 <= i < |levels| ==> levels[i] == 0 {
      AllAngleGapsOnePhotoPerAngle(dated, levels);
    }
  }

  /**
   * A run on a non-empty session succeeds exactly when none of the directories
   * it plans exists beforehand (always, into an empty output directory). It
   * then places every photo exactly once, in capture order, into the
   * directory its gap levels select, and leaves a dense tree. A failed run
   * keeps the directories and placements made before the failing `mkdir`.
   */
  method Organize(photos: seq<Photo>, rotationThreshold: real, angleThreshold: real, gmm: Oracle, tree: Tree)
    returns (outcome: Outcome)
    requires SoundOracle(gmm)
    modifies tree
    ensures photos == [] ==> outcome == Failed(NoPhotos) && tree.dirs == old(tree.dirs) && tree.placed == old(tree.placed)
    ensures photos != [] ==>
      var levels := SessionLevels(Chronological(photos), rotationThreshold, angleThreshold);
      (outcome == Done || outcome == Failed(DirectoryFailure)) &&
      (outcome == Done <==> old(tree.dirs) !! PlannedDirs(levels))
    ensures photos != [] && old(tree.dirs) == {} ==> outcome == Done && Dense(tree.dirs)
    ensures outcome == Done ==>
      var dated := Chronological(photos);
      var levels := SessionLevels(dated, rotationThreshold, angleThreshold);
      tree.dirs == old(tree.dirs) + PlannedDirs(levels) &&
      tree.placed == old(tree.placed) + PlannedPlacements(dated, levels)
    ensures outcome == Done ==>
      |old(tree.placed)| <= |tree.placed| && tree.placed[..|old(tree.placed)|] == old(tree.placed) &&
      PhotosOf(tree.placed[|old(tree.placed)|..]) == Chronological(photos) &&
      multiset(PhotosOf(tree.placed[|old(tree.placed)|..])) == multiset(photos)
    ensures outcome == Done && angleThreshold == GmmSentinel ==>
      tree.placed[|old(tree.placed)|..] ==
        seq(|photos|, k requires 0 <= k < |photos| => Placement(Chronological(photos)[k], RotationDir(k + 1, 1)))
    ensures photos != [] && outcome == Failed(DirectoryFailure) ==>
      var dated := Chronological(photos);
      var levels := SessionLevels(dated, rotationThreshold, angleThreshold);
      |dated| == |levels| + 1 &&
      StoppedAtClash(old(tree.dirs), old(tree.placed), tree.dirs, tree.placed, dated, levels) &&
      old(tree.dirs) <= tree.dirs && tree.dirs <= old(tree.dirs) + PlannedDirs(levels) &&
      (tree.placed == old(tree.placed) ||
       exists j :: 0 <= j < |levels| && tree.placed == old(tree.placed) + PlannedPlacements(dated[..j + 1], levels[..j]))
  {
    if photos == [] {
      outcome := Failed(NoPhotos);
      return;
    }
    var dated := Chronological(photos);
    var levels := LevelsOf(dated, rotationThreshold, angleThreshold, gmm);
    ghost var log := tree.placed;
    var ok := Build(tree, dated, levels);
    outcome := if ok then Done else Failed(DirectoryFailure);
    if ok {
      FinishedRun(dated, levels);
      assert tree.placed[|log|..] == PlannedPlacements(dated, levels);
    }
  }
}
