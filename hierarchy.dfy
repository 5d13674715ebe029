/**
 * The tail of `main` (lines 186-227): the counters `angle_id` and
 * `rotation_id` walk the gap levels, directories are created as the counters
 * move, and each photo goes into the current rotation directory.
 *
 * `CursorAfter`, `PlannedDirs` and `PlannedPlacements` give, for a list of
 * levels, the counters, the directories and the placements the loop arrives
 * at; `Build` is the loop itself, proved to arrive there.
 */
module Hierarchy {
  import opened Intervals
  import opened OutputTree

  /** The values of `angle_id` and `rotation_id`. */
  datatype Cursor = Cursor(angle: int, rotation: int)

  /** The counters before the first gap: both start at 1 (lines 187-188). */
  const Start: Cursor := Cursor(1, 1)

  /** The levels the loop acts on; any other level is skipped (there is no `else`). */
  predicate KnownLevel(level: int)
  {
    0 <= level <= 2
  }

  /** The counters after a gap of the given level: 0 opens the next angle at rotation 1, 1 opens the next rotation, 2 keeps both (lines 208-225). */
  function Step(c: Cursor, level: int): Cursor
  {
    if level == 0 then Cursor(c.angle + 1, 1)
    else if level == 1 then Cursor(c.angle, c.rotation + 1)
    else c
  }

  function CursorAfter(levels: seq<int>): Cursor
    decreases |levels|
  {
    if levels == [] then Start
    else Step(CursorAfter(levels[..|levels| - 1]), levels[|levels| - 1])
  }

  /** The rotation directory the counters name, where the next photo goes. */
  function Here(c: Cursor): Dir
  {
    RotationDir(c.angle, c.rotation)
  }

  /** The directories the loop creates for a gap of `level`, `c` being the counters after it. */
  function Created(c: Cursor, level: int): set<Dir>
  {
    if level == 0 then {AngleDir(c.angle), Here(c)}
    else if level == 1 then {Here(c)}
    else {}
  }

  function PlannedDirs(levels: seq<int>): set<Dir>
    decreases |levels|
  {
    if levels == [] then {AngleDir(1), Here(Start)}
    else PlannedDirs(levels[..|levels| - 1]) + Created(CursorAfter(levels), levels[|levels| - 1])
  }

  function PlannedPlacements(photos: seq<Photo>, levels: seq<int>): seq<Placement>
    requires |photos| == |levels| + 1
    decreases |levels|
  {
    if levels == [] then [Placement(photos[0], Here(Start))]
    else
      var n := |levels|;
      var before := PlannedPlacements(photos[..n], levels[..n - 1]);
      if KnownLevel(levels[n - 1]) then before + [Placement(photos[n], Here(CursorAfter(levels)))]
      else before
  }

  function PhotosOf(placements: seq<Placement>): seq<Photo>
  {
    seq(|placements|, i requires 0 <= i < |placements| => placements[i].photo)
  }

  /** Angles are numbered from 1 without holes, and so are the rotations of each angle. */
  ghost predicate Dense(dirs: set<Dir>)
  {
    (forall a :: AngleDir(a) in dirs ==>
      a >= 1 && RotationDir(a, 1) in dirs && (a > 1 ==> AngleDir(a - 1) in dirs)) &&
    (forall a, r :: RotationDir(a, r) in dirs ==>
      r >= 1 && AngleDir(a) in dirs && (r > 1 ==> RotationDir(a, r - 1) in dirs))
  }

  /** The counters name the newest angle and, within it, the newest rotation directory. */
  ghost predicate Frontier(dirs: set<Dir>, c: Cursor)
  {
    AngleDir(c.angle) in dirs && Here(c) in dirs &&
    (forall a :: AngleDir(a) in dirs ==> a <= c.angle) &&
    (forall a, r :: RotationDir(a, r) in dirs ==> a <= c.angle) &&
    (forall r :: RotationDir(c.angle, r) in dirs ==> r <= c.rotation)
  }

  /** The directories of any run are dense, and the counters stand at their frontier. */
  lemma {:induction false} PlannedDirsShape(levels: seq<int>)
    ensures Dense(PlannedDirs(levels))
    ensures Frontier(PlannedDirs(levels), CursorAfter(levels))
    decreases |levels|
  {
    if levels != [] {
      var before := levels[..|levels| - 1];
      PlannedDirsShape(before);
    }
  }

  /** Every `mkdir` inside the loop names a directory the run has not created before. */
  lemma CreatedAreNew(levels: seq<int>, level: int)
    ensures Created(Step(CursorAfter(levels), level), level) !! PlannedDirs(levels)
  {
    PlannedDirsShape(levels);
  }

  lemma CurrentAngleExists(levels: seq<int>)
    ensures AngleDir(CursorAfter(levels).angle) in PlannedDirs(levels)
    ensures Here(CursorAfter(levels)) in PlannedDirs(levels)
    ensures CursorAfter(levels).angle >= 1
  {
    PlannedDirsShape(levels);
  }

  /** The angle directories are exactly `angle_1` .. `angle_K`, K being the final `angle_id`. */
  lemma {:induction false} AnglesAreOneToK(levels: seq<int>)
    ensures forall a :: AngleDir(a) in PlannedDirs(levels) <==> 1 <= a <= CursorAfter(levels).angle
    decreases |levels|
  {
    if levels != [] {
      var before := levels[..|levels| - 1];
      AnglesAreOneToK(before);
      CurrentAngleExists(before);
      var c := CursorAfter(before);
      var level := levels[|levels| - 1];
      assert CursorAfter(levels) == Step(c, level);
      assert PlannedDirs(levels) == PlannedDirs(before) + Created(CursorAfter(levels), level);
      forall a ensures AngleDir(a) in PlannedDirs(levels) <==> 1 <= a <= CursorAfter(levels).angle {
        if level == 0 {
          assert AngleDir(a) in Created(CursorAfter(levels), level) <==> a == c.angle + 1;
        } else {
          assert AngleDir(a) !in Created(CursorAfter(levels), level);
        }
      }
    }
  }

  /** Later gaps only add directories. */
  lemma {:induction false} PlannedDirsGrow(levels: seq<int>, j: nat)
    requires j <= |levels|
    ensures PlannedDirs(levels[..j]) <= PlannedDirs(levels)
    decreases |levels|
  {
    if j < |levels| {
      var before := levels[..|levels| - 1];
      assert levels[..j] == before[..j];
      PlannedDirsGrow(before, j);
    } else {
      assert levels[..j] == levels;
    }
  }

  /** Every photo goes into a rotation directory the run has created. */
  lemma {:induction false} PlacementsLandInPlannedDirs(photos: seq<Photo>, levels: seq<int>)
    requires |photos| == |levels| + 1
    ensures forall k :: 0 <= k < |PlannedPlacements(photos, levels)| ==>
      PlannedPlacements(photos, levels)[k].dest.RotationDir? &&
      PlannedPlacements(photos, levels)[k].dest in PlannedDirs(levels)
    decreases |levels|
  {
    if levels != [] {
      var n := |levels|;
      PlacementsLandInPlannedDirs(photos[..n], levels[..n - 1]);
      PlannedDirsShape(levels);
    }
  }

  /** The first photo goes into `angle_1/rotation_1` (lines 192-203). */
  lemma {:induction false} FirstPhotoInFirstRotation(photos: seq<Photo>, levels: seq<int>)
    requires |photos| == |levels| + 1
    ensures |PlannedPlacements(photos, levels)| >= 1
    ensures PlannedPlacements(photos, levels)[0] == Placement(photos[0], RotationDir(1, 1))
    decreases |levels|
  {
    if levels != [] {
      var n := |levels|;
      FirstPhotoInFirstRotation(photos[..n], levels[..n - 1]);
    }
  }

  /** No photo occurs twice: the script globs distinct files. */
  ghost predicate DistinctPhotos(photos: seq<Photo>)
  {
    forall a, b :: 0 <= a < b < |photos| ==> photos[a] != photos[b]
  }

  /** Only photos of the input are placed, none more often than it occurs there. */
  lemma {:induction false} PlacedPhotosComeFromInput(photos: seq<Photo>, levels: seq<int>)
    requires |photos| == |levels| + 1
    ensures multiset(PhotosOf(PlannedPlacements(photos, levels))) <= multiset(photos)
    decreases |levels|
  {
    var q := PlannedPlacements(photos, levels);
    if levels == [] {
      assert PhotosOf(q) == [photos[0]];
      assert photos == [photos[0]];
    } else {
      var n := |levels|;
      var p := PlannedPlacements(photos[..n], levels[..n - 1]);
      PlacedPhotosComeFromInput(photos[..n], levels[..n - 1]);
      assert photos == photos[..n] + [photos[n]];
      if KnownLevel(levels[n - 1]) {
        assert PhotosOf(q) == PhotosOf(p) + [photos[n]];
      } else {
        assert q == p;
      }
    }
  }

  /**
   * The photo after gap i is placed exactly when the level of gap i is 0, 1
   * or 2: the loop has no `else` (lines 208-227), so any other level skips
   * that photo and no other.
   */
  lemma {:induction false} PhotoPlacedIffLevelKnown(photos: seq<Photo>, levels: seq<int>, i: nat)
    requires |photos| == |levels| + 1 && DistinctPhotos(photos) && i < |levels|
    ensures photos[i + 1] in PhotosOf(PlannedPlacements(photos, levels)) <==> KnownLevel(levels[i])
    decreases |levels|
  {
    var n := |levels|;
    var front := photos[..n];
    var p := PlannedPlacements(front, levels[..n - 1]);
    var q := PlannedPlacements(photos, levels);
    if KnownLevel(levels[n - 1]) {
      assert PhotosOf(q) == PhotosOf(p) + [photos[n]];
    } else {
      assert q == p;
    }
    if i == n - 1 {
      PlacedPhotosComeFromInput(front, levels[..n - 1]);
      forall k | 0 <= k < n ensures front[k] != photos[n] {
        assert front[k] == photos[k];
      }
      assert photos[n] !in multiset(front);
      assert photos[n] !in multiset(PhotosOf(p));
    } else {
      assert DistinctPhotos(front) by {
        forall a, b | 0 <= a < b < |front| ensures front[a] != front[b] {
          assert front[a] == photos[a] && front[b] == photos[b];
        }
      }
      assert levels[..n - 1][i] == levels[i];
      PhotoPlacedIffLevelKnown(front, levels[..n - 1], i);
      assert front[i + 1] == photos[i + 1];
      assert photos[n] != photos[i + 1];
    }
  }

  /**
   * Each photo is placed exactly once, in order, when every level is 0, 1 or 2.
   * Otherwise some photo is missing; with distinct photos, the missing ones are
   * exactly those after a gap of another level.
   */
  lemma EveryPhotoPlacedOnceIffKnownLevels(photos: seq<Photo>, levels: seq<int>)
    requires |photos| == |levels| + 1
    ensures (forall i :: 0 <= i < |levels| ==> KnownLevel(levels[i])) <==>
            PhotosOf(PlannedPlacements(photos, levels)) == photos
    ensures |PlannedPlacements(photos, levels)| <= |photos|
    ensures multiset(PhotosOf(PlannedPlacements(photos, levels))) <= multiset(photos)
    ensures DistinctPhotos(photos) ==> forall i :: 0 <= i < |levels| ==>
      (photos[i + 1] in PhotosOf(PlannedPlacements(photos, levels)) <==> KnownLevel(levels[i]))
  {
    AllPlacedIffKnownLevels(photos, levels);
    PlacedPhotosComeFromInput(photos, levels);
    if DistinctPhotos(photos) {
      forall i | 0 <= i < |levels|
        ensures photos[i + 1] in PhotosOf(PlannedPlacements(photos, levels)) <==> KnownLevel(levels[i])
      {
        PhotoPlacedIffLevelKnown(photos, levels, i);
      }
    }
  }

  lemma {:induction false} AllPlacedIffKnownLevels(photos: seq<Photo>, levels: seq<int>)
    requires |photos| == |levels| + 1
    ensures (forall i :: 0 <= i < |levels| ==> KnownLevel(levels[i])) <==>
            PhotosOf(PlannedPlacements(photos, levels)) == photos
    ensures |PlannedPlacements(photos, levels)| <= |photos|
    decreases |levels|
  {
    if levels != [] {
      var n := |levels|;
      var before := levels[..n - 1];
      AllPlacedIffKnownLevels(photos[..n], before);
      var p := PlannedPlacements(photos[..n], before);
      if forall i :: 0 <= i < |levels| ==> KnownLevel(levels[i]) {
        assert forall i :: 0 <= i < |before| ==> KnownLevel(before[i]) by {
          forall i | 0 <= i < |before| ensures KnownLevel(before[i]) {
            assert before[i] == levels[i];
          }
        }
        assert PhotosOf(p) == photos[..n];
        assert PhotosOf(p + [Placement(photos[n], Here(CursorAfter(levels)))]) == photos;
      } else {
        var i :| 0 <= i < |levels| && !KnownLevel(levels[i]);
        if i < n - 1 {
          assert before[i] == levels[i];
          assert PhotosOf(p) != photos[..n];
          if !KnownLevel(levels[n - 1]) {
            assert |PhotosOf(p)| < |photos|;
          }
        } else {
          assert |PhotosOf(p)| < |photos|;
        }
      }
    }
  }

  /**
   * When every gap is between angles (as with the sentinel threshold of -1),
   * photo k lands alone in `angle_<k+1>/rotation_1`.
   */
  lemma {:induction false} AllAngleGapsOnePhotoPerAngle(photos: seq<Photo>, levels: seq<int>)
    requires |photos| == |levels| + 1
    requires forall i :: 0 <= i < |levels| ==> levels[i] == 0
    ensures CursorAfter(levels) == Cursor(|levels| + 1, 1)
    ensures PlannedPlacements(photos, levels) ==
      seq(|photos|, k requires 0 <= k < |photos| => Placement(photos[k], RotationDir(k + 1, 1)))
    decreases |levels|
  {
    if levels != [] {
      var n := |levels|;
      AllAngleGapsOnePhotoPerAngle(photos[..n], levels[..n - 1]);
    }
  }

  /** The placements of the first i + 1 gaps extend those of the first i by the placement of photo i + 1, if any. */
  lemma PlannedPlacementsStep(photos: seq<Photo>, levels: seq<int>, i: nat)
    requires |photos| == |levels| + 1 && i < |levels|
    ensures PlannedPlacements(photos[..i + 2], levels[..i + 1]) ==
      PlannedPlacements(photos[..i + 1], levels[..i]) +
      (if KnownLevel(levels[i]) then [Placement(photos[i + 1], Here(CursorAfter(levels[..i + 1])))] else [])
  {
    var next := levels[..i + 1];
    assert next[..i] == levels[..i];
    assert photos[..i + 2][..i + 1] == photos[..i + 1];
    assert photos[..i + 2][i + 1] == photos[i + 1];
  }

  /** What one more gap adds: its level, its placement, and directories still within the run's plan. */
  lemma NextGap(photos: seq<Photo>, levels: seq<int>, i: nat)
    requires |photos| == |levels| + 1 && i < |levels|
    ensures levels[..i + 1] == levels[..i] + [levels[i]]
    ensures PlannedDirs(levels[..i + 1]) <= PlannedDirs(levels)
    ensures PlannedPlacements(photos[..i + 2], levels[..i + 1]) ==
      PlannedPlacements(photos[..i + 1], levels[..i]) +
      (if KnownLevel(levels[i]) then [Placement(photos[i + 1], Here(CursorAfter(levels[..i + 1])))] else [])
  {
    assert levels[..i + 1] == levels[..i] + [levels[i]];
    PlannedPlacementsStep(photos, levels, i);
    PlannedDirsGrow(levels, i + 1);
  }

  /**
   * Gap j is the first whose directories clash with `existing`: the run gets
   * through the gaps before it and its `mkdir` raises at gap j.
   */
  ghost predicate FirstClash(existing: set<Dir>, levels: seq<int>, j: nat)
    requires j < |levels|
  {
    existing !! PlannedDirs(levels[..j]) && !(existing !! PlannedDirs(levels[..j + 1]))
  }

  /**
   * What the failing pass for gap j leaves behind: for level 0 the new
   * `angle_<a>` (line 212) stays even when `rotation_1` beneath it clashes.
   */
  function PartialStep(levels: seq<int>, j: nat): (dirs: set<Dir>)
    requires j < |levels|
    ensures dirs <= Created(CursorAfter(levels[..j + 1]), levels[j])
  {
    if levels[j] == 0 then {AngleDir(CursorAfter(levels[..j + 1]).angle)} else {}
  }

  /**
   * The tree a failed run leaves when it starts from `existing` and `log`.
   * When `angle_1` or `angle_1/rotation_1` clashes (lines 193-197), at most
   * `angle_1` is new and nothing is placed. Otherwise gap j is the first to
   * clash: the directories and placements planned for the gaps before it
   * stay, together with what the pass for gap j made before its `mkdir`
   * raised. Nothing is rolled back.
   */
  ghost predicate StoppedAtClash(existing: set<Dir>, log: seq<Placement>, dirs: set<Dir>, placed: seq<Placement>,
                                 photos: seq<Photo>, levels: seq<int>)
    requires |photos| == |levels| + 1
  {
    if !(existing !! PlannedDirs([])) then
      placed == log && dirs == existing + {AngleDir(1)}
    else
      exists j :: 0 <= j < |levels| && FirstClash(existing, levels, j) &&
        placed == log + PlannedPlacements(photos[..j + 1], levels[..j]) &&
        dirs == existing + PlannedDirs(levels[..j]) + PartialStep(levels, j)
  }

  /**
   * A run that got past `angle_1/rotation_1` and then failed still has both
   * directories and the first photo in place, after everything logged before
   * it: the failure undoes none of the work done.
   */
  lemma FailedRunKeepsItsWork(existing: set<Dir>, log: seq<Placement>, dirs: set<Dir>, placed: seq<Placement>,
                              photos: seq<Photo>, levels: seq<int>)
    requires |photos| == |levels| + 1
    requires existing !! PlannedDirs([]) && StoppedAtClash(existing, log, dirs, placed, photos, levels)
    ensures existing + PlannedDirs([]) <= dirs
    ensures |log| < |placed| && placed[..|log|] == log
    ensures placed[|log|] == Placement(photos[0], RotationDir(1, 1))
  {
    var j :| 0 <= j < |levels| && FirstClash(existing, levels, j) &&
      placed == log + PlannedPlacements(photos[..j + 1], levels[..j]) &&
      dirs == existing + PlannedDirs(levels[..j]) + PartialStep(levels, j);
    PlannedDirsGrow(levels[..j], 0);
    assert levels[..j][..0] == [];
    FirstPhotoInFirstRotation(photos[..j + 1], levels[..j]);
  }

  /**
   * One pass of the loop body (lines 207-227) for the gap before `photo`:
   * move the counters, create the directories the level calls for, place the
   * photo. It succeeds exactly when none of those directories existed before
   * the run.
   */
  method PlaceNext(tree: Tree, photo: Photo, level: int, angleId: int, rotationId: int,
                   ghost existing: set<Dir>, ghost done: seq<int>)
    returns (ok: bool, angleId': int, rotationId': int)
    requires Cursor(angleId, rotationId) == CursorAfter(done)
    requires existing !! PlannedDirs(done) && tree.dirs == existing + PlannedDirs(done)
    modifies tree
    ensures Cursor(angleId', rotationId') == CursorAfter(done + [level])
    ensures ok <==> existing !! Created(CursorAfter(done + [level]), level)
    ensures ok ==> tree.dirs == existing + PlannedDirs(done + [level])
    ensures ok ==> (tree.placed == old(tree.placed) +
      (if KnownLevel(level) then [Placement(photo, Here(CursorAfter(done + [level])))] else []))
    ensures !ok ==> old(tree.dirs) <= tree.dirs <= old(tree.dirs) + Created(CursorAfter(done + [level]), level)
    ensures !ok ==> tree.dirs == old(tree.dirs) + (if level == 0 then {AngleDir(angleId')} else {})
    ensures !ok ==> tree.placed == old(tree.placed)
  {
    var next := done + [level];
    assert next[..|next| - 1] == done;
    assert CursorAfter(next) == Step(CursorAfter(done), level);
    assert PlannedDirs(next) == PlannedDirs(done) + Created(CursorAfter(next), level);
    CurrentAngleExists(done);
    CreatedAreNew(done, level);
    angleId', rotationId' := angleId, rotationId;
    ok := true;
    if level == 0 {
      angleId' := angleId + 1;
      rotationId' := 1;
      ok := tree.Mkdir(AngleDir(angleId'));
      if !ok {
        return;
      }
      ok := tree.Mkdir(RotationDir(angleId', rotationId'));
      if !ok {
        return;
      }
      ok := tree.Place(photo, RotationDir(angleId', rotationId'));
    } else if level == 1 {
      rotationId' := rotationId + 1;
      ok := tree.Mkdir(RotationDir(angleId', rotationId'));
      if !ok {
        return;
      }
      ok := tree.Place(photo, RotationDir(angleId', rotationId'));
    } else if level == 2 {
      ok := tree.Place(photo, RotationDir(angleId', rotationId'));
    }
  }

  /**
   * Lines 187-203: create `angle_1` and `angle_1/rotation_1` and place the
   * first photo there. It succeeds exactly when neither directory existed; a
   * failing `mkdir` keeps what was created before it and places nothing.
   */
  method PlaceFirst(tree: Tree, photo: Photo) returns (ok: bool)
    modifies tree
    ensures ok <==> old(tree.dirs) !! PlannedDirs([])
    ensures ok ==> tree.dirs == old(tree.dirs) + PlannedDirs([])
    ensures ok ==> tree.placed == old(tree.placed) + [Placement(photo, Here(Start))]
    ensures !ok ==> old(tree.dirs) <= tree.dirs <= old(tree.dirs) + PlannedDirs([])
    ensures !ok ==> tree.dirs == old(tree.dirs) + {AngleDir(1)}
    ensures !ok ==> tree.placed == old(tree.placed)
  {
    ok := tree.Mkdir(AngleDir(1));
    if !ok {
      return;
    }
    ok := tree.Mkdir(RotationDir(1, 1));
    if !ok {
      return;
    }
    ok := tree.Place(photo, RotationDir(1, 1));
  }

  /**
   * Lines 186-227. The run succeeds exactly when none of the directories it
   * creates exists beforehand; then it has created exactly those directories
   * and placed the photos as `PlannedPlacements` says. A failing `mkdir`
   * raises and ends the run: nothing is rolled back, so the directories made
   * so far stay, and the photos placed so far are those planned for the gaps
   * before the failing one.
   */
  method Build(tree: Tree, photos: seq<Photo>, levels: seq<int>) returns (ok: bool)
    requires |photos| == |levels| + 1
    modifies tree
    ensures ok <==> old(tree.dirs) !! PlannedDirs(levels)
    ensures ok ==> tree.dirs == old(tree.dirs) + PlannedDirs(levels)
    ensures ok ==> tree.placed == old(tree.placed) + PlannedPlacements(photos, levels)
    ensures !ok ==> old(tree.dirs) <= tree.dirs <= old(tree.dirs) + PlannedDirs(levels)
    ensures !ok ==> (tree.placed == old(tree.placed) ||
      exists j :: 0 <= j < |levels| && tree.placed == old(tree.placed) + PlannedPlacements(photos[..j + 1], levels[..j]))
    ensures !ok ==> StoppedAtClash(old(tree.dirs), old(tree.placed), tree.dirs, tree.placed, photos, levels)
  {
    ghost var existing := tree.dirs;
    ghost var log := tree.placed;
    PlannedDirsGrow(levels, 0);
    assert levels[..0] == [];
    var angleId, rotationId := 1, 1;
    ok := PlaceFirst(tree, photos[0]);
    if !ok {
      return;
    }
    assert photos[..1] == [photos[0]];
    assert levels[..0] == [];
    for i := 0 to |levels|
      invariant ok
      invariant Cursor(angleId, rotationId) == CursorAfter(levels[..i])
      invariant existing !! PlannedDirs(levels[..i])
      invariant tree.dirs == existing + PlannedDirs(levels[..i])
      invariant tree.placed == log + PlannedPlacements(photos[..i + 1], levels[..i])
    {
      var done := levels[..i];
      NextGap(photos, levels, i);
      ok, angleId, rotationId := PlaceNext(tree, photos[i + 1], levels[i], angleId, rotationId, existing, done);
      if !ok {
        assert tree.placed == log + PlannedPlacements(photos[..i + 1], levels[..i]);
        assert PlannedDirs(levels[..i + 1]) == PlannedDirs(done) + Created(CursorAfter(levels[..i + 1]), levels[i]) by {
          assert levels[..i + 1][..i] == done;
        }
        assert FirstClash(existing, levels, i);
        return;
      }
    }
    assert levels[..|levels|] == levels;
    assert photos[..|levels| + 1] == photos;
  }
}
