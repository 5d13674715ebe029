/**
 * The photos of one session in capture order, and the time gaps between
 * consecutive photos (`main`, lines 164 and 172-173).
 */
module Intervals {
  import opened Sorting

  /** A photo file with its capture time in seconds (sub-second precision). */
  datatype Photo = Photo(file: string, time: real)

  function Time(p: Photo): real { p.time }

  ghost predicate Ascending(photos: seq<Photo>)
  {
    forall i, j :: 0 <= i < j < |photos| ==> photos[i].time <= photos[j].time
  }

  /** The photos sorted by capture time: the same photos, earliest first (line 164). */
  function Chronological(photos: seq<Photo>): (r: seq<Photo>)
    ensures |r| == |photos|
    ensures multiset(r) == multiset(photos)
    ensures Ascending(r)
  {
    var r := SortBy(photos, Time);
    assert |r| == |multiset(r)| == |multiset(photos)| == |photos|;
    r
  }

  /** One gap per consecutive pair: the later capture time minus the earlier one. */
  function Gaps(photos: seq<Photo>): (gaps: seq<real>)
    ensures |gaps| == if photos == [] then 0 else |photos| - 1
  {
    if photos == [] then []
    else seq(|photos| - 1, i requires 0 <= i < |photos| - 1 => photos[i + 1].time - photos[i].time)
  }

  function Times(photos: seq<Photo>): seq<real>
  {
    seq(|photos|, i requires 0 <= i < |photos| => photos[i].time)
  }

  /** Running sums: the capture times implied by a first capture time and the gaps after it. */
  function Accumulate(start: real, gaps: seq<real>): (times: seq<real>)
    decreases |gaps|
  {
    if gaps == [] then [start] else [start] + Accumulate(start + gaps[0], gaps[1..])
  }

  /** Dropping the first photo drops the first gap; that gap leads from the first capture time to the second. */
  lemma GapsOfTail(photos: seq<Photo>)
    requires |photos| > 1
    ensures Gaps(photos[1..]) == Gaps(photos)[1..]
    ensures photos[0].time + Gaps(photos)[0] == photos[1].time
  {
    var tail := photos[1..];
    forall k | 0 <= k < |tail| - 1 ensures Gaps(tail)[k] == Gaps(photos)[k + 1] {
      assert tail[k + 1] == photos[k + 2] && tail[k] == photos[k + 1];
    }
  }

  lemma TimesOfTail(photos: seq<Photo>)
    requires photos != []
    ensures Times(photos) == [photos[0].time] + Times(photos[1..])
  {
  }

  /** The gaps lose nothing but the first capture time: adding them up gives back every capture time. */
  lemma {:induction false} GapsRoundTrip(photos: seq<Photo>)
    requires photos != []
    ensures Accumulate(photos[0].time, Gaps(photos)) == Times(photos)
  {
    var gaps := Gaps(photos);
    TimesOfTail(photos);
    if |photos| > 1 {
      var tail := photos[1..];
      GapsOfTail(photos);
      GapsRoundTrip(tail);
      assert Accumulate(photos[0].time, gaps) == [photos[0].time] + Accumulate(tail[0].time, Gaps(tail));
    } else {
      assert gaps == [];
    }
  }

  /** Every gap is non-negative exactly when the photos are in capture order. */
  lemma {:induction false} GapsNonNegativeIffAscending(photos: seq<Photo>)
    ensures (forall k :: 0 <= k < |Gaps(photos)| ==> Gaps(photos)[k] >= 0.0) <==> Ascending(photos)
  {
    var gaps := Gaps(photos);
    if forall k :: 0 <= k < |gaps| ==> gaps[k] >= 0.0 {
      if photos != [] {
        var tail := photos[1..];
        forall k | 0 <= k < |Gaps(tail)| ensures Gaps(tail)[k] >= 0.0 {
          assert Gaps(tail)[k] == gaps[k + 1];
        }
        GapsNonNegativeIffAscending(tail);
        forall i, j | 0 <= i < j < |photos| ensures photos[i].time <= photos[j].time {
          if i == 0 {
            assert gaps[0] >= 0.0;
            if j > 1 {
              assert tail[0].time <= tail[j - 1].time;
            }
          } else {
            assert tail[i - 1].time <= tail[j - 1].time;
          }
        }
      }
    }
    if Ascending(photos) {
      forall k | 0 <= k < |gaps| ensures gaps[k] >= 0.0 {
        assert photos[k].time <= photos[k + 1].time;
      }
    }
  }

  /** After the sort on line 164 no gap is negative. */
  lemma ChronologicalGapsNonNegative(photos: seq<Photo>)
    ensures forall k :: 0 <= k < |Gaps(Chronological(photos))| ==> Gaps(Chronological(photos))[k] >= 0.0
  {
    GapsNonNegativeIffAscending(Chronological(photos));
  }
}
