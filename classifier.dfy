/**
 * `cluster` (lines 101-140): one level per time gap, 0 between angles,
 * 1 between rotations, 2 between brackets of one rotation.
 *
 * With `angle_threshold == -1` the gaps not above the angle threshold are
 * buffered and each run of them is labelled by the mixture translator when a
 * larger gap (labelled 0) or the end of the list is reached. Otherwise each gap
 * is compared with the two thresholds.
 */
module Classifier {
  import opened Results
  import opened MixtureTranslator

  /** The angle threshold that selects the mixture fit (line 117). */
  const GmmSentinel: real := -1.0

  /** The component count passed on lines 123 and 129. */
  const Components: nat := 2

  /** The level of one gap in threshold mode: 0 above the angle threshold, else 1 above the rotation threshold, else 2 (lines 134-139). */
  function ThresholdLevel(d: real, rotationThreshold: real, angleThreshold: real): nat
  {
    if d > angleThreshold then 0 else if d > rotationThreshold then 1 else 2
  }

  /** The length of the longest prefix of `xs` whose gaps are all at most `thr`. */
  function SmallRun(xs: seq<real>, thr: real): (k: nat)
    ensures k <= |xs|
    ensures forall i :: 0 <= i < k ==> xs[i] <= thr
    ensures k < |xs| ==> xs[k] > thr
  {
    if xs == [] || xs[0] > thr then 0 else 1 + SmallRun(xs[1..], thr)
  }

  /** The levels of a buffer of small gaps: none for an empty buffer, else the mixture translator's labels (lines 122-123 and 128-129). */
  function Flush(pending: seq<real>, gmm: Oracle): Result<seq<nat>, Fault>
    requires SoundOracle(gmm)
  {
    if pending == [] then Ok([]) else UseGmm(pending, Components, gmm)
  }

  /** Concatenation of two level lists; the first failure wins, as the first exception would. */
  function Chain(a: Result<seq<nat>, Fault>, b: Result<seq<nat>, Fault>): Result<seq<nat>, Fault>
  {
    if a.Err? then a else if b.Err? then b else Ok(a.value + b.value)
  }

  /**
   * Buffering-mode levels of `rest` when the gaps `pending` are still buffered:
   * the buffer and the run of small gaps that follows are labelled together,
   * the large gap that ends the run gets 0, and the rest starts a new buffer.
   */
  function LevelsFrom(pending: seq<real>, rest: seq<real>, thr: real, gmm: Oracle): Result<seq<nat>, Fault>
    requires SoundOracle(gmm)
    decreases |rest|
  {
    var k := SmallRun(rest, thr);
    if k == |rest| then Flush(pending + rest, gmm)
    else Chain(Flush(pending + rest[..k], gmm), Chain(Ok([0]), LevelsFrom([], rest[k + 1..], thr, gmm)))
  }

  function BufferedLevels(xs: seq<real>, thr: real, gmm: Oracle): Result<seq<nat>, Fault>
    requires SoundOracle(gmm)
  {
    LevelsFrom([], xs, thr, gmm)
  }

  lemma ChainAssociative(a: Result<seq<nat>, Fault>, b: Result<seq<nat>, Fault>, c: Result<seq<nat>, Fault>)
    ensures Chain(Chain(a, b), c) == Chain(a, Chain(b, c))
  {
    if a.Ok? && b.Ok? && c.Ok? {
      assert (a.value + b.value) + c.value == a.value + (b.value + c.value);
    }
  }

  lemma ChainFromEmpty(a: Result<seq<nat>, Fault>)
    ensures Chain(Ok([]), a) == a
  {
    if a.Ok? {
      assert [] + a.value == a.value;
    }
  }

  lemma ChainRightEmpty(a: Result<seq<nat>, Fault>)
    ensures Chain(a, Ok([])) == a
  {
    if a.Ok? {
      assert a.value + [] == a.value;
    }
  }

  /** A large gap flushes the buffer and is labelled 0. */
  lemma LevelsFromLargeGap(pending: seq<real>, rest: seq<real>, thr: real, gmm: Oracle)
    requires SoundOracle(gmm)
    requires rest != [] && rest[0] > thr
    ensures LevelsFrom(pending, rest, thr, gmm)
         == Chain(Flush(pending, gmm), Chain(Ok([0]), LevelsFrom([], rest[1..], thr, gmm)))
  {
    assert pending + rest[..0] == pending;
  }

  /** A small gap joins the buffer. */
  lemma LevelsFromSmallGap(pending: seq<real>, rest: seq<real>, thr: real, gmm: Oracle)
    requires SoundOracle(gmm)
    requires rest != [] && rest[0] <= thr
    ensures LevelsFrom(pending, rest, thr, gmm) == LevelsFrom(pending + [rest[0]], rest[1..], thr, gmm)
  {
    var k := SmallRun(rest, thr);
    var tail := rest[1..];
    var grown := pending + [rest[0]];
    assert SmallRun(tail, thr) == k - 1;
    if k == |rest| {
      assert pending + rest == grown + tail;
      assert LevelsFrom(pending, rest, thr, gmm) == Flush(pending + rest, gmm);
      assert LevelsFrom(grown, tail, thr, gmm) == Flush(grown + tail, gmm);
    } else {
      var after := LevelsFrom([], rest[k + 1..], thr, gmm);
      assert rest[..k] == [rest[0]] + tail[..k - 1];
      assert pending + rest[..k] == grown + tail[..k - 1];
      assert rest[k + 1..] == tail[k..];
      assert LevelsFrom(pending, rest, thr, gmm) == Chain(Flush(pending + rest[..k], gmm), Chain(Ok([0]), after));
      assert LevelsFrom(grown, tail, thr, gmm) == Chain(Flush(grown + tail[..k - 1], gmm), Chain(Ok([0]), after));
    }
  }

  /** The levels of a buffer: one per gap, each 1 or 2. */
  lemma FlushMeaning(pending: seq<real>, gmm: Oracle)
    requires SoundOracle(gmm)
    ensures var r := Flush(pending, gmm);
      r.Ok? ==> |r.value| == |pending| && forall i :: 0 <= i < |pending| ==> 1 <= r.value[i] <= 2
  {
  }

  ghost predicate LabelledFrom(pending: seq<real>, rest: seq<real>, thr: real, v: seq<nat>)
  {
    |v| == |pending| + |rest| &&
    (forall i :: 0 <= i < |pending| ==> 1 <= v[i] <= 2) &&
    (forall i :: 0 <= i < |rest| ==> if rest[i] > thr then v[|pending| + i] == 0 else 1 <= v[|pending| + i] <= 2)
  }

  /** The levels of a run, its closing 0 and the levels after it line up with the gaps. */
  lemma ConcatLabelled(pending: seq<real>, rest: seq<real>, k: nat, thr: real, head: seq<nat>, tail: seq<nat>)
    requires k < |rest| && rest[k] > thr && forall i :: 0 <= i < k ==> rest[i] <= thr
    requires |head| == |pending| + k && forall i :: 0 <= i < |head| ==> 1 <= head[i] <= 2
    requires LabelledFrom([], rest[k + 1..], thr, tail)
    ensures LabelledFrom(pending, rest, thr, head + ([0] + tail))
  {
    var v := head + ([0] + tail);
    var after := rest[k + 1..];
    forall i | 0 <= i < |rest|
      ensures if rest[i] > thr then v[|pending| + i] == 0 else 1 <= v[|pending| + i] <= 2
    {
      if i < k {
        assert v[|pending| + i] == head[|pending| + i];
      } else if i == k {
        assert v[|pending| + i] == 0;
      } else {
        assert rest[i] == after[i - k - 1];
        assert v[|pending| + i] == tail[i - k - 1];
      }
    }
    forall i | 0 <= i < |pending| ensures 1 <= v[i] <= 2 {
      assert v[i] == head[i];
    }
  }

  /** Generalisation of `BufferedLevelsMeaning` to a non-empty buffer. */
  lemma {:induction false} LevelsFromMeaning(pending: seq<real>, rest: seq<real>, thr: real, gmm: Oracle)
    requires SoundOracle(gmm)
    ensures LevelsFrom(pending, rest, thr, gmm).Ok? ==> LabelledFrom(pending, rest, thr, LevelsFrom(pending, rest, thr, gmm).value)
    decreases |rest|
  {
    var r := LevelsFrom(pending, rest, thr, gmm);
    var k := SmallRun(rest, thr);
    if r.Ok? {
      var buffer := pending + rest[..k];
      var head := Flush(buffer, gmm);
      FlushMeaning(buffer, gmm);
      if k < |rest| {
        var tail := rest[k + 1..];
        LevelsFromMeaning([], tail, thr, gmm);
        var t := LevelsFrom([], tail, thr, gmm);
        assert head.Ok? && t.Ok?;
        assert r.value == head.value + ([0] + t.value);
        ConcatLabelled(pending, rest, k, thr, head.value, t.value);
      } else {
        assert buffer == pending + rest;
        assert r == head;
      }
    }
  }

  /**
   * Buffering mode keeps one level per gap: a gap above the threshold gets 0,
   * and every other gap gets 1 or 2 from the mixture translator.
   */
  lemma BufferedLevelsMeaning(xs: seq<real>, thr: real, gmm: Oracle)
    requires SoundOracle(gmm)
    ensures var r := BufferedLevels(xs, thr, gmm);
      r.Ok? ==>
        |r.value| == |xs| &&
        forall i :: 0 <= i < |xs| ==> if xs[i] > thr then r.value[i] == 0 else 1 <= r.value[i] <= 2
  {
    LevelsFromMeaning([], xs, thr, gmm);
  }

  /** A gap at most `thr` whose neighbours (where there are any) are above it: a buffer of one. */
  predicate LoneSmallGap(xs: seq<real>, i: int, thr: real)
  {
    0 <= i < |xs| && xs[i] <= thr &&
    (i == 0 || xs[i - 1] > thr) && (i + 1 == |xs| || xs[i + 1] > thr)
  }

  /** Within the first run of small gaps and the large gap closing it, a lone small gap exists exactly when the run has length one. */
  lemma LoneInFirstRun(xs: seq<real>, thr: real)
    ensures var k := SmallRun(xs, thr);
      (exists i :: 0 <= i <= k && LoneSmallGap(xs, i, thr)) <==> k == 1
  {
    var k := SmallRun(xs, thr);
    if k == 1 {
      assert LoneSmallGap(xs, 0, thr);
    }
    if k >= 2 {
      forall i | 0 <= i <= k ensures !LoneSmallGap(xs, i, thr) {
        if i + 1 < k {
          assert xs[i + 1] <= thr;
        } else if i < k {
          assert xs[i - 1] <= thr;
        }
      }
    }
  }

  /** Past a large gap at `k`, the lone small gaps of `xs` are those of `xs[k + 1..]`, shifted. */
  lemma LoneAfterLargeGap(xs: seq<real>, k: nat, thr: real, tail: seq<real>)
    requires k < |xs| && xs[k] > thr && tail == xs[k + 1..]
    ensures (exists j :: LoneSmallGap(tail, j, thr)) <==> (exists i :: k < i && LoneSmallGap(xs, i, thr))
  {
    forall j | 0 <= j < |tail| ensures LoneSmallGap(tail, j, thr) <==> LoneSmallGap(xs, j + k + 1, thr) {
      assert tail[j] == xs[j + k + 1];
      if j > 0 {
        assert tail[j - 1] == xs[j + k];
      }
      if j + 1 < |tail| {
        assert tail[j + 1] == xs[j + k + 2];
      }
    }
    if exists i :: k < i && LoneSmallGap(xs, i, thr) {
      var i :| k < i && LoneSmallGap(xs, i, thr);
      assert LoneSmallGap(tail, i - k - 1, thr);
    }
  }

  /** A buffer fails to be labelled exactly when it holds a single gap. */
  lemma FlushFailsOnSingleGap(pending: seq<real>, gmm: Oracle)
    requires SoundOracle(gmm)
    ensures Flush(pending, gmm).Err? <==> |pending| == 1
    ensures Flush(pending, gmm).Err? ==> Flush(pending, gmm).error == TooFewSamples(1, Components)
  {
  }

  /** A chain around a 0 fails with the first failure of its two ends. */
  lemma ChainAroundZero(a: Result<seq<nat>, Fault>, b: Result<seq<nat>, Fault>)
    ensures Chain(a, Chain(Ok([0]), b)).Err? <==> a.Err? || b.Err?
    ensures Chain(a, Chain(Ok([0]), b)).Err? ==> Chain(a, Chain(Ok([0]), b)).error == (if a.Err? then a.error else b.error)
  {
  }

  /**
   * Buffering mode fails exactly when some run of small gaps has length one,
   * since the mixture fit refuses a single sample for two components.
   */
  lemma {:induction false} BufferedFailsIffLoneSmallGap(xs: seq<real>, thr: real, gmm: Oracle)
    requires SoundOracle(gmm)
    ensures BufferedLevels(xs, thr, gmm).Err? <==> exists i :: LoneSmallGap(xs, i, thr)
    ensures BufferedLevels(xs, thr, gmm).Err? ==> BufferedLevels(xs, thr, gmm).error == TooFewSamples(1, Components)
    decreases |xs|
  {
    var k := SmallRun(xs, thr);
    var run := xs[..k];
    assert [] + run == run;
    FlushFailsOnSingleGap(run, gmm);
    LoneInFirstRun(xs, thr);
    if k == |xs| {
      assert [] + xs == run;
    } else {
      var tail := xs[k + 1..];
      assert BufferedLevels(xs, thr, gmm) == Chain(Flush(run, gmm), Chain(Ok([0]), BufferedLevels(tail, thr, gmm)));
      ChainAroundZero(Flush(run, gmm), BufferedLevels(tail, thr, gmm));
      BufferedFailsIffLoneSmallGap(tail, thr, gmm);
      LoneAfterLargeGap(xs, k, thr, tail);
      if exists i :: LoneSmallGap(xs, i, thr) {
        var i :| LoneSmallGap(xs, i, thr);
        assert i <= k || k < i;
      }
    }
  }

  /**
   * The sentinel quirk of line 120: with `angle_threshold == -1` every
   * non-negative gap is "above the angle threshold", so every gap is labelled
   * 0 and the mixture fit is never reached.
   */
  lemma SentinelLabelsEveryGapZero(xs: seq<real>, gmm: Oracle)
    requires SoundOracle(gmm)
    requires forall i :: 0 <= i < |xs| ==> xs[i] >= 0.0
    ensures BufferedLevels(xs, GmmSentinel, gmm) == Ok(seq(|xs|, i => 0))
  {
    BufferedFailsIffLoneSmallGap(xs, GmmSentinel, gmm);
    BufferedLevelsMeaning(xs, GmmSentinel, gmm);
    var r := BufferedLevels(xs, GmmSentinel, gmm);
    assert r.value == seq(|xs|, i => 0);
  }

  /**
   * Lines 101-140. In buffering mode the result is `BufferedLevels`; in
   * threshold mode it has one level per gap, and the level says on which side
   * of each threshold the gap lies.
   */
  method Cluster(intervals: seq<real>, rotationThreshold: real, angleThreshold: real, gmm: Oracle)
    returns (r: Result<seq<nat>, Fault>)
    requires SoundOracle(gmm)
    ensures angleThreshold == GmmSentinel ==> r == BufferedLevels(intervals, angleThreshold, gmm)
    ensures angleThreshold != GmmSentinel ==> r.Ok? && |r.value| == |intervals|
    ensures angleThreshold != GmmSentinel ==> forall i :: 0 <= i < |intervals| ==>
      (r.value[i] == 0 <==> intervals[i] > angleThreshold) &&
      (r.value[i] == 1 <==> rotationThreshold < intervals[i] <= angleThreshold) &&
      (r.value[i] == 2 <==> intervals[i] <= angleThreshold && intervals[i] <= rotationThreshold)
  {
    if angleThreshold == GmmSentinel {
      r := ClusterBuffered(intervals, angleThreshold, gmm);
    } else {
      var levels := ClusterByThresholds(intervals, rotationThreshold, angleThreshold);
      r := Ok(levels);
    }
  }

  /**
   * Lines 121-123 and 128-129: a non-empty buffer is labelled by the mixture
   * translator and its levels are appended; a failure of the fit propagates.
   */
  method FlushInto(levels: seq<nat>, pending: seq<real>, gmm: Oracle) returns (r: Result<seq<nat>, Fault>)
    requires SoundOracle(gmm)
    ensures r == Chain(Ok(levels), Flush(pending, gmm))
  {
    if pending == [] {
      assert levels + [] == levels;
      r := Ok(levels);
    } else {
      var flushed := UseGmm(pending, Components, gmm);
      if flushed.Err? {
        r := Err(flushed.error);
      } else {
        r := Ok(levels + flushed.value);
      }
    }
  }

  /** The buffering loop of lines 118-129, proved to compute `BufferedLevels`. */
  method ClusterBuffered(intervals: seq<real>, angleThreshold: real, gmm: Oracle)
    returns (r: Result<seq<nat>, Fault>)
    requires SoundOracle(gmm)
    ensures r == BufferedLevels(intervals, angleThreshold, gmm)
  {
    var levels: seq<nat> := [];
    var pending: seq<real> := [];
    assert intervals[0..] == intervals;
    ChainFromEmpty(BufferedLevels(intervals, angleThreshold, gmm));
    for i := 0 to |intervals|
      invariant Chain(Ok(levels), LevelsFrom(pending, intervals[i..], angleThreshold, gmm))
             == BufferedLevels(intervals, angleThreshold, gmm)
    {
      var rest := intervals[i..];
      assert rest[1..] == intervals[i + 1..];
      var ti := intervals[i];
      if ti > angleThreshold {
        LevelsFromLargeGap(pending, rest, angleThreshold, gmm);
        var tail := LevelsFrom([], intervals[i + 1..], angleThreshold, gmm);
        ChainAssociative(Ok(levels), Flush(pending, gmm), Chain(Ok([0]), tail));
        var flushed := FlushInto(levels, pending, gmm);
        if flushed.Err? {
          r := flushed;
          return;
        }
        ChainAssociative(flushed, Ok([0]), tail);
        levels := flushed.value + [0];
        pending := [];
      } else {
        LevelsFromSmallGap(pending, rest, angleThreshold, gmm);
        pending := pending + [ti];
      }
    }
    assert intervals[|intervals|..] == [];
    assert pending + [] == pending;
    assert LevelsFrom(pending, [], angleThreshold, gmm) == Flush(pending, gmm);
    ChainRightEmpty(Chain(Ok(levels), Flush(pending, gmm)));
    r := FlushInto(levels, pending, gmm);
  }

  /** The threshold loop of lines 133-139: each gap is compared with the angle threshold, then the rotation threshold. */
  method ClusterByThresholds(intervals: seq<real>, rotationThreshold: real, angleThreshold: real)
    returns (levels: seq<nat>)
    ensures |levels| == |intervals|
    ensures forall i :: 0 <= i < |intervals| ==>
      (levels[i] == 0 <==> intervals[i] > angleThreshold) &&
      (levels[i] == 1 <==> rotationThreshold < intervals[i] <= angleThreshold) &&
      (levels[i] == 2 <==> intervals[i] <= angleThreshold && intervals[i] <= rotationThreshold)
    ensures rotationThreshold >= angleThreshold ==> forall i :: 0 <= i < |levels| ==> levels[i] != 1
  {
    levels := [];
    for i := 0 to |intervals|
      invariant |levels| == i
      invariant forall j :: 0 <= j < i ==> levels[j] == ThresholdLevel(intervals[j], rotationThreshold, angleThreshold)
    {
      var ti := intervals[i];
      if ti > angleThreshold {
        levels := levels + [0];
      } else if ti > rotationThreshold {
        levels := levels + [1];
      } else {
        levels := levels + [2];
      }
    }
  }
}
