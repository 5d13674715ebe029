/**
 * `use_gmm_to_cluster_intervals` (lines 81-91). The Gaussian-mixture fit is
 * an oracle; what is modelled is the translation around it: components are
 * ranked by descending fitted mean (a stable sort, so equal means keep their
 * component order) and component `id` becomes level `rank + 1`.
 */
module MixtureTranslator {
  import opened Sorting
  import opened Results

  datatype Component = Component(id: nat, mean: real)

  /** What a fit reports: one mean per component and one component per sample. */
  datatype Fit = Fit(means: seq<real>, components: seq<nat>)

  /** The mixture fit and predict, given the samples and the number of components. */
  type Oracle = (seq<real>, nat) -> Fit

  predicate FitOf(fit: Fit, n: nat, samples: nat)
  {
    |fit.means| == n && |fit.components| == samples &&
    forall i :: 0 <= i < samples ==> fit.components[i] < n
  }

  /** The fit's promise: `n` means, and a component below `n` for every sample. */
  ghost predicate SoundOracle(gmm: Oracle)
  {
    forall xs: seq<real>, n: nat :: 1 <= n <= |xs| ==> FitOf(gmm(xs, n), n, |xs|)
  }

  /** Component `a` is ranked before component `b`: larger mean, or equal mean and smaller id. */
  predicate RankedBefore(means: seq<real>, a: nat, b: nat)
    requires a < |means| && b < |means|
  {
    means[a] > means[b] || (means[a] == means[b] && a < b)
  }

  function NegatedMean(c: Component): real { -c.mean }

  function ComponentId(c: Component): int { c.id }

  function Enumerated(means: seq<real>): seq<Component>
  {
    seq(|means|, i requires 0 <= i < |means| => Component(i, means[i]))
  }

  /** The components sorted by descending mean, ties left in id order by the stable sort (lines 84-85). */
  function Ranking(means: seq<real>): seq<Component>
  {
    SortBy(Enumerated(means), NegatedMean)
  }

  /** `r` lists every component once, larger means first and equal means by id. */
  ghost predicate IsRankingOf(r: seq<Component>, means: seq<real>)
  {
    |r| == |means| &&
    (forall k :: 0 <= k < |r| ==> r[k].id < |means|) &&
    (forall k, l :: 0 <= k < l < |r| ==> RankedBefore(means, r[k].id, r[l].id)) &&
    (forall i :: 0 <= i < |means| ==> Enumerated(means)[i] in r)
  }

  lemma {:induction false} RankingIsRanking(means: seq<real>)
    ensures IsRankingOf(Ranking(means), means)
  {
    var e := Enumerated(means);
    var r := Ranking(means);
    assert |r| == |multiset(r)| == |multiset(e)| == |e|;
    forall k | 0 <= k < |r| ensures r[k].id < |means| && r[k].mean == means[r[k].id] {
      assert r[k] in multiset(e);
      var m :| 0 <= m < |e| && e[m] == r[k];
    }
    forall i | 0 <= i < |means| ensures e[i] in r {
      assert e[i] in multiset(r);
    }
    SortByIsStable(e, NegatedMean, ComponentId);
  }

  /** Maps each component of a ranking to its 1-based position in it (line 86). */
  function RankMap(ranking: seq<Component>): (t: map<nat, nat>)
    requires forall k, l :: 0 <= k < l < |ranking| ==> ranking[k].id != ranking[l].id
    ensures forall k :: 0 <= k < |ranking| ==> ranking[k].id in t && t[ranking[k].id] == k + 1
    ensures forall a :: a in t ==> exists k :: 0 <= k < |ranking| && ranking[k].id == a
  {
    map k | 0 <= k < |ranking| :: ranking[k].id := k + 1
  }

  lemma RankingIdsDistinct(r: seq<Component>, means: seq<real>)
    requires IsRankingOf(r, means)
    ensures forall k, l :: 0 <= k < l < |r| ==> r[k].id != r[l].id
  {
    forall k, l | 0 <= k < l < |r| ensures r[k].id != r[l].id {
      assert RankedBefore(means, r[k].id, r[l].id);
    }
  }

  lemma RankMapKeys(r: seq<Component>, means: seq<real>)
    requires IsRankingOf(r, means)
    requires forall k, l :: 0 <= k < l < |r| ==> r[k].id != r[l].id
    ensures forall a: nat :: a in RankMap(r) <==> a < |means|
  {
    var t := RankMap(r);
    forall a: nat | a < |means| ensures a in t {
      assert Enumerated(means)[a] in r;
      var k :| 0 <= k < |r| && r[k] == Enumerated(means)[a];
      assert r[k].id == a;
    }
    forall a: nat | a in t ensures a < |means| {
      var k :| 0 <= k < |r| && r[k].id == a;
    }
  }

  lemma RankMapValues(r: seq<Component>, means: seq<real>)
    requires IsRankingOf(r, means)
    requires forall k, l :: 0 <= k < l < |r| ==> r[k].id != r[l].id
    ensures forall v: nat :: v in RankMap(r).Values <==> 1 <= v <= |means|
  {
    var t := RankMap(r);
    forall v: nat | 1 <= v <= |means| ensures v in t.Values {
      assert r[v - 1].id in t;
      assert t[r[v - 1].id] == v;
    }
    forall v: nat | v in t.Values ensures 1 <= v <= |means| {
      var a :| a in t && t[a] == v;
      var k :| 0 <= k < |r| && r[k].id == a;
    }
  }

  /** Ranking is a strict order: no component is ranked before one ranked before it. */
  lemma RankedBeforeAsymmetric(means: seq<real>, a: nat, b: nat)
    requires a < |means| && b < |means| && RankedBefore(means, a, b)
    ensures !RankedBefore(means, b, a)
  {
  }

  /** Positions in the ranking compare as the ranking order says. */
  lemma RankingPositions(r: seq<Component>, means: seq<real>, ka: nat, kb: nat)
    requires IsRankingOf(r, means)
    requires ka < |r| && kb < |r|
    ensures ka < kb <==> RankedBefore(means, r[ka].id, r[kb].id)
  {
    if ka < kb {
      assert RankedBefore(means, r[ka].id, r[kb].id);
    } else if kb < ka {
      assert RankedBefore(means, r[kb].id, r[ka].id);
      RankedBeforeAsymmetric(means, r[kb].id, r[ka].id);
    }
  }

  lemma RankMapOrder(r: seq<Component>, means: seq<real>)
    requires IsRankingOf(r, means)
    requires forall k, l :: 0 <= k < l < |r| ==> r[k].id != r[l].id
    ensures forall a, b :: a in RankMap(r) && b in RankMap(r) ==>
      a < |means| && b < |means| && (RankMap(r)[a] < RankMap(r)[b] <==> RankedBefore(means, a, b))
  {
    var t := RankMap(r);
    forall a, b | a in t && b in t
      ensures a < |means| && b < |means| && (t[a] < t[b] <==> RankedBefore(means, a, b))
    {
      var ka :| 0 <= ka < |r| && r[ka].id == a;
      var kb :| 0 <= kb < |r| && r[kb].id == b;
      assert t[a] == ka + 1 && t[b] == kb + 1;
      RankingPositions(r, means, ka, kb);
    }
  }

  /** The translator from component id to level: the 1-based rank of the component by descending mean (lines 84-86). */
  function Translator(means: seq<real>): (t: map<nat, nat>)
    ensures forall a: nat :: a in t <==> a < |means|
    ensures forall v: nat :: v in t.Values <==> 1 <= v <= |means|
    ensures forall a, b :: a in t && b in t ==> (t[a] < t[b] <==> RankedBefore(means, a, b))
  {
    var r := Ranking(means);
    RankingIsRanking(means);
    RankingIdsDistinct(r, means);
    RankMapKeys(r, means);
    RankMapValues(r, means);
    RankMapOrder(r, means);
    RankMap(Ranking(means))
  }

  /** The translator is one-to-one: distinct components get distinct levels. */
  lemma TranslatorInjective(means: seq<real>, a: nat, b: nat)
    requires a < |means| && b < |means| && a != b
    ensures Translator(means)[a] != Translator(means)[b]
  {
    var t := Translator(means);
    assert a in t && b in t;
    if RankedBefore(means, a, b) {
      assert t[a] < t[b];
    } else {
      assert RankedBefore(means, b, a);
      assert t[b] < t[a];
    }
  }

  /** The component with rank 1 has the largest mean, the one with rank n the smallest. */
  lemma TranslatorExtremes(means: seq<real>, a: nat)
    requires a < |means|
    ensures Translator(means)[a] == 1 ==> forall j :: 0 <= j < |means| ==> means[j] <= means[a]
    ensures Translator(means)[a] == |means| ==> forall j :: 0 <= j < |means| ==> means[a] <= means[j]
  {
    var t := Translator(means);
    forall j | 0 <= j < |means|
      ensures t[a] == 1 ==> means[j] <= means[a]
      ensures t[a] == |means| ==> means[a] <= means[j]
    {
      if j != a {
        TranslatorInjective(means, a, j);
        assert j in t && t[j] in t.Values;
        if t[a] == 1 {
          assert t[a] < t[j];
          assert RankedBefore(means, a, j);
        }
        if t[a] == |means| {
          assert t[j] < t[a];
          assert RankedBefore(means, j, a);
        }
      }
    }
  }

  /**
   * Line 91: the level of each sample is the translated component the fit
   * predicts for it. sklearn refuses to fit fewer samples than components,
   * and refuses a single sample whatever the number of components.
   */
  function UseGmm(intervals: seq<real>, n: nat, gmm: Oracle): (r: Result<seq<nat>, Fault>)
    requires 1 <= n
    requires 2 <= |intervals| && n <= |intervals| ==> FitOf(gmm(intervals, n), n, |intervals|)
    ensures |intervals| < n || |intervals| < 2 <==> r.Err?
    ensures r.Err? ==> r.error == TooFewSamples(|intervals|, n)
    ensures r.Ok? ==> |r.value| == |intervals|
    ensures r.Ok? ==> forall i :: 0 <= i < |intervals| ==> 1 <= r.value[i] <= n
  {
    if |intervals| < n || |intervals| < 2 then Err(TooFewSamples(|intervals|, n))
    else
      var fit := gmm(intervals, n);
      var t := Translator(fit.means);
      var levels := seq(|intervals|, i requires 0 <= i < |intervals| => t[fit.components[i]]);
      assert forall i :: 0 <= i < |intervals| ==> levels[i] in t.Values;
      Ok(levels)
  }

  /**
   * Two samples get the same level exactly when the fit puts them in the same
   * component, and a smaller level exactly when their component is ranked
   * first: a larger mean, or an equal mean and a smaller component id.
   */
  lemma UseGmmRanksByMean(intervals: seq<real>, n: nat, gmm: Oracle, i: nat, j: nat)
    requires 1 <= n <= |intervals| && 2 <= |intervals| && FitOf(gmm(intervals, n), n, |intervals|)
    requires i < |intervals| && j < |intervals|
    ensures var fit := gmm(intervals, n);
      var levels := UseGmm(intervals, n, gmm).value;
      (levels[i] == levels[j] <==> fit.components[i] == fit.components[j]) &&
      (levels[i] < levels[j] <==> RankedBefore(fit.means, fit.components[i], fit.components[j]))
  {
    var fit := gmm(intervals, n);
    var t := Translator(fit.means);
    var ci, cj := fit.components[i], fit.components[j];
    assert ci in t && cj in t;
    if ci != cj {
      TranslatorInjective(fit.means, ci, cj);
    }
  }

  /** With two components the translator gives 1 to the component ranked first and 2 to the other. */
  lemma TwoComponentTranslator(means: seq<real>, c: nat)
    requires |means| == 2 && c < 2
    ensures Translator(means)[c] == (if RankedBefore(means, c, 1 - c) then 1 else 2)
  {
    var t := Translator(means);
    assert c in t && 1 - c in t;
    TranslatorInjective(means, c, 1 - c);
    assert t[c] in t.Values && t[1 - c] in t.Values;
    assert t[c] == 1 <==> t[c] < t[1 - c];
  }

  /**
   * With two components (the only count the script uses) every sample is
   * labelled 1 or 2, and 1 exactly when its component's mean is the larger
   * (the first component on a tie).
   */
  lemma TwoComponentLabels(intervals: seq<real>, gmm: Oracle, i: nat)
    requires 2 <= |intervals| && FitOf(gmm(intervals, 2), 2, |intervals|)
    requires i < |intervals|
    ensures UseGmm(intervals, 2, gmm).Ok?
    ensures var fit := gmm(intervals, 2);
      var c := fit.components[i];
      UseGmm(intervals, 2, gmm).value[i] == (if RankedBefore(fit.means, c, 1 - c) then 1 else 2)
  {
    var fit := gmm(intervals, 2);
    var c := fit.components[i];
    var levels := UseGmm(intervals, 2, gmm).value;
    assert levels[i] == Translator(fit.means)[c];
    TwoComponentTranslator(fit.means, c);
  }
}
