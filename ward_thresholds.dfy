/** Per-ward threshold table (`calculate_ward_specific_thresholds`).

    Each ward's histogram goes through the Otsu solver; a failed solve is
    replaced by the fixed threshold -15 dB.  The annotated wards come back as
    features and a loop folds them into a table from ward id to threshold,
    reading -15 where a feature carries no `otsu_threshold` property.  A later
    feature with an id already in the table overwrites the earlier entry, and a
    feature without a `ward_id` makes the loop fail. */
module WardThresholds {
  import opened Wrappers
  import Otsu

  type WardId = int

  /** The threshold used when Otsu's method gives none. */
  const FallbackThreshold: real := -15.0

  /** The threshold a ward gets from its histogram: the solver's result, or the
      fallback when there is no histogram of the filtered band or the solver
      fails on it. */
  function SolveOrFallback(h: Option<Otsu.Histogram>): (t: real)
    ensures h.None? ==> t == FallbackThreshold
    ensures h.Some? && Otsu.OtsuThreshold(h.value).Failure? ==> t == FallbackThreshold
    ensures h.Some? && Otsu.OtsuThreshold(h.value).Success? ==> t == Otsu.OtsuThreshold(h.value).value
  {
    match h
    case None => FallbackThreshold
    case Some(hist) =>
      match Otsu.OtsuThreshold(hist)
      case Success(v) => v
      case Failure(_) => FallbackThreshold
  }

  /** A ward feature as the host returns it: its `ward_id` and its
      `otsu_threshold` properties, each None when the feature lacks it. */
  datatype WardFeature = WardFeature(wardId: Option<WardId>, otsuThreshold: Option<real>)

  /** `calculate_ward_threshold`: the ward's feature annotated with the
      threshold of its histogram.  It always carries the property, so the
      default of the table loop never applies to it. */
  function AnnotateWard(wardId: Option<WardId>, h: Option<Otsu.Histogram>): (f: WardFeature)
    ensures f.wardId == wardId
    ensures f.otsuThreshold.Some?
    ensures PropertyThreshold(f) == SolveOrFallback(h)
  {
    WardFeature(wardId, Some(SolveOrFallback(h)))
  }

  /** `feature['properties'].get('otsu_threshold', -15)`. */
  function PropertyThreshold(f: WardFeature): (t: real)
    ensures f.otsuThreshold.None? ==> t == FallbackThreshold
    ensures f.otsuThreshold.Some? ==> t == f.otsuThreshold.value
  {
    f.otsuThreshold.GetOr(FallbackThreshold)
  }

  /** Each of the first n features has a `ward_id`. */
  predicate HaveIds(features: seq<WardFeature>, n: nat)
    requires n <= |features|
  {
    forall k :: 0 <= k < n ==> features[k].wardId.Some?
  }

  /** The table the loop builds from the first n features, all of which have an
      id: each feature in turn overwrites the entry of its ward id, so the table
      has exactly one entry per ward id among them. */
  function TableOf(features: seq<WardFeature>, n: nat): (t: map<WardId, real>)
    requires n <= |features| && HaveIds(features, n)
    ensures t.Keys == IdsOf(features, n)
  {
    if n == 0 then map[]
    else
      assert IdsOf(features, n) == IdsOf(features, n - 1) + {features[n - 1].wardId.value};
      TableOf(features, n - 1)[features[n - 1].wardId.value := PropertyThreshold(features[n - 1])]
  }

  /** The ids of the first n features. */
  function IdsOf(features: seq<WardFeature>, n: nat): set<WardId>
    requires n <= |features| && HaveIds(features, n)
  {
    set k | 0 <= k < n :: features[k].wardId.value
  }

  /** Feature k is the last among the first n with its id. */
  predicate LastWithIdBefore(features: seq<WardFeature>, k: nat, n: nat)
    requires k < n <= |features|
  {
    forall j :: k < j < n ==> features[j].wardId != features[k].wardId
  }

  /** The loop at the end of `calculate_ward_specific_thresholds`.  The id is
      read by subscript, so a feature without one raises and no table is
      built (None). */
  method BuildThresholdTable(features: seq<WardFeature>) returns (r: Option<map<WardId, real>>)
    ensures r.None? <==> !HaveIds(features, |features|)
    ensures r.Some? ==> r.value == TableOf(features, |features|)
  {
    var table := map[];
    var i := 0;
    while i < |features|
      invariant 0 <= i <= |features|
      invariant HaveIds(features, i)
      invariant table == TableOf(features, i)
    {
      var feature := features[i];
      if feature.wardId.None? {
        return None;
      }
      table := table[feature.wardId.value := PropertyThreshold(feature)];
      i := i + 1;
    }
    r := Some(table);
  }

  /** The entry of a ward id is the property threshold of the last feature
      carrying that id: later duplicates win. */
  lemma {:induction false} TableLastWins(features: seq<WardFeature>, n: nat, k: nat)
    requires k < n <= |features| && HaveIds(features, n)
    requires LastWithIdBefore(features, k, n)
    ensures features[k].wardId.value in TableOf(features, n)
    ensures TableOf(features, n)[features[k].wardId.value] == PropertyThreshold(features[k])
  {
    if k < n - 1 {
      assert LastWithIdBefore(features, k, n - 1);
      TableLastWins(features, n - 1, k);
    }
  }

  /** Every ward gets either the fallback or one of its own bucket means. */
  lemma SolveOrFallbackRange(h: Option<Otsu.Histogram>)
    ensures SolveOrFallback(h) == FallbackThreshold || (h.Some? && SolveOrFallback(h) in h.value.means)
  {
    if h.Some? && Otsu.OtsuThreshold(h.value).Success? {
      Otsu.ThresholdIsBucketMean(h.value);
    }
  }

  /** A ward whose histogram counts no pixels does not fall back: every split
      scores zero and the last bucket's mean is taken. */
  lemma AllZeroWardTakesLastMean(h: Otsu.Histogram)
    requires Otsu.WellFormed(h) && Otsu.Total(h.counts) == 0
    ensures SolveOrFallback(Some(h)) == h.means[|h.means| - 1]
  {
    Otsu.AllEmptyPicksLastMean(h);
  }
}
