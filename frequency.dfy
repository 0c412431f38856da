/** Water occurrence frequency: the per-pixel sum of N binary water masks
    divided by N (`water_collection.sum().divide(water_count)`).  A pixel's
    frequency is the fraction of acquisitions in which it was classified as
    water; the permanent-water layer is read off this surface.  The division is
    not guarded: over no masks the sum is 0 and, by the rule x / 0 = 0 of
    `Otsu.Div`, so is every frequency. */
module WaterFrequency {
  import Otsu
  import WardMask

  /** All masks cover the same n pixels. */
  predicate SameExtent(masks: seq<WardMask.Mask>, n: nat) {
    forall k :: 0 <= k < |masks| ==> |masks[k]| == n
  }

  /** `sum()` at pixel p: the sum of the masks' values there. */
  function WaterSum(masks: seq<WardMask.Mask>, p: nat): nat
    requires forall k :: 0 <= k < |masks| ==> p < |masks[k]|
  {
    if masks == [] then 0 else WaterSum(masks[..|masks| - 1], p) + masks[|masks| - 1][p]
  }

  /** The acquisitions in which pixel p was water. */
  function WaterSamples(masks: seq<WardMask.Mask>, p: nat): set<nat>
    requires forall k :: 0 <= k < |masks| ==> p < |masks[k]|
  {
    set k: nat | k < |masks| && masks[k][p] == 1
  }

  /** `water_collection.sum().divide(water_count)`: one value per pixel, and 0
      everywhere when there are no masks. */
  function Frequency(masks: seq<WardMask.Mask>, n: nat): (r: seq<real>)
    requires SameExtent(masks, n)
    ensures |r| == n
    ensures masks == [] ==> forall p :: 0 <= p < n ==> r[p] == 0.0
  {
    seq(n, p requires 0 <= p < n => Otsu.Div(WaterSum(masks, p) as real, |masks| as real))
  }

  /** The sum at a pixel counts the acquisitions in which it was water. */
  lemma {:induction false} WaterSumCountsSamples(masks: seq<WardMask.Mask>, p: nat)
    requires forall k :: 0 <= k < |masks| ==> p < |masks[k]|
    ensures WaterSum(masks, p) == |WaterSamples(masks, p)|
  {
    if masks != [] {
      var n := |masks| - 1;
      var front := masks[..n];
      WaterSumCountsSamples(front, p);
      var before := WaterSamples(front, p);
      assert forall k: nat :: k < n ==> front[k] == masks[k];
      if masks[n][p] == 1 {
        assert WaterSamples(masks, p) == before + {n};
      } else {
        assert WaterSamples(masks, p) == before;
      }
    }
  }

  /** No more water samples than acquisitions. */
  lemma {:induction false} WaterSumBounded(masks: seq<WardMask.Mask>, p: nat)
    requires forall k :: 0 <= k < |masks| ==> p < |masks[k]|
    ensures WaterSum(masks, p) <= |masks|
  {
    if masks != [] {
      WaterSumBounded(masks[..|masks| - 1], p);
    }
  }

  /** The frequency at a pixel is the number of acquisitions in which it was
      water, over the number of acquisitions, and lies between 0 and 1. */
  lemma FrequencyIsFraction(masks: seq<WardMask.Mask>, n: nat, p: nat)
    requires SameExtent(masks, n) && masks != [] && p < n
    ensures Frequency(masks, n)[p] == |WaterSamples(masks, p)| as real / |masks| as real
    ensures 0.0 <= Frequency(masks, n)[p] <= 1.0
  {
    WaterSumCountsSamples(masks, p);
    WaterSumBounded(masks, p);
    var s, m := WaterSum(masks, p) as real, |masks| as real;
    assert Frequency(masks, n)[p] == s / m;
    assert 0.0 <= s <= m;
    FractionBounds(s, m);
  }

  lemma FractionBounds(s: real, m: real)
    requires 0.0 <= s <= m && m > 0.0
    ensures 0.0 <= s / m <= 1.0
  {
    assert s / m * m == s;
  }

  /** A pixel that is water in every acquisition has frequency 1. */
  lemma AlwaysWater(masks: seq<WardMask.Mask>, n: nat, p: nat)
    requires SameExtent(masks, n) && masks != [] && p < n
    requires forall k :: 0 <= k < |masks| ==> masks[k][p] == 1
    ensures Frequency(masks, n)[p] == 1.0
  {
    ConstantSum(masks, p, 1);
    FrequencyAt(masks, n, p);
    UnitFraction(WaterSum(masks, p) as real, |masks| as real);
  }

  /** The frequency at pixel p, written out. */
  lemma FrequencyAt(masks: seq<WardMask.Mask>, n: nat, p: nat)
    requires SameExtent(masks, n) && masks != [] && p < n
    ensures Frequency(masks, n)[p] == WaterSum(masks, p) as real / |masks| as real
  {
  }

  lemma UnitFraction(s: real, m: real)
    requires s == m && m > 0.0
    ensures s / m == 1.0
  {
  }

  /** A pixel that is never water has frequency 0. */
  lemma NeverWater(masks: seq<WardMask.Mask>, n: nat, p: nat)
    requires SameExtent(masks, n) && masks != [] && p < n
    requires forall k :: 0 <= k < |masks| ==> masks[k][p] == 0
    ensures Frequency(masks, n)[p] == 0.0
  {
    ConstantSum(masks, p, 0);
    assert Frequency(masks, n)[p] == 0.0 / |masks| as real;
  }

  /** Masks that all hold value b at pixel p sum to b times their number. */
  lemma {:induction false} ConstantSum(masks: seq<WardMask.Mask>, p: nat, b: WardMask.Bit)
    requires forall k :: 0 <= k < |masks| ==> p < |masks[k]|
    requires forall k :: 0 <= k < |masks| ==> masks[k][p] == b
    ensures WaterSum(masks, p) == b * |masks|
  {
    if masks != [] {
      ConstantSum(masks[..|masks| - 1], p, b);
    }
  }

  /** A pixel that alternates water, land, water, land, ... over an even
      number of acquisitions has frequency one half. */
  lemma AlternatingHalf(masks: seq<WardMask.Mask>, n: nat, p: nat)
    requires SameExtent(masks, n) && masks != [] && p < n && |masks| % 2 == 0
    requires forall k :: 0 <= k < |masks| ==> masks[k][p] == (if k % 2 == 0 then 1 else 0)
    ensures Frequency(masks, n)[p] == 0.5
  {
    AlternatingSum(masks, p);
    var s, m := WaterSum(masks, p) as real, |masks| as real;
    assert Frequency(masks, n)[p] == s / m;
    HalfFraction(s, m);
  }

  lemma HalfFraction(s: real, m: real)
    requires m == 2.0 * s && m > 0.0
    ensures s / m == 0.5
  {
    assert 0.5 * m == s;
  }

  /** Over an even number of alternating masks, half of them are water. */
  lemma {:induction false} AlternatingSum(masks: seq<WardMask.Mask>, p: nat)
    requires forall k :: 0 <= k < |masks| ==> p < |masks[k]|
    requires |masks| % 2 == 0
    requires forall k :: 0 <= k < |masks| ==> masks[k][p] == (if k % 2 == 0 then 1 else 0)
    ensures 2 * WaterSum(masks, p) == |masks|
  {
    if masks != [] {
      var n := |masks|;
      var front := masks[..n - 1];
      var front2 := masks[..n - 2];
      assert front[..n - 2] == front2;
      AlternatingSum(front2, p);
    }
  }
}
