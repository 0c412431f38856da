/** Water classification and ward mask synthesis
    (`detect_water_with_ward_thresholds`).

    An image is a sequence of filtered backscatter values, one per pixel; a
    ward's geometry is the set of pixel indices it covers.  A pixel is water
    when it is strictly below the threshold.  The synthesis starts from an
    all-zero mask and, for each ward id in the threshold table, ORs in that
    ward's `pixel < threshold` mask clipped to the ward.  Pixels that the
    clip removes read as 0. */
module WardMask {
  import opened Wrappers

  type Bit = b: int | 0 <= b <= 1
  type Image = seq<real>
  type Mask = seq<Bit>
  type WardId = int

  /** A ward of the feature collection: its id and its geometry. */
  datatype Ward = Ward(wardId: WardId, pixels: set<nat>)

  /** `band.lt(threshold)` at one pixel: 1 for water, 0 for land. */
  function Lt(pixel: real, threshold: real): (b: Bit)
    ensures b == 1 <==> pixel < threshold
  {
    if pixel < threshold then 1 else 0
  }

  /** `band.lt(threshold)` over a whole image. */
  function LtImage(image: Image, threshold: real): (m: Mask)
    ensures |m| == |image|
    ensures forall p :: 0 <= p < |image| ==> (m[p] == 1 <==> image[p] < threshold)
  {
    seq(|image|, p requires 0 <= p < |image| => Lt(image[p], threshold))
  }

  /** `mask.clip(geometry)`: pixels outside the geometry become 0. */
  function Clip(m: Mask, region: set<nat>): (r: Mask)
    ensures |r| == |m|
    ensures forall p :: 0 <= p < |m| ==> (r[p] == 1 <==> p in region && m[p] == 1)
  {
    seq(|m|, p requires 0 <= p < |m| => if p in region then m[p] else 0)
  }

  /** `a.Or(b)` pixel by pixel. */
  function Or(a: Mask, b: Mask): (r: Mask)
    requires |a| == |b|
    ensures |r| == |a|
    ensures forall p :: 0 <= p < |a| ==> (r[p] == 1 <==> a[p] == 1 || b[p] == 1)
  {
    seq(|a|, p requires 0 <= p < |a| => if a[p] == 1 || b[p] == 1 then 1 else 0)
  }

  /** `ee.Image(0)` over an image of n pixels. */
  function Zeros(n: nat): (m: Mask)
    ensures |m| == n
    ensures forall p :: 0 <= p < n ==> m[p] == 0
  {
    seq(n, p => 0)
  }

  /** `wards.filter(eq('ward_id', id)).first().geometry()`: the geometry of the
      first ward with that id, or None when there is none. */
  function GeometryOf(wards: seq<Ward>, id: WardId): (g: Option<set<nat>>)
    ensures g.None? <==> forall k :: 0 <= k < |wards| ==> wards[k].wardId != id
    ensures g.Some? ==> exists k ::
              && 0 <= k < |wards| && wards[k].wardId == id && wards[k].pixels == g.value
              && forall j :: 0 <= j < k ==> wards[j].wardId != id
  {
    if wards == [] then None
    else if wards[0].wardId == id then Some(wards[0].pixels)
    else
      var g' := GeometryOf(wards[1..], id);
      assert forall k :: 1 <= k < |wards| ==> wards[k] == wards[1..][k - 1];
      g'
  }

  /** Ward `id`'s threshold marks pixel p as water: p lies in the ward and is
      below the ward's threshold. */
  ghost predicate WaterVia(image: Image, wards: seq<Ward>, thresholds: map<WardId, real>, id: WardId, p: nat)
    requires p < |image|
  {
    && id in thresholds
    && GeometryOf(wards, id).Some?
    && p in GeometryOf(wards, id).value
    && image[p] < thresholds[id]
  }

  /** Every ward id of the table has a ward in the collection. */
  predicate AllWardsFound(wards: seq<Ward>, thresholds: map<WardId, real>) {
    forall id :: id in thresholds ==> GeometryOf(wards, id).Some?
  }

  /** The mask the synthesis should produce: a pixel is water iff some ward of
      the table contains it and it is below that ward's threshold. */
  ghost function WaterMask(image: Image, wards: seq<Ward>, thresholds: map<WardId, real>): (m: Mask)
    ensures |m| == |image|
  {
    seq(|image|, p requires 0 <= p < |image| =>
      if exists id :: WaterVia(image, wards, thresholds, id, p) then 1 else 0)
  }

  /** The loop of `detect_water_with_ward_thresholds`.  `order` is the
      iteration order of the threshold table: it lists each of its keys.  The
      result is None when a ward id of the table has no ward (the host's
      `first()` is then null and taking its geometry fails). */
  method DetectWaterWithWardThresholds(image: Image, wards: seq<Ward>, thresholds: map<WardId, real>, order: seq<WardId>)
    returns (r: Option<Mask>)
    requires forall id :: id in thresholds <==> id in order
    ensures r.None? <==> !AllWardsFound(wards, thresholds)
    ensures r.Some? ==> r.value == WaterMask(image, wards, thresholds)
  {
    var waterMask := Zeros(|image|);
    var i := 0;
    while i < |order|
      invariant 0 <= i <= |order|
      invariant |waterMask| == |image|
      invariant forall j :: 0 <= j < i ==> GeometryOf(wards, order[j]).Some?
      invariant forall p :: 0 <= p < |image| ==>
                  (waterMask[p] == 1 <==> exists j :: 0 <= j < i && WaterVia(image, wards, thresholds, order[j], p))
    {
      var wardId := order[i];
      var geometry := GeometryOf(wards, wardId);
      if geometry.None? {
        assert wardId in thresholds;
        return None;
      }
      var wardWater := Clip(LtImage(image, thresholds[wardId]), geometry.value);
      var next := Or(waterMask, wardWater);
      forall p | 0 <= p < |image|
        ensures next[p] == 1 <==> exists j :: 0 <= j < i + 1 && WaterVia(image, wards, thresholds, order[j], p)
      {
        if next[p] == 1 && waterMask[p] != 1 {
          assert WaterVia(image, wards, thresholds, order[i], p);
        }
      }
      waterMask, i := next, i + 1;
    }
    forall id | id in thresholds
      ensures GeometryOf(wards, id).Some?
    {
      var j :| 0 <= j < |order| && order[j] == id;
    }
    ghost var expected := WaterMask(image, wards, thresholds);
    forall p | 0 <= p < |image|
      ensures waterMask[p] == expected[p]
    {
      if exists id :: WaterVia(image, wards, thresholds, id, p) {
        var id :| WaterVia(image, wards, thresholds, id, p);
        var j :| 0 <= j < |order| && order[j] == id;
        assert WaterVia(image, wards, thresholds, order[j], p);
      }
    }
    r := Some(waterMask);
  }

  /** Classification is strict: a pixel equal to the threshold is land. */
  lemma LtStrict(t: real, pixel: real)
    ensures Lt(t, t) == 0
    ensures pixel < t ==> Lt(pixel, t) == 1
    ensures pixel >= t ==> Lt(pixel, t) == 0
  {
  }

  /** A pixel that lies in no ward is 0 in the combined mask. */
  lemma {:induction false} OutsideEveryWardIsLand(image: Image, wards: seq<Ward>, thresholds: map<WardId, real>, p: nat)
    requires p < |image|
    requires forall k :: 0 <= k < |wards| ==> p !in wards[k].pixels
    ensures WaterMask(image, wards, thresholds)[p] == 0
  {
    forall id
      ensures !WaterVia(image, wards, thresholds, id, p)
    {
      if GeometryOf(wards, id).Some? {
        var k :| && 0 <= k < |wards| && wards[k].wardId == id && wards[k].pixels == GeometryOf(wards, id).value
                 && forall j :: 0 <= j < k ==> wards[j].wardId != id;
        assert p !in GeometryOf(wards, id).value;
      }
    }
  }

  /** Water in the combined mask is exactly water in some ward's clipped mask:
      the union of the per-ward masks. */
  lemma {:induction false} WaterMaskIsUnion(image: Image, wards: seq<Ward>, thresholds: map<WardId, real>, p: nat)
    requires p < |image|
    ensures WaterMask(image, wards, thresholds)[p] == 1 <==>
            exists id :: id in thresholds && GeometryOf(wards, id).Some? &&
                         Clip(LtImage(image, thresholds[id]), GeometryOf(wards, id).value)[p] == 1
  {
    if WaterMask(image, wards, thresholds)[p] == 1 {
      var id :| WaterVia(image, wards, thresholds, id, p);
      assert Clip(LtImage(image, thresholds[id]), GeometryOf(wards, id).value)[p] == 1;
    }
    if exists id :: id in thresholds && GeometryOf(wards, id).Some? &&
                    Clip(LtImage(image, thresholds[id]), GeometryOf(wards, id).value)[p] == 1 {
      var id :| id in thresholds && GeometryOf(wards, id).Some? &&
                Clip(LtImage(image, thresholds[id]), GeometryOf(wards, id).value)[p] == 1;
      assert WaterVia(image, wards, thresholds, id, p);
    }
  }

  /** Two wards covering the left and right halves of a four-pixel image, with
      thresholds -16 and -14, over an image whose left half is -18 and right
      half -12: the left half is water and the right half, being above its
      ward's threshold, is land. */
  lemma TwoHalves()
    ensures WaterMask([-18.0, -18.0, -12.0, -12.0],
                      [Ward(1, {0, 1}), Ward(2, {2, 3})],
                      map[1 := -16.0, 2 := -14.0]) == [1, 1, 0, 0]
  {
    var image := [-18.0, -18.0, -12.0, -12.0];
    var wards := [Ward(1, {0, 1}), Ward(2, {2, 3})];
    var thresholds := map[1 := -16.0, 2 := -14.0];
    assert GeometryOf(wards, 1) == Some({0, 1});
    assert GeometryOf(wards, 2) == Some({2, 3});
    assert WaterVia(image, wards, thresholds, 1, 0);
    assert WaterVia(image, wards, thresholds, 1, 1);
    forall id, p | 2 <= p < 4
      ensures !WaterVia(image, wards, thresholds, id, p)
    {
      if GeometryOf(wards, id).Some? && p in GeometryOf(wards, id).value {
        assert id == 2;
      }
    }
  }
}
