/** Band choice of the speckle filter (`apply_speckle_filter`): the filter runs
    on VV when the image has it, else on VH, else on HH (the ALOS-2 case, which
    the source assumes without checking), and names its output band after the
    input band with the suffix `_filtered`. */
module Bands {

  /** The bands in order of preference. */
  const Preference: seq<string> := ["VV", "VH", "HH"]

  /** The band the filter reads, given the image's band names. */
  function SelectBand(bandNames: seq<string>): (band: string)
    ensures band in Preference
    ensures band == "VV" <==> "VV" in bandNames
    ensures band == "VH" <==> "VV" !in bandNames && "VH" in bandNames
    ensures band == "HH" <==> "VV" !in bandNames && "VH" !in bandNames
  {
    if "VV" in bandNames then "VV"
    else if "VH" in bandNames then "VH"
    else "HH"
  }

  /** The name of the filtered band. */
  function FilteredBandName(band: string): (name: string)
    ensures |name| == |band| + 9
    ensures name[..|band|] == band
    ensures name[|band|..] == "_filtered"
  {
    band + "_filtered"
  }

  /** The chosen band is the first band of the preference order that the image
      has; when it has neither VV nor VH the last one, HH, is taken whether or
      not the image has it. */
  lemma SelectBandIsFirstPreferred(bandNames: seq<string>)
    ensures exists i ::
              && 0 <= i < |Preference|
              && SelectBand(bandNames) == Preference[i]
              && (Preference[i] in bandNames || i == |Preference| - 1)
              && (forall j :: 0 <= j < i ==> Preference[j] !in bandNames)
  {
    var band := SelectBand(bandNames);
    if band == "VV" {
      assert Preference[0] == band;
    } else if band == "VH" {
      assert Preference[1] == band;
    } else {
      assert Preference[2] == band;
    }
  }

  /** Distinct bands give distinct filtered names, and the band can be read
      back from the filtered name. */
  lemma FilteredBandNameInjective(a: string, b: string)
    ensures FilteredBandName(a) == FilteredBandName(b) ==> a == b
  {
    if FilteredBandName(a) == FilteredBandName(b) {
      assert |a| == |b|;
      assert a == FilteredBandName(a)[..|a|];
    }
  }
}
