/** Flood-risk styling of the ward layer (qgis/kolkata_flood_risk.qgz.py).

    Every ward feature gets one renderer category: its ward number as the
    category value, the decimal text of the number as the label, and a colour
    chosen by risk class: red for the high-risk wards, orange for the
    medium-risk wards, translucent green for the rest. */
module FloodRisk {

  type WardNo = int

  /** The high-risk ward numbers. */
  const HighRisk: seq<WardNo> := [61, 66, 74, 93, 108, 109, 110]

  /** The medium-risk ward numbers. */
  const MediumRisk: seq<WardNo> := [75, 85, 86, 107, 111, 112]

  /** An RGBA colour, each component 0..255. */
  datatype Color = Color(red: int, green: int, blue: int, alpha: int)

  const HighRiskColor: Color := Color(255, 0, 0, 180)
  const MediumRiskColor: Color := Color(255, 165, 0, 180)
  const DefaultColor: Color := Color(0, 255, 0, 100)

  /** The colour of a ward: the high-risk test comes first, then the
      medium-risk test, then the default. */
  function RiskColor(wardNo: WardNo): (c: Color)
    ensures c == HighRiskColor <==> wardNo in HighRisk
    ensures c == MediumRiskColor <==> wardNo !in HighRisk && wardNo in MediumRisk
    ensures c == DefaultColor <==> wardNo !in HighRisk && wardNo !in MediumRisk
  {
    if wardNo in HighRisk then HighRiskColor
    else if wardNo in MediumRisk then MediumRiskColor
    else DefaultColor
  }

  /** A renderer category: value, colour of its symbol, label text. */
  datatype Category = Category(value: WardNo, color: Color, text: string)

  /** The character of a decimal digit. */
  function DigitChar(d: nat): (c: char)
    requires d < 10
    ensures '0' <= c <= '9'
  {
    (48 + d) as char
  }

  /** `str(n)` for a non-negative n: its decimal digits, most significant first,
      without leading zeros. */
  function NatToString(n: nat): (s: string)
    ensures |s| > 0
    ensures forall k :: 0 <= k < |s| ==> '0' <= s[k] <= '9'
    ensures |s| > 1 ==> s[0] != '0'
  {
    if n < 10 then [DigitChar(n)] else NatToString(n / 10) + [DigitChar(n % 10)]
  }

  /** `str(n)`: a minus sign before the digits of a negative number.  The
      text reads back as n. */
  function IntToString(n: int): (s: string)
    ensures |s| > 0
    ensures ParseInt(s) == n
  {
    if n < 0 then
      var digits := NatToString(-n);
      ParseNatToString(-n);
      assert ("-" + digits)[1..] == digits;
      "-" + digits
    else
      ParseNatToString(n);
      NatToString(n)
  }

  /** The number a string of decimal digits denotes. */
  function ParseDigits(s: string): int
  {
    if s == [] then 0 else 10 * ParseDigits(s[..|s| - 1]) + (s[|s| - 1] as int - 48)
  }

  /** `int(s)` on the strings `str` produces. */
  function ParseInt(s: string): int
  {
    if |s| > 0 && s[0] == '-' then -ParseDigits(s[1..]) else ParseDigits(s)
  }

  /** The category loop: one category per feature, in feature order. */
  method BuildCategories(features: seq<WardNo>) returns (categories: seq<Category>)
    ensures |categories| == |features|
    ensures forall k :: 0 <= k < |features| ==>
              categories[k] == Category(features[k], RiskColor(features[k]), IntToString(features[k]))
  {
    categories := [];
    var i := 0;
    while i < |features|
      invariant 0 <= i <= |features|
      invariant |categories| == i
      invariant forall k :: 0 <= k < i ==>
                  categories[k] == Category(features[k], RiskColor(features[k]), IntToString(features[k]))
    {
      var wardNo := features[i];
      var color := RiskColor(wardNo);
      categories := categories + [Category(wardNo, color, IntToString(wardNo))];
      i := i + 1;
    }
  }

  /** No ward is both high- and medium-risk, so the order of the tests never
      decides a listed ward's colour. */
  lemma RiskListsDisjoint()
    ensures forall w :: w in HighRisk ==> w !in MediumRisk
  {
  }

  /** Each listed ward gets the colour of its own list. */
  lemma {:induction false} ListedWardColor(wardNo: WardNo)
    ensures wardNo in HighRisk ==> RiskColor(wardNo) == HighRiskColor
    ensures wardNo in MediumRisk ==> RiskColor(wardNo) == MediumRiskColor
  {
    RiskListsDisjoint();
  }

  /** Reading the digits of n back gives n. */
  lemma {:induction false} ParseNatToString(n: nat)
    ensures ParseDigits(NatToString(n)) == n
  {
    if n >= 10 {
      ParseNatToString(n / 10);
      var s := NatToString(n);
      assert s[..|s| - 1] == NatToString(n / 10);
    }
  }

  /** Distinct ward numbers get distinct labels. */
  lemma LabelsDistinct(a: WardNo, b: WardNo)
    ensures a != b ==> IntToString(a) != IntToString(b)
  {
  }

  /** The labels of a few ward numbers. */
  lemma LabelExamples()
    ensures IntToString(7) == "7"
    ensures IntToString(61) == "61"
    ensures IntToString(110) == "110"
  {
    assert NatToString(6) == "6";
    assert NatToString(11) == "11";
  }
}
