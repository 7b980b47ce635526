/**
  The public result of a detection call: the closed set of labels with their
  wire strings, the immutable `Detection` record and its two renderings
  (`to_h` and `to_s`).
*/
module Detections {
  import opened Wrappers

  /** The eighteen body-part classes the detector can report. */
  datatype DetectionLabel =
    | FemaleGenitaliaExposed
    | FemaleGenitaliaCovered
    | FemaleBreastExposed
    | FemaleBreastCovered
    | MaleGenitaliaExposed
    | MaleBreastExposed
    | AnusExposed
    | AnusCovered
    | ButtocksExposed
    | ButtocksCovered
    | BellyExposed
    | BellyCovered
    | FeetExposed
    | FeetCovered
    | ArmpitsExposed
    | ArmpitsCovered
    | FaceFemale
    | FaceMale

  /** Every label once, in declaration order. */
  const AllLabels: seq<DetectionLabel> := [
    FemaleGenitaliaExposed, FemaleGenitaliaCovered,
    FemaleBreastExposed, FemaleBreastCovered,
    MaleGenitaliaExposed, MaleBreastExposed,
    AnusExposed, AnusCovered,
    ButtocksExposed, ButtocksCovered,
    BellyExposed, BellyCovered,
    FeetExposed, FeetCovered,
    ArmpitsExposed, ArmpitsCovered,
    FaceFemale, FaceMale
  ]

  /** The wire string of a label (the enum's `serialize`). */
  function Serialize(l: DetectionLabel): string
  {
    match l
    case FemaleGenitaliaExposed => "FEMALE_GENITALIA_EXPOSED"
    case FemaleGenitaliaCovered => "FEMALE_GENITALIA_COVERED"
    case FemaleBreastExposed => "FEMALE_BREAST_EXPOSED"
    case FemaleBreastCovered => "FEMALE_BREAST_COVERED"
    case MaleGenitaliaExposed => "MALE_GENITALIA_EXPOSED"
    case MaleBreastExposed => "MALE_BREAST_EXPOSED"
    case AnusExposed => "ANUS_EXPOSED"
    case AnusCovered => "ANUS_COVERED"
    case ButtocksExposed => "BUTTOCKS_EXPOSED"
    case ButtocksCovered => "BUTTOCKS_COVERED"
    case BellyExposed => "BELLY_EXPOSED"
    case BellyCovered => "BELLY_COVERED"
    case FeetExposed => "FEET_EXPOSED"
    case FeetCovered => "FEET_COVERED"
    case ArmpitsExposed => "ARMPITS_EXPOSED"
    case ArmpitsCovered => "ARMPITS_COVERED"
    case FaceFemale => "FACE_FEMALE"
    case FaceMale => "FACE_MALE"
  }

  /** The first label in `ls` whose wire string is `s`. */
  function FindLabel(ls: seq<DetectionLabel>, s: string): (r: Option<DetectionLabel>)
    ensures r.Some? ==> r.value in ls && Serialize(r.value) == s
    ensures r.None? ==> forall l :: l in ls ==> Serialize(l) != s
  {
    if ls == [] then None
    else if Serialize(ls[0]) == s then Some(ls[0])
    else FindLabel(ls[1..], s)
  }

  /**
    The enum's `deserialize`: the label whose wire string is `s`, or None where
    the source raises a KeyError.
  */
  function Deserialize(s: string): (r: Option<DetectionLabel>)
  {
    FindLabel(AllLabels, s)
  }

  /** An integer box [x1, y1, x2, y2] in original-image pixels. */
  datatype Box = Box(x1: int, y1: int, x2: int, y2: int)

  /** The box as the four-element integer array the source stores. */
  function Coords(b: Box): (r: seq<int>)
    ensures |r| == 4
  {
    [b.x1, b.y1, b.x2, b.y2]
  }

  /**
    One detection. A datatype value cannot be updated in place, which is
    what the source's `const` fields promise.
  */
  datatype Detection = Detection(box: Box, score: real, category: DetectionLabel)

  /** The result of `to_h`: the box and score as stored, the label (field `category`,
      since `label` is a Dafny keyword) as its wire string. */
  datatype DetectionHash = DetectionHash(box: seq<int>, score: real, category: string)

  function ToH(d: Detection): DetectionHash
  {
    DetectionHash(Coords(d.box), d.score, Serialize(d.category))
  }

  /** Decimal digits of a natural number, most significant first. */
  function NatToString(n: nat): (r: string)
    ensures |r| >= 1
    ensures forall i :: 0 <= i < |r| ==> '0' <= r[i] <= '9'
    ensures r[0] == '0' <==> n == 0
    ensures |r| > 1 ==> r[0] != '0'
    decreases n
  {
    var digit := ['0' + (n % 10) as char];
    if n < 10 then digit else NatToString(n / 10) + digit
  }

  /** Ruby's `Integer#to_s`. */
  function IntToString(i: int): string
  {
    if i < 0 then "-" + NatToString(-i) else NatToString(i)
  }

  /** The number a string of decimal digits denotes, most significant first. */
  function DigitsValue(s: string): int
  {
    if s == [] then 0 else DigitsValue(s[..|s| - 1]) * 10 + (s[|s| - 1] as int - '0' as int)
  }

  /** The digits of `NatToString(n)` denote n. */
  lemma {:induction false} NatToStringValue(n: nat)
    ensures DigitsValue(NatToString(n)) == n
    decreases n
  {
    var digit := ['0' + (n % 10) as char];
    assert DigitsValue(digit) == n % 10 by {
      assert digit[..0] == [];
    }
    if n >= 10 {
      NatToStringValue(n / 10);
      var t := NatToString(n / 10) + digit;
      assert t[..|t| - 1] == NatToString(n / 10);
    }
  }

  /** `m` is the canonical decimal text of n: digits only, denoting n, no leading zero. */
  predicate IsDecimalOf(m: string, n: nat)
  {
    && |m| >= 1
    && (forall k :: 0 <= k < |m| ==> '0' <= m[k] <= '9')
    && DigitsValue(m) == n
    && (|m| > 1 ==> m[0] != '0')
  }

  /**
    `Integer#to_s` of a coordinate: a minus sign exactly for negative
    values, then the canonical decimal text of its magnitude.
  */
  lemma IntToStringValue(i: int)
    ensures var s := IntToString(i);
      if i < 0 then |s| >= 2 && s[0] == '-' && s[1] != '0' && IsDecimalOf(s[1..], -i)
      else s[0] != '-' && IsDecimalOf(s, i)
  {
    if i < 0 {
      NegativeText(i);
    } else {
      NatToStringValue(i);
    }
  }

  /** The text of a negative coordinate i is "-" followed by the text of -i. */
  lemma NegativeText(i: int)
    requires i < 0
    ensures var s := IntToString(i);
      |s| >= 2 && s[0] == '-' && s[1] != '0' && IsDecimalOf(s[1..], -i)
  {
    var m := NatToString(-i);
    NatToStringValue(-i);
    assert m[0] != '0' && IsDecimalOf(m, -i);
    SignedDecimal(m, -i);
  }

  lemma SignedDecimal(m: string, n: nat)
    requires IsDecimalOf(m, n) && m[0] != '0'
    ensures var s := "-" + m; |s| >= 2 && s[0] == '-' && s[1] != '0' && IsDecimalOf(s[1..], n)
  {
    assert ("-" + m)[1..] == m;
  }

  /** Ruby's `Array#to_s` for the four coordinates, e.g. "[1, 2, 3, 4]". */
  function BoxToString(b: Box): string
  {
    "[" + IntToString(b.x1) + ", " + IntToString(b.y1) + ", "
        + IntToString(b.x2) + ", " + IntToString(b.y2) + "]"
  }

  /**
    `to_s`. Ruby formats `score.round(3)` from a 32-bit float; that text is
    given as `scoreText`. `inspect` of a wire string only adds the quotes,
    since every wire string is made of capitals and underscores.
  */
  function ToS(d: Detection, scoreText: string): string
  {
    InspectText(BoxToString(d.box), scoreText, Serialize(d.category))
  }

  /** The inspection text built from the box text, the score text and the label name. */
  function InspectText(boxText: string, scoreText: string, name: string): string
  {
    "#<NudeNet::Detection box=" + boxText + " score=" + scoreText + " label=\"" + name + "\">"
  }

  /** Every label appears in AllLabels, which has eighteen entries. */
  lemma AllLabelsComplete(l: DetectionLabel)
    ensures l in AllLabels && |AllLabels| == 18
  {
  }

  /** The eighteen wire strings are pairwise distinct. */
  lemma SerializeInjective(a: DetectionLabel, b: DetectionLabel)
    ensures Serialize(a) == Serialize(b) ==> a == b
  {
  }

  /** Deserializing a label's wire string gives that label back. */
  lemma DeserializeSerialize(l: DetectionLabel)
    ensures Deserialize(Serialize(l)) == Some(l)
  {
    AllLabelsComplete(l);
    var r := FindLabel(AllLabels, Serialize(l));
    SerializeInjective(r.value, l);
  }

  /** Deserialize accepts exactly the eighteen wire strings, each for its own label. */
  lemma DeserializeIff(s: string, l: DetectionLabel)
    ensures Deserialize(s) == Some(l) <==> Serialize(l) == s
  {
    if Serialize(l) == s {
      DeserializeSerialize(l);
    }
  }

  /** `to_h` loses nothing: two detections with the same hash are equal. */
  lemma ToHInjective(d1: Detection, d2: Detection)
    ensures ToH(d1) == ToH(d2) ==> d1 == d2
  {
    if ToH(d1) == ToH(d2) {
      SerializeInjective(d1.category, d2.category);
      assert Coords(d1.box)[0] == Coords(d2.box)[0];
    }
  }

  /** `to_s` names the detection and carries the label's wire string in quotes. */
  lemma ToSShowsLabel(d: Detection, scoreText: string)
    ensures var s, p, q := ToS(d, scoreText), "#<NudeNet::Detection box=",
                           " label=\"" + Serialize(d.category) + "\">";
      |s| >= |p| + |q| && s[..|p|] == p && s[|s| - |q|..] == q
  {
    InspectFrame(BoxToString(d.box), scoreText, Serialize(d.category));
  }

  /** The frame of the inspection string, for any box text, score text and label name. */
  lemma InspectFrame(boxText: string, scoreText: string, name: string)
    ensures var s, p, q := InspectText(boxText, scoreText, name),
                           "#<NudeNet::Detection box=", " label=\"" + name + "\">";
      |s| >= |p| + |q| && s[..|p|] == p && s[|s| - |q|..] == q
  {
    var p := "#<NudeNet::Detection box=";
    var q := " label=\"" + name + "\">";
    var mid := boxText + " score=" + scoreText;
    assert p + boxText + " score=" + scoreText + " label=\"" + name + "\">" == p + mid + q;
    ConcatEnds(p, mid, q);
  }

  lemma ConcatEnds(p: string, m: string, q: string)
    ensures var s := p + m + q; s[..|p|] == p && s[|s| - |q|..] == q
  {
  }
}
