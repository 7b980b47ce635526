/**
  Decoding of the detector's raw output (`process_yolov8_detections`): from
  the output tensor and the class-name list to the suppressed detections.

  The output tensor has shape [1, 4 + C, N]: for each of the N anchors, the
  box centre, width and height in resized-image pixels, then one score per
  class.
*/
module Decoder {
  import opened Wrappers
  import opened Detections
  import opened Nms

  /** `min_prob ||= 0.25`: the confidence floor when the caller gives none. */
  const DefaultMinProb: real := 0.25

  function EffectiveMinProb(minProb: Option<real>): (r: real)
    ensures minProb.None? ==> r == DefaultMinProb
    ensures minProb.Some? ==> r == minProb.value
  {
    match minProb
    case None => DefaultMinProb
    case Some(p) => p
  }

  // ---------------------------------------------------------------------------
  // Rounding

  /** Ruby's `Float#round`: nearest integer, halves rounded away from zero. */
  function Round(x: real): int
  {
    if x >= 0.0 then (x + 0.5).Floor else -((-x + 0.5).Floor)
  }

  /** The rounded value is within half a unit of its argument. */
  lemma RoundIsNearest(x: real)
    ensures x - 0.5 <= Round(x) as real <= x + 0.5
  {
  }

  /** Exact halves go away from zero. */
  lemma RoundHalfAwayFromZero(n: nat)
    ensures Round(n as real + 0.5) == n + 1
    ensures Round(-(n as real + 0.5)) == -(n + 1)
  {
  }

  lemma FloorMonotone(a: real, b: real)
    requires a <= b
    ensures a.Floor <= b.Floor
  {
  }

  /** Rounding never reverses the order of two values. */
  lemma RoundMonotone(a: real, b: real)
    requires a <= b
    ensures Round(a) <= Round(b)
  {
    if a >= 0.0 {
      FloorMonotone(a + 0.5, b + 0.5);
    } else if b < 0.0 {
      FloorMonotone(-b + 0.5, -a + 0.5);
    } else {
      assert Round(a) <= 0 <= Round(b);
    }
  }

  // ---------------------------------------------------------------------------
  // Class scores of one anchor

  /** Numo's `max` over the class scores. */
  function MaxOf(s: seq<real>): (m: real)
    requires |s| > 0
    ensures m in s
    ensures forall i :: 0 <= i < |s| ==> s[i] <= m
  {
    if |s| == 1 then s[0]
    else
      var rest := MaxOf(s[1..]);
      if s[0] >= rest then s[0] else rest
  }

  /** Ruby's `Array#index`: the first position holding `x`, or None. */
  function FirstIndexOf(s: seq<real>, x: real): (r: Option<nat>)
    ensures r.Some? ==> r.value < |s| && s[r.value] == x
    ensures r.Some? ==> forall j :: 0 <= j < r.value ==> s[j] != x
    ensures r.None? ==> forall j :: 0 <= j < |s| ==> s[j] != x
  {
    if s == [] then None
    else if s[0] == x then Some(0)
    else match FirstIndexOf(s[1..], x)
      case None => None
      case Some(i) => Some(i + 1)
  }

  /** `k` is the first index at which `s` reaches its maximum. */
  predicate IsFirstArgMax(s: seq<real>, k: int)
  {
    0 <= k < |s|
    && (forall j :: 0 <= j < |s| ==> s[j] <= s[k])
    && (forall j :: 0 <= j < k ==> s[j] < s[k])
  }

  /** The index lookup after `max` always succeeds and yields the first arg-max. */
  lemma FirstIndexOfMax(s: seq<real>)
    requires |s| > 0
    ensures FirstIndexOf(s, MaxOf(s)).Some?
    ensures IsFirstArgMax(s, FirstIndexOf(s, MaxOf(s)).value)
  {
    var m := MaxOf(s);
    var j :| 0 <= j < |s| && s[j] == m;
  }

  /** There is only one first arg-max. */
  lemma FirstArgMaxUnique(s: seq<real>, k1: int, k2: int)
    requires IsFirstArgMax(s, k1) && IsFirstArgMax(s, k2)
    ensures k1 == k2
  {
    assert s[k1] == s[k2];
  }

  // ---------------------------------------------------------------------------
  // One anchor

  /**
    Centre format to corner format, divided by the resize scale and rounded:
    the box in original-image pixels.
  */
  function CornerBox(xc: real, yc: real, w: real, h: real, scale: real): Box
    requires scale > 0.0
  {
    Box(Round((xc - w / 2.0) / scale), Round((yc - h / 2.0) / scale),
        Round((xc + w / 2.0) / scale), Round((yc + h / 2.0) / scale))
  }

  /** Non-negative sizes give x1 <= x2 and y1 <= y2. */
  lemma CornerBoxWellFormed(xc: real, yc: real, w: real, h: real, scale: real)
    requires scale > 0.0 && w >= 0.0 && h >= 0.0
    ensures Iou.WellFormed(CornerBox(xc, yc, w, h, scale))
  {
    assert (xc - w / 2.0) / scale <= (xc + w / 2.0) / scale;
    assert (yc - h / 2.0) / scale <= (yc + h / 2.0) / scale;
    RoundMonotone((xc - w / 2.0) / scale, (xc + w / 2.0) / scale);
    RoundMonotone((yc - h / 2.0) / scale, (yc + h / 2.0) / scale);
  }

  /** Each corner is within half a pixel of the exact rescaled corner. */
  lemma CornerBoxWithinHalfPixel(xc: real, yc: real, w: real, h: real, scale: real)
    requires scale > 0.0
    ensures var b := CornerBox(xc, yc, w, h, scale);
      && (xc - w / 2.0) / scale - 0.5 <= b.x1 as real <= (xc - w / 2.0) / scale + 0.5
      && (yc - h / 2.0) / scale - 0.5 <= b.y1 as real <= (yc - h / 2.0) / scale + 0.5
      && (xc + w / 2.0) / scale - 0.5 <= b.x2 as real <= (xc + w / 2.0) / scale + 0.5
      && (yc + h / 2.0) / scale - 0.5 <= b.y2 as real <= (yc + h / 2.0) / scale + 0.5
  {
    RoundIsNearest((xc - w / 2.0) / scale);
    RoundIsNearest((yc - h / 2.0) / scale);
    RoundIsNearest((xc + w / 2.0) / scale);
    RoundIsNearest((yc + h / 2.0) / scale);
  }

  /** What the loop body does with one anchor. */
  datatype AnchorOutcome =
    | Skip                          // `next`: below the floor, or no class name for the index
    | Emit(detection: Detection)    // a candidate is appended
    | UnknownClass(name: string)    // `DetectionLabel.deserialize` raises on this name

  /**
    One anchor's row [x_center, y_center, width, height, score_0, ...]: keep
    it when its best class score reaches `minProb` and the first class index
    attaining that score is below the length of the class list. The name at
    that index must then be a label's wire string; any other name aborts the
    whole decoding, as `DetectionLabel.deserialize` raises.
  */
  function DecodeAnchor(row: seq<real>, classes: seq<string>, scale: real, minProb: real): AnchorOutcome
    requires |row| >= 5 && scale > 0.0
  {
    var scores := row[4..];
    var maxScore := MaxOf(scores);
    if maxScore < minProb then Skip
    else match FirstIndexOf(scores, maxScore)
      case None => Skip
      case Some(idx) =>
        if idx >= |classes| then Skip
        else match Deserialize(classes[idx])
          case None => UnknownClass(classes[idx])
          case Some(found) =>
            Emit(Detection(CornerBox(row[0], row[1], row[2], row[3], scale), maxScore, found))
  }

  /**
    An anchor is emitted exactly when some class index k is the first arg-max
    of its scores, that score reaches the floor, and `classes[k]` is the wire
    string of the label; the detection then carries that score, that label
    and the rescaled corner box.
  */
  lemma DecodeAnchorEmitIff(row: seq<real>, classes: seq<string>, scale: real, minProb: real, d: Detection)
    requires |row| >= 5 && scale > 0.0
    ensures DecodeAnchor(row, classes, scale, minProb) == Emit(d) <==>
      exists k :: IsFirstArgMax(row[4..], k) && k < |classes|
        && row[4 + k] >= minProb
        && Serialize(d.category) == classes[k]
        && d.score == row[4 + k]
        && d.box == CornerBox(row[0], row[1], row[2], row[3], scale)
  {
    var scores := row[4..];
    FirstIndexOfMax(scores);
    var idx := FirstIndexOf(scores, MaxOf(scores)).value;
    assert scores[idx] == row[4 + idx];
    if DecodeAnchor(row, classes, scale, minProb) == Emit(d) {
      DeserializeIff(classes[idx], d.category);
    }
    if exists k :: IsFirstArgMax(scores, k) && k < |classes|
        && row[4 + k] >= minProb
        && Serialize(d.category) == classes[k]
        && d.score == row[4 + k]
        && d.box == CornerBox(row[0], row[1], row[2], row[3], scale)
    {
      var k :| IsFirstArgMax(scores, k) && k < |classes|
        && row[4 + k] >= minProb
        && Serialize(d.category) == classes[k]
        && d.score == row[4 + k]
        && d.box == CornerBox(row[0], row[1], row[2], row[3], scale);
      FirstArgMaxUnique(scores, k, idx);
      DeserializeIff(classes[idx], d.category);
    }
  }

  /**
    An anchor is dropped exactly when its best score is under the floor or
    the first arg-max index has no entry in the class list.
  */
  lemma DecodeAnchorSkipIff(row: seq<real>, classes: seq<string>, scale: real, minProb: real, k: int)
    requires |row| >= 5 && scale > 0.0 && IsFirstArgMax(row[4..], k)
    ensures DecodeAnchor(row, classes, scale, minProb) == Skip <==>
      row[4 + k] < minProb || k >= |classes|
  {
    var scores := row[4..];
    FirstIndexOfMax(scores);
    FirstArgMaxUnique(scores, k, FirstIndexOf(scores, MaxOf(scores)).value);
  }

  /** The call fails on an anchor only for a class name that is not a label's wire string. */
  lemma DecodeAnchorUnknownClass(row: seq<real>, classes: seq<string>, scale: real, minProb: real, name: string)
    requires |row| >= 5 && scale > 0.0
    requires DecodeAnchor(row, classes, scale, minProb) == UnknownClass(name)
    ensures name in classes && Deserialize(name).None?
    ensures forall l :: Serialize(l) != name
  {
    forall l ensures Serialize(l) != name {
      DeserializeIff(name, l);
    }
  }

  // ---------------------------------------------------------------------------
  // The whole output tensor

  /** The reason a decoding call aborts. */
  datatype DecodeError = UnknownLabel(name: string)

  /**
    The shape [1, 4 + C, N] with C >= 1, indexed output[batch][feature][anchor]:
    every feature row holds one value per anchor.
  */
  predicate WellShaped(output: seq<seq<seq<real>>>)
  {
    |output| >= 1 && |output[0]| >= 5
    && forall f :: 0 <= f < |output[0]| ==> |output[0][f]| == |output[0][0]|
  }

  function AnchorCount(output: seq<seq<seq<real>>>): nat
    requires WellShaped(output)
  {
    |output[0][0]|
  }

  /**
    Row i of `output.transpose(0, 2, 1)[0, true, true]`: the features of
    anchor i.
  */
  function AnchorRow(output: seq<seq<seq<real>>>, i: nat): (row: seq<real>)
    requires WellShaped(output) && i < AnchorCount(output)
    ensures |row| == |output[0]|
    ensures forall f :: 0 <= f < |row| ==> row[f] == output[0][f][i]
  {
    seq(|output[0]|, f requires 0 <= f < |output[0]| => output[0][f][i])
  }

  /** The outcome of every anchor, in anchor order. */
  function AnchorOutcomes(output: seq<seq<seq<real>>>, classes: seq<string>, scale: real,
                          minProb: real): (r: seq<AnchorOutcome>)
    requires WellShaped(output) && scale > 0.0
    ensures |r| == AnchorCount(output)
    ensures forall i :: 0 <= i < |r| ==> r[i] == DecodeAnchor(AnchorRow(output, i), classes, scale, minProb)
  {
    seq(AnchorCount(output), i requires 0 <= i < AnchorCount(output) =>
      DecodeAnchor(AnchorRow(output, i), classes, scale, minProb))
  }

  /**
    The candidates the loop collects from a run of anchor outcomes, in
    order, or the error of the first anchor whose class name is not a label.
  */
  function Collect(outcomes: seq<AnchorOutcome>): Result<seq<Detection>, DecodeError>
  {
    if outcomes == [] then Success([])
    else match Collect(outcomes[..|outcomes| - 1])
      case Failure(e) => Failure(e)
      case Success(ds) =>
        match outcomes[|outcomes| - 1]
        case Skip => Success(ds)
        case Emit(d) => Success(ds + [d])
        case UnknownClass(name) => Failure(UnknownLabel(name))
  }

  /** One more anchor: the loop body's effect on the collected candidates. */
  lemma CollectStep(outcomes: seq<AnchorOutcome>, i: nat)
    requires i < |outcomes| && Collect(outcomes[..i]).Success?
    ensures var ds := Collect(outcomes[..i]).value;
      Collect(outcomes[..i + 1]) == match outcomes[i]
        case Skip => Success(ds)
        case Emit(d) => Success(ds + [d])
        case UnknownClass(name) => Failure(UnknownLabel(name))
  {
    assert outcomes[..i + 1][..i] == outcomes[..i];
  }

  /** Once an anchor has raised, no later anchor changes the outcome. */
  lemma {:induction false} CollectFailureSticks(outcomes: seq<AnchorOutcome>, i: nat)
    requires i <= |outcomes|
    requires Collect(outcomes[..i]).Failure?
    ensures Collect(outcomes) == Collect(outcomes[..i])
    decreases |outcomes|
  {
    if i < |outcomes| {
      var prefix := outcomes[..|outcomes| - 1];
      assert prefix[..i] == outcomes[..i];
      CollectFailureSticks(prefix, i);
    } else {
      assert outcomes[..i] == outcomes;
    }
  }

  /**
    The detections a run of anchor outcomes emits, one per emitting anchor,
    in anchor order: a front-to-back filter, independent of `Collect`.
  */
  function Emitted(outcomes: seq<AnchorOutcome>): seq<Detection>
  {
    if outcomes == [] then []
    else (if outcomes[0].Emit? then [outcomes[0].detection] else []) + Emitted(outcomes[1..])
  }

  lemma {:induction false} EmittedAppend(a: seq<AnchorOutcome>, b: seq<AnchorOutcome>)
    ensures Emitted(a + b) == Emitted(a) + Emitted(b)
    decreases |a|
  {
    if a == [] {
      assert a + b == b;
    } else {
      assert (a + b)[1..] == a[1..] + b;
      EmittedAppend(a[1..], b);
    }
  }

  /** Each detection in the filter comes from an emitting anchor, and each emitting anchor's detection is in it. */
  lemma {:induction false} EmittedMembers(outcomes: seq<AnchorOutcome>)
    ensures |Emitted(outcomes)| <= |outcomes|
    ensures forall d :: d in Emitted(outcomes) <==> exists i :: 0 <= i < |outcomes| && outcomes[i] == Emit(d)
    decreases |outcomes|
  {
    if outcomes != [] {
      var rest := outcomes[1..];
      EmittedMembers(rest);
      forall d | (exists i :: 0 <= i < |outcomes| && outcomes[i] == Emit(d)) ensures d in Emitted(outcomes) {
        var i :| 0 <= i < |outcomes| && outcomes[i] == Emit(d);
        if i > 0 {
          assert rest[i - 1] == outcomes[i];
        }
      }
      forall d | d in Emitted(outcomes) ensures exists i :: 0 <= i < |outcomes| && outcomes[i] == Emit(d) {
        if d in Emitted(rest) {
          var i :| 0 <= i < |rest| && rest[i] == Emit(d);
          assert outcomes[i + 1] == Emit(d);
        } else {
          assert outcomes[0] == Emit(d);
        }
      }
    }
  }

  /** No anchor in the run raises. */
  predicate NoneRaise(outcomes: seq<AnchorOutcome>)
  {
    forall i :: 0 <= i < |outcomes| ==> !outcomes[i].UnknownClass?
  }

  /** Anchor i raises and no earlier anchor does. */
  predicate FirstRaiseAt(outcomes: seq<AnchorOutcome>, i: int)
  {
    0 <= i < |outcomes| && outcomes[i].UnknownClass?
    && forall j :: 0 <= j < i ==> !outcomes[j].UnknownClass?
  }

  /**
    The loop runs to the end exactly when no anchor raises, and then its
    candidates are exactly the emitted detections, in anchor order and with
    their multiplicity.
  */
  lemma {:induction false} CollectCandidates(outcomes: seq<AnchorOutcome>)
    ensures Collect(outcomes).Success? <==> NoneRaise(outcomes)
    ensures Collect(outcomes).Success? ==> Collect(outcomes).value == Emitted(outcomes)
    decreases |outcomes|
  {
    if outcomes != [] {
      var n := |outcomes|;
      var prefix := outcomes[..n - 1];
      CollectCandidates(prefix);
      assert outcomes == prefix + [outcomes[n - 1]];
      EmittedAppend(prefix, [outcomes[n - 1]]);
      assert Emitted([outcomes[n - 1]]) == (if outcomes[n - 1].Emit? then [outcomes[n - 1].detection] else []);
      assert forall j :: 0 <= j < n - 1 ==> prefix[j] == outcomes[j];
    }
  }

  /** A run fails with the name carried by the first anchor that raises. */
  lemma {:induction false} CollectFailure(outcomes: seq<AnchorOutcome>) returns (i: nat)
    requires Collect(outcomes).Failure?
    ensures FirstRaiseAt(outcomes, i)
    ensures Collect(outcomes).error == UnknownLabel(outcomes[i].name)
    decreases |outcomes|
  {
    var n := |outcomes|;
    var prefix := outcomes[..n - 1];
    if Collect(prefix).Failure? {
      i := CollectFailure(prefix);
      assert outcomes[i] == prefix[i];
      forall j | 0 <= j < i ensures !outcomes[j].UnknownClass? {
        assert outcomes[j] == prefix[j];
      }
    } else {
      CollectCandidates(prefix);
      i := n - 1;
      forall j | 0 <= j < i ensures !outcomes[j].UnknownClass? {
        assert outcomes[j] == prefix[j];
      }
    }
  }

  /** The candidates of the whole tensor, before suppression. */
  function DecodeAll(output: seq<seq<seq<real>>>, classes: seq<string>, scale: real,
                     minProb: real): Result<seq<Detection>, DecodeError>
    requires WellShaped(output) && scale > 0.0
  {
    Collect(AnchorOutcomes(output, classes, scale, minProb))
  }

  /**
    Decoding before suppression. It fails exactly when some anchor raises,
    and then with the name of the first such anchor, a listed class name
    that is no label's wire string. Otherwise the candidates are the
    emitted detections in anchor order: at most one per anchor, each from an
    emitting anchor, and every emitting anchor's detection present.
  */
  lemma DecodeAllProperties(output: seq<seq<seq<real>>>, classes: seq<string>, scale: real, minProb: real)
    requires WellShaped(output) && scale > 0.0
    ensures var outcomes, r := AnchorOutcomes(output, classes, scale, minProb),
                               DecodeAll(output, classes, scale, minProb);
      && (r.Failure? <==> exists i :: 0 <= i < |outcomes| && outcomes[i].UnknownClass?)
      && (r.Success? ==>
            && r.value == Emitted(outcomes)
            && |r.value| <= AnchorCount(output)
            && forall d :: d in r.value <==>
                 exists i :: 0 <= i < AnchorCount(output)
                   && DecodeAnchor(AnchorRow(output, i), classes, scale, minProb) == Emit(d))
      && (r.Failure? ==>
            && (exists i :: FirstRaiseAt(outcomes, i) && r.error.name == outcomes[i].name)
            && r.error.name in classes && forall l :: Serialize(l) != r.error.name)
  {
    var outcomes := AnchorOutcomes(output, classes, scale, minProb);
    CollectCandidates(outcomes);
    if Collect(outcomes).Success? {
      EmittedMembers(outcomes);
    } else {
      var i := CollectFailure(outcomes);
      DecodeAnchorUnknownClass(AnchorRow(output, i), classes, scale, minProb, Collect(outcomes).error.name);
    }
  }

  /**
    `process_yolov8_detections`: walk the anchors, append each emitted
    candidate, then suppress overlaps with threshold 0.45.
  */
  method ProcessYolov8Detections(output: seq<seq<seq<real>>>, classes: seq<string>, scale: real, minProb: real)
    returns (r: Result<seq<Detection>, DecodeError>)
    requires WellShaped(output) && scale > 0.0
    ensures r.Failure? <==> DecodeAll(output, classes, scale, minProb).Failure?
    ensures r.Failure? ==> r == DecodeAll(output, classes, scale, minProb)
    ensures r.Success? ==>
      r.value == Greedy(SortByScore(DecodeAll(output, classes, scale, minProb).value), NmsIouThreshold)
    ensures r.Failure? <==>
      (exists i :: 0 <= i < AnchorCount(output)
         && DecodeAnchor(AnchorRow(output, i), classes, scale, minProb).UnknownClass?)
    ensures r.Success? ==>
      r.value == Greedy(SortByScore(Emitted(AnchorOutcomes(output, classes, scale, minProb))), NmsIouThreshold)
  {
    ghost var outcomes := AnchorOutcomes(output, classes, scale, minProb);
    var detections: seq<Detection> := [];
    var n := AnchorCount(output);
    for i := 0 to n
      invariant Collect(outcomes[..i]) == Success(detections)
    {
      var row := AnchorRow(output, i);
      ghost var outcome := DecodeAnchor(row, classes, scale, minProb);
      assert outcomes[i] == outcome;
      var xCenter, yCenter, width, height := row[0], row[1], row[2], row[3];
      var classScores := row[4..];
      var maxScore := MaxOf(classScores);
      if maxScore < minProb {
        assert outcome == Skip;
        CollectStep(outcomes, i);
        continue;
      }
      var maxClassIdx := FirstIndexOf(classScores, maxScore);
      if maxClassIdx.None? || maxClassIdx.value >= |classes| {
        assert outcome == Skip;
        CollectStep(outcomes, i);
        continue;
      }
      var labelString := classes[maxClassIdx.value];
      var parsed := Deserialize(labelString);
      if parsed.None? {
        r := Failure(UnknownLabel(labelString));
        assert outcome == UnknownClass(labelString);
        CollectStep(outcomes, i);
        CollectFailureSticks(outcomes, i + 1);
        DecodeAllProperties(output, classes, scale, minProb);
        return;
      }
      var box := CornerBox(xCenter, yCenter, width, height, scale);
      assert outcome == Emit(Detection(box, maxScore, parsed.value));
      CollectStep(outcomes, i);
      detections := detections + [Detection(box, maxScore, parsed.value)];
    }
    assert outcomes[..n] == outcomes;
    var kept := ApplyNms(detections, NmsIouThreshold);
    r := Success(kept);
    DecodeAllProperties(output, classes, scale, minProb);
  }

  /** An emitted candidate reaches the floor, carries the anchor's best score and a listed class name. */
  lemma EmittedCandidateFacts(row: seq<real>, classes: seq<string>, scale: real, minProb: real, d: Detection)
    requires |row| >= 5 && scale > 0.0
    requires DecodeAnchor(row, classes, scale, minProb) == Emit(d)
    ensures d.score >= minProb && d.score == MaxOf(row[4..])
    ensures Serialize(d.category) in classes
  {
    var scores := row[4..];
    FirstIndexOfMax(scores);
    var idx := FirstIndexOf(scores, MaxOf(scores)).value;
    assert idx < |classes| && Deserialize(classes[idx]) == Some(d.category);
    DeserializeIff(classes[idx], d.category);
    assert classes[idx] in classes;
  }

  /**
    Every detection a successful call returns was emitted by some anchor: it
    reaches the floor, its label's wire string is in the class list, and it
    carries its anchor's best class score.
  */
  lemma ResultsMeetFloor(output: seq<seq<seq<real>>>, classes: seq<string>, scale: real, minProb: real)
    requires WellShaped(output) && scale > 0.0
    requires DecodeAll(output, classes, scale, minProb).Success?
    ensures var kept := Greedy(SortByScore(DecodeAll(output, classes, scale, minProb).value), NmsIouThreshold);
      forall d :: d in kept ==> d.score >= minProb && Serialize(d.category) in classes
  {
    var candidates := DecodeAll(output, classes, scale, minProb).value;
    DecodeAllProperties(output, classes, scale, minProb);
    NmsKeepsOnlyInput(candidates, SortByScore(candidates), NmsIouThreshold);
    forall d | d in Greedy(SortByScore(candidates), NmsIouThreshold)
      ensures d.score >= minProb && Serialize(d.category) in classes
    {
      SubMember(d, Greedy(SortByScore(candidates), NmsIouThreshold), candidates);
      var i :| 0 <= i < AnchorCount(output)
        && DecodeAnchor(AnchorRow(output, i), classes, scale, minProb) == Emit(d);
      EmittedCandidateFacts(AnchorRow(output, i), classes, scale, minProb, d);
    }
  }
}
