/**
  Greedy class-aware non-maximum suppression (`apply_nms`): sort by score,
  repeatedly keep the best remaining detection and drop every remaining one
  of the same label that overlaps it by more than the threshold.
*/
module Nms {
  import opened Detections
  import opened Iou

  /** The threshold the decoder passes to the suppression step. */
  const NmsIouThreshold: real := 0.45

  predicate SortedByScore(s: seq<Detection>)
  {
    forall i, j :: 0 <= i < j < |s| ==> s[i].score >= s[j].score
  }

  /** A detection scoring at least as high as everything in a sorted run may go in front of it. */
  lemma PrependSorted(x: Detection, t: seq<Detection>)
    requires SortedByScore(t)
    requires forall k :: 0 <= k < |t| ==> t[k].score <= x.score
    ensures SortedByScore([x] + t)
  {
  }

  /** A bound on every score carries over to a sub-multiset. */
  lemma SubBounded(a: seq<Detection>, b: seq<Detection>, m: real)
    requires multiset(a) <= multiset(b)
    requires forall k :: 0 <= k < |b| ==> b[k].score <= m
    ensures forall k :: 0 <= k < |a| ==> a[k].score <= m
  {
    forall k | 0 <= k < |a| ensures a[k].score <= m {
      assert a[k] in multiset(b);
    }
  }

  /** The head of a sorted run bounds its tail. */
  lemma HeadBoundsTail(s: seq<Detection>)
    requires SortedByScore(s) && s != []
    ensures forall k :: 0 <= k < |s[1..]| ==> s[1..][k].score <= s[0].score
  {
  }

  /** Membership carries over to a larger multiset. */
  lemma SubMember(x: Detection, a: seq<Detection>, b: seq<Detection>)
    requires multiset(a) <= multiset(b) && x in a
    ensures x in b
  {
    assert x in multiset(a);
  }

  /** Places `d` before the first element of `s` whose score is at most its own. */
  function Insert(d: Detection, s: seq<Detection>): (r: seq<Detection>)
    requires SortedByScore(s)
    ensures SortedByScore(r)
    ensures multiset(r) == multiset(s) + multiset{d}
  {
    if s == [] then [d]
    else if s[0].score > d.score then
      var tail := Insert(d, s[1..]);
      assert s == [s[0]] + s[1..];
      HeadBoundsTail(s);
      assert multiset(tail) == multiset(s[1..] + [d]);
      SubBounded(tail, s[1..] + [d], s[0].score);
      PrependSorted(s[0], tail);
      assert multiset([s[0]] + tail) == multiset([s[0]]) + multiset(tail);
      [s[0]] + tail
    else
      assert forall k :: 0 <= k < |s| ==> s[k].score <= s[0].score;
      PrependSorted(d, s);
      [d] + s
  }

  /**
    `sort_by { |d| -d.score }`: score-descending order. This is one stable
    insertion sort; Ruby's sort is not stable, so the lemmas about the
    suppression loop below are stated for every score-descending
    permutation of the input, not only for this one.
  */
  function SortByScore(ds: seq<Detection>): (r: seq<Detection>)
    ensures SortedByScore(r)
    ensures multiset(r) == multiset(ds)
  {
    if ds == [] then []
    else
      assert ds == [ds[0]] + ds[1..];
      Insert(ds[0], SortByScore(ds[1..]))
  }

  /** The `reject!` block: same label, and IoU with the kept box strictly above the threshold. */
  predicate Suppresses(best: Detection, d: Detection, iouThreshold: real)
  {
    d.category == best.category && CalculateIou(best.box, d.box) > iouThreshold
  }

  /** `sorted.reject!`: the candidates that survive the newly kept `best`, in their order. */
  function Survivors(rest: seq<Detection>, best: Detection, iouThreshold: real): (r: seq<Detection>)
    ensures |r| <= |rest| && multiset(r) <= multiset(rest)
  {
    if rest == [] then []
    else
      assert rest == [rest[0]] + rest[1..];
      var tail := Survivors(rest[1..], best, iouThreshold);
      if Suppresses(best, rest[0], iouThreshold) then tail
      else [rest[0]] + tail
  }

  /** Nothing that `best` suppresses survives. */
  lemma {:induction false} SurvivorsNotSuppressed(rest: seq<Detection>, best: Detection, t: real)
    ensures forall d :: d in Survivors(rest, best, t) ==> !Suppresses(best, d, t)
  {
    if rest != [] {
      SurvivorsNotSuppressed(rest[1..], best, t);
    }
  }

  /** Everything that `best` does not suppress survives. */
  lemma {:induction false} SurvivorsKeepOthers(rest: seq<Detection>, best: Detection, t: real)
    ensures forall d :: d in rest && !Suppresses(best, d, t) ==> d in Survivors(rest, best, t)
  {
    if rest != [] {
      SurvivorsKeepOthers(rest[1..], best, t);
      assert rest == [rest[0]] + rest[1..];
    }
  }

  /** `reject!` keeps the order of what it keeps. */
  lemma {:induction false} SurvivorsSorted(rest: seq<Detection>, best: Detection, t: real)
    requires SortedByScore(rest)
    ensures SortedByScore(Survivors(rest, best, t))
  {
    if rest != [] {
      SurvivorsSorted(rest[1..], best, t);
      var tail := Survivors(rest[1..], best, t);
      if !Suppresses(best, rest[0], t) {
        HeadBoundsTail(rest);
        SubBounded(tail, rest[1..], rest[0].score);
        PrependSorted(rest[0], tail);
      }
    }
  }

  /** The result of the `while sorted.any?` loop started on `sorted`. */
  function Greedy(sorted: seq<Detection>, iouThreshold: real): seq<Detection>
    decreases |sorted|
  {
    if sorted == [] then []
    else [sorted[0]] + Greedy(Survivors(sorted[1..], sorted[0], iouThreshold), iouThreshold)
  }

  /** No kept detection would have suppressed another kept one, in either order. */
  predicate NoSuppressedPair(keep: seq<Detection>, iouThreshold: real)
  {
    forall i, j :: 0 <= i < |keep| && 0 <= j < |keep| && i != j ==>
      !Suppresses(keep[i], keep[j], iouThreshold)
  }

  /** Everything missing from `keep` was suppressed by a kept detection scoring at least as high. */
  predicate EveryDropAccounted(input: seq<Detection>, keep: seq<Detection>, iouThreshold: real)
  {
    forall d :: d in input ==> Accounted(d, keep, iouThreshold)
  }

  /** `d` was kept, or a kept detection scoring at least as high suppresses it. */
  predicate Accounted(d: Detection, keep: seq<Detection>, iouThreshold: real)
  {
    d in keep || exists k :: k in keep && Suppresses(k, d, iouThreshold) && k.score >= d.score
  }

  /** Being accounted for survives putting more kept detections in front. */
  lemma AccountedPrepend(d: Detection, best: Detection, g: seq<Detection>, t: real)
    requires Accounted(d, g, t)
    ensures Accounted(d, [best] + g, t)
  {
    if d !in g {
      var k :| k in g && Suppresses(k, d, t) && k.score >= d.score;
      assert k in [best] + g;
    }
  }

  /** One turn of the loop: keep the head, then carry on with its survivors. */
  lemma GreedyStep(sorted: seq<Detection>, t: real)
    requires sorted != []
    ensures Greedy(sorted, t) == [sorted[0]] + Greedy(Survivors(sorted[1..], sorted[0], t), t)
  {
  }

  /** Greedy only keeps candidates it was given, each at most as often as given. */
  lemma {:induction false} GreedySubset(s: seq<Detection>, t: real)
    ensures multiset(Greedy(s, t)) <= multiset(s) && |Greedy(s, t)| <= |s|
    decreases |s|
  {
    if s != [] {
      var rest := Survivors(s[1..], s[0], t);
      GreedySubset(rest, t);
      var g := Greedy(rest, t);
      assert Greedy(s, t) == [s[0]] + g;
      assert s == [s[0]] + s[1..];
      assert multiset(g) <= multiset(s[1..]);
      assert multiset([s[0]] + g) == multiset{s[0]} + multiset(g);
      assert multiset(s) == multiset{s[0]} + multiset(s[1..]);
    }
  }

  /** Kept detections come out in the order they were selected: score-descending. */
  lemma {:induction false} GreedySorted(s: seq<Detection>, t: real)
    requires SortedByScore(s)
    ensures SortedByScore(Greedy(s, t))
    decreases |s|
  {
    if s != [] {
      var rest := Survivors(s[1..], s[0], t);
      SurvivorsSorted(s[1..], s[0], t);
      GreedySorted(rest, t);
      GreedySubset(rest, t);
      var g := Greedy(rest, t);
      HeadBoundsTail(s);
      SubBounded(rest, s[1..], s[0].score);
      SubBounded(g, rest, s[0].score);
      PrependSorted(s[0], g);
      assert Greedy(s, t) == [s[0]] + g;
    }
  }

  /** Suppression is symmetric, because IoU is. */
  lemma SuppressesSymmetric(a: Detection, b: Detection, t: real)
    ensures Suppresses(a, b, t) == Suppresses(b, a, t)
  {
    IouSymmetric(a.box, b.box);
  }

  /** No two kept detections of the same label overlap by more than the threshold. */
  lemma {:induction false} GreedyNoSuppressedPair(s: seq<Detection>, t: real)
    ensures NoSuppressedPair(Greedy(s, t), t)
    decreases |s|
  {
    if s != [] {
      var best := s[0];
      var rest := Survivors(s[1..], best, t);
      GreedyNoSuppressedPair(rest, t);
      GreedySubset(rest, t);
      var g := Greedy(rest, t);
      forall k | 0 <= k < |g|
        ensures !Suppresses(best, g[k], t) && !Suppresses(g[k], best, t)
      {
        SubMember(g[k], g, rest);
        SurvivorsNotSuppressed(s[1..], best, t);
        SuppressesSymmetric(best, g[k], t);
      }
      PrependKeepsNoSuppressedPair(best, g, t);
    }
  }

  lemma PrependKeepsNoSuppressedPair(best: Detection, g: seq<Detection>, t: real)
    requires NoSuppressedPair(g, t)
    requires forall k :: 0 <= k < |g| ==> !Suppresses(best, g[k], t) && !Suppresses(g[k], best, t)
    ensures NoSuppressedPair([best] + g, t)
  {
    var keep := [best] + g;
    forall i, j | 0 <= i < |keep| && 0 <= j < |keep| && i != j
      ensures !Suppresses(keep[i], keep[j], t)
    {
      if i > 0 && j > 0 {
        assert keep[i] == g[i - 1] && keep[j] == g[j - 1];
      }
    }
  }

  /** A candidate only disappears when a kept detection of its label, scoring at least as high, suppresses it. */
  lemma {:induction false} GreedyAccountsForDrops(s: seq<Detection>, t: real)
    requires SortedByScore(s)
    ensures EveryDropAccounted(s, Greedy(s, t), t)
    decreases |s|
  {
    if s != [] {
      var best := s[0];
      var rest := Survivors(s[1..], best, t);
      SurvivorsSorted(s[1..], best, t);
      SurvivorsKeepOthers(s[1..], best, t);
      GreedyAccountsForDrops(rest, t);
      var g := Greedy(rest, t);
      assert Greedy(s, t) == [best] + g;
      forall d | d in s ensures Accounted(d, [best] + g, t) {
        if d == best {
          assert d in [best] + g;
        } else {
          assert s == [best] + s[1..];
          assert d in s[1..];
          if Suppresses(best, d, t) {
            assert best in [best] + g && best.score >= d.score;
          } else {
            assert d in rest;
            AccountedPrepend(d, best, g, t);
          }
        }
      }
    }
  }

  /**
    The result is a sub-multiset of the input, hence no longer than it, for
    every score-descending order of the input.
  */
  lemma NmsKeepsOnlyInput(detections: seq<Detection>, sorted: seq<Detection>, t: real)
    requires multiset(sorted) == multiset(detections)
    ensures var keep := Greedy(sorted, t);
      multiset(keep) <= multiset(detections) && |keep| <= |detections|
  {
    GreedySubset(sorted, t);
    assert |sorted| == |multiset(sorted)| == |multiset(detections)| == |detections|;
  }

  /** The result is score-descending and opens with the highest input score. */
  lemma NmsOrder(detections: seq<Detection>, sorted: seq<Detection>, t: real)
    requires SortedByScore(sorted) && multiset(sorted) == multiset(detections)
    ensures var keep := Greedy(sorted, t);
      && SortedByScore(keep)
      && (detections != [] ==> keep != [] && forall d :: d in detections ==> keep[0].score >= d.score)
  {
    GreedySorted(sorted, t);
    if detections != [] {
      assert |sorted| == |multiset(sorted)| == |multiset(detections)| == |detections|;
      assert sorted != [];
      assert Greedy(sorted, t)[0] == sorted[0];
      forall d | d in detections ensures sorted[0].score >= d.score {
        SubMember(d, detections, sorted);
      }
    }
  }

  /** No suppressible pair is kept, and every dropped candidate was suppressed by a kept one. */
  lemma NmsSuppression(detections: seq<Detection>, sorted: seq<Detection>, t: real)
    requires SortedByScore(sorted) && multiset(sorted) == multiset(detections)
    ensures var keep := Greedy(sorted, t);
      NoSuppressedPair(keep, t) && EveryDropAccounted(detections, keep, t)
  {
    GreedyNoSuppressedPair(sorted, t);
    GreedyAccountsForDrops(sorted, t);
    forall d | d in detections ensures Accounted(d, Greedy(sorted, t), t) {
      SubMember(d, detections, sorted);
    }
  }

  /**
    `apply_nms`. An empty input is returned as it is; otherwise the loop
    shifts the best remaining candidate into `keep` and rejects what it
    suppresses.
  */
  method ApplyNms(detections: seq<Detection>, iouThreshold: real) returns (keep: seq<Detection>)
    ensures detections == [] ==> keep == detections
    ensures keep == Greedy(SortByScore(detections), iouThreshold)
    ensures multiset(keep) <= multiset(detections) && |keep| <= |detections|
    ensures SortedByScore(keep)
    ensures detections != [] ==>
      keep != [] && forall d :: d in detections ==> keep[0].score >= d.score
    ensures NoSuppressedPair(keep, iouThreshold)
    ensures EveryDropAccounted(detections, keep, iouThreshold)
  {
    if detections == [] {
      return detections;
    }
    var sorted := SortByScore(detections);
    keep := [];
    while sorted != []
      invariant keep + Greedy(sorted, iouThreshold) == Greedy(SortByScore(detections), iouThreshold)
      decreases |sorted|
    {
      var best := sorted[0];
      GreedyStep(sorted, iouThreshold);
      sorted := sorted[1..];
      keep := keep + [best];
      sorted := Survivors(sorted, best, iouThreshold);
    }
    ghost var all := SortByScore(detections);
    NmsKeepsOnlyInput(detections, all, iouThreshold);
    NmsOrder(detections, all, iouThreshold);
    NmsSuppression(detections, all, iouThreshold);
  }

  /** The two detections of the examples below, sorted: same label, scores 0.9 and 0.8. */
  lemma HalfOverlapPair()
    ensures SortByScore([Detection(Box(0, 0, 2, 1), 0.8, FaceFemale), Detection(Box(0, 0, 4, 1), 0.9, FaceFemale)])
         == [Detection(Box(0, 0, 4, 1), 0.9, FaceFemale), Detection(Box(0, 0, 2, 1), 0.8, FaceFemale)]
  {
    var a, b := Box(0, 0, 4, 1), Box(0, 0, 2, 1);
    var da, db := Detection(a, 0.9, FaceFemale), Detection(b, 0.8, FaceFemale);
    assert [db, da][1..] == [da];
    assert SortByScore([da]) == [da];
  }

  /** Their IoU: intersection 2 over union 4. */
  lemma HalfOverlapIou()
    ensures CalculateIou(Box(0, 0, 4, 1), Box(0, 0, 2, 1)) == 0.5
  {
    var a, b := Box(0, 0, 4, 1), Box(0, 0, 2, 1);
    assert IntersectionArea(a, b) == 2;
    assert UnionArea(a, b) == 4;
  }

  /** With IoU 0.5 and the decoder's threshold 0.45 the lower-scoring box is dropped. */
  lemma HalfOverlapSuppressedAt045()
    ensures var a := Detection(Box(0, 0, 4, 1), 0.9, FaceFemale);
      var b := Detection(Box(0, 0, 2, 1), 0.8, FaceFemale);
      Greedy(SortByScore([b, a]), NmsIouThreshold) == [a]
  {
    HalfOverlapIou();
    HalfOverlapPair();
    var a := Detection(Box(0, 0, 4, 1), 0.9, FaceFemale);
    var b := Detection(Box(0, 0, 2, 1), 0.8, FaceFemale);
    assert Survivors([b], a, NmsIouThreshold) == [];
    assert [a, b][1..] == [b];
  }

  /** With IoU 0.5 and threshold 0.6 both boxes are kept. */
  lemma HalfOverlapKeptAt06()
    ensures var a := Detection(Box(0, 0, 4, 1), 0.9, FaceFemale);
      var b := Detection(Box(0, 0, 2, 1), 0.8, FaceFemale);
      Greedy(SortByScore([b, a]), 0.6) == [a, b]
  {
    HalfOverlapIou();
    HalfOverlapPair();
    var a := Detection(Box(0, 0, 4, 1), 0.9, FaceFemale);
    var b := Detection(Box(0, 0, 2, 1), 0.8, FaceFemale);
    assert Survivors([b], a, 0.6) == [b];
    assert [a, b][1..] == [b];
    assert Greedy([b], 0.6) == [b];
  }

  /**
    Two detections with equal scores stay in input order, so of two tied,
    overlapping boxes the first one given is kept.
  */
  lemma TiedOverlapKeepsFirst()
    ensures var a := Detection(Box(0, 0, 4, 1), 0.9, FaceFemale);
      var b := Detection(Box(0, 0, 3, 1), 0.9, FaceFemale);
      SortByScore([a, b]) == [a, b] && Greedy(SortByScore([a, b]), NmsIouThreshold) == [a]
  {
    var a := Detection(Box(0, 0, 4, 1), 0.9, FaceFemale);
    var b := Detection(Box(0, 0, 3, 1), 0.9, FaceFemale);
    assert IntersectionArea(a.box, b.box) == 3;
    assert UnionArea(a.box, b.box) == 4;
    assert [a, b][1..] == [b];
    assert SortByScore([b]) == [b];
    assert Survivors([b], a, NmsIouThreshold) == [];
  }
}
