/** Greedy non-maximum suppression over detections sorted by confidence.  Main results: the
    loops compute exactly the greedy set, the greedy set is the only stable one, it
    dominates what it drops, treats classes independently and is idempotent; and the
    overlap measure is symmetric and below one. */
module Nms {
  import opened Greedy

  datatype Detection = Detection(x1: real, y1: real, x2: real, y2: real, confidence: real, classId: int)

  // ---- Overlap --------------------------------------------------------------------------------------

  function Max(a: real, b: real): real { if a < b then b else a }

  function Min(a: real, b: real): real { if b < a then b else a }

  const EPSILON := 0.000001

  function Intersection(a: Detection, b: Detection): real {
    Max(0.0, Min(a.x2, b.x2) - Max(a.x1, b.x1)) * Max(0.0, Min(a.y2, b.y2) - Max(a.y1, b.y1))
  }

  function Area(a: Detection): real { (a.x2 - a.x1) * (a.y2 - a.y1) }

  /** The corners are in order. */
  predicate Proper(a: Detection) { a.x1 <= a.x2 && a.y1 <= a.y2 }

  lemma ProductsOrdered(w: real, h: real, w': real, h': real)
    requires 0.0 <= w <= w' && 0.0 <= h <= h'
    ensures 0.0 <= w * h <= w' * h'
  {
    assert w' * h' - w * h == (w' - w) * h' + w * (h' - h);
  }

  lemma IntersectionBound(a: Detection, b: Detection)
    requires Proper(a) && Proper(b)
    ensures 0.0 <= Intersection(a, b) <= Area(a) && Intersection(a, b) <= Area(b)
  {
    var w, h := Max(0.0, Min(a.x2, b.x2) - Max(a.x1, b.x1)), Max(0.0, Min(a.y2, b.y2) - Max(a.y1, b.y1));
    ProductsOrdered(w, h, a.x2 - a.x1, a.y2 - a.y1);
    ProductsOrdered(w, h, b.x2 - b.x1, b.y2 - b.y1);
  }

  /** The boxes that decoding produces. */
  type Box = a: Detection | Proper(a) witness Detection(0.0, 0.0, 0.0, 0.0, 0.0, 0)

  function Iou(a: Box, b: Box): (r: real)
    ensures 0.0 <= r < 1.0
  {
    IntersectionBound(a, b);
    var inter := Intersection(a, b);
    var denominator := Area(a) + Area(b) - inter + EPSILON;
    QuotientBelowOne(inter, denominator);
    inter / denominator
  }

  lemma QuotientBelowOne(x: real, y: real)
    requires 0.0 <= x < y
    ensures 0.0 <= x / y < 1.0
  {
    var q := x / y;
    assert q * y == x;
    if q >= 1.0 { ProductsOrdered(1.0, y, q, y); }
  }

  lemma IouSymmetric(a: Box, b: Box)
    ensures Iou(a, b) == Iou(b, a)
  {
    assert Intersection(a, b) == Intersection(b, a);
  }

  /** Two boxes overlap exactly when each starts before the other ends, in both directions. */
  lemma IouPositive(a: Box, b: Box)
    ensures Iou(a, b) > 0.0
       <==> Max(a.x1, b.x1) < Min(a.x2, b.x2) && Max(a.y1, b.y1) < Min(a.y2, b.y2)
  {
    IntersectionBound(a, b);
    var inter, denominator := Intersection(a, b), Area(a) + Area(b) - Intersection(a, b) + EPSILON;
    var q := inter / denominator;
    assert q * denominator == inter;
  }

  /** How much of the second stretch lies in the first. */
  function Common(from: real, to: real, from': real, to': real): real {
    if to <= from' || to' <= from then 0.0
    else (if to < to' then to else to') - (if from < from' then from' else from)
  }

  lemma CommonIsClamped(from: real, to: real, from': real, to': real)
    requires from <= to && from' <= to'
    ensures Common(from, to, from', to') == Max(0.0, Min(to, to') - Max(from, from'))
  {}

  /** The overlap is the area that lies in both boxes over the area that lies in either of them, with a
      millionth added to the latter. */
  lemma IouIsRatio(a: Box, b: Box, first: real, second: real, both: real)
    requires first == (a.x2 - a.x1) * (a.y2 - a.y1) && second == (b.x2 - b.x1) * (b.y2 - b.y1)
    requires both == Common(a.x1, a.x2, b.x1, b.x2) * Common(a.y1, a.y2, b.y1, b.y2)
    ensures 0.0 <= both <= first + second - both
    ensures Iou(a, b) * (first + second - both + 0.000001) == both
  {
    hide Iou, Intersection, Area, Common;
    IntersectionBound(a, b);
    IntersectionIs(a, b);
    AreaIs(a);
    AreaIs(b);
    IouTimes(a, b);
    assert Area(a) + Area(b) - Intersection(a, b) + 0.000001 == first + second - both + 0.000001;
  }

  lemma IntersectionIs(a: Box, b: Box)
    ensures Intersection(a, b) == Common(a.x1, a.x2, b.x1, b.x2) * Common(a.y1, a.y2, b.y1, b.y2)
  {
    CommonIsClamped(a.x1, a.x2, b.x1, b.x2);
    CommonIsClamped(a.y1, a.y2, b.y1, b.y2);
    hide Common, Max, Min;
  }

  lemma AreaIs(a: Box)
    ensures Area(a) == (a.x2 - a.x1) * (a.y2 - a.y1)
  {}

  lemma IouTimes(a: Box, b: Box)
    ensures Iou(a, b) * (Area(a) + Area(b) - Intersection(a, b) + 0.000001) == Intersection(a, b)
  {
    IntersectionBound(a, b);
    var denominator := Area(a) + Area(b) - Intersection(a, b) + 0.000001;
    assert Iou(a, b) == Intersection(a, b) / denominator;
    hide Iou, Proper, Intersection, Area;
    QuotientTimes(Intersection(a, b), denominator);
  }

  lemma QuotientTimes(x: real, y: real)
    requires y > 0.0
    ensures x / y * y == x
  {}

  /** A box inside another overlaps it by the share of the area; so a box and its copy overlap almost by one. */
  lemma IouInside(a: Box, b: Box)
    requires b.x1 <= a.x1 && a.x2 <= b.x2 && b.y1 <= a.y1 && a.y2 <= b.y2
    ensures Iou(a, b) * ((b.x2 - b.x1) * (b.y2 - b.y1) + 0.000001) == (a.x2 - a.x1) * (a.y2 - a.y1)
  {
    CommonInside(a.x1, a.x2, b.x1, b.x2);
    CommonInside(a.y1, a.y2, b.y1, b.y2);
    hide Iou, Common;
    var area, whole := (a.x2 - a.x1) * (a.y2 - a.y1), (b.x2 - b.x1) * (b.y2 - b.y1);
    IouIsRatio(a, b, area, whole, area);
    assert area + whole - area + 0.000001 == whole + 0.000001;
  }

  lemma CommonInside(from: real, to: real, from': real, to': real)
    requires from' <= from <= to <= to'
    ensures Common(from, to, from', to') == to - from
  {}

  // ---- Suppression ----------------------------------------------------------------------------------

  /** A kept box removes a later one of its class that overlaps it above the threshold. */
  function Clash(threshold: real): (Box, Box) -> bool {
    (a: Box, b: Box) => a.classId == b.classId && Iou(a, b) > threshold
  }

  predicate Before(a: Box, b: Box) { a.confidence >= b.confidence }

  /** The order the sort establishes: by confidence, equal ones in any order. */
  predicate Descending(s: seq<Box>) {
    forall i, j :: 0 <= i < j < |s| ==> Before(s[i], s[j])
  }

  function Inserted(s: seq<Box>, x: Box): seq<Box> {
    if s == [] || s[|s| - 1].confidence >= x.confidence then s + [x]
    else Inserted(s[..|s| - 1], x) + [s[|s| - 1]]
  }

  function Sorted(s: seq<Box>): seq<Box> {
    if s == [] then [] else Inserted(Sorted(s[..|s| - 1]), s[|s| - 1])
  }

  lemma DescendingAppend(s: seq<Box>, x: Box)
    requires Descending(s) && forall i :: 0 <= i < |s| ==> Before(s[i], x)
    ensures Descending(s + [x])
  {
  }

  lemma {:induction false} InsertedItems(s: seq<Box>, x: Box)
    ensures multiset(Inserted(s, x)) == multiset(s) + multiset{x}
  {
    if s != [] && s[|s| - 1].confidence < x.confidence {
      InsertedItems(s[..|s| - 1], x);
      assert s == s[..|s| - 1] + [s[|s| - 1]];
    }
  }

  lemma {:induction false} InsertedDescending(s: seq<Box>, x: Box)
    requires Descending(s)
    ensures Descending(Inserted(s, x))
  {
    if s != [] && s[|s| - 1].confidence < x.confidence {
      var k := |s| - 1;
      InsertedDescending(s[..k], x);
      InsertedItems(s[..k], x);
      var r := Inserted(s[..k], x);
      forall i | 0 <= i < |r| ensures Before(r[i], s[k]) {
        assert r[i] in multiset(r);
        if r[i] != x { var j :| 0 <= j < k && s[..k][j] == r[i]; assert Before(s[j], s[k]); }
      }
      DescendingAppend(r, s[k]);
    } else {
      forall i | 0 <= i < |s| ensures Before(s[i], x) { if i < |s| - 1 { assert Before(s[i], s[|s| - 1]); } }
      DescendingAppend(s, x);
    }
  }

  lemma DescendingNone()
    ensures Descending([])
  {
  }

  lemma {:induction false} SortedDescending(s: seq<Box>)
    ensures Descending(Sorted(s)) && multiset(Sorted(s)) == multiset(s)
  {
    DescendingNone();
    hide Descending, Inserted;
    if s != [] {
      SortedDescending(s[..|s| - 1]);
      InsertedDescending(Sorted(s[..|s| - 1]), s[|s| - 1]);
      InsertedItems(Sorted(s[..|s| - 1]), s[|s| - 1]);
      assert s == s[..|s| - 1] + [s[|s| - 1]];
    }
  }

  lemma SameSize(s: seq<Box>, r: seq<Box>)
    requires multiset(s) == multiset(r)
    ensures |s| == |r|
  {
    assert |multiset(s)| == |multiset(r)|;
  }

  /** Sorting, of which callers know only what the library promises of an unstable sort. */
  method Sort(dets: array<Box>)
    modifies dets
    ensures Descending(dets[..]) && multiset(dets[..]) == multiset(old(dets[..]))
  {
    var sorted := Sorted(dets[..]);
    SortedDescending(dets[..]);
    SameSize(sorted, dets[..]);
    forall i | 0 <= i < dets.Length { dets[i] := sorted[i]; }
    assert dets[..] == sorted;
  }

  /** The flag of box `j` once the boxes before `i` have been visited. */
  ghost predicate Struck(clash: (Box, Box) -> bool, s: seq<Box>, suppressed: seq<bool>, i: nat, j: nat)
    requires i <= |s| == |suppressed| && j < |s|
  {
    exists k :: 0 <= k < i && k < j && !suppressed[k] && clash(s[k], s[j])
  }

  ghost predicate Visited(clash: (Box, Box) -> bool, s: seq<Box>, suppressed: seq<bool>, i: nat) {
    && i <= |s| == |suppressed|
    && forall j :: 0 <= j < |s| ==> (suppressed[j] <==> Struck(clash, s, suppressed, i, j))
  }

  function Kept(suppressed: seq<bool>): (keep: seq<bool>)
    ensures |keep| == |suppressed|
    ensures forall i :: 0 <= i < |keep| ==> keep[i] == !suppressed[i]
  {
    seq(|suppressed|, i requires 0 <= i < |suppressed| => !suppressed[i])
  }

  lemma MarkedNext(s: seq<Box>, keep: seq<bool>, i: nat)
    requires i < |s| == |keep|
    ensures Marked(s[..i + 1], keep[..i + 1]) == Marked(s[..i], keep[..i]) + (if keep[i] then [s[i]] else [])
  {
    assert s[..i + 1][..i] == s[..i] && keep[..i + 1][..i] == keep[..i];
  }

  lemma NothingVisited(clash: (Box, Box) -> bool, s: seq<Box>, suppressed: seq<bool>)
    requires |suppressed| == |s| && forall i :: 0 <= i < |s| ==> !suppressed[i]
    ensures Visited(clash, s, suppressed, 0) && Marked(s[..0], Kept(suppressed)[..0]) == []
  {
  }

  /** Visiting box `i` sets the flags of the later boxes it clashes with, if it is kept. */
  lemma VisitNext(clash: (Box, Box) -> bool, s: seq<Box>, before: seq<bool>, after: seq<bool>, i: nat)
    requires i < |s| && Visited(clash, s, before, i) && |after| == |s|
    requires forall j :: 0 <= j < |s| ==> (after[j] <==> before[j] || (!before[i] && i < j && clash(s[i], s[j])))
    ensures Visited(clash, s, after, i + 1)
    ensures Marked(s[..i + 1], Kept(after)[..i + 1])
         == if before[i] then Marked(s[..i], Kept(before)[..i]) else Marked(s[..i], Kept(before)[..i]) + [s[i]]
  {
    MarkedNext(s, Kept(after), i);
    assert Kept(after)[..i] == Kept(before)[..i] by {
      forall j | 0 <= j < i ensures after[j] == before[j] { }
    }
    forall j | 0 <= j < |s| ensures after[j] <==> Struck(clash, s, after, i + 1, j) {
      if before[j] {
        var k :| 0 <= k < i && k < j && !before[k] && clash(s[k], s[j]);
        assert !after[k];
      }
      if Struck(clash, s, after, i + 1, j) {
        var k :| 0 <= k < i + 1 && k < j && !after[k] && clash(s[k], s[j]);
        assert !before[k];
      }
    }
  }

  /** With every box visited, the unsuppressed boxes are the stable marking. */
  lemma AllVisited(clash: (Box, Box) -> bool, s: seq<Box>, suppressed: seq<bool>)
    requires Visited(clash, s, suppressed, |s|)
    ensures Stable(clash, s, Kept(suppressed))
    ensures Marked(s, Kept(suppressed)) == Select(clash, s)
  {
    var keep := Kept(suppressed);
    forall i | 0 <= i < |s| ensures keep[i] <==> !Blocked(clash, s, keep, i) {
      assert Blocked(clash, s, keep, i) <==> Struck(clash, s, suppressed, |s|, i);
    }
    StableIsGreedy(clash, s, keep);
  }

  /** The inner loop, for a kept box `i`: later boxes that clash with it are suppressed. */
  method Suppress(dets: array<Box>, threshold: real, suppressed: array<bool>, i: nat)
    requires i < dets.Length == suppressed.Length && !suppressed[i]
    modifies suppressed
    ensures forall k :: 0 <= k < dets.Length ==>
      (suppressed[k] <==> old(suppressed[k]) || (i < k && Clash(threshold)(dets[i], dets[k])))
  {
    for j := i + 1 to dets.Length
      invariant forall k :: 0 <= k < dets.Length ==>
        (suppressed[k] <==> old(suppressed[k]) || (i < k < j && Clash(threshold)(dets[i], dets[k])))
    {
      if !suppressed[j] && dets[i].classId == dets[j].classId && Iou(dets[i], dets[j]) > threshold {
        suppressed[j] := true;
      }
    }
  }

  /** The boxes are sorted in place; a box is returned iff no returned box before it clashes with it. */
  method Nms(dets: array<Box>, threshold: real) returns (result: seq<Box>, ghost keep: seq<bool>)
    modifies dets
    ensures Descending(dets[..]) && multiset(dets[..]) == multiset(old(dets[..]))
    ensures Stable(Clash(threshold), dets[..], keep) && result == Marked(dets[..], keep)
    ensures result == Select(Clash(threshold), dets[..])
  {
    Sort(dets);
    ghost var s, clash := dets[..], Clash(threshold);
    hide Clash, Iou, Select, Stable, Marked;
    result := [];
    var suppressed := new bool[dets.Length](_ => false);
    NothingVisited(clash, s, suppressed[..]);
    for i := 0 to dets.Length
      invariant dets[..] == s && Visited(clash, s, suppressed[..], i)
      invariant result == Marked(s[..i], Kept(suppressed[..])[..i])
    {
      ghost var before := suppressed[..];
      if !suppressed[i] {
        result := result + [dets[i]];
        Suppress(dets, threshold, suppressed, i);
      }
      VisitNext(clash, s, before, suppressed[..], i);
    }
    assert s[..|s|] == s && Kept(suppressed[..])[..|s|] == Kept(suppressed[..]);
    AllVisited(clash, s, suppressed[..]);
    keep := Kept(suppressed[..]);
  }

  // ---- What the result promises ---------------------------------------------------------------------

  lemma ClashSymmetric(threshold: real)
    ensures forall a: Box, b: Box :: Clash(threshold)(a, b) <==> Clash(threshold)(b, a)
  {
    forall a: Box, b: Box ensures Clash(threshold)(a, b) <==> Clash(threshold)(b, a) { IouSymmetric(a, b); }
  }

  /** Boxes of one class at different positions overlap at most by the threshold. */
  ghost predicate ClassesApart(r: seq<Box>, threshold: real) {
    forall i, j :: 0 <= i < |r| && 0 <= j < |r| && i != j && r[i].classId == r[j].classId ==>
      Iou(r[i], r[j]) <= threshold
  }

  /** `y` is a box of the class of `x`, no weaker, that overlaps it above the threshold. */
  predicate Dominates(y: Box, x: Box, threshold: real) {
    y.classId == x.classId && Iou(y, x) > threshold && y.confidence >= x.confidence
  }

  /** Kept boxes of one class overlap at most by the threshold, strongest first. */
  lemma KeptBoxes(s: seq<Box>, threshold: real)
    requires Descending(s)
    ensures Descending(Select(Clash(threshold), s))
    ensures ClassesApart(Select(Clash(threshold), s), threshold)
  {
    var r := Select(Clash(threshold), s);
    SelectSorted(Clash(threshold), Before, s);
    forall i, j | 0 <= i < |r| && 0 <= j < |r| && i != j && r[i].classId == r[j].classId
      ensures Iou(r[i], r[j]) <= threshold
    {
      if i < j {
        KeptApart(Clash(threshold), s, i, j);
      } else {
        KeptApart(Clash(threshold), s, j, i);
        IouSymmetric(r[i], r[j]);
      }
    }
  }

  /** Every dropped box has a kept one of its class, no weaker, that overlaps it above the threshold. */
  lemma DroppedBoxes(s: seq<Box>, threshold: real, x: Box)
    requires Descending(s) && x in s && x !in Select(Clash(threshold), s)
    ensures exists y: Box :: y in Select(Clash(threshold), s) && Dominates(y, x, threshold)
  {
    var clash := Clash(threshold);
    var keep := StableExists(clash, s);
    StableIsGreedy(clash, s, keep);
    var i :| 0 <= i < |s| && s[i] == x;
    MarkedMembers(s, keep, x);
    var j :| 0 <= j < i && keep[j] && clash(s[j], s[i]);
    MarkedMembers(s, keep, s[j]);
    assert Before(s[j], s[i]);
    assert Dominates(s[j], x, threshold);
  }

  /** Looking at one class of the result is running on that class alone. */
  lemma PerClass(s: seq<Box>, threshold: real, c: int)
    requires Descending(s)
    ensures Descending(Filter((x: Box) => x.classId == c, s))
    ensures Filter((x: Box) => x.classId == c, Select(Clash(threshold), s))
         == Select(Clash(threshold), Filter((x: Box) => x.classId == c, s))
  {
    FilterSorted((x: Box) => x.classId == c, Before, s);
    FilterCommutes(Clash(threshold), (x: Box) => x.classId == c, s);
  }

  /** Running again on the result drops nothing, however the sort orders equal confidences. */
  lemma RunAgain(s: seq<Box>, threshold: real, again: seq<Box>)
    requires multiset(again) == multiset(Select(Clash(threshold), s))
    ensures Select(Clash(threshold), again) == again
  {
    ClashSymmetric(threshold);
    SelectionReordered(Clash(threshold), s, again);
  }

  // ---- In whatever order the sort leaves equal confidences ------------------------------------------

  /** `sorted` is a descending arrangement of `boxes`. */
  ghost predicate Arranged(boxes: seq<Box>, sorted: seq<Box>) {
    Descending(sorted) && multiset(sorted) == multiset(boxes)
  }

  ghost predicate GreedyResult(boxes: seq<Box>, threshold: real, result: seq<Box>) {
    exists sorted :: Arranged(boxes, sorted) && result == Select(Clash(threshold), sorted)
  }

  /** What holds of every possible result: it is made of the given boxes, in descending order; no two of
      one class overlap above the threshold; and every other given box is dominated by one of them. */
  lemma EveryResult(boxes: seq<Box>, threshold: real, result: seq<Box>)
    requires GreedyResult(boxes, threshold, result)
    ensures Descending(result) && ClassesApart(result, threshold)
    ensures forall x :: x in result ==> x in boxes
    ensures forall x :: x in boxes && x !in result ==> exists y: Box :: y in result && Dominates(y, x, threshold)
  {
    hide Descending, ClassesApart, Dominates, Clash, Iou;
    var sorted :| Arranged(boxes, sorted) && result == Select(Clash(threshold), sorted);
    KeptBoxes(sorted, threshold);
    Dominated(Clash(threshold), sorted);
    SameMembers(boxes, sorted);
    forall x | x in boxes && x !in result ensures exists y: Box :: y in result && Dominates(y, x, threshold) {
      DroppedBoxes(sorted, threshold, x);
    }
  }

  lemma SameMembers(s: seq<Box>, r: seq<Box>)
    requires multiset(s) == multiset(r)
    ensures forall x :: x in s <==> x in r
  {
    forall x ensures x in s <==> x in r {
      assert x in s <==> x in multiset(s);
      assert x in r <==> x in multiset(r);
    }
  }
}
