/** Decoding the detector's output tensors.  Main results: every record of the grid is read in
    bounds and visited exactly once, the early objectness cut never changes the result, and
    the boxes returned are the greedy selection of all the confident candidates. */
module Decode {
  import Greedy
  import opened Nms

  const INPUT_SIZE := 640.0
  const NUM_CLASSES := 80
  const NUM_ANCHORS := 3
  const RECORD := 85
  const NMS_IOU_THRESHOLD := 0.45
  const INT_MAX := 0x7FFF_FFFF

  // ---- The grid -------------------------------------------------------------------------------------

  /** The square root, cut to an integer. */
  function Root(n: nat): (r: nat)
    ensures r * r <= n < (r + 1) * (r + 1)
  {
    if n == 0 then 0
    else
      var r := Root(n - 1);
      if (r + 1) * (r + 1) <= n then r + 1 else r
  }

  function Grid(length: nat): nat { Root(length / (NUM_ANCHORS * RECORD)) }

  function Records(grid: nat): nat { NUM_ANCHORS * (grid * grid) }

  /** Every record of the grid lies inside the buffer. */
  lemma RecordInside(length: nat, n: nat)
    requires n < Records(Grid(length))
    ensures RECORD * n + RECORD <= length
  {
    var g, hw := Grid(length), length / (NUM_ANCHORS * RECORD);
    assert g * g <= hw && 255 * hw <= length;
  }

  /** The grid is as large as the buffer allows. */
  lemma GridLargest(length: nat, g: nat)
    requires RECORD * Records(g) <= length
    ensures g <= Grid(length)
  {
    var r, hw := Grid(length), length / (NUM_ANCHORS * RECORD);
    assert g * g <= hw;
    if g > r { SquaresOrdered(r + 1, g); }
  }

  lemma SquaresOrdered(a: nat, b: nat)
    requires a <= b
    ensures a * a <= b * b
  {
    assert b * b - a * a == (b - a) * (b + a);
  }

  /** The record of a cell and anchor, in memory order. */
  function Index(grid: nat, y: nat, x: nat, a: nat): nat { (y * grid + x) * NUM_ANCHORS + a }

  /** Where record `n` lies. */
  function Row(grid: nat, n: nat): nat
    requires grid > 0
  {
    n / NUM_ANCHORS / grid
  }

  function Column(grid: nat, n: nat): nat
    requires grid > 0
  {
    n / NUM_ANCHORS % grid
  }

  /** Memory order numbers the cells and anchors of the grid without gaps or repeats. */
  lemma IndexInvertible(grid: nat, y: nat, x: nat, a: nat)
    requires y < grid && x < grid && a < NUM_ANCHORS
    ensures Index(grid, y, x, a) < Records(grid)
    ensures Index(grid, y, x, a) % NUM_ANCHORS == a
    ensures Row(grid, Index(grid, y, x, a)) == y && Column(grid, Index(grid, y, x, a)) == x
  {
    hide Records;
    RowInside(grid, y, x);
    assert Index(grid, y, x, a) / NUM_ANCHORS == y * grid + x;
    Cell(grid, y, x);
  }

  lemma RowInside(grid: nat, y: nat, x: nat)
    requires y < grid && x < grid
    ensures (y * grid + x + 1) * NUM_ANCHORS <= Records(grid)
  {
    Difference(grid, y, grid);
    AtLeastOnce(grid - y, grid);
  }

  /** The quotient and the remainder by the width are the row and the column. */
  lemma Cell(grid: nat, y: nat, x: nat)
    requires x < grid
    ensures (y * grid + x) / grid == y && (y * grid + x) % grid == x
  {
    var q, r := (y * grid + x) / grid, (y * grid + x) % grid;
    assert q * grid + r == y * grid + x;
    Difference(q, y, grid);
    if q > y { AtLeastOnce(q - y, grid); }
    if q < y { Difference(y, q, grid); AtLeastOnce(y - q, grid); }
  }

  lemma Difference(a: int, b: int, g: int)
    ensures (a - b) * g == a * g - b * g
  {
  }

  lemma NonNegative(k: nat, g: nat)
    ensures k * g >= 0
  {
  }

  lemma AtLeastOnce(k: nat, g: nat)
    requires k >= 1
    ensures k * g >= g
  {
    assert (k - 1) * g >= 0;
  }

  lemma IndexOnto(grid: nat, n: nat)
    requires n < Records(grid)
    ensures grid > 0 && Row(grid, n) < grid && Column(grid, n) < grid
    ensures n == Index(grid, Row(grid, n), Column(grid, n), n % NUM_ANCHORS)
  {
    var cell := n / NUM_ANCHORS;
    var y := cell / grid;
    assert cell == y * grid + cell % grid;
    if y >= grid {
      Difference(y, grid, grid);
      NonNegative(y - grid, grid);
    }
  }

  // ---- One record -----------------------------------------------------------------------------------

  /** What decoding needs of the sigmoid. */
  ghost predicate Probability(sigmoid: real -> real) { forall x :: 0.0 <= sigmoid(x) <= 1.0 }

  lemma SigmoidRange(sigmoid: real -> real, x: real)
    requires Probability(sigmoid)
    ensures 0.0 <= sigmoid(x) <= 1.0
  {
  }

  function Anchor(scale: nat, a: nat): (real, real) {
    match scale
    case 0 => if a == 0 then (10.0, 13.0) else if a == 1 then (16.0, 30.0) else (33.0, 23.0)
    case 1 => if a == 0 then (30.0, 61.0) else if a == 1 then (62.0, 45.0) else (59.0, 119.0)
    case _ => if a == 0 then (116.0, 90.0) else if a == 1 then (156.0, 198.0) else (373.0, 326.0)
  }

  function AnchorSet(grid: nat): nat { if grid == 80 then 0 else if grid == 40 then 1 else 2 }

  /** The first largest entry. */
  predicate IsBest(s: seq<real>, c: nat) {
    && c < |s|
    && (forall k :: 0 <= k < |s| ==> s[k] <= s[c])
    && (forall k :: 0 <= k < c ==> s[k] < s[c])
  }

  function ArgMax(s: seq<real>): (c: nat)
    requires s != []
    ensures IsBest(s, c)
  {
    var k := |s| - 1;
    if k == 0 then 0
    else
      var c := ArgMax(s[..k]);
      assert forall m | 0 <= m < k :: s[..k][m] == s[m];
      if s[k] > s[c] then k else c
  }

  lemma BestUnique(s: seq<real>, c: nat)
    requires s != [] && IsBest(s, c)
    ensures c == ArgMax(s)
  {
    var d := ArgMax(s);
    assert s[c] <= s[d] && s[d] <= s[c];
  }

  /** The class scores of a record. */
  function Scores(sigmoid: real -> real, record: seq<real>): (s: seq<real>)
    requires |record| == RECORD
    ensures |s| == NUM_CLASSES
    ensures forall c :: 0 <= c < NUM_CLASSES ==> s[c] == sigmoid(record[5 + c])
  {
    seq(NUM_CLASSES, c requires 0 <= c < NUM_CLASSES => sigmoid(record[5 + c]))
  }

  function Confidence(sigmoid: real -> real, record: seq<real>): real
    requires |record| == RECORD
  {
    var scores := Scores(sigmoid, record);
    sigmoid(record[4]) * scores[ArgMax(scores)]
  }

  lemma ConfidenceIs(sigmoid: real -> real, record: seq<real>)
    requires |record| == RECORD
    ensures Confidence(sigmoid, record)
         == sigmoid(record[4]) * Scores(sigmoid, record)[ArgMax(Scores(sigmoid, record))]
  {
  }

  /** The confidence never exceeds the objectness: the early cut drops nothing that would be kept. */
  lemma ConfidenceBelowObjectness(sigmoid: real -> real, record: seq<real>)
    requires Probability(sigmoid) && |record| == RECORD
    ensures 0.0 <= Confidence(sigmoid, record) <= sigmoid(record[4]) <= 1.0
  {
    var scores := Scores(sigmoid, record);
    SigmoidRange(sigmoid, record[4]);
    SigmoidRange(sigmoid, record[5 + ArgMax(scores)]);
    ProductsOrdered(sigmoid(record[4]), scores[ArgMax(scores)], sigmoid(record[4]), 1.0);
  }

  function Extent(s: real, anchor: real): real { (s * 2.0) * (s * 2.0) * anchor / INPUT_SIZE }

  lemma PositiveProduct(a: real, b: real)
    requires a > 0.0 && b > 0.0
    ensures a * b > 0.0
  {
  }

  lemma QuotientsOrdered(a: real, b: real, d: real)
    requires a <= b && d > 0.0
    ensures a / d <= b / d
  {
    var p, q := a / d, b / d;
    assert p * d == a && q * d == b;
    if p > q { PositiveProduct(p - q, d); }
  }

  lemma ExtentBounds(s: real, anchor: real)
    requires 0.0 <= s <= 1.0 && 0.0 <= anchor
    ensures 0.0 <= Extent(s, anchor) <= 4.0 * anchor / INPUT_SIZE
  {
    ProductsOrdered(s * 2.0, s * 2.0, 2.0, 2.0);
    var area := (s * 2.0) * (s * 2.0);
    ProductsOrdered(area, anchor, 4.0, anchor);
    QuotientsOrdered(0.0, area * anchor, INPUT_SIZE);
    QuotientsOrdered(area * anchor, 4.0 * anchor, INPUT_SIZE);
  }

  function Center(s: real, cell: nat, grid: nat): real
    requires grid > 0
  {
    (s * 2.0 - 0.5 + cell as real) / grid as real
  }

  function BoxOf(sigmoid: real -> real, record: seq<real>, grid: nat, y: nat, x: nat, a: nat): (b: Box)
    requires Probability(sigmoid) && |record| == RECORD && 0 < grid && a < NUM_ANCHORS
    ensures b.x1 + b.x2 == 2.0 * Center(sigmoid(record[0]), x, grid)
    ensures b.y1 + b.y2 == 2.0 * Center(sigmoid(record[1]), y, grid)
    ensures b.x2 - b.x1 == Extent(sigmoid(record[2]), Anchor(AnchorSet(grid), a).0)
    ensures b.y2 - b.y1 == Extent(sigmoid(record[3]), Anchor(AnchorSet(grid), a).1)
    ensures b.confidence == Confidence(sigmoid, record) && b.classId == ArgMax(Scores(sigmoid, record))
  {
    var cx, cy := Center(sigmoid(record[0]), x, grid), Center(sigmoid(record[1]), y, grid);
    var anchor := Anchor(AnchorSet(grid), a);
    SigmoidRange(sigmoid, record[2]);
    SigmoidRange(sigmoid, record[3]);
    ExtentBounds(sigmoid(record[2]), anchor.0);
    ExtentBounds(sigmoid(record[3]), anchor.1);
    var w, h := Extent(sigmoid(record[2]), anchor.0), Extent(sigmoid(record[3]), anchor.1);
    Detection(cx - w / 2.0, cy - h / 2.0, cx + w / 2.0, cy + h / 2.0,
              Confidence(sigmoid, record), ArgMax(Scores(sigmoid, record)))
  }

  // ---- The formulas in numbers ---------------------------------------------------------------------

  /** The anchors of the grids of 80 and 40 cells, and of any other grid, in pixels. */
  lemma Anchors(grid: nat)
    ensures grid == 80 ==> Anchor(AnchorSet(grid), 0) == (10.0, 13.0) && Anchor(AnchorSet(grid), 1) == (16.0, 30.0)
                           && Anchor(AnchorSet(grid), 2) == (33.0, 23.0)
    ensures grid == 40 ==> Anchor(AnchorSet(grid), 0) == (30.0, 61.0) && Anchor(AnchorSet(grid), 1) == (62.0, 45.0)
                           && Anchor(AnchorSet(grid), 2) == (59.0, 119.0)
    ensures grid != 80 && grid != 40 ==>
      Anchor(AnchorSet(grid), 0) == (116.0, 90.0) && Anchor(AnchorSet(grid), 1) == (156.0, 198.0)
      && Anchor(AnchorSet(grid), 2) == (373.0, 326.0)
  {}

  lemma Divided(a: real, d: real)
    requires d > 0.0
    ensures a / d * d == a
  {}

  lemma CenterIs(s: real, cell: nat, grid: nat)
    requires grid > 0
    ensures Center(s, cell, grid) * grid as real == 2.0 * s - 0.5 + cell as real
  {
    Divided(s * 2.0 - 0.5 + cell as real, grid as real);
  }

  lemma ExtentIs(s: real, anchor: real)
    ensures Extent(s, anchor) * 640.0 == 4.0 * (s * s) * anchor
  {
    Divided((s * 2.0) * (s * 2.0) * anchor, 640.0);
  }

  /** The box of a record: twice the sigmoid less one half, from the cell on, in units of the grid, is its centre;
      the square of twice the sigmoid, in units of the anchor of a 640 pixel image, is its extent. */
  lemma BoxFormula(sigmoid: real -> real, record: seq<real>, grid: nat, y: nat, x: nat, a: nat,
                   width: real, height: real)
    requires Probability(sigmoid) && |record| == 85 && 0 < grid && a < 3
    requires (width, height) == Anchor(AnchorSet(grid), a)
    ensures var b := BoxOf(sigmoid, record, grid, y, x, a);
      && (b.x1 + b.x2) / 2.0 * grid as real == 2.0 * sigmoid(record[0]) - 0.5 + x as real
      && (b.y1 + b.y2) / 2.0 * grid as real == 2.0 * sigmoid(record[1]) - 0.5 + y as real
      && (b.x2 - b.x1) * 640.0 == 4.0 * (sigmoid(record[2]) * sigmoid(record[2])) * width
      && (b.y2 - b.y1) * 640.0 == 4.0 * (sigmoid(record[3]) * sigmoid(record[3])) * height
  {
    hide Center, Extent, Anchor, AnchorSet, Confidence, ArgMax, Scores, Probability;
    var b := BoxOf(sigmoid, record, grid, y, x, a);
    CenterIs(sigmoid(record[0]), x, grid);
    CenterIs(sigmoid(record[1]), y, grid);
    ExtentIs(sigmoid(record[2]), width);
    ExtentIs(sigmoid(record[3]), height);
    hide BoxOf;
    assert (b.x1 + b.x2) / 2.0 == Center(sigmoid(record[0]), x, grid);
    assert (b.y1 + b.y2) / 2.0 == Center(sigmoid(record[1]), y, grid);
  }

  /** Class and confidence: the first of the 80 classes with the largest score, and that score times the
      objectness. */
  lemma ClassFormula(sigmoid: real -> real, record: seq<real>, grid: nat, y: nat, x: nat, a: nat)
    requires Probability(sigmoid) && |record| == 85 && 0 < grid && a < 3
    ensures var b := BoxOf(sigmoid, record, grid, y, x, a);
      && 0 <= b.classId < 80
      && (forall i :: 5 <= i < 85 ==> sigmoid(record[i]) <= sigmoid(record[5 + b.classId]))
      && (forall i :: 5 <= i < 5 + b.classId ==> sigmoid(record[i]) < sigmoid(record[5 + b.classId]))
      && b.confidence == Confidence(sigmoid, record) == sigmoid(record[4]) * sigmoid(record[5 + b.classId])
  {
    hide ArgMax, Probability, Center, Extent, Anchor;
    var scores := Scores(sigmoid, record);
    var c := ArgMax(scores);
    assert IsBest(scores, c);
    assert forall i :: 5 <= i < 85 ==> sigmoid(record[i]) == scores[i - 5];
  }

  // ---- One buffer -----------------------------------------------------------------------------------

  function RecordAt(buffer: seq<real>, n: nat): (r: seq<real>)
    requires n < Records(Grid(|buffer|))
    ensures |r| == RECORD
  {
    RecordInside(|buffer|, n);
    buffer[RECORD * n..RECORD * n + RECORD]
  }

  function BoxAt(sigmoid: real -> real, buffer: seq<real>, n: nat): Box
    requires Probability(sigmoid) && n < Records(Grid(|buffer|))
  {
    var grid := Grid(|buffer|);
    IndexOnto(grid, n);
    BoxOf(sigmoid, RecordAt(buffer, n), grid, Row(grid, n), Column(grid, n), n % NUM_ANCHORS)
  }

  /** The grid is the largest square of cells with three records of 85 numbers each that fits. */
  lemma GridIs(length: nat, g: nat)
    ensures g <= Grid(length) <==> 255 * (g * g) <= length
  {
    var r := Grid(length);
    if g <= r {
      SquaresOrdered(g, r);
      assert r * r <= length / 255;
    } else {
      SquaresOrdered(r + 1, g);
    }
  }

  /** The record of a cell and anchor lies at the offset that the code computes. */
  lemma RecordOffset(buffer: seq<real>, y: nat, x: nat, a: nat)
    requires y < Grid(|buffer|) && x < Grid(|buffer|) && a < 3
    ensures var grid := Grid(|buffer|);
      var at := (y * grid + x) * 255 + a * 85;
      && Index(grid, y, x, a) < Records(grid) && at + 85 <= |buffer|
      && RecordAt(buffer, Index(grid, y, x, a)) == buffer[at..at + 85]
  {
    hide Grid, Records;
    var grid := Grid(|buffer|);
    IndexInvertible(grid, y, x, a);
    RecordInside(|buffer|, Index(grid, y, x, a));
    assert 85 * Index(grid, y, x, a) == (y * grid + x) * 255 + a * 85;
  }

  /** And its box is that of the row, the column and the anchor. */
  lemma BoxAtCell(sigmoid: real -> real, buffer: seq<real>, y: nat, x: nat, a: nat)
    requires Probability(sigmoid) && y < Grid(|buffer|) && x < Grid(|buffer|) && a < 3
    ensures var grid := Grid(|buffer|);
      var at := (y * grid + x) * 255 + a * 85;
      && Index(grid, y, x, a) < Records(grid) && at + 85 <= |buffer|
      && BoxAt(sigmoid, buffer, Index(grid, y, x, a)) == BoxOf(sigmoid, buffer[at..at + 85], grid, y, x, a)
  {
    hide Grid, Records, BoxOf, RecordAt, Probability, Index, Row, Column;
    RecordOffset(buffer, y, x, a);
    IndexInvertible(Grid(|buffer|), y, x, a);
  }

  /** The plain filter: of the first `n` records, those whose confidence reaches the threshold. */
  function Candidates(sigmoid: real -> real, buffer: seq<real>, threshold: real, n: nat): seq<Box>
    requires Probability(sigmoid) && n <= Records(Grid(|buffer|))
  {
    if n == 0 then []
    else
      Candidates(sigmoid, buffer, threshold, n - 1)
      + if Confidence(sigmoid, RecordAt(buffer, n - 1)) >= threshold then [BoxAt(sigmoid, buffer, n - 1)] else []
  }

  function AllCandidates(sigmoid: real -> real, outputs: seq<seq<real>>, threshold: real): seq<Box>
    requires Probability(sigmoid)
  {
    if outputs == [] then []
    else
      var k := |outputs| - 1;
      AllCandidates(sigmoid, outputs[..k], threshold)
      + Candidates(sigmoid, outputs[k], threshold, Records(Grid(|outputs[k]|)))
  }

  /** A box is a candidate exactly when it is the box of a record that reaches the threshold. */
  lemma {:induction false} CandidatesAre(sigmoid: real -> real, buffer: seq<real>, threshold: real, n: nat, b: Box)
    requires Probability(sigmoid) && n <= Records(Grid(|buffer|))
    ensures b in Candidates(sigmoid, buffer, threshold, n)
       <==> exists m :: 0 <= m < n && IsCandidate(sigmoid, buffer, threshold, m, b)
  {
    hide Probability, Grid, Records, RecordAt, BoxAt, Confidence;
    if n > 0 {
      CandidatesAre(sigmoid, buffer, threshold, n - 1, b);
      assert IsCandidate(sigmoid, buffer, threshold, n - 1, b)
        <==> Confidence(sigmoid, RecordAt(buffer, n - 1)) >= threshold && b == BoxAt(sigmoid, buffer, n - 1);
    }
  }

  /** Over all buffers: the candidates are those of some buffer. */
  lemma {:induction false} AllCandidatesAre(sigmoid: real -> real, outputs: seq<seq<real>>, threshold: real, b: Box)
    requires Probability(sigmoid)
    ensures b in AllCandidates(sigmoid, outputs, threshold)
       <==> exists k :: 0 <= k < |outputs|
              && b in Candidates(sigmoid, outputs[k], threshold, Records(Grid(|outputs[k]|)))
    decreases |outputs|
  {
    hide Candidates, Records, Grid, Probability;
    if outputs != [] {
      var k := |outputs| - 1;
      AllCandidatesAre(sigmoid, outputs[..k], threshold, b);
      assert forall m | 0 <= m < k :: outputs[..k][m] == outputs[m];
    }
  }

  ghost predicate IsCandidate(sigmoid: real -> real, buffer: seq<real>, threshold: real, m: nat, b: Box)
    requires Probability(sigmoid) && m < Records(Grid(|buffer|))
  {
    Confidence(sigmoid, RecordAt(buffer, m)) >= threshold && b == BoxAt(sigmoid, buffer, m)
  }

  /** Whatever is decoded names one of the classes with a confidence from the threshold to one. */
  lemma CandidateInRange(sigmoid: real -> real, buffer: seq<real>, threshold: real, n: nat, b: Box)
    requires Probability(sigmoid) && n <= Records(Grid(|buffer|)) && b in Candidates(sigmoid, buffer, threshold, n)
    ensures threshold <= b.confidence <= 1.0 && 0 <= b.classId < NUM_CLASSES
  {
    hide Grid, Records, RecordAt, Confidence, Candidates;
    CandidatesAre(sigmoid, buffer, threshold, n, b);
    var m :| 0 <= m < n && IsCandidate(sigmoid, buffer, threshold, m, b);
    ConfidenceBelowObjectness(sigmoid, RecordAt(buffer, m));
  }

  // ---- The loops ------------------------------------------------------------------------------------

  method BestClass(sigmoid: real -> real, buffer: seq<real>, start: nat) returns (best: nat, score: real)
    requires Probability(sigmoid) && start + RECORD <= |buffer|
    ensures best == ArgMax(Scores(sigmoid, buffer[start..start + RECORD]))
    ensures score == Scores(sigmoid, buffer[start..start + RECORD])[best]
  {
    ghost var scores := Scores(sigmoid, buffer[start..start + RECORD]);
    best, score := 0, -1.0;
    for c := 0 to NUM_CLASSES
      invariant c == 0 ==> score == -1.0
      invariant c > 0 ==> best < c && score == scores[best]
      invariant best <= c
      invariant forall k :: 0 <= k < c ==> scores[k] <= score
      invariant forall k :: 0 <= k < best ==> scores[k] < score
    {
      var s := sigmoid(buffer[start + (5 + c)]);
      SigmoidRange(sigmoid, buffer[start + (5 + c)]);
      assert s == scores[c];
      if s > score { score, best := s, c; }
    }
    BestUnique(scores, best);
  }

  method BoxFrom(sigmoid: real -> real, buffer: seq<real>, grid: nat, y: nat, x: nat, a: nat, start: nat,
                 confidence: real, best: nat)
    returns (b: Box)
    requires Probability(sigmoid) && start + RECORD <= |buffer| && 0 < grid && a < NUM_ANCHORS
    requires confidence == Confidence(sigmoid, buffer[start..start + RECORD])
    requires best == ArgMax(Scores(sigmoid, buffer[start..start + RECORD]))
    ensures b == BoxOf(sigmoid, buffer[start..start + RECORD], grid, y, x, a)
  {
    ghost var record := buffer[start..start + RECORD];
    hide Confidence, ArgMax, Scores, Probability;
    var cx := (sigmoid(buffer[start]) * 2.0 - 0.5 + x as real) / grid as real;
    var cy := (sigmoid(buffer[start + 1]) * 2.0 - 0.5 + y as real) / grid as real;
    var anchor := Anchor(AnchorSet(grid), a);
    var w := Extent(sigmoid(buffer[start + 2]), anchor.0);
    var h := Extent(sigmoid(buffer[start + 3]), anchor.1);
    SigmoidRange(sigmoid, record[2]);
    SigmoidRange(sigmoid, record[3]);
    ExtentBounds(sigmoid(record[2]), anchor.0);
    ExtentBounds(sigmoid(record[3]), anchor.1);
    b := Detection(cx - w / 2.0, cy - h / 2.0, cx + w / 2.0, cy + h / 2.0, confidence, best);
  }

  /** The body of the loops, with the early cut: the plain filter on one record. */
  method Examine(sigmoid: real -> real, buffer: seq<real>, threshold: real, grid: nat, y: nat, x: nat, a: nat,
                 start: nat)
    returns (found: seq<Box>)
    requires Probability(sigmoid) && start + RECORD <= |buffer| && 0 < grid && a < NUM_ANCHORS
    ensures found == if Confidence(sigmoid, buffer[start..start + RECORD]) >= threshold
                     then [BoxOf(sigmoid, buffer[start..start + RECORD], grid, y, x, a)] else []
  {
    ghost var record := buffer[start..start + RECORD];
    hide Confidence, ArgMax, Scores, Probability, BoxOf;
    ConfidenceBelowObjectness(sigmoid, record);
    var objectness := sigmoid(buffer[start + 4]);
    assert objectness == sigmoid(record[4]);
    found := [];
    if objectness >= threshold {
      var best, score := BestClass(sigmoid, buffer, start);
      var confidence := objectness * score;
      ConfidenceIs(sigmoid, record);
      if confidence >= threshold {
        var b := BoxFrom(sigmoid, buffer, grid, y, x, a, start, confidence, best);
        found := [b];
      }
    }
  }

  /** One step of the innermost loop: the offset computed is that of the record, which is in bounds. */
  method Visit(sigmoid: real -> real, buffer: seq<real>, threshold: real, y: nat, x: nat, a: nat)
    returns (found: seq<Box>)
    requires Probability(sigmoid) && |buffer| <= INT_MAX
    requires y < Grid(|buffer|) && x < Grid(|buffer|) && a < NUM_ANCHORS
    ensures Index(Grid(|buffer|), y, x, a) < Records(Grid(|buffer|))
    ensures Candidates(sigmoid, buffer, threshold, Index(Grid(|buffer|), y, x, a) + 1)
         == Candidates(sigmoid, buffer, threshold, Index(Grid(|buffer|), y, x, a)) + found
  {
    hide Confidence, Probability, Grid, BoxOf;
    var grid := Grid(|buffer|);
    IndexInvertible(grid, y, x, a);
    RecordInside(|buffer|, Index(grid, y, x, a));
    var start := (y * grid + x) * (NUM_ANCHORS * RECORD) + a * RECORD;
    assert start == RECORD * Index(grid, y, x, a);
    found := Examine(sigmoid, buffer, threshold, grid, y, x, a, start);
  }

  lemma NextAnchor(grid: nat, y: nat, x: nat, a: nat)
    ensures Index(grid, y, x, a + 1) == Index(grid, y, x, a) + 1
  {
  }

  lemma NextCell(grid: nat, y: nat, x: nat)
    ensures Index(grid, y, x + 1, 0) == Index(grid, y, x, NUM_ANCHORS)
  {
  }

  lemma NextRow(grid: nat, y: nat)
    ensures Index(grid, y + 1, 0, 0) == Index(grid, y, grid, 0)
  {
    Difference(y + 1, y, grid);
  }

  lemma FirstAndLast(grid: nat)
    ensures Index(grid, 0, 0, 0) == 0 && Index(grid, grid, 0, 0) == Records(grid)
  {
  }

  /** The first `n` records have been decoded. */
  ghost predicate Decoded(sigmoid: real -> real, buffer: seq<real>, threshold: real, before: seq<Box>, n: nat,
                          detections: seq<Box>)
    requires Probability(sigmoid)
  {
    n <= Records(Grid(|buffer|)) && detections == before + Candidates(sigmoid, buffer, threshold, n)
  }

  lemma DecodedNone(sigmoid: real -> real, buffer: seq<real>, threshold: real, before: seq<Box>)
    requires Probability(sigmoid)
    ensures Decoded(sigmoid, buffer, threshold, before, 0, before)
  {
    hide Probability, Grid;
    assert before + [] == before;
  }

  lemma DecodedMore(sigmoid: real -> real, buffer: seq<real>, threshold: real, before: seq<Box>, n: nat,
                    detections: seq<Box>, found: seq<Box>)
    requires Probability(sigmoid) && n < Records(Grid(|buffer|))
    requires Decoded(sigmoid, buffer, threshold, before, n, detections)
    requires Candidates(sigmoid, buffer, threshold, n + 1) == Candidates(sigmoid, buffer, threshold, n) + found
    ensures Decoded(sigmoid, buffer, threshold, before, n + 1, detections + found)
  {
    hide Probability, Grid, Candidates;
  }

  /** The loops over rows, columns and anchors. */
  method DecodeScale(sigmoid: real -> real, buffer: seq<real>, threshold: real, before: seq<Box>)
    returns (detections: seq<Box>)
    requires Probability(sigmoid) && |buffer| <= INT_MAX
    ensures detections == before + Candidates(sigmoid, buffer, threshold, Records(Grid(|buffer|)))
  {
    hide Candidates, Grid, Probability, Records, Index;
    var grid := Grid(|buffer|);
    FirstAndLast(grid);
    DecodedNone(sigmoid, buffer, threshold, before);
    detections := before;
    for y := 0 to grid
      invariant Decoded(sigmoid, buffer, threshold, before, Index(grid, y, 0, 0), detections)
    {
      for x := 0 to grid
        invariant Decoded(sigmoid, buffer, threshold, before, Index(grid, y, x, 0), detections)
      {
        for a := 0 to NUM_ANCHORS
          invariant Decoded(sigmoid, buffer, threshold, before, Index(grid, y, x, a), detections)
        {
          var found := Visit(sigmoid, buffer, threshold, y, x, a);
          DecodedMore(sigmoid, buffer, threshold, before, Index(grid, y, x, a), detections, found);
          NextAnchor(grid, y, x, a);
          detections := detections + found;
        }
        NextCell(grid, y, x);
      }
      NextRow(grid, y);
    }
  }

  /** The boxes returned are the greedy selection, in some descending order, of the plain filter. */
  method DecodeAll(sigmoid: real -> real, outputs: seq<seq<real>>, threshold: real) returns (result: seq<Box>)
    requires Probability(sigmoid) && forall k :: 0 <= k < |outputs| ==> |outputs[k]| <= INT_MAX
    ensures GreedyResult(AllCandidates(sigmoid, outputs, threshold), 0.45, result)
  {
    var detections: seq<Box> := [];
    for k := 0 to |outputs|
      invariant detections == AllCandidates(sigmoid, outputs[..k], threshold)
    {
      assert outputs[..k + 1][..k] == outputs[..k];
      detections := DecodeScale(sigmoid, outputs[k], threshold, detections);
    }
    assert outputs[..|outputs|] == outputs;
    var boxes := new Box[|detections|](i requires 0 <= i < |detections| => detections[i]);
    assert boxes[..] == detections;
    ghost var keep;
    result, keep := Nms.Nms(boxes, NMS_IOU_THRESHOLD);
    assert Arranged(detections, boxes[..]) && result == Greedy.Select(Clash(NMS_IOU_THRESHOLD), boxes[..]);
  }
}
