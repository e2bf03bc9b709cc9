/**
  `hilbert_indices(H, W)` of lib/hilbert.py: walk the smallest Hilbert
  curve whose square covers the image, keep the points inside the image,
  and tag each kept point with the direction of the step from the previous
  kept point.

  The filtering and tagging do not depend on which curve is walked, so they
  are stated for any curve `c: nat -> Point` (position to point) and then
  applied to the Hilbert curve `CurveOf(k)`.
 */
module HilbertOrder {
  import opened Direction
  import opened Visits
  import opened HilbertCurve

  /** The curve order the loop computes with: `hilbert_prox_ind` treats order 0 as order 1. */
  function Order(logN: nat): nat {
    if logN == 0 then 1 else logN
  }

  /** The order-`k` Hilbert curve as a function of the position. */
  function CurveOf(k: nat): nat -> Point {
    (i: nat) => Curve(k, i)
  }

  predicate Inside(p: Point, h: nat, w: nat) {
    p.y < h && p.x < w
  }

  // ---------------------------------------------------------------------
  // Keeping the points inside the image

  /** Positions below `n` on the curve `c` whose points lie in the image, in curve order. */
  function KeptIndices(c: nat -> Point, h: nat, w: nat, n: nat): (ids: seq<nat>)
    ensures forall t :: 0 <= t < |ids| ==> ids[t] < n
  {
    if n == 0 then []
    else if Inside(c(n - 1), h, w) then KeptIndices(c, h, w, n - 1) + [n - 1]
    else KeptIndices(c, h, w, n - 1)
  }

  /** The kept positions are exactly the positions inside the image, each once, in order. */
  lemma KeptIndicesAreInside(c: nat -> Point, h: nat, w: nat, n: nat)
    ensures forall t :: 0 <= t < |KeptIndices(c, h, w, n)| ==>
      Inside(c(KeptIndices(c, h, w, n)[t]), h, w)
    ensures forall s, t :: 0 <= s < t < |KeptIndices(c, h, w, n)| ==>
      KeptIndices(c, h, w, n)[s] < KeptIndices(c, h, w, n)[t]
    ensures forall i :: 0 <= i < n && Inside(c(i), h, w) ==> i in KeptIndices(c, h, w, n)
  {
    KeptInside(c, h, w, n);
    KeptIncreasing(c, h, w, n);
    KeptComplete(c, h, w, n);
  }

  lemma {:induction false} KeptInside(c: nat -> Point, h: nat, w: nat, n: nat)
    ensures forall t :: 0 <= t < |KeptIndices(c, h, w, n)| ==>
      Inside(c(KeptIndices(c, h, w, n)[t]), h, w)
    decreases n
  {
    if n > 0 {
      KeptInside(c, h, w, n - 1);
      var front := KeptIndices(c, h, w, n - 1);
      var ids := KeptIndices(c, h, w, n);
      forall t | 0 <= t < |ids|
        ensures Inside(c(ids[t]), h, w)
      {
        if t < |front| {
          assert ids[t] == front[t];
        } else {
          assert ids == front + [n - 1];
        }
      }
    }
  }

  lemma {:induction false} KeptIncreasing(c: nat -> Point, h: nat, w: nat, n: nat)
    ensures forall s, t :: 0 <= s < t < |KeptIndices(c, h, w, n)| ==>
      KeptIndices(c, h, w, n)[s] < KeptIndices(c, h, w, n)[t]
    decreases n
  {
    if n > 0 {
      KeptIncreasing(c, h, w, n - 1);
      var front := KeptIndices(c, h, w, n - 1);
      var ids := KeptIndices(c, h, w, n);
      forall s, t | 0 <= s < t < |ids|
        ensures ids[s] < ids[t]
      {
        assert ids[s] == front[s] < n - 1;
        if t < |front| {
          assert ids[t] == front[t];
        } else {
          assert ids == front + [n - 1];
        }
      }
    }
  }

  lemma {:induction false} KeptComplete(c: nat -> Point, h: nat, w: nat, n: nat)
    ensures forall i :: 0 <= i < n && Inside(c(i), h, w) ==> i in KeptIndices(c, h, w, n)
    decreases n
  {
    if n > 0 {
      KeptComplete(c, h, w, n - 1);
      var front := KeptIndices(c, h, w, n - 1);
      var ids := KeptIndices(c, h, w, n);
      assert front <= ids;
      forall i | 0 <= i < n && Inside(c(i), h, w)
        ensures i in ids
      {
        if i < n - 1 {
          assert i in front;
        } else {
          assert ids == front + [n - 1];
        }
      }
    }
  }

  lemma {:induction false} KeptIndicesPrefix(c: nat -> Point, h: nat, w: nat, m: nat, n: nat)
    requires m <= n
    ensures KeptIndices(c, h, w, m) <= KeptIndices(c, h, w, n)
    decreases n
  {
    if m < n {
      KeptIndicesPrefix(c, h, w, m, n - 1);
      var front := KeptIndices(c, h, w, n - 1);
      if Inside(c(n - 1), h, w) {
        assert KeptIndices(c, h, w, n) == front + [n - 1];
      }
    }
  }

  /** The kept points, in curve order. */
  function KeptPoints(c: nat -> Point, h: nat, w: nat, n: nat): (pts: seq<Point>)
    ensures |pts| == |KeptIndices(c, h, w, n)|
  {
    if n == 0 then []
    else if Inside(c(n - 1), h, w) then KeptPoints(c, h, w, n - 1) + [c(n - 1)]
    else KeptPoints(c, h, w, n - 1)
  }

  /** The `t`-th kept point is the point at the `t`-th kept position. */
  lemma {:induction false} KeptPointsAt(c: nat -> Point, h: nat, w: nat, n: nat)
    ensures forall t :: 0 <= t < |KeptPoints(c, h, w, n)| ==>
      KeptPoints(c, h, w, n)[t] == c(KeptIndices(c, h, w, n)[t])
    decreases n
  {
    if n > 0 {
      KeptPointsAt(c, h, w, n - 1);
      var pts, ids := KeptPoints(c, h, w, n - 1), KeptIndices(c, h, w, n - 1);
      if Inside(c(n - 1), h, w) {
        assert KeptPoints(c, h, w, n) == pts + [c(n - 1)];
        assert KeptIndices(c, h, w, n) == ids + [n - 1];
      } else {
        assert KeptPoints(c, h, w, n) == pts;
        assert KeptIndices(c, h, w, n) == ids;
      }
    }
  }

  // ---------------------------------------------------------------------
  // Tagging each kept point with a direction

  /** The point the direction of the `t`-th kept point is measured from: the previous kept
      point, or the curve's start (0, 0) for the first. */
  function Previous(pts: seq<Point>, t: nat): Point
    requires t <= |pts|
  {
    if t == 0 then Point(0, 0) else pts[t - 1]
  }

  /** The row for point `p` reached from `o`: `(y, x, direcao(x, ox, y, oy))`. */
  function RowFor(p: Point, o: Point): Visit {
    Visit(p.y, p.x, Direcao(p.x, o.x, p.y, o.y))
  }

  /** Rows `(y, x, d)` for the kept points, `d` the direction of the step from the previous one. */
  function Tagged(pts: seq<Point>): (vs: seq<Visit>)
    ensures |vs| == |pts|
  {
    if |pts| == 0 then []
    else
      var last := |pts| - 1;
      Tagged(pts[..last]) + [RowFor(pts[last], Previous(pts, last))]
  }

  /** Row `t` is the `t`-th point, tagged with the step from the point before it. */
  lemma {:induction false} TaggedAt(pts: seq<Point>)
    ensures forall t :: 0 <= t < |pts| ==> Tagged(pts)[t] == RowFor(pts[t], Previous(pts, t))
    decreases |pts|
  {
    if |pts| > 0 {
      var last := |pts| - 1;
      var front := pts[..last];
      TaggedAt(front);
      forall t | 0 <= t < last
        ensures Tagged(pts)[t] == RowFor(pts[t], Previous(pts, t))
      {
        assert Tagged(pts)[t] == Tagged(front)[t];
        assert front[t] == pts[t] && Previous(front, t) == Previous(pts, t);
      }
    }
  }

  lemma TaggedPrefix(pts: seq<Point>, p: Point)
    ensures Tagged(pts + [p]) == Tagged(pts) + [RowFor(p, Previous(pts, |pts|))]
  {
    var all := pts + [p];
    assert all[..|pts|] == pts;
    assert all[|pts|] == p;
    assert Previous(all, |pts|) == Previous(pts, |pts|);
  }

  /** `log2(max(H, W))`: the order of the smallest curve whose square covers the image. */
  function CoverLog(h: nat, w: nat): nat {
    CeilLog2(if h > w then h else w)
  }

  /** The points of the covering curve that lie in the image, in curve order. */
  function CoveringPoints(h: nat, w: nat): seq<Point> {
    KeptPoints(CurveOf(Order(CoverLog(h, w))), h, w, Pow4(CoverLog(h, w)))
  }

  /** The rows `hilbert_indices(H, W)` returns. */
  function HilbertVisits(h: nat, w: nat): seq<Visit> {
    Tagged(CoveringPoints(h, w))
  }

  // ---------------------------------------------------------------------
  // Properties of the Hilbert order

  /** The side of the covering curve: a power of two at least the image's larger side. */
  lemma CurveCoversImage(h: nat, w: nat)
    ensures h <= Pow2(CoverLog(h, w)) && w <= Pow2(CoverLog(h, w))
    ensures Pow2(CoverLog(h, w)) * Pow2(CoverLog(h, w)) == Pow4(CoverLog(h, w))
  {
    CeilLog2Bounds(if h > w then h else w);
    Pow4IsSquare(CoverLog(h, w));
  }

  /** Every pixel of the image is a kept point: its position on the covering curve is kept. */
  lemma PixelIsKept(h: nat, w: nat, y: nat, x: nat)
    requires y < h && x < w
    ensures Point(x, y) in CoveringPoints(h, w)
  {
    var logN := CoverLog(h, w);
    var k := Order(logN);
    var c := CurveOf(k);
    var n := Pow4(logN);
    CurveCoversImage(h, w);
    var i: nat;
    if logN == 0 {
      CurveEnds(1);
      i := 0;
    } else {
      CurveOfIndex(k, Point(x, y));
      i := Index(k, Point(x, y));
    }
    assert c(i) == Point(x, y);
    KeptComplete(c, h, w, n);
    KeptPointsAt(c, h, w, n);
    var ids := KeptIndices(c, h, w, n);
    var t :| 0 <= t < |ids| && ids[t] == i;
    assert KeptPoints(c, h, w, n)[t] == Point(x, y);
  }

  /** The kept points of the covering curve lie in the image, each at most once. */
  lemma KeptPointsDistinct(h: nat, w: nat)
    ensures forall t :: 0 <= t < |CoveringPoints(h, w)| ==> Inside(CoveringPoints(h, w)[t], h, w)
    ensures forall s, t :: 0 <= s < t < |CoveringPoints(h, w)| ==>
      CoveringPoints(h, w)[s] != CoveringPoints(h, w)[t]
  {
    var logN := CoverLog(h, w);
    var k := Order(logN);
    var c := CurveOf(k);
    var n := Pow4(logN);
    var pts := KeptPoints(c, h, w, n);
    var ids := KeptIndices(c, h, w, n);
    assert n <= Pow4(k) by {
      assert logN == 0 ==> n == 1;
    }
    KeptInside(c, h, w, n);
    KeptIncreasing(c, h, w, n);
    KeptPointsAt(c, h, w, n);
    forall s, t | 0 <= s < t < |pts|
      ensures pts[s] != pts[t]
    {
      IndexOfCurve(k, ids[s]);
      IndexOfCurve(k, ids[t]);
      assert pts[s] == Curve(k, ids[s]) && pts[t] == Curve(k, ids[t]);
    }
  }

  /** Tagging keeps the points: distinct points inside the image give rows without repeats,
      all inside the image. */
  lemma TaggedDistinct(pts: seq<Point>, h: nat, w: nat)
    requires forall t :: 0 <= t < |pts| ==> Inside(pts[t], h, w)
    requires forall s, t :: 0 <= s < t < |pts| ==> pts[s] != pts[t]
    ensures Distinct(Tagged(pts)) && AllInGrid(Tagged(pts), h, w)
  {
    var vs := Tagged(pts);
    TaggedAt(pts);
    forall s, t | 0 <= s < t < |vs|
      ensures CellOf(vs[s]) != CellOf(vs[t])
    {
      assert vs[s] == RowFor(pts[s], Previous(pts, s));
      assert vs[t] == RowFor(pts[t], Previous(pts, t));
    }
    forall t | 0 <= t < |vs|
      ensures InGrid(vs[t], h, w)
    {
      assert vs[t] == RowFor(pts[t], Previous(pts, t));
    }
  }

  /** Distinct positions of the covering curve are distinct points, so no pixel is listed
      twice; and every kept point is inside the image. */
  lemma HilbertVisitsDistinct(h: nat, w: nat)
    ensures Distinct(HilbertVisits(h, w))
    ensures AllInGrid(HilbertVisits(h, w), h, w)
  {
    var pts := CoveringPoints(h, w);
    KeptPointsDistinct(h, w);
    TaggedDistinct(pts, h, w);
  }

  /** Every pixel of the image is listed. */
  lemma HilbertVisitsCover(h: nat, w: nat)
    ensures Covers(HilbertVisits(h, w), h, w)
  {
    var pts := CoveringPoints(h, w);
    var vs := HilbertVisits(h, w);
    assert vs == Tagged(pts);
    TaggedAt(pts);
    forall y: nat, x: nat | y < h && x < w
      ensures Cell(y, x) in Cells(vs)
    {
      PixelIsKept(h, w, y, x);
      var t :| 0 <= t < |pts| && pts[t] == Point(x, y);
      assert CellOf(vs[t]) == Cell(y, x);
    }
  }

  /** `hilbert_indices(H, W)` lists every pixel of the image exactly once, so it has exactly
      `H * W` rows and the `H * W`-row buffer is filled without overflow. */
  lemma HilbertVisitsExactlyOnce(h: nat, w: nat)
    ensures ExactlyOnce(HilbertVisits(h, w), h, w)
    ensures |HilbertVisits(h, w)| == h * w
  {
    HilbertVisitsDistinct(h, w);
    HilbertVisitsCover(h, w);
    ExactlyOnceLength(HilbertVisits(h, w), h, w);
  }

  /** When the image is the whole square, every position is kept. */
  lemma {:induction false} KeptAll(k: nat, side: nat, n: nat)
    requires side == Pow2(k)
    ensures KeptIndices(CurveOf(k), side, side, n) == seq(n, i requires 0 <= i < n => i)
    decreases n
  {
    if n > 0 {
      KeptAll(k, side, n - 1);
      assert Inside(CurveOf(k)(n - 1), side, side);
    }
  }

  /** On a square image of side `2^k` (k >= 1) the kept points are the whole curve. */
  lemma SquareImageKeepsAll(k: nat)
    requires k >= 1
    ensures |KeptPoints(CurveOf(k), Pow2(k), Pow2(k), Pow4(k))| == Pow4(k)
    ensures forall t :: 0 <= t < Pow4(k) ==> KeptPoints(CurveOf(k), Pow2(k), Pow2(k), Pow4(k))[t] == Curve(k, t)
  {
    var c := CurveOf(k);
    KeptAll(k, Pow2(k), Pow4(k));
    KeptPointsAt(c, Pow2(k), Pow2(k), Pow4(k));
    var ids := KeptIndices(c, Pow2(k), Pow2(k), Pow4(k));
    forall t | 0 <= t < Pow4(k)
      ensures KeptPoints(c, Pow2(k), Pow2(k), Pow4(k))[t] == Curve(k, t)
    {
      assert ids[t] == t;
    }
  }

  /** On a square image of side `2^k` (k >= 1) the covering curve is the order-`k` curve
      itself and nothing is clipped: the kept points are the whole curve, in order. */
  lemma SquareImagePoints(k: nat)
    requires k >= 1
    ensures |CoveringPoints(Pow2(k), Pow2(k))| == Pow4(k)
    ensures forall t :: 0 <= t < Pow4(k) ==> CoveringPoints(Pow2(k), Pow2(k))[t] == Curve(k, t)
  {
    var side := Pow2(k);
    CeilLog2OfPow2(k);
    assert CoverLog(side, side) == k;
    assert CoveringPoints(side, side) == KeptPoints(CurveOf(k), side, side, Pow4(k));
    SquareImageKeepsAll(k);
  }

  /** On a square image of side `2^k` (k >= 1) row `t` is the `t`-th point of the curve, and
      after the first it is tagged with the step from the `(t-1)`-th. */
  lemma SquareImageRows(k: nat)
    requires k >= 1
    ensures |HilbertVisits(Pow2(k), Pow2(k))| == Pow4(k)
    ensures forall t :: 0 <= t < Pow4(k) ==>
      CellOf(HilbertVisits(Pow2(k), Pow2(k))[t]) == Cell(Curve(k, t).y, Curve(k, t).x)
    ensures forall t :: 0 < t < Pow4(k) ==>
      HilbertVisits(Pow2(k), Pow2(k))[t] == RowFor(Curve(k, t), Curve(k, t - 1))
  {
    var side := Pow2(k);
    var pts := CoveringPoints(side, side);
    var vs := HilbertVisits(side, side);
    assert vs == Tagged(pts);
    SquareImagePoints(k);
    TaggedAt(pts);
    forall t | 0 <= t < Pow4(k)
      ensures CellOf(vs[t]) == Cell(Curve(k, t).y, Curve(k, t).x)
    {
      assert vs[t] == RowFor(pts[t], Previous(pts, t));
    }
    forall t | 0 < t < Pow4(k)
      ensures vs[t] == RowFor(Curve(k, t), Curve(k, t - 1))
    {
      assert vs[t] == RowFor(pts[t], pts[t - 1]);
    }
  }

  /** Row `v` is a unit step from `o` in the direction it is tagged with. */
  predicate StepFrom(o: Point, v: Visit) {
    (v.d == Esquerda ==> o.x >= 1) && (v.d == Cima ==> o.y >= 1) &&
    Move(o, v.d) == Point(v.x, v.y)
  }

  /** The curve's row at `t` is the unit step from its point at `t - 1`. */
  lemma CurveRowStep(k: nat, t: nat)
    requires 0 < t < Pow4(k)
    ensures StepFrom(Curve(k, t - 1), RowFor(Curve(k, t), Curve(k, t - 1)))
  {
    var p, o := Curve(k, t), Curve(k, t - 1);
    CurveIsContinuous(k, t - 1);
    MoveOfDirecao(p, o);
    assert RowFor(p, o) == Visit(p.y, p.x, Direcao(p.x, o.x, p.y, o.y));
  }

  /** On a square image whose side is a power of two `2^k` (k >= 1) nothing is clipped: each
      row after the first is a unit step from the previous row, and its direction names
      that step. */
  lemma SquareImageFollowsCurve(k: nat, t: nat)
    requires k >= 1 && 0 < t < Pow4(k)
    ensures |HilbertVisits(Pow2(k), Pow2(k))| == Pow4(k)
    ensures var vs := HilbertVisits(Pow2(k), Pow2(k));
      StepFrom(Point(vs[t - 1].x, vs[t - 1].y), vs[t])
  {
    SquareImageRows(k);
    CurveRowStep(k, t);
    var vs := HilbertVisits(Pow2(k), Pow2(k));
    assert vs[t] == RowFor(Curve(k, t), Curve(k, t - 1));
    assert CellOf(vs[t - 1]) == Cell(Curve(k, t - 1).y, Curve(k, t - 1).x);
  }

  // ---------------------------------------------------------------------
  // The loop of `hilbert_indices`

  /** The last point written after the first `i` positions of the scan: `(oy, ox)` of the
      loop, starting at the curve's start (0, 0). */
  function LastKept(c: nat -> Point, h: nat, w: nat, i: nat): Point {
    if i == 0 then Point(0, 0)
    else if Inside(c(i - 1), h, w) then c(i - 1)
    else LastKept(c, h, w, i - 1)
  }

  /** The rows written after the first `i` positions of the scan, in the order the loop
      writes them. */
  function ScanRows(c: nat -> Point, h: nat, w: nat, i: nat): seq<Visit> {
    if i == 0 then []
    else if Inside(c(i - 1), h, w) then ScanRows(c, h, w, i - 1) + [RowFor(c(i - 1), LastKept(c, h, w, i - 1))]
    else ScanRows(c, h, w, i - 1)
  }

  /** The loop's previous point is the last kept point. */
  lemma {:induction false} LastKeptIsPrevious(c: nat -> Point, h: nat, w: nat, i: nat)
    ensures LastKept(c, h, w, i) == Previous(KeptPoints(c, h, w, i), |KeptPoints(c, h, w, i)|)
    decreases i
  {
    if i > 0 {
      LastKeptIsPrevious(c, h, w, i - 1);
      var pts := KeptPoints(c, h, w, i - 1);
      if Inside(c(i - 1), h, w) {
        assert KeptPoints(c, h, w, i) == pts + [c(i - 1)];
      } else {
        assert KeptPoints(c, h, w, i) == pts;
      }
    }
  }

  /** The loop's rows are the kept points tagged with the step from the previous kept point:
      the scan computes `Tagged(KeptPoints(..))`. */
  lemma {:induction false} ScanRowsAreTagged(c: nat -> Point, h: nat, w: nat, i: nat)
    ensures ScanRows(c, h, w, i) == Tagged(KeptPoints(c, h, w, i))
    decreases i
  {
    if i > 0 {
      ScanRowsAreTagged(c, h, w, i - 1);
      LastKeptIsPrevious(c, h, w, i - 1);
      var pts := KeptPoints(c, h, w, i - 1);
      if Inside(c(i - 1), h, w) {
        assert KeptPoints(c, h, w, i) == pts + [c(i - 1)];
        TaggedPrefix(pts, c(i - 1));
      } else {
        assert KeptPoints(c, h, w, i) == pts;
      }
    }
  }

  /** One iteration of the loop: the point at position `i` of the order-`logN` curve is
      written as the next row when it lies in the image, tagged with the direction from the
      previous written point `(ox, oy)`, and becomes the previous point. */
  method ScanPosition(logN: nat, h: nat, w: nat, i: nat, rows: seq<Visit>, ox: nat, oy: nat)
    returns (rows': seq<Visit>, ox': nat, oy': nat)
    requires rows == ScanRows(CurveOf(Order(logN)), h, w, i)
    requires Point(ox, oy) == LastKept(CurveOf(Order(logN)), h, w, i)
    ensures rows' == ScanRows(CurveOf(Order(logN)), h, w, i + 1)
    ensures Point(ox', oy') == LastKept(CurveOf(Order(logN)), h, w, i + 1)
  {
    var x, y := HilbertPoint(logN, i);
    assert CurveOf(Order(logN))(i) == Point(x, y);
    if y < h && x < w {
      rows', ox', oy' := rows + [Visit(y, x, Direcao(x, ox, y, oy))], x, y;
    } else {
      rows', ox', oy' := rows, ox, oy;
    }
  }

  /** The loop over the first `n` positions of the order-`logN` curve, starting from the
      curve's first point. The `H * W`-row buffer is modelled by the rows written so far. */
  method ScanLoop(logN: nat, h: nat, w: nat, n: nat) returns (idx: seq<Visit>)
    ensures idx == ScanRows(CurveOf(Order(logN)), h, w, n)
  {
    // As in lib/hilbert.py, the point's `(x, y)` lands in `(oy, ox)`, the wrong way round. It does
    // no harm: the curve starts at (0, 0) (`CurveStart`), so both are 0 either way.
    var oy: nat, ox: nat := HilbertPoint(logN, 0);
    assert ox == 0 && oy == 0 by {
      CurveStart(Order(logN));
    }
    idx := [];
    var i := 0;
    while i < n
      invariant 0 <= i <= n
      invariant idx == ScanRows(CurveOf(Order(logN)), h, w, i)
      invariant Point(ox, oy) == LastKept(CurveOf(Order(logN)), h, w, i)
    {
      idx, ox, oy := ScanPosition(logN, h, w, i, idx, ox, oy);
      i := i + 1;
    }
  }

  /** The scan over all `N * N` positions of the order-`logN` curve (`N = 2^logN`) lists the
      kept points, each tagged with the step from the previous kept point. */
  method ScanCurve(logN: nat, h: nat, w: nat) returns (idx: seq<Visit>)
    ensures idx == Tagged(KeptPoints(CurveOf(Order(logN)), h, w, Pow4(logN)))
  {
    var side := Pow2(logN);
    Pow4IsSquare(logN);
    idx := ScanLoop(logN, h, w, side * side);
    ScanRowsAreTagged(CurveOf(Order(logN)), h, w, Pow4(logN));
  }

  /** `hilbert_indices(H, W)`: the covering order from `log2`, then the scan. Every pixel is
      listed exactly once, so the `H * W`-row buffer is filled exactly, without overflow. */
  method HilbertIndices(h: nat, w: nat) returns (idx: seq<Visit>)
    ensures idx == HilbertVisits(h, w)
    ensures ExactlyOnce(idx, h, w) && |idx| == h * w
  {
    var logN := Log2(if h > w then h else w);
    idx := ScanCurve(logN, h, w);
    HilbertVisitsExactlyOnce(h, w);
  }
}
