/**
  The visit order of `varredura_espiral` (lib/espiral.py): rings from the
  outside in, each ring walked along its top row to the right, down its
  right column, along its bottom row to the left and up its left column.

  Ring `s` is the border of the sub-rectangle with corners (s, s) and
  (H-1-s, W-1-s), so every pixel belongs to the ring of its `Level`, its
  distance to the nearest border of the image. The order covers the image;
  it visits each pixel exactly once unless the innermost ring is a single
  row or column whose two opposite sides overlap.
 */
module SpiralOrder {
  import opened Direction
  import opened Visits

  function Min(a: nat, b: nat): nat {
    if a < b then a else b
  }

  /** Number of rings walked: `(1 + min(H, W)) // 2`. */
  function Rings(h: nat, w: nat): nat {
    (1 + Min(h, w)) / 2
  }

  /** Ring `s` is walked exactly when it has at least one row and one column. */
  lemma RingsRange(s: nat, h: nat, w: nat)
    ensures s < Rings(h, w) <==> 2 * s < h && 2 * s < w
  {
  }

  /** The number of values of Python's `range(a, b)`. */
  function Span(a: int, b: int): nat {
    if b > a then b - a else 0
  }

  /** Top row, `for x in range(s, W - s)`, walked to the right. */
  function TopRow(s: nat, h: nat, w: nat): seq<Visit>
    requires 2 * s < h && 2 * s < w
  {
    seq(Span(s, w - s), k requires 0 <= k < Span(s, w - s) => Visit(s, s + k, Direita))
  }

  /** Right column, `for y in range(s + 1, H - s)`, walked down. */
  function RightColumn(s: nat, h: nat, w: nat): seq<Visit>
    requires 2 * s < h && 2 * s < w
  {
    seq(Span(s + 1, h - s), k requires 0 <= k < Span(s + 1, h - s) => Visit(s + 1 + k, w - 1 - s, Baixo))
  }

  /** Bottom row, `for x in range(W - 1 - s, s, -1)` visiting `x - 1`, walked to the left. */
  function BottomRow(s: nat, h: nat, w: nat): seq<Visit>
    requires 2 * s < h && 2 * s < w
  {
    seq(Span(s, w - 1 - s), k requires 0 <= k < Span(s, w - 1 - s) => Visit(h - 1 - s, w - 2 - s - k, Esquerda))
  }

  /** Left column, `for y in range(H - 1 - s, s + 1, -1)` visiting `y - 1`, walked up. */
  function LeftColumn(s: nat, h: nat, w: nat): seq<Visit>
    requires 2 * s < h && 2 * s < w
  {
    seq(Span(s + 1, h - 1 - s), k requires 0 <= k < Span(s + 1, h - 1 - s) => Visit(h - 2 - s - k, s, Cima))
  }

  /** Ring `s`: its four sides in the order the loop walks them. */
  function Ring(s: nat, h: nat, w: nat): seq<Visit>
    requires 2 * s < h && 2 * s < w
  {
    TopRow(s, h, w) + RightColumn(s, h, w) + BottomRow(s, h, w) + LeftColumn(s, h, w)
  }

  /** Ring `s` of the image, as a function of `s`; only rings that exist are ever walked. */
  function RingOf(h: nat, w: nat): nat -> seq<Visit> {
    (s: nat) => if 2 * s < h && 2 * s < w then Ring(s, h, w) else []
  }

  /** Rings `0` to `n - 1` of `r`, walked one after the other from the outside in. */
  function Rounds(n: nat, r: nat -> seq<Visit>): seq<Visit> {
    if n == 0 then [] else Rounds(n - 1, r) + r(n - 1)
  }

  /** The order `varredura_espiral` visits the pixels in. */
  function Spiral(h: nat, w: nat): seq<Visit> {
    Rounds(Rings(h, w), RingOf(h, w))
  }

  /** Distance of pixel (y, x) to the nearest border of the image: the ring it lies on. */
  function Level(y: int, x: int, h: nat, w: nat): int {
    var a := if y < x then y else x;
    var b := if h - 1 - y < w - 1 - x then h - 1 - y else w - 1 - x;
    if a < b then a else b
  }

  /** Every visit lies in the image, on ring `s`. */
  predicate OnRing(vs: seq<Visit>, s: nat, h: nat, w: nat) {
    forall i :: 0 <= i < |vs| ==> InGrid(vs[i], h, w) && Level(vs[i].y, vs[i].x, h, w) == s
  }

  /** No visit of `a` is at the pixel of a visit of `b`. */
  predicate Apart(a: seq<Visit>, b: seq<Visit>) {
    forall i, j :: 0 <= i < |a| && 0 <= j < |b| ==> CellOf(a[i]) != CellOf(b[j])
  }

  /** Ring `s` cannot be walked without repeating a pixel: a single row of at least two
      pixels (its bottom row walks back over its top row), or a single column of at least
      three (its left column walks back up its right column). */
  predicate Degenerate(s: nat, h: nat, w: nat) {
    (h - 2 * s == 1 && w - 2 * s >= 2) || (w - 2 * s == 1 && h - 2 * s >= 3)
  }

  /** The image sizes for which the spiral visits each pixel exactly once. */
  predicate SpiralIsExact(h: nat, w: nat) {
    Min(h, w) % 2 == 0 || h == w || h == w + 1
  }

  // ---------------------------------------------------------------------
  // Each ring lies on its level

  lemma OnRingConcat(a: seq<Visit>, b: seq<Visit>, s: nat, h: nat, w: nat)
    requires OnRing(a, s, h, w) && OnRing(b, s, h, w)
    ensures OnRing(a + b, s, h, w)
  {
    forall i | 0 <= i < |a + b|
      ensures InGrid((a + b)[i], h, w) && Level((a + b)[i].y, (a + b)[i].x, h, w) == s
    {
      if i >= |a| {
        assert (a + b)[i] == b[i - |a|];
      }
    }
  }

  lemma SidesOnRing(s: nat, h: nat, w: nat)
    requires 2 * s < h && 2 * s < w
    ensures OnRing(TopRow(s, h, w), s, h, w)
    ensures OnRing(RightColumn(s, h, w), s, h, w)
    ensures OnRing(BottomRow(s, h, w), s, h, w)
    ensures OnRing(LeftColumn(s, h, w), s, h, w)
  {
  }

  /** Every pixel of ring `s` is inside the image, at distance `s` from its border. */
  lemma RingOnLevel(s: nat, h: nat, w: nat)
    requires 2 * s < h && 2 * s < w
    ensures OnRing(Ring(s, h, w), s, h, w)
  {
    var t, r, b, l := TopRow(s, h, w), RightColumn(s, h, w), BottomRow(s, h, w), LeftColumn(s, h, w);
    SidesOnRing(s, h, w);
    OnRingConcat(t, r, s, h, w);
    OnRingConcat(t + r, b, s, h, w);
    OnRingConcat(t + r + b, l, s, h, w);
  }

  /** Every visit lies in the image, on a ring before ring `n`. */
  predicate BelowRing(vs: seq<Visit>, n: nat, h: nat, w: nat) {
    forall i :: 0 <= i < |vs| ==> InGrid(vs[i], h, w) && Level(vs[i].y, vs[i].x, h, w) < n
  }

  lemma BelowRingConcat(front: seq<Visit>, ring: seq<Visit>, s: nat, h: nat, w: nat)
    requires BelowRing(front, s, h, w) && OnRing(ring, s, h, w)
    ensures BelowRing(front + ring, s + 1, h, w)
    ensures Apart(front, ring)
  {
    var vs := front + ring;
    forall i | 0 <= i < |vs|
      ensures InGrid(vs[i], h, w) && Level(vs[i].y, vs[i].x, h, w) < s + 1
    {
      if i >= |front| {
        assert vs[i] == ring[i - |front|];
      } else {
        assert vs[i] == front[i];
      }
    }
  }

  /** Rings that each lie on their own level make an order below level `n`. */
  lemma {:induction false} RoundsBelow(n: nat, r: nat -> seq<Visit>, h: nat, w: nat)
    requires forall s: nat :: s < n ==> OnRing(r(s), s, h, w)
    ensures BelowRing(Rounds(n, r), n, h, w)
    decreases n
  {
    if n > 0 {
      RoundsBelow(n - 1, r, h, w);
      BelowRingConcat(Rounds(n - 1, r), r(n - 1), n - 1, h, w);
    }
  }

  /** Every ring walked lies on its own level. */
  lemma RingsOnLevels(h: nat, w: nat)
    ensures forall s: nat :: s < Rings(h, w) ==> OnRing(RingOf(h, w)(s), s, h, w)
  {
    forall s: nat | s < Rings(h, w)
      ensures OnRing(RingOf(h, w)(s), s, h, w)
    {
      RingsRange(s, h, w);
      RingOnLevel(s, h, w);
    }
  }

  /** `varredura_espiral` only passes coordinates inside the image to `aplica_em_pixel`. */
  lemma SpiralInGrid(h: nat, w: nat)
    ensures AllInGrid(Spiral(h, w), h, w)
  {
    RingsOnLevels(h, w);
    RoundsBelow(Rings(h, w), RingOf(h, w), h, w);
  }

  // ---------------------------------------------------------------------
  // Every pixel is visited

  /** The level of a pixel is the number of a ring that is walked. */
  lemma LevelRange(y: nat, x: nat, h: nat, w: nat)
    requires y < h && x < w
    ensures 0 <= Level(y, x, h, w) < Rings(h, w)
    ensures 2 * Level(y, x, h, w) < h && 2 * Level(y, x, h, w) < w
  {
    RingsRange(Level(y, x, h, w), h, w);
  }

  /** A pixel lies on the ring of its level, and that ring is walked. */
  lemma PixelOnRing(y: nat, x: nat, h: nat, w: nat)
    requires y < h && x < w
    ensures 0 <= Level(y, x, h, w) < Rings(h, w)
    ensures Cell(y, x) in Cells(Ring(Level(y, x, h, w), h, w))
  {
    LevelRange(y, x, h, w);
    var s: nat := Level(y, x, h, w);
    var t, r, b, l := TopRow(s, h, w), RightColumn(s, h, w), BottomRow(s, h, w), LeftColumn(s, h, w);
    var ring := Ring(s, h, w);
    assert ring == t + r + b + l;
    var i: nat;
    if y == s {
      i := x - s;
      assert ring[i] == t[x - s];
    } else if x == w - 1 - s {
      i := |t| + (y - s - 1);
      assert ring[i] == r[y - s - 1];
    } else if y == h - 1 - s {
      i := |t| + |r| + (w - 2 - s - x);
      assert ring[i] == b[w - 2 - s - x];
    } else {
      assert x == s;
      i := |t| + |r| + |b| + (h - 2 - s - y);
      assert ring[i] == l[h - 2 - s - y];
    }
    assert CellOf(ring[i]) == Cell(y, x);
  }

  /** Walking rings `0` to `n - 1` visits every pixel of each of them. */
  lemma {:induction false} RoundsCells(n: nat, r: nat -> seq<Visit>, s: nat)
    requires s < n
    ensures Cells(r(s)) <= Cells(Rounds(n, r))
    decreases n
  {
    CellsConcat(Rounds(n - 1, r), r(n - 1));
    if s < n - 1 {
      RoundsCells(n - 1, r, s);
    }
  }

  /** Every pixel of the image is visited at least once. */
  lemma SpiralCovers(h: nat, w: nat)
    ensures Covers(Spiral(h, w), h, w)
  {
    forall y: nat, x: nat | y < h && x < w
      ensures Cell(y, x) in Cells(Spiral(h, w))
    {
      PixelOnRing(y, x, h, w);
      var lv: nat := Level(y, x, h, w);
      RingsRange(lv, h, w);
      assert RingOf(h, w)(lv) == Ring(lv, h, w);
      RoundsCells(Rings(h, w), RingOf(h, w), lv);
    }
  }

  // ---------------------------------------------------------------------
  // Repeats

  lemma ApartConcat(a: seq<Visit>, b: seq<Visit>)
    requires Distinct(a) && Distinct(b) && Apart(a, b)
    ensures Distinct(a + b)
  {
    forall i, j | 0 <= i < j < |a + b|
      ensures CellOf((a + b)[i]) != CellOf((a + b)[j])
    {
      if j < |a| {
        assert (a + b)[i] == a[i] && (a + b)[j] == a[j];
      } else if i < |a| {
        assert (a + b)[i] == a[i] && (a + b)[j] == b[j - |a|];
      } else {
        assert (a + b)[i] == b[i - |a|] && (a + b)[j] == b[j - |a|];
      }
    }
  }

  lemma ApartLeft(a: seq<Visit>, b: seq<Visit>, c: seq<Visit>)
    requires Apart(a, c) && Apart(b, c)
    ensures Apart(a + b, c)
  {
    forall i, j | 0 <= i < |a + b| && 0 <= j < |c|
      ensures CellOf((a + b)[i]) != CellOf(c[j])
    {
      if i >= |a| {
        assert (a + b)[i] == b[i - |a|];
      }
    }
  }

  lemma SidesDistinct(s: nat, h: nat, w: nat)
    requires 2 * s < h && 2 * s < w
    ensures Distinct(TopRow(s, h, w)) && Distinct(RightColumn(s, h, w))
    ensures Distinct(BottomRow(s, h, w)) && Distinct(LeftColumn(s, h, w))
  {
  }

  /** The sides of a ring that is not degenerate never meet. */
  lemma SidesApart(s: nat, h: nat, w: nat)
    requires 2 * s < h && 2 * s < w && !Degenerate(s, h, w)
    ensures Apart(TopRow(s, h, w), RightColumn(s, h, w))
    ensures Apart(TopRow(s, h, w), BottomRow(s, h, w))
    ensures Apart(RightColumn(s, h, w), BottomRow(s, h, w))
    ensures Apart(TopRow(s, h, w), LeftColumn(s, h, w))
    ensures Apart(RightColumn(s, h, w), LeftColumn(s, h, w))
    ensures Apart(BottomRow(s, h, w), LeftColumn(s, h, w))
  {
  }

  /** A ring that is not degenerate visits each of its pixels once. */
  lemma RingDistinct(s: nat, h: nat, w: nat)
    requires 2 * s < h && 2 * s < w && !Degenerate(s, h, w)
    ensures Distinct(Ring(s, h, w))
  {
    var t, r, b, l := TopRow(s, h, w), RightColumn(s, h, w), BottomRow(s, h, w), LeftColumn(s, h, w);
    SidesDistinct(s, h, w);
    SidesApart(s, h, w);
    ApartConcat(t, r);
    ApartLeft(t, r, b);
    ApartConcat(t + r, b);
    ApartLeft(t, r, l);
    ApartLeft(t + r, b, l);
    ApartConcat(t + r + b, l);
  }

  /** A degenerate ring visits a pixel twice: (s, s) on a single row, whose bottom row ends
      where its top row starts; (s + 1, s) on a single column, where its left column ends and
      its right column starts. */
  lemma RingRepeats(s: nat, h: nat, w: nat)
    requires 2 * s < h && 2 * s < w && Degenerate(s, h, w)
    ensures !Distinct(Ring(s, h, w))
  {
    var t, r, b, l := TopRow(s, h, w), RightColumn(s, h, w), BottomRow(s, h, w), LeftColumn(s, h, w);
    var ring := Ring(s, h, w);
    assert ring == t + r + b + l;
    if h - 2 * s == 1 {
      var j := |t| + |r| + (w - 2 - 2 * s);
      assert ring[0] == t[0] && ring[j] == b[w - 2 - 2 * s];
      assert CellOf(ring[0]) == Cell(s, s) == CellOf(ring[j]);
    } else {
      var i := |t|;
      var j := |t| + |r| + |b| + (h - 3 - 2 * s);
      assert ring[i] == r[0] && ring[j] == l[h - 3 - 2 * s];
      assert CellOf(ring[i]) == Cell(s + 1, s) == CellOf(ring[j]);
    }
  }

  /** Rings on their own levels, none of which repeats a pixel, make an order without
      repeats. */
  lemma {:induction false} RoundsDistinct(n: nat, r: nat -> seq<Visit>, h: nat, w: nat)
    requires forall s: nat :: s < n ==> OnRing(r(s), s, h, w) && Distinct(r(s))
    ensures Distinct(Rounds(n, r))
    decreases n
  {
    if n > 0 {
      RoundsDistinct(n - 1, r, h, w);
      RoundsBelow(n - 1, r, h, w);
      BelowRingConcat(Rounds(n - 1, r), r(n - 1), n - 1, h, w);
      ApartConcat(Rounds(n - 1, r), r(n - 1));
    }
  }

  /** Only the innermost ring can be degenerate, and it is exactly when the image size is
      not one of the exact ones. */
  lemma DegenerateRing(s: nat, h: nat, w: nat)
    requires s < Rings(h, w)
    ensures Degenerate(s, h, w) <==> s == Rings(h, w) - 1 && !SpiralIsExact(h, w)
  {
  }

  /** On an exact image size no ring repeats a pixel, so the spiral has no repeats. */
  lemma SpiralDistinct(h: nat, w: nat)
    requires SpiralIsExact(h, w)
    ensures Distinct(Spiral(h, w))
  {
    var n, r := Rings(h, w), RingOf(h, w);
    forall s: nat | s < n
      ensures OnRing(r(s), s, h, w) && Distinct(r(s))
    {
      RingsRange(s, h, w);
      RingOnLevel(s, h, w);
      DegenerateRing(s, h, w);
      RingDistinct(s, h, w);
    }
    RoundsDistinct(n, r, h, w);
  }

  /** On any other size the innermost ring is degenerate and repeats a pixel. */
  lemma SpiralRepeats(h: nat, w: nat)
    requires !SpiralIsExact(h, w)
    ensures !Distinct(Spiral(h, w))
  {
    var n, r := Rings(h, w), RingOf(h, w);
    InnermostRepeats(h, w);
    assert Spiral(h, w) == Rounds(n - 1, r) + r(n - 1) + [];
    RepeatInPart(Rounds(n - 1, r), r(n - 1), []);
  }

  lemma InnermostRepeats(h: nat, w: nat)
    requires !SpiralIsExact(h, w)
    ensures Rings(h, w) >= 1 && !Distinct(RingOf(h, w)(Rings(h, w) - 1))
  {
    InnermostDegenerate(h, w);
    var s := Rings(h, w) - 1;
    RingRepeats(s, h, w);
    RingOfRing(s, h, w);
  }

  lemma InnermostDegenerate(h: nat, w: nat)
    requires !SpiralIsExact(h, w)
    ensures Rings(h, w) >= 1
    ensures 2 * (Rings(h, w) - 1) < h && 2 * (Rings(h, w) - 1) < w
    ensures Degenerate(Rings(h, w) - 1, h, w)
  {
    var s := Rings(h, w) - 1;
    RingsRange(s, h, w);
    DegenerateRing(s, h, w);
  }

  lemma RingOfRing(s: nat, h: nat, w: nat)
    requires 2 * s < h && 2 * s < w
    ensures RingOf(h, w)(s) == Ring(s, h, w)
  {
  }

  /** `varredura_espiral` visits every pixel exactly once exactly when the smaller side is
      even, the image is square, or it has one row more than columns; otherwise the innermost
      ring revisits pixels. */
  lemma SpiralExactlyOnce(h: nat, w: nat)
    ensures Distinct(Spiral(h, w)) <==> SpiralIsExact(h, w)
    ensures ExactlyOnce(Spiral(h, w), h, w) <==> SpiralIsExact(h, w)
  {
    SpiralInGrid(h, w);
    SpiralCovers(h, w);
    if SpiralIsExact(h, w) {
      SpiralDistinct(h, w);
    } else {
      SpiralRepeats(h, w);
    }
  }

  /** When the spiral is exact it has `H * W` visits. */
  lemma SpiralLength(h: nat, w: nat)
    requires SpiralIsExact(h, w)
    ensures |Spiral(h, w)| == h * w
  {
    SpiralExactlyOnce(h, w);
    ExactlyOnceLength(Spiral(h, w), h, w);
  }

  /** Each side is tagged with the direction it is walked in: the top row `direita`, the
      right column `baixo`, the bottom row `esquerda`, the left column `cima`. */
  lemma RingDirections(s: nat, h: nat, w: nat)
    requires 2 * s < h && 2 * s < w
    ensures forall i :: 0 <= i < |Ring(s, h, w)| ==>
      var v := Ring(s, h, w)[i];
      (v.d == Direita ==> v.y == s) &&
      (v.d == Baixo ==> v.x == w - 1 - s && v.y > s) &&
      (v.d == Esquerda ==> v.y == h - 1 - s && v.x < w - 1 - s) &&
      (v.d == Cima ==> v.x == s && s < v.y < h - 1 - s)
  {
    var t, r, b, l := TopRow(s, h, w), RightColumn(s, h, w), BottomRow(s, h, w), LeftColumn(s, h, w);
    var ring := Ring(s, h, w);
    assert ring == t + r + b + l;
    forall i | 0 <= i < |ring|
      ensures var v := ring[i];
        (v.d == Direita ==> v.y == s) &&
        (v.d == Baixo ==> v.x == w - 1 - s && v.y > s) &&
        (v.d == Esquerda ==> v.y == h - 1 - s && v.x < w - 1 - s) &&
        (v.d == Cima ==> v.x == s && s < v.y < h - 1 - s)
    {
      if i < |t| {
        assert ring[i] == t[i];
      } else if i < |t| + |r| {
        assert ring[i] == r[i - |t|];
      } else if i < |t| + |r| + |b| {
        assert ring[i] == b[i - |t| - |r|];
      } else {
        assert ring[i] == l[i - |t| - |r| - |b|];
      }
    }
  }
}
