/**
  A visit order: the sequence of pixels a scan quantises, each tagged with
  the direction of travel that selects the kernel orientation. The facts
  here (inside the image, no pixel twice, every pixel) are the ones every
  scan is checked against.
 */
module Visits {
  import opened Direction

  /** One row `(y, x, d)` of a visit order. */
  datatype Visit = Visit(y: nat, x: nat, d: Dir)

  /** The pixel of a visit, without its direction. */
  datatype Cell = Cell(y: nat, x: nat)

  function CellOf(v: Visit): Cell {
    Cell(v.y, v.x)
  }

  predicate InGrid(v: Visit, h: nat, w: nat) {
    v.y < h && v.x < w
  }

  /** Every visit is a pixel of the `h` by `w` image. */
  predicate AllInGrid(vs: seq<Visit>, h: nat, w: nat) {
    forall i :: 0 <= i < |vs| ==> InGrid(vs[i], h, w)
  }

  /** No pixel is visited twice. */
  predicate Distinct(vs: seq<Visit>) {
    forall i, j :: 0 <= i < j < |vs| ==> CellOf(vs[i]) != CellOf(vs[j])
  }

  /** The pixels visited. */
  function Cells(vs: seq<Visit>): set<Cell> {
    set i | 0 <= i < |vs| :: CellOf(vs[i])
  }

  /** The pixels of the `h` by `w` image. */
  function Rect(h: nat, w: nat): set<Cell> {
    set y: nat, x: nat | y < h && x < w :: Cell(y, x)
  }

  /** Every pixel of the image is visited. */
  predicate Covers(vs: seq<Visit>, h: nat, w: nat) {
    forall y: nat, x: nat :: y < h && x < w ==> Cell(y, x) in Cells(vs)
  }

  /** Each pixel of the image is visited exactly once, and nothing else is. */
  predicate ExactlyOnce(vs: seq<Visit>, h: nat, w: nat) {
    AllInGrid(vs, h, w) && Distinct(vs) && Covers(vs, h, w)
  }

  lemma InGridCells(vs: seq<Visit>, h: nat, w: nat)
    requires AllInGrid(vs, h, w)
    ensures Cells(vs) <= Rect(h, w)
  {
    forall c | c in Cells(vs)
      ensures c in Rect(h, w)
    {
      var i :| 0 <= i < |vs| && CellOf(vs[i]) == c;
      assert InGrid(vs[i], h, w);
    }
  }

  lemma CellsConcat(a: seq<Visit>, b: seq<Visit>)
    ensures Cells(a + b) == Cells(a) + Cells(b)
  {
    forall c | c in Cells(a + b)
      ensures c in Cells(a) + Cells(b)
    {
      var i :| 0 <= i < |a + b| && CellOf((a + b)[i]) == c;
      if i >= |a| {
        assert CellOf(b[i - |a|]) == c;
      }
    }
    forall c | c in Cells(a)
      ensures c in Cells(a + b)
    {
      var i :| 0 <= i < |a| && CellOf(a[i]) == c;
      assert CellOf((a + b)[i]) == c;
    }
    forall c | c in Cells(b)
      ensures c in Cells(a + b)
    {
      var i :| 0 <= i < |b| && CellOf(b[i]) == c;
      assert CellOf((a + b)[|a| + i]) == c;
    }
  }

  /** Two orders without repeats, over disjoint pixels, make an order without repeats. */
  lemma DistinctConcat(a: seq<Visit>, b: seq<Visit>)
    requires Distinct(a) && Distinct(b)
    requires Cells(a) !! Cells(b)
    ensures Distinct(a + b)
  {
    forall i, j | 0 <= i < j < |a + b|
      ensures CellOf((a + b)[i]) != CellOf((a + b)[j])
    {
      if j >= |a| && i < |a| {
        assert CellOf(a[i]) in Cells(a);
        assert CellOf(b[j - |a|]) in Cells(b);
      }
    }
  }

  /** A repeat inside a part is a repeat of the whole. */
  lemma RepeatInPart(a: seq<Visit>, b: seq<Visit>, c: seq<Visit>)
    requires !Distinct(b)
    ensures !Distinct(a + b + c)
  {
    var i, j :| 0 <= i < j < |b| && CellOf(b[i]) == CellOf(b[j]);
    assert (a + b + c)[|a| + i] == b[i];
    assert (a + b + c)[|a| + j] == b[j];
  }

  /** Without repeats, an order has as many visits as pixels. */
  lemma {:induction false} DistinctCardinality(vs: seq<Visit>)
    requires Distinct(vs)
    ensures |Cells(vs)| == |vs|
    decreases |vs|
  {
    if |vs| > 0 {
      var n := |vs| - 1;
      var front := vs[..n];
      DistinctCardinality(front);
      assert vs == front + [vs[n]];
      CellsConcat(front, [vs[n]]);
      assert Cells([vs[n]]) == {CellOf(vs[n])};
      forall i | 0 <= i < n
        ensures CellOf(front[i]) != CellOf(vs[n])
      {
        assert front[i] == vs[i];
      }
    }
  }

  function Row(y: nat, w: nat): set<Cell> {
    set x: nat | x < w :: Cell(y, x)
  }

  lemma {:induction false} RowCardinality(y: nat, w: nat)
    ensures |Row(y, w)| == w
    decreases w
  {
    if w > 0 {
      RowCardinality(y, w - 1);
      assert Row(y, w) == Row(y, w - 1) + {Cell(y, w - 1)};
    } else {
      assert Row(y, w) == {};
    }
  }

  /** The first `h` rows are the first `h - 1` rows and, apart from them, the last row. */
  lemma RectLastRow(h: nat, w: nat)
    requires h > 0
    ensures Rect(h, w) == Rect(h - 1, w) + Row(h - 1, w)
    ensures Rect(h - 1, w) !! Row(h - 1, w)
  {
  }

  /** The image has `h * w` pixels. */
  lemma {:induction false} RectCardinality(h: nat, w: nat)
    ensures |Rect(h, w)| == h * w
    decreases h
  {
    if h > 0 {
      RectCardinality(h - 1, w);
      RowCardinality(h - 1, w);
      RectLastRow(h, w);
      assert (h - 1) * w + w == h * w;
    } else {
      assert Rect(h, w) == {};
    }
  }

  /** An order visiting each pixel exactly once has exactly `h * w` visits. */
  lemma ExactlyOnceLength(vs: seq<Visit>, h: nat, w: nat)
    requires ExactlyOnce(vs, h, w)
    ensures |vs| == h * w
  {
    InGridCells(vs, h, w);
    assert Cells(vs) == Rect(h, w);
    DistinctCardinality(vs);
    RectCardinality(h, w);
  }
}
