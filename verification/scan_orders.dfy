/**
  The visit orders of the two row scans of lib/horizontal.py: the raster
  order (every row left to right) and the serpentine order (even rows left
  to right, odd rows right to left). Both are proved to visit every pixel
  of the image exactly once.
 */
module ScanOrders {
  import opened Direction
  import opened Visits

  /** Row `y` from left to right. */
  function RowForward(y: nat, w: nat): (r: seq<Visit>)
    ensures |r| == w
    ensures forall x :: 0 <= x < w ==> r[x] == Visit(y, x, Direita)
  {
    seq(w, x requires 0 <= x < w => Visit(y, x, Direita))
  }

  /** Row `y` from right to left: the `xm`-th visit is column `w - 1 - xm`. */
  function RowBackward(y: nat, w: nat): (r: seq<Visit>)
    ensures |r| == w
    ensures forall xm :: 0 <= xm < w ==> r[xm] == Visit(y, w - 1 - xm, Esquerda)
  {
    seq(w, xm requires 0 <= xm < w => Visit(y, w - 1 - xm, Esquerda))
  }

  /** The first `h` rows, each left to right: `for y in range(H): for x in range(W)`. */
  function Raster(h: nat, w: nat): seq<Visit> {
    if h == 0 then [] else Raster(h - 1, w) + RowForward(h - 1, w)
  }

  /** Row `y` of the serpentine scan: forward when `y` is even, backward when it is odd. */
  function SerpentineRow(y: nat, w: nat): seq<Visit> {
    if y % 2 == 0 then RowForward(y, w) else RowBackward(y, w)
  }

  /** The first `h` rows of the serpentine scan. */
  function Serpentine(h: nat, w: nat): seq<Visit> {
    if h == 0 then [] else Serpentine(h - 1, w) + SerpentineRow(h - 1, w)
  }

  /** Row-major order: earlier visits are in earlier rows, or further left in the same row. */
  predicate RowMajor(vs: seq<Visit>) {
    forall i, j :: 0 <= i < j < |vs| ==>
      vs[i].y < vs[j].y || (vs[i].y == vs[j].y && vs[i].x < vs[j].x)
  }

  /** Rows in order, even rows left to right, odd rows right to left. */
  predicate Boustrophedon(vs: seq<Visit>) {
    forall i, j :: 0 <= i < j < |vs| ==>
      vs[i].y < vs[j].y ||
      (vs[i].y == vs[j].y && (if vs[i].y % 2 == 0 then vs[i].x < vs[j].x else vs[i].x > vs[j].x))
  }

  /** A row visits the pixels of its row, in either direction. */
  lemma SerpentineRowCells(y: nat, w: nat)
    ensures Cells(RowForward(y, w)) == Row(y, w)
    ensures Cells(RowBackward(y, w)) == Row(y, w)
    ensures Cells(SerpentineRow(y, w)) == Row(y, w)
  {
    var fw, bw := RowForward(y, w), RowBackward(y, w);
    forall c | c in Row(y, w)
      ensures c in Cells(fw) && c in Cells(bw)
    {
      assert c == CellOf(fw[c.x]);
      assert c == CellOf(bw[w - 1 - c.x]);
    }
  }

  lemma {:induction false} RasterShape(h: nat, w: nat)
    ensures AllInGrid(Raster(h, w), h, w)
    ensures forall i :: 0 <= i < |Raster(h, w)| ==> Raster(h, w)[i].d == Direita
    ensures RowMajor(Raster(h, w))
    ensures Cells(Raster(h, w)) == Rect(h, w)
    decreases h
  {
    if h > 0 {
      var front, row := Raster(h - 1, w), RowForward(h - 1, w);
      RasterShape(h - 1, w);
      assert Raster(h, w) == front + row;
      CellsConcat(front, row);
      SerpentineRowCells(h - 1, w);
      RectLastRow(h, w);
    } else {
      assert Rect(h, w) == {};
    }
  }

  /** `varredura_unidirecional` visits every pixel exactly once, in row-major order. */
  lemma RasterExactlyOnce(h: nat, w: nat)
    ensures ExactlyOnce(Raster(h, w), h, w)
    ensures RowMajor(Raster(h, w))
    ensures |Raster(h, w)| == h * w
  {
    RasterShape(h, w);
    ExactlyOnceLength(Raster(h, w), h, w);
  }

  lemma {:induction false} SerpentineInGrid(h: nat, w: nat)
    ensures AllInGrid(Serpentine(h, w), h, w)
    decreases h
  {
    if h > 0 {
      SerpentineInGrid(h - 1, w);
      assert Serpentine(h, w) == Serpentine(h - 1, w) + SerpentineRow(h - 1, w);
    }
  }

  lemma {:induction false} SerpentineOrder(h: nat, w: nat)
    ensures Boustrophedon(Serpentine(h, w))
    decreases h
  {
    if h > 0 {
      var front, row := Serpentine(h - 1, w), SerpentineRow(h - 1, w);
      SerpentineOrder(h - 1, w);
      SerpentineInGrid(h - 1, w);
      var vs := Serpentine(h, w);
      assert vs == front + row;
      forall i, j | 0 <= i < j < |vs|
        ensures vs[i].y < vs[j].y ||
          (vs[i].y == vs[j].y && (if vs[i].y % 2 == 0 then vs[i].x < vs[j].x else vs[i].x > vs[j].x))
      {
        if j < |front| {
          assert vs[i] == front[i] && vs[j] == front[j];
        } else if i < |front| {
          assert vs[i] == front[i] && InGrid(front[i], h - 1, w);
          assert vs[j] == row[j - |front|];
        } else {
          assert vs[i] == row[i - |front|] && vs[j] == row[j - |front|];
        }
      }
    }
  }

  lemma {:induction false} SerpentineCells(h: nat, w: nat)
    ensures Cells(Serpentine(h, w)) == Rect(h, w)
    decreases h
  {
    if h > 0 {
      var front, row := Serpentine(h - 1, w), SerpentineRow(h - 1, w);
      SerpentineCells(h - 1, w);
      assert Serpentine(h, w) == front + row;
      CellsConcat(front, row);
      SerpentineRowCells(h - 1, w);
      RectLastRow(h, w);
    } else {
      assert Rect(h, w) == {};
    }
  }

  lemma SerpentineShape(h: nat, w: nat)
    ensures AllInGrid(Serpentine(h, w), h, w)
    ensures Boustrophedon(Serpentine(h, w))
    ensures Cells(Serpentine(h, w)) == Rect(h, w)
  {
    SerpentineInGrid(h, w);
    SerpentineOrder(h, w);
    SerpentineCells(h, w);
  }

  /** `varredura_alternada` visits every pixel exactly once, row by row, alternating direction;
      this includes an odd number of rows, where the last pass stops after its forward row. */
  lemma SerpentineExactlyOnce(h: nat, w: nat)
    ensures ExactlyOnce(Serpentine(h, w), h, w)
    ensures Boustrophedon(Serpentine(h, w))
    ensures |Serpentine(h, w)| == h * w
  {
    SerpentineShape(h, w);
    var vs := Serpentine(h, w);
    forall i, j | 0 <= i < j < |vs|
      ensures CellOf(vs[i]) != CellOf(vs[j])
    {
    }
    ExactlyOnceLength(vs, h, w);
  }
}
