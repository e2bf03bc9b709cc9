/**
  The four scan engines: `varredura_unidirecional` and `varredura_alternada`
  (lib/horizontal.py), `varredura_hilbert` (lib/hilbert.py) and
  `varredura_espiral` (lib/espiral.py). Each loops over its visit order and
  runs the pixel step at every pixel; each is proved to compute `Run` over
  its order, and therefore, for the orders that cover the image, the
  `Halftone` of the image whatever the result buffer held before.

  The image arrives as its working values (`img.astype(np.float32)`, taken
  as exact reals). The result buffer `np.empty((H, W))` is a parameter
  `res0` of the right shape and arbitrary contents.
 */
module Engines {
  import opened Grids
  import opened Direction
  import opened Visits
  import opened Diffusion
  import opened ScanOrders
  import opened HilbertOrder
  import opened SpiralOrder

  /** `deslocamento(d, tH, tW)`: the anchor of the kernel for direction `d`, given its shape.
      Its definition is not part of this model, so the engines take it as a parameter. */
  type Offset = (Dir, nat, nat) -> (int, int)

  /** The kernel of the row scans anchored at `((tH - 1) // 2, (tW - 1) // 2)`. Python's `//`
      rounds down, as Dafny's `/` does for the positive divisor 2. */
  function Centred(dist: seq<seq<real>>): Mask {
    Mask(dist, (|dist| - 1) / 2, (Cols(dist) - 1) / 2)
  }

  /** The row scans use the same kernel in both directions. */
  function Fixed(dist: seq<seq<real>>): Dir -> Mask {
    _ => Centred(dist)
  }

  /** The Hilbert and spiral scans use, for direction `d`, the kernel `dists[d]` anchored at
      `deslocamento(d, tH, tW)`. */
  function Directed(dists: seq<seq<seq<real>>>, offset: Offset): Dir -> Mask
    requires |dists| == 4
  {
    (d: Dir) =>
      var k := Oriented(dists, d);
      var o := offset(d, |k|, Cols(k));
      Mask(k, o.0, o.1)
  }

  /** Running a prefix one pixel longer is one more step. */
  lemma RunPrefix(st: State, h: nat, w: nat, vs: seq<Visit>, k: nat, masks: Dir -> Mask)
    requires Shaped(st, h, w) && AllInGrid(vs, h, w) && k < |vs|
    ensures AllInGrid(vs[..k], h, w) && AllInGrid(vs[..k + 1], h, w)
    ensures Run(st, h, w, vs[..k + 1], masks) == Step(Run(st, h, w, vs[..k], masks), h, w, vs[k], masks(vs[k].d))
  {
    assert vs[..k + 1] == vs[..k] + [vs[k]];
    RunSnoc(st, h, w, vs[..k], vs[k], masks);
  }

  /** A run over an order that covers the image ends with the halftone of the image, whatever
      the result buffer held before. */
  lemma Finished(img: seq<seq<real>>, res0: seq<seq<int>>, h: nat, w: nat, vs: seq<Visit>, masks: Dir -> Mask,
                 st: State)
    requires IsGrid(img, h, w) && IsGrid(res0, h, w) && AllInGrid(vs, h, w) && Covers(vs, h, w)
    requires st == Run(State(img, res0), h, w, vs, masks)
    ensures st.res == Halftone(img, h, w, vs, masks)
    ensures IsGrid(st.res, h, w) && forall a, b :: 0 <= a < h && 0 <= b < w ==> 0 <= st.res[a][b] <= 1
  {
    CoveringRunIsHalftone(img, res0, h, w, vs, masks);
  }

  /** The pixel step at `v`, the next visit of `vs` after its first `k`, extends the run. */
  method PixelStep(st: State, r: State, h: nat, w: nat, vs: seq<Visit>, k: nat, v: Visit, masks: Dir -> Mask)
    returns (next: State)
    requires Shaped(st, h, w) && AllInGrid(vs, h, w) && k < |vs| && vs[k] == v
    requires r == Run(st, h, w, vs[..k], masks)
    ensures next == Run(st, h, w, vs[..k + 1], masks)
  {
    RunPrefix(st, h, w, vs, k, masks);
    next := AplicaEmPixel(r, h, w, v, masks(v.d));
  }

  /** The same for the right-to-left pixel step. */
  method PixelStepInvertido(st: State, r: State, h: nat, w: nat, vs: seq<Visit>, k: nat, v: Visit,
                            masks: Dir -> Mask)
    returns (next: State)
    requires Shaped(st, h, w) && AllInGrid(vs, h, w) && k < |vs| && vs[k] == v
    requires r == Run(st, h, w, vs[..k], masks)
    ensures next == Run(st, h, w, vs[..k + 1], masks)
  {
    RunPrefix(st, h, w, vs, k, masks);
    next := AplicaEmPixelInvertido(r, h, w, v, masks(v.d));
  }

  // ---------------------------------------------------------------------
  // Row scans

  /** `for x in range(W)` at row `y`: the pixel step at (y, x), left to right. */
  method ForwardRow(st: State, h: nat, w: nat, y: nat, masks: Dir -> Mask) returns (r: State)
    requires Shaped(st, h, w) && y < h
    ensures r == Run(st, h, w, RowForward(y, w), masks)
  {
    var row := RowForward(y, w);
    r := st;
    var x := 0;
    while x < w
      invariant 0 <= x <= w
      invariant r == Run(st, h, w, row[..x], masks)
    {
      r := PixelStep(st, r, h, w, row, x, Visit(y, x, Direita), masks);
      x := x + 1;
    }
    assert x == |row| && row[..x] == row;
  }

  /** `for xm in range(W): x = W - 1 - xm` at row `y`: the pixel step right to left, with the
      kernel columns taken from last to first. */
  method BackwardRow(st: State, h: nat, w: nat, y: nat, masks: Dir -> Mask) returns (r: State)
    requires Shaped(st, h, w) && y < h
    ensures r == Run(st, h, w, RowBackward(y, w), masks)
  {
    var row := RowBackward(y, w);
    r := st;
    var xm := 0;
    while xm < w
      invariant 0 <= xm <= w
      invariant r == Run(st, h, w, row[..xm], masks)
    {
      var x := w - 1 - xm;
      r := PixelStepInvertido(st, r, h, w, row, xm, Visit(y, x, Esquerda), masks);
      xm := xm + 1;
    }
    assert xm == |row| && row[..xm] == row;
  }

  /** Running one more row after the rows before it runs the first `y + 1` rows. */
  lemma RasterGrows(st0: State, st: State, r: State, h: nat, w: nat, y: nat, masks: Dir -> Mask)
    requires Shaped(st0, h, w) && y < h
    requires AllInGrid(Raster(y, w), h, w) && st == Run(st0, h, w, Raster(y, w), masks)
    requires r == Run(st, h, w, RowForward(y, w), masks)
    ensures AllInGrid(Raster(y + 1, w), h, w)
    ensures r == Run(st0, h, w, Raster(y + 1, w), masks)
  {
    RasterShape(y + 1, w);
    RunAppend(st0, h, w, Raster(y, w), RowForward(y, w), masks);
  }

  /** `for y in range(H)`: every row left to right. */
  method WalkRaster(st0: State, h: nat, w: nat, masks: Dir -> Mask) returns (st: State)
    requires Shaped(st0, h, w)
    ensures AllInGrid(Raster(h, w), h, w)
    ensures st == Run(st0, h, w, Raster(h, w), masks)
  {
    st := st0;
    var y := 0;
    while y < h
      invariant 0 <= y <= h
      invariant AllInGrid(Raster(y, w), h, w)
      invariant st == Run(st0, h, w, Raster(y, w), masks)
    {
      var next := ForwardRow(st, h, w, y, masks);
      RasterGrows(st0, st, next, h, w, y, masks);
      st, y := next, y + 1;
    }
  }

  /** `varredura_unidirecional(img, dist)`: every row left to right with the centred kernel.
      Every pixel is quantised exactly once, so every bit is written, with 0 or 1. */
  method VarreduraUnidirecional(img: seq<seq<real>>, h: nat, w: nat, dist: seq<seq<real>>, res0: seq<seq<int>>)
    returns (res: seq<seq<int>>)
    requires IsGrid(img, h, w) && IsGrid(res0, h, w)
    ensures AllInGrid(Raster(h, w), h, w)
    ensures res == Halftone(img, h, w, Raster(h, w), Fixed(dist))
    ensures IsGrid(res, h, w) && forall a, b :: 0 <= a < h && 0 <= b < w ==> 0 <= res[a][b] <= 1
  {
    var st := WalkRaster(State(img, res0), h, w, Fixed(dist));
    RasterExactlyOnce(h, w);
    Finished(img, res0, h, w, Raster(h, w), Fixed(dist), st);
    res := st.res;
  }

  /** Row `y` of the serpentine scan lies in the image. */
  lemma SerpentineRowInGrid(y: nat, h: nat, w: nat)
    requires y < h
    ensures AllInGrid(SerpentineRow(y, w), h, w)
  {
    SerpentineInGrid(y + 1, w);
    assert forall i :: 0 <= i < |SerpentineRow(y, w)| ==> SerpentineRow(y, w)[i] == Serpentine(y + 1, w)[|Serpentine(y, w)| + i];
  }

  /** `st` is `st0` after the first `n` rows of the serpentine scan. */
  predicate Walked(st0: State, st: State, h: nat, w: nat, n: nat, masks: Dir -> Mask) {
    Shaped(st0, h, w) && n <= h && AllInGrid(Serpentine(n, w), h, w) &&
    st == Run(st0, h, w, Serpentine(n, w), masks)
  }

  /** Running one more serpentine row after the rows before it runs the first `y + 1` rows. */
  lemma SerpentineGrows(st0: State, st: State, r: State, h: nat, w: nat, y: nat, masks: Dir -> Mask)
    requires y < h && Walked(st0, st, h, w, y, masks)
    requires AllInGrid(SerpentineRow(y, w), h, w) && r == Run(st, h, w, SerpentineRow(y, w), masks)
    ensures Walked(st0, r, h, w, y + 1, masks)
  {
    RunAppend(st0, h, w, Serpentine(y, w), SerpentineRow(y, w), masks);
  }

  /** An even row run left to right is the next row of the serpentine scan. */
  lemma ForwardGrows(st0: State, st: State, r: State, h: nat, w: nat, y: nat, masks: Dir -> Mask)
    requires y < h && y % 2 == 0 && Walked(st0, st, h, w, y, masks)
    requires r == Run(st, h, w, RowForward(y, w), masks)
    ensures Walked(st0, r, h, w, y + 1, masks)
  {
    SerpentineRowInGrid(y, h, w);
    SerpentineGrows(st0, st, r, h, w, y, masks);
  }

  /** An odd row run right to left is the next row of the serpentine scan. */
  lemma BackwardGrows(st0: State, st: State, r: State, h: nat, w: nat, y: nat, masks: Dir -> Mask)
    requires y < h && y % 2 == 1 && Walked(st0, st, h, w, y, masks)
    requires r == Run(st, h, w, RowBackward(y, w), masks)
    ensures Walked(st0, r, h, w, y + 1, masks)
  {
    SerpentineRowInGrid(y, h, w);
    SerpentineGrows(st0, st, r, h, w, y, masks);
  }

  lemma SerpentineCovers(h: nat, w: nat)
    ensures Covers(Serpentine(h, w), h, w)
  {
    SerpentineExactlyOnce(h, w);
  }

  /** One pass of the `ym` loop: row `y = 2 * ym` left to right, then, unless it was the last
      row (`y + 1 == H`, where lib/horizontal.py breaks out), row `y + 1` right to left. */
  method SerpentinePair(st0: State, st: State, h: nat, w: nat, y: nat, masks: Dir -> Mask)
    returns (next: State, done: nat)
    requires y < h && y % 2 == 0 && Walked(st0, st, h, w, y, masks)
    ensures done == if y + 1 == h then h else y + 2
    ensures Walked(st0, next, h, w, done, masks)
  {
    var mid := ForwardRow(st, h, w, y, masks);
    ForwardGrows(st0, st, mid, h, w, y, masks);
    if y + 1 == h {
      next, done := mid, h;
    } else {
      next := BackwardRow(mid, h, w, y + 1, masks);
      BackwardGrows(st0, mid, next, h, w, y + 1, masks);
      done := y + 2;
    }
  }

  /** `for ym in range((H + 1) // 2)`: the pairs of rows from the top; when `H` is odd the last
      pass scans one row only. */
  method WalkSerpentine(st0: State, h: nat, w: nat, masks: Dir -> Mask) returns (st: State)
    requires Shaped(st0, h, w)
    ensures AllInGrid(Serpentine(h, w), h, w)
    ensures st == Run(st0, h, w, Serpentine(h, w), masks)
  {
    st := st0;
    var y := 0;
    var ym := 0;
    while ym < (h + 1) / 2
      invariant y == if 2 * ym <= h then 2 * ym else h
      invariant ym <= (h + 1) / 2
      invariant Walked(st0, st, h, w, y, masks)
    {
      st, y := SerpentinePair(st0, st, h, w, 2 * ym, masks);
      ym := ym + 1;
    }
    assert y == h;
  }

  /** `varredura_alternada(img, dist)`: even rows left to right, odd rows right to left, with
      the same centred kernel on both (the kernel is not mirrored); the loop stops after the
      forward row when `H` is odd. Every bit is written, with 0 or 1. */
  method VarreduraAlternada(img: seq<seq<real>>, h: nat, w: nat, dist: seq<seq<real>>, res0: seq<seq<int>>)
    returns (res: seq<seq<int>>)
    requires IsGrid(img, h, w) && IsGrid(res0, h, w)
    ensures AllInGrid(Serpentine(h, w), h, w)
    ensures res == Halftone(img, h, w, Serpentine(h, w), Fixed(dist))
    ensures IsGrid(res, h, w) && forall a, b :: 0 <= a < h && 0 <= b < w ==> 0 <= res[a][b] <= 1
  {
    var st := WalkSerpentine(State(img, res0), h, w, Fixed(dist));
    SerpentineCovers(h, w);
    Finished(img, res0, h, w, Serpentine(h, w), Fixed(dist), st);
    res := st.res;
  }

  // ---------------------------------------------------------------------
  // Hilbert scan

  /** `for y, x, d in idx`: the pixel step at every row of the order, with the kernel of its
      direction. */
  method ApplyAlong(st: State, h: nat, w: nat, vs: seq<Visit>, masks: Dir -> Mask) returns (r: State)
    requires Shaped(st, h, w) && AllInGrid(vs, h, w)
    ensures r == Run(st, h, w, vs, masks)
  {
    r := st;
    var i := 0;
    while i < |vs|
      invariant 0 <= i <= |vs|
      invariant r == Run(st, h, w, vs[..i], masks)
    {
      r := PixelStep(st, r, h, w, vs, i, vs[i], masks);
      i := i + 1;
    }
    assert i == |vs| && vs[..i] == vs;
  }

  /** `varredura_hilbert(img, dists, idx)`: with no `idx` it computes `hilbert_indices(H, W)`,
      which visits every pixel exactly once, so every bit is written, with 0 or 1. A given
      `idx` must lie in the image; it is run as it is. */
  method VarreduraHilbert(img: seq<seq<real>>, h: nat, w: nat, dists: seq<seq<seq<real>>>, offset: Offset,
                          idx: Option<seq<Visit>>, res0: seq<seq<int>>)
    returns (res: seq<seq<int>>)
    requires IsGrid(img, h, w) && IsGrid(res0, h, w) && |dists| == 4
    requires idx.Some? ==> AllInGrid(idx.value, h, w)
    ensures ExactlyOnce(HilbertVisits(h, w), h, w)
    ensures idx.Some? ==> res == Run(State(img, res0), h, w, idx.value, Directed(dists, offset)).res
    ensures idx.None? || idx.value == HilbertVisits(h, w) ==>
      res == Halftone(img, h, w, HilbertVisits(h, w), Directed(dists, offset))
    ensures idx.None? || idx.value == HilbertVisits(h, w) ==>
      IsGrid(res, h, w) && forall a, b :: 0 <= a < h && 0 <= b < w ==> 0 <= res[a][b] <= 1
  {
    var order: seq<Visit>;
    if idx.None? {
      order := HilbertIndices(h, w);
    } else {
      order := idx.value;
    }
    HilbertVisitsExactlyOnce(h, w);
    var st := ApplyAlong(State(img, res0), h, w, order, Directed(dists, offset));
    if idx.None? || idx.value == HilbertVisits(h, w) {
      Finished(img, res0, h, w, HilbertVisits(h, w), Directed(dists, offset), st);
    }
    res := st.res;
  }

  // ---------------------------------------------------------------------
  // Spiral scan

  lemma SidesInGrid(s: nat, h: nat, w: nat)
    requires 2 * s < h && 2 * s < w
    ensures AllInGrid(TopRow(s, h, w), h, w) && AllInGrid(RightColumn(s, h, w), h, w)
    ensures AllInGrid(BottomRow(s, h, w), h, w) && AllInGrid(LeftColumn(s, h, w), h, w)
  {
    SidesOnRing(s, h, w);
  }

  /** `y = s; for x in range(s, W - s)`, direction `direita`. */
  method TopSide(st: State, h: nat, w: nat, s: nat, masks: Dir -> Mask) returns (r: State)
    requires Shaped(st, h, w) && 2 * s < h && 2 * s < w
    ensures AllInGrid(TopRow(s, h, w), h, w)
    ensures r == Run(st, h, w, TopRow(s, h, w), masks)
  {
    var side := TopRow(s, h, w);
    SidesInGrid(s, h, w);
    var y, d := s, Direita;
    r := st;
    var x := s;
    while x < w - s
      invariant s <= x <= w - s
      invariant r == Run(st, h, w, side[..x - s], masks)
    {
      r := PixelStep(st, r, h, w, side, x - s, Visit(y, x, d), masks);
      x := x + 1;
    }
    assert x - s == |side| && side[..x - s] == side;
  }

  /** `x = W - 1 - s; for y in range(s + 1, H - s)`, direction `baixo`. */
  method RightSide(st: State, h: nat, w: nat, s: nat, masks: Dir -> Mask) returns (r: State)
    requires Shaped(st, h, w) && 2 * s < h && 2 * s < w
    ensures AllInGrid(RightColumn(s, h, w), h, w)
    ensures r == Run(st, h, w, RightColumn(s, h, w), masks)
  {
    var side := RightColumn(s, h, w);
    SidesInGrid(s, h, w);
    var x, d := w - 1 - s, Baixo;
    r := st;
    var y := s + 1;
    while y < h - s
      invariant s + 1 <= y <= h - s
      invariant r == Run(st, h, w, side[..y - s - 1], masks)
    {
      r := PixelStep(st, r, h, w, side, y - s - 1, Visit(y, x, d), masks);
      y := y + 1;
    }
    assert y - s - 1 == |side| && side[..y - s - 1] == side;
  }

  /** `y = H - 1 - s; for x in range(W - 1 - s, s, -1)` at column `x - 1`, direction
      `esquerda`. */
  method BottomSide(st: State, h: nat, w: nat, s: nat, masks: Dir -> Mask) returns (r: State)
    requires Shaped(st, h, w) && 2 * s < h && 2 * s < w
    ensures AllInGrid(BottomRow(s, h, w), h, w)
    ensures r == Run(st, h, w, BottomRow(s, h, w), masks)
  {
    var side := BottomRow(s, h, w);
    SidesInGrid(s, h, w);
    var y, d := h - 1 - s, Esquerda;
    r := st;
    var x := w - 1 - s;
    while x > s
      invariant s <= x <= w - 1 - s
      invariant r == Run(st, h, w, side[..w - 1 - s - x], masks)
    {
      r := PixelStep(st, r, h, w, side, w - 1 - s - x, Visit(y, x - 1, d), masks);
      x := x - 1;
    }
    assert w - 1 - s - x == |side| && side[..w - 1 - s - x] == side;
  }

  /** `x = s; for y in range(H - 1 - s, s + 1, -1)` at row `y - 1`, direction `cima`. */
  method LeftSide(st: State, h: nat, w: nat, s: nat, masks: Dir -> Mask) returns (r: State)
    requires Shaped(st, h, w) && 2 * s < h && 2 * s < w
    ensures AllInGrid(LeftColumn(s, h, w), h, w)
    ensures r == Run(st, h, w, LeftColumn(s, h, w), masks)
  {
    var side := LeftColumn(s, h, w);
    SidesInGrid(s, h, w);
    var x, d := s, Cima;
    r := st;
    var y := h - 1 - s;
    if y <= s + 1 {
      assert side == [];
      return;
    }
    while y > s + 1
      invariant s + 1 <= y <= h - 1 - s
      invariant r == Run(st, h, w, side[..h - 1 - s - y], masks)
    {
      r := PixelStep(st, r, h, w, side, h - 1 - s - y, Visit(y - 1, x, d), masks);
      y := y - 1;
    }
    assert h - 1 - s - y == |side| && side[..h - 1 - s - y] == side;
  }

  /** One ring: top row, right column, bottom row, left column. */
  method WalkRing(st: State, h: nat, w: nat, s: nat, masks: Dir -> Mask) returns (r: State)
    requires Shaped(st, h, w) && 2 * s < h && 2 * s < w
    ensures AllInGrid(Ring(s, h, w), h, w)
    ensures r == Run(st, h, w, Ring(s, h, w), masks)
  {
    var t, rc, b, l := TopRow(s, h, w), RightColumn(s, h, w), BottomRow(s, h, w), LeftColumn(s, h, w);
    RingOnLevel(s, h, w);
    SidesInGrid(s, h, w);
    var a := TopSide(st, h, w, s, masks);
    a := RightSide(a, h, w, s, masks);
    RunAppend(st, h, w, t, rc, masks);
    a := BottomSide(a, h, w, s, masks);
    RunAppend(st, h, w, t + rc, b, masks);
    r := LeftSide(a, h, w, s, masks);
    RunAppend(st, h, w, t + rc + b, l, masks);
  }

  /** The first `n` rings lie in the image. */
  lemma RoundsInGrid(n: nat, h: nat, w: nat)
    requires n <= Rings(h, w)
    ensures AllInGrid(Rounds(n, RingOf(h, w)), h, w)
  {
    RingsOnLevels(h, w);
    RoundsBelow(n, RingOf(h, w), h, w);
  }

  /** Running one more ring is walking that ring after the rings before it. */
  lemma RoundsGrow(st: State, h: nat, w: nat, s: nat, masks: Dir -> Mask)
    requires Shaped(st, h, w) && 2 * s < h && 2 * s < w
    ensures AllInGrid(Rounds(s, RingOf(h, w)), h, w) && AllInGrid(Ring(s, h, w), h, w)
    ensures AllInGrid(Rounds(s + 1, RingOf(h, w)), h, w)
    ensures Run(st, h, w, Rounds(s + 1, RingOf(h, w)), masks)
         == Run(Run(st, h, w, Rounds(s, RingOf(h, w)), masks), h, w, Ring(s, h, w), masks)
  {
    RingsRange(s, h, w);
    RoundsInGrid(s, h, w);
    RoundsInGrid(s + 1, h, w);
    RingOfRing(s, h, w);
    RingOnLevel(s, h, w);
    RunAppend(st, h, w, Rounds(s, RingOf(h, w)), Ring(s, h, w), masks);
  }

  /** `for s in range((1 + min(H, W)) // 2)`: every ring, from the outside in. */
  method WalkRings(st: State, h: nat, w: nat, masks: Dir -> Mask) returns (r: State)
    requires Shaped(st, h, w)
    ensures AllInGrid(Spiral(h, w), h, w)
    ensures r == Run(st, h, w, Spiral(h, w), masks)
  {
    r := st;
    var s := 0;
    RoundsInGrid(s, h, w);
    while s < (1 + Min(h, w)) / 2
      invariant s <= Rings(h, w)
      invariant AllInGrid(Rounds(s, RingOf(h, w)), h, w)
      invariant r == Run(st, h, w, Rounds(s, RingOf(h, w)), masks)
    {
      RingsRange(s, h, w);
      RoundsGrow(st, h, w, s, masks);
      r := WalkRing(r, h, w, s, masks);
      s := s + 1;
    }
    assert s == Rings(h, w);
  }

  /** `varredura_espiral(img, dists)`: the rings from the outside in, each pixel with the
      kernel of the side it is on. The spiral covers the image, so every bit is written, with
      0 or 1. */
  method VarreduraEspiral(img: seq<seq<real>>, h: nat, w: nat, dists: seq<seq<seq<real>>>, offset: Offset,
                          res0: seq<seq<int>>)
    returns (res: seq<seq<int>>)
    requires IsGrid(img, h, w) && IsGrid(res0, h, w) && |dists| == 4
    ensures AllInGrid(Spiral(h, w), h, w) && Covers(Spiral(h, w), h, w)
    ensures res == Halftone(img, h, w, Spiral(h, w), Directed(dists, offset))
    ensures IsGrid(res, h, w) && forall a, b :: 0 <= a < h && 0 <= b < w ==> 0 <= res[a][b] <= 1
  {
    var st := WalkRings(State(img, res0), h, w, Directed(dists, offset));
    SpiralCovers(h, w);
    Finished(img, res0, h, w, Spiral(h, w), Directed(dists, offset), st);
    res := st.res;
  }
}
