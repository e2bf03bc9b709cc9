/**
  The per-pixel work every scan shares: quantise the working value at the
  pixel to a bit (threshold 128), and add the quantisation error, weighted
  by the kernel, to the pixels the kernel covers inside the image. The
  working buffer is `real` (an exact stand-in for float32).

  `Spread` is the closed form of the diffusion loops: which image pixel
  receives which weight. The loops in `AplicaEmPixel` (forward over the
  kernel columns, as every scan does) and `AplicaEmPixelInvertido` (backward
  over the kernel columns, as the right-to-left rows of the serpentine scan
  do) are proved to compute it. `Run` folds the pixel step over a visit
  order; each scan is proved to compute `Run` over its own order.
 */
module Diffusion {
  import opened Grids
  import opened Direction
  import opened Visits

  /** A kernel placed on the image: weight (i, j) lands on pixel (y + i - dH, x + j - dW). */
  datatype Mask = Mask(weights: seq<seq<real>>, dH: int, dW: int)

  /** The working buffer and the bits written so far. */
  datatype State = State(img: seq<seq<real>>, res: seq<seq<int>>)

  predicate Shaped(st: State, h: nat, w: nat) {
    IsGrid(st.img, h, w) && IsGrid(st.res, h, w)
  }

  /** The quantised bit of a working value. */
  function Bit(v: real): (b: int)
    ensures 0 <= b <= 1
  {
    if v < 128.0 then 0 else 1
  }

  /** The intensity a bit stands for (`valor`). */
  function Tone(b: int): real {
    if b == 0 then 0.0 else 255.0
  }

  /** Kernel cells already spread: all rows before `i0`, and columns `lo..hi-1` of row `i0`. */
  predicate Done(k: seq<seq<real>>, i0: nat, lo: nat, hi: nat, i: int, j: int) {
    0 <= i < |k| && 0 <= j < |k[i]| && (i < i0 || (i == i0 && lo <= j < hi))
  }

  /** What pixel (a, b) has received once the `Done` cells are spread. */
  function Share(m: Mask, y: int, x: int, err: real, i0: nat, lo: nat, hi: nat, a: int, b: int): real {
    var i, j := a - y + m.dH, b - x + m.dW;
    if Done(m.weights, i0, lo, hi, i, j) then m.weights[i][j] * err else 0.0
  }

  /** The buffer after spreading the `Done` cells of the error `err` made at (y, x). */
  function Spread(img: seq<seq<real>>, m: Mask, y: int, x: int, err: real, i0: nat, lo: nat, hi: nat)
    : seq<seq<real>>
  {
    seq(|img|, a requires 0 <= a < |img| =>
      seq(|img[a]|, b requires 0 <= b < |img[a]| => img[a][b] + Share(m, y, x, err, i0, lo, hi, a, b)))
  }

  /** The buffer after the whole kernel is spread. */
  function Diffuse(img: seq<seq<real>>, m: Mask, y: int, x: int, err: real): seq<seq<real>> {
    Spread(img, m, y, x, err, |m.weights|, 0, 0)
  }

  /** `img[a, b] += v`. */
  function AddAt(g: seq<seq<real>>, a: nat, b: nat, v: real): (r: seq<seq<real>>)
    requires a < |g| && b < |g[a]|
  {
    g[a := g[a][b := g[a][b] + v]]
  }

  lemma SpreadShape(img: seq<seq<real>>, h: nat, w: nat, m: Mask, y: int, x: int, err: real,
                    i0: nat, lo: nat, hi: nat)
    requires IsGrid(img, h, w)
    ensures IsGrid(Spread(img, m, y, x, err, i0, lo, hi), h, w)
  {
  }

  /** Before any kernel cell is spread the buffer is unchanged. */
  lemma SpreadNothing(img: seq<seq<real>>, m: Mask, y: int, x: int, err: real)
    ensures Spread(img, m, y, x, err, 0, 0, 0) == img
  {
    var s := Spread(img, m, y, x, err, 0, 0, 0);
    forall a | 0 <= a < |img|
      ensures s[a] == img[a]
    {
    }
  }

  /** Spreading the same kernel cells gives the same buffer. */
  lemma SpreadSameCells(img: seq<seq<real>>, m: Mask, y: int, x: int, err: real,
                        i0: nat, lo: nat, hi: nat, i1: nat, lo1: nat, hi1: nat)
    requires forall i, j :: Done(m.weights, i0, lo, hi, i, j) == Done(m.weights, i1, lo1, hi1, i, j)
    ensures Spread(img, m, y, x, err, i0, lo, hi) == Spread(img, m, y, x, err, i1, lo1, hi1)
  {
    var s0 := Spread(img, m, y, x, err, i0, lo, hi);
    var s1 := Spread(img, m, y, x, err, i1, lo1, hi1);
    forall a | 0 <= a < |img|
      ensures s0[a] == s1[a]
    {
      forall b | 0 <= b < |img[a]|
        ensures s0[a][b] == s1[a][b]
      {
        assert Share(m, y, x, err, i0, lo, hi, a, b) == Share(m, y, x, err, i1, lo1, hi1, a, b);
      }
    }
  }

  /** Spreading one more kernel cell (i, j) adds its weighted error to its target pixel
      (yi, xj), when that pixel is inside the image, and changes nothing otherwise. */
  lemma SpreadOneMore(img: seq<seq<real>>, h: nat, w: nat, m: Mask, y: int, x: int, err: real,
                      i0: nat, lo: nat, hi: nat, i1: nat, lo1: nat, hi1: nat, i: nat, j: nat,
                      before: seq<seq<real>>, yi: int, xj: int)
    requires IsGrid(img, h, w)
    requires i < |m.weights| && j < |m.weights[i]|
    requires !Done(m.weights, i0, lo, hi, i, j)
    requires forall i', j' :: Done(m.weights, i1, lo1, hi1, i', j') <==>
      (Done(m.weights, i0, lo, hi, i', j') || (i' == i && j' == j))
    requires before == Spread(img, m, y, x, err, i0, lo, hi)
    requires yi == y + i - m.dH && xj == x + j - m.dW
    ensures IsGrid(before, h, w)
    ensures Spread(img, m, y, x, err, i1, lo1, hi1) ==
      if 0 <= yi < h && 0 <= xj < w then AddAt(before, yi, xj, m.weights[i][j] * err) else before
  {
    var after := Spread(img, m, y, x, err, i1, lo1, hi1);
    var expected := if 0 <= yi < h && 0 <= xj < w then AddAt(before, yi, xj, m.weights[i][j] * err) else before;
    forall a, b | 0 <= a < h && 0 <= b < w
      ensures after[a][b] == expected[a][b]
    {
      if a == yi && b == xj {
        assert Done(m.weights, i1, lo1, hi1, i, j);
      } else {
        assert Share(m, y, x, err, i0, lo, hi, a, b) == Share(m, y, x, err, i1, lo1, hi1, a, b);
      }
    }
    GridExt(after, expected, h, w);
  }

  /** `aplica_em_pixel`'s diffusion, as a closed form: pixel (a, b) receives weight
      (a - y + dH, b - x + dW) times the error when that is a cell of the kernel, and
      nothing otherwise; the buffer keeps its shape. */
  lemma DiffuseTargets(img: seq<seq<real>>, h: nat, w: nat, m: Mask, y: int, x: int, err: real)
    requires IsGrid(img, h, w)
    ensures IsGrid(Diffuse(img, m, y, x, err), h, w)
    ensures forall a, b :: 0 <= a < h && 0 <= b < w ==>
      var i, j := a - y + m.dH, b - x + m.dW;
      Diffuse(img, m, y, x, err)[a][b] ==
        if 0 <= i < |m.weights| && 0 <= j < |m.weights[i]| then img[a][b] + m.weights[i][j] * err
        else img[a][b]
  {
  }

  /** The pixel step: quantise (y, x), then diffuse its error with mask `m`. */
  function Step(st: State, h: nat, w: nat, v: Visit, m: Mask): (r: State)
    requires Shaped(st, h, w) && InGrid(v, h, w)
    ensures Shaped(r, h, w)
    ensures r.res[v.y][v.x] == 1 <==> st.img[v.y][v.x] >= 128.0
    ensures r.res[v.y][v.x] == 0 <==> st.img[v.y][v.x] < 128.0
    ensures forall a, b :: 0 <= a < h && 0 <= b < w && (a, b) != (v.y, v.x) ==> r.res[a][b] == st.res[a][b]
    ensures r.img == Diffuse(st.img, m, v.y, v.x, st.img[v.y][v.x] - 255.0 * r.res[v.y][v.x] as real)
  {
    var val := st.img[v.y][v.x];
    var bit := Bit(val);
    SpreadShape(st.img, h, w, m, v.y, v.x, val - Tone(bit), |m.weights|, 0, 0);
    State(Diffuse(st.img, m, v.y, v.x, val - Tone(bit)), st.res[v.y := st.res[v.y][v.x := bit]])
  }

  /** What one pixel step does: the bit at (y, x) is 1 exactly when the working value
      there is at least 128, no other bit changes, and the error is the value minus
      255 times the bit. */
  lemma StepEffect(st: State, h: nat, w: nat, v: Visit, m: Mask)
    requires Shaped(st, h, w) && InGrid(v, h, w)
    ensures var r := Step(st, h, w, v, m);
      var val := st.img[v.y][v.x];
      (r.res[v.y][v.x] == 1 <==> val >= 128.0) &&
      (r.res[v.y][v.x] == 0 <==> val < 128.0) &&
      (forall a, b :: 0 <= a < h && 0 <= b < w && (a, b) != (v.y, v.x) ==> r.res[a][b] == st.res[a][b]) &&
      r.img == Diffuse(st.img, m, v.y, v.x, val - 255.0 * (r.res[v.y][v.x] as real))
  {
  }

  /** Quantises every pixel of `vs` in order, each with the mask of its direction. */
  function Run(st: State, h: nat, w: nat, vs: seq<Visit>, masks: Dir -> Mask): (r: State)
    requires Shaped(st, h, w) && AllInGrid(vs, h, w)
    ensures Shaped(r, h, w)
    decreases |vs|
  {
    if |vs| == 0 then st
    else
      var n := |vs| - 1;
      assert AllInGrid(vs[..n], h, w) && InGrid(vs[n], h, w);
      Step(Run(st, h, w, vs[..n], masks), h, w, vs[n], masks(vs[n].d))
  }

  /** Running one more pixel is one more step. */
  lemma RunSnoc(st: State, h: nat, w: nat, vs: seq<Visit>, v: Visit, masks: Dir -> Mask)
    requires Shaped(st, h, w) && AllInGrid(vs, h, w) && InGrid(v, h, w)
    ensures AllInGrid(vs + [v], h, w)
    ensures Run(st, h, w, vs + [v], masks) == Step(Run(st, h, w, vs, masks), h, w, v, masks(v.d))
  {
    assert (vs + [v])[..|vs|] == vs;
  }

  /** Running two orders one after the other is running their concatenation. */
  lemma {:induction false} RunAppend(st: State, h: nat, w: nat, a: seq<Visit>, b: seq<Visit>, masks: Dir -> Mask)
    requires Shaped(st, h, w) && AllInGrid(a, h, w) && AllInGrid(b, h, w)
    ensures AllInGrid(a + b, h, w)
    ensures Run(st, h, w, a + b, masks) == Run(Run(st, h, w, a, masks), h, w, b, masks)
    decreases |b|
  {
    assert AllInGrid(a + b, h, w);
    if |b| == 0 {
      assert a + b == a;
    } else {
      var n := |b| - 1;
      var front := b[..n];
      assert AllInGrid(front, h, w) && InGrid(b[n], h, w);
      assert a + b == (a + front) + [b[n]] && b == front + [b[n]];
      RunAppend(st, h, w, a, front, masks);
      RunSnoc(st, h, w, a + front, b[n], masks);
      RunSnoc(Run(st, h, w, a, masks), h, w, front, b[n], masks);
    }
  }

  /** A bit not visited keeps its starting value; a bit visited is 0 or 1. */
  lemma {:induction false} RunBits(st: State, h: nat, w: nat, vs: seq<Visit>, masks: Dir -> Mask)
    requires Shaped(st, h, w) && AllInGrid(vs, h, w)
    ensures forall a: nat, b: nat :: a < h && b < w ==>
      var r := Run(st, h, w, vs, masks).res[a][b];
      if Cell(a, b) in Cells(vs) then 0 <= r <= 1 else r == st.res[a][b]
    decreases |vs|
  {
    if |vs| > 0 {
      var n := |vs| - 1;
      var front := vs[..n];
      assert AllInGrid(front, h, w) && InGrid(vs[n], h, w);
      assert vs == front + [vs[n]];
      RunBits(st, h, w, front, masks);
      RunSnoc(st, h, w, front, vs[n], masks);
      CellsConcat(front, [vs[n]]);
      assert Cells([vs[n]]) == {CellOf(vs[n])};
    }
  }

  /** A step reads the working buffer only: from the same buffer, two states step to the same
      buffer and the same bit at the visited pixel, and keep their other bits. */
  lemma StepIgnoresBits(img: seq<seq<real>>, r0: seq<seq<int>>, r1: seq<seq<int>>,
                        h: nat, w: nat, v: Visit, m: Mask)
    requires Shaped(State(img, r0), h, w) && Shaped(State(img, r1), h, w) && InGrid(v, h, w)
    ensures Step(State(img, r0), h, w, v, m).img == Step(State(img, r1), h, w, v, m).img
    ensures Step(State(img, r0), h, w, v, m).res[v.y][v.x] == Step(State(img, r1), h, w, v, m).res[v.y][v.x]
    ensures forall a: nat, b: nat :: a < h && b < w && (a, b) != (v.y, v.x) ==>
      Step(State(img, r0), h, w, v, m).res[a][b] == r0[a][b] &&
      Step(State(img, r1), h, w, v, m).res[a][b] == r1[a][b]
  {
  }

  /** The working buffer never depends on the bits. */
  lemma {:induction false} RunImgIgnoresBits(img: seq<seq<real>>, r0: seq<seq<int>>, r1: seq<seq<int>>,
                                             h: nat, w: nat, vs: seq<Visit>, masks: Dir -> Mask)
    requires Shaped(State(img, r0), h, w) && Shaped(State(img, r1), h, w) && AllInGrid(vs, h, w)
    ensures Run(State(img, r0), h, w, vs, masks).img == Run(State(img, r1), h, w, vs, masks).img
    decreases |vs|
  {
    if |vs| > 0 {
      var n := |vs| - 1;
      var front := vs[..n];
      assert AllInGrid(front, h, w) && InGrid(vs[n], h, w);
      assert vs == front + [vs[n]];
      RunImgIgnoresBits(img, r0, r1, h, w, front, masks);
      RunSnoc(State(img, r0), h, w, front, vs[n], masks);
      RunSnoc(State(img, r1), h, w, front, vs[n], masks);
      var s0, s1 := Run(State(img, r0), h, w, front, masks), Run(State(img, r1), h, w, front, masks);
      StepIgnoresBits(s0.img, s0.res, s1.res, h, w, vs[n], masks(vs[n].d));
      assert s0 == State(s0.img, s0.res) && s1 == State(s0.img, s1.res);
    }
  }

  /** The bits of visited pixels do not depend on the starting bits; the working buffer
      does not depend on them at all. */
  lemma {:induction false} RunIgnoresStartBits(img: seq<seq<real>>, r0: seq<seq<int>>, r1: seq<seq<int>>,
                                               h: nat, w: nat, vs: seq<Visit>, masks: Dir -> Mask)
    requires Shaped(State(img, r0), h, w) && Shaped(State(img, r1), h, w) && AllInGrid(vs, h, w)
    ensures Run(State(img, r0), h, w, vs, masks).img == Run(State(img, r1), h, w, vs, masks).img
    ensures forall a: nat, b: nat :: a < h && b < w && Cell(a, b) in Cells(vs) ==>
      Run(State(img, r0), h, w, vs, masks).res[a][b] == Run(State(img, r1), h, w, vs, masks).res[a][b]
    decreases |vs|
  {
    RunImgIgnoresBits(img, r0, r1, h, w, vs, masks);
    if |vs| > 0 {
      var n := |vs| - 1;
      var front := vs[..n];
      assert AllInGrid(front, h, w) && InGrid(vs[n], h, w);
      assert vs == front + [vs[n]];
      RunIgnoresStartBits(img, r0, r1, h, w, front, masks);
      RunSnoc(State(img, r0), h, w, front, vs[n], masks);
      RunSnoc(State(img, r1), h, w, front, vs[n], masks);
      var s0, s1 := Run(State(img, r0), h, w, front, masks), Run(State(img, r1), h, w, front, masks);
      StepIgnoresBits(s0.img, s0.res, s1.res, h, w, vs[n], masks(vs[n].d));
      assert s0 == State(s0.img, s0.res) && s1 == State(s0.img, s1.res);
      CellsConcat(front, [vs[n]]);
      assert Cells([vs[n]]) == {CellOf(vs[n])};
    }
  }

  /** An order that visits every pixel overwrites every bit: the result is all 0s and 1s and
      does not depend on what the result buffer held before (`np.empty`). */
  lemma CoveringRunWritesEveryBit(img: seq<seq<real>>, r0: seq<seq<int>>, r1: seq<seq<int>>,
                                  h: nat, w: nat, vs: seq<Visit>, masks: Dir -> Mask)
    requires Shaped(State(img, r0), h, w) && Shaped(State(img, r1), h, w)
    requires AllInGrid(vs, h, w) && Covers(vs, h, w)
    ensures Run(State(img, r0), h, w, vs, masks) == Run(State(img, r1), h, w, vs, masks)
    ensures forall a, b :: 0 <= a < h && 0 <= b < w ==> 0 <= Run(State(img, r0), h, w, vs, masks).res[a][b] <= 1
  {
    RunIgnoresStartBits(img, r0, r1, h, w, vs, masks);
    RunBits(State(img, r0), h, w, vs, masks);
    var s0 := Run(State(img, r0), h, w, vs, masks);
    var s1 := Run(State(img, r1), h, w, vs, masks);
    forall a | 0 <= a < h
      ensures s0.res[a] == s1.res[a]
    {
      forall b | 0 <= b < w
        ensures s0.res[a][b] == s1.res[a][b]
      {
        assert Cell(a, b) in Cells(vs);
      }
    }
    forall a, b | 0 <= a < h && 0 <= b < w
      ensures 0 <= s0.res[a][b] <= 1
    {
      assert Cell(a, b) in Cells(vs);
    }
  }

  /** The all-zero `h` by `w` grid. */
  function Zeros(h: nat, w: nat): (g: seq<seq<int>>)
    ensures IsGrid(g, h, w)
  {
    seq(h, _ => seq(w, _ => 0))
  }

  /** The bits an order produces from the working values `img`. */
  function Halftone(img: seq<seq<real>>, h: nat, w: nat, vs: seq<Visit>, masks: Dir -> Mask): seq<seq<int>>
    requires IsGrid(img, h, w) && AllInGrid(vs, h, w)
  {
    Run(State(img, Zeros(h, w)), h, w, vs, masks).res
  }

  /** An order that visits every pixel produces `Halftone`, all 0s and 1s, whatever the result
      buffer held before. */
  lemma CoveringRunIsHalftone(img: seq<seq<real>>, res0: seq<seq<int>>, h: nat, w: nat,
                              vs: seq<Visit>, masks: Dir -> Mask)
    requires IsGrid(img, h, w) && IsGrid(res0, h, w)
    requires AllInGrid(vs, h, w) && Covers(vs, h, w)
    ensures Run(State(img, res0), h, w, vs, masks).res == Halftone(img, h, w, vs, masks)
    ensures IsGrid(Halftone(img, h, w, vs, masks), h, w)
    ensures forall a, b :: 0 <= a < h && 0 <= b < w ==> 0 <= Halftone(img, h, w, vs, masks)[a][b] <= 1
  {
    CoveringRunWritesEveryBit(img, res0, Zeros(h, w), h, w, vs, masks);
    CoveringRunWritesEveryBit(img, Zeros(h, w), res0, h, w, vs, masks);
  }

  // ---------------------------------------------------------------------
  // The loops

  /** The threshold and error of `aplica_em_pixel` (and of the pixel code inlined in every scan). */
  method Quantise(st: State, h: nat, w: nat, y: nat, x: nat) returns (res: seq<seq<int>>, erro: real)
    requires Shaped(st, h, w) && y < h && x < w
    ensures IsGrid(res, h, w)
    ensures res[y][x] == 1 <==> st.img[y][x] >= 128.0
    ensures res[y][x] == 0 <==> st.img[y][x] < 128.0
    ensures forall a, b :: 0 <= a < h && 0 <= b < w && (a, b) != (y, x) ==> res[a][b] == st.res[a][b]
    ensures erro == st.img[y][x] - 255.0 * res[y][x] as real
  {
    var intensidade := st.img[y][x];
    var valor: real;
    res := st.res;
    if intensidade < 128.0 {
      res := res[y := res[y][x := 0]];
      valor := 0.0;
    } else {
      res := res[y := res[y][x := 1]];
      valor := 255.0;
    }
    erro := intensidade - valor;
  }

  /** The diffusion loop of `aplica_em_pixel`: add the weighted error to every in-image pixel
      the kernel covers, row by row, column by column. */
  method Difunde(img0: seq<seq<real>>, h: nat, w: nat, y: nat, x: nat, erro: real, m: Mask)
    returns (img: seq<seq<real>>)
    requires IsGrid(img0, h, w)
    ensures img == Diffuse(img0, m, y, x, erro)
  {
    img := img0;
    SpreadNothing(img0, m, y, x, erro);
    var i := 0;
    while i < |m.weights|
      invariant 0 <= i <= |m.weights|
      invariant img == Spread(img0, m, y, x, erro, i, 0, 0)
    {
      var yi := y + i - m.dH;
      var j := 0;
      while j < |m.weights[i]|
        invariant 0 <= j <= |m.weights[i]|
        invariant img == Spread(img0, m, y, x, erro, i, 0, j)
      {
        var xj := x + j - m.dW;
        SpreadOneMore(img0, h, w, m, y, x, erro, i, 0, j, i, 0, j + 1, i, j, img, yi, xj);
        if 0 <= yi < h && 0 <= xj < w {
          img := AddAt(img, yi, xj, m.weights[i][j] * erro);
        }
        j := j + 1;
      }
      assert j == |m.weights[i]|;
      SpreadSameCells(img0, m, y, x, erro, i, 0, |m.weights[i]|, i + 1, 0, 0);
      i := i + 1;
    }
    assert i == |m.weights|;
  }

  /** `aplica_em_pixel(res, img, dist, d, (H, W, y, x))`: quantise the pixel, then diffuse its
      error. */
  method AplicaEmPixel(st: State, h: nat, w: nat, v: Visit, m: Mask) returns (r: State)
    requires Shaped(st, h, w) && InGrid(v, h, w)
    ensures r == Step(st, h, w, v, m)
  {
    var res, erro := Quantise(st, h, w, v.y, v.x);
    GridExt(res, Step(st, h, w, v, m).res, h, w);
    var img := Difunde(st.img, h, w, v.y, v.x, erro, m);
    r := State(img, res);
  }

  /** The diffusion loop of the right-to-left rows of the serpentine scan: the kernel columns
      are taken from last to first (`j = tW - 1 - jm`), but each weight still goes to the same
      pixel, so the buffer is the forward loop's. */
  method DifundeInvertido(img0: seq<seq<real>>, h: nat, w: nat, y: nat, x: nat, erro: real, m: Mask)
    returns (img: seq<seq<real>>)
    requires IsGrid(img0, h, w)
    ensures img == Diffuse(img0, m, y, x, erro)
  {
    img := img0;
    SpreadNothing(img0, m, y, x, erro);
    var i := 0;
    while i < |m.weights|
      invariant 0 <= i <= |m.weights|
      invariant img == Spread(img0, m, y, x, erro, i, 0, 0)
    {
      var yi := y + i - m.dH;
      var tW := |m.weights[i]|;
      SpreadSameCells(img0, m, y, x, erro, i, 0, 0, i, tW, tW);
      var jm := 0;
      while jm < tW
        invariant 0 <= jm <= tW
        invariant img == Spread(img0, m, y, x, erro, i, tW - jm, tW)
      {
        var j := tW - 1 - jm;
        var xj := x + j - m.dW;
        SpreadOneMore(img0, h, w, m, y, x, erro, i, j + 1, tW, i, j, tW, i, j, img, yi, xj);
        if 0 <= yi < h && 0 <= xj < w {
          img := AddAt(img, yi, xj, m.weights[i][j] * erro);
        }
        jm := jm + 1;
      }
      assert tW - jm == 0;
      SpreadSameCells(img0, m, y, x, erro, i, 0, tW, i + 1, 0, 0);
      i := i + 1;
    }
    assert i == |m.weights|;
  }

  /** The pixel step of the right-to-left rows of the serpentine scan. */
  method AplicaEmPixelInvertido(st: State, h: nat, w: nat, v: Visit, m: Mask) returns (r: State)
    requires Shaped(st, h, w) && InGrid(v, h, w)
    ensures r == Step(st, h, w, v, m)
  {
    var res, erro := Quantise(st, h, w, v.y, v.x);
    GridExt(res, Step(st, h, w, v, m).res, h, w);
    var img := DifundeInvertido(st.img, h, w, v.y, v.x, erro, m);
    r := State(img, res);
  }
}
