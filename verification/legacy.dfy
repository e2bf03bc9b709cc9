/**
  lib.py, a single-file three-channel raster scan, apart from the package in lib/.
  It quantises every channel of a colour image row by row, left to right,
  with the centred kernel, into a result that starts all zero and is only
  ever set to 1. Its `meios_tons` knows no other strategy.

  The loops over `x in range(H)` (rows) and `y in range(W)` (columns) touch
  channel `c` only, so a channel is modelled as its plane: the plane is
  taken out of the image, scanned, and written back. The proof then shows
  that each channel comes out as the raster halftone of that channel alone,
  the bits the two-dimensional raster engine of lib/horizontal.py produces.
 */
module Legacy {
  import opened Grids
  import opened Direction
  import opened Visits
  import opened Diffusion
  import opened ScanOrders
  import opened Engines
  import opened Channels

  /** The bits of the left-to-right raster scan of a plane with the centred kernel. */
  function RasterHalftone(img: seq<seq<real>>, h: nat, w: nat, dist: seq<seq<real>>): seq<seq<int>>
    requires IsGrid(img, h, w)
  {
    RasterShape(h, w);
    Halftone(img, h, w, Raster(h, w), Fixed(dist))
  }

  /** The pixel code of the inner loop at row `x`, column `y`: the result bit is only set when
      the value is at least 128, so it relies on the bit being 0 beforehand. */
  method LegacyPixel(st: State, h: nat, w: nat, x: nat, y: nat, m: Mask) returns (r: State)
    requires Shaped(st, h, w) && x < h && y < w
    requires st.res[x][y] == 0
    ensures r == Step(st, h, w, Visit(x, y, Direita), m)
  {
    var intensidade := st.img[x][y];
    var res := st.res;
    var valor: real;
    if intensidade < 128.0 {
      valor := 0.0;
      assert res[x][y := 0] == res[x];
    } else {
      res := res[x := res[x][y := 1]];
      valor := 255.0;
    }
    var erro := intensidade - valor;
    var img := Difunde(st.img, h, w, x, y, erro, m);
    r := State(img, res);
  }

  /** `for y in range(W)` at row `x`, on a row whose bits are all still 0. */
  method LegacyRow(st: State, h: nat, w: nat, x: nat, m: Mask) returns (r: State)
    requires Shaped(st, h, w) && x < h
    requires forall b :: 0 <= b < w ==> st.res[x][b] == 0
    ensures r == Run(st, h, w, RowForward(x, w), _ => m)
  {
    var row := RowForward(x, w);
    r := st;
    var y := 0;
    while y < w
      invariant 0 <= y <= w
      invariant r == Run(st, h, w, row[..y], _ => m)
      invariant forall b :: y <= b < w ==> r.res[x][b] == 0
    {
      RunPrefix(st, h, w, row, y, _ => m);
      StepEffect(r, h, w, Visit(x, y, Direita), m);
      r := LegacyPixel(r, h, w, x, y, m);
      y := y + 1;
    }
    assert y == |row| && row[..y] == row;
  }

  /** Rows not yet scanned still hold the zeros they started with. */
  lemma UnscannedRowIsZero(img: seq<seq<real>>, h: nat, w: nat, x: nat, m: Mask, st: State)
    requires IsGrid(img, h, w) && x < h
    requires AllInGrid(Raster(x, w), h, w) && st == Run(State(img, Zeros(h, w)), h, w, Raster(x, w), _ => m)
    ensures forall b :: 0 <= b < w ==> st.res[x][b] == 0
  {
    RunBits(State(img, Zeros(h, w)), h, w, Raster(x, w), _ => m);
    RasterShape(x, w);
    forall b | 0 <= b < w
      ensures st.res[x][b] == 0
    {
      assert Cell(x, b) !in Rect(x, w);
    }
  }

  /** `for x in range(H)` for one channel: the plane `img` scanned row by row from the zero
      plane gives the raster halftone of the plane, all 0s and 1s. */
  method LegacyChannel(img: seq<seq<real>>, res0: seq<seq<int>>, h: nat, w: nat, dist: seq<seq<real>>)
    returns (res: seq<seq<int>>)
    requires IsGrid(img, h, w) && res0 == Zeros(h, w)
    ensures res == RasterHalftone(img, h, w, dist)
    ensures IsGrid(res, h, w) && forall a, b :: 0 <= a < h && 0 <= b < w ==> 0 <= res[a][b] <= 1
  {
    var st0 := State(img, res0);
    var st := st0;
    var x := 0;
    while x < h
      invariant 0 <= x <= h
      invariant AllInGrid(Raster(x, w), h, w)
      invariant st == Run(st0, h, w, Raster(x, w), Fixed(dist))
    {
      UnscannedRowIsZero(img, h, w, x, Centred(dist), st);
      var next := LegacyRow(st, h, w, x, Centred(dist));
      RasterGrows(st0, st, next, h, w, x, Fixed(dist));
      st, x := next, x + 1;
    }
    RasterExactlyOnce(h, w);
    Finished(img, res0, h, w, Raster(h, w), Fixed(dist), st);
    res := st.res;
  }

  /** `varredura_unidirecional(img, dist)`: each of the three channels, from an all-zero result,
      is the raster halftone of that channel of the image. */
  method VarreduraUnidirecional(img: seq<seq<seq<real>>>, h: nat, w: nat, dist: seq<seq<real>>)
    returns (res: seq<seq<seq<int>>>)
    requires IsPixels(img, h, w)
    ensures IsPixels(res, h, w)
    ensures forall c :: 0 <= c < 3 ==>
      Channel(res, h, w, c) == RasterHalftone(Channel(img, h, w, c), h, w, dist)
    ensures forall a, b, c :: 0 <= a < h && 0 <= b < w && 0 <= c < 3 ==> 0 <= res[a][b][c] <= 1
  {
    res := ZeroPixels(h, w);
    ZeroChannels(h, w);
    var c := 0;
    while c < 3
      invariant 0 <= c <= 3 && IsPixels(res, h, w)
      invariant forall c' :: 0 <= c' < c ==>
        Channel(res, h, w, c') == RasterHalftone(Channel(img, h, w, c'), h, w, dist)
      invariant forall c' :: c <= c' < 3 ==> Channel(res, h, w, c') == Zeros(h, w)
    {
      var plane := LegacyChannel(Channel(img, h, w, c), Channel(res, h, w, c), h, w, dist);
      ChannelWrite(res, h, w, c, plane);
      res := SetChannel(res, h, w, c, plane);
      c := c + 1;
    }
    ChannelBits(img, res, h, w, dist);
  }

  /** Every channel of the zero image is the zero plane. */
  lemma ZeroChannels(h: nat, w: nat)
    ensures forall c :: 0 <= c < 3 ==> Channel(ZeroPixels(h, w), h, w, c) == Zeros(h, w)
  {
    forall c | 0 <= c < 3
      ensures Channel(ZeroPixels(h, w), h, w, c) == Zeros(h, w)
    {
      GridExt(Channel(ZeroPixels(h, w), h, w, c), Zeros(h, w), h, w);
    }
  }

  /** Writing channel `c` sets it and leaves the other two as they were. */
  lemma ChannelWrite(res: seq<seq<seq<int>>>, h: nat, w: nat, c: nat, plane: seq<seq<int>>)
    requires IsPixels(res, h, w) && c < 3 && IsGrid(plane, h, w)
    ensures Channel(SetChannel(res, h, w, c, plane), h, w, c) == plane
    ensures forall c' :: 0 <= c' < 3 && c' != c ==>
      Channel(SetChannel(res, h, w, c, plane), h, w, c') == Channel(res, h, w, c')
  {
    SetThenChannel(res, h, w, c, plane, c);
    forall c' | 0 <= c' < 3 && c' != c
      ensures Channel(SetChannel(res, h, w, c, plane), h, w, c') == Channel(res, h, w, c')
    {
      SetThenChannel(res, h, w, c, plane, c');
    }
  }

  /** Every cell of a result whose channels are raster halftones is 0 or 1. */
  lemma ChannelBits(img: seq<seq<seq<real>>>, res: seq<seq<seq<int>>>, h: nat, w: nat, dist: seq<seq<real>>)
    requires IsPixels(img, h, w) && IsPixels(res, h, w)
    requires forall c :: 0 <= c < 3 ==>
      Channel(res, h, w, c) == RasterHalftone(Channel(img, h, w, c), h, w, dist)
    ensures forall a, b, c :: 0 <= a < h && 0 <= b < w && 0 <= c < 3 ==> 0 <= res[a][b][c] <= 1
  {
    RasterExactlyOnce(h, w);
    forall a, b, c | 0 <= a < h && 0 <= b < w && 0 <= c < 3
      ensures 0 <= res[a][b][c] <= 1
    {
      var p := Channel(img, h, w, c);
      CoveringRunIsHalftone(p, Zeros(h, w), h, w, Raster(h, w), Fixed(dist));
      assert Channel(res, h, w, c)[a][b] == res[a][b][c];
    }
  }

  /** The exception `meios_tons` raises for a strategy it does not know. */
  datatype ValueError = UnknownScan(varredura: string)

  /** `meios_tons(img, dist, varredura)`: only `'unidirecional'` is accepted. */
  method MeiosTons(img: seq<seq<seq<real>>>, h: nat, w: nat, dist: seq<seq<real>>, varredura: string)
    returns (r: Result<seq<seq<seq<int>>>, ValueError>)
    requires IsPixels(img, h, w)
    ensures r.Raise? <==> varredura != "unidirecional"
    ensures r.Raise? ==> r.error == UnknownScan(varredura)
    ensures r.Ok? ==> IsPixels(r.value, h, w) && forall c :: 0 <= c < 3 ==>
      Channel(r.value, h, w, c) == RasterHalftone(Channel(img, h, w, c), h, w, dist)
  {
    if varredura == "unidirecional" {
      var res := VarreduraUnidirecional(img, h, w, dist);
      r := Ok(res);
    } else {
      r := Raise(UnknownScan(varredura));
    }
  }
}
