/**
  The strategy enum `Varredura` of lib/__init__.py, its dispatch to the
  four engines, and `meios_tons`, which sends a grey image to one engine
  and a colour image through `meios_tons_colorida`, channel by channel.

  The result each strategy computes is stated once, as `Expected`: the
  halftone of the image along the strategy's visit order with the
  strategy's kernels. The grey and the colour paths are both proved to
  compute it.
 */
module Dispatch {
  import opened Grids
  import opened Direction
  import opened Visits
  import opened Diffusion
  import opened ScanOrders
  import opened HilbertOrder
  import opened SpiralOrder
  import opened Engines
  import opened Channels

  /** `class Varredura(IntEnum)`. */
  datatype Varredura = Unidirecional | Alternada | Hilbert | Espiral {
    /** The member's integer value. */
    function Value(): (v: nat)
      ensures v < 4
    {
      match this
      case Unidirecional => 0
      case Alternada => 1
      case Hilbert => 2
      case Espiral => 3
    }

    /** `__str__`: the member's name, as the command line shows it. */
    function Name(): string {
      match this
      case Unidirecional => "unidirecional"
      case Alternada => "alternada"
      case Hilbert => "hilbert"
      case Espiral => "espiral"
    }
  }

  /** `Varredura(n)`: the member with value `n`; any other value is rejected. */
  function FromValue(n: nat): (r: Option<Varredura>)
    ensures r.Some? <==> n < 4
  {
    if n == 0 then Some(Unidirecional)
    else if n == 1 then Some(Alternada)
    else if n == 2 then Some(Hilbert)
    else if n == 3 then Some(Espiral)
    else None
  }

  /** The values are 0 to 3 and each names one member. */
  lemma ValueRoundTrip(v: Varredura, n: nat)
    ensures FromValue(v.Value()) == Some(v)
    ensures FromValue(n).Some? ==> FromValue(n).value.Value() == n
  {
  }

  /** No two members share a name. */
  lemma NamesDistinct(u: Varredura, v: Varredura)
    ensures u.Name() == v.Name() <==> u == v
  {
  }

  /** The visit order of each strategy. */
  function Order(v: Varredura, h: nat, w: nat): (vs: seq<Visit>)
    ensures AllInGrid(vs, h, w) && Covers(vs, h, w)
  {
    match v
    case Unidirecional => RasterExactlyOnce(h, w); Raster(h, w)
    case Alternada => SerpentineExactlyOnce(h, w); Serpentine(h, w)
    case Hilbert => HilbertVisitsExactlyOnce(h, w); HilbertVisits(h, w)
    case Espiral => SpiralInGrid(h, w); SpiralCovers(h, w); Spiral(h, w)
  }

  /** Every strategy visits each pixel exactly once, except the spiral on the shapes whose last
      ring folds back on itself. */
  lemma OrderExactlyOnce(v: Varredura, h: nat, w: nat)
    ensures ExactlyOnce(Order(v, h, w), h, w) <==> v != Espiral || SpiralIsExact(h, w)
    ensures ExactlyOnce(Order(v, h, w), h, w) ==> |Order(v, h, w)| == h * w
  {
    match v
    case Unidirecional => RasterExactlyOnce(h, w);
    case Alternada => SerpentineExactlyOnce(h, w);
    case Hilbert => HilbertVisitsExactlyOnce(h, w);
    case Espiral =>
      SpiralExactlyOnce(h, w);
      if SpiralIsExact(h, w) {
        SpiralLength(h, w);
      }
  }

  /** The kernels of each strategy: the row scans use the kernel as given, centred; the Hilbert
      and spiral scans use `err_dist_direcoes(dist)`, one rotation per direction of travel. */
  function Masks(v: Varredura, dist: seq<seq<real>>, offset: Offset): Dir -> Mask
    requires Rectangular(dist)
  {
    if v == Unidirecional || v == Alternada then Fixed(dist) else Directed(ErrDistDirecoes(dist), offset)
  }

  /** What strategy `v` computes on a grey image. */
  function Expected(v: Varredura, img: seq<seq<real>>, h: nat, w: nat, dist: seq<seq<real>>, offset: Offset)
    : seq<seq<int>>
    requires IsGrid(img, h, w) && Rectangular(dist)
  {
    Halftone(img, h, w, Order(v, h, w), Masks(v, dist, offset))
  }

  /** `Varredura.__call__(img, dist)`: the engine of the strategy; the Hilbert scan is given
      `err_dist_direcoes(dist)` and no precomputed order, the spiral scan the same kernels. */
  method Call(v: Varredura, img: seq<seq<real>>, h: nat, w: nat, dist: seq<seq<real>>, offset: Offset,
              res0: seq<seq<int>>)
    returns (res: seq<seq<int>>)
    requires IsGrid(img, h, w) && IsGrid(res0, h, w) && Rectangular(dist)
    ensures res == Expected(v, img, h, w, dist, offset)
    ensures IsGrid(res, h, w) && forall a, b :: 0 <= a < h && 0 <= b < w ==> 0 <= res[a][b] <= 1
  {
    if v == Unidirecional {
      res := VarreduraUnidirecional(img, h, w, dist, res0);
    } else if v == Alternada {
      res := VarreduraAlternada(img, h, w, dist, res0);
    } else if v == Hilbert {
      res := VarreduraHilbert(img, h, w, ErrDistDirecoes(dist), offset, None, res0);
    } else {
      res := VarreduraEspiral(img, h, w, ErrDistDirecoes(dist), offset, res0);
    }
  }

  /** The branch `meios_tons_colorida` takes for the integer `varredura`: 0, 1 and 2 select their
      member, every other value the spiral scan. */
  function Branch(n: nat): (v: Varredura)
    ensures n < 4 ==> v.Value() == n
    ensures n >= 3 ==> v == Espiral
  {
    if n == 0 then Unidirecional else if n == 1 then Alternada else if n == 2 then Hilbert else Espiral
  }

  /** One channel of `meios_tons_colorida`: the engine of the branch, on the channel's plane; the
      Hilbert scan gets the shared order `idx`, the Hilbert and spiral scans the shared
      `dists`. */
  method ColourChannel(subimg: seq<seq<real>>, h: nat, w: nat, dist: seq<seq<real>>, varredura: nat,
                       dists: seq<seq<seq<real>>>, idx: Option<seq<Visit>>, offset: Offset, res0: seq<seq<int>>)
    returns (ans: seq<seq<int>>)
    requires IsGrid(subimg, h, w) && IsGrid(res0, h, w) && Rectangular(dist)
    requires varredura >= 2 ==> dists == ErrDistDirecoes(dist)
    requires varredura == 2 ==> idx == Some(HilbertVisits(h, w))
    ensures ans == Expected(Branch(varredura), subimg, h, w, dist, offset)
  {
    if varredura == 0 {
      ans := VarreduraUnidirecional(subimg, h, w, dist, res0);
    } else if varredura == 1 {
      ans := VarreduraAlternada(subimg, h, w, dist, res0);
    } else if varredura == 2 {
      HilbertVisitsExactlyOnce(h, w);
      ans := VarreduraHilbert(subimg, h, w, dists, offset, idx, res0);
    } else {
      ans := VarreduraEspiral(subimg, h, w, dists, offset, res0);
    }
  }

  /** `meios_tons_colorida(img, dist, varredura)`: each of the three channels, taken out as a
      plane, goes through the branch's engine and is written back into its channel. The
      channel loop (`prange(3)`) runs in order here; the channels share nothing but the
      read-only `idx` and `dists`. Channel `c` of the result is what the strategy computes on
      channel `c` of the image. */
  method MeiosTonsColorida(img: seq<seq<seq<real>>>, h: nat, w: nat, dist: seq<seq<real>>, varredura: nat,
                           offset: Offset, res0: seq<seq<int>>, out0: seq<seq<seq<int>>>)
    returns (res: seq<seq<seq<int>>>)
    requires IsPixels(img, h, w) && IsGrid(res0, h, w) && IsPixels(out0, h, w) && Rectangular(dist)
    requires varredura < 256
    ensures IsPixels(res, h, w)
    ensures forall c :: 0 <= c < 3 ==>
      Channel(res, h, w, c) == Expected(Branch(varredura), Channel(img, h, w, c), h, w, dist, offset)
  {
    var idx: Option<seq<Visit>> := None;
    if varredura == 2 {
      var order := HilbertIndices(h, w);
      idx := Some(order);
    }
    var dists: seq<seq<seq<real>>> := [];
    if varredura >= 2 {
      dists := ErrDistDirecoes(dist);
    }
    res := out0;
    var ch := 0;
    while ch < 3
      invariant ch <= 3 && IsPixels(res, h, w)
      invariant forall c :: 0 <= c < ch ==>
        Channel(res, h, w, c) == Expected(Branch(varredura), Channel(img, h, w, c), h, w, dist, offset)
    {
      var subimg := Channel(img, h, w, ch);
      var ans := ColourChannel(subimg, h, w, dist, varredura, dists, idx, offset, res0);
      ExpectedShape(Branch(varredura), subimg, h, w, dist, offset);
      WriteChannel(res, h, w, ch, ans);
      res := SetChannel(res, h, w, ch, ans);
      ch := ch + 1;
    }
  }

  /** The halftone of a plane is a plane of the same shape. */
  lemma ExpectedShape(v: Varredura, img: seq<seq<real>>, h: nat, w: nat, dist: seq<seq<real>>, offset: Offset)
    requires IsGrid(img, h, w) && Rectangular(dist)
    ensures IsGrid(Expected(v, img, h, w, dist, offset), h, w)
    ensures forall a, b :: 0 <= a < h && 0 <= b < w ==> 0 <= Expected(v, img, h, w, dist, offset)[a][b] <= 1
  {
    CoveringRunIsHalftone(img, Zeros(h, w), h, w, Order(v, h, w), Masks(v, dist, offset));
  }

  /** Writing channel `ch` changes no other channel. */
  lemma WriteChannel(res: seq<seq<seq<int>>>, h: nat, w: nat, ch: nat, ans: seq<seq<int>>)
    requires IsPixels(res, h, w) && ch < 3 && IsGrid(ans, h, w)
    ensures Channel(SetChannel(res, h, w, ch, ans), h, w, ch) == ans
    ensures forall c :: 0 <= c < 3 && c != ch ==> Channel(SetChannel(res, h, w, ch, ans), h, w, c) == Channel(res, h, w, c)
  {
    SetThenChannel(res, h, w, ch, ans, ch);
    forall c | 0 <= c < 3 && c != ch
      ensures Channel(SetChannel(res, h, w, ch, ans), h, w, c) == Channel(res, h, w, c)
    {
      SetThenChannel(res, h, w, ch, ans, c);
    }
  }

  /** An image `meios_tons` accepts: 2 dimensions (grey) or 3 (colour). */
  datatype Image = Grey(plane: seq<seq<real>>) | Colour(pixels: seq<seq<seq<real>>>)

  /** The halftoned image, of the input's kind. */
  datatype Halftoned = GreyBits(bits: seq<seq<int>>) | ColourBits(cells: seq<seq<seq<int>>>)

  predicate ImageShape(img: Image, h: nat, w: nat) {
    match img
    case Grey(p) => IsGrid(p, h, w)
    case Colour(p) => IsPixels(p, h, w)
  }

  /**
    The `varredura` argument of `meios_tons`: a member of the enum, or an
    argument that fails at its first use: the default, which is the class
    `Varredura` itself, or a bare name such as `'alternada'`.
  */
  datatype Argument = Member(v: Varredura) | NotAMember

  /** How `meios_tons` fails on a `NotAMember` argument. */
  datatype ArgumentError =
    | NoValue     // a colour image: `.value` of the argument (line 86)
    | NoStrategy  // a grey image: calling the argument as a strategy (line 89)

  /** `meios_tons(img, dist, varredura)`: a colour image (`img.ndim == 3`) goes through
      `meios_tons_colorida` with the strategy's value, a grey one straight to the strategy. Both
      give, per channel, what the strategy computes on that channel. The class default
      and a bare name fail at the first use of the argument, which the image kind decides. */
  method MeiosTons(img: Image, h: nat, w: nat, dist: seq<seq<real>>, varredura: Argument, offset: Offset,
                   res0: seq<seq<int>>, out0: seq<seq<seq<int>>>)
    returns (r: Result<Halftoned, ArgumentError>)
    requires ImageShape(img, h, w) && IsGrid(res0, h, w) && IsPixels(out0, h, w) && Rectangular(dist)
    ensures r.Raise? <==> varredura.NotAMember?
    ensures r.Raise? ==> r.error == if img.Colour? then NoValue else NoStrategy
    ensures r.Ok? ==> (r.value.ColourBits? <==> img.Colour?)
    ensures r.Ok? && img.Grey? ==> r.value.bits == Expected(varredura.v, img.plane, h, w, dist, offset)
    ensures r.Ok? && img.Colour? ==> IsPixels(r.value.cells, h, w) && forall c :: 0 <= c < 3 ==>
      Channel(r.value.cells, h, w, c) == Expected(varredura.v, Channel(img.pixels, h, w, c), h, w, dist, offset)
  {
    if varredura.NotAMember? {
      return Raise(if img.Colour? then NoValue else NoStrategy);
    }
    var v := varredura.v;
    if img.Colour? {
      assert Branch(v.Value()) == v;
      var cells := MeiosTonsColorida(img.pixels, h, w, dist, v.Value(), offset, res0, out0);
      r := Ok(ColourBits(cells));
    } else {
      var bits := Call(v, img.plane, h, w, dist, offset, res0);
      r := Ok(GreyBits(bits));
    }
  }
}
