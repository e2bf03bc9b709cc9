/**
  Local travel directions and the four orientations of an error
  distribution kernel (lib/direcao.py).
 */
module Direction {
  import opened Grids

  /** `Dir`: the direction of travel at the pixel being quantised. */
  datatype Dir = Direita | Esquerda | Cima | Baixo {

    /** The enum's integer value, which also indexes the tuple of oriented kernels. */
    function Value(): (v: nat)
      ensures v < 4
    {
      match this
      case Direita => 0
      case Esquerda => 1
      case Cima => 2
      case Baixo => 3
    }
  }

  /** `Dir(v)`: the direction with value `v`. */
  function FromValue(v: nat): (d: Dir)
    requires v < 4
    ensures d.Value() == v
  {
    if v == 0 then Direita else if v == 1 then Esquerda else if v == 2 then Cima else Baixo
  }

  /** The values are exactly 0..3, one per direction. */
  lemma ValueRoundTrip(d: Dir)
    ensures FromValue(d.Value()) == d
  {
  }

  /** `dist[::-1].T`: the 90 degree rotation, used when travelling down. */
  function Rotate90<T>(dist: seq<seq<T>>): (r: seq<seq<T>>)
    requires Rectangular(dist)
    ensures IsGrid(r, Cols(dist), |dist|)
    ensures forall i, j :: 0 <= i < Cols(dist) && 0 <= j < |dist| ==>
      r[i][j] == dist[|dist| - 1 - j][i]
  {
    FlipThenTranspose(dist);
    Transpose(Reverse(dist), Cols(dist))
  }

  lemma FlipThenTranspose<T>(dist: seq<seq<T>>)
    requires Rectangular(dist)
    ensures forall i, j :: 0 <= i < Cols(dist) && 0 <= j < |dist| ==>
      Transpose(Reverse(dist), Cols(dist))[i][j] == dist[|dist| - 1 - j][i]
  {
    var flipped := Reverse(dist);
    var r := Transpose(flipped, Cols(dist));
    forall i, j | 0 <= i < Cols(dist) && 0 <= j < |dist|
      ensures r[i][j] == dist[|dist| - 1 - j][i]
    {
      assert r[i][j] == flipped[j][i];
    }
  }

  /** `dist[::-1, ::-1]`: the 180 degree rotation, used when travelling left. */
  function Rotate180<T>(dist: seq<seq<T>>): (r: seq<seq<T>>)
    requires Rectangular(dist)
    ensures IsGrid(r, |dist|, Cols(dist))
    ensures forall i, j :: 0 <= i < |dist| && 0 <= j < Cols(dist) ==>
      r[i][j] == dist[|dist| - 1 - i][Cols(dist) - 1 - j]
  {
    ReverseEach(Reverse(dist))
  }

  /** `dist[:, ::-1].T`: the 270 degree rotation, used when travelling up. */
  function Rotate270<T>(dist: seq<seq<T>>): (r: seq<seq<T>>)
    requires Rectangular(dist)
    ensures IsGrid(r, Cols(dist), |dist|)
    ensures forall i, j :: 0 <= i < Cols(dist) && 0 <= j < |dist| ==>
      r[i][j] == dist[j][Cols(dist) - 1 - i]
  {
    Transpose(ReverseEach(dist), Cols(dist))
  }

  /** `err_dist_direcoes`: the kernel for each direction, at the index of its `Dir` value. */
  function ErrDistDirecoes<T>(dist: seq<seq<T>>): (r: seq<seq<seq<T>>>)
    requires Rectangular(dist)
    ensures |r| == 4
    ensures r[Direita.Value()] == dist
    ensures r[Esquerda.Value()] == Rotate180(dist)
    ensures r[Cima.Value()] == Rotate270(dist)
    ensures r[Baixo.Value()] == Rotate90(dist)
  {
    [dist, Rotate180(dist), Rotate270(dist), Rotate90(dist)]
  }

  /** The kernel used for travel direction `d`. */
  function Oriented<T>(dists: seq<seq<seq<T>>>, d: Dir): seq<seq<T>>
    requires |dists| == 4
  {
    dists[d.Value()]
  }

  lemma GridIsRectangular<T>(g: seq<seq<T>>, h: nat, w: nat)
    requires IsGrid(g, h, w)
    ensures Rectangular(g)
    ensures h > 0 ==> Cols(g) == w
  {
  }

  /** Every orientation is a rectangular matrix: transposed for up and down, unchanged in shape otherwise. */
  lemma OrientationShapes<T>(dist: seq<seq<T>>)
    requires Rectangular(dist)
    ensures forall d: Dir :: Rectangular(Oriented(ErrDistDirecoes(dist), d))
    ensures forall d: Dir :: d == Direita || d == Esquerda ==>
      IsGrid(Oriented(ErrDistDirecoes(dist), d), |dist|, Cols(dist))
    ensures forall d: Dir :: d == Cima || d == Baixo ==>
      IsGrid(Oriented(ErrDistDirecoes(dist), d), Cols(dist), |dist|)
  {
    var r := ErrDistDirecoes(dist);
    GridIsRectangular(r[0], |dist|, Cols(dist));
    GridIsRectangular(r[1], |dist|, Cols(dist));
    GridIsRectangular(r[2], Cols(dist), |dist|);
    GridIsRectangular(r[3], Cols(dist), |dist|);
  }

  /** Turning 180 degrees twice gives back the kernel. */
  lemma Rotate180Involution<T>(dist: seq<seq<T>>)
    requires Rectangular(dist)
    ensures Rectangular(Rotate180(dist))
    ensures Rotate180(Rotate180(dist)) == dist
  {
    var h, w := |dist|, Cols(dist);
    var once := Rotate180(dist);
    GridIsRectangular(once, h, w);
    GridIsRectangular(dist, h, w);
    GridExt(Rotate180(once), dist, h, w);
  }

  /** The kernel for going up is the kernel for going down turned 180 degrees. */
  lemma CimaIsBaixoTurned<T>(dist: seq<seq<T>>)
    requires Rectangular(dist)
    ensures Rectangular(Rotate90(dist))
    ensures Rotate270(dist) == Rotate180(Rotate90(dist))
  {
    var h, w := |dist|, Cols(dist);
    var down := Rotate90(dist);
    GridIsRectangular(down, w, h);
    GridExt(Rotate270(dist), Rotate180(down), w, h);
  }

  /** Two quarter turns make a half turn. */
  lemma TwoQuarterTurns<T>(dist: seq<seq<T>>)
    requires Rectangular(dist) && Cols(dist) > 0
    ensures Rectangular(Rotate90(dist))
    ensures Rotate90(Rotate90(dist)) == Rotate180(dist)
  {
    var h, w := |dist|, Cols(dist);
    var down := Rotate90(dist);
    GridIsRectangular(down, w, h);
    GridExt(Rotate90(down), Rotate180(dist), h, w);
  }

  /** Every orientation holds the same weights as the kernel, each as often. */
  lemma OrientationsKeepEntries<T>(dist: seq<seq<T>>)
    requires Rectangular(dist)
    ensures forall d: Dir :: Entries(Oriented(ErrDistDirecoes(dist), d)) == Entries(dist)
  {
    var r := ErrDistDirecoes(dist);
    assert Entries(r[1]) == Entries(dist) by {
      ReverseRowsPreservesEntries(dist);
      ReverseEachPreservesEntries(Reverse(dist));
    }
    assert Entries(r[3]) == Entries(dist) by {
      ReverseRowsPreservesEntries(dist);
      TransposePreservesEntries(Reverse(dist), Cols(dist));
    }
    assert Entries(r[2]) == Entries(dist) by {
      ReverseEachPreservesEntries(dist);
      TransposePreservesEntries(ReverseEach(dist), Cols(dist));
    }
    forall d: Dir
      ensures Entries(Oriented(r, d)) == Entries(dist)
    {
      assert Oriented(r, d) == r[d.Value()];
    }
  }

  /** Every orientation of a real kernel has the kernel's total weight. */
  lemma OrientationsKeepTotal(dist: seq<seq<real>>)
    requires Rectangular(dist)
    ensures forall d: Dir :: Total(Oriented(ErrDistDirecoes(dist), d)) == Total(dist)
  {
    OrientationsKeepEntries(dist);
    forall d: Dir
      ensures Total(Oriented(ErrDistDirecoes(dist), d)) == Total(dist)
    {
      SameEntriesSameTotal(Oriented(ErrDistDirecoes(dist), d), dist);
    }
  }
}
