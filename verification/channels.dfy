/**
  Colour images: an `H x W x 3` array, `img[y][x][c]` the value of channel
  `c` of pixel (y, x). The colour paths take one channel out as a plane
  (`img[..., ch]`) and write a plane back into one channel
  (`res[..., ch] = ans`).
 */
module Channels {
  import opened Grids

  /** An `h` by `w` image with three channels per pixel. */
  predicate IsPixels<T>(img: seq<seq<seq<T>>>, h: nat, w: nat) {
    |img| == h && forall y :: 0 <= y < h ==> |img[y]| == w && forall x :: 0 <= x < w ==> |img[y][x]| == 3
  }

  /** `img[..., c]`: channel `c` as an `h` by `w` plane. */
  function Channel<T>(img: seq<seq<seq<T>>>, h: nat, w: nat, c: nat): (p: seq<seq<T>>)
    requires IsPixels(img, h, w) && c < 3
    ensures IsGrid(p, h, w)
    ensures forall y, x :: 0 <= y < h && 0 <= x < w ==> p[y][x] == img[y][x][c]
  {
    seq(h, y requires 0 <= y < h => seq(w, x requires 0 <= x < w => img[y][x][c]))
  }

  /** `res[..., c] = p`: channel `c` of every pixel replaced by the plane's value. */
  function SetChannel<T>(img: seq<seq<seq<T>>>, h: nat, w: nat, c: nat, p: seq<seq<T>>): (r: seq<seq<seq<T>>>)
    requires IsPixels(img, h, w) && c < 3 && IsGrid(p, h, w)
    ensures IsPixels(r, h, w)
  {
    seq(h, y requires 0 <= y < h => seq(w, x requires 0 <= x < w => img[y][x][c := p[y][x]]))
  }

  /** `np.zeros((H, W, 3))`. */
  function ZeroPixels(h: nat, w: nat): (g: seq<seq<seq<int>>>)
    ensures IsPixels(g, h, w)
    ensures forall y, x, c :: 0 <= y < h && 0 <= x < w && 0 <= c < 3 ==> g[y][x][c] == 0
  {
    seq(h, y => seq(w, x => [0, 0, 0]))
  }

  /** Writing a plane into channel `c` and reading channel `c` back gives the plane; every other
      channel reads as before. */
  lemma SetThenChannel<T>(img: seq<seq<seq<T>>>, h: nat, w: nat, c: nat, p: seq<seq<T>>, c': nat)
    requires IsPixels(img, h, w) && c < 3 && c' < 3 && IsGrid(p, h, w)
    ensures Channel(SetChannel(img, h, w, c, p), h, w, c') == if c' == c then p else Channel(img, h, w, c')
  {
    var r := SetChannel(img, h, w, c, p);
    var expected := if c' == c then p else Channel(img, h, w, c');
    forall y, x | 0 <= y < h && 0 <= x < w
      ensures Channel(r, h, w, c')[y][x] == expected[y][x]
    {
    }
    GridExt(Channel(r, h, w, c'), expected, h, w);
  }

  /** A pixel array is determined by its three channels. */
  lemma ChannelsDetermine<T>(a: seq<seq<seq<T>>>, b: seq<seq<seq<T>>>, h: nat, w: nat)
    requires IsPixels(a, h, w) && IsPixels(b, h, w)
    requires forall c :: 0 <= c < 3 ==> Channel(a, h, w, c) == Channel(b, h, w, c)
    ensures a == b
  {
    forall y | 0 <= y < h
      ensures a[y] == b[y]
    {
      forall x | 0 <= x < w
        ensures a[y][x] == b[y][x]
      {
        forall c | 0 <= c < 3
          ensures a[y][x][c] == b[y][x][c]
        {
          assert Channel(a, h, w, c)[y][x] == Channel(b, h, w, c)[y][x];
        }
      }
    }
  }
}
