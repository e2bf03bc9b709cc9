/**
  The integer side of lib/hilbert.py: the i-th point of an order-k
  Hilbert curve (`hilbert_prox_ind`), the rounded-up base-2 logarithm
  (`log2`) and the classification of a step into a direction (`direcao`).

  `Curve` is the recursive definition of the curve: the order-k curve is
  four copies of the order-(k-1) curve placed in the quadrants of a
  2^k square, the first one mirrored on the diagonal and the last one
  mirrored on the anti-diagonal. `HilbertPoint` is lib/hilbert.py's iterative
  bit-decomposition loop, proved to compute `Curve`.
 */
module HilbertCurve {
  import opened Direction

  datatype Point = Point(x: nat, y: nat)

  function Pow2(k: nat): (r: nat)
    ensures r >= 1
  {
    if k == 0 then 1 else 2 * Pow2(k - 1)
  }

  function Pow4(k: nat): (r: nat)
    ensures r >= 1
  {
    if k == 0 then 1 else 4 * Pow4(k - 1)
  }

  lemma {:induction false} Pow4IsSquare(k: nat)
    ensures Pow4(k) == Pow2(k) * Pow2(k)
  {
    if k > 0 {
      Pow4IsSquare(k - 1);
    }
  }

  lemma {:induction false} Pow2Monotonic(a: nat, b: nat)
    requires a <= b
    ensures Pow2(a) <= Pow2(b)
    decreases b
  {
    if a < b {
      Pow2Monotonic(a, b - 1);
    }
  }

  // ---------------------------------------------------------------------
  // Base-4 digits (least significant first), as the loop reads them two bits at a time

  predicate IsDigits(ds: seq<nat>) {
    forall i :: 0 <= i < |ds| ==> ds[i] < 4
  }

  /** The `k` lowest base-4 digits of `idx`, least significant first. */
  function Digits(idx: nat, k: nat): (ds: seq<nat>)
    ensures |ds| == k && IsDigits(ds)
  {
    if k == 0 then [] else [idx % 4] + Digits(idx / 4, k - 1)
  }

  lemma DigitsCons(j: nat, k: nat)
    requires k > 0
    ensures Digits(j, k) == [j % 4] + Digits(j / 4, k - 1)
  {
  }

  /** The number whose base-4 digits, least significant first, are `ds`. */
  function FromDigits(ds: seq<nat>): (n: nat)
    requires IsDigits(ds)
    ensures n < Pow4(|ds|)
  {
    if |ds| == 0 then 0 else ds[0] + 4 * FromDigits(ds[1..])
  }

  lemma {:induction false} FromDigitsOfDigits(idx: nat, k: nat)
    requires idx < Pow4(k)
    ensures FromDigits(Digits(idx, k)) == idx
  {
    if k > 0 {
      FromDigitsOfDigits(idx / 4, k - 1);
      assert Digits(idx, k)[1..] == Digits(idx / 4, k - 1);
    }
  }

  lemma {:induction false} DigitsOfFromDigits(ds: seq<nat>)
    requires IsDigits(ds)
    ensures Digits(FromDigits(ds), |ds|) == ds
  {
    if |ds| > 0 {
      DigitsOfFromDigits(ds[1..]);
      var n := FromDigits(ds);
      assert n == ds[0] + 4 * FromDigits(ds[1..]);
      assert n % 4 == ds[0] && n / 4 == FromDigits(ds[1..]);
      assert ds == [ds[0]] + ds[1..];
    }
  }

  // ---------------------------------------------------------------------
  // The curve

  /** Places a point of the `n` by `n` sub-square into quadrant `d` of the `2n` square. */
  function Place(d: nat, n: nat, p: Point): (r: Point)
    requires d < 4 && p.x < n && p.y < n
    ensures r.x < 2 * n && r.y < 2 * n
    ensures Quadrant(n, r) == d
  {
    if d == 0 then Point(p.y, p.x)
    else if d == 1 then Point(p.x, p.y + n)
    else if d == 2 then Point(p.x + n, p.y + n)
    else Point(2 * n - 1 - p.y, n - 1 - p.x)
  }

  /** Which quadrant of the `2n` square a point lies in, in curve order. */
  function Quadrant(n: nat, q: Point): nat {
    if q.x < n && q.y < n then 0
    else if q.x < n then 1
    else if q.y >= n then 2
    else 3
  }

  /** Undoes `Place`: the point of the sub-square that lands on `q`. */
  function Unplace(n: nat, q: Point): (p: Point)
    requires q.x < 2 * n && q.y < 2 * n
    ensures p.x < n && p.y < n
    ensures Place(Quadrant(n, q), n, p) == q
  {
    match Quadrant(n, q)
    case 0 => Point(q.y, q.x)
    case 1 => Point(q.x, q.y - n)
    case 2 => Point(q.x - n, q.y - n)
    case 3 => Point(n - 1 - q.y, 2 * n - 1 - q.x)
  }

  lemma UnplacePlace(d: nat, n: nat, p: Point)
    requires d < 4 && p.x < n && p.y < n
    ensures Unplace(n, Place(d, n, p)) == p
  {
  }

  /** Places a point of the `2^level` square through the levels named by `ds`,
      the first digit choosing its quadrant in the `2^(level+1)` square, and so on up. */
  function Lift(level: nat, ds: seq<nat>, p: Point): (r: Point)
    requires IsDigits(ds) && p.x < Pow2(level) && p.y < Pow2(level)
    ensures r.x < Pow2(level + |ds|) && r.y < Pow2(level + |ds|)
    decreases |ds|
  {
    if |ds| == 0 then p
    else Lift(level + 1, ds[1..], Place(ds[0], Pow2(level), p))
  }

  /** The point of the unit square reached through the levels `ds`. */
  function Walk(ds: seq<nat>): (p: Point)
    requires IsDigits(ds)
    ensures p.x < Pow2(|ds|) && p.y < Pow2(|ds|)
  {
    Lift(0, ds, Point(0, 0))
  }

  /** The `idx`-th point of the Hilbert curve of order `k`, which fills the `2^k` square;
      only the `k` lowest base-4 digits of `idx` matter. */
  function Curve(k: nat, idx: nat): (p: Point)
    ensures p.x < Pow2(k) && p.y < Pow2(k)
  {
    Walk(Digits(idx, k))
  }

  /** The last level applied is the outermost one. */
  lemma {:induction false} LiftAppend(level: nat, ds: seq<nat>, t: nat, p: Point)
    requires IsDigits(ds) && t < 4 && p.x < Pow2(level) && p.y < Pow2(level)
    ensures IsDigits(ds + [t])
    ensures Lift(level, ds + [t], p) == Place(t, Pow2(level + |ds|), Lift(level, ds, p))
    decreases |ds|
  {
    assert IsDigits(ds + [t]);
    if |ds| > 0 {
      assert (ds + [t])[1..] == ds[1..] + [t];
      LiftAppend(level + 1, ds[1..], t, Place(ds[0], Pow2(level), p));
    }
  }

  /** The order-(k+1) curve is four copies of the order-k curve, one per quadrant, the
      top digit choosing the quadrant: the classic recursive definition. */
  lemma CurveQuadrants(ds: seq<nat>, t: nat)
    requires IsDigits(ds) && t < 4
    ensures IsDigits(ds + [t])
    ensures Walk(ds + [t]) == Place(t, Pow2(|ds|), Walk(ds))
  {
    LiftAppend(0, ds, t, Point(0, 0));
  }

  /** The levels that reach `p` in the `2^k` square, the outermost found first. */
  function Unwalk(k: nat, p: Point): (ds: seq<nat>)
    requires p.x < Pow2(k) && p.y < Pow2(k)
    ensures |ds| == k && IsDigits(ds)
  {
    if k == 0 then []
    else
      var n := Pow2(k - 1);
      Unwalk(k - 1, Unplace(n, p)) + [Quadrant(n, p)]
  }

  lemma {:induction false} WalkOfUnwalk(k: nat, p: Point)
    requires p.x < Pow2(k) && p.y < Pow2(k)
    ensures Walk(Unwalk(k, p)) == p
  {
    if k > 0 {
      var n := Pow2(k - 1);
      var s := Unplace(n, p);
      WalkOfUnwalk(k - 1, s);
      CurveQuadrants(Unwalk(k - 1, s), Quadrant(n, p));
    }
  }

  lemma {:induction false} UnwalkOfWalk(ds: seq<nat>)
    requires IsDigits(ds)
    ensures Unwalk(|ds|, Walk(ds)) == ds
  {
    if |ds| > 0 {
      var k := |ds| - 1;
      var lo, t := ds[..k], ds[k];
      assert ds == lo + [t];
      UnwalkOfWalk(lo);
      CurveQuadrants(lo, t);
      UnplacePlace(t, Pow2(k), Walk(lo));
    }
  }

  /** Position along the order-`k` curve of a point of the `2^k` square. */
  function Index(k: nat, p: Point): (i: nat)
    requires p.x < Pow2(k) && p.y < Pow2(k)
    ensures i < Pow4(k)
  {
    FromDigits(Unwalk(k, p))
  }

  /** `Index` undoes `Curve`: no two positions give the same point. */
  lemma IndexOfCurve(k: nat, idx: nat)
    requires idx < Pow4(k)
    ensures Index(k, Curve(k, idx)) == idx
  {
    UnwalkOfWalk(Digits(idx, k));
    FromDigitsOfDigits(idx, k);
  }

  /** `Curve` undoes `Index`: every point of the square is on the curve. */
  lemma CurveOfIndex(k: nat, p: Point)
    requires p.x < Pow2(k) && p.y < Pow2(k)
    ensures Curve(k, Index(k, p)) == p
  {
    DigitsOfFromDigits(Unwalk(k, p));
    WalkOfUnwalk(k, p);
  }

  /** The curve is a bijection from [0, 4^k) onto the `2^k` square. */
  lemma CurveIsBijection(k: nat)
    ensures forall i, j :: 0 <= i < j < Pow4(k) ==> Curve(k, i) != Curve(k, j)
    ensures forall p: Point :: p.x < Pow2(k) && p.y < Pow2(k) ==>
      Index(k, p) < Pow4(k) && Curve(k, Index(k, p)) == p
  {
    forall i, j | 0 <= i < j < Pow4(k)
      ensures Curve(k, i) != Curve(k, j)
    {
      IndexOfCurve(k, i);
      IndexOfCurve(k, j);
    }
    forall p: Point | p.x < Pow2(k) && p.y < Pow2(k)
      ensures Curve(k, Index(k, p)) == p
    {
      CurveOfIndex(k, p);
    }
  }

  /** Where the `2^level` square's curve enters and leaves it. */
  function Entry(): Point { Point(0, 0) }

  function Exit(level: nat): Point { Point(Pow2(level) - 1, 0) }

  lemma LiftCons(level: nat, d: nat, rest: seq<nat>, p: Point)
    requires d < 4 && IsDigits(rest) && p.x < Pow2(level) && p.y < Pow2(level)
    ensures IsDigits([d] + rest)
    ensures Lift(level, [d] + rest, p) == Lift(level + 1, rest, Place(d, Pow2(level), p))
  {
    assert ([d] + rest)[1..] == rest;
  }

  /** Only zero digits: every level keeps the entry corner. */
  lemma {:induction false} LiftZeros(level: nat, idx: nat, k: nat)
    requires idx == 0
    ensures Lift(level, Digits(idx, k), Entry()) == Entry()
    decreases k
  {
    if k > 0 {
      DigitsCons(idx, k);
      LiftCons(level, 0, Digits(idx / 4, k - 1), Entry());
      LiftZeros(level + 1, idx / 4, k - 1);
    }
  }

  /** `4^k - 1` is `4 (4^(k-1) - 1) + 3`. */
  lemma LastBeforePow4(idx: nat, k: nat)
    requires k > 0 && idx + 1 == Pow4(k)
    ensures idx % 4 == 3 && idx / 4 + 1 == Pow4(k - 1)
  {
  }

  /** Quadrant 3 takes the sub-square's exit corner to the square's exit corner. */
  lemma PlaceExit(level: nat)
    ensures Place(3, Pow2(level), Exit(level)) == Exit(level + 1)
  {
  }

  /** Only digits 3: every level moves the exit corner to the next level's exit corner. */
  lemma {:induction false} LiftThrees(level: nat, idx: nat, k: nat)
    requires idx + 1 == Pow4(k)
    ensures Lift(level, Digits(idx, k), Exit(level)) == Exit(level + k)
    decreases k
  {
    if k > 0 {
      LastBeforePow4(idx, k);
      DigitsCons(idx, k);
      LiftCons(level, 3, Digits(idx / 4, k - 1), Exit(level));
      PlaceExit(level);
      LiftThrees(level + 1, idx / 4, k - 1);
    }
  }

  /** The curve starts in the corner (0, 0) and ends in the corner (2^k - 1, 0). */
  lemma CurveEnds(k: nat)
    ensures Curve(k, 0) == Point(0, 0)
    ensures Curve(k, Pow4(k) - 1) == Point(Pow2(k) - 1, 0)
  {
    CurveStart(k);
    CurveExit(k);
  }

  lemma CurveStart(k: nat)
    ensures Curve(k, 0) == Entry()
  {
    LiftZeros(0, 0, k);
    assert Curve(k, 0) == Lift(0, Digits(0, k), Entry());
  }

  lemma CurveExit(k: nat)
    ensures Curve(k, Pow4(k) - 1) == Exit(k)
  {
    var idx := Pow4(k) - 1;
    var ds := Digits(idx, k);
    LiftThrees(0, idx, k);
    assert Exit(0) == Entry();
    assert Curve(k, idx) == Walk(ds) == Lift(0, ds, Entry());
  }

  /** Points one unit apart horizontally or vertically. */
  predicate Adjacent(p: Point, q: Point) {
    (p.x == q.x && (p.y == q.y + 1 || q.y == p.y + 1)) ||
    (p.y == q.y && (p.x == q.x + 1 || q.x == p.x + 1))
  }

  lemma PlaceKeepsAdjacency(d: nat, n: nat, p: Point, q: Point)
    requires d < 4 && p.x < n && p.y < n && q.x < n && q.y < n
    requires Adjacent(p, q)
    ensures Adjacent(Place(d, n, p), Place(d, n, q))
  {
  }

  lemma {:induction false} LiftKeepsAdjacency(level: nat, ds: seq<nat>, p: Point, q: Point)
    requires IsDigits(ds)
    requires p.x < Pow2(level) && p.y < Pow2(level) && q.x < Pow2(level) && q.y < Pow2(level)
    requires Adjacent(p, q)
    ensures Adjacent(Lift(level, ds, p), Lift(level, ds, q))
    decreases |ds|
  {
    if |ds| > 0 {
      var n := Pow2(level);
      PlaceKeepsAdjacency(ds[0], n, p, q);
      LiftKeepsAdjacency(level + 1, ds[1..], Place(ds[0], n, p), Place(ds[0], n, q));
    }
  }

  /** Where quadrant `d` is left, quadrant `d + 1` is entered next door. */
  lemma QuadrantsMeet(d: nat, n: nat)
    requires d < 3 && n >= 1
    ensures Adjacent(Place(d, n, Point(n - 1, 0)), Place(d + 1, n, Point(0, 0)))
  {
  }

  /** Adding one to the number whose base-4 digits are `ds`, least significant first, with
      the carry running up through the 3s (and lost past the last digit). */
  function Inc(ds: seq<nat>): (r: seq<nat>)
    ensures |r| == |ds|
    ensures IsDigits(ds) ==> IsDigits(r)
  {
    if |ds| == 0 then []
    else if ds[0] < 3 then [ds[0] + 1] + ds[1..]
    else [0] + Inc(ds[1..])
  }

  predicate AllThrees(ds: seq<nat>) {
    forall i :: 0 <= i < |ds| ==> ds[i] == 3
  }

  /** Adding one to `4q + d`: no carry below digit 3, a carry into `q` at digit 3. */
  lemma SuccessorDigit(j: nat)
    ensures j % 4 < 3 ==> (j + 1) % 4 == j % 4 + 1 && (j + 1) / 4 == j / 4
    ensures j % 4 == 3 ==> (j + 1) % 4 == 0 && (j + 1) / 4 == j / 4 + 1
  {
  }

  lemma NotAllThreesCons(d: nat, rest: seq<nat>)
    requires d != 3 || !AllThrees(rest)
    ensures !AllThrees([d] + rest)
  {
    if d == 3 {
      var i :| 0 <= i < |rest| && rest[i] != 3;
      assert ([d] + rest)[i + 1] == rest[i];
    } else {
      assert ([d] + rest)[0] == d;
    }
  }

  lemma IncCons(d: nat, rest: seq<nat>)
    ensures Inc([d] + rest) == if d < 3 then [d + 1] + rest else [0] + Inc(rest)
  {
    assert ([d] + rest)[1..] == rest;
  }

  /** The digits of `j + 1` are the digits of `j` incremented, without overflow. */
  lemma {:induction false} DigitsOfSuccessor(j: nat, k: nat)
    requires j + 1 < Pow4(k)
    ensures Digits(j + 1, k) == Inc(Digits(j, k))
    ensures !AllThrees(Digits(j, k))
    decreases k
  {
    assert k > 0;
    var rest := Digits(j / 4, k - 1);
    DigitsCons(j, k);
    DigitsCons(j + 1, k);
    SuccessorDigit(j);
    IncCons(j % 4, rest);
    if j % 4 == 3 {
      assert j / 4 + 1 < Pow4(k - 1);
      DigitsOfSuccessor(j / 4, k - 1);
    }
    NotAllThreesCons(j % 4, rest);
  }

  /** Counting up by one moves to a neighbouring point, when the walk through the lower
      levels ended in their exit corner and restarts in their entry corner: without a carry
      the two neighbouring quadrants meet there; with one, the exit corner of quadrant 3 and
      the entry corner of quadrant 0 are the next level's exit and entry corners. */
  lemma {:induction false} IncIsAdjacent(level: nat, ds: seq<nat>)
    requires IsDigits(ds) && !AllThrees(ds)
    ensures Adjacent(Lift(level, ds, Exit(level)), Lift(level, Inc(ds), Entry()))
    decreases |ds|
  {
    var n := Pow2(level);
    var es := Inc(ds);
    assert |ds| > 0;
    if ds[0] < 3 {
      assert es[0] == ds[0] + 1 && es[1..] == ds[1..];
      QuadrantsMeet(ds[0], n);
      LiftKeepsAdjacency(level + 1, ds[1..], Place(ds[0], n, Exit(level)), Place(ds[0] + 1, n, Entry()));
    } else {
      assert es[0] == 0 && es[1..] == Inc(ds[1..]);
      assert !AllThrees(ds[1..]) by {
        var i :| 0 <= i < |ds| && ds[i] != 3;
        assert ds[1..][i - 1] == ds[i];
      }
      assert Place(3, n, Exit(level)) == Exit(level + 1);
      assert Place(0, n, Entry()) == Entry();
      IncIsAdjacent(level + 1, ds[1..]);
    }
  }

  /** Consecutive points of the curve are neighbours: it is a continuous path through the square. */
  lemma CurveIsContinuous(k: nat, i: nat)
    requires i + 1 < Pow4(k)
    ensures Adjacent(Curve(k, i), Curve(k, i + 1))
  {
    DigitsOfSuccessor(i, k);
    IncIsAdjacent(0, Digits(i, k));
    assert Exit(0) == Entry();
    assert Curve(k, i) == Walk(Digits(i, k)) == Lift(0, Digits(i, k), Entry());
  }

  // ---------------------------------------------------------------------
  // The loop of `hilbert_prox_ind` in lib/hilbert.py

  /** `idx` with its `i` lowest base-4 digits dropped: `idx >> 2i`. */
  function Shift(idx: nat, i: nat): nat {
    if i == 0 then idx else Shift(idx, i - 1) / 4
  }

  /** Applying the lowest remaining level first. */
  lemma LiftStep(i: nat, q: nat, m: nat, p: Point)
    requires m >= 1 && p.x < Pow2(i) && p.y < Pow2(i)
    ensures Lift(i, Digits(q, m), p) == Lift(i + 1, Digits(q / 4, m - 1), Place(q % 4, Pow2(i), p))
  {
    assert Digits(q, m) == [q % 4] + Digits(q / 4, m - 1);
  }

  /** `hilbert_prox_ind(ordem, idx)`: the loop consumes two bits of `idx` per level,
      from the least significant up, placing the point built so far in the quadrant
      the next digit names. Order 0 is computed as order 1. */
  method HilbertPoint(ordem: nat, idx: nat) returns (x: nat, y: nat)
    ensures var k := if ordem == 0 then 1 else ordem;
      Point(x, y) == Curve(k, idx) && x < Pow2(k) && y < Pow2(k)
  {
    ghost var k := if ordem == 0 then 1 else ordem;
    x, y := FirstLevel(idx);
    LiftStep(0, idx, k, Point(0, 0));
    var q: nat := idx / 4;
    var i := 1;
    while i < ordem
      invariant 1 <= i <= k
      invariant x < Pow2(i) && y < Pow2(i)
      invariant Curve(k, idx) == Lift(i, Digits(q, k - i), Point(x, y))
    {
      var n := Pow2(i);
      LiftStep(i, q, k - i, Point(x, y));
      x, y := NextLevel(q % 4, n, x, y);
      q := q / 4;
      i := i + 1;
    }
  }

  /** One pass of the loop body: the point of the `n` square moved into quadrant `d`
      of the `2n` square, from where `Unplace` recovers it. */
  method NextLevel(d: nat, n: nat, x0: nat, y0: nat) returns (x: nat, y: nat)
    requires d < 4 && x0 < n && y0 < n
    ensures x < 2 * n && y < 2 * n && Quadrant(n, Point(x, y)) == d
    ensures Unplace(n, Point(x, y)) == Point(x0, y0)
    ensures Point(x, y) == Place(d, n, Point(x0, y0))
  {
    x, y := x0, y0;
    if d == 0 {
      x, y := y, x;
    } else if d == 1 {
      y := y + n;
    } else if d == 2 {
      x, y := x + n, y + n;
    } else {
      x, y := 2 * n - 1 - y, n - 1 - x;
    }
    UnplacePlace(d, n, Point(x0, y0));
  }

  /** The loop's first step, from the lowest digit alone: 0, 1, 2, 3 give
      (0, 0), (0, 1), (1, 1), (1, 0), the order-1 curve. */
  method FirstLevel(idx: nat) returns (x: nat, y: nat)
    ensures Point(x, y) == Place(idx % 4, 1, Point(0, 0))
  {
    x := if idx % 4 > 1 then 1 else 0;
    y := if (idx + 1) % 4 > 1 then 1 else 0;
    var q, r := idx / 4, idx % 4;
    assert idx == 4 * q + r;
    if r == 3 {
      assert idx + 1 == 4 * (q + 1) + 0;
    } else {
      assert idx + 1 == 4 * q + (r + 1);
    }
  }

  // ---------------------------------------------------------------------
  // log2

  /** Number of binary digits of `m`. */
  function BitLength(m: nat): nat {
    if m == 0 then 0 else 1 + BitLength(m / 2)
  }

  /** `m` has `BitLength(m)` binary digits: `2^(r-1) <= m < 2^r`. */
  lemma {:induction false} BitLengthBounds(m: nat)
    ensures Pow2(BitLength(m)) > m
    ensures BitLength(m) == 0 || Pow2(BitLength(m) - 1) <= m
    decreases m
  {
    if m > 0 {
      BitLengthBounds(m / 2);
    }
  }

  /** The smallest `r` with `2^r >= num` (0 for 0): `ceil(log2(num))`. */
  function CeilLog2(num: nat): nat {
    if num == 0 then 0 else BitLength(num - 1)
  }

  /** `2^r` covers `num` and `2^(r-1)` does not. */
  lemma CeilLog2Bounds(num: nat)
    ensures Pow2(CeilLog2(num)) >= num
    ensures CeilLog2(num) == 0 || Pow2(CeilLog2(num) - 1) < num
  {
    if num > 0 {
      BitLengthBounds(num - 1);
    }
  }

  /** No smaller exponent reaches `num`: `CeilLog2` is the least one. */
  lemma CeilLog2IsLeast(num: nat, e: nat)
    requires Pow2(e) >= num
    ensures CeilLog2(num) <= e
  {
    var r := CeilLog2(num);
    CeilLog2Bounds(num);
    if r > e {
      Pow2Monotonic(e, r - 1);
    }
  }

  lemma {:induction false} BitLengthBelowPow2(k: nat)
    ensures BitLength(Pow2(k) - 1) == k
    decreases k
  {
    if k > 0 {
      BitLengthBelowPow2(k - 1);
      assert (Pow2(k) - 1) / 2 == Pow2(k - 1) - 1;
    }
  }

  /** A power of two is its own covering power: `ceil(log2(2^k)) == k`. */
  lemma CeilLog2OfPow2(k: nat)
    ensures CeilLog2(Pow2(k)) == k
  {
    BitLengthBelowPow2(k);
  }

  /** `log2(num)`: halve `num - 1` until it reaches 0, counting the halvings. */
  method Log2(num: nat) returns (r: nat)
    ensures r == CeilLog2(num)
    ensures num == 0 ==> r == 0
    ensures num >= 1 ==> Pow2(r) >= num && (r == 0 || Pow2(r - 1) < num)
  {
    if num == 0 {
      return 0;
    }
    var i := 0;
    var m: nat := num - 1;
    while m > 0
      invariant BitLength(num - 1) == i + BitLength(m)
      decreases m
    {
      m := m / 2;
      i := i + 1;
    }
    CeilLog2Bounds(num);
    return i;
  }

  // ---------------------------------------------------------------------
  // direcao

  /** `direcao(x, ox, y, oy)`: the direction of the step from (ox, oy) to (x, y). A change of
      column decides it; with the column unchanged, only a smaller row is up, and anything else,
      including no move at all, is down. */
  function Direcao(x: nat, ox: nat, y: nat, oy: nat): (d: Dir)
    ensures x != ox ==> (d == Direita <==> x > ox) && (d == Esquerda <==> x < ox)
    ensures x == ox ==> (d == Cima <==> y < oy) && (d == Baixo <==> y >= oy)
  {
    if x > ox then Direita
    else if x < ox then Esquerda
    else if y < oy then Cima
    else Baixo
  }

  /** The unit step in direction `d`: right is +x, left -x, up -y, down +y. */
  function Move(o: Point, d: Dir): Point
    requires d == Esquerda ==> o.x >= 1
    requires d == Cima ==> o.y >= 1
  {
    match d
    case Direita => Point(o.x + 1, o.y)
    case Esquerda => Point(o.x - 1, o.y)
    case Cima => Point(o.x, o.y - 1)
    case Baixo => Point(o.x, o.y + 1)
  }

  /** `Direcao` names the unit step taken: it inverts `Move`. */
  lemma DirecaoOfMove(o: Point, d: Dir)
    requires d == Esquerda ==> o.x >= 1
    requires d == Cima ==> o.y >= 1
    ensures var p := Move(o, d); Direcao(p.x, o.x, p.y, o.y) == d
  {
  }

  /** Between neighbours, moving in the direction `Direcao` reports reaches the new point. */
  lemma MoveOfDirecao(p: Point, o: Point)
    requires Adjacent(p, o)
    ensures var d := Direcao(p.x, o.x, p.y, o.y);
      (d == Esquerda ==> o.x >= 1) && (d == Cima ==> o.y >= 1) && Move(o, d) == p
  {
  }
}
