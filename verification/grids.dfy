/**
  Row-major matrices as sequences of rows, and the numpy slicing
  operations the kernel rotations are built from: reversing the rows
  (`m[::-1]`), reversing every row (`m[:, ::-1]`) and transposing (`m.T`).
  Also the flattening of a matrix into its entries, with the facts that
  the rearrangements keep the multiset of entries and therefore the sum.
 */
module Grids {

  /** A value that may be absent, as Python's `Optional`. */
  datatype Option<T> = None | Some(value: T)

  /** The value of an operation, or the exception it raises. */
  datatype Result<T, E> = Ok(value: T) | Raise(error: E)

  /** `g` has exactly `h` rows of exactly `w` cells each. */
  predicate IsGrid<T>(g: seq<seq<T>>, h: nat, w: nat) {
    |g| == h && forall i :: 0 <= i < h ==> |g[i]| == w
  }

  /** Width of a matrix: the length of its first row (0 when it has no rows). */
  function Cols<T>(g: seq<seq<T>>): nat {
    if |g| == 0 then 0 else |g[0]|
  }

  /** Every row has the width of the first one, as for a numpy 2-D array. */
  predicate Rectangular<T>(g: seq<seq<T>>) {
    forall i :: 0 <= i < |g| ==> |g[i]| == Cols(g)
  }

  /** Two grids of the same shape that agree on every cell are equal. */
  lemma GridExt<T>(a: seq<seq<T>>, b: seq<seq<T>>, h: nat, w: nat)
    requires IsGrid(a, h, w) && IsGrid(b, h, w)
    requires forall i, j :: 0 <= i < h && 0 <= j < w ==> a[i][j] == b[i][j]
    ensures a == b
  {
    forall i | 0 <= i < h
      ensures a[i] == b[i]
    {
      assert forall j :: 0 <= j < w ==> a[i][j] == b[i][j];
    }
  }

  /** `s[::-1]`. */
  function Reverse<T>(s: seq<T>): (r: seq<T>)
    ensures |r| == |s|
    ensures forall i :: 0 <= i < |s| ==> r[i] == s[|s| - 1 - i]
  {
    if |s| == 0 then [] else Reverse(s[1..]) + [s[0]]
  }

  /** `m[:, ::-1]`: every row reversed, the rows kept in place. */
  function ReverseEach<T>(m: seq<seq<T>>): (r: seq<seq<T>>)
    ensures |r| == |m|
    ensures forall i :: 0 <= i < |m| ==> r[i] == Reverse(m[i])
  {
    if |m| == 0 then [] else ReverseEach(m[..|m| - 1]) + [Reverse(m[|m| - 1])]
  }

  /** `m.T` of a matrix whose rows all have `w` cells; the result is `w` by `|m|`. */
  function Transpose<T>(m: seq<seq<T>>, w: nat): (r: seq<seq<T>>)
    requires forall i :: 0 <= i < |m| ==> |m[i]| == w
    ensures IsGrid(r, w, |m|)
    ensures forall i, j :: 0 <= i < w && 0 <= j < |m| ==> r[i][j] == m[j][i]
  {
    if |m| == 0 then seq(w, i => [])
    else
      var t := Transpose(m[..|m| - 1], w);
      seq(w, i requires 0 <= i < w => t[i] + [m[|m| - 1][i]])
  }

  /** The entries of a matrix in row-major order. */
  function Flatten<T>(m: seq<seq<T>>): seq<T> {
    if |m| == 0 then [] else Flatten(m[..|m| - 1]) + m[|m| - 1]
  }

  /** The multiset of the entries of a matrix. */
  function Entries<T>(m: seq<seq<T>>): multiset<T> {
    multiset(Flatten(m))
  }

  lemma {:induction false} FlattenAppend<T>(a: seq<seq<T>>, b: seq<seq<T>>)
    ensures Flatten(a + b) == Flatten(a) + Flatten(b)
    decreases |b|
  {
    if |b| == 0 {
      assert a + b == a;
    } else {
      var n := |b| - 1;
      assert (a + b)[..|a + b| - 1] == a + b[..n];
      FlattenAppend(a, b[..n]);
      assert b[..n] + [b[n]] == b;
      assert Flatten(b) == Flatten(b[..n]) + b[n];
    }
  }

  lemma {:induction false} ReversePreservesMultiset<T>(s: seq<T>)
    ensures multiset(Reverse(s)) == multiset(s)
    decreases |s|
  {
    if |s| > 0 {
      ReversePreservesMultiset(s[1..]);
      assert s == [s[0]] + s[1..];
    }
  }

  /** Reversing the row order keeps the entries. */
  lemma {:induction false} ReverseRowsPreservesEntries<T>(m: seq<seq<T>>)
    ensures Entries(Reverse(m)) == Entries(m)
    decreases |m|
  {
    if |m| > 0 {
      ReverseRowsPreservesEntries(m[1..]);
      FlattenAppend(Reverse(m[1..]), [m[0]]);
      assert Flatten([m[0]]) == Flatten([m[0]][..0]) + m[0];
      assert m == [m[0]] + m[1..];
      FlattenAppend([m[0]], m[1..]);
    }
  }

  /** Reversing every row keeps the entries. */
  lemma {:induction false} ReverseEachPreservesEntries<T>(m: seq<seq<T>>)
    ensures Entries(ReverseEach(m)) == Entries(m)
    decreases |m|
  {
    if |m| > 0 {
      var n := |m| - 1;
      ReverseEachPreservesEntries(m[..n]);
      ReversePreservesMultiset(m[n]);
      var r := ReverseEach(m);
      assert r[..n] == ReverseEach(m[..n]);
      assert Flatten(r) == Flatten(r[..n]) + r[n];
    }
  }

  /** Adding one cell at the end of every row adds those cells to the entries. */
  lemma {:induction false} AppendColumnEntries<T>(a: seq<seq<T>>, c: seq<T>, b: seq<seq<T>>)
    requires |a| == |c| == |b|
    requires forall i :: 0 <= i < |a| ==> b[i] == a[i] + [c[i]]
    ensures Entries(b) == Entries(a) + multiset(c)
    decreases |a|
  {
    if |a| > 0 {
      var n := |a| - 1;
      AppendColumnEntries(a[..n], c[..n], b[..n]);
      assert c[..n] + [c[n]] == c;
      assert Flatten(b) == Flatten(b[..n]) + b[n];
      assert Flatten(a) == Flatten(a[..n]) + a[n];
    }
  }

  /** Transposing keeps the entries. */
  lemma {:induction false} TransposePreservesEntries<T>(m: seq<seq<T>>, w: nat)
    requires forall i :: 0 <= i < |m| ==> |m[i]| == w
    ensures Entries(Transpose(m, w)) == Entries(m)
    decreases |m|
  {
    if |m| == 0 {
      var t := Transpose(m, w);
      EmptyRowsFlatten(t);
    } else {
      var n := |m| - 1;
      TransposePreservesEntries(m[..n], w);
      AppendColumnEntries(Transpose(m[..n], w), m[n], Transpose(m, w));
    }
  }

  lemma {:induction false} EmptyRowsFlatten<T>(t: seq<seq<T>>)
    requires forall i :: 0 <= i < |t| ==> t[i] == []
    ensures Flatten(t) == []
    decreases |t|
  {
    if |t| > 0 {
      EmptyRowsFlatten(t[..|t| - 1]);
    }
  }

  /** Sum of a sequence of reals, adding from the front as `np.sum` does in exact arithmetic. */
  function Sum(s: seq<real>): real {
    if |s| == 0 then 0.0 else Sum(s[..|s| - 1]) + s[|s| - 1]
  }

  /** Sum of all entries of a matrix. */
  function Total(m: seq<seq<real>>): real {
    Sum(Flatten(m))
  }

  lemma {:induction false} SumAppend(a: seq<real>, b: seq<real>)
    ensures Sum(a + b) == Sum(a) + Sum(b)
    decreases |b|
  {
    if |b| == 0 {
      assert a + b == a;
    } else {
      var n := |b| - 1;
      assert (a + b)[..|a + b| - 1] == a + b[..n];
      SumAppend(a, b[..n]);
    }
  }

  /** The sum depends only on the multiset of the summands. */
  lemma {:induction false} SumPermutation(a: seq<real>, b: seq<real>)
    requires multiset(a) == multiset(b)
    ensures Sum(a) == Sum(b)
    decreases |a|
  {
    if |a| == 0 {
      assert |b| == |multiset(b)| == 0;
    } else {
      var n := |a| - 1;
      var v := a[n];
      assert a == a[..n] + [v];
      assert v in multiset(b);
      var k :| 0 <= k < |b| && b[k] == v;
      var rest := b[..k] + b[k + 1..];
      assert b == b[..k] + [v] + b[k + 1..];
      assert multiset(rest) == multiset(b) - multiset{v};
      assert multiset(a[..n]) == multiset(a) - multiset{v};
      SumPermutation(a[..n], rest);
      SumAppend(b[..k] + [v], b[k + 1..]);
      SumAppend(b[..k], [v]);
      SumAppend(b[..k], b[k + 1..]);
      assert Sum([v]) == Sum([v][..0]) + v;
    }
  }

  /** Matrices with the same entries have the same total. */
  lemma SameEntriesSameTotal(m1: seq<seq<real>>, m2: seq<seq<real>>)
    requires Entries(m1) == Entries(m2)
    ensures Total(m1) == Total(m2)
  {
    SumPermutation(Flatten(m1), Flatten(m2));
  }
}
