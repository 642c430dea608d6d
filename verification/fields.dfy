/**
 * Two-dimensional sample fields as the grid stores them: a sequence of rows,
 * each a sequence of samples (the `Vec<Vec<f32>>` members of `Grid`), with the
 * samples modelled as reals.
 */
module Fields {

  /** `f` has exactly `rows` rows of `cols` samples each. */
  predicate Shaped(f: seq<seq<real>>, rows: nat, cols: nat)
  {
    |f| == rows && forall r :: 0 <= r < rows ==> |f[r]| == cols
  }

  /** Every sample of `f` lies in the closed interval `[lo, hi]`. */
  predicate Bounded(f: seq<seq<real>>, lo: real, hi: real)
  {
    forall r, c :: 0 <= r < |f| && 0 <= c < |f[r]| ==> lo <= f[r][c] <= hi
  }

  /** The first and the last sample of every row are zero: the no-flow walls. */
  predicate WallsZero(f: seq<seq<real>>, last: nat)
    requires Shaped(f, |f|, last + 1)
  {
    forall r :: 0 <= r < |f| ==> f[r][0] == 0.0 && f[r][last] == 0.0
  }

  /** `vec![vec![0.0; cols]; rows]`: every sample of the result is zero. */
  function Zeros(rows: nat, cols: nat): (f: seq<seq<real>>)
    ensures Shaped(f, rows, cols)
    ensures Bounded(f, 0.0, 0.0)
  {
    seq(rows, _ => seq(cols, _ => 0.0))
  }

  /**
   * Every row with its first sample and its sample at index `last` set to
   * zero, everything else kept: what the boundary routine does to a face array.
   */
  function ZeroEnds(f: seq<seq<real>>, last: nat): (g: seq<seq<real>>)
    requires Shaped(f, |f|, last + 1)
    ensures Shaped(g, |f|, last + 1)
    ensures WallsZero(g, last)
    ensures forall r, c :: 0 <= r < |f| && 0 < c < last ==> g[r][c] == f[r][c]
  {
    seq(|f|, r requires 0 <= r < |f| => f[r][0 := 0.0][last := 0.0])
  }

  /** Zeroing the walls twice is zeroing them once. */
  lemma ZeroEndsIdempotent(f: seq<seq<real>>, last: nat)
    requires Shaped(f, |f|, last + 1)
    ensures ZeroEnds(ZeroEnds(f, last), last) == ZeroEnds(f, last)
  {
    var g := ZeroEnds(f, last);
    var gg := ZeroEnds(g, last);
    forall r | 0 <= r < |f|
      ensures gg[r] == g[r]
    {
      assert g[r][0 := 0.0][last := 0.0] == g[r];
    }
  }

  /** Zeroing the walls changes nothing exactly when the walls are already zero. */
  lemma ZeroEndsFixedPoint(f: seq<seq<real>>, last: nat)
    requires Shaped(f, |f|, last + 1)
    ensures ZeroEnds(f, last) == f <==> WallsZero(f, last)
  {
    if WallsZero(f, last) {
      forall r | 0 <= r < |f|
        ensures ZeroEnds(f, last)[r] == f[r]
      {
        assert f[r][0 := 0.0][last := 0.0] == f[r];
      }
    }
  }

  /** Zeroing the walls keeps every sample inside a range that contains zero. */
  lemma ZeroEndsBounded(f: seq<seq<real>>, last: nat, lo: real, hi: real)
    requires Shaped(f, |f|, last + 1)
    requires Bounded(f, lo, hi) && lo <= 0.0 <= hi
    ensures Bounded(ZeroEnds(f, last), lo, hi)
  {
    var g := ZeroEnds(f, last);
    forall r, c | 0 <= r < |g| && 0 <= c < |g[r]|
      ensures lo <= g[r][c] <= hi
    {
      if 0 < c < last {
        assert g[r][c] == f[r][c];
      }
    }
  }

  /** `f[r][c] += d`: one sample changes by `d`, no other sample changes. */
  function AddAt(f: seq<seq<real>>, r: nat, c: nat, d: real): (g: seq<seq<real>>)
    requires r < |f| && c < |f[r]|
    ensures |g| == |f| && forall k :: 0 <= k < |f| ==> |g[k]| == |f[k]|
    ensures g[r][c] == f[r][c] + d
    ensures forall k, m :: 0 <= k < |f| && 0 <= m < |f[k]| && (k != r || m != c) ==> g[k][m] == f[k][m]
  {
    f[r := f[r][c := f[r][c] + d]]
  }

  /** A nonzero change to a wall sample (the first or the last of its row) breaks the no-flow walls. */
  lemma AddAtWallBreaksWalls(f: seq<seq<real>>, last: nat, r: nat, c: nat, d: real)
    requires Shaped(f, |f|, last + 1) && WallsZero(f, last)
    requires r < |f| && (c == 0 || c == last) && d != 0.0
    ensures Shaped(AddAt(f, r, c, d), |f|, last + 1)
    ensures !WallsZero(AddAt(f, r, c, d), last)
  {
    assert AddAt(f, r, c, d)[r][c] == d;
  }

  /** A change to a sample strictly between the walls keeps them zero. */
  lemma AddAtInteriorKeepsWalls(f: seq<seq<real>>, last: nat, r: nat, c: nat, d: real)
    requires Shaped(f, |f|, last + 1) && WallsZero(f, last)
    requires r < |f| && 0 < c < last
    ensures Shaped(AddAt(f, r, c, d), |f|, last + 1)
    ensures WallsZero(AddAt(f, r, c, d), last)
  {
    var g := AddAt(f, r, c, d);
    forall k | 0 <= k < |f|
      ensures g[k][0] == 0.0 && g[k][last] == 0.0
    {
      assert g[k][0] == f[k][0] && g[k][last] == f[k][last];
    }
  }
}
