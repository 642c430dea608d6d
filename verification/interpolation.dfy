/**
 * Sampling a staggered velocity component at an arbitrary point of the
 * domain: the clamped base indices (with Rust's `isize`/`usize` casts written
 * out), the fractional weights, the bilinear blend, and the clamped backtrace.
 *
 * `vel_x` holds `h` rows of `w + 1` x-faces (x-faces sit at integer x and at
 * half-integer y); `vel_y` is transposed and holds `w` rows of `h + 1` y-faces
 * (y-faces sit at half-integer x and at integer y).
 */
module Interpolation {
  import opened Fields

  /** `usize` is 64 bits wide: `v as usize` of a negative `isize` wraps modulo 2^64. */
  const USIZE_MODULUS: int := 0x1_0000_0000_0000_0000

  function AsUsize(v: int): (u: nat)
    requires v >= -0x8000_0000_0000_0000
    ensures v >= 0 ==> u == v
    ensures v < 0 ==> u >= USIZE_MODULUS / 2
  {
    if v < 0 then v + USIZE_MODULUS else v
  }

  function IMin(a: int, b: int): int { if a <= b then a else b }
  function IMax(a: int, b: int): int { if a >= b then a else b }
  function RMin(a: real, b: real): real { if a <= b then a else b }
  function RMax(a: real, b: real): real { if a >= b then a else b }

  /** `f.max(0).min(hi)` on `isize`: `hi` itself when `hi` is negative. */
  function ClampIndex(f: int, hi: int): int
  {
    IMin(IMax(f, 0), hi)
  }

  /** `x - x.floor()`: the fractional part of `x`. */
  function Frac(x: real): (r: real)
    ensures 0.0 <= r < 1.0
    ensures (x - r).Floor as real == x - r
  {
    x - x.Floor as real
  }

  /** Base indices (after the `as usize` cast) and blend weights of one interpolation. */
  datatype Stencil = Stencil(i: nat, j: nat, fx: real, fy: real)

  /** The x-stencil reads rows `j`, `j + 1` and column `i` of a `w + 1`-wide array. */
  predicate XStencilFits(w: nat, h: nat) { w >= 1 && h >= 2 }

  /** The y-stencil reads rows `i`, `i + 1` and column `j` of an `h + 1`-wide array. */
  predicate YStencilFits(w: nat, h: nat) { w >= 2 && h >= 1 }

  /**
   * Base indices of `interpolate_x_velocity`: `i` is `floor(x)` clamped to
   * `[0, w - 1]`, `j` is `floor(y - 0.5)` clamped to `[0, h - 2]`; a floor
   * below the range picks 0 and one above it picks the upper bound. For
   * `w == 0` or `h < 2` the upper clamp bound is negative, the clamp returns
   * it and the cast wraps it to just below 2^64, so the reads are in range for
   * every point exactly when the grid is large enough. The weights are the
   * fractional parts of `x` and `y - 0.5`.
   */
  function XStencil(w: nat, h: nat, x: real, y: real): (s: Stencil)
    ensures (s.i < w + 1 && s.j + 1 < h) <==> XStencilFits(w, h)
    ensures w >= 1 ==> s.i <= w - 1 && (0 <= x.Floor <= w - 1 ==> s.i == x.Floor)
    ensures h >= 2 ==> s.j <= h - 2 && (0 <= (y - 0.5).Floor <= h - 2 ==> s.j == (y - 0.5).Floor)
    ensures w >= 1 && x.Floor < 0 ==> s.i == 0
    ensures w >= 1 && x.Floor > w - 1 ==> s.i == w - 1
    ensures h >= 2 && (y - 0.5).Floor < 0 ==> s.j == 0
    ensures h >= 2 && (y - 0.5).Floor > h - 2 ==> s.j == h - 2
    ensures w == 0 ==> s.i == USIZE_MODULUS - 1
    ensures h < 2 ==> s.j == USIZE_MODULUS + h - 2
    ensures s.fx == Frac(x) && s.fy == Frac(y - 0.5)
    ensures 0.0 <= s.fx < 1.0 && 0.0 <= s.fy < 1.0
  {
    Stencil(AsUsize(ClampIndex(x.Floor, w - 1)), AsUsize(ClampIndex((y - 0.5).Floor, h - 2)),
            Frac(x), Frac(y - 0.5))
  }

  /**
   * Base indices of `interpolate_y_velocity`: `i` is `floor(x - 0.5)` clamped to
   * `[0, w - 2]`, `j` is `floor(y)` clamped to `[0, h - 1]`, with the same edge
   * and wrap behaviour; the reads are in range for every point exactly when
   * the grid is large enough. The weights are the fractional parts of
   * `x - 0.5` and `y`.
   */
  function YStencil(w: nat, h: nat, x: real, y: real): (s: Stencil)
    ensures (s.i + 1 < w && s.j < h + 1) <==> YStencilFits(w, h)
    ensures w >= 2 ==> s.i <= w - 2 && (0 <= (x - 0.5).Floor <= w - 2 ==> s.i == (x - 0.5).Floor)
    ensures h >= 1 ==> s.j <= h - 1 && (0 <= y.Floor <= h - 1 ==> s.j == y.Floor)
    ensures w >= 2 && (x - 0.5).Floor < 0 ==> s.i == 0
    ensures w >= 2 && (x - 0.5).Floor > w - 2 ==> s.i == w - 2
    ensures h >= 1 && y.Floor < 0 ==> s.j == 0
    ensures h >= 1 && y.Floor > h - 1 ==> s.j == h - 1
    ensures w < 2 ==> s.i == USIZE_MODULUS + w - 2
    ensures h == 0 ==> s.j == USIZE_MODULUS - 1
    ensures s.fx == Frac(x - 0.5) && s.fy == Frac(y)
    ensures 0.0 <= s.fx < 1.0 && 0.0 <= s.fy < 1.0
  {
    Stencil(AsUsize(ClampIndex((x - 0.5).Floor, w - 2)), AsUsize(ClampIndex(y.Floor, h - 1)),
            Frac(x - 0.5), Frac(y))
  }

  /** `a * (1 - t) + b * t`. */
  function Lerp(a: real, b: real, t: real): real
  {
    a * (1.0 - t) + b * t
  }

  /** A blend with a weight in `[0, 1]` stays inside any range holding both ends. */
  lemma LerpWithin(a: real, b: real, t: real, lo: real, hi: real)
    requires 0.0 <= t <= 1.0
    requires lo <= a <= hi && lo <= b <= hi
    ensures lo <= Lerp(a, b, t) <= hi
  {
    assert Lerp(a, b, t) - lo == (a - lo) * (1.0 - t) + (b - lo) * t;
    assert hi - Lerp(a, b, t) == (hi - a) * (1.0 - t) + (hi - b) * t;
    ProductNonNegative(a - lo, 1.0 - t);
    ProductNonNegative(b - lo, t);
    ProductNonNegative(hi - a, 1.0 - t);
    ProductNonNegative(hi - b, t);
  }

  lemma ProductNonNegative(p: real, q: real)
    requires p >= 0.0 && q >= 0.0
    ensures p * q >= 0.0
  {
  }

  /** Blending a sample with itself gives the sample back, whatever the weight. */
  lemma LerpSame(a: real, t: real)
    ensures Lerp(a, a, t) == a
  {
    assert a * (1.0 - t) + a * t == a * ((1.0 - t) + t);
  }

  /** The two-step blend of the source: along x in two rows, then along y. */
  function Bilinear(v00: real, v10: real, v01: real, v11: real, fx: real, fy: real): real
  {
    Lerp(Lerp(v00, v10, fx), Lerp(v01, v11, fx), fy)
  }

  /**
   * `interpolate_x_velocity`. The second column sample is taken at
   * `min(i, w - 1)`, which is `i` itself after clamping, so the blend along x
   * mixes a sample with itself and the result is a blend along y only.
   */
  function InterpolateX(w: nat, h: nat, x: real, y: real, vel: seq<seq<real>>): (r: real)
    requires XStencilFits(w, h) && Shaped(vel, h, w + 1)
    ensures var s := XStencil(w, h, x, y);
      s.i < w && s.j + 1 < h && r == Lerp(vel[s.j][s.i], vel[s.j + 1][s.i], s.fy)
  {
    var s := XStencil(w, h, x, y);
    var col := IMin(s.i, w - 1);
    LerpSame(vel[s.j][s.i], s.fx);
    LerpSame(vel[s.j + 1][s.i], s.fx);
    Bilinear(vel[s.j][s.i], vel[s.j][col], vel[s.j + 1][s.i], vel[s.j + 1][col], s.fx, s.fy)
  }

  /**
   * `interpolate_y_velocity`. The second row sample is taken at
   * `min(j, h - 1)`, which is `j` itself after clamping, so the result is a
   * blend along x only.
   */
  function InterpolateY(w: nat, h: nat, x: real, y: real, vel: seq<seq<real>>): (r: real)
    requires YStencilFits(w, h) && Shaped(vel, w, h + 1)
    ensures var s := YStencil(w, h, x, y);
      s.i + 1 < w && s.j < h && r == Lerp(vel[s.i][s.j], vel[s.i + 1][s.j], s.fx)
  {
    var s := YStencil(w, h, x, y);
    var row := IMin(s.j, h - 1);
    LerpSame(Lerp(vel[s.i][s.j], vel[s.i + 1][s.j], s.fx), s.fy);
    Bilinear(vel[s.i][s.j], vel[s.i + 1][s.j], vel[s.i][row], vel[s.i + 1][row], s.fx, s.fy)
  }

  /** An interpolated x-velocity never leaves the range of the stored x-faces. */
  lemma InterpolateXWithin(w: nat, h: nat, x: real, y: real, vel: seq<seq<real>>, lo: real, hi: real)
    requires XStencilFits(w, h) && Shaped(vel, h, w + 1) && Bounded(vel, lo, hi)
    ensures lo <= InterpolateX(w, h, x, y, vel) <= hi
  {
    var s := XStencil(w, h, x, y);
    LerpWithin(vel[s.j][s.i], vel[s.j + 1][s.i], s.fy, lo, hi);
  }

  /** An interpolated y-velocity never leaves the range of the stored y-faces. */
  lemma InterpolateYWithin(w: nat, h: nat, x: real, y: real, vel: seq<seq<real>>, lo: real, hi: real)
    requires YStencilFits(w, h) && Shaped(vel, w, h + 1) && Bounded(vel, lo, hi)
    ensures lo <= InterpolateY(w, h, x, y, vel) <= hi
  {
    var s := YStencil(w, h, x, y);
    LerpWithin(vel[s.i][s.j], vel[s.i + 1][s.j], s.fx, lo, hi);
  }

  /** A constant x-face array interpolates to that constant everywhere. */
  lemma InterpolateXConstant(w: nat, h: nat, x: real, y: real, vel: seq<seq<real>>, c: real)
    requires XStencilFits(w, h) && Shaped(vel, h, w + 1) && Bounded(vel, c, c)
    ensures InterpolateX(w, h, x, y, vel) == c
  {
    InterpolateXWithin(w, h, x, y, vel, c, c);
  }

  /** A constant y-face array interpolates to that constant everywhere. */
  lemma InterpolateYConstant(w: nat, h: nat, x: real, y: real, vel: seq<seq<real>>, c: real)
    requires YStencilFits(w, h) && Shaped(vel, w, h + 1) && Bounded(vel, c, c)
    ensures InterpolateY(w, h, x, y, vel) == c
  {
    InterpolateYWithin(w, h, x, y, vel, c, c);
  }

  /** Within one cell column the x-interpolation does not depend on where in x the point lies. */
  lemma InterpolateXIgnoresFx(w: nat, h: nat, x: real, x': real, y: real, vel: seq<seq<real>>)
    requires XStencilFits(w, h) && Shaped(vel, h, w + 1)
    requires x.Floor == x'.Floor
    ensures InterpolateX(w, h, x, y, vel) == InterpolateX(w, h, x', y, vel)
  {
  }

  /** Within one cell row the y-interpolation does not depend on where in y the point lies. */
  lemma InterpolateYIgnoresFy(w: nat, h: nat, x: real, y: real, y': real, vel: seq<seq<real>>)
    requires YStencilFits(w, h) && Shaped(vel, w, h + 1)
    requires y.Floor == y'.Floor
    ensures InterpolateY(w, h, x, y, vel) == InterpolateY(w, h, x, y', vel)
  {
  }

  /**
   * The y-weight comes from the unclamped floor, so at the centre of a face in
   * the top row the clamp moves the stencil down one row while the weight is
   * zero: the result is the face of the row below, not the face itself.
   */
  lemma InterpolateXTopFace(w: nat, h: nat, i: nat, vel: seq<seq<real>>)
    requires XStencilFits(w, h) && Shaped(vel, h, w + 1) && i < w
    ensures InterpolateX(w, h, i as real, h as real - 0.5, vel) == vel[h - 2][i]
  {
    var y := h as real - 0.5;
    assert y - 0.5 == (h - 1) as real;
    assert (y - 0.5).Floor == h - 1;
    assert Frac(y - 0.5) == 0.0;
    assert (i as real).Floor == i;
  }

  /**
   * Below the centre of the first row the clamp keeps `j == 0` while the
   * weight is the fraction of the negative `y - 0.5`: at `y == 0.25` the
   * result leans three quarters towards the second row.
   */
  lemma InterpolateXBelowFirstRow(w: nat, h: nat, i: nat, vel: seq<seq<real>>)
    requires XStencilFits(w, h) && Shaped(vel, h, w + 1) && i < w
    ensures InterpolateX(w, h, i as real, 0.25, vel) == 0.25 * vel[0][i] + 0.75 * vel[1][i]
  {
    assert (0.25 - 0.5).Floor == -1;
    assert Frac(0.25 - 0.5) == 0.75;
    assert (i as real).Floor == i;
  }

  /**
   * `interpolate_velocity`: both components at one point, each inside the
   * range of its own face array.
   */
  function InterpolateVelocity(w: nat, h: nat, x: real, y: real,
                               velX: seq<seq<real>>, velY: seq<seq<real>>): (uv: (real, real))
    requires XStencilFits(w, h) && YStencilFits(w, h)
    requires Shaped(velX, h, w + 1) && Shaped(velY, w, h + 1)
    ensures forall lo, hi :: Bounded(velX, lo, hi) ==> lo <= uv.0 <= hi
    ensures forall lo, hi :: Bounded(velY, lo, hi) ==> lo <= uv.1 <= hi
  {
    var u := InterpolateX(w, h, x, y, velX);
    var v := InterpolateY(w, h, x, y, velY);
    assert forall lo, hi :: Bounded(velX, lo, hi) ==> lo <= u <= hi by {
      forall lo, hi | Bounded(velX, lo, hi)
        ensures lo <= u <= hi
      {
        InterpolateXWithin(w, h, x, y, velX, lo, hi);
      }
    }
    assert forall lo, hi :: Bounded(velY, lo, hi) ==> lo <= v <= hi by {
      forall lo, hi | Bounded(velY, lo, hi)
        ensures lo <= v <= hi
      {
        InterpolateYWithin(w, h, x, y, velY, lo, hi);
      }
    }
    (u, v)
  }

  /**
   * One backtraced coordinate: `(p - dt * u).max(0.0).min(limit)`, the
   * nearest point of `[0, limit]` to where the sample came from.
   */
  function Trace(p: real, dt: real, u: real, limit: real): (t: real)
    requires limit >= 0.0
    ensures 0.0 <= t <= limit
    ensures 0.0 <= p - dt * u <= limit ==> t == p - dt * u
    ensures p - dt * u < 0.0 ==> t == 0.0
    ensures p - dt * u > limit ==> t == limit
  {
    RMin(RMax(p - dt * u, 0.0), limit)
  }

  /** With no velocity a point inside the domain traces back to itself. */
  lemma TraceAtRest(p: real, dt: real, limit: real)
    requires 0.0 <= p <= limit
    ensures Trace(p, dt, 0.0, limit) == p
  {
  }
}
