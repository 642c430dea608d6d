/**
 * The semi-Lagrangian advection step as values: what `advect(dt)` stores in
 * each face, computed only from the snapshots `ox` (old `vel_x`) and `oy`
 * (old `vel_y`) taken before the step.
 */
module Advection {
  import opened Fields
  import opened Interpolation

  /**
   * `advect` indexes in range exactly when each of its two loops either runs
   * no iteration or runs with both stencils fitting (every iteration samples
   * both components). The x-face loop runs when `h >= 1 && w >= 2`, the
   * y-face loop when `w >= 1 && h >= 2`; so it fails on a `1 x n` or `n x 1`
   * grid with `n >= 2`.
   */
  predicate AdvectSafe(w: nat, h: nat)
  {
    ((h >= 1 && w >= 2) || (w >= 1 && h >= 2)) ==> XStencilFits(w, h) && YStencilFits(w, h)
  }

  /** New value of the interior x-face `(i, j)`: sample `ox` where the face centre came from. */
  function XFaceValue(w: nat, h: nat, dt: real, ox: seq<seq<real>>, oy: seq<seq<real>>, i: nat, j: nat): real
    requires XStencilFits(w, h) && YStencilFits(w, h)
    requires Shaped(ox, h, w + 1) && Shaped(oy, w, h + 1)
  {
    var posX := i as real;
    var posY := j as real + 0.5;
    var uv := InterpolateVelocity(w, h, posX, posY, ox, oy);
    InterpolateX(w, h, Trace(posX, dt, uv.0, w as real), Trace(posY, dt, uv.1, h as real), ox)
  }

  /** New value of the interior y-face `(i, j)`: sample `oy` where the face centre came from. */
  function YFaceValue(w: nat, h: nat, dt: real, ox: seq<seq<real>>, oy: seq<seq<real>>, i: nat, j: nat): real
    requires XStencilFits(w, h) && YStencilFits(w, h)
    requires Shaped(ox, h, w + 1) && Shaped(oy, w, h + 1)
  {
    var posX := i as real + 0.5;
    var posY := j as real;
    var uv := InterpolateVelocity(w, h, posX, posY, ox, oy);
    InterpolateY(w, h, Trace(posX, dt, uv.0, w as real), Trace(posY, dt, uv.1, h as real), oy)
  }

  /** Row `j` of `vel_x` after the x-face loop: faces `1 <= i < w` retraced, the walls kept. */
  function AdvectedXRow(w: nat, h: nat, dt: real, ox: seq<seq<real>>, oy: seq<seq<real>>, j: nat): seq<real>
    requires AdvectSafe(w, h) && j < h
    requires Shaped(ox, h, w + 1) && Shaped(oy, w, h + 1)
  {
    seq(w + 1, i requires 0 <= i <= w =>
      if 1 <= i < w then XFaceValue(w, h, dt, ox, oy, i, j) else ox[j][i])
  }

  /** Row `i` of `vel_y` after the y-face loop: faces `1 <= j < h` retraced, the walls kept. */
  function AdvectedYRow(w: nat, h: nat, dt: real, ox: seq<seq<real>>, oy: seq<seq<real>>, i: nat): seq<real>
    requires AdvectSafe(w, h) && i < w
    requires Shaped(ox, h, w + 1) && Shaped(oy, w, h + 1)
  {
    seq(h + 1, j requires 0 <= j <= h =>
      if 1 <= j < h then YFaceValue(w, h, dt, ox, oy, i, j) else oy[i][j])
  }

  /**
   * `vel_x` after both trace loops of `advect` (before the boundary call):
   * same shape, the wall faces `i == 0` and `i == w` untouched, every interior
   * face a function of the snapshots only.
   */
  function AdvectedX(w: nat, h: nat, dt: real, ox: seq<seq<real>>, oy: seq<seq<real>>): (nx: seq<seq<real>>)
    requires AdvectSafe(w, h)
    requires Shaped(ox, h, w + 1) && Shaped(oy, w, h + 1)
    ensures Shaped(nx, h, w + 1)
    ensures forall j :: 0 <= j < h ==> nx[j][0] == ox[j][0] && nx[j][w] == ox[j][w]
    ensures forall j, i :: 0 <= j < h && 1 <= i < w ==> nx[j][i] == XFaceValue(w, h, dt, ox, oy, i, j)
  {
    seq(h, j requires 0 <= j < h => AdvectedXRow(w, h, dt, ox, oy, j))
  }

  /**
   * `vel_y` after both trace loops of `advect` (before the boundary call):
   * same shape, the wall faces `j == 0` and `j == h` untouched, every interior
   * face a function of the snapshots only.
   */
  function AdvectedY(w: nat, h: nat, dt: real, ox: seq<seq<real>>, oy: seq<seq<real>>): (ny: seq<seq<real>>)
    requires AdvectSafe(w, h)
    requires Shaped(ox, h, w + 1) && Shaped(oy, w, h + 1)
    ensures Shaped(ny, w, h + 1)
    ensures forall i :: 0 <= i < w ==> ny[i][0] == oy[i][0] && ny[i][h] == oy[i][h]
    ensures forall i, j :: 0 <= i < w && 1 <= j < h ==> ny[i][j] == YFaceValue(w, h, dt, ox, oy, i, j)
  {
    seq(w, i requires 0 <= i < w => AdvectedYRow(w, h, dt, ox, oy, i))
  }

  /**
   * Maximum principle of the x-face trace loop: every new x-face lies in any
   * range that holds all the old x-faces, whatever `dt` and `vel_y` are.
   */
  lemma AdvectedXWithin(w: nat, h: nat, dt: real, ox: seq<seq<real>>, oy: seq<seq<real>>, lo: real, hi: real)
    requires AdvectSafe(w, h)
    requires Shaped(ox, h, w + 1) && Shaped(oy, w, h + 1)
    requires Bounded(ox, lo, hi)
    ensures Bounded(AdvectedX(w, h, dt, ox, oy), lo, hi)
  {
    var nx := AdvectedX(w, h, dt, ox, oy);
    forall j, i | 0 <= j < |nx| && 0 <= i < |nx[j]|
      ensures lo <= nx[j][i] <= hi
    {
      if 1 <= i < w {
        var posX := i as real;
        var posY := j as real + 0.5;
        var uv := InterpolateVelocity(w, h, posX, posY, ox, oy);
        InterpolateXWithin(w, h, Trace(posX, dt, uv.0, w as real), Trace(posY, dt, uv.1, h as real), ox, lo, hi);
      }
    }
  }

  /**
   * Maximum principle of the y-face trace loop: every new y-face lies in any
   * range that holds all the old y-faces, whatever `dt` and `vel_x` are.
   */
  lemma AdvectedYWithin(w: nat, h: nat, dt: real, ox: seq<seq<real>>, oy: seq<seq<real>>, lo: real, hi: real)
    requires AdvectSafe(w, h)
    requires Shaped(ox, h, w + 1) && Shaped(oy, w, h + 1)
    requires Bounded(oy, lo, hi)
    ensures Bounded(AdvectedY(w, h, dt, ox, oy), lo, hi)
  {
    var ny := AdvectedY(w, h, dt, ox, oy);
    forall i, j | 0 <= i < |ny| && 0 <= j < |ny[i]|
      ensures lo <= ny[i][j] <= hi
    {
      if 1 <= j < h {
        var posX := i as real + 0.5;
        var posY := j as real;
        var uv := InterpolateVelocity(w, h, posX, posY, ox, oy);
        InterpolateYWithin(w, h, Trace(posX, dt, uv.0, w as real), Trace(posY, dt, uv.1, h as real), oy, lo, hi);
      }
    }
  }

  /**
   * The whole advection step, boundary call included, keeps each velocity
   * component inside any range that holds zero and that component's own old
   * values; the other component only steers the backtrace.
   */
  lemma AdvectStepWithin(w: nat, h: nat, dt: real, ox: seq<seq<real>>, oy: seq<seq<real>>,
                         loX: real, hiX: real, loY: real, hiY: real)
    requires AdvectSafe(w, h)
    requires Shaped(ox, h, w + 1) && Shaped(oy, w, h + 1)
    requires loX <= 0.0 <= hiX && Bounded(ox, loX, hiX)
    requires loY <= 0.0 <= hiY && Bounded(oy, loY, hiY)
    ensures Bounded(ZeroEnds(AdvectedX(w, h, dt, ox, oy), w), loX, hiX)
    ensures Bounded(ZeroEnds(AdvectedY(w, h, dt, ox, oy), h), loY, hiY)
  {
    AdvectedXWithin(w, h, dt, ox, oy, loX, hiX);
    AdvectedYWithin(w, h, dt, ox, oy, loY, hiY);
    ZeroEndsBounded(AdvectedX(w, h, dt, ox, oy), w, loX, hiX);
    ZeroEndsBounded(AdvectedY(w, h, dt, ox, oy), h, loY, hiY);
  }

  /** A fluid at rest stays at rest: advecting all-zero faces gives all-zero faces, for any `dt`. */
  lemma AdvectAtRest(w: nat, h: nat, dt: real)
    requires AdvectSafe(w, h)
    ensures ZeroEnds(AdvectedX(w, h, dt, Zeros(h, w + 1), Zeros(w, h + 1)), w) == Zeros(h, w + 1)
    ensures ZeroEnds(AdvectedY(w, h, dt, Zeros(h, w + 1), Zeros(w, h + 1)), h) == Zeros(w, h + 1)
  {
    var ox, oy := Zeros(h, w + 1), Zeros(w, h + 1);
    AdvectStepWithin(w, h, dt, ox, oy, 0.0, 0.0, 0.0, 0.0);
    var nx := ZeroEnds(AdvectedX(w, h, dt, ox, oy), w);
    var ny := ZeroEnds(AdvectedY(w, h, dt, ox, oy), h);
    forall j | 0 <= j < h
      ensures nx[j] == ox[j]
    {
      assert forall i :: 0 <= i <= w ==> nx[j][i] == 0.0 == ox[j][i];
    }
    forall i | 0 <= i < w
      ensures ny[i] == oy[i]
    {
      assert forall j :: 0 <= j <= h ==> ny[i][j] == 0.0 == oy[i][j];
    }
  }
}
