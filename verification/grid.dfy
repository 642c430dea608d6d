/**
 * The staggered (MAC) velocity grid that the simulation mutates in place
 * every frame: construction, the read-only cell diagnostics, boundary
 * enforcement, the advection step, the per-frame update and impulse
 * injection.
 */
module FluidGrid {
  import opened Fields
  import opened Interpolation
  import opened Advection

  class Grid {
    /** Number of cells across and down; never changed after construction. */
    const width: nat
    const height: nat
    /** Cell-centre scalars, `height` rows of `width`; never written after construction. */
    var pressure: seq<seq<real>>
    var density: seq<seq<real>>
    /** x-velocity on vertical faces: `height` rows of `width + 1`, indexed `[y][x]`. */
    var velX: seq<seq<real>>
    /** y-velocity on horizontal faces, transposed: `width` rows of `height + 1`, indexed `[x][y]`. */
    var velY: seq<seq<real>>

    /** The four arrays have the shapes of the staggered layout. */
    ghost predicate Valid()
      reads this
    {
      && Shaped(pressure, height, width)
      && Shaped(density, height, width)
      && Shaped(velX, height, width + 1)
      && Shaped(velY, width, height + 1)
    }

    /** No fluid crosses the domain walls: every boundary face is zero. */
    ghost predicate ClosedBox()
      reads this
      requires Valid()
    {
      WallsZero(velX, width) && WallsZero(velY, height)
    }

    /** `Grid::new`: all four arrays at their fixed shapes, every sample zero. */
    constructor (width: nat, height: nat)
      ensures Valid()
      ensures this.width == width && this.height == height
      ensures pressure == Zeros(height, width) && density == Zeros(height, width)
      ensures velX == Zeros(height, width + 1) && velY == Zeros(width, height + 1)
    {
      this.width := width;
      this.height := height;
      pressure := Zeros(height, width);
      density := Zeros(height, width);
      velX := Zeros(height, width + 1);
      velY := Zeros(width, height + 1);
    }

    /**
     * `get_center_vel`: the velocity at the centre of cell `(i, j)`, each
     * component halfway between the two faces of the cell that carry it.
     */
    function GetCenterVel(i: nat, j: nat): (c: (real, real))
      reads this
      requires Valid() && i < width && j < height
      ensures c.0 - velX[j][i] == velX[j][i + 1] - c.0
      ensures c.1 - velY[i][j] == velY[i][j + 1] - c.1
    {
      ((velX[j][i] + velX[j][i + 1]) * 0.5, (velY[i][j] + velY[i][j + 1]) * 0.5)
    }

    /**
     * `calculate_divergence`: the net outflow of cell `(i, j)`; it is zero
     * exactly when what enters through the left and lower faces leaves
     * through the right and upper ones.
     */
    function CalculateDivergence(i: nat, j: nat): (d: real)
      reads this
      requires Valid() && i < width && j < height
      ensures d == 0.0 <==> velX[j][i] + velY[i][j] == velX[j][i + 1] + velY[i][j + 1]
    {
      (velX[j][i + 1] - velX[j][i]) + (velY[i][j + 1] - velY[i][j])
    }

    /** Sum of the divergence of the first `n` cells of row `j`. */
    ghost function RowDivergence(j: nat, n: nat): real
      reads this
      requires Valid() && j < height && n <= width
    {
      if n == 0 then 0.0 else RowDivergence(j, n - 1) + CalculateDivergence(n - 1, j)
    }

    /** Sum of the divergence of every cell in the first `m` rows. */
    ghost function TotalDivergence(m: nat): real
      reads this
      requires Valid() && m <= height
    {
      if m == 0 then 0.0 else TotalDivergence(m - 1) + RowDivergence(m - 1, width)
    }

    /** Net x-flux through the right wall minus the left wall, over the first `m` rows. */
    ghost function SideWallFlux(m: nat): real
      reads this
      requires Valid() && m <= height
    {
      if m == 0 then 0.0 else SideWallFlux(m - 1) + (velX[m - 1][width] - velX[m - 1][0])
    }

    /** Sum over the first `n` columns of `velY[i][k] - velY[i][0]`: what row `k` of y-faces gains on the floor. */
    ghost function ColumnGain(n: nat, k: nat): real
      reads this
      requires Valid() && n <= width && k <= height
    {
      if n == 0 then 0.0 else ColumnGain(n - 1, k) + (velY[n - 1][k] - velY[n - 1][0])
    }

    lemma {:induction false} ColumnGainAtFloor(n: nat)
      requires Valid() && n <= width
      ensures ColumnGain(n, 0) == 0.0
    {
      if n > 0 {
        ColumnGainAtFloor(n - 1);
      }
    }

    /** A row of cells telescopes: its divergence is the x-flux across its ends plus the y-flux across it. */
    lemma {:induction false} RowDivergenceTelescopes(j: nat, n: nat)
      requires Valid() && j < height && n <= width
      ensures RowDivergence(j, n) == (velX[j][n] - velX[j][0]) + (ColumnGain(n, j + 1) - ColumnGain(n, j))
    {
      if n > 0 {
        RowDivergenceTelescopes(j, n - 1);
      }
    }

    /**
     * Discrete divergence theorem: the divergence summed over every cell is
     * the net flux through the four walls of the domain.
     */
    lemma {:induction false} DivergenceTheorem(m: nat)
      requires Valid() && m <= height
      ensures TotalDivergence(m) == SideWallFlux(m) + ColumnGain(width, m)
    {
      if m == 0 {
        ColumnGainAtFloor(width);
      } else {
        DivergenceTheorem(m - 1);
        RowDivergenceTelescopes(m - 1, width);
      }
    }

    lemma {:induction false} ClosedSideWalls(m: nat)
      requires Valid() && ClosedBox() && m <= height
      ensures SideWallFlux(m) == 0.0
    {
      if m > 0 {
        ClosedSideWalls(m - 1);
      }
    }

    lemma {:induction false} ClosedFloorAndCeiling(n: nat)
      requires Valid() && ClosedBox() && n <= width
      ensures ColumnGain(n, height) == 0.0
    {
      if n > 0 {
        ClosedFloorAndCeiling(n - 1);
      }
    }

    /** In a closed box the divergence of the cells sums to zero. */
    lemma ClosedBoxDivergenceFree()
      requires Valid() && ClosedBox()
      ensures TotalDivergence(height) == 0.0
    {
      DivergenceTheorem(height);
      ClosedSideWalls(height);
      ClosedFloorAndCeiling(width);
    }

    /**
     * `set_boundary_conditions`: zero the wall faces `velX[j][0]`,
     * `velX[j][width]`, `velY[i][0]`, `velY[i][height]`; no other sample and
     * no shape changes.
     */
    method SetBoundaryConditions()
      requires Valid()
      modifies this
      ensures Valid() && ClosedBox()
      ensures velX == ZeroEnds(old(velX), width) && velY == ZeroEnds(old(velY), height)
      ensures pressure == old(pressure) && density == old(density)
    {
      var j := 0;
      while j < height
        invariant 0 <= j <= height
        invariant Valid() && velY == old(velY)
        invariant pressure == old(pressure) && density == old(density)
        invariant forall r :: 0 <= r < height ==>
          velX[r] == if r < j then old(velX)[r][0 := 0.0][width := 0.0] else old(velX)[r]
      {
        velX := velX[j := velX[j][0 := 0.0]];
        velX := velX[j := velX[j][width := 0.0]];
        j := j + 1;
      }
      var i := 0;
      while i < width
        invariant 0 <= i <= width
        invariant Valid() && velX == ZeroEnds(old(velX), width)
        invariant pressure == old(pressure) && density == old(density)
        invariant forall r :: 0 <= r < width ==>
          velY[r] == if r < i then old(velY)[r][0 := 0.0][height := 0.0] else old(velY)[r]
      {
        velY := velY[i := velY[i][0 := 0.0]];
        velY := velY[i := velY[i][height := 0.0]];
        i := i + 1;
      }
    }

    /**
     * `advect(dt)`: every interior face is retraced from snapshots of both
     * arrays taken on entry, then the walls are zeroed.
     */
    method Advect(dt: real)
      requires Valid() && AdvectSafe(width, height)
      modifies this
      ensures Valid() && ClosedBox()
      ensures velX == ZeroEnds(AdvectedX(width, height, dt, old(velX), old(velY)), width)
      ensures velY == ZeroEnds(AdvectedY(width, height, dt, old(velX), old(velY)), height)
      ensures pressure == old(pressure) && density == old(density)
    {
      var oldVelX, oldVelY := velX, velY;

      var j := 0;
      while j < height
        invariant 0 <= j <= height
        invariant Valid() && velY == oldVelY
        invariant pressure == old(pressure) && density == old(density)
        invariant forall r :: 0 <= r < height ==>
          velX[r] == if r < j then AdvectedXRow(width, height, dt, oldVelX, oldVelY, r) else oldVelX[r]
      {
        RetraceXRow(dt, oldVelX, oldVelY, j);
        j := j + 1;
      }
      assert velX == AdvectedX(width, height, dt, oldVelX, oldVelY);

      var i := 0;
      while i < width
        invariant 0 <= i <= width
        invariant Valid() && velX == AdvectedX(width, height, dt, oldVelX, oldVelY)
        invariant pressure == old(pressure) && density == old(density)
        invariant forall r :: 0 <= r < width ==>
          velY[r] == if r < i then AdvectedYRow(width, height, dt, oldVelX, oldVelY, r) else oldVelY[r]
      {
        RetraceYRow(dt, oldVelX, oldVelY, i);
        i := i + 1;
      }
      assert velY == AdvectedY(width, height, dt, oldVelX, oldVelY);

      SetBoundaryConditions();
    }

    /** The inner x-face loop of `advect` for row `j`: faces `1 <= i < width`, from the snapshots. */
    method RetraceXRow(dt: real, oldVelX: seq<seq<real>>, oldVelY: seq<seq<real>>, j: nat)
      requires Valid() && AdvectSafe(width, height) && j < height
      requires Shaped(oldVelX, height, width + 1) && Shaped(oldVelY, width, height + 1)
      requires velX[j] == oldVelX[j]
      modifies this
      ensures Valid()
      ensures velX == old(velX)[j := AdvectedXRow(width, height, dt, oldVelX, oldVelY, j)]
      ensures velY == old(velY) && pressure == old(pressure) && density == old(density)
    {
      ghost var row := AdvectedXRow(width, height, dt, oldVelX, oldVelY, j);
      var i := 1;
      while i < width
        invariant 1 <= i && (i <= width || width == 0)
        invariant Valid() && velY == old(velY)
        invariant pressure == old(pressure) && density == old(density)
        invariant velX == old(velX)[j := velX[j]]
        invariant forall c :: 0 <= c <= width ==> velX[j][c] == if 1 <= c < i then row[c] else oldVelX[j][c]
      {
        // trace the face centre back and sample the old x-faces there
        var value := XFaceValue(width, height, dt, oldVelX, oldVelY, i, j);
        velX := velX[j := velX[j][i := value]];
        i := i + 1;
      }
      assert velX[j] == row;
    }

    /** The inner y-face loop of `advect` for row `i` of `velY`: faces `1 <= j < height`, from the snapshots. */
    method RetraceYRow(dt: real, oldVelX: seq<seq<real>>, oldVelY: seq<seq<real>>, i: nat)
      requires Valid() && AdvectSafe(width, height) && i < width
      requires Shaped(oldVelX, height, width + 1) && Shaped(oldVelY, width, height + 1)
      requires velY[i] == oldVelY[i]
      modifies this
      ensures Valid()
      ensures velY == old(velY)[i := AdvectedYRow(width, height, dt, oldVelX, oldVelY, i)]
      ensures velX == old(velX) && pressure == old(pressure) && density == old(density)
    {
      ghost var row := AdvectedYRow(width, height, dt, oldVelX, oldVelY, i);
      var j := 1;
      while j < height
        invariant 1 <= j && (j <= height || height == 0)
        invariant Valid() && velX == old(velX)
        invariant pressure == old(pressure) && density == old(density)
        invariant velY == old(velY)[i := velY[i]]
        invariant forall c :: 0 <= c <= height ==> velY[i][c] == if 1 <= c < j then row[c] else oldVelY[i][c]
      {
        // trace the face centre back and sample the old y-faces there
        var value := YFaceValue(width, height, dt, oldVelX, oldVelY, i, j);
        velY := velY[i := velY[i][j := value]];
        j := j + 1;
      }
      assert velY[i] == row;
    }

    /**
     * `update_grid`: `advect(1.0)` and a second boundary call, which changes
     * nothing because zeroing the walls is idempotent.
     */
    method UpdateGrid()
      requires Valid() && AdvectSafe(width, height)
      modifies this
      ensures Valid() && ClosedBox()
      ensures velX == ZeroEnds(AdvectedX(width, height, 1.0, old(velX), old(velY)), width)
      ensures velY == ZeroEnds(AdvectedY(width, height, 1.0, old(velX), old(velY)), height)
      ensures pressure == old(pressure) && density == old(density)
    {
      // The source first walks every y-face with its gravity update commented
      // out; that loop changes nothing and is not reproduced.
      Advect(1.0);
      ghost var afterAdvect := (velX, velY);
      SetBoundaryConditions();
      ZeroEndsFixedPoint(afterAdvect.0, width);
      ZeroEndsFixedPoint(afterAdvect.1, height);
    }

    /**
     * `update_vel`: add `amount * dirX` to the x-face `velX[y][x]` and
     * `amount * dirY` to the y-face `velY[x][y]`; nothing else changes and the
     * walls are not restored.
     */
    method UpdateVel(x: nat, y: nat, dirX: int, dirY: int, amount: real)
      requires Valid() && x < width && y < height
      modifies this
      ensures Valid()
      ensures velX == AddAt(old(velX), y, x, amount * dirX as real)
      ensures velY == AddAt(old(velY), x, y, amount * dirY as real)
      ensures pressure == old(pressure) && density == old(density)
    {
      velX := velX[y := velX[y][x := velX[y][x] + amount * dirX as real]];
      velY := velY[x := velY[x][y := velY[x][y] + amount * dirY as real]];
    }
  }

  /** A fresh grid is a closed box at rest, and one frame leaves every one of its arrays at zero. */
  method NewGridStaysAtRest(width: nat, height: nat) returns (g: Grid)
    requires AdvectSafe(width, height)
    ensures g.Valid() && g.ClosedBox()
    ensures g.width == width && g.height == height
    ensures g.velX == Zeros(height, width + 1) && g.velY == Zeros(width, height + 1)
    ensures g.pressure == Zeros(height, width) && g.density == Zeros(height, width)
  {
    g := new Grid(width, height);
    AdvectAtRest(width, height, 1.0);
    g.UpdateGrid();
  }
}
