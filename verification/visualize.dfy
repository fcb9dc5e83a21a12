/**
 * The visualiser (Test.java): it places each tile of a solution on a grid
 * of "." strings by writing "X" into the cells its shape covers, then
 * counts, per colour, the landscape cells that are still "." and have a
 * positive colour. The masks it writes are the complement of the masks the
 * solver counts, so both programs agree on which cells stay uncovered.
 */
module Visualize {
  import opened Wrappers
  import opened Shapes
  import opened Contribution
  import opened Table
  import opened Csp
  import opened Search

  /** Whether a shape covers cell (i, j) of its tile. */
  predicate Covers(s: Shape, i: int, j: int)
  {
    match s
    case FullBlock => true
    case OuterBoundary => i == 0 || i == TILE_SIZE - 1 || j == 0 || j == TILE_SIZE - 1
    case ElShape => j == 0 || i == TILE_SIZE - 1
  }

  /** EL_SHAPE covers exactly the cells where its pattern holds 1. */
  lemma ElCoversWherePatternOne(i: nat, j: nat)
    requires i < 4 && j < 4
    ensures Covers(ElShape, i, j) <==> EL_SHAPE_PATTERN[i][j] == 1
  {
  }

  /**
   * The solver counts a cell of a tile exactly when the visualiser leaves
   * it uncovered.
   */
  lemma MasksAgree(s: Shape, i: nat, j: nat)
    requires i < 4 && j < 4
    ensures Counted(s, i, j) <==> !Covers(s, i, j)
  {
  }

  /** The number of cells of a tile that s covers, counted row-major up to (i, j). */
  function CoveredBefore(s: Shape, i: nat, j: nat): nat
    requires i <= 4 && j <= 4 && (i == 4 ==> j == 0)
    decreases i, j
  {
    if j == 0 then (if i == 0 then 0 else CoveredBefore(s, i - 1, 4))
    else CoveredBefore(s, i, j - 1) + (if Covers(s, i, j - 1) then 1 else 0)
  }

  /** FULL_BLOCK covers all 16 cells, OUTER_BOUNDARY the 12 border cells, EL_SHAPE 7 cells. */
  lemma CoveredCells()
    ensures CoveredBefore(FullBlock, 4, 0) == 16
    ensures CoveredBefore(OuterBoundary, 4, 0) == 12
    ensures CoveredBefore(ElShape, 4, 0) == 7
  {
    CoveredRows(FullBlock);
    CoveredRows(OuterBoundary);
    CoveredRows(ElShape);
  }

  /** The covered cells of a tile, row by row. */
  lemma CoveredRows(s: Shape)
    ensures CoveredBefore(s, 4, 0) == CoveredInRow(s, 0) + CoveredInRow(s, 1) + CoveredInRow(s, 2) + CoveredInRow(s, 3)
  {
    CoveredRow(s, 0);
    CoveredRow(s, 1);
    CoveredRow(s, 2);
    CoveredRow(s, 3);
  }

  /** The number of cells of row i that s covers. */
  function CoveredInRow(s: Shape, i: int): nat
  {
    (if Covers(s, i, 0) then 1 else 0) + (if Covers(s, i, 1) then 1 else 0)
    + (if Covers(s, i, 2) then 1 else 0) + (if Covers(s, i, 3) then 1 else 0)
  }

  /** Counting row i adds that row's covered cells. */
  lemma CoveredRow(s: Shape, i: nat)
    requires i < 4
    ensures CoveredBefore(s, i + 1, 0) == CoveredBefore(s, i, 0) + CoveredInRow(s, i)
  {
    assert CoveredBefore(s, i, 2) == CoveredBefore(s, i, 0) + (if Covers(s, i, 0) then 1 else 0) + (if Covers(s, i, 1) then 1 else 0);
  }

  /** Placing shape o with top-left corner (row, col) writes "X" into cell (x, y). */
  predicate Marks(o: Option<Shape>, row: int, col: int, x: int, y: int)
  {
    o.Some? && row <= x < row + TILE_SIZE && col <= y < col + TILE_SIZE && Covers(o.value, x - row, y - col)
  }

  /**
   * applyTile: writes "X" into exactly the cells the named shape covers in
   * the 4x4 block at (row, col) and leaves every other cell as it was; an
   * unrecognised name changes nothing. A covered cell ends up "X" whatever
   * it held, so a second call changes nothing.
   */
  method ApplyTile(grid: array2<string>, tileType: string, row: int, col: int)
    modifies grid
    requires ShapeNamed(tileType).Some? ==>
      0 <= row && row + TILE_SIZE <= grid.Length0 && 0 <= col && col + TILE_SIZE <= grid.Length1
    ensures forall x, y :: 0 <= x < grid.Length0 && 0 <= y < grid.Length1 ==>
      grid[x, y] == (if Marks(ShapeNamed(tileType), row, col, x, y) then "X" else old(grid[x, y]))
  {
    if tileType == "FULL_BLOCK" {
      for i := row to row + TILE_SIZE
        invariant forall x, y :: 0 <= x < grid.Length0 && 0 <= y < grid.Length1 ==>
          grid[x, y] == (if row <= x < i && col <= y < col + TILE_SIZE then "X" else old(grid[x, y]))
      {
        for j := col to col + TILE_SIZE
          invariant forall x, y :: 0 <= x < grid.Length0 && 0 <= y < grid.Length1 ==>
            grid[x, y] == (if (row <= x < i && col <= y < col + TILE_SIZE) || (x == i && col <= y < j) then "X" else old(grid[x, y]))
        {
          grid[i, j] := "X";
        }
      }
    } else if tileType == "OUTER_BOUNDARY" {
      // left and right boundaries
      for i := row to row + TILE_SIZE
        invariant forall x, y :: 0 <= x < grid.Length0 && 0 <= y < grid.Length1 ==>
          grid[x, y] == (if row <= x < i && (y == col || y == col + TILE_SIZE - 1) then "X" else old(grid[x, y]))
      {
        grid[i, col] := "X";
        grid[i, col + TILE_SIZE - 1] := "X";
      }
      // top and bottom boundaries
      for j := col to col + TILE_SIZE
        invariant forall x, y :: 0 <= x < grid.Length0 && 0 <= y < grid.Length1 ==>
          grid[x, y] == (if (row <= x < row + TILE_SIZE && (y == col || y == col + TILE_SIZE - 1))
                            || (col <= y < j && (x == row || x == row + TILE_SIZE - 1)) then "X" else old(grid[x, y]))
      {
        grid[row, j] := "X";
        grid[row + TILE_SIZE - 1, j] := "X";
      }
    } else if tileType == "EL_SHAPE" {
      for i := 0 to TILE_SIZE
        invariant forall x, y :: 0 <= x < grid.Length0 && 0 <= y < grid.Length1 ==>
          grid[x, y] == (if row <= x < row + i && col <= y < col + TILE_SIZE && Covers(ElShape, x - row, y - col) then "X" else old(grid[x, y]))
      {
        for j := 0 to TILE_SIZE
          invariant forall x, y :: 0 <= x < grid.Length0 && 0 <= y < grid.Length1 ==>
            grid[x, y] == (if (row <= x < row + i && col <= y < col + TILE_SIZE && Covers(ElShape, x - row, y - col))
                              || (x == row + i && col <= y < col + j && Covers(ElShape, i, y - col)) then "X" else old(grid[x, y]))
        {
          ElCoversWherePatternOne(i, j);
          if EL_SHAPE_PATTERN[i][j] == 1 {
            grid[row + i, col + j] := "X";
          }
        }
      }
    }
  }

  // ---------------------------------------------------------------------
  // Placing the tiles of a solution

  /** One line of the solution file: a tile index and a shape name. */
  datatype TilePlacement = TilePlacement(tileIndex: int, tileType: string)

  /** The top row of tile idx's block: (idx / blocksPerRow) * TILE_SIZE. */
  function PlacementRow(idx: int, blocksPerRow: nat): int
    requires blocksPerRow > 0
  {
    (idx / blocksPerRow) * TILE_SIZE
  }

  /** The left column of tile idx's block: (idx % blocksPerRow) * TILE_SIZE. */
  function PlacementCol(idx: int, blocksPerRow: nat): int
    requires blocksPerRow > 0
  {
    (idx % blocksPerRow) * TILE_SIZE
  }

  /**
   * A tile index below blocksPerRow * blocksPerRow puts its block inside
   * the grid, as applyTile needs; the block is the one the solver reads
   * for the same index.
   */
  lemma PlacementInGrid(gridSize: nat, idx: nat)
    requires idx < TileCount(gridSize)
    ensures TilesPerSide(gridSize) > 0
    ensures 0 <= PlacementRow(idx, TilesPerSide(gridSize)) && PlacementRow(idx, TilesPerSide(gridSize)) + TILE_SIZE <= gridSize
    ensures 0 <= PlacementCol(idx, TilesPerSide(gridSize)) && PlacementCol(idx, TilesPerSide(gridSize)) + TILE_SIZE <= gridSize
  {
    TilePosition(gridSize, idx);
  }

  /** Whether one of the placements writes "X" into cell (x, y). */
  predicate CoveredBy(placements: seq<TilePlacement>, blocksPerRow: nat, x: int, y: int)
    requires placements != [] ==> blocksPerRow > 0
  {
    if placements == [] then false
    else
      var p := placements[|placements| - 1];
      CoveredBy(placements[..|placements| - 1], blocksPerRow, x, y)
      || Marks(ShapeNamed(p.tileType), PlacementRow(p.tileIndex, blocksPerRow), PlacementCol(p.tileIndex, blocksPerRow), x, y)
  }

  /**
   * The placement loop of visualizeTiling: each placement's shape is applied
   * at its tile's position. Afterwards a cell is "X" if some placement
   * covers it and holds what it held before otherwise.
   */
  method PlaceTiles(grid: array2<string>, placements: seq<TilePlacement>, gridSize: nat)
    modifies grid
    requires grid.Length0 == gridSize && grid.Length1 == gridSize
    requires placements != [] ==> TilesPerSide(gridSize) > 0
    requires forall k :: 0 <= k < |placements| && ShapeNamed(placements[k].tileType).Some? ==>
      0 <= placements[k].tileIndex < TileCount(gridSize)
    ensures forall x, y :: 0 <= x < gridSize && 0 <= y < gridSize ==>
      grid[x, y] == (if CoveredBy(placements, TilesPerSide(gridSize), x, y) then "X" else old(grid[x, y]))
  {
    var blocksPerRow := gridSize / TILE_SIZE;
    for k := 0 to |placements|
      invariant forall x, y :: 0 <= x < gridSize && 0 <= y < gridSize ==>
        grid[x, y] == (if CoveredBy(placements[..k], blocksPerRow, x, y) then "X" else old(grid[x, y]))
    {
      var tileIndex := placements[k].tileIndex;
      var tileType := placements[k].tileType;
      var row := (tileIndex / blocksPerRow) * TILE_SIZE;
      var col := (tileIndex % blocksPerRow) * TILE_SIZE;
      if ShapeNamed(tileType).Some? {
        PlacementInGrid(gridSize, tileIndex);
      }
      assert placements[..k + 1][..k] == placements[..k];
      ApplyTile(grid, tileType, row, col);
    }
    assert placements[..|placements|] == placements;
  }

  // ---------------------------------------------------------------------
  // Counting the uncovered cells

  /** The grid held by a two-dimensional array of strings. */
  function GridOf(grid: array2<string>): (g: seq<seq<string>>)
    reads grid
    ensures |g| == grid.Length0 && forall x :: 0 <= x < |g| ==> |g[x]| == grid.Length1
    ensures forall x, y :: 0 <= x < grid.Length0 && 0 <= y < grid.Length1 ==> g[x][y] == grid[x, y]
  {
    seq(grid.Length0, x requires 0 <= x < grid.Length0 reads grid =>
      seq(grid.Length1, y requires 0 <= y < grid.Length1 reads grid => grid[x, y]))
  }

  /** Grid and landscape are both at least n x n. */
  predicate Covering(g: seq<seq<string>>, landscape: seq<seq<int>>, n: nat)
  {
    |g| >= n && |landscape| >= n
    && (forall x :: 0 <= x < n ==> |g[x]| >= n && |landscape[x]| >= n)
  }

  /** The cells of row x in columns lo..hi-1 that are still "." and have colour c. */
  function RowUncovered(g: seq<seq<string>>, landscape: seq<seq<int>>, c: int, x: nat, lo: nat, hi: nat): nat
    requires x < |g| && x < |landscape| && lo <= hi <= |g[x]| && hi <= |landscape[x]|
    decreases hi - lo
  {
    if hi == lo then 0
    else RowUncovered(g, landscape, c, x, lo, hi - 1) + (if g[x][hi - 1] == "." && landscape[x][hi - 1] == c then 1 else 0)
  }

  /** The cells of rows lo..hi-1, columns 0..n-1, that are still "." and have colour c. */
  function Uncovered(g: seq<seq<string>>, landscape: seq<seq<int>>, c: int, n: nat, lo: nat, hi: nat): nat
    requires Covering(g, landscape, n) && lo <= hi <= n
    decreases hi - lo
  {
    if hi == lo then 0
    else Uncovered(g, landscape, c, n, lo, hi - 1) + RowUncovered(g, landscape, c, hi - 1, 0, n)
  }

  /**
   * The counting loop of visualizeTiling: counter[c] ends up the number of
   * cells that are still "." and have colour c, for c = 1..4; counter[0]
   * stays 0, because only positive colours are counted.
   */
  method CountUncovered(grid: array2<string>, landscape: seq<seq<int>>, gridSize: nat) returns (counter: array<int>)
    requires grid.Length0 == gridSize && grid.Length1 == gridSize
    requires IsGrid(landscape, gridSize) && Coloured(landscape)
    ensures fresh(counter) && counter.Length == 5 && counter[0] == 0
    ensures Covering(GridOf(grid), landscape, gridSize)
    ensures forall c :: 1 <= c <= 4 ==> counter[c] == Uncovered(GridOf(grid), landscape, c, gridSize, 0, gridSize)
  {
    ghost var g := GridOf(grid);
    counter := new int[5](_ => 0);
    for i := 0 to gridSize
      invariant counter[0] == 0
      invariant forall c :: 1 <= c <= 4 ==> counter[c] == Uncovered(g, landscape, c, gridSize, 0, i)
    {
      CountRow(counter, grid, landscape, gridSize, i);
    }
  }

  /** One pass of the outer counting loop: the still-"." cells of row i are added to their colours' counts. */
  method CountRow(counter: array<int>, grid: array2<string>, landscape: seq<seq<int>>, gridSize: nat, i: nat)
    modifies counter
    requires counter.Length == 5 && counter[0] == 0
    requires grid.Length0 == gridSize && grid.Length1 == gridSize && i < gridSize
    requires IsGrid(landscape, gridSize) && Coloured(landscape)
    ensures counter[0] == 0
    ensures forall c :: 1 <= c <= 4 ==> counter[c] == old(counter[c]) + RowUncovered(GridOf(grid), landscape, c, i, 0, gridSize)
  {
    ghost var g := GridOf(grid);
    for j := 0 to gridSize
      invariant counter[0] == 0
      invariant forall c :: 1 <= c <= 4 ==> counter[c] == old(counter[c]) + RowUncovered(g, landscape, c, i, 0, j)
    {
      if grid[i, j] == "." && landscape[i][j] > 0 {
        counter[landscape[i][j]] := counter[landscape[i][j]] + 1;
      }
    }
  }

  // ---------------------------------------------------------------------
  // The whole visualiser

  /** The grid the placements leave on an all-"." gridSize x gridSize grid. */
  function PlacedGrid(placements: seq<TilePlacement>, gridSize: nat): (g: seq<seq<string>>)
    requires placements != [] ==> TilesPerSide(gridSize) > 0
    ensures |g| == gridSize && forall x :: 0 <= x < gridSize ==> |g[x]| == gridSize
  {
    seq(gridSize, x requires 0 <= x < gridSize =>
      seq(gridSize, y requires 0 <= y < gridSize =>
        if CoveredBy(placements, TilesPerSide(gridSize), x, y) then "X" else "."))
  }

  /**
   * visualizeTiling without its file reading and printing: a grid of "."
   * is created, every placement is applied, and counter[c] ends up the
   * number of still-"." cells of colour c on the resulting grid.
   */
  method VisualizeTiling(placements: seq<TilePlacement>, landscape: seq<seq<int>>, gridSize: nat) returns (counter: array<int>)
    requires IsGrid(landscape, gridSize) && Coloured(landscape)
    requires placements != [] ==> TilesPerSide(gridSize) > 0
    requires forall k :: 0 <= k < |placements| && ShapeNamed(placements[k].tileType).Some? ==>
      0 <= placements[k].tileIndex < TileCount(gridSize)
    ensures fresh(counter) && counter.Length == 5 && counter[0] == 0
    ensures forall c :: 1 <= c <= 4 ==>
      counter[c] == Uncovered(PlacedGrid(placements, gridSize), landscape, c, gridSize, 0, gridSize)
  {
    var grid := new string[gridSize, gridSize]((_, _) => ".");
    assert forall x, y :: 0 <= x < gridSize && 0 <= y < gridSize ==> grid[x, y] == ".";
    PlaceTiles(grid, placements, gridSize);
    ghost var g, h := GridOf(grid), PlacedGrid(placements, gridSize);
    forall x | 0 <= x < gridSize
      ensures g[x] == h[x]
    {
      assert forall y :: 0 <= y < gridSize ==> g[x][y] == h[x][y];
    }
    assert g == h;
    counter := CountUncovered(grid, landscape, gridSize);
  }

  // ---------------------------------------------------------------------
  // The visualiser's counts are the solver's totals

  /** t > 0: d >= 1 copies of t are at least t, d <= -1 copies at most -t. */
  lemma ProductSign(d: int, t: int)
    requires t > 0
    ensures d >= 1 ==> d * t >= t
    ensures d <= -1 ==> d * t <= -t
  {
    if d >= 1 {
      assert d * t == (d - 1) * t + t;
    } else if d <= -1 {
      assert d * t == (d + 1) * t - t;
    }
  }

  /** Quotient and remainder are unique. */
  lemma DivModUnique(q: int, m: int, t: int)
    requires t > 0 && 0 <= m < t
    ensures (q * t + m) / t == q && (q * t + m) % t == m
  {
    var k := q * t + m;
    var q', m' := k / t, k % t;
    assert q * t + m == q' * t + m';
    assert (q - q') * t == m' - m;
    ProductSign(q - q', t);
  }

  /** The index of the tile whose block holds cell (x, y), with t tiles per side. */
  function TileOf(t: nat, x: nat, y: nat): nat
  {
    (x / TILE_SIZE) * t + y / TILE_SIZE
  }

  /** A cell of a 4t x 4t grid lies in one of the t * t tiles. */
  lemma TileOfInRange(t: nat, x: nat, y: nat)
    requires x < 4 * t && y < 4 * t
    ensures TileOf(t, x, y) < t * t
  {
    var q := x / 4;
    assert q + 1 <= t;
    assert (q + 1) * t <= t * t by {
      ProductSign(t - (q + 1), t);
    }
  }

  /** Every tile of a t x t tiling has a shape. */
  ghost predicate Complete(r: Assignment, t: nat)
  {
    forall v :: 0 <= v < t * t ==> v in r
  }

  /** The grid the tiles of r leave on an all-"." grid with t tiles per side. */
  ghost function SolutionGrid(r: Assignment, t: nat): (g: seq<seq<string>>)
    requires Complete(r, t)
    ensures |g| == 4 * t && forall x :: 0 <= x < 4 * t ==> |g[x]| == 4 * t
  {
    seq(4 * t, x requires 0 <= x < 4 * t =>
      seq(4 * t, y requires 0 <= y < 4 * t =>
        TileOfInRange(t, x, y);
        if Covers(r[TileOf(t, x, y)], x % TILE_SIZE, y % TILE_SIZE) then "X" else "."))
  }

  /** Cell (x, y) of a grid. */
  function CellOf(g: seq<seq<string>>, x: nat, y: nat): string
    requires x < |g| && y < |g[x]|
  {
    g[x][y]
  }

  /** g is 4t x 4t and every cell shows whether the shape of its tile in r covers it. */
  ghost predicate ShowsCells(g: seq<seq<string>>, r: Assignment, t: nat)
  {
    |g| == 4 * t && (forall x :: 0 <= x < 4 * t ==> |g[x]| == 4 * t)
    && forall x, y :: 0 <= x < 4 * t && 0 <= y < 4 * t ==>
      TileOf(t, x, y) in r && CellOf(g, x, y) == (if Covers(r[TileOf(t, x, y)], x % TILE_SIZE, y % TILE_SIZE) then "X" else ".")
  }

  /** The solution grid shows every cell's tile. */
  lemma SolutionGridCells(r: Assignment, t: nat)
    requires Complete(r, t)
    ensures ShowsCells(SolutionGrid(r, t), r, t)
  {
    forall x, y | 0 <= x < 4 * t && 0 <= y < 4 * t
      ensures TileOf(t, x, y) in r
           && CellOf(SolutionGrid(r, t), x, y) == (if Covers(r[TileOf(t, x, y)], x % TILE_SIZE, y % TILE_SIZE) then "X" else ".")
    {
      TileOfInRange(t, x, y);
    }
  }

  /** Where g shows every cell's tile, the block at tile (bi, bj) shows the mask of tile bi * t + bj. */
  lemma GridBlock(g: seq<seq<string>>, r: Assignment, t: nat, bi: nat, bj: nat, a: nat, b: nat)
    requires ShowsCells(g, r, t) && bi < t && bj < t && a < 4 && b < 4
    ensures bi * t + bj in r
    ensures g[4 * bi + a][4 * bj + b] == (if Covers(r[bi * t + bj], a, b) then "X" else ".")
  {
    var x, y := 4 * bi + a, 4 * bj + b;
    assert x / 4 == bi && x % 4 == a && y / 4 == bj && y % 4 == b;
    assert TileOf(t, x, y) == bi * t + bj;
    assert CellOf(g, x, y) == g[x][y];
  }

  /** The "." cells of colour c in the first i rows of the block at tile (bi, bj). */
  function BlockUncovered(g: seq<seq<string>>, landscape: seq<seq<int>>, c: int, n: nat, bi: nat, bj: nat, i: nat): nat
    requires Covering(g, landscape, n) && 4 * bi + 4 <= n && 4 * bj + 4 <= n && i <= 4
  {
    if i == 0 then 0
    else BlockUncovered(g, landscape, c, n, bi, bj, i - 1) + RowUncovered(g, landscape, c, 4 * bi + i - 1, 4 * bj, 4 * bj + 4)
  }

  /** The block of g at tile (bi, bj) shows shape s's mask: "X" where s covers the cell, "." elsewhere. */
  predicate BlockShows(g: seq<seq<string>>, bi: nat, bj: nat, s: Shape)
  {
    forall a, b :: 0 <= a < 4 && 0 <= b < 4 ==> CellShows(g, bi, bj, s, a, b)
  }

  /** Cell (a, b) of the block of g at tile (bi, bj) is "X" exactly when shape s covers it, and "." otherwise. */
  predicate CellShows(g: seq<seq<string>>, bi: nat, bj: nat, s: Shape, a: nat, b: nat)
  {
    4 * bi + a < |g| && 4 * bj + b < |g[4 * bi + a]| && g[4 * bi + a][4 * bj + b] == (if Covers(s, a, b) then "X" else ".")
  }

  /** p holds the landscape's block at tile (bi, bj), as getPatch copies it. */
  predicate UnderBlock(p: Patch, landscape: seq<seq<int>>, n: nat, bi: nat, bj: nat)
  {
    IsPatch(p) && IsGrid(landscape, n) && 4 * bi + 4 <= n && 4 * bj + 4 <= n
    && forall a, b :: 0 <= a < 4 && 0 <= b < 4 ==> p[a][b] == landscape[4 * bi + a][4 * bj + b]
  }

  /**
   * Up to cell (i, j) of the block at tile (bi, bj), the solver's count of
   * colour c for the landscape under the block equals the number of "."
   * cells of colour c the visualiser sees up to the same cell.
   */
  predicate AgreesUpTo(g: seq<seq<string>>, landscape: seq<seq<int>>, c: int, n: nat, bi: nat, bj: nat,
                       p: Patch, s: Shape, i: nat, j: nat)
    requires UnderBlock(p, landscape, n, bi, bj) && Covering(g, landscape, n)
    requires i <= 4 && j <= 4 && (i == 4 ==> j == 0)
  {
    Get(PartialContribution(p, s, i, j), c)
    == BlockUncovered(g, landscape, c, n, bi, bj, i) + (if i < 4 then RowUncovered(g, landscape, c, 4 * bi + i, 4 * bj, 4 * bj + j) else 0)
  }

  /** Where a block shows shape s's mask, the two counts agree up to every cell of the block. */
  lemma {:induction false} BlockAgrees(g: seq<seq<string>>, landscape: seq<seq<int>>, c: int, n: nat, bi: nat, bj: nat,
                                       p: Patch, s: Shape, i: nat, j: nat)
    requires UnderBlock(p, landscape, n, bi, bj) && Covering(g, landscape, n) && 1 <= c <= 4
    requires BlockShows(g, bi, bj, s)
    requires i <= 4 && j <= 4 && (i == 4 ==> j == 0)
    ensures AgreesUpTo(g, landscape, c, n, bi, bj, p, s, i, j)
    decreases i, j
  {
    if j > 0 {
      BlockAgrees(g, landscape, c, n, bi, bj, p, s, i, j - 1);
      BlockAgreesNextCell(g, landscape, c, n, bi, bj, p, s, i, j);
    } else if i > 0 {
      BlockAgrees(g, landscape, c, n, bi, bj, p, s, i - 1, 4);
      BlockAgreesNextRow(g, landscape, c, n, bi, bj, p, s, i);
    }
  }

  /** Moving to the start of row i: the finished row i - 1 joins the block's count. */
  lemma BlockAgreesNextRow(g: seq<seq<string>>, landscape: seq<seq<int>>, c: int, n: nat, bi: nat, bj: nat,
                           p: Patch, s: Shape, i: nat)
    requires UnderBlock(p, landscape, n, bi, bj) && Covering(g, landscape, n) && 0 < i <= 4
    requires AgreesUpTo(g, landscape, c, n, bi, bj, p, s, i - 1, 4)
    ensures AgreesUpTo(g, landscape, c, n, bi, bj, p, s, i, 0)
  {
  }

  /** Cell (i, j - 1) of the block: both counts grow by one exactly when the cell is uncovered and has colour c. */
  lemma BlockAgreesNextCell(g: seq<seq<string>>, landscape: seq<seq<int>>, c: int, n: nat, bi: nat, bj: nat,
                            p: Patch, s: Shape, i: nat, j: nat)
    requires UnderBlock(p, landscape, n, bi, bj) && Covering(g, landscape, n) && 1 <= c <= 4
    requires BlockShows(g, bi, bj, s)
    requires i < 4 && 0 < j <= 4
    requires AgreesUpTo(g, landscape, c, n, bi, bj, p, s, i, j - 1)
    ensures AgreesUpTo(g, landscape, c, n, bi, bj, p, s, i, j)
  {
    ContributionStep(p, s, i, j, c);
    MasksAgree(s, i, j - 1);
    assert p[i][j - 1] == landscape[4 * bi + i][4 * bj + (j - 1)];
    assert CellShows(g, bi, bj, s, i, j - 1);
    assert 4 * bj + j - 1 == 4 * bj + (j - 1);
  }

  /** Cell (i, j - 1) adds one to the count of colour c exactly when the shape counts it and it has colour c. */
  lemma ContributionStep(p: Patch, s: Shape, i: nat, j: nat, c: int)
    requires IsPatch(p) && i < 4 && 0 < j <= 4 && c != 0
    ensures Get(PartialContribution(p, s, i, j), c)
         == Get(PartialContribution(p, s, i, j - 1), c) + (if Counted(s, i, j - 1) && p[i][j - 1] == c then 1 else 0)
  {
    var m, x := PartialContribution(p, s, i, j - 1), p[i][j - 1];
    assert PartialContribution(p, s, i, j) == if Counted(s, i, j - 1) && x != 0 then m[x := Get(m, x) + 1] else m;
    assert Get(m[x := Get(m, x) + 1], c) == Get(m, c) + (if x == c then 1 else 0);
  }

  /** Columns lo..hi-1 of a row split at mid. */
  lemma {:induction false} RowSplit(g: seq<seq<string>>, landscape: seq<seq<int>>, c: int, x: nat, lo: nat, mid: nat, hi: nat)
    requires x < |g| && x < |landscape| && lo <= mid <= hi <= |g[x]| && hi <= |landscape[x]|
    ensures RowUncovered(g, landscape, c, x, lo, hi) == RowUncovered(g, landscape, c, x, lo, mid) + RowUncovered(g, landscape, c, x, mid, hi)
    decreases hi - mid
  {
    if hi > mid {
      RowSplit(g, landscape, c, x, lo, mid, hi - 1);
    }
  }

  /** Rows lo..hi-1 split at mid. */
  lemma {:induction false} RowsSplit(g: seq<seq<string>>, landscape: seq<seq<int>>, c: int, n: nat, lo: nat, mid: nat, hi: nat)
    requires Covering(g, landscape, n) && lo <= mid <= hi <= n
    ensures Uncovered(g, landscape, c, n, lo, hi) == Uncovered(g, landscape, c, n, lo, mid) + Uncovered(g, landscape, c, n, mid, hi)
    decreases hi - mid
  {
    if hi > mid {
      RowsSplit(g, landscape, c, n, lo, mid, hi - 1);
    }
  }

  /** The blocks at tiles (bi, 0) .. (bi, bj - 1), summed. */
  function BlocksBefore(g: seq<seq<string>>, landscape: seq<seq<int>>, c: int, n: nat, bi: nat, bj: nat): nat
    requires Covering(g, landscape, n) && 4 * bi + 4 <= n && 4 * bj <= n
  {
    if bj == 0 then 0
    else BlocksBefore(g, landscape, c, n, bi, bj - 1) + BlockUncovered(g, landscape, c, n, bi, bj - 1, 4)
  }

  /** The blocks of a band of four rows, up to tile column bj, cover the band's first 4 * bj columns. */
  lemma {:induction false} BandPrefix(g: seq<seq<string>>, landscape: seq<seq<int>>, c: int, n: nat, bi: nat, bj: nat)
    requires Covering(g, landscape, n) && 4 * bi + 4 <= n && 4 * bj <= n
    ensures BlocksBefore(g, landscape, c, n, bi, bj)
         == RowUncovered(g, landscape, c, 4 * bi, 0, 4 * bj) + RowUncovered(g, landscape, c, 4 * bi + 1, 0, 4 * bj)
          + RowUncovered(g, landscape, c, 4 * bi + 2, 0, 4 * bj) + RowUncovered(g, landscape, c, 4 * bi + 3, 0, 4 * bj)
  {
    if bj > 0 {
      BandPrefix(g, landscape, c, n, bi, bj - 1);
      BandPrefixStep(g, landscape, c, n, bi, bj);
    }
  }

  /** Block bj - 1 of the band adds four columns to each of its rows. */
  lemma BandPrefixStep(g: seq<seq<string>>, landscape: seq<seq<int>>, c: int, n: nat, bi: nat, bj: nat)
    requires Covering(g, landscape, n) && 4 * bi + 4 <= n && 0 < bj && 4 * bj <= n
    requires BlocksBefore(g, landscape, c, n, bi, bj - 1)
          == RowUncovered(g, landscape, c, 4 * bi, 0, 4 * (bj - 1)) + RowUncovered(g, landscape, c, 4 * bi + 1, 0, 4 * (bj - 1))
           + RowUncovered(g, landscape, c, 4 * bi + 2, 0, 4 * (bj - 1)) + RowUncovered(g, landscape, c, 4 * bi + 3, 0, 4 * (bj - 1))
    ensures BlocksBefore(g, landscape, c, n, bi, bj)
         == RowUncovered(g, landscape, c, 4 * bi, 0, 4 * bj) + RowUncovered(g, landscape, c, 4 * bi + 1, 0, 4 * bj)
          + RowUncovered(g, landscape, c, 4 * bi + 2, 0, 4 * bj) + RowUncovered(g, landscape, c, 4 * bi + 3, 0, 4 * bj)
  {
    var lo, hi := 4 * (bj - 1), 4 * bj;
    RowSplit(g, landscape, c, 4 * bi, 0, lo, hi);
    RowSplit(g, landscape, c, 4 * bi + 1, 0, lo, hi);
    RowSplit(g, landscape, c, 4 * bi + 2, 0, lo, hi);
    RowSplit(g, landscape, c, 4 * bi + 3, 0, lo, hi);
    BlockRows(g, landscape, c, n, bi, bj - 1);
    assert 4 * (bj - 1) + 4 == hi;
    assert BlocksBefore(g, landscape, c, n, bi, bj)
        == BlocksBefore(g, landscape, c, n, bi, bj - 1) + BlockUncovered(g, landscape, c, n, bi, bj - 1, 4);
  }

  /** A block is the sum of its four rows. */
  lemma {:induction false} BlockRows(g: seq<seq<string>>, landscape: seq<seq<int>>, c: int, n: nat, bi: nat, bj: nat)
    requires Covering(g, landscape, n) && 4 * bi + 4 <= n && 4 * bj + 4 <= n
    ensures BlockUncovered(g, landscape, c, n, bi, bj, 4)
         == RowUncovered(g, landscape, c, 4 * bi, 4 * bj, 4 * bj + 4) + RowUncovered(g, landscape, c, 4 * bi + 1, 4 * bj, 4 * bj + 4)
          + RowUncovered(g, landscape, c, 4 * bi + 2, 4 * bj, 4 * bj + 4) + RowUncovered(g, landscape, c, 4 * bi + 3, 4 * bj, 4 * bj + 4)
  {
    var lo, hi := 4 * bj, 4 * bj + 4;
    assert BlockUncovered(g, landscape, c, n, bi, bj, 1) == RowUncovered(g, landscape, c, 4 * bi, lo, hi);
    assert BlockUncovered(g, landscape, c, n, bi, bj, 2)
        == BlockUncovered(g, landscape, c, n, bi, bj, 1) + RowUncovered(g, landscape, c, 4 * bi + 1, lo, hi);
    assert BlockUncovered(g, landscape, c, n, bi, bj, 4)
        == BlockUncovered(g, landscape, c, n, bi, bj, 2)
         + RowUncovered(g, landscape, c, 4 * bi + 2, lo, hi) + RowUncovered(g, landscape, c, 4 * bi + 3, lo, hi);
  }

  /** A whole band of four rows is the sum of its t blocks. */
  lemma {:induction false} Band(g: seq<seq<string>>, landscape: seq<seq<int>>, c: int, t: nat, bi: nat)
    requires Covering(g, landscape, 4 * t) && bi < t
    ensures Uncovered(g, landscape, c, 4 * t, 4 * bi, 4 * bi + 4) == BlocksBefore(g, landscape, c, 4 * t, bi, t)
  {
    var n, top := 4 * t, 4 * bi;
    BandPrefix(g, landscape, c, n, bi, t);
    assert Uncovered(g, landscape, c, n, top, top + 1) == RowUncovered(g, landscape, c, top, 0, n);
    assert Uncovered(g, landscape, c, n, top, top + 2)
        == Uncovered(g, landscape, c, n, top, top + 1) + RowUncovered(g, landscape, c, top + 1, 0, n);
    assert Uncovered(g, landscape, c, n, top, top + 4)
        == Uncovered(g, landscape, c, n, top, top + 2)
         + RowUncovered(g, landscape, c, top + 2, 0, n) + RowUncovered(g, landscape, c, top + 3, 0, n);
  }

  /** A 4t x 4t grid has t tiles per side and t * t tiles. */
  lemma TilesOfSide(t: nat)
    ensures TilesPerSide(4 * t) == t && TileCount(4 * t) == t * t
  {
    assert (4 * t) / TILE_SIZE == t;
  }

  /** A t x t tiling has t * t tiles, and the tiles of the first bi rows and bj more fit in it. */
  lemma TilesOfRows(t: nat, bi: nat, bj: nat)
    requires bi < t && bj <= t
    ensures TileCount(4 * t) == t * t && bi * t + bj <= t * t
  {
    TilesOfSide(t);
    ProductSign(t - (bi + 1), t);
  }

  /** Tile k of a t x t tiling lies in tile row k / t and tile column k % t, both below t. */
  lemma TileRowCol(t: nat, k: nat)
    requires k < t * t
    ensures t > 0 && k / t < t && k % t < t
  {
    var q := k / t;
    assert t * q <= k;
    CancelFactor(t, q, t);
  }

  /** The visualiser's count of colour c in the block of tile k of a t x t tiling. */
  function TileUncovered(g: seq<seq<string>>, landscape: seq<seq<int>>, c: int, t: nat, k: nat): nat
    requires Covering(g, landscape, 4 * t) && k < t * t
  {
    TileRowCol(t, k);
    BlockUncovered(g, landscape, c, 4 * t, k / t, k % t, 4)
  }

  /** Every tile of a t x t table contributes, in colour c, the count of its block of g. */
  ghost predicate BlocksAgree(table: ContribTable, g: seq<seq<string>>, landscape: seq<seq<int>>, r: Assignment, t: nat, c: int)
    requires Covering(g, landscape, 4 * t) && |table| == t * t
  {
    forall k :: 0 <= k < t * t ==> k in r && Get(table[k].Of(r[k]), c) == TileUncovered(g, landscape, c, t, k)
  }

  /** The count of colour c over the bands above tile row bi and the first bj blocks of band bi. */
  function CountBefore(g: seq<seq<string>>, landscape: seq<seq<int>>, c: int, t: nat, bi: nat, bj: nat): nat
    requires Covering(g, landscape, 4 * t)
    requires (bi < t && bj <= t) || (bi == t && bj == 0)
  {
    Uncovered(g, landscape, c, 4 * t, 0, 4 * bi) + (if bi < t then BlocksBefore(g, landscape, c, 4 * t, bi, bj) else 0)
  }

  /** One more tile: it adds its block's count to both sides. */
  lemma {:induction false} NextTile(table: ContribTable, g: seq<seq<string>>, landscape: seq<seq<int>>, r: Assignment,
                 t: nat, c: int, bi: nat, bj: nat)
    requires Covering(g, landscape, 4 * t) && |table| == t * t && BlocksAgree(table, g, landscape, r, t, c)
    requires bi < t && bj < t
    ensures bi * t + bj + 1 <= |table|
    ensures AssignedSum(table, r, c, bi * t + bj + 1)
         == AssignedSum(table, r, c, bi * t + bj) + BlockUncovered(g, landscape, c, 4 * t, bi, bj, 4)
    ensures CountBefore(g, landscape, c, t, bi, bj + 1)
         == CountBefore(g, landscape, c, t, bi, bj) + BlockUncovered(g, landscape, c, 4 * t, bi, bj, 4)
  {
    TilesOfRows(t, bi, bj + 1);
    DivModUnique(bi, bj, t);
    var k := bi * t + bj;
    assert k in r && Get(table[k].Of(r[k]), c) == TileUncovered(g, landscape, c, t, k);
  }

  /** Closing a band: its blocks make up its four rows. */
  lemma NextRow(g: seq<seq<string>>, landscape: seq<seq<int>>, c: int, t: nat, bi: nat)
    requires Covering(g, landscape, 4 * t) && bi < t
    ensures CountBefore(g, landscape, c, t, bi, t) == CountBefore(g, landscape, c, t, bi + 1, 0)
    ensures bi * t + t == (bi + 1) * t && (bi + 1) * t <= t * t
  {
    TilesOfRows(t, bi, t);
    Band(g, landscape, c, t, bi);
    RowsSplit(g, landscape, c, 4 * t, 0, 4 * bi, 4 * bi + 4);
  }

  /**
   * Tiles 0 .. bi * t + bj - 1 contribute, per colour, what the visualiser
   * counts in the bands above tile row bi plus the first bj blocks of band bi.
   */
  lemma {:induction false} TilesPrefix(table: ContribTable, g: seq<seq<string>>, landscape: seq<seq<int>>, r: Assignment,
                                       t: nat, c: int, bi: nat, bj: nat)
    requires Covering(g, landscape, 4 * t) && |table| == t * t && BlocksAgree(table, g, landscape, r, t, c)
    requires (bi < t && bj <= t) || (bi == t && bj == 0)
    ensures bi * t + bj <= |table|
    ensures AssignedSum(table, r, c, bi * t + bj) == CountBefore(g, landscape, c, t, bi, bj)
    decreases bi, bj
  {
    if bj > 0 {
      TilesPrefix(table, g, landscape, r, t, c, bi, bj - 1);
      TileStep(table, g, landscape, r, t, c, bi, bj);
    } else if bi > 0 {
      TilesPrefix(table, g, landscape, r, t, c, bi - 1, t);
      BandStep(table, g, landscape, r, t, c, bi, bj);
    } else {
      assert CountBefore(g, landscape, c, t, 0, 0) == 0;
    }
  }

  /** From the first bj - 1 tiles of tile row bi to the first bj. */
  lemma TileStep(table: ContribTable, g: seq<seq<string>>, landscape: seq<seq<int>>, r: Assignment,
                 t: nat, c: int, bi: nat, bj: nat)
    requires Covering(g, landscape, 4 * t) && |table| == t * t && BlocksAgree(table, g, landscape, r, t, c)
    requires bi < t && 0 < bj <= t && bi * t + (bj - 1) <= |table|
    requires AssignedSum(table, r, c, bi * t + (bj - 1)) == CountBefore(g, landscape, c, t, bi, bj - 1)
    ensures bi * t + bj <= |table|
    ensures AssignedSum(table, r, c, bi * t + bj) == CountBefore(g, landscape, c, t, bi, bj)
  {
    NextTile(table, g, landscape, r, t, c, bi, bj - 1);
    assert bi * t + (bj - 1) + 1 == bi * t + bj;
  }

  /** From all tiles of the rows above bi - 1 and all of row bi - 1 to the tiles above row bi. */
  lemma BandStep(table: ContribTable, g: seq<seq<string>>, landscape: seq<seq<int>>, r: Assignment,
                 t: nat, c: int, bi: nat, bj: nat)
    requires Covering(g, landscape, 4 * t) && |table| == t * t
    requires 0 < bi <= t && bj == 0 && (bi - 1) * t + t <= |table|
    requires AssignedSum(table, r, c, (bi - 1) * t + t) == CountBefore(g, landscape, c, t, bi - 1, t)
    ensures bi * t + bj <= |table|
    ensures AssignedSum(table, r, c, bi * t + bj) == CountBefore(g, landscape, c, t, bi, bj)
  {
    NextRow(g, landscape, c, t, bi - 1);
    assert (bi - 1) * t + t == bi * t + bj;
  }

  /** All t * t tiles together contribute what the visualiser counts on the whole grid. */
  lemma AllTiles(table: ContribTable, g: seq<seq<string>>, landscape: seq<seq<int>>, r: Assignment, t: nat, c: int)
    requires Covering(g, landscape, 4 * t) && |table| == t * t && BlocksAgree(table, g, landscape, r, t, c)
    ensures AssignedSum(table, r, c, t * t) == Uncovered(g, landscape, c, 4 * t, 0, 4 * t)
  {
    TilesPrefix(table, g, landscape, r, t, c, t, 0);
  }

  /** g is 4t x 4t and shows, in the block of every tile of a t x t tiling, the mask of that tile's shape in r. */
  ghost predicate ShowsTiles(g: seq<seq<string>>, r: Assignment, t: nat)
  {
    |g| == 4 * t && (forall x :: 0 <= x < 4 * t ==> |g[x]| == 4 * t)
    && forall k :: 0 <= k < t * t ==> k in r && BlockShows(g, k / t, k % t, r[k])
  }

  /** Entry e holds, for each shape, the contribution of the landscape's block under tile k. */
  ghost predicate EntryOf(e: TileContrib, landscape: seq<seq<int>>, t: nat, k: nat)
    requires IsGrid(landscape, 4 * t) && k < t * t
  {
    TileRowCol(t, k);
    forall s :: e.Of(s) == ContributionOf(PatchAt(landscape, 4 * t, k / t, k % t), s)
  }

  /** table has one entry per tile of a t x t tiling of the landscape, holding the contributions of its block. */
  ghost predicate TableOf(table: ContribTable, landscape: seq<seq<int>>, t: nat)
    requires IsGrid(landscape, 4 * t)
  {
    |table| == t * t && forall k :: 0 <= k < t * t ==> EntryOf(table[k], landscape, t, k)
  }

  /** Where g shows every cell's tile, the block of tile k shows the mask of k's shape. */
  lemma GridTile(g: seq<seq<string>>, r: Assignment, t: nat, k: nat)
    requires ShowsCells(g, r, t) && k < t * t
    ensures k in r && BlockShows(g, k / t, k % t, r[k])
  {
    TileRowCol(t, k);
    GridCell(g, r, t, k, 0, 0);
    forall a, b | 0 <= a < 4 && 0 <= b < 4
      ensures k in r && CellShows(g, k / t, k % t, r[k], a, b)
    {
      GridCell(g, r, t, k, a, b);
    }
  }

  /** Cell (a, b) of the block of tile k. */
  lemma GridCell(g: seq<seq<string>>, r: Assignment, t: nat, k: nat, a: nat, b: nat)
    requires ShowsCells(g, r, t) && k < t * t && a < 4 && b < 4
    ensures t > 0 && k / t < t && k % t < t && k in r
    ensures CellShows(g, k / t, k % t, r[k], a, b)
  {
    TileRowCol(t, k);
    var bi, bj := k / t, k % t;
    assert bi * t + bj == k;
    GridBlock(g, r, t, bi, bj, a, b);
  }

  /** Where g shows every cell's tile, it shows every tile's mask. */
  lemma GridShowsTiles(g: seq<seq<string>>, r: Assignment, t: nat)
    requires ShowsCells(g, r, t)
    ensures ShowsTiles(g, r, t)
  {
    forall k | 0 <= k < t * t
      ensures k in r && BlockShows(g, k / t, k % t, r[k])
    {
      GridTile(g, r, t, k);
    }
  }

  /** solveCSP's table holds, for every tile, the contributions of the block under it. */
  lemma ContributionTableOf(landscape: seq<seq<int>>, t: nat)
    requires IsGrid(landscape, 4 * t)
    ensures TableOf(ContributionTable(landscape), landscape, t)
  {
    forall k | 0 <= k < t * t
      ensures EntryOf(ContributionTable(landscape)[k], landscape, t, k)
    {
      ContributionTableTile(landscape, t, k);
    }
  }

  /** Tile k's entry of solveCSP's table holds the contributions of the block under tile k. */
  lemma ContributionTableTile(landscape: seq<seq<int>>, t: nat, k: nat)
    requires IsGrid(landscape, 4 * t) && k < t * t
    ensures TileCount(|landscape|) == t * t
    ensures EntryOf(ContributionTable(landscape)[k], landscape, t, k)
  {
    TilePatchAt(landscape, t, k);
    forall s
      ensures ContributionTable(landscape)[k].Of(s) == ContributionOf(TilePatch(landscape, k), s)
    {
      ContributionTableEntry(landscape, k, s);
    }
  }

  /** In a 4t x 4t landscape, the block solveCSP reads for tile k is the one in tile row k / t and column k % t. */
  lemma TilePatchAt(landscape: seq<seq<int>>, t: nat, k: nat)
    requires IsGrid(landscape, 4 * t) && k < t * t
    ensures TileCount(|landscape|) == t * t && t > 0 && k / t < t && k % t < t
    ensures TilePatch(landscape, k) == PatchAt(landscape, 4 * t, k / t, k % t)
  {
    TilesOfSide(t);
    TileRowCol(t, k);
  }

  /** Tile k contributes, per colour, the visualiser's count in its block. */
  lemma TileAgrees(table: ContribTable, g: seq<seq<string>>, landscape: seq<seq<int>>, r: Assignment,
                   t: nat, c: int, k: nat)
    requires IsGrid(landscape, 4 * t) && ShowsTiles(g, r, t) && TableOf(table, landscape, t) && 1 <= c <= 4 && k < t * t
    ensures Covering(g, landscape, 4 * t) && k < |table| && k in r
    ensures Get(table[k].Of(r[k]), c) == TileUncovered(g, landscape, c, t, k)
  {
    TileRowCol(t, k);
    assert k in r && BlockShows(g, k / t, k % t, r[k]);
    assert EntryOf(table[k], landscape, t, k);
    PatchUnderTile(landscape, t, k);
    BlockAgrees(g, landscape, c, 4 * t, k / t, k % t, PatchAt(landscape, 4 * t, k / t, k % t), r[k], 4, 0);
  }

  /** The block getPatch copies for tile k lies under tile k. */
  lemma PatchUnderTile(landscape: seq<seq<int>>, t: nat, k: nat)
    requires IsGrid(landscape, 4 * t) && k < t * t
    ensures t > 0 && k / t < t && k % t < t
    ensures UnderBlock(PatchAt(landscape, 4 * t, k / t, k % t), landscape, 4 * t, k / t, k % t)
  {
    TileRowCol(t, k);
    var n, bi, bj := 4 * t, k / t, k % t;
    forall a, b | 0 <= a < 4 && 0 <= b < 4
      ensures PatchAt(landscape, n, bi, bj)[a][b] == landscape[4 * bi + a][4 * bj + b]
    {
      PatchAtCell(landscape, n, bi, bj, a, b);
    }
  }

  /** Every tile agrees with its block. */
  lemma TilesAgree(table: ContribTable, g: seq<seq<string>>, landscape: seq<seq<int>>, r: Assignment, t: nat, c: int)
    requires IsGrid(landscape, 4 * t) && ShowsTiles(g, r, t) && TableOf(table, landscape, t) && 1 <= c <= 4
    ensures Covering(g, landscape, 4 * t) && |table| == t * t
    ensures BlocksAgree(table, g, landscape, r, t, c)
  {
    forall k | 0 <= k < t * t
      ensures k in r && Get(table[k].Of(r[k]), c) == TileUncovered(g, landscape, c, t, k)
    {
      TileAgrees(table, g, landscape, r, t, c, k);
    }
  }

  /**
   * On the grid a complete assignment leaves, the visualiser's count of
   * each colour 1..4 is the solver's total of that colour over all tiles.
   */
  lemma {:induction false} VisualiserCountsAssignedTotals(landscape: seq<seq<int>>, r: Assignment, t: nat)
    requires IsGrid(landscape, 4 * t) && Complete(r, t)
    ensures Covering(SolutionGrid(r, t), landscape, 4 * t) && |ContributionTable(landscape)| == t * t
    ensures forall c :: 1 <= c <= 4 ==>
      Uncovered(SolutionGrid(r, t), landscape, c, 4 * t, 0, 4 * t) == AssignedSum(ContributionTable(landscape), r, c, t * t)
  {
    TilesOfSide(t);
    SolutionGridCells(r, t);
    GridShowsTiles(SolutionGrid(r, t), r, t);
    ContributionTableOf(landscape, t);
    forall c | 1 <= c <= 4
      ensures Uncovered(SolutionGrid(r, t), landscape, c, 4 * t, 0, 4 * t) == AssignedSum(ContributionTable(landscape), r, c, t * t)
    {
      TilesAgree(ContributionTable(landscape), SolutionGrid(r, t), landscape, r, t, c);
      AllTiles(ContributionTable(landscape), SolutionGrid(r, t), landscape, r, t, c);
    }
  }

  // ---------------------------------------------------------------------
  // The solver's output, visualised

  /** The placements main prints for solution r: tiles 0 .. k - 1 in ascending order, each with its shape's name. */
  function SolutionPlacements(r: Assignment, k: nat): (ps: seq<TilePlacement>)
    requires forall v :: 0 <= v < k ==> v in r
    ensures |ps| == k
    ensures forall i :: 0 <= i < k ==> ps[i] == TilePlacement(i, Name(r[i]))
  {
    if k == 0 then [] else SolutionPlacements(r, k - 1) + [TilePlacement(k - 1, Name(r[k - 1]))]
  }

  /** Placement k of a solution writes "X" into cell (x, y) exactly when (x, y) lies in tile k and its shape covers it. */
  lemma PlacementMarks(r: Assignment, t: nat, k: nat, x: nat, y: nat)
    requires Complete(r, t) && k < t * t && x < 4 * t && y < 4 * t
    ensures t > 0
    ensures Marks(ShapeNamed(Name(r[k])), PlacementRow(k, t), PlacementCol(k, t), x, y)
        <==> TileOf(t, x, y) == k && Covers(r[k], x % TILE_SIZE, y % TILE_SIZE)
  {
    ShapeNamedName(r[k]);
    TileRowCol(t, k);
    var q, m := k / t, k % t;
    InBlock(q, x);
    InBlock(m, y);
    TileOfIs(t, x, y, k);
  }

  /** Cell x lies in the block starting at q * 4 exactly when x / 4 == q, and then it is x % 4 cells in. */
  lemma InBlock(q: int, x: nat)
    ensures (q * TILE_SIZE <= x < q * TILE_SIZE + TILE_SIZE) <==> x / TILE_SIZE == q
    ensures x / TILE_SIZE == q ==> x - q * TILE_SIZE == x % TILE_SIZE
  {
  }

  /** Cell (x, y) lies in tile k exactly when its tile row and column are those of k. */
  lemma TileOfIs(t: nat, x: nat, y: nat, k: nat)
    requires t > 0 && y < 4 * t
    ensures TileOf(t, x, y) == k <==> (x / TILE_SIZE == k / t && y / TILE_SIZE == k % t)
  {
    DivModUnique(x / 4, y / 4, t);
    assert k == (k / t) * t + k % t;
  }

  /** The first k placements of a solution cover exactly the covered cells of tiles 0 .. k - 1. */
  lemma {:induction false} SolutionCovered(r: Assignment, t: nat, k: nat, x: nat, y: nat)
    requires Complete(r, t) && k <= t * t && x < 4 * t && y < 4 * t
    ensures TileOf(t, x, y) < t * t && t > 0
    ensures CoveredBy(SolutionPlacements(r, k), t, x, y)
        <==> TileOf(t, x, y) < k && Covers(r[TileOf(t, x, y)], x % TILE_SIZE, y % TILE_SIZE)
  {
    TileOfInRange(t, x, y);
    if k > 0 {
      var ps := SolutionPlacements(r, k);
      assert ps[..k - 1] == SolutionPlacements(r, k - 1);
      SolutionCovered(r, t, k - 1, x, y);
      PlacementMarks(r, t, k - 1, x, y);
    }
  }

  /** One cell of the placed solution is the cell of the solution grid. */
  lemma {:induction false} PlacedCell(r: Assignment, t: nat, x: nat, y: nat)
    requires Complete(r, t) && x < 4 * t && y < 4 * t
    ensures TilesPerSide(4 * t) == t
    ensures PlacedGrid(SolutionPlacements(r, t * t), 4 * t)[x][y] == SolutionGrid(r, t)[x][y]
  {
    TilesOfSide(t);
    SolutionCovered(r, t, t * t, x, y);
  }

  /** Placing every tile of a complete assignment gives the solution grid. */
  lemma {:induction false} PlacedSolutionGrid(r: Assignment, t: nat)
    requires Complete(r, t)
    ensures TilesPerSide(4 * t) == t
    ensures PlacedGrid(SolutionPlacements(r, t * t), 4 * t) == SolutionGrid(r, t)
  {
    var g, h := PlacedGrid(SolutionPlacements(r, t * t), 4 * t), SolutionGrid(r, t);
    forall x | 0 <= x < 4 * t
      ensures g[x] == h[x]
    {
      forall y | 0 <= y < 4 * t
        ensures g[x][y] == h[x][y]
      {
        PlacedCell(r, t, x, y);
      }
    }
  }

  /**
   * The property the two programs share: when the solver's assignment is a
   * tiling of a landscape whose side is a multiple of four, visualising the
   * placements main prints for it leaves, for every colour 1..4, exactly
   * that colour's target of uncovered cells.
   */
  lemma {:induction false} VisualiserMeetsTargets(landscape: seq<seq<int>>, r: Assignment, supply: Supply, targets: Targets)
    requires IsGrid(landscape, |landscape|) && |landscape| % TILE_SIZE == 0
    requires Tiling(r, ContributionTable(landscape), supply, targets)
    ensures forall v :: 0 <= v < TileCount(|landscape|) ==> v in r
    ensures TileCount(|landscape|) > 0 ==> TilesPerSide(|landscape|) > 0
    ensures forall c :: 1 <= c <= 4 ==>
      c in targets
      && Uncovered(PlacedGrid(SolutionPlacements(r, TileCount(|landscape|)), |landscape|), landscape, c, |landscape|, 0, |landscape|)
         == targets[c]
  {
    var n := |landscape|;
    var t := n / TILE_SIZE;
    assert n == 4 * t;
    TilesOfSide(t);
    PlacedSolutionGrid(r, t);
    VisualiserCountsAssignedTotals(landscape, r, t);
  }
}
