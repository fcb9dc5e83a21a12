/**
 * The per-tile contribution table solveCSP builds (Main.java): tile idx of
 * an n x n landscape is the 4x4 block in tile row idx / (n / 4) and tile
 * column idx % (n / 4), and for each of the three shapes the table holds
 * the contribution computeContribution gives for that block.
 */
module Table {
  import opened Shapes
  import opened Contribution

  /** The three contribution maps of one tile, one per shape. */
  datatype TileContrib = TileContrib(full: Counts, outer: Counts, el: Counts)
  {
    /** The map stored under the shape's name. */
    function Of(s: Shape): Counts
    {
      match s
      case FullBlock => full
      case OuterBoundary => outer
      case ElShape => el
    }
  }

  /** Tile index -> contributions; tile indices run from 0 to numTiles - 1. */
  type ContribTable = seq<TileContrib>

  /** Tiles per row (and per column) of an n x n landscape. */
  function TilesPerSide(n: nat): nat
  {
    n / TILE_SIZE
  }

  /** numTiles = tileRows * tileCols. */
  function TileCount(n: nat): nat
  {
    TilesPerSide(n) * TilesPerSide(n)
  }

  /** Every key of every contribution in the table is a colour 1..4. */
  predicate TableColoured(table: ContribTable)
  {
    forall v, s, c :: 0 <= v < |table| && c in table[v].Of(s) ==> 1 <= c <= 4
  }

  /** A positive factor can be cancelled from a strict inequality. */
  lemma CancelFactor(a: nat, b: nat, c: nat)
    requires a > 0 && a * b < a * c
    ensures b < c
  {
  }

  /**
   * A tile index below numTiles names a tile row and a tile column below
   * n / 4, so the tile's 4x4 block lies inside the landscape.
   */
  lemma TilePosition(n: nat, idx: nat)
    requires idx < TileCount(n)
    ensures TilesPerSide(n) > 0
    ensures idx / TilesPerSide(n) < TilesPerSide(n) && idx % TilesPerSide(n) < TilesPerSide(n)
    ensures 4 * (idx / TilesPerSide(n)) + 4 <= n && 4 * (idx % TilesPerSide(n)) + 4 <= n
  {
    var tc := TilesPerSide(n);
    var q := idx / tc;
    assert tc * q <= idx;
    CancelFactor(tc, q, tc);
  }

  /** The 4x4 block under tile idx: getPatch at tile row idx / tileCols, tile column idx % tileCols. */
  function TilePatch(landscape: seq<seq<int>>, idx: nat): (p: Patch)
    requires IsGrid(landscape, |landscape|) && idx < TileCount(|landscape|)
    ensures IsPatch(p)
  {
    var n := |landscape|;
    TilePosition(n, idx);
    PatchAt(landscape, n, idx / TilesPerSide(n), idx % TilesPerSide(n))
  }

  /** The table entry for tile idx. */
  function TileContribAt(landscape: seq<seq<int>>, idx: nat): TileContrib
    requires IsGrid(landscape, |landscape|) && idx < TileCount(|landscape|)
  {
    var p := TilePatch(landscape, idx);
    TileContrib(ContributionOf(p, FullBlock), ContributionOf(p, OuterBoundary), ContributionOf(p, ElShape))
  }

  /** The whole table, one entry per tile index. */
  function ContributionTable(landscape: seq<seq<int>>): (table: ContribTable)
    requires IsGrid(landscape, |landscape|)
    ensures |table| == TileCount(|landscape|)
  {
    seq(TileCount(|landscape|), idx requires 0 <= idx < TileCount(|landscape|) => TileContribAt(landscape, idx))
  }

  /**
   * The table has numTiles entries, and the entry of tile idx holds, for
   * each shape, the contribution of the block getPatch copies for that tile.
   */
  lemma ContributionTableEntry(landscape: seq<seq<int>>, idx: nat, s: Shape)
    requires IsGrid(landscape, |landscape|) && idx < TileCount(|landscape|)
    ensures ContributionTable(landscape)[idx].Of(s) == ContributionOf(TilePatch(landscape, idx), s)
  {
    var t := TileContribAt(landscape, idx);
    assert ContributionTable(landscape)[idx] == t;
    match s
    case FullBlock => assert t.Of(s) == t.full;
    case OuterBoundary => assert t.Of(s) == t.outer;
    case ElShape => assert t.Of(s) == t.el;
  }

  /** The block under a tile of a coloured landscape is coloured. */
  lemma TilePatchColoured(landscape: seq<seq<int>>, idx: nat)
    requires IsGrid(landscape, |landscape|) && idx < TileCount(|landscape|) && Coloured(landscape)
    ensures PatchColoured(TilePatch(landscape, idx))
  {
    var n := |landscape|;
    TilePosition(n, idx);
    var r, c := idx / TilesPerSide(n), idx % TilesPerSide(n);
    forall i, j | 0 <= i < 4 && 0 <= j < 4
      ensures IsColour(TilePatch(landscape, idx)[i][j])
    {
      PatchAtCell(landscape, n, r, c, i, j);
    }
  }

  /** Over a landscape of colours 0..4, every contribution in the table has keys in 1..4 only. */
  lemma ContributionTableColoured(landscape: seq<seq<int>>)
    requires IsGrid(landscape, |landscape|) && Coloured(landscape)
    ensures TableColoured(ContributionTable(landscape))
  {
    var table := ContributionTable(landscape);
    forall v, s | 0 <= v < |table|
      ensures forall c :: c in table[v].Of(s) ==> 1 <= c <= 4
    {
      var p := TilePatch(landscape, v);
      ContributionTableEntry(landscape, v, s);
      TilePatchColoured(landscape, v);
      ContributionColours(p, s);
    }
  }

  /**
   * The table-building loop of solveCSP: for idx from 0 to numTiles - 1,
   * record the entry of tile idx.
   */
  method BuildTable(landscape: seq<seq<int>>) returns (table: ContribTable)
    requires IsGrid(landscape, |landscape|)
    ensures table == ContributionTable(landscape)
  {
    var n := |landscape|;
    var tileRows := n / TILE_SIZE;
    var tileCols := n / TILE_SIZE;
    var numTiles := tileRows * tileCols;
    table := [];
    for idx := 0 to numTiles
      invariant |table| == idx
      invariant forall k :: 0 <= k < idx ==> table[k] == TileContribAt(landscape, k)
    {
      var entry := TileEntry(landscape, idx);
      table := table + [entry];
    }
  }

  /**
   * One pass of that loop: tile idx lies in tile row idx / tileCols and
   * tile column idx % tileCols; its patch is fetched and computeContribution
   * is called with each of the three shape names.
   */
  method TileEntry(landscape: seq<seq<int>>, idx: nat) returns (entry: TileContrib)
    requires IsGrid(landscape, |landscape|) && idx < TileCount(|landscape|)
    ensures entry == TileContribAt(landscape, idx)
  {
    var n := |landscape|;
    var tileCols := n / TILE_SIZE;
    var r := idx / tileCols;
    var c := idx % tileCols;
    TilePosition(n, idx);
    var patch := GetPatch(landscape, n, r, c);
    var full := ComputeContribution(patch, "FULL_BLOCK");
    var outer := ComputeContribution(patch, "OUTER_BOUNDARY");
    var el := ComputeContribution(patch, "EL_SHAPE");
    assert PatchOf(patch) == TilePatch(landscape, idx);
    entry := TileContrib(full, outer, el);
  }
}
