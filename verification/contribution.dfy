/**
 * Per-tile contributions (Main.java, getPatch and computeContribution):
 * for a tile and a cover shape, how many cells of each colour the shape
 * leaves uncovered.
 */
module Contribution {
  import opened Wrappers
  import opened Shapes

  /** Colour label -> number of counted cells of that colour; an absent key reads as 0. */
  type Counts = map<int, nat>

  /** The 4x4 block of colour labels under one tile. */
  type Patch = seq<seq<int>>

  /** The landscape: n rows of n colour labels. */
  predicate IsGrid(landscape: seq<seq<int>>, n: nat)
  {
    |landscape| == n && forall i :: 0 <= i < n ==> |landscape[i]| == n
  }

  /** Colour labels are 0 (no colour) to 4. */
  predicate IsColour(v: int)
  {
    0 <= v <= 4
  }

  predicate Coloured(landscape: seq<seq<int>>)
  {
    forall i, j :: 0 <= i < |landscape| && 0 <= j < |landscape[i]| ==> IsColour(landscape[i][j])
  }

  predicate IsPatch(p: Patch)
  {
    |p| == 4 && forall i :: 0 <= i < 4 ==> |p[i]| == 4
  }

  predicate PatchColoured(p: Patch)
    requires IsPatch(p)
  {
    forall i, j :: 0 <= i < 4 && 0 <= j < 4 ==> IsColour(p[i][j])
  }

  /** Java's getOrDefault(c, 0). */
  function Get(m: Counts, c: int): nat
  {
    if c in m then m[c] else 0
  }

  /** Sum of the counts of colours 1 to 4. */
  function Weight(m: Counts): nat
  {
    Get(m, 1) + Get(m, 2) + Get(m, 3) + Get(m, 4)
  }

  /** The cells of a tile whose colour computeContribution counts for shape s. */
  predicate Counted(s: Shape, i: nat, j: nat)
    requires i < 4 && j < 4
  {
    match s
    case FullBlock => false
    case OuterBoundary => 1 <= i <= 2 && 1 <= j <= 2
    case ElShape => i < 3 && 0 < j
  }

  /** EL_SHAPE counts exactly the cells where the L pattern holds 0. */
  lemma ElCountedWherePatternZero(i: nat, j: nat)
    requires i < 4 && j < 4
    ensures Counted(ElShape, i, j) <==> EL_SHAPE_PATTERN[i][j] == 0
  {
  }

  /**
   * Colour labels of the counted cells that come before cell (i, j) in
   * row-major order: the whole rows above row i, then the first j cells of
   * row i. CountedBefore(p, s, 4, 0) covers the whole patch.
   */
  function CountedBefore(p: Patch, s: Shape, i: nat, j: nat): seq<int>
    requires IsPatch(p) && i <= 4 && j <= 4 && (i == 4 ==> j == 0)
    decreases i, j
  {
    if j == 0 then
      (if i == 0 then [] else CountedBefore(p, s, i - 1, 4))
    else
      CountedBefore(p, s, i, j - 1) + (if Counted(s, i, j - 1) then [p[i][j - 1]] else [])
  }

  /**
   * Per-colour tally of colour labels, accumulated left to right as
   * computeContribution does: a non-zero label c bumps the count under key c.
   */
  function Tally(vals: seq<int>): Counts
  {
    if vals == [] then map[]
    else
      var m, x := Tally(vals[..|vals| - 1]), vals[|vals| - 1];
      if x == 0 then m else m[x := Get(m, x) + 1]
  }

  /**
   * The map computeContribution has built once its scan reaches cell (i, j),
   * row-major: each counted cell with a non-zero label c bumps the count
   * under key c, as contrib.put(c, contrib.getOrDefault(c, 0) + 1) does.
   */
  function PartialContribution(p: Patch, s: Shape, i: nat, j: nat): Counts
    requires IsPatch(p) && i <= 4 && j <= 4 && (i == 4 ==> j == 0)
    decreases i, j
  {
    if j == 0 then
      (if i == 0 then map[] else PartialContribution(p, s, i - 1, 4))
    else
      var m, x := PartialContribution(p, s, i, j - 1), p[i][j - 1];
      if Counted(s, i, j - 1) && x != 0 then m[x := Get(m, x) + 1] else m
  }

  /** The contribution map computeContribution builds for a recognised shape. */
  function ContributionOf(p: Patch, s: Shape): Counts
    requires IsPatch(p)
  {
    PartialContribution(p, s, 4, 0)
  }

  // ---------------------------------------------------------------------
  // What a tally means

  /** Counting one more label: the step computeContribution's loops take. */
  lemma TallySnoc(vals: seq<int>, x: int)
    ensures Tally(vals + [x]) == if x == 0 then Tally(vals) else Tally(vals)[x := Get(Tally(vals), x) + 1]
  {
    assert (vals + [x])[..|vals|] == vals;
  }

  /** A tally holds, for every non-zero colour, its number of occurrences, and a key only where that number is positive. */
  lemma {:induction false} TallyCounts(vals: seq<int>)
    ensures 0 !in Tally(vals)
    ensures forall c :: c != 0 ==> Get(Tally(vals), c) == multiset(vals)[c]
    ensures forall c :: c in Tally(vals) <==> c != 0 && multiset(vals)[c] > 0
  {
    if vals != [] {
      var init, x := vals[..|vals| - 1], vals[|vals| - 1];
      assert vals == init + [x];
      TallyCounts(init);
      assert multiset(vals) == multiset(init) + multiset{x};
    }
  }

  /** Bumping the count of colour x adds one to the weight exactly when x is a colour 1..4. */
  lemma WeightBump(m: Counts, x: int)
    ensures Weight(m[x := Get(m, x) + 1]) == Weight(m) + (if 1 <= x <= 4 then 1 else 0)
  {
    var m' := m[x := Get(m, x) + 1];
    assert forall c :: c != x ==> Get(m', c) == Get(m, c);
  }

  /** Colour labels 0..4 only: the tally's keys lie in 1..4 and its weight counts the non-zero labels. */
  lemma {:induction false} TallyWeight(vals: seq<int>)
    requires forall k :: 0 <= k < |vals| ==> IsColour(vals[k])
    ensures forall c :: c in Tally(vals) ==> 1 <= c <= 4
    ensures Weight(Tally(vals)) == |vals| - multiset(vals)[0]
    ensures Weight(Tally(vals)) <= |vals|
  {
    if vals != [] {
      var init, x := vals[..|vals| - 1], vals[|vals| - 1];
      assert vals == init + [x];
      TallyWeight(init);
      assert multiset(vals) == multiset(init) + multiset{x};
      if x != 0 {
        WeightBump(Tally(init), x);
      }
    }
  }

  // ---------------------------------------------------------------------
  // The three shapes

  lemma {:induction false} NothingCountedUnderFullBlock(p: Patch, i: nat, j: nat)
    requires IsPatch(p) && i <= 4 && j <= 4 && (i == 4 ==> j == 0)
    ensures CountedBefore(p, FullBlock, i, j) == []
    decreases i, j
  {
    if j > 0 {
      NothingCountedUnderFullBlock(p, i, j - 1);
    } else if i > 0 {
      NothingCountedUnderFullBlock(p, i - 1, 4);
    }
  }

  /** FULL_BLOCK contributes the empty map, whatever the patch holds. */
  lemma FullBlockContributesNothing(p: Patch)
    requires IsPatch(p)
    ensures ContributionOf(p, FullBlock) == map[]
    ensures Weight(ContributionOf(p, FullBlock)) == 0
  {
    NothingCountedUnderFullBlock(p, 4, 0);
    PartialContributionTallies(p, FullBlock, 4, 0);
  }

  /** The accumulated map is the tally of the counted labels seen so far. */
  lemma {:induction false} PartialContributionTallies(p: Patch, s: Shape, i: nat, j: nat)
    requires IsPatch(p) && i <= 4 && j <= 4 && (i == 4 ==> j == 0)
    ensures PartialContribution(p, s, i, j) == Tally(CountedBefore(p, s, i, j))
    decreases i, j
  {
    if j == 0 {
      if i > 0 {
        PartialContributionTallies(p, s, i - 1, 4);
      }
    } else {
      PartialContributionTallies(p, s, i, j - 1);
      TallyNextCell(p, s, i, j - 1);
    }
  }

  /** One cell further on, the accumulated map and the tally take the same step. */
  lemma TallyNextCell(p: Patch, s: Shape, i: nat, j: nat)
    requires IsPatch(p) && i < 4 && j < 4
    requires PartialContribution(p, s, i, j) == Tally(CountedBefore(p, s, i, j))
    ensures PartialContribution(p, s, i, j + 1) == Tally(CountedBefore(p, s, i, j + 1))
  {
    var before, m, x := CountedBefore(p, s, i, j), PartialContribution(p, s, i, j), p[i][j];
    if Counted(s, i, j) {
      assert CountedBefore(p, s, i, j + 1) == before + [x];
      assert PartialContribution(p, s, i, j + 1) == if x != 0 then m[x := Get(m, x) + 1] else m;
      TallySnoc(before, x);
    } else {
      assert CountedBefore(p, s, i, j + 1) == before;
      assert PartialContribution(p, s, i, j + 1) == m;
    }
  }

  /** The cells the OUTER_BOUNDARY loop never visits are not counted: the map it holds at (i, 3) is the map at (i + 1, 1). */
  lemma OuterBoundaryEdges(p: Patch)
    requires IsPatch(p)
    ensures PartialContribution(p, OuterBoundary, 1, 1) == map[]
    ensures forall i :: 1 <= i <= 2 ==> PartialContribution(p, OuterBoundary, i, 3) == PartialContribution(p, OuterBoundary, i + 1, 1)
    ensures PartialContribution(p, OuterBoundary, 3, 1) == ContributionOf(p, OuterBoundary)
  {
    var s := OuterBoundary;
    assert PartialContribution(p, s, 0, 1) == map[];
    assert PartialContribution(p, s, 0, 2) == map[];
    assert PartialContribution(p, s, 0, 3) == map[];
    assert PartialContribution(p, s, 0, 4) == map[];
    assert PartialContribution(p, s, 1, 1) == map[];
    assert PartialContribution(p, s, 3, 4) == PartialContribution(p, s, 3, 1) by {
      assert PartialContribution(p, s, 3, 2) == PartialContribution(p, s, 3, 1);
      assert PartialContribution(p, s, 3, 3) == PartialContribution(p, s, 3, 1);
    }
    forall i | 1 <= i <= 2
      ensures PartialContribution(p, s, i, 3) == PartialContribution(p, s, i + 1, 1)
    {
      assert PartialContribution(p, s, i, 4) == PartialContribution(p, s, i, 3);
    }
  }

  /** OUTER_BOUNDARY counts exactly the interior cells at offsets {1,2} x {1,2}. */
  lemma OuterBoundaryCountsInterior(p: Patch)
    requires IsPatch(p)
    ensures CountedBefore(p, OuterBoundary, 4, 0) == [p[1][1], p[1][2], p[2][1], p[2][2]]
  {
    var s := OuterBoundary;
    assert CountedBefore(p, s, 0, 4) == [];
    assert CountedBefore(p, s, 1, 1) == [];
    assert CountedBefore(p, s, 1, 3) == [p[1][1], p[1][2]];
    assert CountedBefore(p, s, 2, 1) == [p[1][1], p[1][2]];
    assert CountedBefore(p, s, 2, 3) == [p[1][1], p[1][2], p[2][1], p[2][2]];
    assert CountedBefore(p, s, 3, 2) == [p[1][1], p[1][2], p[2][1], p[2][2]];
  }

  /** OUTER_BOUNDARY: per colour, the number of interior cells of that colour; at most 4 in all; colour 0 never a key. */
  lemma OuterBoundaryContribution(p: Patch)
    requires IsPatch(p) && PatchColoured(p)
    ensures forall c :: c != 0 ==> Get(ContributionOf(p, OuterBoundary), c) == multiset{p[1][1], p[1][2], p[2][1], p[2][2]}[c]
    ensures 0 !in ContributionOf(p, OuterBoundary)
    ensures forall c :: c in ContributionOf(p, OuterBoundary) ==> 1 <= c <= 4
    ensures Weight(ContributionOf(p, OuterBoundary)) <= 4
  {
    var vals := [p[1][1], p[1][2], p[2][1], p[2][2]];
    assert IsColour(p[1][1]) && IsColour(p[1][2]) && IsColour(p[2][1]) && IsColour(p[2][2]);
    TallyWeight(vals);
    TallyCounts(vals);
    assert multiset(vals) == multiset{p[1][1], p[1][2], p[2][1], p[2][2]};
    OuterBoundaryCountsInterior(p);
    PartialContributionTallies(p, OuterBoundary, 4, 0);
  }

  /** The nine cells EL_SHAPE leaves uncovered: rows 0..2, columns 1..3. */
  function ElUncovered(p: Patch): seq<int>
    requires IsPatch(p)
  {
    [p[0][1], p[0][2], p[0][3],
     p[1][1], p[1][2], p[1][3],
     p[2][1], p[2][2], p[2][3]]
  }

  /** EL_SHAPE counts exactly the nine cells where the L pattern is 0. */
  lemma ElShapeCountsNine(p: Patch)
    requires IsPatch(p)
    ensures CountedBefore(p, ElShape, 4, 0) == ElUncovered(p)
  {
    var s := ElShape;
    assert CountedBefore(p, s, 0, 2) == [p[0][1]];
    assert CountedBefore(p, s, 0, 4) == [p[0][1], p[0][2], p[0][3]];
    assert CountedBefore(p, s, 1, 2) == [p[0][1], p[0][2], p[0][3], p[1][1]];
    assert CountedBefore(p, s, 1, 4) == [p[0][1], p[0][2], p[0][3], p[1][1], p[1][2], p[1][3]];
    assert CountedBefore(p, s, 2, 2) == [p[0][1], p[0][2], p[0][3], p[1][1], p[1][2], p[1][3], p[2][1]];
    assert CountedBefore(p, s, 2, 4) == ElUncovered(p);
    assert CountedBefore(p, s, 3, 2) == ElUncovered(p);
  }

  /** EL_SHAPE: per colour, the number of the nine cells of that colour; at most 9 in all; colour 0 never a key. */
  lemma ElShapeContribution(p: Patch)
    requires IsPatch(p) && PatchColoured(p)
    ensures forall c :: c != 0 ==> Get(ContributionOf(p, ElShape), c) == multiset(ElUncovered(p))[c]
    ensures 0 !in ContributionOf(p, ElShape)
    ensures forall c :: c in ContributionOf(p, ElShape) ==> 1 <= c <= 4
    ensures Weight(ContributionOf(p, ElShape)) <= 9
  {
    var vals := ElUncovered(p);
    TallyWeight(vals);
    TallyCounts(vals);
    ElShapeCountsNine(p);
    PartialContributionTallies(p, ElShape, 4, 0);
  }

  /** Whatever the shape, a coloured patch yields keys in 1..4 only. */
  lemma ContributionColours(p: Patch, s: Shape)
    requires IsPatch(p) && PatchColoured(p)
    ensures forall c :: c in ContributionOf(p, s) ==> 1 <= c <= 4
  {
    match s
    case FullBlock => FullBlockContributesNothing(p);
    case OuterBoundary => OuterBoundaryContribution(p);
    case ElShape => ElShapeContribution(p);
  }

  // ---------------------------------------------------------------------
  // The Java methods

  /** The value held by a 4x4 array. */
  function PatchOf(a: array2<int>): (p: Patch)
    requires a.Length0 == 4 && a.Length1 == 4
    reads a
    ensures IsPatch(p)
    ensures forall i, j :: 0 <= i < 4 && 0 <= j < 4 ==> p[i][j] == a[i, j]
  {
    seq(4, i requires 0 <= i < 4 reads a => seq(4, j requires 0 <= j < 4 reads a => a[i, j]))
  }

  /** The block of the landscape under the tile in tile row r, tile column c. */
  function PatchAt(landscape: seq<seq<int>>, n: nat, r: nat, c: nat): (p: Patch)
    requires IsGrid(landscape, n) && 4 * r + 4 <= n && 4 * c + 4 <= n
    ensures IsPatch(p)
  {
    var top, left := 4 * r, 4 * c;
    [BlockRow(landscape[top], left), BlockRow(landscape[top + 1], left),
     BlockRow(landscape[top + 2], left), BlockRow(landscape[top + 3], left)]
  }

  /** The four cells of a landscape row from column left on. */
  function BlockRow(row: seq<int>, left: nat): seq<int>
    requires left + 4 <= |row|
  {
    [row[left], row[left + 1], row[left + 2], row[left + 3]]
  }

  /** Cell (i, j) of the block under tile (r, c) is landscape cell (4r + i, 4c + j). */
  lemma PatchAtCell(landscape: seq<seq<int>>, n: nat, r: nat, c: nat, i: nat, j: nat)
    requires IsGrid(landscape, n) && 4 * r + 4 <= n && 4 * c + 4 <= n && i < 4 && j < 4
    ensures PatchAt(landscape, n, r, c)[i][j] == landscape[4 * r + i][4 * c + j]
  {
  }

  /** getPatch: a fresh 4x4 array holding exactly the tile's block of the landscape. */
  method GetPatch(landscape: seq<seq<int>>, n: nat, tileRow: nat, tileCol: nat) returns (patch: array2<int>)
    requires IsGrid(landscape, n) && 4 * tileRow + 4 <= n && 4 * tileCol + 4 <= n
    ensures fresh(patch) && patch.Length0 == 4 && patch.Length1 == 4
    ensures forall i, j :: 0 <= i < 4 && 0 <= j < 4 ==> patch[i, j] == landscape[4 * tileRow + i][4 * tileCol + j]
    ensures PatchOf(patch) == PatchAt(landscape, n, tileRow, tileCol)
  {
    var startRow := tileRow * TILE_SIZE;
    var startCol := tileCol * TILE_SIZE;
    patch := new int[TILE_SIZE, TILE_SIZE];
    for i := 0 to TILE_SIZE
      invariant forall i', j :: 0 <= i' < i && 0 <= j < 4 ==> patch[i', j] == landscape[startRow + i'][startCol + j]
    {
      for j := 0 to TILE_SIZE
        invariant forall i', j' :: 0 <= i' < i && 0 <= j' < 4 ==> patch[i', j'] == landscape[startRow + i'][startCol + j']
        invariant forall j' :: 0 <= j' < j ==> patch[i, j'] == landscape[startRow + i][startCol + j']
      {
        patch[i, j] := landscape[startRow + i][startCol + j];
      }
    }
    forall i | 0 <= i < 4
      ensures PatchOf(patch)[i] == PatchAt(landscape, n, tileRow, tileCol)[i]
    {
      forall j | 0 <= j < 4
        ensures PatchOf(patch)[i][j] == PatchAt(landscape, n, tileRow, tileCol)[i][j]
      {
        PatchAtCell(landscape, n, tileRow, tileCol, i, j);
      }
    }
  }

  /**
   * computeContribution: the per-colour count of non-zero cells the named
   * shape leaves uncovered; the empty map for FULL_BLOCK and for a name
   * that is not a shape. The two counting loops are the methods below.
   */
  method ComputeContribution(patch: array2<int>, tileType: string) returns (contrib: Counts)
    requires patch.Length0 == 4 && patch.Length1 == 4
    ensures ShapeNamed(tileType).None? ==> contrib == map[]
    ensures ShapeNamed(tileType).Some? ==> contrib == ContributionOf(PatchOf(patch), ShapeNamed(tileType).value)
  {
    contrib := map[];
    if tileType == "FULL_BLOCK" {
      FullBlockContributesNothing(PatchOf(patch));
      return contrib;
    } else if tileType == "OUTER_BOUNDARY" {
      contrib := CountInterior(patch, PatchOf(patch));
      return contrib;
    } else if tileType == "EL_SHAPE" {
      contrib := CountOutsideEl(patch, PatchOf(patch));
      return contrib;
    }
    return contrib;
  }

  /** The OUTER_BOUNDARY loop: visits the cells at offsets {1,2} x {1,2}. */
  method CountInterior(patch: array2<int>, ghost p: Patch) returns (contrib: Counts)
    requires patch.Length0 == 4 && patch.Length1 == 4 && IsPatch(p)
    requires forall i, j :: 0 <= i < 4 && 0 <= j < 4 ==> p[i][j] == patch[i, j]
    ensures contrib == ContributionOf(p, OuterBoundary)
  {
    contrib := map[];
    OuterBoundaryEdges(p);
    var i := 1;
    while i <= 2
      invariant 1 <= i <= 3
      invariant contrib == PartialContribution(p, OuterBoundary, i, 1)
    {
      var j := 1;
      while j <= 2
        invariant 1 <= j <= 3
        invariant contrib == PartialContribution(p, OuterBoundary, i, j)
      {
        var c := patch[i, j];
        assert c == p[i][j];
        if c != 0 {
          contrib := contrib[c := Get(contrib, c) + 1];
        }
        j := j + 1;
      }
      i := i + 1;
    }
  }

  /** The EL_SHAPE loop: visits all 16 cells and counts those where the L pattern is 0. */
  method CountOutsideEl(patch: array2<int>, ghost p: Patch) returns (contrib: Counts)
    requires patch.Length0 == 4 && patch.Length1 == 4 && IsPatch(p)
    requires forall i, j :: 0 <= i < 4 && 0 <= j < 4 ==> p[i][j] == patch[i, j]
    ensures contrib == ContributionOf(p, ElShape)
  {
    contrib := map[];
    var pattern := EL_SHAPE_PATTERN;
    for i := 0 to TILE_SIZE
      invariant contrib == PartialContribution(p, ElShape, i, 0)
    {
      for j := 0 to TILE_SIZE
        invariant contrib == PartialContribution(p, ElShape, i, j)
      {
        ElCountedWherePatternZero(i, j);
        if pattern[i][j] == 0 {
          var c := patch[i, j];
          assert c == p[i][j];
          if c != 0 {
            contrib := contrib[c := Get(contrib, c) + 1];
          }
        }
      }
    }
  }
}
