# Tiling a coloured landscape: a Dafny model of the solver and its visualiser

The modelled program covers an n x n landscape of colours 0..4 with 4x4 tiles.
There are three tile shapes:

- `FULL_BLOCK` covers the whole block.
- `OUTER_BOUNDARY` covers the block's rim.
- `EL_SHAPE` covers the left column and the bottom row.

A supply says how many tiles of each shape are available. Targets say, for each colour 1..4, how many cells of that colour must stay visible after the tiling.

`Main.java` builds a per-tile contribution table with `getPatch` and `computeContribution`. It then runs a backtracking search: `selectVariable` picks the tile (fewest remaining values), `orderValues` picks the shape order (least constraining value), `ac3` prunes with bounds, and `globalTargetOk` checks a complete assignment. `main` prints the solution sorted by tile index.

`Test.java` reads such a solution back. `applyTile` draws each tile on a grid of `"."`, and `visualizeTiling` counts the uncovered cells of each colour.

The project has seven modules:

- `Wrappers` holds `Option`.
- `Shapes` holds the three shapes, their names and the EL pattern.
- `Contribution` models `getPatch` and `computeContribution`. The patch is a fresh `array2<int>`.
- `Table` models the table-building loop of `solveCSP`.
- `Csp` models `ac3`, `globalTargetOk`, `selectVariable` and `orderValues`.
- `Search` models `backtrack` and `solveCSP`.
- `Visualize` models `applyTile`, `TilePlacement` and `visualizeTiling`. The grid is an `array2<string>` that the methods update in place.

Loops become methods with loop invariants. Each method is proved against a specification function, and the properties are proved about those functions as lemmas.

Three results matter most:

- `Search.SolveCsp` is sound and complete. It returns an assignment only if that assignment is a tiling: every tile has a shape, no shape is used more often than the supply allows, and every target is met. It returns nothing only when no such tiling exists.
- `Visualize.VisualiserMeetsTargets` connects the two programs. When `main` prints the tiling and `visualizeTiling` draws it, the visualiser counts exactly each colour's target. In other words, the solver's contribution arithmetic agrees with the cells that `applyTile` leaves uncovered.
- `Visualize.MasksAgree` links the two masks: the cells `computeContribution` counts are exactly the cells `applyTile` leaves as `"."`.

Java's `HashMap` iteration is modelled in ascending key order. Tile indices and colours are small `Integer` keys, which such a map visits in ascending order. This gives a deterministic tie-break: the lowest tile index wins a tie, and the shape sort is stable.

On three inputs one might expect the code to reject, the model follows the code:

- The code reads a missing supply entry as 0 (`getOrDefault`) rather than rejecting it. `Search.Avail` models this.
- `solveCSP` does not require the side to be a multiple of 4. It uses `n / 4` tiles per side and ignores the remaining cells, and `Search.SolveCsp` does the same. Only the visualiser lemma assumes a multiple of 4.
- `globalTargetOk` returns false when a target is missing, because `Integer.equals(null)` is false. `ac3` would fail on the same map, so `Csp.Ac3` and `Search.Backtrack` require targets for colours 1..4 and `Csp.GlobalTargetOk` does not.

## Model

| member | source | states |
|---|---|---|
| Shapes.ShapeNamed | Main.java:104-116 | A string names at most one shape: when it names one, that shape's name is the string; when it names none, no shape has that name (the fall-through branch) |
| Shapes.NamesDistinct | Main.java:329-331 | The three shape names are pairwise distinct |
| Shapes.ShapeNamedName | Main.java:319-321 | Looking a shape up by its own name finds that shape |
| Contribution.ElCountedWherePatternZero | Main.java:117-125 | The EL shape counts a cell exactly where its pattern holds 0 |
| Contribution.TallySnoc | Main.java:126-129 | Counting one more cell adds 1 to its colour's count, and a colour-0 cell changes nothing |
| Contribution.TallyCounts | Main.java:109-112 | The tally has no key 0; each non-zero colour's count is its multiplicity among the counted cells; a key is present exactly when that colour occurs |
| Contribution.WeightBump | Main.java:111 | Incrementing one colour's count raises the total over colours 1..4 by one exactly when the colour is in 1..4 |
| Contribution.TallyWeight | Main.java:126-129 | The total of a tally is the number of counted cells that are not colour 0, hence at most the number of counted cells |
| Contribution.NothingCountedUnderFullBlock | Main.java:104-105 | A full block counts no cell |
| Contribution.FullBlockContributesNothing | Main.java:104-105 | A full block's contribution is the empty map, of weight 0 |
| Contribution.PartialContributionTallies | Main.java:123-132 | After any prefix of the row-major scan, the map built equals the tally of the cells counted so far |
| Contribution.TallyNextCell | Main.java:123-132 | One more step of the scan extends that tally by the next counted cell |
| Contribution.OuterBoundaryEdges | Main.java:107-114 | An outer boundary counts nothing before (1,1), nothing at the rim between rows, and nothing after (2,2) |
| Contribution.OuterBoundaryCountsInterior | Main.java:107-109 | An outer boundary counts exactly the four interior cells (1,1), (1,2), (2,1), (2,2) in that order |
| Contribution.OuterBoundaryContribution | Main.java:106-115 | The outer boundary's contribution counts each non-zero colour of the 2x2 interior, has keys 1..4 only and weight at most 4 |
| Contribution.ElShapeCountsNine | Main.java:117-132 | The EL shape counts exactly the nine cells off its pattern, in row-major order |
| Contribution.ElShapeContribution | Main.java:116-133 | The EL shape's contribution counts each non-zero colour of those nine cells, has keys 1..4 only and weight at most 9 |
| Contribution.ContributionColours | Main.java:102-136 | Over a patch of colours 0..4 every contribution has keys in 1..4 only |
| Contribution.PatchAtCell | Main.java:95 | Cell (i, j) of the patch of tile (r, c) is landscape cell (4r + i, 4c + j) |
| Contribution.GetPatch | Main.java:89-99 | Returns a fresh 4x4 array holding the landscape block of the given tile row and column |
| Contribution.ComputeContribution | Main.java:102-136 | For a shape name, returns that shape's contribution of the patch; for any other string, returns the empty map |
| Contribution.CountInterior | Main.java:107-114 | The interior loop builds the outer boundary's contribution |
| Contribution.CountOutsideEl | Main.java:123-132 | The pattern loop builds the EL shape's contribution |
| Table.TilePosition | Main.java:315-317 | A tile index below numTiles names a tile row and column below n / 4, so its block lies inside the landscape |
| Table.ContributionTableEntry | Main.java:314-322 | The table entry of tile idx holds, for each shape, the contribution of the block of tile row idx / tileCols and column idx % tileCols |
| Table.TilePatchColoured | Main.java:317 | The block under a tile of a coloured landscape is coloured |
| Table.ContributionTableColoured | Main.java:313-323 | Over a landscape of colours 0..4 every contribution in the table has keys 1..4 only |
| Table.BuildTable | Main.java:312-323 | The loop builds exactly the contribution table, one entry per tile index |
| Table.TileEntry | Main.java:315-322 | One pass of that loop yields the entry of tile idx |
| Csp.Unassigned | Main.java:144-149 | The unassigned list holds exactly the tiles below numTiles that are not assigned |
| Csp.DomainMin | Main.java:175-188 | The running minimum over a domain is empty exactly for an empty domain, and otherwise is the least count of the colour over the domain's shapes, attained by one of them |
| Csp.DomainMax | Main.java:175-188 | The same for the greatest count |
| Csp.DomainBetween | Main.java:181-188 | Every shape in a domain has its colour count between that domain's minimum and maximum |
| Csp.AddSnoc | Main.java:189-201 | Adding one more unassigned tile adds its domain's minimum to minAdd and its maximum to maxAdd, where an empty domain adds nothing |
| Csp.CompletionBetweenBounds | Main.java:167-205 | Every completion of the assignment from the domains has, for each colour, a total between current + minAdd and current + maxAdd |
| Csp.FeasibleNecessary | Main.java:203-211 | If some completion meets the targets, ac3's bounds check passes: pruning never discards a solution |
| Csp.FeasibleWhenComplete | Main.java:203-211 | On a complete assignment the bounds check passes exactly when the targets are met |
| Csp.AssignedTotals | Main.java:151-165 | current[c] is the sum of colour c over the contributions of the assigned tiles, for each colour 1..4 |
| Csp.AddCounts | Main.java:160-164 | Folding in one contribution adds its count of each colour 1..4 to the running totals |
| Csp.DomainBounds | Main.java:175-188 | The per-tile mins and maxs maps hold each colour's domain minimum and maximum, empty for an empty domain |
| Csp.FoldCounts | Main.java:183-187 | One shape updates every colour's running minimum and maximum |
| Csp.Ac3 | Main.java:139-212 | Returns true exactly when every colour's target lies between current + minAdd and current + maxAdd |
| Csp.TargetsInRange | Main.java:203-211 | The final loop returns true exactly when every colour's target lies between its two totals |
| Csp.UnassignedList | Main.java:144-149 | The first loop builds the ascending list of unassigned tiles |
| Csp.AddBounds | Main.java:167-202 | minAdd and maxAdd are the sums of the domain minima and maxima over the unassigned tiles |
| Csp.AddTileBounds | Main.java:189-201 | One tile adds its minimum and maximum to each colour, with the empty sentinel adding nothing |
| Csp.GlobalTargetOk | Main.java:245-266 | Returns true exactly when the assigned tiles' totals equal the targets for every colour 1..4 |
| Csp.SelectVariable | Main.java:215-228 | Returns -1 exactly when every tile is assigned; otherwise returns an unassigned tile whose domain is smallest, and the lowest-indexed such tile |
| Csp.Insert | Main.java:234-240 | Inserting a shape into a sorted list keeps it sorted, adds exactly that shape, and keeps shapes of equal key in their order (stability) |
| Csp.InsertStep | Main.java:234-240 | Inserting past a smaller head keeps those three properties |
| Csp.InsertStepSorted | Main.java:234-240 | Inserting past a head no larger than the shape keeps the list sorted |
| Csp.InsertStepWithKey | Main.java:234-240 | Inserting past a smaller head keeps the order of equal-key shapes |
| Csp.SortByKey | Main.java:234-240 | The sort yields a permutation, sorted by ascending key, with shapes of equal key in their original order |
| Csp.OrderValues | Main.java:231-242 | The ordered values are the tile's domain permuted, ascending by contribution sum, with ties in domain order |
| Csp.KeyZeroHeadStaysFirst | Main.java:234-240 | A list whose head has key 0 keeps that head first after the stable sort |
| Search.AssignedCount | Main.java:275 | assignment.size() == numTiles exactly when every tile is assigned |
| Search.NewlyUsedFix | Main.java:282-286 | Fixing tile v to its shape in the solution moves that tile from the newly used count into the assignment |
| Search.NothingNewlyUsed | Main.java:275-276 | A complete assignment uses nothing beyond itself |
| Search.CompleteState | Main.java:275-277 | At a complete assignment the only possible solution is the assignment itself, and it is one exactly when the targets are met |
| Search.AvailAfterTake | Main.java:285-286 | Taking one tile of a shape lowers that shape's supply by one and leaves the others unchanged |
| Search.ChildSolution | Main.java:282-296 | A solution that gives tile v the tried shape solves the child state |
| Search.ParentSolution | Main.java:282-298 | A solution of the child state solves the parent and gives tile v the tried shape |
| Search.SupplyNeeded | Main.java:281 | A shape whose supply is used up occurs in no solution at that tile |
| Search.ChildRuledOut | Main.java:295-300 | When ac3 rejects the child, or the child has no solution, no solution gives tile v that shape |
| Search.ValuesCoverSolutions | Main.java:280 | Every solution gives the chosen tile one of the ordered values |
| Search.RuledOutExtend | Main.java:280-301 | Ruling out one more value extends the ruled-out prefix |
| Search.AllValuesRuledOut | Main.java:280-302 | When every ordered value is ruled out, the state has no solution |
| Search.Backtrack | Main.java:269-303 | Returns only solutions of the state (soundness), and returns nothing only when the state has none (completeness) |
| Search.TryValue | Main.java:281-300 | One iteration returns only solutions of the state, and returns nothing only when no solution gives the tile that value |
| Search.InitialDomains | Main.java:325-333 | Every one of the numTiles tiles starts with all three shapes |
| Search.NewlyUsedFromEmpty | Main.java:338 | From the empty assignment every used tile is newly used |
| Search.StartSolutions | Main.java:325-338 | The solutions of the starting state are exactly the tilings |
| Search.FullBlockTriedFirst | Main.java:329-338 | At the first choice of any tile the full block, whose contribution sum is 0, is tried first |
| Search.SolveCsp | Main.java:306-339 | Returns only tilings that meet the targets within the supply, and returns nothing only when no tiling exists |
| Visualize.ElCoversWherePatternOne | Test.java:13-18 | The EL shape covers a cell exactly where EL_SHAPE_PATTERN holds 1 |
| Visualize.MasksAgree | Test.java:45-72 | applyTile covers a cell of the block exactly when computeContribution does not count it |
| Visualize.CoveredCells | Test.java:45-72 | A full block covers 16 cells, an outer boundary 12 and an EL shape 7 |
| Visualize.ApplyTile | Test.java:45-72 | Writes "X" into exactly the cells the named shape covers in the block at (row, col) and leaves every other cell unchanged; an unknown name changes nothing |
| Visualize.PlacementInGrid | Test.java:143-149 | A tile index below blocksPerRow squared puts its block inside the grid |
| Visualize.PlaceTiles | Test.java:143-151 | After the placement loop a cell is "X" exactly when some placement covers it, and otherwise holds its old value |
| Visualize.CountUncovered | Test.java:155-170 | counter[0] stays 0, and counter[c] is the number of cells of colour c that are still "." |
| Visualize.CountRow | Test.java:165-169 | One row adds its uncovered cells of each colour to counter |
| Visualize.PlacedGrid | Test.java:137-151 | The grid after placement is gridSize x gridSize |
| Visualize.VisualizeTiling | Test.java:132-170 | counter[c] is the number of cells of colour c that no placement covers |
| Visualize.SolutionGridCells | Test.java:143-151 | Each cell of the drawn solution shows "X" exactly when its tile's shape covers it |
| Visualize.GridBlock | Test.java:148-150 | Block (bi, bj) of the drawing shows the shape of tile bi * t + bj |
| Visualize.BlockAgrees | Test.java:163-169 | Over any prefix of a block, computeContribution's partial count of a colour equals the uncovered cells of that colour in the drawing |
| Visualize.BlockAgreesNextRow | Test.java:163-169 | That agreement carries from the end of one block row to the start of the next |
| Visualize.BlockAgreesNextCell | Test.java:165-168 | That agreement carries over one more cell |
| Visualize.ContributionStep | Main.java:123-130 | One scan step adds 1 to colour c exactly when the cell is counted and has colour c |
| Visualize.RowSplit | Test.java:165-169 | A row's uncovered count splits at any column |
| Visualize.RowsSplit | Test.java:163-170 | The grid's uncovered count splits at any row |
| Visualize.BandPrefix | Test.java:163-170 | The first 4 rows of a band, up to block column bj, count the blocks before bj |
| Visualize.BandPrefixStep | Test.java:163-170 | Adding the next block of a band adds that block's count |
| Visualize.BlockRows | Test.java:163-170 | A block's uncovered count is the sum over its four rows |
| Visualize.Band | Test.java:163-170 | A band of 4 rows counts the sum of its t blocks |
| Visualize.NextTile | Main.java:156-164 | Adding the next tile in row-major order adds its contribution to the assigned sum and its block to the visualiser's count |
| Visualize.NextRow | Test.java:163-170 | The end of one band is the start of the next |
| Visualize.TilesPrefix | Main.java:156-164 | The assigned sum over the first tiles equals the visualiser's count over their blocks |
| Visualize.TileStep | Main.java:156-164 | That equality carries over one more tile within a band |
| Visualize.BandStep | Main.java:156-164 | That equality carries over the start of the next band |
| Visualize.AllTiles | Main.java:151-165 | The assigned sum over all tiles equals the visualiser's count over the whole grid |
| Visualize.GridTile | Test.java:145-151 | Tile k's block of the drawing shows tile k's shape |
| Visualize.GridCell | Test.java:148-150 | Each cell of tile k's block shows whether tile k's shape covers it |
| Visualize.GridShowsTiles | Test.java:145-151 | Every tile's block of the drawing shows its shape |
| Visualize.ContributionTableOf | Main.java:312-323 | Every table entry is the contribution of its tile's block |
| Visualize.ContributionTableTile | Main.java:314-322 | The entry of tile k is the contribution of block (k / t, k % t) |
| Visualize.TilePatchAt | Main.java:315-317 | Tile k's patch is the block in tile row k / t and tile column k % t |
| Visualize.TileAgrees | Test.java:166-167 | Tile k's table entry for its assigned shape counts exactly the uncovered cells of each colour in its block |
| Visualize.PatchUnderTile | Main.java:95 | Tile k's patch lies over block (k / t, k % t) of the landscape |
| Visualize.TilesAgree | Test.java:166-167 | Every tile's contribution equals its block's uncovered count |
| Visualize.VisualiserCountsAssignedTotals | Test.java:155-170 | For a complete assignment, the visualiser's count of each colour equals the solver's assigned total |
| Visualize.SolutionPlacements | Main.java:349-352 | The printed solution lists tile i with its shape's name, for i in ascending order |
| Visualize.PlacementMarks | Test.java:145-150 | Placement k marks a cell exactly when the cell lies in tile k and tile k's shape covers it |
| Visualize.SolutionCovered | Test.java:145-151 | A cell is covered by the placements exactly when its tile's shape covers it |
| Visualize.PlacedCell | Test.java:137-151 | Each cell of the drawn printed solution equals that cell of the solution's drawing |
| Visualize.PlacedSolutionGrid | Test.java:137-151 | Drawing the printed solution yields the solution's drawing |
| Visualize.VisualiserMeetsTargets | Main.java:345-352 | For a tiling of a landscape whose side is a multiple of 4, visualising what main prints counts exactly each colour's target |

## Left out

- `parseInput` (both copies), reading `tilesproblem.txt` and `output.txt`, and all printing are not modelled. The landscape, supply and targets are parameters. `Visualize.VisualizeTiling` takes the landscape as a parameter instead of re-reading the file.
- `Test.java`'s fixed `GRID_SIZE` of 20 is not modelled: the grid size is a parameter.
- `Visualize.VisualizeTiling` does not model the tile-type counter `counter2` (Test.java:157-160, 172-175), which counts the placements of each shape for printing.
  - `counter2` holds only the three shape names, so a placement with any other type makes `counter2.get` return null, and the increment at Test.java:174 throws a `NullPointerException`.
  - On such placements Java never finishes `visualizeTiling`, but the model still returns the colour counts. Its placement loop, like `applyTile`, skips an unknown type.
  - `Visualize.VisualiserMeetsTargets` is unaffected, because the printed solution names only the three shapes.
- Java `int` overflow is not modelled. All counts are unbounded integers.
- The `Integer.MAX_VALUE` / `Integer.MIN_VALUE` sentinels of `ac3` are modelled as `Option` values. `None` plays the sentinel's role: it adds nothing to a bound.
- `HashMap` iteration is modelled in ascending key order. Sums over it do not depend on that order.
- `Search.Backtrack` models the copies of the assignment, the supply and the domains that `backtrack` makes for each child (Main.java:282-293) as values.
- Exceptions are not modelled. Apart from the `counter2` case above, inputs that would make Java throw are excluded by `requires`:
  - a null target in `ac3`;
  - division by zero when `blocksPerRow` is 0 and there is a placement;
  - a placement outside the grid;
  - a colour outside 0..4 used as a counter index.
- `Search.SolveCsp` requires a square landscape of colours 0..4.
