/**
 * The search of the tiling solver (Main.java): backtrack assigns one tile
 * at a time, choosing the tile by selectVariable and trying its shapes in
 * the order of orderValues, skipping shapes whose supply is used up and
 * pruning with ac3; solveCSP builds the table and the initial domains and
 * starts the search from the empty assignment.
 *
 * The search is sound and complete: what it returns is a tiling that meets
 * the targets within the supply, and it returns nothing only when there is
 * no such tiling.
 */
module Search {
  import opened Wrappers
  import opened Shapes
  import opened Contribution
  import opened Table
  import opened Csp

  /** Shape name -> number of tiles of that shape still available (remainingTiles). */
  type Supply = map<string, int>

  /** remainingTiles.getOrDefault(name, 0). */
  function Avail(rem: Supply, s: Shape): int
  {
    if Name(s) in rem then rem[Name(s)] else 0
  }

  /** A supply count below zero allows no tile, like a count of zero. */
  function Max0(x: int): nat
  {
    if x < 0 then 0 else x
  }

  /** The tile indices 0 to n - 1. */
  function Range(n: nat): (s: set<int>)
    ensures forall v :: v in s <==> 0 <= v < n
    ensures |s| == n
  {
    if n == 0 then {}
    else
      assert n - 1 !in Range(n - 1);
      Range(n - 1) + {n - 1}
  }

  /**
   * An assignment of tiles below n has at most n entries, and it has
   * exactly n (assignment.size() == numTiles) just when every tile is
   * assigned.
   */
  lemma AssignedCount(a: Assignment, n: nat)
    requires AssignedWithin(a, n)
    ensures |a| <= n
    ensures |a| == n <==> forall v :: 0 <= v < n ==> v in a
  {
    var keys, all := a.Keys, Range(n);
    assert keys <= all;
    assert |all - keys| == n - |a|;
    if |a| == n {
      assert all - keys == {};
      forall v | 0 <= v < n
        ensures v in a
      {
        assert v !in all - keys;
      }
    }
    if forall v :: 0 <= v < n ==> v in a {
      assert all == keys;
    }
  }

  // ---------------------------------------------------------------------
  // Solutions

  /** The number of tiles below k that r gives shape s and a leaves open. */
  ghost function NewlyUsed(r: Assignment, a: Assignment, s: Shape, k: nat): nat
  {
    if k == 0 then 0
    else NewlyUsed(r, a, s, k - 1) + (if k - 1 in r && k - 1 !in a && r[k - 1] == s then 1 else 0)
  }

  /**
   * r solves the search state: it completes a from the domains, uses no
   * more tiles of each shape than the supply holds, and meets the targets.
   */
  ghost predicate IsSolution(r: Assignment, a: Assignment, domains: Domains, table: ContribTable, rem: Supply, targets: Targets)
    requires |domains| == |table|
  {
    Completes(r, a, domains, |table|)
    && (forall s :: NewlyUsed(r, a, s, |table|) <= Max0(Avail(rem, s)))
    && TargetsMet(table, r, targets)
  }

  /** No solution of the state gives tile v the shape s. */
  ghost predicate NoSolutionWith(a: Assignment, domains: Domains, table: ContribTable, rem: Supply, targets: Targets, v: int, s: Shape)
    requires |domains| == |table|
  {
    forall r :: IsSolution(r, a, domains, table, rem, targets) && v in r ==> r[v] != s
  }

  /** Fixing tile v to s0 in a moves that tile out of the newly used count. */
  lemma {:induction false} NewlyUsedFix(r: Assignment, a: Assignment, v: int, s0: Shape, s: Shape, k: nat)
    requires v !in a && v in r && r[v] == s0
    ensures NewlyUsed(r, a, s, k) == NewlyUsed(r, a[v := s0], s, k) + (if s == s0 && 0 <= v < k then 1 else 0)
  {
    if k > 0 {
      NewlyUsedFix(r, a, v, s0, s, k - 1);
    }
  }

  /** An assignment uses no tile beyond what it already assigns. */
  lemma {:induction false} NothingNewlyUsed(a: Assignment, s: Shape, k: nat)
    ensures NewlyUsed(a, a, s, k) == 0
  {
    if k > 0 {
      NothingNewlyUsed(a, s, k - 1);
    }
  }

  /**
   * With every tile assigned, the only candidate is the assignment itself,
   * and it is a solution just when it meets the targets.
   */
  lemma CompleteState(a: Assignment, domains: Domains, table: ContribTable, rem: Supply, targets: Targets)
    requires Shaped(table, domains, a) && forall v :: 0 <= v < |table| ==> v in a
    ensures IsSolution(a, a, domains, table, rem, targets) <==> TargetsMet(table, a, targets)
    ensures forall r :: IsSolution(r, a, domains, table, rem, targets) ==> r == a
  {
    forall s
      ensures NewlyUsed(a, a, s, |table|) == 0
    {
      NothingNewlyUsed(a, s, |table|);
    }
    forall r | IsSolution(r, a, domains, table, rem, targets)
      ensures r == a
    {
      assert forall v :: v in r <==> v in a;
      assert forall v :: v in r ==> r[v] == a[v];
    }
  }

  /** The state after tile v takes shape s0: backtrack's newAssignment, newDomains and newRemaining. */
  ghost predicate IsChild(a: Assignment, domains: Domains, rem: Supply, v: int, s0: Shape,
                          a': Assignment, domains': Domains, rem': Supply)
  {
    0 <= v < |domains| && v !in a && Avail(rem, s0) > 0
    && a' == a[v := s0] && domains' == domains[v := [s0]] && rem' == rem[Name(s0) := rem[Name(s0)] - 1]
  }

  /** Taking one tile of s0 from the supply leaves the other shapes' counts alone. */
  lemma AvailAfterTake(rem: Supply, s0: Shape, s: Shape)
    requires Avail(rem, s0) > 0
    ensures Avail(rem[Name(s0) := rem[Name(s0)] - 1], s) == Avail(rem, s) - (if s == s0 then 1 else 0)
  {
    NamesDistinct(s, s0);
  }

  /** A solution that gives tile v the shape s0 solves the child state too. */
  lemma ChildSolution(r: Assignment, a: Assignment, domains: Domains, table: ContribTable, rem: Supply, targets: Targets,
                      v: int, s0: Shape, a': Assignment, domains': Domains, rem': Supply)
    requires |domains| == |table| && IsChild(a, domains, rem, v, s0, a', domains', rem')
    requires IsSolution(r, a, domains, table, rem, targets) && r[v] == s0
    ensures IsSolution(r, a', domains', table, rem', targets)
  {
    forall s
      ensures NewlyUsed(r, a', s, |table|) <= Max0(Avail(rem', s))
    {
      NewlyUsedFix(r, a, v, s0, s, |table|);
      AvailAfterTake(rem, s0, s);
    }
  }

  /** A solution of the child state solves the parent, when s0 was allowed for tile v. */
  lemma ParentSolution(r: Assignment, a: Assignment, domains: Domains, table: ContribTable, rem: Supply, targets: Targets,
                       v: int, s0: Shape, a': Assignment, domains': Domains, rem': Supply)
    requires |domains| == |table| && IsChild(a, domains, rem, v, s0, a', domains', rem') && s0 in domains[v]
    requires IsSolution(r, a', domains', table, rem', targets)
    ensures IsSolution(r, a, domains, table, rem, targets) && r[v] == s0
  {
    assert r[v] == a'[v];
    forall s
      ensures NewlyUsed(r, a, s, |table|) <= Max0(Avail(rem, s))
    {
      NewlyUsedFix(r, a, v, s0, s, |table|);
      AvailAfterTake(rem, s0, s);
    }
  }

  /** A solution that gives the open tile v the shape s needs a tile of s in the supply. */
  lemma SupplyNeeded(a: Assignment, domains: Domains, table: ContribTable, rem: Supply, targets: Targets, v: int, s: Shape)
    requires |domains| == |table| && 0 <= v < |table| && v !in a && Avail(rem, s) <= 0
    ensures NoSolutionWith(a, domains, table, rem, targets, v, s)
  {
    forall r | IsSolution(r, a, domains, table, rem, targets) && v in r
      ensures r[v] != s
    {
      if r[v] == s {
        NewlyUsedFix(r, a, v, s, s, |table|);
      }
    }
  }

  /** When the child state has no solution (ac3 rejects it, or the search below finds none), no solution gives v the shape s0. */
  lemma ChildRuledOut(a: Assignment, domains: Domains, table: ContribTable, rem: Supply, targets: Targets,
                      v: int, s0: Shape, a': Assignment, domains': Domains, rem': Supply)
    requires |domains| == |table| && IsChild(a, domains, rem, v, s0, a', domains', rem') && HasTargets(targets)
    requires AssignedWithin(a, |table|)
    requires !Feasible(table, domains', a', targets) || forall r :: !IsSolution(r, a', domains', table, rem', targets)
    ensures NoSolutionWith(a, domains, table, rem, targets, v, s0)
  {
    forall r | IsSolution(r, a, domains, table, rem, targets) && v in r
      ensures r[v] != s0
    {
      if r[v] == s0 {
        ChildSolution(r, a, domains, table, rem, targets, v, s0, a', domains', rem');
        FeasibleNecessary(table, domains', a', targets, r);
      }
    }
  }

  /** Every solution gives the open tile v one of the shapes listed for it. */
  lemma ValuesCoverSolutions(a: Assignment, domains: Domains, table: ContribTable, rem: Supply, targets: Targets, v: int, vals: seq<Shape>)
    requires |domains| == |table| && 0 <= v < |table| && v !in a
    requires multiset(vals) == multiset(domains[v])
    ensures forall r :: IsSolution(r, a, domains, table, rem, targets) ==> r[v] in vals
  {
    forall r | IsSolution(r, a, domains, table, rem, targets)
      ensures r[v] in vals
    {
      assert r[v] in multiset(domains[v]);
    }
  }

  /** An element of a permutation of ys is an element of ys. */
  lemma PermutedMember(xs: seq<Shape>, ys: seq<Shape>, i: int)
    requires multiset(xs) == multiset(ys) && 0 <= i < |xs|
    ensures xs[i] in ys
  {
    assert xs[i] in multiset(ys);
  }

  /** Ruling out one more value of the list extends the ruled-out prefix. */
  lemma RuledOutExtend(a: Assignment, domains: Domains, table: ContribTable, rem: Supply, targets: Targets,
                       v: int, vals: seq<Shape>, i: int)
    requires |domains| == |table| && 0 <= i < |vals|
    requires forall k :: 0 <= k < i ==> NoSolutionWith(a, domains, table, rem, targets, v, vals[k])
    requires NoSolutionWith(a, domains, table, rem, targets, v, vals[i])
    ensures forall k :: 0 <= k < i + 1 ==> NoSolutionWith(a, domains, table, rem, targets, v, vals[k])
  {
  }

  /** Once every shape of v's domain is ruled out, the state has no solution. */
  lemma AllValuesRuledOut(a: Assignment, domains: Domains, table: ContribTable, rem: Supply, targets: Targets, v: int, vals: seq<Shape>)
    requires |domains| == |table| && 0 <= v < |table| && v !in a
    requires multiset(vals) == multiset(domains[v])
    requires forall k :: 0 <= k < |vals| ==> NoSolutionWith(a, domains, table, rem, targets, v, vals[k])
    ensures forall r :: !IsSolution(r, a, domains, table, rem, targets)
  {
    ValuesCoverSolutions(a, domains, table, rem, targets, v, vals);
  }

  // ---------------------------------------------------------------------
  // backtrack and solveCSP

  /**
   * backtrack: with every tile assigned, the assignment if it meets the
   * targets; otherwise the first solution found by trying, for the tile
   * selectVariable picks, each shape in orderValues' order that the supply
   * still holds and ac3 accepts. None when the state has no solution.
   */
  method Backtrack(assignment: Assignment, domains: Domains, table: ContribTable, remainingTiles: Supply,
                   targets: Targets, numTiles: nat) returns (result: Option<Assignment>)
    requires |table| == numTiles && Shaped(table, domains, assignment)
    requires TableColoured(table) && HasTargets(targets)
    ensures result.Some? ==> IsSolution(result.value, assignment, domains, table, remainingTiles, targets)
    ensures result.None? ==> forall r :: !IsSolution(r, assignment, domains, table, remainingTiles, targets)
    decreases numTiles - |assignment|, 1
  {
    AssignedCount(assignment, numTiles);
    if |assignment| == numTiles {
      var ok := GlobalTargetOk(assignment, table, targets);
      CompleteState(assignment, domains, table, remainingTiles, targets);
      return if ok then Some(assignment) else None;
    }

    var v := SelectVariable(assignment, domains);
    var vals := OrderValues(v, domains, table);
    for i := 0 to |vals|
      invariant forall k :: 0 <= k < i ==> NoSolutionWith(assignment, domains, table, remainingTiles, targets, v, vals[k])
    {
      PermutedMember(vals, domains[v], i);
      var res := TryValue(assignment, domains, table, remainingTiles, targets, numTiles, v, vals[i]);
      if res.Some? {
        return res;
      }
      RuledOutExtend(assignment, domains, table, remainingTiles, targets, v, vals, i);
    }
    AllValuesRuledOut(assignment, domains, table, remainingTiles, targets, v, vals);
    return None;
  }

  /**
   * One pass of backtrack's loop over the values of tile v: skip val when
   * its supply is used up; otherwise assign it, take one tile from the
   * supply, narrow v's domain to val, and search on when ac3 accepts. The
   * result is a solution of the state, or None when no solution gives v
   * the shape val.
   */
  method TryValue(assignment: Assignment, domains: Domains, table: ContribTable, remainingTiles: Supply,
                  targets: Targets, numTiles: nat, v: int, val: Shape) returns (result: Option<Assignment>)
    requires |table| == numTiles && Shaped(table, domains, assignment)
    requires TableColoured(table) && HasTargets(targets)
    requires 0 <= v < numTiles && v !in assignment && val in domains[v]
    ensures result.Some? ==> IsSolution(result.value, assignment, domains, table, remainingTiles, targets)
    ensures result.None? ==> NoSolutionWith(assignment, domains, table, remainingTiles, targets, v, val)
    decreases numTiles - |assignment|, 0
  {
    AssignedCount(assignment, numTiles);
    if Avail(remainingTiles, val) <= 0 {
      SupplyNeeded(assignment, domains, table, remainingTiles, targets, v, val);
      return None;
    }
    var newAssignment := assignment[v := val];
    var newRemaining := remainingTiles[Name(val) := remainingTiles[Name(val)] - 1];
    var newDomains := domains[v := [val]];

    var ok := Ac3(newDomains, newAssignment, table, targets, numTiles);
    if ok {
      var res := Backtrack(newAssignment, newDomains, table, newRemaining, targets, numTiles);
      if res.Some? {
        ParentSolution(res.value, assignment, domains, table, remainingTiles, targets, v, val, newAssignment, newDomains, newRemaining);
        return res;
      }
    }
    ChildRuledOut(assignment, domains, table, remainingTiles, targets, v, val, newAssignment, newDomains, newRemaining);
    return None;
  }

  /** The shapes every tile may take at the start, in the order solveCSP lists them. */
  const ALL_SHAPES: seq<Shape> := [FullBlock, OuterBoundary, ElShape]

  /** The initial domains of n tiles. */
  function InitialDomains(n: nat): (domains: Domains)
    ensures |domains| == n
  {
    seq(n, _ => ALL_SHAPES)
  }

  /** The number of tiles below k that r gives shape s. */
  ghost function Uses(r: Assignment, s: Shape, k: nat): nat
  {
    if k == 0 then 0
    else Uses(r, s, k - 1) + (if k - 1 in r && r[k - 1] == s then 1 else 0)
  }

  /**
   * What the solver is asked for: a shape for every tile, no shape used
   * more often than the supply allows, and every colour's uncovered count
   * equal to its target.
   */
  ghost predicate Tiling(r: Assignment, table: ContribTable, supply: Supply, targets: Targets)
  {
    (forall v :: v in r <==> 0 <= v < |table|)
    && (forall s :: Uses(r, s, |table|) <= Max0(Avail(supply, s)))
    && TargetsMet(table, r, targets)
  }

  /** From the empty assignment every used tile is newly used. */
  lemma {:induction false} NewlyUsedFromEmpty(r: Assignment, s: Shape, k: nat)
    ensures NewlyUsed(r, map[], s, k) == Uses(r, s, k)
  {
    if k > 0 {
      NewlyUsedFromEmpty(r, s, k - 1);
    }
  }

  /** The solutions of solveCSP's starting state are exactly the tilings. */
  lemma StartSolutions(table: ContribTable, supply: Supply, targets: Targets)
    ensures forall r :: IsSolution(r, map[], InitialDomains(|table|), table, supply, targets) <==> Tiling(r, table, supply, targets)
  {
    forall r, s
      ensures NewlyUsed(r, map[], s, |table|) == Uses(r, s, |table|)
    {
      NewlyUsedFromEmpty(r, s, |table|);
    }
    forall r
      ensures Completes(r, map[], InitialDomains(|table|), |table|) <==> forall v :: v in r <==> 0 <= v < |table|
    {
      if forall v :: v in r <==> 0 <= v < |table| {
        forall v | 0 <= v < |table|
          ensures r[v] in InitialDomains(|table|)[v]
        {
          assert InitialDomains(|table|)[v] == ALL_SHAPES;
          match r[v]
          case FullBlock => assert ALL_SHAPES[0] == r[v];
          case OuterBoundary => assert ALL_SHAPES[1] == r[v];
          case ElShape => assert ALL_SHAPES[2] == r[v];
        }
      }
    }
  }

  /**
   * With its domain still whole, every tile tries FULL_BLOCK first: that
   * shape leaves nothing uncovered, so its key is the least, and it heads
   * the initial domain.
   */
  lemma FullBlockTriedFirst(landscape: seq<seq<int>>, v: nat)
    requires IsGrid(landscape, |landscape|) && v < TileCount(|landscape|)
    ensures OrderValues(v, InitialDomains(TileCount(|landscape|)), ContributionTable(landscape))[0] == FullBlock
  {
    var table := ContributionTable(landscape);
    var domains := InitialDomains(TileCount(|landscape|));
    ContributionTableEntry(landscape, v, FullBlock);
    FullBlockContributesNothing(TilePatch(landscape, v));
    assert domains[v] == ALL_SHAPES;
    assert KeyOf(table[v])(FullBlock) == 0;
    KeyZeroHeadStaysFirst(KeyOf(table[v]), domains[v]);
  }

  /**
   * solveCSP: builds the contribution table, gives every tile the three
   * shapes as its domain, copies the supply and searches from the empty
   * assignment. The answer is a tiling when there is one, and None only
   * when there is none.
   */
  method SolveCsp(landscape: seq<seq<int>>, tilesDict: Supply, targets: Targets) returns (result: Option<Assignment>)
    requires IsGrid(landscape, |landscape|) && Coloured(landscape) && HasTargets(targets)
    ensures result.Some? ==> Tiling(result.value, ContributionTable(landscape), tilesDict, targets)
    ensures result.None? ==> forall r :: !Tiling(r, ContributionTable(landscape), tilesDict, targets)
  {
    var n := |landscape|;
    var tileRows := n / TILE_SIZE;
    var tileCols := n / TILE_SIZE;
    var numTiles := tileRows * tileCols;

    var tileContrib := BuildTable(landscape);
    ContributionTableColoured(landscape);

    var domains: Domains := [];
    for v := 0 to numTiles
      invariant domains == InitialDomains(v)
    {
      var domainList := [FullBlock, OuterBoundary, ElShape];
      domains := domains + [domainList];
    }

    var remainingTiles := tilesDict;
    result := Backtrack(map[], domains, tileContrib, remainingTiles, targets, numTiles);
    StartSolutions(tileContrib, tilesDict, targets);
  }
}
