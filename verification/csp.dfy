/**
 * The constraint side of the tiling solver (Main.java): tiles are the
 * variables, indexed 0 to numTiles - 1; shapes are the values; the per-colour
 * totals of the contributions of the chosen shapes must meet the targets for
 * colours 1..4. Here: the bounds check ac3, the exact check globalTargetOk,
 * the variable choice selectVariable and the value order orderValues.
 */
module Csp {
  import opened Wrappers
  import opened Shapes
  import opened Contribution
  import opened Table

  /** Tile index -> chosen shape. */
  type Assignment = map<int, Shape>

  /** Tile index -> shapes still allowed for it, in order. */
  type Domains = seq<seq<Shape>>

  /** Colour -> required number of uncovered cells of that colour. */
  type Targets = map<int, int>

  /** Only tiles that have a table entry are ever assigned. */
  predicate AssignedWithin(a: Assignment, n: nat)
  {
    forall v :: v in a ==> 0 <= v < n
  }

  /** ac3 unboxes targets.get(c) for every colour 1..4, so each must be present. */
  predicate HasTargets(targets: Targets)
  {
    forall c :: 1 <= c <= 4 ==> c in targets
  }

  function Min(x: nat, y: nat): nat
  {
    if x <= y then x else y
  }

  function Max(x: nat, y: nat): nat
  {
    if x <= y then y else x
  }

  /** Folding one more count into a running minimum that starts out empty. */
  function MinStep(o: Option<nat>, cnt: nat): Option<nat>
  {
    Some(if o.None? then cnt else Min(o.value, cnt))
  }

  /** Folding one more count into a running maximum that starts out empty. */
  function MaxStep(o: Option<nat>, cnt: nat): Option<nat>
  {
    Some(if o.None? then cnt else Max(o.value, cnt))
  }

  // ---------------------------------------------------------------------
  // Sums over tiles

  /** Total count of colour c contributed by the assigned tiles below k. */
  function AssignedSum(table: ContribTable, a: Assignment, c: int, k: nat): nat
    requires k <= |table|
  {
    if k == 0 then 0
    else AssignedSum(table, a, c, k - 1) + (if k - 1 in a then Get(table[k - 1].Of(a[k - 1]), c) else 0)
  }

  /** The unassigned tiles below k, in ascending order: ac3's `unassigned` list. */
  function Unassigned(a: Assignment, k: nat): (vs: seq<int>)
    ensures forall i :: 0 <= i < |vs| ==> 0 <= vs[i] < k && vs[i] !in a
    ensures forall v :: 0 <= v < k && v !in a ==> v in vs
  {
    if k == 0 then [] else Unassigned(a, k - 1) + (if k - 1 in a then [] else [k - 1])
  }

  /**
   * The least count of colour c over the shapes of a domain, visited in
   * order; None for an empty domain (where ac3 keeps Integer.MAX_VALUE).
   */
  function DomainMin(t: TileContrib, dom: seq<Shape>, c: int): (r: Option<nat>)
    ensures r.None? <==> dom == []
    ensures r.Some? ==> forall k :: 0 <= k < |dom| ==> r.value <= Get(t.Of(dom[k]), c)
    ensures r.Some? ==> exists k :: 0 <= k < |dom| && r.value == Get(t.Of(dom[k]), c)
  {
    if dom == [] then None
    else
      MinStep(DomainMin(t, dom[..|dom| - 1], c), Get(t.Of(dom[|dom| - 1]), c))
  }

  /** The greatest count of colour c over the shapes of a domain; None for an empty domain. */
  function DomainMax(t: TileContrib, dom: seq<Shape>, c: int): (r: Option<nat>)
    ensures r.None? <==> dom == []
    ensures r.Some? ==> forall k :: 0 <= k < |dom| ==> Get(t.Of(dom[k]), c) <= r.value
    ensures r.Some? ==> exists k :: 0 <= k < |dom| && r.value == Get(t.Of(dom[k]), c)
  {
    if dom == [] then None
    else
      MaxStep(DomainMax(t, dom[..|dom| - 1], c), Get(t.Of(dom[|dom| - 1]), c))
  }

  /** An empty domain adds nothing to a bound. */
  function OrZero(o: Option<nat>): nat
  {
    if o.None? then 0 else o.value
  }

  /** Tiles that the bounds may be taken over: each has a table entry and a domain. */
  predicate Tiles(table: ContribTable, domains: Domains, vs: seq<int>)
  {
    forall i :: 0 <= i < |vs| ==> 0 <= vs[i] < |table| && vs[i] < |domains|
  }

  /** The least amount of colour c the tiles vs can still add: minAdd. */
  function MinAdd(table: ContribTable, domains: Domains, vs: seq<int>, c: int): nat
    requires Tiles(table, domains, vs)
  {
    if vs == [] then 0
    else
      var v := vs[|vs| - 1];
      MinAdd(table, domains, vs[..|vs| - 1], c) + OrZero(DomainMin(table[v], domains[v], c))
  }

  /** The greatest amount of colour c the tiles vs can still add: maxAdd. */
  function MaxAdd(table: ContribTable, domains: Domains, vs: seq<int>, c: int): nat
    requires Tiles(table, domains, vs)
  {
    if vs == [] then 0
    else
      var v := vs[|vs| - 1];
      MaxAdd(table, domains, vs[..|vs| - 1], c) + OrZero(DomainMax(table[v], domains[v], c))
  }

  /** The tiles a search state is about: one table entry and one domain per tile. */
  predicate Shaped(table: ContribTable, domains: Domains, a: Assignment)
  {
    |domains| == |table| && AssignedWithin(a, |table|)
  }

  /** The unassigned tiles of a search state. */
  lemma UnassignedTiles(table: ContribTable, domains: Domains, a: Assignment)
    requires Shaped(table, domains, a)
    ensures Tiles(table, domains, Unassigned(a, |table|))
  {
  }

  /** For colour c the target lies between the least and the greatest total still reachable. */
  predicate WithinBounds(table: ContribTable, domains: Domains, a: Assignment, targets: Targets, c: int)
    requires Shaped(table, domains, a) && c in targets
  {
    UnassignedTiles(table, domains, a);
    var vs := Unassigned(a, |table|);
    var current := AssignedSum(table, a, c, |table|);
    current + MinAdd(table, domains, vs, c) <= targets[c] <= current + MaxAdd(table, domains, vs, c)
  }

  /** What ac3 decides: every colour's target is within bounds. */
  predicate Feasible(table: ContribTable, domains: Domains, a: Assignment, targets: Targets)
    requires Shaped(table, domains, a) && HasTargets(targets)
  {
    forall c :: 1 <= c <= 4 ==> WithinBounds(table, domains, a, targets, c)
  }

  /** What globalTargetOk decides: the assigned tiles meet every colour's target exactly. */
  predicate TargetsMet(table: ContribTable, a: Assignment, targets: Targets)
  {
    forall c :: 1 <= c <= 4 ==> c in targets && AssignedSum(table, a, c, |table|) == targets[c]
  }

  /**
   * r assigns every tile below n, agrees with a where a assigns, and gives
   * every other tile a shape from its domain.
   */
  ghost predicate Completes(r: Assignment, a: Assignment, domains: Domains, n: nat)
    requires |domains| == n
  {
    (forall v :: v in r <==> 0 <= v < n)
    && (forall v :: v in a ==> v in r && r[v] == a[v])
    && (forall v :: 0 <= v < n && v !in a ==> r[v] in domains[v])
  }

  /** A shape of the domain has a count between the domain's least and greatest. */
  lemma {:induction false} DomainBetween(t: TileContrib, dom: seq<Shape>, s: Shape, c: int)
    requires s in dom
    ensures DomainMin(t, dom, c).Some? && DomainMax(t, dom, c).Some?
    ensures DomainMin(t, dom, c).value <= Get(t.Of(s), c) <= DomainMax(t, dom, c).value
  {
    var j :| 0 <= j < |dom| && dom[j] == s;
  }

  /** Appending a tile to the unassigned list adds its domain's bounds. */
  lemma {:induction false} AddSnoc(table: ContribTable, domains: Domains, vs: seq<int>, v: int, c: int)
    requires Tiles(table, domains, vs) && 0 <= v < |table| && v < |domains|
    ensures Tiles(table, domains, vs + [v])
    ensures MinAdd(table, domains, vs + [v], c) == MinAdd(table, domains, vs, c) + OrZero(DomainMin(table[v], domains[v], c))
    ensures MaxAdd(table, domains, vs + [v], c) == MaxAdd(table, domains, vs, c) + OrZero(DomainMax(table[v], domains[v], c))
  {
    assert forall i :: 0 <= i < |vs| ==> vs[i] == (vs + [v])[i];
    assert (vs + [v])[..|vs|] == vs;
  }

  /**
   * Over the tiles below k, a completion's total of colour c lies between
   * the assigned total plus the least the unassigned tiles can add and the
   * assigned total plus the most they can add.
   */
  lemma {:induction false} CompletionBetweenBounds(table: ContribTable, domains: Domains, a: Assignment, r: Assignment, c: int, k: nat)
    requires Shaped(table, domains, a) && Completes(r, a, domains, |table|) && k <= |table|
    ensures Tiles(table, domains, Unassigned(a, k))
    ensures AssignedSum(table, a, c, k) + MinAdd(table, domains, Unassigned(a, k), c) <= AssignedSum(table, r, c, k)
    ensures AssignedSum(table, r, c, k) <= AssignedSum(table, a, c, k) + MaxAdd(table, domains, Unassigned(a, k), c)
  {
    if k > 0 {
      var v := k - 1;
      CompletionBetweenBounds(table, domains, a, r, c, v);
      var prev := Unassigned(a, v);
      if v !in a {
        assert Unassigned(a, k) == prev + [v];
        AddSnoc(table, domains, prev, v, c);
        DomainBetween(table[v], domains[v], r[v], c);
      } else {
        assert Unassigned(a, k) == prev;
        assert r[v] == a[v];
      }
    }
  }

  /**
   * ac3 never rejects a state that has a solution: if some completion of
   * the assignment meets every target, the targets are within bounds.
   */
  lemma FeasibleNecessary(table: ContribTable, domains: Domains, a: Assignment, targets: Targets, r: Assignment)
    requires Shaped(table, domains, a) && HasTargets(targets)
    requires Completes(r, a, domains, |table|) && TargetsMet(table, r, targets)
    ensures Feasible(table, domains, a, targets)
  {
    forall c | 1 <= c <= 4
      ensures WithinBounds(table, domains, a, targets, c)
    {
      CompletionBetweenBounds(table, domains, a, r, c, |table|);
    }
  }

  /** Once every tile is assigned, ac3 and globalTargetOk decide the same thing. */
  lemma FeasibleWhenComplete(table: ContribTable, domains: Domains, a: Assignment, targets: Targets)
    requires Shaped(table, domains, a) && HasTargets(targets)
    requires forall v :: 0 <= v < |table| ==> v in a
    ensures Feasible(table, domains, a, targets) <==> TargetsMet(table, a, targets)
  {
    var vs := Unassigned(a, |table|);
    assert MinAdd(table, domains, vs, 1) == 0;
    forall c | 1 <= c <= 4
      ensures WithinBounds(table, domains, a, targets, c) <==> AssignedSum(table, a, c, |table|) == targets[c]
    {
      assert MinAdd(table, domains, vs, c) == 0 && MaxAdd(table, domains, vs, c) == 0;
    }
  }

  // ---------------------------------------------------------------------
  // The Java methods

  /**
   * The loop over the assignment's entries shared by ac3 and
   * globalTargetOk: every assigned tile adds its contribution to the
   * running per-colour totals, which start at 0 for colours 1..4.
   */
  method AssignedTotals(assignment: Assignment, table: ContribTable) returns (total: map<int, int>)
    requires AssignedWithin(assignment, |table|) && TableColoured(table)
    ensures forall c :: 1 <= c <= 4 ==> c in total && total[c] == AssignedSum(table, assignment, c, |table|)
  {
    total := map[1 := 0, 2 := 0, 3 := 0, 4 := 0];
    for v := 0 to |table|
      invariant forall c :: 1 <= c <= 4 ==> c in total && total[c] == AssignedSum(table, assignment, c, v)
    {
      if v in assignment {
        var contrib := table[v].Of(assignment[v]);
        total := AddCounts(total, contrib);
      }
    }
  }

  /**
   * Adds each entry of a contribution map to the totals. A HashMap keyed by
   * small Integers yields its entries in ascending key order, and the keys
   * of a contribution are colours 1..4, so the entries are visited as the
   * colours 1..4 that are present, in that order.
   */
  method AddCounts(total: map<int, int>, contrib: Counts) returns (total': map<int, int>)
    requires forall c :: c in contrib ==> 1 <= c <= 4
    requires forall c :: 1 <= c <= 4 ==> c in total
    ensures forall c :: 1 <= c <= 4 ==> c in total' && total'[c] == total[c] + Get(contrib, c)
  {
    total' := total;
    for color := 1 to 5
      invariant forall c :: 1 <= c <= 4 ==> c in total'
      invariant forall c :: 1 <= c < color ==> total'[c] == total[c] + Get(contrib, c)
      invariant forall c :: color <= c <= 4 ==> total'[c] == total[c]
    {
      if color in contrib {
        total' := total'[color := total'[color] + contrib[color]];
      }
    }
  }

  /**
   * The per-colour least and greatest count over one tile's domain, as
   * ac3's `mins` and `maxs`: None plays the part of the MAX_VALUE and
   * MIN_VALUE sentinels, which survive only when the domain is empty.
   */
  method DomainBounds(t: TileContrib, dom: seq<Shape>) returns (mins: map<int, Option<nat>>, maxs: map<int, Option<nat>>)
    ensures forall c :: 1 <= c <= 4 ==> c in mins && mins[c] == DomainMin(t, dom, c)
    ensures forall c :: 1 <= c <= 4 ==> c in maxs && maxs[c] == DomainMax(t, dom, c)
  {
    mins := map[1 := None, 2 := None, 3 := None, 4 := None];
    maxs := map[1 := None, 2 := None, 3 := None, 4 := None];
    for k := 0 to |dom|
      invariant forall c :: 1 <= c <= 4 ==> c in mins && mins[c] == DomainMin(t, dom[..k], c)
      invariant forall c :: 1 <= c <= 4 ==> c in maxs && maxs[c] == DomainMax(t, dom[..k], c)
    {
      var contrib := t.Of(dom[k]);
      assert dom[..k + 1][..k] == dom[..k];
      mins, maxs := FoldCounts(mins, maxs, contrib);
    }
    assert dom[..|dom|] == dom;
  }

  /** The colour loop inside ac3's loop over a domain: fold one shape's counts into mins and maxs. */
  method FoldCounts(mins: map<int, Option<nat>>, maxs: map<int, Option<nat>>, contrib: Counts)
    returns (mins': map<int, Option<nat>>, maxs': map<int, Option<nat>>)
    requires forall c :: 1 <= c <= 4 ==> c in mins && c in maxs
    ensures forall c :: 1 <= c <= 4 ==> c in mins' && mins'[c] == MinStep(mins[c], Get(contrib, c))
    ensures forall c :: 1 <= c <= 4 ==> c in maxs' && maxs'[c] == MaxStep(maxs[c], Get(contrib, c))
  {
    mins', maxs' := mins, maxs;
    for c := 1 to 5
      invariant forall c' :: 1 <= c' < c ==> c' in mins' && mins'[c'] == MinStep(mins[c'], Get(contrib, c'))
      invariant forall c' :: c <= c' <= 4 ==> c' in mins' && mins'[c'] == mins[c']
      invariant forall c' :: 1 <= c' < c ==> c' in maxs' && maxs'[c'] == MaxStep(maxs[c'], Get(contrib, c'))
      invariant forall c' :: c <= c' <= 4 ==> c' in maxs' && maxs'[c'] == maxs[c']
    {
      var cnt := Get(contrib, c);
      mins' := mins'[c := Some(if mins'[c].None? then cnt else Min(mins'[c].value, cnt))];
      maxs' := maxs'[c := Some(if maxs'[c].None? then cnt else Max(maxs'[c].value, cnt))];
    }
  }

  /**
   * ac3: sums the assigned tiles' contributions, adds for every unassigned
   * tile the least and the greatest count its domain allows, and answers
   * whether every colour's target lies between the two totals.
   */
  method Ac3(domains: Domains, assignment: Assignment, table: ContribTable, targets: Targets, numTiles: nat) returns (ok: bool)
    requires |table| == numTiles && Shaped(table, domains, assignment)
    requires TableColoured(table) && HasTargets(targets)
    ensures ok == Feasible(table, domains, assignment, targets)
  {
    var unassigned := UnassignedList(assignment, numTiles);
    var current := AssignedTotals(assignment, table);
    UnassignedTiles(table, domains, assignment);
    var minAdd, maxAdd := AddBounds(domains, table, unassigned);
    ok := TargetsInRange(current, minAdd, maxAdd, targets);
    forall c | 1 <= c <= 4
      ensures WithinBounds(table, domains, assignment, targets, c)
          <==> current[c] + minAdd[c] <= targets[c] <= current[c] + maxAdd[c]
    {
    }
  }

  /** ac3's closing loop over colours 1..4: false at the first target outside [total + minAdd, total + maxAdd]. */
  method TargetsInRange(current: map<int, int>, minAdd: map<int, int>, maxAdd: map<int, int>, targets: Targets) returns (ok: bool)
    requires forall c :: 1 <= c <= 4 ==> c in current && c in minAdd && c in maxAdd && c in targets
    ensures ok <==> forall c :: 1 <= c <= 4 ==> current[c] + minAdd[c] <= targets[c] <= current[c] + maxAdd[c]
  {
    for c := 1 to 5
      invariant forall c' :: 1 <= c' < c ==> current[c'] + minAdd[c'] <= targets[c'] <= current[c'] + maxAdd[c']
    {
      var totalMin := current[c] + minAdd[c];
      var totalMax := current[c] + maxAdd[c];
      var target := targets[c];
      if target < totalMin || target > totalMax {
        return false;
      }
    }
    return true;
  }

  /** ac3's first loop: the tiles 0 .. numTiles - 1 not in the assignment, in ascending order. */
  method UnassignedList(assignment: Assignment, numTiles: nat) returns (unassigned: seq<int>)
    ensures unassigned == Unassigned(assignment, numTiles)
  {
    unassigned := [];
    for v := 0 to numTiles
      invariant unassigned == Unassigned(assignment, v)
    {
      if v !in assignment {
        unassigned := unassigned + [v];
      }
    }
  }

  /** ac3's loop over the unassigned tiles, accumulating minAdd and maxAdd per colour. */
  method AddBounds(domains: Domains, table: ContribTable, unassigned: seq<int>) returns (minAdd: map<int, int>, maxAdd: map<int, int>)
    requires Tiles(table, domains, unassigned)
    ensures forall c :: 1 <= c <= 4 ==> c in minAdd && minAdd[c] == MinAdd(table, domains, unassigned, c)
    ensures forall c :: 1 <= c <= 4 ==> c in maxAdd && maxAdd[c] == MaxAdd(table, domains, unassigned, c)
  {
    minAdd := map[1 := 0, 2 := 0, 3 := 0, 4 := 0];
    maxAdd := map[1 := 0, 2 := 0, 3 := 0, 4 := 0];
    for k := 0 to |unassigned|
      invariant forall c :: 1 <= c <= 4 ==> c in minAdd && minAdd[c] == MinAdd(table, domains, unassigned[..k], c)
      invariant forall c :: 1 <= c <= 4 ==> c in maxAdd && maxAdd[c] == MaxAdd(table, domains, unassigned[..k], c)
    {
      var v := unassigned[k];
      var mins, maxs := DomainBounds(table[v], domains[v]);
      assert unassigned[..k + 1][..k] == unassigned[..k];
      minAdd, maxAdd := AddTileBounds(minAdd, maxAdd, mins, maxs);
    }
    assert unassigned[..|unassigned|] == unassigned;
  }

  /** The colour loop closing ac3's loop over a tile: a bound that exists is added, an empty domain adds 0. */
  method AddTileBounds(minAdd: map<int, int>, maxAdd: map<int, int>, mins: map<int, Option<nat>>, maxs: map<int, Option<nat>>)
    returns (minAdd': map<int, int>, maxAdd': map<int, int>)
    requires forall c :: 1 <= c <= 4 ==> c in minAdd && c in maxAdd && c in mins && c in maxs
    ensures forall c :: 1 <= c <= 4 ==> c in minAdd' && minAdd'[c] == minAdd[c] + OrZero(mins[c])
    ensures forall c :: 1 <= c <= 4 ==> c in maxAdd' && maxAdd'[c] == maxAdd[c] + OrZero(maxs[c])
  {
    minAdd', maxAdd' := minAdd, maxAdd;
    for c := 1 to 5
      invariant forall c' :: 1 <= c' < c ==> c' in minAdd' && minAdd'[c'] == minAdd[c'] + OrZero(mins[c'])
      invariant forall c' :: c <= c' <= 4 ==> c' in minAdd' && minAdd'[c'] == minAdd[c']
      invariant forall c' :: 1 <= c' < c ==> c' in maxAdd' && maxAdd'[c'] == maxAdd[c'] + OrZero(maxs[c'])
      invariant forall c' :: c <= c' <= 4 ==> c' in maxAdd' && maxAdd'[c'] == maxAdd[c']
    {
      var currentMin := minAdd'[c];
      if mins[c].Some? {
        currentMin := currentMin + mins[c].value;
      }
      minAdd' := minAdd'[c := currentMin];
      var currentMax := maxAdd'[c];
      if maxs[c].Some? {
        currentMax := currentMax + maxs[c].value;
      }
      maxAdd' := maxAdd'[c := currentMax];
    }
  }

  /** globalTargetOk: the assigned tiles' totals equal the targets for every colour 1..4. */
  method GlobalTargetOk(assignment: Assignment, table: ContribTable, targets: Targets) returns (ok: bool)
    requires AssignedWithin(assignment, |table|) && TableColoured(table)
    ensures ok == TargetsMet(table, assignment, targets)
  {
    var total := AssignedTotals(assignment, table);
    for c := 1 to 5
      invariant forall c' :: 1 <= c' < c ==> c' in targets && AssignedSum(table, assignment, c', |table|) == targets[c']
    {
      if !(c in targets && total[c] == targets[c]) {
        return false;
      }
    }
    return true;
  }

  /**
   * selectVariable: scanning the tiles in ascending order, the first
   * unassigned tile whose domain is smallest; -1 when every tile is assigned.
   */
  method SelectVariable(assignment: Assignment, domains: Domains) returns (selected: int)
    ensures selected == -1 <==> forall v :: 0 <= v < |domains| ==> v in assignment
    ensures selected != -1 ==> 0 <= selected < |domains| && selected !in assignment
    ensures selected != -1 ==> forall v :: 0 <= v < |domains| && v !in assignment ==> |domains[selected]| <= |domains[v]|
    ensures selected != -1 ==> forall v :: 0 <= v < selected && v !in assignment ==> |domains[selected]| < |domains[v]|
  {
    selected := -1;
    var minSize: Option<nat> := None;
    for v := 0 to |domains|
      invariant selected == -1 <==> forall u :: 0 <= u < v ==> u in assignment
      invariant selected == -1 <==> minSize.None?
      invariant selected != -1 ==> 0 <= selected < v && selected !in assignment && minSize.value == |domains[selected]|
      invariant selected != -1 ==> forall u :: 0 <= u < v && u !in assignment ==> |domains[selected]| <= |domains[u]|
      invariant selected != -1 ==> forall u :: 0 <= u < selected && u !in assignment ==> |domains[selected]| < |domains[u]|
    {
      if v !in assignment {
        var size := |domains[v]|;
        if minSize.None? || size < minSize.value {
          minSize := Some(size);
          selected := v;
        }
      }
    }
  }

  // ---------------------------------------------------------------------
  // orderValues: a stable sort of a domain by total contribution

  /**
   * The sort key of a shape for a tile: the weight of its contribution
   * over colours 1..4. orderValues sums every count of the map; the two
   * sums agree when every key is a colour 1..4, which holds for the
   * table of a coloured landscape (ContributionTableColoured).
   */
  function Key(t: TileContrib, s: Shape): nat
  {
    Weight(t.Of(s))
  }

  /** The key of each shape for tile t, as a function value to sort by. */
  function KeyOf(t: TileContrib): Shape -> nat
  {
    s => Key(t, s)
  }

  /** Ascending by key. */
  predicate SortedByKey(key: Shape -> nat, xs: seq<Shape>)
  {
    forall i, j :: 0 <= i < j < |xs| ==> key(xs[i]) <= key(xs[j])
  }

  /** The shapes of xs whose key is w, in their order in xs. */
  function WithKey(key: Shape -> nat, xs: seq<Shape>, w: nat): (r: seq<Shape>)
    ensures forall i :: 0 <= i < |r| ==> key(r[i]) == w
  {
    if xs == [] then []
    else (if key(xs[0]) == w then [xs[0]] else []) + WithKey(key, xs[1..], w)
  }

  /** Inserts x in front of the first shape whose key is not smaller than x's. */
  function Insert(key: Shape -> nat, x: Shape, ys: seq<Shape>): (r: seq<Shape>)
    ensures multiset(r) == multiset{x} + multiset(ys)
    ensures SortedByKey(key, ys) ==> SortedByKey(key, r)
    ensures forall w :: WithKey(key, r, w) == WithKey(key, [x] + ys, w)
  {
    if ys == [] || key(x) <= key(ys[0]) then
      [x] + ys
    else
      var rest := Insert(key, x, ys[1..]);
      InsertStep(key, x, ys, rest);
      [ys[0]] + rest
  }

  /**
   * The step of Insert past ys[0], whose key is below x's: if rest is x
   * inserted into ys[1..], then ys[0] followed by rest is x inserted into ys.
   */
  lemma {:induction false} InsertStep(key: Shape -> nat, x: Shape, ys: seq<Shape>, rest: seq<Shape>)
    requires ys != [] && key(ys[0]) < key(x)
    requires multiset(rest) == multiset{x} + multiset(ys[1..])
    requires SortedByKey(key, ys[1..]) ==> SortedByKey(key, rest)
    requires forall w :: WithKey(key, rest, w) == WithKey(key, [x] + ys[1..], w)
    ensures multiset([ys[0]] + rest) == multiset{x} + multiset(ys)
    ensures SortedByKey(key, ys) ==> SortedByKey(key, [ys[0]] + rest)
    ensures forall w :: WithKey(key, [ys[0]] + rest, w) == WithKey(key, [x] + ys, w)
  {
    var y, tail := ys[0], ys[1..];
    assert ys == [y] + tail;
    InsertStepSorted(key, y, x, tail, rest);
    InsertStepWithKey(key, y, x, tail, rest);
  }

  /** Putting y, whose key is at most x's, in front of a sorted insertion of x keeps it sorted. */
  lemma InsertStepSorted(key: Shape -> nat, y: Shape, x: Shape, tail: seq<Shape>, rest: seq<Shape>)
    requires key(y) <= key(x) && multiset(rest) == multiset{x} + multiset(tail)
    requires SortedByKey(key, tail) ==> SortedByKey(key, rest)
    ensures SortedByKey(key, [y] + tail) ==> SortedByKey(key, [y] + rest)
  {
    if SortedByKey(key, [y] + tail) {
      forall i, j | 0 <= i < j < |tail|
        ensures key(tail[i]) <= key(tail[j])
      {
        assert tail[i] == ([y] + tail)[i + 1] && tail[j] == ([y] + tail)[j + 1];
      }
      forall j | 0 <= j < |rest|
        ensures key(y) <= key(rest[j])
      {
        assert rest[j] in multiset(rest);
        if rest[j] != x {
          assert rest[j] in multiset(tail);
          var k :| 0 <= k < |tail| && tail[k] == rest[j];
          assert ([y] + tail)[0] == y && ([y] + tail)[k + 1] == tail[k];
        }
      }
      forall i, j | 0 <= i < j < |[y] + rest|
        ensures key(([y] + rest)[i]) <= key(([y] + rest)[j])
      {
        assert ([y] + rest)[j] == rest[j - 1];
      }
    }
  }

  /** The keys of y and x differ, so the shapes of each key come out in the same order either way round. */
  lemma {:induction false} InsertStepWithKey(key: Shape -> nat, y: Shape, x: Shape, tail: seq<Shape>, rest: seq<Shape>)
    requires key(y) < key(x)
    requires forall w :: WithKey(key, rest, w) == WithKey(key, [x] + tail, w)
    ensures forall w :: WithKey(key, [y] + rest, w) == WithKey(key, [x] + ([y] + tail), w)
  {
    forall w
      ensures WithKey(key, [y] + rest, w) == WithKey(key, [x] + ([y] + tail), w)
    {
      assert ([y] + rest)[1..] == rest;
      assert ([x] + tail)[1..] == tail;
      assert ([x] + ([y] + tail))[1..] == [y] + tail;
      assert ([y] + tail)[1..] == tail;
    }
  }

  /** Insertion sort, which keeps shapes of equal key in their original order. */
  function SortByKey(key: Shape -> nat, xs: seq<Shape>): (r: seq<Shape>)
    ensures multiset(r) == multiset(xs)
    ensures SortedByKey(key, r)
    ensures forall w :: WithKey(key, r, w) == WithKey(key, xs, w)
  {
    if xs == [] then []
    else
      var rest := SortByKey(key, xs[1..]);
      assert xs == [xs[0]] + xs[1..];
      forall w ensures WithKey(key, [xs[0]] + rest, w) == WithKey(key, xs, w) {
        assert ([xs[0]] + rest)[1..] == rest;
      }
      Insert(key, xs[0], rest)
  }

  /**
   * orderValues: the tile's domain sorted by key with List.sort, which is
   * stable: the result is a permutation of the domain, ascending by key,
   * and shapes of equal key keep their order in the domain.
   */
  function OrderValues(v: int, domains: Domains, table: ContribTable): (vals: seq<Shape>)
    requires 0 <= v < |domains| && v < |table|
    ensures multiset(vals) == multiset(domains[v])
    ensures SortedByKey(KeyOf(table[v]), vals)
    ensures forall w :: WithKey(KeyOf(table[v]), vals, w) == WithKey(KeyOf(table[v]), domains[v], w)
  {
    SortByKey(KeyOf(table[v]), domains[v])
  }

  /**
   * A shape of key 0 at the head of a domain stays at the head: no key is
   * smaller, and among equal keys the sort keeps the domain's order.
   */
  lemma {:induction false} KeyZeroHeadStaysFirst(key: Shape -> nat, xs: seq<Shape>)
    requires xs != [] && key(xs[0]) == 0
    ensures SortByKey(key, xs) != [] && SortByKey(key, xs)[0] == xs[0]
  {
    var r := SortByKey(key, xs);
    assert xs[0] in multiset(r);
    var j :| 0 <= j < |r| && r[j] == xs[0];
    assert key(r[0]) == 0 by {
      if j > 0 {
        assert key(r[0]) <= key(r[j]);
      }
    }
    assert WithKey(key, r, 0)[0] == r[0];
    assert WithKey(key, xs, 0)[0] == xs[0];
  }
}
