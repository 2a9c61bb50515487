/**
  Tours of ProblemAndSolver.cs: what a route costs (TSPSolution.costOfRoute),
  the solver's cost table (GetCosts) and the nearest-neighbour walk of
  greedySolveProblem. A route is a sequence of city indices; city `i` is
  Cities[i], and `dist[i][j]` is Cities[i].costToGetTo(Cities[j]).
*/
module Tours {
  import opened Costs
  import opened Wrappers
  import opened Reduction

  predicate InRange(route: seq<nat>, n: nat) {
    forall k :: 0 <= k < |route| ==> route[k] < n
  }

  predicate Distinct(route: seq<nat>) {
    forall i, j :: 0 <= i < j < |route| ==> route[i] != route[j]
  }

  /** A complete tour: every one of the n cities exactly once. */
  predicate IsTour(route: seq<nat>, n: nat) {
    |route| == n && n > 0 && InRange(route, n) && Distinct(route)
  }

  function Visited(route: seq<nat>): set<nat> {
    set x | x in route
  }

  // ---------------------------------------------------------------------
  // The cost of a route

  /** The sum of the costs of the edges between consecutive cities. */
  function PathCost(dist: Grid, n: nat, route: seq<nat>): Cost
    requires Square(dist, n) && InRange(route, n)
  {
    if |route| <= 1 then Fin(0.0)
    else Add(PathCost(dist, n, route[..|route| - 1]), dist[route[|route| - 2]][route[|route| - 1]])
  }

  /** The cost of the cycle: the path plus the edge from the last city back
      to the first. Completeness of the route is not checked. */
  function RouteCost(dist: Grid, n: nat, route: seq<nat>): Cost
    requires Square(dist, n) && InRange(route, n) && |route| > 0
  {
    Add(PathCost(dist, n, route), dist[route[|route| - 1]][route[0]])
  }

  /** The x-th edge of the cycle, the last one closing it. */
  function CycleEdge(dist: Grid, n: nat, route: seq<nat>, x: nat): Cost
    requires Square(dist, n) && InRange(route, n) && x < |route|
  {
    if x + 1 < |route| then dist[route[x]][route[x + 1]] else dist[route[x]][route[0]]
  }

  /**
    costOfRoute: adds the edges between consecutive cities, then the edge
    from the last city back to the first.
  */
  method CostOfRoute(dist: Grid, n: nat, route: seq<nat>) returns (cost: Cost)
    requires Square(dist, n) && InRange(route, n) && |route| > 0
    ensures cost == RouteCost(dist, n, route)
  {
    cost := Fin(0.0);
    var x := 0;
    while x < |route| - 1
      invariant 0 <= x <= |route| - 1
      invariant cost == PathCost(dist, n, route[..x + 1])
    {
      assert route[..x + 2][..x + 1] == route[..x + 1];
      cost := Add(cost, dist[route[x]][route[x + 1]]);
      x := x + 1;
    }
    assert route[..x + 1] == route;
    cost := Add(cost, dist[route[|route| - 1]][route[0]]);
  }

  lemma {:induction false} PathCostFinite(dist: Grid, n: nat, route: seq<nat>)
    requires Square(dist, n) && InRange(route, n)
    ensures PathCost(dist, n, route).Fin? <==>
              forall x :: 0 <= x < |route| - 1 ==> dist[route[x]][route[x + 1]].Fin?
  {
    if |route| > 1 {
      var p := route[..|route| - 1];
      PathCostFinite(dist, n, p);
      assert forall x :: 0 <= x < |p| ==> p[x] == route[x];
    }
  }

  /** A route costs a finite amount exactly when every edge of its cycle,
      the closing one included, is finite. */
  lemma RouteCostFinite(dist: Grid, n: nat, route: seq<nat>)
    requires Square(dist, n) && InRange(route, n) && |route| > 0
    ensures RouteCost(dist, n, route).Fin? <==>
              forall x :: 0 <= x < |route| ==> CycleEdge(dist, n, route, x).Fin?
  {
    PathCostFinite(dist, n, route);
    assert CycleEdge(dist, n, route, |route| - 1) == dist[route[|route| - 1]][route[0]];
    assert forall x :: 0 <= x < |route| - 1 ==> CycleEdge(dist, n, route, x) == dist[route[x]][route[x + 1]];
  }

  lemma {:induction false} PathCostNonNeg(dist: Grid, n: nat, route: seq<nat>)
    requires Square(dist, n) && InRange(route, n) && AllNonNeg(dist, n)
    ensures NonNeg(PathCost(dist, n, route))
  {
    if |route| > 1 {
      PathCostNonNeg(dist, n, route[..|route| - 1]);
    }
  }

  /** With non-negative distances no route costs less than 0; in particular
      costOfBssf's -1 never is the cost of a route. */
  lemma RouteCostNonNeg(dist: Grid, n: nat, route: seq<nat>)
    requires Square(dist, n) && InRange(route, n) && |route| > 0 && AllNonNeg(dist, n)
    ensures NonNeg(RouteCost(dist, n, route))
    ensures RouteCost(dist, n, route) != Fin(-1.0)
  {
    PathCostNonNeg(dist, n, route);
  }

  // ---------------------------------------------------------------------
  // The cost table

  /** GetCosts' table: +infinity on the diagonal, the distances elsewhere. */
  function CostTable(dist: Grid, n: nat): (t: Grid)
    requires Square(dist, n)
    ensures Square(t, n)
  {
    seq(n, i requires 0 <= i < n => seq(n, j requires 0 <= j < n => if i == j then Inf else dist[i][j]))
  }

  /**
    GetCosts: row by row, the diagonal entry becomes +infinity and every
    other (i, j) and (j, i) receive their distances.
  */
  method GetCosts(dist: Grid, n: nat) returns (costs: array2<Cost>)
    requires Square(dist, n)
    ensures costs.Length0 == n && costs.Length1 == n
    ensures forall i, j :: 0 <= i < n && 0 <= j < n ==> costs[i, j] == if i == j then Inf else dist[i][j]
    ensures forall i, j :: 0 <= i < n && 0 <= j < n ==> costs[i, j] == CostTable(dist, n)[i][j]
  {
    costs := new Cost[n, n];
    for i := 0 to n
      invariant forall r, k :: 0 <= r < n && 0 <= k < n && (r < i || k < i) ==>
                  costs[r, k] == if r == k then Inf else dist[r][k]
    {
      for j := 0 to n
        invariant forall r, k :: 0 <= r < n && 0 <= k < n && (r < i || k < i || (r == i && k < j) || (k == i && r < j)) ==>
                    costs[r, k] == if r == k then Inf else dist[r][k]
      {
        if i == j {
          costs[i, j] := Inf;
        } else {
          costs[i, j] := dist[i][j];
          costs[j, i] := dist[j][i];
        }
      }
    }
  }

  // ---------------------------------------------------------------------
  // The nearest unvisited city

  /** The scan of greedySolveProblem over the cities below `bound`: an
      unvisited city replaces the current choice when there is none yet or
      it is strictly cheaper from `row`'s city; -1 when all are visited. */
  function Nearest(row: seq<Cost>, visited: set<nat>, bound: nat): (l: int)
    requires bound <= |row|
    ensures -1 <= l < bound
  {
    if bound == 0 then -1
    else
      var l := Nearest(row, visited, bound - 1);
      if bound - 1 !in visited && (l == -1 || Lt(row[bound - 1], row[l])) then bound - 1 else l
  }

  /** The scan finds an unvisited city exactly when there is one, and it is
      the first of the cheapest ones. */
  lemma {:induction false} NearestIsNearest(row: seq<Cost>, visited: set<nat>, bound: nat)
    requires bound <= |row|
    ensures var l := Nearest(row, visited, bound);
            (l == -1 <==> forall k :: 0 <= k < bound ==> k in visited) &&
            (l != -1 ==> l !in visited) &&
            (l != -1 ==> forall k :: 0 <= k < bound && k !in visited ==> Le(row[l], row[k])) &&
            (l != -1 ==> forall k :: 0 <= k < l && k !in visited ==> Lt(row[l], row[k]))
  {
    if bound > 0 {
      NearestIsNearest(row, visited, bound - 1);
      var l := Nearest(row, visited, bound - 1);
      if l != -1 {
        LtStrictTotal(row[bound - 1], row[l], row[l]);
        forall k | 0 <= k < bound - 1 && k !in visited
          ensures Le(row[l], row[k])
        {
        }
        forall k, m | 0 <= k < bound - 1 && k !in visited && 0 <= m < |row|
          ensures Lt(row[m], row[l]) ==> Lt(row[m], row[k])
        {
          LtStrictTotal(row[m], row[l], row[k]);
        }
      }
    }
  }

  /** The k-loop of greedySolveProblem on the row of city `from`. */
  method NearestScan(costs: array2<Cost>, ghost table: Grid, n: nat, from: nat, visited: set<nat>) returns (lowest: int)
    requires Square(table, n) && costs.Length0 == n && costs.Length1 == n && from < n
    requires forall r, k :: 0 <= r < n && 0 <= k < n ==> costs[r, k] == table[r][k]
    ensures lowest == Nearest(table[from], visited, n)
  {
    lowest := -1;
    for k := 0 to n
      invariant lowest == Nearest(table[from], visited, k)
    {
      if k !in visited {
        if lowest == -1 || Lt(costs[from, k], costs[from, lowest]) {
          lowest := k;
        }
      }
    }
  }

  // ---------------------------------------------------------------------
  // The greedy walk

  lemma {:induction false} VisitedCard(route: seq<nat>)
    requires Distinct(route)
    ensures |Visited(route)| == |route|
  {
    if route != [] {
      var p := route[..|route| - 1];
      VisitedCard(p);
      assert Visited(route) == Visited(p) + {route[|route| - 1]};
    }
  }

  /** The cities 0 .. n-1. */
  function Below(n: nat): (b: set<nat>)
    ensures forall k: nat :: k in b <==> k < n
  {
    if n == 0 then {} else Below(n - 1) + {n - 1}
  }

  lemma {:induction false} BelowCard(n: nat)
    ensures |Below(n)| == n
  {
    if n > 0 {
      BelowCard(n - 1);
    }
  }

  /** A route of fewer than n distinct cities leaves one unvisited. */
  lemma Unvisited(route: seq<nat>, n: nat)
    requires InRange(route, n) && Distinct(route) && |route| < n
    ensures exists k :: 0 <= k < n && k !in Visited(route)
  {
    if forall k :: 0 <= k < n ==> k in Visited(route) {
      assert Below(n) <= Visited(route);
      assert Visited(route) == Below(n) + (Visited(route) - Below(n));
      VisitedCard(route);
      BelowCard(n);
      assert false;
    }
  }

  /**
    The walk from a partial route: while cities remain, go to the nearest
    unvisited city; None when that city is +infinitely far (where the
    source's `goto` restarts the same walk, which never ends).
  */
  function GreedyExtend(table: Grid, n: nat, route: seq<nat>): (r: Option<seq<nat>>)
    requires Square(table, n) && 0 < |route| <= n && InRange(route, n) && Distinct(route)
    decreases n - |route|
  {
    if |route| == n then Some(route)
    else
      var from := route[|route| - 1];
      var l := Nearest(table[from], Visited(route), n);
      Unvisited(route, n);
      NearestIsNearest(table[from], Visited(route), n);
      if table[from][l].Inf? then None
      else GreedyExtend(table, n, route + [l])
  }

  /** The greedy tour from city `start`, None when the walk gets stuck. */
  function GreedyTour(table: Grid, n: nat, start: nat): Option<seq<nat>>
    requires Square(table, n) && start < n
  {
    GreedyExtend(table, n, [start])
  }

  /** Step j of the walk t goes, over a finite edge, to the first of the
      cheapest cities not visited before it. */
  ghost predicate NearestStep(table: Grid, n: nat, t: seq<nat>, j: nat)
    requires Square(table, n) && 0 < j < |t| && InRange(t, n)
  {
    var from, to := t[j - 1], t[j];
    table[from][to].Fin? && to !in Visited(t[..j]) &&
    (forall k :: 0 <= k < n && k !in Visited(t[..j]) ==> Le(table[from][to], table[from][k])) &&
    (forall k :: 0 <= k < to && k !in Visited(t[..j]) ==> Lt(table[from][to], table[from][k]))
  }

  /** The step the walk takes from a partial route is a nearest step. */
  lemma FirstNearestStep(table: Grid, n: nat, route: seq<nat>, t: seq<nat>)
    requires Square(table, n) && 0 < |route| < |t| && InRange(route, n) && InRange(t, n)
    requires var from := route[|route| - 1];
             t[..|route| + 1] == route + [Nearest(table[from], Visited(route), n)] &&
             table[from][t[|route|]].Fin?
    ensures NearestStep(table, n, t, |route|)
  {
    var from := route[|route| - 1];
    assert t[..|route|] == (t[..|route| + 1])[..|route|] == route;
    assert t[|route| - 1] == from && t[|route|] == Nearest(table[from], Visited(route), n);
    NearestIsNearest(table[from], Visited(route), n);
  }

  /**
    A walk that completes is a tour that extends the partial route, and
    each of its later steps is a nearest step.
  */
  lemma {:induction false} GreedyExtendIsNearestTour(table: Grid, n: nat, route: seq<nat>)
    requires Square(table, n) && 0 < |route| <= n && InRange(route, n) && Distinct(route)
    requires GreedyExtend(table, n, route).Some?
    ensures var t := GreedyExtend(table, n, route).value;
            IsTour(t, n) && t[..|route|] == route &&
            forall j :: |route| <= j < n ==> NearestStep(table, n, t, j)
    decreases n - |route|
  {
    if |route| < n {
      var from := route[|route| - 1];
      var l := Nearest(table[from], Visited(route), n);
      Unvisited(route, n);
      NearestIsNearest(table[from], Visited(route), n);
      var next := route + [l];
      GreedyExtendIsNearestTour(table, n, next);
      var t := GreedyExtend(table, n, next).value;
      assert t == GreedyExtend(table, n, route).value;
      assert t[..|route|] == t[..|next|][..|route|];
      assert t[..|route|] == route;
      FirstNearestStep(table, n, route, t);
    }
  }

  /** What the greedy tour from `start` costs, when the walk completes. */
  function GreedyTourCost(dist: Grid, n: nat, start: nat): Cost
    requires Square(dist, n) && start < n && GreedyTour(CostTable(dist, n), n, start).Some?
  {
    GreedyExtendIsNearestTour(CostTable(dist, n), n, [start]);
    RouteCost(dist, n, GreedyTour(CostTable(dist, n), n, start).value)
  }

  /**
    One start of greedySolveProblem, in the reused `route` array: the walk
    from `start` over the cost table. `ok` is false where the source jumps
    back to its label and repeats the same walk forever.
  */
  method GreedyFrom(costs: array2<Cost>, ghost table: Grid, n: nat, start: nat, route: array<nat>) returns (ok: bool)
    requires Square(table, n) && costs.Length0 == n && costs.Length1 == n && start < n && route.Length == n
    requires forall r, k :: 0 <= r < n && 0 <= k < n ==> costs[r, k] == table[r][k]
    modifies route
    ensures ok <==> GreedyTour(table, n, start).Some?
    ensures ok ==> route[..] == GreedyTour(table, n, start).value
  {
    route[0] := start;
    var visited: set<nat> := {start};
    var j := 1;
    assert route[..1] == [start];
    while j < n
      invariant 1 <= j <= n
      invariant InRange(route[..j], n) && Distinct(route[..j])
      invariant visited == Visited(route[..j])
      invariant GreedyExtend(table, n, route[..j]) == GreedyTour(table, n, start)
    {
      var from := route[j - 1];
      var lowest := NearestScan(costs, table, n, from, visited);
      Unvisited(route[..j], n);
      NearestIsNearest(table[from], visited, n);
      if costs[from, lowest] == Inf {
        return false;
      }
      ghost var before := route[..j];
      route[j] := lowest;
      visited := visited + {lowest};
      assert route[..j + 1] == before + [lowest];
      j := j + 1;
    }
    assert route[..] == route[..j];
    ok := true;
  }

  /** On two cities with no finite edge between them the walk from city 0
      gets stuck: greedySolveProblem never returns on such an instance. */
  lemma GreedyStuckExample()
    ensures var dist := [[Fin(0.0), Inf], [Inf, Fin(0.0)]];
            GreedyTour(CostTable(dist, 2), 2, 0) == None
  {
    var dist := [[Fin(0.0), Inf], [Inf, Fin(0.0)]];
    var t := CostTable(dist, 2);
    assert Visited([0]) == {0};
    assert Nearest(t[0], {0}, 2) == 1;
  }
}
