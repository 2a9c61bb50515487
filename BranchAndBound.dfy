/**
  The solvers of ProblemAndSolver.cs: greedySolveProblem, which keeps the
  cheapest nearest-neighbour tour over all start cities, and bBSolveProblem,
  the branch-and-bound search that starts from it. The cities are reduced
  to their count `n` and their distances `dist`; the best solution so far
  (bssf) is a route of city indices.
*/
module BranchAndBound {
  import opened Costs
  import opened Wrappers
  import opened Reduction
  import opened InPlace
  import opened Tours
  import opened LowerBounds
  import opened NodeQueue

  /** How greedySolveProblem ends: with the number of times the best tour
      was replaced, or never, when a walk gets stuck and the source's `goto`
      repeats it forever. */
  datatype GreedyOutcome = GreedyDone(count: nat) | GreedyDiverges

  /** How bBSolveProblem ends: with the bssf cost and the counts the source
      reports; never (the greedy start diverges); or with the
      IndexOutOfRangeException an insert into a full PQueue throws. */
  datatype SolveOutcome =
    | Solved(cost: Cost, solutionsFound: nat, childStatesGenerated: nat, statesPruned: nat, largestQueue: int)
    | SolveDiverges
    | QueueOverflow

  /** What every queued node's path is: city 0 first, no city twice. */
  predicate PartialTour(path: seq<nat>, n: nat) {
    0 < |path| <= n && path[0] == 0 && InRange(path, n) && Distinct(path)
  }

  predicate NodeOk(e: BBNode, n: nat) {
    PartialTour(e.path, n) && Square(e.matrix, n)
  }

  /** A path with one more city that is not yet on it is still partial. */
  lemma ExtendPartialTour(path: seq<nat>, c: nat, n: nat)
    requires PartialTour(path, n) && |path| < n && c < n && c !in path
    ensures PartialTour(path + [c], n)
  {
    var p := path + [c];
    forall i, j | 0 <= i < j < |p|
      ensures p[i] != p[j]
    {
      if j == |path| {
        assert p[i] in path;
      }
    }
  }

  /** A child of `current` worth queueing: one more city not on its path,
      and a bound below `bound`, the bssf cost. */
  predicate ChildOf(e: BBNode, current: BBNode, n: nat, bound: Cost) {
    NodeOk(e, n) && |e.path| == |current.path| + 1 &&
    e.path[..|current.path|] == current.path && e.path[|current.path|] !in current.path &&
    Lt(e.lowerBound, bound)
  }

  /** How many of the cities below `k` are not on `path`: the children the
      child loop counts as generated. */
  function GeneratedBelow(path: seq<nat>, k: nat): nat {
    if k == 0 then 0 else GeneratedBelow(path, k - 1) + (if k - 1 in path then 0 else 1)
  }

  // ---------------------------------------------------------------------
  // The tour greedySolveProblem keeps

  /** After the starts below `upto`: the greedy tour `t` from `best`, no
      dearer than any of them and strictly cheaper than those tried before
      `best`, so the earliest of the cheapest. */
  ghost predicate CheapestGreedy(dist: Grid, n: nat, t: seq<nat>, best: nat, upto: nat)
    requires Square(dist, n) && upto <= n
  {
    best < upto &&
    (forall i :: 0 <= i < upto ==> GreedyTour(CostTable(dist, n), n, i).Some?) &&
    GreedyTour(CostTable(dist, n), n, best) == Some(t) &&
    (forall i :: 0 <= i < upto ==> Le(GreedyTourCost(dist, n, best), GreedyTourCost(dist, n, i))) &&
    (forall i :: 0 <= i < best ==> Lt(GreedyTourCost(dist, n, best), GreedyTourCost(dist, n, i)))
  }

  /** The first greedy tour found is the cheapest so far. */
  lemma FirstGreedy(dist: Grid, n: nat, t: seq<nat>)
    requires Square(dist, n) && 0 < n && GreedyTour(CostTable(dist, n), n, 0) == Some(t)
    ensures CheapestGreedy(dist, n, t, 0, 1)
  {
    LtStrictTotal(GreedyTourCost(dist, n, 0), GreedyTourCost(dist, n, 0), GreedyTourCost(dist, n, 0));
  }

  /** A tour from start `i` that is not strictly cheaper leaves the kept one kept. */
  lemma KeepGreedy(dist: Grid, n: nat, t: seq<nat>, best: nat, i: nat)
    requires Square(dist, n) && i < n && CheapestGreedy(dist, n, t, best, i)
    requires GreedyTour(CostTable(dist, n), n, i).Some?
    requires !Lt(GreedyTourCost(dist, n, i), GreedyTourCost(dist, n, best))
    ensures CheapestGreedy(dist, n, t, best, i + 1)
  {
    LtStrictTotal(GreedyTourCost(dist, n, i), GreedyTourCost(dist, n, best), GreedyTourCost(dist, n, i));
  }

  /** A tour from start `i` that is strictly cheaper becomes the kept one. */
  lemma ReplaceGreedy(dist: Grid, n: nat, t: seq<nat>, best: nat, i: nat, t': seq<nat>)
    requires Square(dist, n) && i < n && CheapestGreedy(dist, n, t, best, i)
    requires GreedyTour(CostTable(dist, n), n, i) == Some(t')
    requires Lt(GreedyTourCost(dist, n, i), GreedyTourCost(dist, n, best))
    ensures CheapestGreedy(dist, n, t', i, i + 1)
  {
    var c := GreedyTourCost(dist, n, i);
    forall j | 0 <= j < i
      ensures Lt(c, GreedyTourCost(dist, n, j))
    {
      LeChains(c, GreedyTourCost(dist, n, best), GreedyTourCost(dist, n, j));
    }
    LtStrictTotal(c, c, c);
  }

  /** Whatever is no dearer than the kept tour is no dearer than any greedy
      tour, and strictly cheaper when strictly cheaper than the kept one. */
  lemma BelowCheapestGreedy(dist: Grid, n: nat, t: seq<nat>, best: nat, c: Cost)
    requires Square(dist, n) && CheapestGreedy(dist, n, t, best, n)
    requires Le(c, GreedyTourCost(dist, n, best))
    ensures forall i :: 0 <= i < n ==> Le(c, GreedyTourCost(dist, n, i))
    ensures Lt(c, GreedyTourCost(dist, n, best)) ==> forall i :: 0 <= i < n ==> Lt(c, GreedyTourCost(dist, n, i))
  {
    forall i | 0 <= i < n
      ensures Le(c, GreedyTourCost(dist, n, i))
      ensures Lt(c, GreedyTourCost(dist, n, best)) ==> Lt(c, GreedyTourCost(dist, n, i))
    {
      LeChains(c, GreedyTourCost(dist, n, best), GreedyTourCost(dist, n, i));
    }
  }

  class ProblemAndSolver {
    /** Cities.Length. */
    const n: nat
    /** dist[i][j] is Cities[i].costToGetTo(Cities[j]). */
    const dist: Grid
    var bssf: Option<seq<nat>>

    ghost predicate Valid()
      reads this
    {
      Square(dist, n) && (bssf.Some? ==> IsTour(bssf.value, n))
    }

    constructor (n: nat, dist: Grid)
      requires Square(dist, n)
      ensures Valid() && this.n == n && this.dist == dist && bssf == None
    {
      this.n := n;
      this.dist := dist;
      bssf := None;
    }

    /** costOfBssf: the cost of the best tour so far, -1 when there is none. */
    function CostOfBssf(): (r: Cost)
      reads this
      requires Valid()
      ensures bssf.None? ==> r == Fin(-1.0)
      ensures bssf.Some? ==> r == RouteCost(dist, n, bssf.value)
    {
      if bssf.Some? then RouteCost(dist, n, bssf.value) else Fin(-1.0)
    }

    // -------------------------------------------------------------------
    // greedySolveProblem

    /**
      greedySolveProblem: the greedy tour from every start city in turn,
      each replacing the best one only when strictly cheaper. It diverges
      exactly when some walk gets stuck.
    */
    method GreedySolveProblem() returns (outcome: GreedyOutcome)
      requires Valid()
      modifies this
      ensures Valid()
      ensures outcome.GreedyDiverges? <==> exists i :: 0 <= i < n && GreedyTour(CostTable(dist, n), n, i).None?
      ensures outcome.GreedyDone? ==> (bssf.Some? <==> n > 0) && (outcome.count > 0 <==> n > 0)
      ensures outcome.GreedyDone? && n > 0 ==> exists best :: CheapestGreedy(dist, n, bssf.value, best, n)
    {
      bssf := None;
      var costs := GetCosts(dist, n);
      ghost var table := CostTable(dist, n);
      var count := 0;
      var route := new nat[n];
      ghost var best := 0;
      for i := 0 to n
        invariant Valid()
        invariant forall r, k :: 0 <= r < n && 0 <= k < n ==> costs[r, k] == table[r][k]
        invariant forall i' :: 0 <= i' < i ==> GreedyTour(table, n, i').Some?
        invariant bssf.Some? <==> i > 0
        invariant count > 0 <==> i > 0
        invariant i > 0 ==> CheapestGreedy(dist, n, bssf.value, best, i)
      {
        var ok := GreedyFrom(costs, table, n, i, route);
        if !ok {
          return GreedyDiverges;
        }
        var sol := route[..];
        var replaced;
        replaced, best := ConsiderTour(i, sol, best);
        if replaced {
          count := count + 1;
        }
      }
      if n > 0 {
        assert CheapestGreedy(dist, n, bssf.value, best, n);
      }
      outcome := GreedyDone(count);
    }

    /** The test after each greedy walk: the tour from start `i` becomes the
        bssf when there is none yet or when it is strictly cheaper. */
    method ConsiderTour(i: nat, sol: seq<nat>, ghost best: nat) returns (replaced: bool, ghost best': nat)
      requires Valid() && i < n && GreedyTour(CostTable(dist, n), n, i) == Some(sol)
      requires bssf.Some? <==> i > 0
      requires i > 0 ==> CheapestGreedy(dist, n, bssf.value, best, i)
      modifies this
      ensures Valid() && bssf.Some? && CheapestGreedy(dist, n, bssf.value, best', i + 1)
      ensures replaced <==> bssf != old(bssf)
      ensures replaced ==> bssf == Some(sol)
    {
      GreedyExtendIsNearestTour(CostTable(dist, n), n, [i]);
      if bssf.None? {
        FirstGreedy(dist, n, sol);
        bssf := Some(sol);
        return true, i;
      }
      var solCost := CostOfRoute(dist, n, sol);
      var bssfCost := CostOfRoute(dist, n, bssf.value);
      if Lt(solCost, bssfCost) {
        ReplaceGreedy(dist, n, bssf.value, best, i, sol);
        bssf := Some(sol);
        return true, i;
      }
      KeepGreedy(dist, n, bssf.value, best, i);
      return false, best;
    }

    // -------------------------------------------------------------------
    // Nodes

    /**
      makeRootNode: the path [city 0] and the cost table with +infinity on
      the diagonal, reduced by the root bound, which is the node's bound.
    */
    method MakeRootNode() returns (node: BBNode)
      requires Valid() && n > 0
      ensures node.path == [0]
      ensures node.matrix == Reduced(RootRule, CostTable(dist, n), n)
      ensures node.lowerBound == Fin(Subtracted(RootRule, CostTable(dist, n), n))
    {
      var m := new Cost[n, n];
      for orig := 0 to n
        invariant forall r, k :: 0 <= r < orig && 0 <= k < n ==> m[r, k] == CostTable(dist, n)[r][k]
      {
        for dest := 0 to n
          invariant forall r, k :: 0 <= r < n && 0 <= k < n && (r < orig || (r == orig && k < dest)) ==>
                      m[r, k] == CostTable(dist, n)[r][k]
        {
          if dest == orig {
            m[orig, dest] := Inf;
          } else {
            m[orig, dest] := dist[orig][dest];
          }
        }
      }
      SnapshotIs(m, CostTable(dist, n));
      var lowerBound := RootLowerBound(m);
      node := BBNode([0], Snapshot(m), Fin(lowerBound));
    }

    /**
      makeChildNode: the parent's path with `thisCity` appended, and a copy
      of the parent's matrix on which the child bound takes the edge from
      `parentCity`; the parent node is left as it was.
    */
    method MakeChildNode(parent: BBNode, parentCity: nat, thisCity: nat) returns (node: BBNode)
      requires Square(dist, n) && Square(parent.matrix, n) && parentCity < n && thisCity < n
      ensures node.path == parent.path + [thisCity]
      ensures node.matrix == ChildMatrix(parent.matrix, n, parentCity, thisCity)
      ensures node.lowerBound == ChildBound(parent.matrix, n, parentCity, thisCity, parent.lowerBound)
    {
      var m := new Cost[n, n]((r, k) requires 0 <= r < n && 0 <= k < n => parent.matrix[r][k]);
      SnapshotIs(m, parent.matrix);
      var lowerBound := ChildLowerBound(m, parentCity, thisCity, parent.lowerBound);
      node := BBNode(parent.path + [thisCity], Snapshot(m), lowerBound);
    }

    // -------------------------------------------------------------------
    // bBSolveProblem

    /** The node makeChildNode builds for the edge from `last` to `c`. */
    function ChildNode(current: BBNode, last: nat, c: nat): BBNode
      requires Square(current.matrix, n) && last < n && c < n
    {
      BBNode(current.path + [c], ChildMatrix(current.matrix, n, last, c),
             ChildBound(current.matrix, n, last, c, current.lowerBound))
    }

    /** Whether the child loop queues the child for city `c`: a city not on
        the path, a finite edge to it from `last`, and a child bound below
        `bound`. */
    predicate Queues(current: BBNode, last: nat, c: nat, bound: Cost)
      requires Square(dist, n) && Square(current.matrix, n) && last < n && c < n
    {
      c !in current.path && dist[last][c].Fin? && Lt(ChildNode(current, last, c).lowerBound, bound)
    }

    /** The children the loop queues among the cities below `k`. */
    ghost function QueuedChildren(current: BBNode, last: nat, bound: Cost, k: nat): multiset<BBNode>
      requires Square(dist, n) && Square(current.matrix, n) && last < n && k <= n
    {
      if k == 0 then multiset{}
      else QueuedChildren(current, last, bound, k - 1) +
           (if Queues(current, last, k - 1, bound) then multiset{ChildNode(current, last, k - 1)} else multiset{})
    }

    /** How many of the cities below `k` the loop prunes: those not on the
        path that it does not queue. */
    function PrunedBelow(current: BBNode, last: nat, bound: Cost, k: nat): nat
      requires Square(dist, n) && Square(current.matrix, n) && last < n && k <= n
    {
      if k == 0 then 0
      else PrunedBelow(current, last, bound, k - 1) +
           (if k - 1 !in current.path && !Queues(current, last, k - 1, bound) then 1 else 0)
    }

    /** Every child the loop queues is a child of `current` below `bound`. */
    lemma {:induction false} QueuedChildrenAreChildren(current: BBNode, last: nat, bound: Cost, k: nat)
      requires Square(dist, n) && NodeOk(current, n) && |current.path| < n && last < n && k <= n
      ensures forall e :: e in QueuedChildren(current, last, bound, k) ==> ChildOf(e, current, n, bound)
    {
      if k > 0 {
        var c := k - 1;
        QueuedChildrenAreChildren(current, last, bound, c);
        if Queues(current, last, c, bound) {
          var e := ChildNode(current, last, c);
          ExtendPartialTour(current.path, c, n);
          assert e.path[..|current.path|] == current.path;
          assert ChildOf(e, current, n, bound);
        }
      }
    }

    /** The queued children and the pruned ones are together exactly the
        generated ones. */
    lemma {:induction false} QueuedChildrenCount(current: BBNode, last: nat, bound: Cost, k: nat)
      requires Square(dist, n) && Square(current.matrix, n) && last < n && k <= n
      ensures |QueuedChildren(current, last, bound, k)| + PrunedBelow(current, last, bound, k) == GeneratedBelow(current.path, k)
    {
      if k > 0 {
        QueuedChildrenCount(current, last, bound, k - 1);
      }
    }

    /**
      The child loop of bBSolveProblem for a node that is not a leaf: every
      city not on the path counts as generated; the child for a finite edge
      whose bound is below the bssf cost is queued and every other one is
      pruned. Unless the queue's array runs out, the queue gains exactly
      those children.
    */
    method ExpandNode(pq: PQueue, current: BBNode) returns (generated: nat, pruned: nat, overflow: bool)
      requires Valid() && bssf.Some? && pq.Valid()
      requires NodeOk(current, n) && |current.path| < n
      modifies pq, pq.queuedNodes
      ensures pq.Valid() && pq.queuedNodes == old(pq.queuedNodes)
      ensures var last := current.path[|current.path| - 1];
              !overflow ==> generated == GeneratedBelow(current.path, n) &&
                            pruned == PrunedBelow(current, last, CostOfBssf(), n) &&
                            pq.Contents() == old(pq.Contents()) + QueuedChildren(current, last, CostOfBssf(), n)
      ensures pruned <= generated
      ensures !overflow ==> pq.count == old(pq.count) + generated - pruned
      ensures old(pq.Contents()) <= pq.Contents()
      ensures forall e :: e in pq.Contents() ==> e in old(pq.Contents()) || ChildOf(e, current, n, CostOfBssf())
    {
      generated, pruned, overflow := 0, 0, false;
      var bound := CostOfBssf();
      ghost var before, count0 := pq.Contents(), pq.count;
      var last := current.path[|current.path| - 1];
      for child := 0 to n
        invariant pq.Valid() && pq.queuedNodes == old(pq.queuedNodes)
        invariant generated == GeneratedBelow(current.path, child)
        invariant pruned == PrunedBelow(current, last, bound, child)
        invariant pq.Contents() == before + QueuedChildren(current, last, bound, child)
        invariant pq.count == count0 + generated - pruned
      {
        generated, pruned, overflow := ExpandStep(pq, current, last, child, bound, before, count0, generated, pruned);
        if overflow {
          QueuedSoFar(current, last, bound, child, before, pq.Contents());
          return;
        }
      }
      QueuedSoFar(current, last, bound, n, before, pq.Contents());
    }

    /** What the child loop has queued after k cities: children of current only, and no more than it generated. */
    lemma QueuedSoFar(current: BBNode, last: nat, bound: Cost, k: nat, before: multiset<BBNode>, after: multiset<BBNode>)
      requires Square(dist, n) && NodeOk(current, n) && |current.path| < n && last < n && k <= n
      requires after == before + QueuedChildren(current, last, bound, k)
      ensures before <= after
      ensures forall e :: e in after ==> e in before || ChildOf(e, current, n, bound)
      ensures PrunedBelow(current, last, bound, k) <= GeneratedBelow(current.path, k)
    {
      QueuedChildrenAreChildren(current, last, bound, k);
      QueuedChildrenCount(current, last, bound, k);
    }

    /** One turn of the child loop, stated on the loop's running totals. */
    method ExpandStep(pq: PQueue, current: BBNode, last: nat, child: nat, bound: Cost, ghost before: multiset<BBNode>,
                      ghost count0: int, generated: nat, pruned: nat) returns (generated': nat, pruned': nat, overflow: bool)
      requires Valid() && pq.Valid()
      requires NodeOk(current, n) && |current.path| < n && last < n && child < n
      requires generated == GeneratedBelow(current.path, child) && pruned == PrunedBelow(current, last, bound, child)
      requires pq.Contents() == before + QueuedChildren(current, last, bound, child)
      requires pq.count == count0 + generated - pruned
      modifies pq, pq.queuedNodes
      ensures pq.Valid() && pq.queuedNodes == old(pq.queuedNodes)
      ensures generated' == GeneratedBelow(current.path, child + 1) && pruned' == PrunedBelow(current, last, bound, child + 1)
      ensures !overflow ==> pq.Contents() == before + QueuedChildren(current, last, bound, child + 1)
      ensures !overflow ==> pq.count == count0 + generated' - pruned'
      ensures overflow ==> pq.Contents() == old(pq.Contents()) && generated' == generated + 1 && pruned' == pruned
    {
      ghost var queued := QueuedChildren(current, last, bound, child);
      ghost var added := if Queues(current, last, child, bound) then multiset{ChildNode(current, last, child)} else multiset{};
      assert QueuedChildren(current, last, bound, child + 1) == queued + added;
      var gen, pr;
      gen, pr, overflow := TryChild(pq, current, last, child, bound);
      generated', pruned' := generated + gen, pruned + pr;
      assert before + queued + added == before + (queued + added);
    }

    /**
      One turn of the child loop: a city on the path is skipped; an
      +infinite edge counts as generated and pruned; otherwise the child is
      made, counts as generated, and is pruned unless its bound is below
      `bound`, else queued. Queueing into a full array is the overflow.
    */
    method TryChild(pq: PQueue, current: BBNode, last: nat, child: nat, bound: Cost) returns (generated: nat, pruned: nat, overflow: bool)
      requires Valid() && pq.Valid()
      requires NodeOk(current, n) && |current.path| < n && last < n && child < n
      modifies pq, pq.queuedNodes
      ensures pq.Valid() && pq.queuedNodes == old(pq.queuedNodes)
      ensures generated == if child in current.path then 0 else 1
      ensures pruned == if child !in current.path && !Queues(current, last, child, bound) then 1 else 0
      ensures overflow <==> Queues(current, last, child, bound) && old(pq.count) + 1 >= pq.queuedNodes.Length
      ensures pq.Contents() == old(pq.Contents()) +
                if Queues(current, last, child, bound) && !overflow then multiset{ChildNode(current, last, child)} else multiset{}
      ensures !overflow ==> pq.count == old(pq.count) + generated - pruned
    {
      generated, pruned, overflow := 0, 0, false;
      if child in current.path {
        return;
      }
      if dist[last][child] == Inf {
        return 1, 1, false;
      }
      var childNode := MakeChildNode(current, last, child);
      assert childNode == ChildNode(current, last, child);
      if !Lt(childNode.lowerBound, bound) {
        return 1, 1, false;
      }
      if pq.count + 1 >= pq.queuedNodes.Length {
        return 1, 0, true;
      }
      pq.Insert(childNode);
      generated := 1;
    }

    /**
      One pass of bBSolveProblem's loop after deleteMin handed it `current`:
      pruned when its bound is not below the bssf cost; a complete path is
      pruned when no edge leads back to city 0 (the root's city) and
      otherwise replaces the bssf when strictly cheaper; any other node is
      expanded. The bssf cost never rises.
    */
    method ServeNode(pq: PQueue, current: BBNode) returns (generated: nat, pruned: nat, improved: bool, overflow: bool)
      requires Valid() && bssf.Some? && pq.Valid() && NodeOk(current, n)
      requires forall e :: e in pq.Contents() ==> NodeOk(e, n)
      modifies this, pq, pq.queuedNodes
      ensures Valid() && bssf.Some? && pq.Valid() && pq.queuedNodes == old(pq.queuedNodes)
      ensures forall e :: e in pq.Contents() ==> NodeOk(e, n)
      ensures forall e :: e in pq.Contents() ==> e in old(pq.Contents()) || ChildOf(e, current, n, old(CostOfBssf()))
      ensures !overflow ==> pq.count + pruned <= old(pq.count) + generated + 1
      ensures Le(CostOfBssf(), old(CostOfBssf()))
      ensures improved <==> bssf != old(bssf)
      ensures improved ==> Lt(CostOfBssf(), old(CostOfBssf())) && bssf == Some(current.path)
      // a node whose bound is not below the bssf cost is only counted
      ensures !Lt(current.lowerBound, old(CostOfBssf())) ==>
                generated == 0 && pruned == 1 && !improved && !overflow && pq.Contents() == old(pq.Contents())
      // a complete path queues nothing, and is pruned or may become the bssf
      ensures |current.path| == n ==> generated == 0 && !overflow && pq.Contents() == old(pq.Contents())
      ensures |current.path| == n && Lt(current.lowerBound, old(CostOfBssf())) ==>
                var back := dist[current.path[n - 1]][0];
                (pruned == 1 <==> back.Inf?) &&
                (improved <==> back.Fin? && Lt(RouteCost(dist, n, current.path), old(CostOfBssf())))
      // any other node is expanded and the bssf stays
      ensures |current.path| < n && Lt(current.lowerBound, old(CostOfBssf())) ==>
                var last := current.path[|current.path| - 1];
                !improved &&
                (!overflow ==> generated == GeneratedBelow(current.path, n) &&
                               pruned == PrunedBelow(current, last, old(CostOfBssf()), n) &&
                               pq.Contents() == old(pq.Contents()) + QueuedChildren(current, last, old(CostOfBssf()), n))
    {
      generated, pruned, improved, overflow := 0, 0, false, false;
      LtStrictTotal(CostOfBssf(), CostOfBssf(), CostOfBssf());
      if !Lt(current.lowerBound, CostOfBssf()) {
        return 0, 1, false, false;
      }
      if |current.path| == n {
        var last := current.path[|current.path| - 1];
        if dist[last][0] == Inf {
          return 0, 1, false, false;
        }
        var candidate := CostOfRoute(dist, n, current.path);
        var bssfCost := CostOfRoute(dist, n, bssf.value);
        if Lt(candidate, bssfCost) {
          LtStrictTotal(candidate, bssfCost, candidate);
          bssf := Some(current.path);
          improved := true;
        }
        return;
      }
      generated, pruned, overflow := ExpandNode(pq, current);
    }

    /**
      The loop of bBSolveProblem with `fuel` turns in place of the time
      limit: nodes leave the queue until the fuel is spent, the queue is
      empty, or the bound of the node served next equals the bssf cost.
      The bssf never gets dearer than `bound`, and is strictly cheaper once
      the loop has found a solution.
    */
    method Search(pq: PQueue, fuel: nat, ghost bound: Cost) returns (turns: nat, found: nat, generated: nat, pruned: nat, overflow: bool)
      requires Valid() && bssf.Some? && pq.Valid()
      requires forall e :: e in pq.Contents() ==> NodeOk(e, n)
      requires Le(CostOfBssf(), bound)
      modifies this, pq, pq.queuedNodes
      ensures Valid() && bssf.Some? && pq.Valid()
      ensures forall e :: e in pq.Contents() ==> NodeOk(e, n)
      ensures turns <= fuel
      ensures !overflow && turns < fuel ==> pq.IsEmpty() || pq.GetMinLB() == CostOfBssf()
      ensures Le(CostOfBssf(), bound)
      ensures found > 0 ==> Lt(CostOfBssf(), bound)
      ensures !overflow ==> pruned + pq.count <= generated + old(pq.count)
    {
      turns, found, generated, pruned, overflow := 0, 0, 0, 0, false;
      while turns < fuel && !pq.IsEmpty() && pq.GetMinLB() != CostOfBssf()
        invariant Valid() && bssf.Some? && pq.Valid() && pq.queuedNodes == old(pq.queuedNodes)
        invariant forall e :: e in pq.Contents() ==> NodeOk(e, n)
        invariant turns <= fuel
        invariant pruned + pq.count <= generated + old(pq.count)
        invariant Le(CostOfBssf(), bound)
        invariant found > 0 ==> Lt(CostOfBssf(), bound)
        decreases fuel - turns
      {
        turns := turns + 1;
        var current := pq.DeleteMin();
        ghost var cost := CostOfBssf();
        var gen, pr, improved;
        gen, pr, improved, overflow := ServeNode(pq, current);
        LeChains(CostOfBssf(), cost, bound);
        if overflow {
          return;
        }
        generated := generated + gen;
        pruned := pruned + pr;
        if improved {
          found := found + 1;
        }
      }
    }

    /**
      bBSolveProblem, with `fuel` standing for the time limit: the greedy
      tour is the first bssf, the root node the first queued node, and the
      search loop runs from there. The answer is no dearer than any greedy
      tour, and strictly cheaper than all of them once the search has found
      a solution.
    */
    method BBSolveProblem(fuel: nat) returns (outcome: SolveOutcome)
      requires Valid() && n > 0
      modifies this
      ensures Valid()
      ensures outcome.SolveDiverges? <==> exists i :: 0 <= i < n && GreedyTour(CostTable(dist, n), n, i).None?
      ensures !outcome.SolveDiverges? ==> bssf.Some?
      ensures !outcome.SolveDiverges? ==> forall i :: 0 <= i < n ==> Le(CostOfBssf(), GreedyTourCost(dist, n, i))
      ensures outcome.Solved? ==> outcome.cost == CostOfBssf()
      ensures outcome.Solved? && outcome.solutionsFound > 0 ==>
                forall i :: 0 <= i < n ==> Lt(CostOfBssf(), GreedyTourCost(dist, n, i))
      ensures outcome.Solved? ==> outcome.statesPruned <= outcome.childStatesGenerated + 1
    {
      var g := GreedySolveProblem();
      if g.GreedyDiverges? {
        return SolveDiverges;
      }
      ghost var greedyTour := bssf.value;
      ghost var best :| CheapestGreedy(dist, n, greedyTour, best, n);
      ghost var greedyCost := CostOfBssf();
      assert greedyCost == GreedyTourCost(dist, n, best);
      LtStrictTotal(greedyCost, greedyCost, greedyCost);
      var root := MakeRootNode();
      var pq := new PQueue();
      pq.MakeQueue(n);
      assert NodeOk(root, n);
      pq.Insert(root);
      var turns, found, generated, pruned, overflow := Search(pq, fuel, greedyCost);
      BelowCheapestGreedy(dist, n, greedyTour, best, CostOfBssf());
      assert forall i :: 0 <= i < n ==> GreedyTour(CostTable(dist, n), n, i).Some?;
      if overflow {
        return QueueOverflow;
      }
      outcome := Solved(CostOfBssf(), found, generated, pruned, pq.maxNum);
    }
  }
}
