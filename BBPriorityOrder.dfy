/**
  The priority of a node in the branch-and-bound queue (BBPriority.cs): a
  depth and a cost. A node more than two levels deeper than the other comes
  first; otherwise, or when either depth is the DEPTH_NONE sentinel, the
  costs decide.
*/
module BBPriorityOrder {
  import opened Costs
  import opened QueueElements

  const DEPTH_NONE: int := -1

  datatype BBPriority = BBPriority(depth: int, cost: Cost)

  /** Depths differ by more than two and neither is the sentinel. */
  predicate DepthDecides(p: BBPriority, q: BBPriority) {
    p.depth != DEPTH_NONE && q.depth != DEPTH_NONE &&
    (p.depth > q.depth + 2 || p.depth < q.depth - 2)
  }

  function CompareTo(p: BBPriority, q: BBPriority): (r: int)
    ensures -1 <= r <= 1
    ensures DepthDecides(p, q) ==> (r == -1 <==> p.depth > q.depth)
    ensures !DepthDecides(p, q) ==> r == CompareCosts(p.cost, q.cost)
  {
    if p.depth != -1 && q.depth != DEPTH_NONE && p.depth > q.depth + 2 then -1
    else if p.depth != -1 && q.depth != DEPTH_NONE && p.depth < q.depth - 2 then 1
    else CompareCosts(p.cost, q.cost)
  }

  /** The node deeper by more than two comes first, whatever the costs. */
  lemma DeeperWins(p: BBPriority, q: BBPriority)
    requires p.depth != DEPTH_NONE && q.depth != DEPTH_NONE && p.depth > q.depth + 2
    ensures CompareTo(p, q) == -1 && CompareTo(q, p) == 1
  {
  }

  /** Within a depth gap of two, or with the sentinel on either side, only
      the costs matter. */
  lemma CostDecides(p: BBPriority, q: BBPriority)
    requires p.depth == DEPTH_NONE || q.depth == DEPTH_NONE || q.depth - 2 <= p.depth <= q.depth + 2
    ensures CompareTo(p, q) == -1 <==> Lt(p.cost, q.cost)
    ensures CompareTo(p, q) == 1 <==> Lt(q.cost, p.cost)
    ensures CompareTo(p, q) == 0 <==> p.cost == q.cost
  {
  }

  /** Swapping the arguments negates the answer; a priority ties with itself. */
  lemma Antisymmetric(p: BBPriority, q: BBPriority)
    ensures CompareTo(p, q) == -CompareTo(q, p)
    ensures CompareTo(p, p) == 0
  {
  }

  /** A gap of exactly two is not enough: (1, 10) and (3, 50) are compared
      by cost, so the shallower, cheaper one comes first. */
  lemma GapOfTwoComparesCosts()
    ensures CompareTo(BBPriority(1, Fin(10.0)), BBPriority(3, Fin(50.0))) == -1
    ensures CompareTo(BBPriority(1, Fin(10.0)), BBPriority(2, Fin(5.0))) == 1
    ensures CompareTo(BBPriority(1, Fin(10.0)), BBPriority(4, Fin(50.0))) == 1
  {
  }

  /** The order is not transitive: (1, 0) < (3, 5) < (4, 10) < (1, 0). */
  lemma NotTransitive()
    ensures CompareTo(BBPriority(1, Fin(0.0)), BBPriority(3, Fin(5.0))) < 0
    ensures CompareTo(BBPriority(3, Fin(5.0)), BBPriority(4, Fin(10.0))) < 0
    ensures CompareTo(BBPriority(4, Fin(10.0)), BBPriority(1, Fin(0.0))) < 0
  {
  }

  /** Hence it is not a comparator the heap may rely on. */
  lemma NotAComparator()
    ensures !IsComparator(CompareTo)
  {
    var a, b, c := BBPriority(1, Fin(0.0)), BBPriority(3, Fin(5.0)), BBPriority(4, Fin(10.0));
    assert !ChainsAt(CompareTo, a, b, c);
  }
}
