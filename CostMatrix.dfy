/**
  The reduced-cost matrix of one branch-and-bound node (Matrix.cs): a square
  table of residual edge costs, the lower bound accumulated so far and the
  number of cities visited. A matrix is never changed once built: Reduce and
  FollowRoute fill a fresh copy and return a new matrix.
*/
module CostMatrix {
  import opened Costs
  import opened Wrappers
  import opened Reduction
  import opened InPlace

  /** The exception the constructor throws. */
  datatype MatrixError = ArgumentOutOfRange

  /**
    `cities` stands for Cities.Length: the city objects themselves are only
    ever counted.
  */
  datatype Matrix = Matrix(cities: nat, costs: Grid, lowerBound: Cost, citiesVisited: int) {

    /** What the constructor's dimension checks guarantee. */
    predicate Valid() {
      Square(costs, cities)
    }

    /** The specification of Reduce: the row-then-column reduction by line
        minima, its total added to the bound. */
    function ReducedMatrix(): (r: Matrix)
      requires Valid()
      ensures r.Valid()
    {
      Matrix(cities, Reduced(MinRule, costs, cities),
             AddReal(lowerBound, Subtracted(MinRule, costs, cities)), citiesVisited)
    }

    /** The costs FollowRoute reduces: row `i` and column `j` set to
        +infinity, and also the entry (j, 0) when `closeRoot` holds. */
    function Blocked(i: nat, j: nat, closeRoot: bool): (g: Grid)
      requires Valid()
      ensures Square(g, cities)
    {
      seq(cities, r requires 0 <= r < cities => seq(cities, k requires 0 <= k < cities =>
        if r == i || k == j || (closeRoot && r == j && k == 0) then Inf else costs[r][k]))
    }

    /** The specification of FollowRoute(i, j). */
    function Followed(i: nat, j: nat): (r: Matrix)
      requires Valid()
      ensures r.Valid()
    {
      Matrix(cities, Blocked(i, j, citiesVisited < cities - 2), lowerBound, citiesVisited + 1).ReducedMatrix()
    }

    /**
      Reduces every row by its minimum and then every column by its minimum,
      skipping lines whose minimum is +infinity, on a copy of the costs; the
      amounts subtracted are added to the bound.
    */
    method Reduce() returns (r: Matrix)
      requires Valid()
      ensures r.cities == cities && r.citiesVisited == citiesVisited
      ensures r == ReducedMatrix()
    {
      var n := cities;
      var costs := new Cost[n, n]((i, j) requires 0 <= i < n && 0 <= j < n => this.costs[i][j]);
      SnapshotIs(costs, this.costs);
      var added := ReduceInPlace(costs, MinRule);
      r := Matrix(cities, Snapshot(costs), AddReal(lowerBound, added), citiesVisited);
    }

    /**
      Follows the edge from city `i` to city `j`: on a copy, row `i` and
      column `j` become +infinity, and so does the return (j, 0) to the first
      city unless the tour is about to close; the result has one more city
      visited and is reduced. The cost of the edge itself is not added.
    */
    method FollowRoute(i: nat, j: nat) returns (r: Matrix)
      requires Valid() && i < cities && j < cities
      ensures r.citiesVisited == citiesVisited + 1
      ensures r == Followed(i, j)
    {
      var n := cities;
      var costs := new Cost[n, n]((r, k) requires 0 <= r < n && 0 <= k < n => this.costs[r][k]);
      BlockEdge(costs, i, j, citiesVisited < cities - 2);
      SnapshotIs(costs, Blocked(i, j, citiesVisited < cities - 2));
      var next := Matrix(cities, Snapshot(costs), lowerBound, citiesVisited + 1);
      r := next.Reduce();
    }
  }

  /** Sets row i and column j to +infinity, and (j, 0) too when asked. */
  method BlockEdge(a: array2<Cost>, i: nat, j: nat, closeRoot: bool)
    requires a.Length0 == a.Length1 && i < a.Length0 && j < a.Length0
    modifies a
    ensures forall r, q :: 0 <= r < a.Length0 && 0 <= q < a.Length1 ==>
              a[r, q] == if r == i || q == j || (closeRoot && r == j && q == 0) then Inf else old(a[r, q])
  {
    var n := a.Length0;
    for k := 0 to n
      invariant forall r, q :: 0 <= r < n && 0 <= q < n ==>
                  a[r, q] == if (r == i && q < k) || (q == j && r < k) then Inf else old(a[r, q])
    {
      a[i, k] := Inf;
      a[k, j] := Inf;
    }
    if closeRoot {
      a[j, 0] := Inf;
    }
  }

  /**
    The constructor: fails with ArgumentOutOfRange unless `costs` has
    exactly `cities` rows and `cities` columns; the new matrix has visited
    no city yet.
  */
  function Create(cities: nat, costs: array2<Cost>, lowerBound: Cost): (r: Result<Matrix, MatrixError>)
    reads costs
    ensures r.Success? <==> costs.Length0 == cities && costs.Length1 == cities
    ensures r.Success? ==> r.value.Valid() && r.value.citiesVisited == 0 &&
                           r.value.lowerBound == lowerBound && r.value.cities == cities &&
                           forall i, j :: 0 <= i < cities && 0 <= j < cities ==> r.value.costs[i][j] == costs[i, j]
  {
    if cities != costs.Length0 then Failure(ArgumentOutOfRange)
    else if cities != costs.Length1 then Failure(ArgumentOutOfRange)
    else Success(Matrix(cities, Snapshot(costs), lowerBound, 0))
  }

  /** Reducing a reduced matrix changes neither its costs nor its bound. */
  lemma ReduceIdempotent(m: Matrix)
    requires m.Valid()
    ensures m.ReducedMatrix().ReducedMatrix() == m.ReducedMatrix()
  {
    MinRuleIdempotent(m.costs, m.cities);
  }

  /** Reduce's result has a 0 or only +infinity in every row and column, and
      keeps exactly the +infinite entries of the receiver. */
  lemma ReduceShape(m: Matrix)
    requires m.Valid()
    ensures var r := m.ReducedMatrix();
            (forall i :: 0 <= i < m.cities ==> ZeroOrInfinite(r.costs[i])) &&
            (forall j :: 0 <= j < m.cities ==> ZeroOrInfinite(Column(r.costs, m.cities, j))) &&
            (forall i, j :: 0 <= i < m.cities && 0 <= j < m.cities ==> (r.costs[i][j].Inf? <==> m.costs[i][j].Inf?))
  {
    MinRuleReducesEveryLine(m.costs, m.cities);
    ReducedKeepsInfinity(MinRule, m.costs, m.cities);
  }

  /** On costs that are non-negative or +infinity, Reduce never lowers the bound. */
  lemma ReduceNeverLowersBound(m: Matrix)
    requires m.Valid() && AllNonNeg(m.costs, m.cities)
    ensures Le(m.lowerBound, m.ReducedMatrix().lowerBound)
  {
    MinRuleSubtractsNonNeg(m.costs, m.cities);
  }

  /** FollowRoute(i, j) makes +infinite exactly row `i`, column `j`, the
      entry (j, 0) while more than two cities remain, and what was +infinite
      already; in particular the reverse edge (j, i) stays open. */
  lemma FollowRouteBlocks(m: Matrix, i: nat, j: nat)
    requires m.Valid() && i < m.cities && j < m.cities
    ensures var f := m.Followed(i, j);
            f.cities == m.cities && f.citiesVisited == m.citiesVisited + 1 &&
            forall r, k :: 0 <= r < m.cities && 0 <= k < m.cities ==>
              (f.costs[r][k].Inf? <==>
                 r == i || k == j || (m.citiesVisited < m.cities - 2 && r == j && k == 0) || m.costs[r][k].Inf?)
  {
    ReducedKeepsInfinity(MinRule, m.Blocked(i, j, m.citiesVisited < m.cities - 2), m.cities);
  }

  /** On costs that are non-negative or +infinity, FollowRoute never lowers the bound. */
  lemma FollowRouteNeverLowersBound(m: Matrix, i: nat, j: nat)
    requires m.Valid() && i < m.cities && j < m.cities && AllNonNeg(m.costs, m.cities)
    ensures Le(m.lowerBound, m.Followed(i, j).lowerBound)
  {
    var b := m.Blocked(i, j, m.citiesVisited < m.cities - 2);
    assert AllNonNeg(b, m.cities);
    MinRuleSubtractsNonNeg(b, m.cities);
  }

  /** FollowRoute does not charge the edge it follows: following the edge
      (0, 2), whose reduced cost is 7, leaves the bound of 10 where it was. */
  lemma FollowRouteOmitsEdgeCost()
    ensures var m := Matrix(3, [[Inf, Fin(0.0), Fin(7.0)], [Fin(0.0), Inf, Fin(0.0)], [Fin(0.0), Fin(0.0), Inf]], Fin(10.0), 0);
            m.Followed(0, 2).lowerBound == Fin(10.0)
  {
    var m := Matrix(3, [[Inf, Fin(0.0), Fin(7.0)], [Fin(0.0), Inf, Fin(0.0)], [Fin(0.0), Fin(0.0), Inf]], Fin(10.0), 0);
    var g := [[Inf, Inf, Inf], [Fin(0.0), Inf, Inf], [Inf, Fin(0.0), Inf]];
    BlockedExample(m, g);
    BlockedExampleIsReduced(g);
    MinRuleOnReduced(g, 3);
  }

  lemma BlockedExample(m: Matrix, g: Grid)
    requires m == Matrix(3, [[Inf, Fin(0.0), Fin(7.0)], [Fin(0.0), Inf, Fin(0.0)], [Fin(0.0), Fin(0.0), Inf]], Fin(10.0), 0)
    requires g == [[Inf, Inf, Inf], [Fin(0.0), Inf, Inf], [Inf, Fin(0.0), Inf]]
    ensures m.Valid() && m.Blocked(0, 2, true) == g
  {
    var b := m.Blocked(0, 2, true);
    assert b[0] == g[0] && b[1] == g[1] && b[2] == g[2];
  }

  lemma BlockedExampleIsReduced(g: Grid)
    requires g == [[Inf, Inf, Inf], [Fin(0.0), Inf, Inf], [Inf, Fin(0.0), Inf]]
    ensures Square(g, 3) && AllNonNeg(g, 3)
    ensures forall i :: 0 <= i < 3 ==> ZeroOrInfinite(g[i])
    ensures forall j :: 0 <= j < 3 ==> ZeroOrInfinite(Column(g, 3, j))
  {
    assert AllInfinite(g[0]);
    assert g[1][0] == Fin(0.0) && g[2][1] == Fin(0.0);
    assert Column(g, 3, 0)[1] == Fin(0.0);
    assert Column(g, 3, 1)[2] == Fin(0.0);
    assert AllInfinite(Column(g, 3, 2));
  }
}
