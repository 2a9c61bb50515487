/**
  The two calcLowerBound overloads of ProblemAndSolver.cs. Both reduce a
  node's cost matrix in place and return what the reduction adds to the
  bound: the root overload reduces the raw cost table, the child overload
  first takes the edge (o, d) out of play.
*/
module LowerBounds {
  import opened Costs
  import opened Wrappers
  import opened Reduction
  import opened InPlace

  // ---------------------------------------------------------------------
  // Specification

  /** The costs the child bound reduces: row `o`, column `d` and the reverse
      edge (d, o) set to +infinity. */
  function ChildBlocked(c: Grid, n: nat, o: nat, d: nat): (g: Grid)
    requires Square(c, n) && o < n && d < n
    ensures Square(g, n)
  {
    seq(n, r requires 0 <= r < n => seq(n, k requires 0 <= k < n =>
      if r == o || k == d || (r == d && k == o) then Inf else c[r][k]))
  }

  /** The matrix the child bound leaves behind: untouched when the edge is
      already +infinite, otherwise the blocked costs after the child rule. */
  function ChildMatrix(c: Grid, n: nat, o: nat, d: nat): (g: Grid)
    requires Square(c, n) && o < n && d < n
    ensures Square(g, n)
  {
    if c[o][d].Inf? then c else Reduced(ChildRule, ChildBlocked(c, n, o, d), n)
  }

  /** The child bound: +infinity for an +infinite edge, otherwise the parent's
      bound plus the edge's reduced cost plus what the reduction subtracts. */
  function ChildBound(c: Grid, n: nat, o: nat, d: nat, prev: Cost): (b: Cost)
    requires Square(c, n) && o < n && d < n
  {
    if c[o][d].Inf? then Inf
    else AddReal(prev, c[o][d].v + Subtracted(ChildRule, ChildBlocked(c, n, o, d), n))
  }

  /** An entry a double can hold as a cost: +infinity or in [0, double.MaxValue]. */
  predicate DoubleCost(x: Cost) {
    x.Inf? || 0.0 <= x.v <= MaxValue
  }

  predicate AllDoubleCosts(c: Grid, n: nat)
    requires Square(c, n)
  {
    forall i, j :: 0 <= i < n && 0 <= j < n ==> DoubleCost(c[i][j])
  }

  // ---------------------------------------------------------------------
  // The methods

  /**
    The root overload: rows and then columns with no 0 have their running
    minimum, started at double.MaxValue, subtracted; the result is the sum
    of what was subtracted.
  */
  method RootLowerBound(a: array2<Cost>) returns (bound: real)
    requires a.Length0 == a.Length1
    modifies a
    ensures Snapshot(a) == Reduced(RootRule, old(Snapshot(a)), a.Length0)
    ensures bound == Subtracted(RootRule, old(Snapshot(a)), a.Length0)
  {
    bound := ReduceInPlace(a, RootRule);
  }

  /**
    The child overload for the edge (o, d): an +infinite edge gives an
    +infinite bound and leaves the matrix alone; otherwise row `o`, column
    `d` and (d, o) become +infinity, the child rule reduces the matrix, and
    the bound is `prev` plus the edge plus what was subtracted.
  */
  method ChildLowerBound(a: array2<Cost>, o: nat, d: nat, prev: Cost) returns (bound: Cost)
    requires a.Length0 == a.Length1 && o < a.Length0 && d < a.Length0
    modifies a
    ensures Snapshot(a) == ChildMatrix(old(Snapshot(a)), a.Length0, o, d)
    ensures bound == ChildBound(old(Snapshot(a)), a.Length0, o, d, prev)
  {
    var n := a.Length0;
    ghost var c := Snapshot(a);
    if a[o, d] == Inf {
      return Inf;
    }
    var added := a[o, d].v;
    for k := 0 to n
      invariant forall r, q :: 0 <= r < n && 0 <= q < n ==>
                  a[r, q] == if r == o && q < k then Inf else c[r][q]
    {
      a[o, k] := Inf;
    }
    for r := 0 to n
      invariant forall i, q :: 0 <= i < n && 0 <= q < n ==>
                  a[i, q] == if i == o || (q == d && i < r) then Inf else c[i][q]
    {
      a[r, d] := Inf;
    }
    a[d, o] := Inf;
    SnapshotIs(a, ChildBlocked(c, n, o, d));
    var subtracted := ReduceInPlace(a, ChildRule);
    bound := AddReal(prev, added + subtracted);
  }

  // ---------------------------------------------------------------------
  // Properties of the child bound

  /**
    On costs that are non-negative or +infinity, the child bound is at least
    the parent's bound plus the edge's reduced cost, and the child matrix
    has no negative entry.
  */
  lemma ChildBoundAtLeastEdge(c: Grid, n: nat, o: nat, d: nat, prev: Cost)
    requires Square(c, n) && o < n && d < n && AllNonNeg(c, n)
    ensures AllNonNeg(ChildMatrix(c, n, o, d), n)
    ensures c[o][d].Fin? ==> Le(AddReal(prev, c[o][d].v), ChildBound(c, n, o, d, prev))
    ensures c[o][d].Fin? ==> Le(prev, ChildBound(c, n, o, d, prev))
    ensures ChildBound(c, n, o, d, prev) == Inf <==> c[o][d].Inf? || prev.Inf?
  {
    if c[o][d].Fin? {
      ChildRuleKeepsNonNeg(ChildBlocked(c, n, o, d), n);
    }
  }

  /** After a finite edge (o, d) is taken, row `o`, column `d` and the
      reverse edge (d, o) are +infinity in the child matrix, and every other
      entry is +infinity exactly when it was in the parent's. */
  lemma ChildMatrixBlocks(c: Grid, n: nat, o: nat, d: nat)
    requires Square(c, n) && o < n && d < n && c[o][d].Fin?
    ensures forall r, k :: 0 <= r < n && 0 <= k < n ==>
              (ChildMatrix(c, n, o, d)[r][k].Inf? <==>
                 r == o || k == d || (r == d && k == o) || c[r][k].Inf?)
  {
    ReducedKeepsInfinity(ChildRule, ChildBlocked(c, n, o, d), n);
  }

  // ---------------------------------------------------------------------
  // The root bound against Matrix.Reduce

  /** On one line of double costs the root rule leaves what Matrix.Reduce
      leaves, and subtracts the same unless the line is entirely +infinity. */
  lemma RootLineLikeMin(line: seq<Cost>)
    requires |line| > 0 && forall k :: 0 <= k < |line| ==> DoubleCost(line[k])
    ensures SubLine(line, Amount(RootRule, line)) == SubLine(line, Amount(MinRule, line))
    ensures !AllInfinite(line) ==> AmountValue(Amount(RootRule, line)) == AmountValue(Amount(MinRule, line))
  {
    RootRuleAmount(line);
    MinRuleAmount(line);
    if Fin(0.0) in line {
      var m := Amount(MinRule, line).value;
      var z :| 0 <= z < |line| && line[z] == Fin(0.0);
      assert Le(Fin(m), line[z]);
      assert m == 0.0;
    } else if !AllInfinite(line) {
      var m := Amount(RootRule, line).value;
      var m' := Amount(MinRule, line).value;
      var k' :| 0 <= k' < |line| && line[k'] == Fin(m');
      assert Le(Fin(m), line[k']);
      if Fin(m) in line {
        var k :| 0 <= k < |line| && line[k] == Fin(m);
        assert Le(Fin(m'), line[k]);
      }
    }
  }

  lemma {:induction false} TotalsAgree(a: seq<Option<real>>, b: seq<Option<real>>)
    requires |a| == |b| && forall k :: 0 <= k < |a| ==> AmountValue(a[k]) == AmountValue(b[k])
    ensures Total(a) == Total(b)
  {
    if a != [] {
      TotalsAgree(a[..|a| - 1], b[..|b| - 1]);
    }
  }

  /** The row pass of either rule keeps double costs double costs and leaves
      +infinity exactly where it was. */
  lemma RootRowPassShape(c: Grid, n: nat)
    requires Square(c, n) && AllDoubleCosts(c, n)
    ensures RowPass(RootRule, c, n) == RowPass(MinRule, c, n)
    ensures AllDoubleCosts(RowPass(MinRule, c, n), n)
    ensures forall i, j :: 0 <= i < n && 0 <= j < n ==> (RowPass(MinRule, c, n)[i][j].Inf? <==> c[i][j].Inf?)
  {
    var rr, rm := RowPass(RootRule, c, n), RowPass(MinRule, c, n);
    forall i | 0 <= i < n
      ensures rr[i] == rm[i]
    {
      RootLineLikeMin(c[i]);
      assert rr[i] == SubLine(c[i], Amount(RootRule, c[i]));
      assert rm[i] == SubLine(c[i], Amount(MinRule, c[i]));
    }
    forall i, j | 0 <= i < n && 0 <= j < n
      ensures DoubleCost(rm[i][j])
    {
      MinRuleAmount(c[i]);
    }
  }

  /** On double costs the root bound's matrix is the one Matrix.Reduce produces. */
  lemma RootMatrixIsFullReduction(c: Grid, n: nat)
    requires Square(c, n) && AllDoubleCosts(c, n)
    ensures Reduced(RootRule, c, n) == Reduced(MinRule, c, n)
  {
    RootRowPassShape(c, n);
    var r := RowPass(MinRule, c, n);
    var fr, fm := ColPass(RootRule, r, n), ColPass(MinRule, r, n);
    forall i, j | 0 <= i < n && 0 <= j < n
      ensures fr[i][j] == fm[i][j]
    {
      var col := Column(r, n, j);
      RootLineLikeMin(col);
      assert SubLine(col, Amount(RootRule, col))[i] == SubLine(col, Amount(MinRule, col))[i];
    }
    assert forall i | 0 <= i < n :: fr[i] == fm[i];
  }

  /**
    When, besides, no row of the costs and no column is entirely
    +infinity, the root bound is the bound Matrix.Reduce adds; otherwise it
    also counts double.MaxValue for each such line.
  */
  lemma RootBoundIsFullReduction(c: Grid, n: nat)
    requires Square(c, n) && AllDoubleCosts(c, n)
    requires forall i :: 0 <= i < n ==> !AllInfinite(c[i])
    requires forall j :: 0 <= j < n ==> !AllInfinite(Column(c, n, j))
    ensures Subtracted(RootRule, c, n) == Subtracted(MinRule, c, n)
  {
    RootRowPassShape(c, n);
    forall i | 0 <= i < n
      ensures AmountValue(RowAmounts(RootRule, c)[i]) == AmountValue(RowAmounts(MinRule, c)[i])
    {
      RootLineLikeMin(c[i]);
    }
    TotalsAgree(RowAmounts(RootRule, c), RowAmounts(MinRule, c));
    var r := RowPass(MinRule, c, n);
    forall j | 0 <= j < n
      ensures AmountValue(ColAmounts(RootRule, r, n)[j]) == AmountValue(ColAmounts(MinRule, r, n)[j])
    {
      assert !AllInfinite(Column(r, n, j)) by {
        var k :| 0 <= k < n && !Column(c, n, j)[k].Inf?;
        assert !Column(r, n, j)[k].Inf?;
      }
      RootLineLikeMin(Column(r, n, j));
    }
    TotalsAgree(ColAmounts(RootRule, r, n), ColAmounts(MinRule, r, n));
  }
}
