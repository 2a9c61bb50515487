/**
  Row-then-column reduction of a square cost matrix, shared by the three
  reductions of the solver. Each reduction visits every row, decides from the
  row alone whether to subtract an amount from all of its entries (and to add
  that amount to the bound), and then does the same for every column of the
  row-reduced matrix. The three reductions differ only in that decision, a
  `Rule`:

  - `MinRule`  (Matrix.Reduce): subtract the line minimum unless it is +infinity;
  - `RootRule` (calcLowerBound for the root): unless the line holds a 0,
    subtract min(double.MaxValue, line minimum), even for an all-infinite line;
  - `ChildRule` (calcLowerBound for a child): unless the line holds a 0,
    subtract the last entry, but only when it is strictly below double.MaxValue
    and below every earlier entry.
*/
module Reduction {
  import opened Costs
  import opened Wrappers

  type Grid = seq<seq<Cost>>

  predicate Square(c: Grid, n: nat) {
    |c| == n && forall i :: 0 <= i < n ==> |c[i]| == n
  }

  /** Every entry is non-negative or +infinity. */
  predicate AllNonNeg(c: Grid, n: nat)
    requires Square(c, n)
  {
    forall i, j :: 0 <= i < n && 0 <= j < n ==> NonNeg(c[i][j])
  }

  predicate LineNonNeg(line: seq<Cost>) {
    forall k :: 0 <= k < |line| ==> NonNeg(line[k])
  }

  predicate AllInfinite(line: seq<Cost>) {
    forall k :: 0 <= k < |line| ==> line[k].Inf?
  }

  /** A line is reduced when it holds a 0 or is entirely +infinity. */
  predicate ZeroOrInfinite(line: seq<Cost>) {
    Fin(0.0) in line || AllInfinite(line)
  }

  function Column(c: Grid, n: nat, j: nat): (col: seq<Cost>)
    requires Square(c, n) && j < n
    ensures |col| == n && forall i :: 0 <= i < n ==> col[i] == c[i][j]
  {
    seq(n, i requires 0 <= i < n => c[i][j])
  }

  /**
    The value left in `min` by a left-to-right scan that starts at `init` and
    takes every entry strictly below the current minimum: the least of `init`
    and the entries.
  */
  function ScanMin(init: Cost, s: seq<Cost>): (m: Cost)
    ensures Le(m, init)
    ensures forall k :: 0 <= k < |s| ==> Le(m, s[k])
    ensures m == init || m in s
  {
    if s == [] then init
    else
      var m := ScanMin(init, s[..|s| - 1]);
      if Lt(s[|s| - 1], m) then s[|s| - 1] else m
  }

  datatype Rule = MinRule | RootRule | ChildRule

  /** What a reduction subtracts from one line (row or column), if anything. */
  function Amount(rule: Rule, line: seq<Cost>): Option<real> {
    if |line| == 0 then None
    else
      match rule
      case MinRule =>
        var m := ScanMin(line[0], line[1..]);
        if m.Inf? then None else Some(m.v)
      case RootRule =>
        if Fin(0.0) in line then None else Some(ScanMin(Fin(MaxValue), line).v)
      case ChildRule =>
        var last := line[|line| - 1];
        if Fin(0.0) in line then None
        else if Lt(last, ScanMin(Fin(MaxValue), line[..|line| - 1])) then Some(last.v)
        else None
  }

  /** An entry after its line's amount has been subtracted. */
  function CellAfter(x: Cost, amt: Option<real>): Cost {
    match amt
    case None => x
    case Some(m) => Sub(x, m)
  }

  function SubLine(line: seq<Cost>, amt: Option<real>): (r: seq<Cost>)
    ensures |r| == |line|
  {
    seq(|line|, k requires 0 <= k < |line| => CellAfter(line[k], amt))
  }

  /** The sum of the amounts that were subtracted. */
  function Total(amts: seq<Option<real>>): real {
    if amts == [] then 0.0
    else
      Total(amts[..|amts| - 1]) + match amts[|amts| - 1] case None => 0.0 case Some(m) => m
  }

  function RowAmounts(rule: Rule, c: Grid): (amts: seq<Option<real>>)
    ensures |amts| == |c|
  {
    seq(|c|, i requires 0 <= i < |c| => Amount(rule, c[i]))
  }

  function ColAmounts(rule: Rule, c: Grid, n: nat): (amts: seq<Option<real>>)
    requires Square(c, n)
    ensures |amts| == n
  {
    seq(n, j requires 0 <= j < n => Amount(rule, Column(c, n, j)))
  }

  function RowPass(rule: Rule, c: Grid, n: nat): (r: Grid)
    requires Square(c, n)
    ensures Square(r, n)
  {
    var amts := RowAmounts(rule, c);
    seq(n, i requires 0 <= i < n => seq(n, j requires 0 <= j < n => CellAfter(c[i][j], amts[i])))
  }

  function ColPass(rule: Rule, c: Grid, n: nat): (r: Grid)
    requires Square(c, n)
    ensures Square(r, n)
  {
    var amts := ColAmounts(rule, c, n);
    seq(n, i requires 0 <= i < n => seq(n, j requires 0 <= j < n => CellAfter(c[i][j], amts[j])))
  }

  /** The matrix after the row pass and then the column pass. */
  function Reduced(rule: Rule, c: Grid, n: nat): (r: Grid)
    requires Square(c, n)
    ensures Square(r, n)
  {
    ColPass(rule, RowPass(rule, c, n), n)
  }

  /** Everything the two passes subtracted: what they add to the bound. */
  function Subtracted(rule: Rule, c: Grid, n: nat): real
    requires Square(c, n)
  {
    Total(RowAmounts(rule, c)) + Total(ColAmounts(rule, RowPass(rule, c, n), n))
  }

  // ---------------------------------------------------------------------
  // What each rule subtracts

  /** Matrix.Reduce subtracts the true minimum of a line, and skips exactly
      the lines that are entirely +infinity. */
  lemma MinRuleAmount(line: seq<Cost>)
    requires |line| > 0
    ensures Amount(MinRule, line).None? <==> AllInfinite(line)
    ensures Amount(MinRule, line).Some? ==>
              Fin(Amount(MinRule, line).value) in line &&
              forall k :: 0 <= k < |line| ==> Le(Fin(Amount(MinRule, line).value), line[k])
  {
    var m := ScanMin(line[0], line[1..]);
    assert forall k :: 1 <= k < |line| ==> line[k] == line[1..][k - 1];
    assert m in line;
  }

  /** The child reduction only ever subtracts a finite true minimum of the
      line, namely its last entry. */
  lemma ChildRuleAmount(line: seq<Cost>)
    requires Amount(ChildRule, line).Some?
    ensures Fin(Amount(ChildRule, line).value) == line[|line| - 1]
    ensures forall k :: 0 <= k < |line| ==> Le(Fin(Amount(ChildRule, line).value), line[k])
    ensures Fin(0.0) !in line
  {
    var n := |line|;
    var m := ScanMin(Fin(MaxValue), line[..n - 1]);
    forall k | 0 <= k < n
      ensures Le(line[n - 1], line[k])
    {
      if k < n - 1 {
        assert line[..n - 1][k] == line[k];
      }
    }
  }

  /** The root reduction subtracts min(double.MaxValue, line minimum) from a
      line with no 0; from an all-infinite line that is double.MaxValue. */
  lemma RootRuleAmount(line: seq<Cost>)
    requires |line| > 0
    ensures Amount(RootRule, line).None? <==> Fin(0.0) in line
    ensures Amount(RootRule, line).Some? ==>
              var m := Amount(RootRule, line).value;
              m <= MaxValue &&
              (m == MaxValue || Fin(m) in line) &&
              forall k :: 0 <= k < |line| ==> Le(Fin(m), line[k])
    ensures Fin(0.0) !in line && AllInfinite(line) ==> Amount(RootRule, line) == Some(MaxValue)
  {
  }

  // ---------------------------------------------------------------------
  // Facts about one line

  /** Subtracting a line's true minimum leaves a 0 in it and nothing negative. */
  lemma SubtractMinimum(line: seq<Cost>, m: real)
    requires Fin(m) in line
    requires forall k :: 0 <= k < |line| ==> Le(Fin(m), line[k])
    ensures Fin(0.0) in SubLine(line, Some(m))
    ensures LineNonNeg(SubLine(line, Some(m)))
  {
    var k :| 0 <= k < |line| && line[k] == Fin(m);
    assert SubLine(line, Some(m))[k] == Fin(0.0);
  }

  /** After Matrix.Reduce's step on a line, the line holds a 0 or is entirely
      +infinity, and nothing in it is negative. */
  lemma MinRuleLine(line: seq<Cost>)
    requires |line| > 0
    ensures ZeroOrInfinite(SubLine(line, Amount(MinRule, line)))
    ensures LineNonNeg(SubLine(line, Amount(MinRule, line)))
  {
    MinRuleAmount(line);
    var amt := Amount(MinRule, line);
    if amt.Some? {
      SubtractMinimum(line, amt.value);
    } else {
      assert SubLine(line, amt) == line;
    }
  }

  /** A line with no negative entry that already holds a 0 has minimum 0. */
  lemma MinRuleOfReducedLine(line: seq<Cost>)
    requires |line| > 0 && LineNonNeg(line)
    ensures Fin(0.0) in line ==> Amount(MinRule, line) == Some(0.0)
    ensures AllInfinite(line) ==> Amount(MinRule, line) == None
  {
    MinRuleAmount(line);
  }

  lemma TotalOfZeros(amts: seq<Option<real>>)
    requires forall k :: 0 <= k < |amts| ==> amts[k] == None || amts[k] == Some(0.0)
    ensures Total(amts) == 0.0
  {
    if amts != [] {
      TotalOfZeros(amts[..|amts| - 1]);
    }
  }

  lemma TotalNonNeg(amts: seq<Option<real>>)
    requires forall k :: 0 <= k < |amts| ==> amts[k].Some? ==> amts[k].value >= 0.0
    ensures Total(amts) >= 0.0
  {
    if amts != [] {
      TotalNonNeg(amts[..|amts| - 1]);
    }
  }

  // ---------------------------------------------------------------------
  // Facts about whole matrices

  /** No reduction turns a finite entry into +infinity or back. */
  lemma ReducedKeepsInfinity(rule: Rule, c: Grid, n: nat)
    requires Square(c, n)
    ensures forall i, j :: 0 <= i < n && 0 <= j < n ==> (Reduced(rule, c, n)[i][j].Inf? <==> c[i][j].Inf?)
  {
  }

  /** The row pass of Matrix.Reduce leaves every row reduced and nothing negative. */
  lemma MinRuleRowPass(c: Grid, n: nat)
    requires Square(c, n)
    ensures AllNonNeg(RowPass(MinRule, c, n), n)
    ensures forall i :: 0 <= i < n ==> ZeroOrInfinite(RowPass(MinRule, c, n)[i])
  {
    var r := RowPass(MinRule, c, n);
    forall i | 0 <= i < n
      ensures ZeroOrInfinite(r[i]) && LineNonNeg(r[i])
    {
      MinRuleLine(c[i]);
      assert r[i] == SubLine(c[i], Amount(MinRule, c[i]));
    }
  }

  /** The column pass of Matrix.Reduce leaves every column reduced and nothing
      negative. */
  lemma MinRuleColPassColumns(c: Grid, n: nat)
    requires Square(c, n)
    ensures AllNonNeg(ColPass(MinRule, c, n), n)
    ensures forall j :: 0 <= j < n ==> ZeroOrInfinite(Column(ColPass(MinRule, c, n), n, j))
  {
    var r := ColPass(MinRule, c, n);
    forall j | 0 <= j < n
      ensures ZeroOrInfinite(Column(r, n, j)) && LineNonNeg(Column(r, n, j))
    {
      MinRuleLine(Column(c, n, j));
      assert Column(r, n, j) == SubLine(Column(c, n, j), Amount(MinRule, Column(c, n, j)));
    }
  }

  /** Over a matrix with no negative entry, the column pass of Matrix.Reduce
      keeps every reduced row reduced. */
  lemma MinRuleColPassRows(c: Grid, n: nat)
    requires Square(c, n) && AllNonNeg(c, n)
    ensures forall i :: 0 <= i < n && ZeroOrInfinite(c[i]) ==> ZeroOrInfinite(ColPass(MinRule, c, n)[i])
  {
    var r := ColPass(MinRule, c, n);
    forall i | 0 <= i < n && ZeroOrInfinite(c[i])
      ensures ZeroOrInfinite(r[i])
    {
      if Fin(0.0) in c[i] {
        var j :| 0 <= j < n && c[i][j] == Fin(0.0);
        var col := Column(c, n, j);
        assert LineNonNeg(col);
        assert col[i] == Fin(0.0);
        MinRuleOfReducedLine(col);
        assert r[i][j] == Fin(0.0);
      } else {
        assert forall j :: 0 <= j < n ==> r[i][j].Inf?;
      }
    }
  }

  /** Every row and every column of Matrix.Reduce's result holds a 0 or is
      entirely +infinity. */
  lemma MinRuleReducesEveryLine(c: Grid, n: nat)
    requires Square(c, n)
    ensures AllNonNeg(Reduced(MinRule, c, n), n)
    ensures forall i :: 0 <= i < n ==> ZeroOrInfinite(Reduced(MinRule, c, n)[i])
    ensures forall j :: 0 <= j < n ==> ZeroOrInfinite(Column(Reduced(MinRule, c, n), n, j))
  {
    MinRuleRowPass(c, n);
    MinRuleColPassColumns(RowPass(MinRule, c, n), n);
    MinRuleColPassRows(RowPass(MinRule, c, n), n);
  }

  /** A pass over a matrix whose lines are all reduced changes nothing and
      subtracts nothing. */
  lemma MinRuleOnReduced(c: Grid, n: nat)
    requires Square(c, n) && AllNonNeg(c, n)
    requires forall i :: 0 <= i < n ==> ZeroOrInfinite(c[i])
    requires forall j :: 0 <= j < n ==> ZeroOrInfinite(Column(c, n, j))
    ensures RowPass(MinRule, c, n) == c && Total(RowAmounts(MinRule, c)) == 0.0
    ensures ColPass(MinRule, c, n) == c && Total(ColAmounts(MinRule, c, n)) == 0.0
  {
    var ra := RowAmounts(MinRule, c);
    forall i | 0 <= i < n
      ensures ra[i] == None || ra[i] == Some(0.0)
    {
      assert LineNonNeg(c[i]);
      MinRuleOfReducedLine(c[i]);
    }
    TotalOfZeros(ra);
    var rp := RowPass(MinRule, c, n);
    forall i | 0 <= i < n
      ensures rp[i] == c[i]
    {
      assert forall j :: 0 <= j < n ==> rp[i][j] == c[i][j];
    }
    var ca := ColAmounts(MinRule, c, n);
    forall j | 0 <= j < n
      ensures ca[j] == None || ca[j] == Some(0.0)
    {
      MinRuleOfReducedLine(Column(c, n, j));
    }
    TotalOfZeros(ca);
    var cp := ColPass(MinRule, c, n);
    forall i | 0 <= i < n
      ensures cp[i] == c[i]
    {
      assert forall j :: 0 <= j < n ==> cp[i][j] == c[i][j];
    }
  }

  /** Reducing a reduced matrix changes no entry and subtracts nothing. */
  lemma MinRuleIdempotent(c: Grid, n: nat)
    requires Square(c, n)
    ensures Reduced(MinRule, Reduced(MinRule, c, n), n) == Reduced(MinRule, c, n)
    ensures Subtracted(MinRule, Reduced(MinRule, c, n), n) == 0.0
  {
    var r := Reduced(MinRule, c, n);
    MinRuleReducesEveryLine(c, n);
    MinRuleOnReduced(r, n);
  }

  /** On a matrix with no negative entry, Matrix.Reduce never subtracts a
      negative total, so the bound does not decrease. */
  lemma MinRuleSubtractsNonNeg(c: Grid, n: nat)
    requires Square(c, n) && AllNonNeg(c, n)
    ensures Subtracted(MinRule, c, n) >= 0.0
  {
    var ra := RowAmounts(MinRule, c);
    forall i | 0 <= i < n && ra[i].Some?
      ensures ra[i].value >= 0.0
    {
      MinRuleAmount(c[i]);
      var k :| 0 <= k < n && c[i][k] == Fin(ra[i].value);
    }
    TotalNonNeg(ra);
    var r := RowPass(MinRule, c, n);
    MinRuleRowPass(c, n);
    var ca := ColAmounts(MinRule, r, n);
    forall j | 0 <= j < n && ca[j].Some?
      ensures ca[j].value >= 0.0
    {
      MinRuleAmount(Column(r, n, j));
      var k :| 0 <= k < n && Column(r, n, j)[k] == Fin(ca[j].value);
    }
    TotalNonNeg(ca);
  }

  /** On a matrix with no negative entry the child reduction keeps every
      entry non-negative and subtracts a non-negative total. */
  lemma ChildRuleKeepsNonNeg(c: Grid, n: nat)
    requires Square(c, n) && AllNonNeg(c, n)
    ensures AllNonNeg(Reduced(ChildRule, c, n), n)
    ensures Subtracted(ChildRule, c, n) >= 0.0
  {
    var ra := RowAmounts(ChildRule, c);
    forall i | 0 <= i < n && ra[i].Some?
      ensures ra[i].value >= 0.0
    {
      ChildRuleAmount(c[i]);
    }
    TotalNonNeg(ra);
    var r := RowPass(ChildRule, c, n);
    forall i, j | 0 <= i < n && 0 <= j < n
      ensures NonNeg(r[i][j])
    {
      if ra[i].Some? {
        ChildRuleAmount(c[i]);
      }
    }
    var ca := ColAmounts(ChildRule, r, n);
    forall j | 0 <= j < n && ca[j].Some?
      ensures ca[j].value >= 0.0
    {
      ChildRuleAmount(Column(r, n, j));
    }
    TotalNonNeg(ca);
    var f := ColPass(ChildRule, r, n);
    forall i, j | 0 <= i < n && 0 <= j < n
      ensures NonNeg(f[i][j])
    {
      if ca[j].Some? {
        ChildRuleAmount(Column(r, n, j));
        assert Column(r, n, j)[i] == r[i][j];
      }
    }
  }

  /** The child reduction is partial: a row with no 0 whose minimum is not its
      last entry is left as it is, where Matrix.Reduce would subtract 1. */
  lemma ChildRuleIsPartial()
    ensures Amount(ChildRule, [Fin(1.0), Fin(2.0)]) == None
    ensures Amount(MinRule, [Fin(1.0), Fin(2.0)]) == Some(1.0)
  {
    var line := [Fin(1.0), Fin(2.0)];
    assert line[..1] == [Fin(1.0)];
    assert line[..1][..0] == [];
    assert line[1..] == [Fin(2.0)];
    assert line[1..][..0] == [];
  }

  /** The root reduction of a one-city matrix, whose only entry is the
      +infinite diagonal, subtracts double.MaxValue from the row and again
      from the column: in exact reals the bound is 2 * double.MaxValue,
      where the double sum in the code overflows to +infinity. */
  lemma RootRuleOnAllInfinite()
    ensures Subtracted(RootRule, [[Inf]], 1) == 2.0 * MaxValue
    ensures Reduced(RootRule, [[Inf]], 1) == [[Inf]]
  {
    var c: Grid := [[Inf]];
    RootRuleAmount(c[0]);
    assert RowAmounts(RootRule, c) == [Some(MaxValue)];
    var r := RowPass(RootRule, c, 1);
    assert r[0][0] == Inf;
    assert r[0] == [Inf];
    assert r == [[Inf]];
    RootRuleAmount(Column(r, 1, 0));
    assert ColAmounts(RootRule, r, 1) == [Some(MaxValue)];
    var f := ColPass(RootRule, r, 1);
    assert f[0][0] == Inf;
    assert f[0] == [Inf];
  }
}
