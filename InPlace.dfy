/**
  The loops that carry out a reduction on a two-dimensional array in place:
  the scan of one line that decides what the line subtracts (one per rule,
  with the break-on-zero of the calcLowerBound loops), the subtraction from a
  row or a column, and the row and column passes built from them. Each is
  proved to compute the corresponding function of the Reduction module.
*/
module InPlace {
  import opened Costs
  import opened Wrappers
  import opened Reduction

  /** The contents of a two-dimensional array, row by row. */
  function Snapshot(a: array2<Cost>): (g: Grid)
    reads a
    ensures |g| == a.Length0
    ensures forall i :: 0 <= i < a.Length0 ==> |g[i]| == a.Length1
    ensures forall i, j :: 0 <= i < a.Length0 && 0 <= j < a.Length1 ==> g[i][j] == a[i, j]
  {
    seq(a.Length0, i requires 0 <= i < a.Length0 reads a =>
      seq(a.Length1, j requires 0 <= j < a.Length1 reads a => a[i, j]))
  }

  /** Two grids with the same entries are the same grid. */
  lemma SnapshotIs(a: array2<Cost>, g: Grid)
    requires |g| == a.Length0 && forall i :: 0 <= i < |g| ==> |g[i]| == a.Length1
    requires forall i, j :: 0 <= i < a.Length0 && 0 <= j < a.Length1 ==> a[i, j] == g[i][j]
    ensures Snapshot(a) == g
  {
    forall i | 0 <= i < a.Length0
      ensures Snapshot(a)[i] == g[i]
    {
      assert forall j :: 0 <= j < a.Length1 ==> Snapshot(a)[i][j] == g[i][j];
    }
  }

  function ArrayRow(a: array2<Cost>, i: nat): (line: seq<Cost>)
    requires i < a.Length0
    reads a
    ensures |line| == a.Length1 && forall k :: 0 <= k < a.Length1 ==> line[k] == a[i, k]
  {
    seq(a.Length1, k requires 0 <= k < a.Length1 reads a => a[i, k])
  }

  function ArrayColumn(a: array2<Cost>, j: nat): (line: seq<Cost>)
    requires j < a.Length1
    reads a
    ensures |line| == a.Length0 && forall k :: 0 <= k < a.Length0 ==> line[k] == a[k, j]
  {
    seq(a.Length0, k requires 0 <= k < a.Length0 reads a => a[k, j])
  }

  /** Matrix.Reduce's scan: the running minimum starts at the first entry and
      takes every later entry strictly below it; +infinity means "skip". */
  method LowestScan(line: seq<Cost>) returns (amt: Option<real>)
    requires |line| > 0
    ensures amt == Amount(MinRule, line)
  {
    var lowest := line[0];
    for k := 1 to |line|
      invariant lowest == ScanMin(line[0], line[1..k])
    {
      assert line[1..k + 1][..k - 1] == line[1..k];
      if Lt(line[k], lowest) {
        lowest := line[k];
      }
    }
    assert line[1..|line|] == line[1..];
    amt := if lowest.Inf? then None else Some(lowest.v);
  }

  /** The root calcLowerBound scan: stop at the first 0; otherwise the
      running minimum from double.MaxValue is subtracted once the last
      entry has been seen. */
  method RootScan(line: seq<Cost>) returns (amt: Option<real>)
    requires |line| > 0
    ensures amt == Amount(RootRule, line)
  {
    amt := None;
    var min := Fin(MaxValue);
    var k := 0;
    while k < |line|
      invariant 0 <= k <= |line|
      invariant Fin(0.0) !in line[..k]
      invariant min == ScanMin(Fin(MaxValue), line[..k])
      invariant amt == if k == |line| then Some(min.v) else None
    {
      if line[k] == Fin(0.0) {
        break;
      }
      assert line[..k + 1][..k] == line[..k];
      if Lt(line[k], min) {
        min := line[k];
      }
      if k == |line| - 1 {
        amt := Some(min.v);
      }
      assert line[..k + 1] == line[..k] + [line[k]];
      k := k + 1;
    }
    assert k == |line| ==> line[..k] == line;
  }

  /** The child calcLowerBound scan: stop at the first 0; the last entry is
      subtracted only when it lowers the running minimum from
      double.MaxValue. */
  method ChildScan(line: seq<Cost>) returns (amt: Option<real>)
    requires |line| > 0
    ensures amt == Amount(ChildRule, line)
  {
    amt := None;
    var min := Fin(MaxValue);
    var k := 0;
    while k < |line|
      invariant 0 <= k <= |line|
      invariant Fin(0.0) !in line[..k]
      invariant min == ScanMin(Fin(MaxValue), line[..k])
      invariant k < |line| ==> amt == None
      invariant k == |line| ==> amt == if Lt(line[k - 1], ScanMin(Fin(MaxValue), line[..k - 1])) then Some(line[k - 1].v) else None
    {
      if line[k] == Fin(0.0) {
        break;
      }
      assert line[..k + 1][..k] == line[..k];
      if Lt(line[k], min) {
        min := line[k];
        if k == |line| - 1 {
          amt := Some(min.v);
        }
      }
      assert line[..k + 1] == line[..k] + [line[k]];
      k := k + 1;
    }
    assert k == |line| ==> line[..k] == line && line[..k - 1] == line[..|line| - 1];
  }

  method LineAmount(rule: Rule, line: seq<Cost>) returns (amt: Option<real>)
    requires |line| > 0
    ensures amt == Amount(rule, line)
  {
    match rule
    case MinRule => amt := LowestScan(line);
    case RootRule => amt := RootScan(line);
    case ChildRule => amt := ChildScan(line);
  }

  /** Subtracts `m` from every entry of row `i`. */
  method SubtractFromRow(a: array2<Cost>, i: nat, m: real)
    requires i < a.Length0
    modifies a
    ensures forall r, k :: 0 <= r < a.Length0 && 0 <= k < a.Length1 ==>
              a[r, k] == if r == i then Sub(old(a[r, k]), m) else old(a[r, k])
  {
    for k := 0 to a.Length1
      invariant forall r, q :: 0 <= r < a.Length0 && 0 <= q < a.Length1 ==>
                  a[r, q] == if r == i && q < k then Sub(old(a[r, q]), m) else old(a[r, q])
    {
      a[i, k] := Sub(a[i, k], m);
    }
  }

  /** Subtracts `m` from every entry of column `j`. */
  method SubtractFromColumn(a: array2<Cost>, j: nat, m: real)
    requires j < a.Length1
    modifies a
    ensures forall r, k :: 0 <= r < a.Length0 && 0 <= k < a.Length1 ==>
              a[r, k] == if k == j then Sub(old(a[r, k]), m) else old(a[r, k])
  {
    for q := 0 to a.Length0
      invariant forall r, k :: 0 <= r < a.Length0 && 0 <= k < a.Length1 ==>
                  a[r, k] == if k == j && r < q then Sub(old(a[r, k]), m) else old(a[r, k])
    {
      a[q, j] := Sub(a[q, j], m);
    }
  }

  function AmountValue(amt: Option<real>): real {
    match amt
    case None => 0.0
    case Some(m) => m
  }

  /** One row of the row pass: the amount `rule` decides for row `i`,
      subtracted from that row. */
  method ReduceRowAt(a: array2<Cost>, rule: Rule, i: nat) returns (amt: Option<real>)
    requires i < a.Length0 && 0 < a.Length1
    modifies a
    ensures amt == Amount(rule, old(ArrayRow(a, i)))
    ensures forall r, k :: 0 <= r < a.Length0 && 0 <= k < a.Length1 ==>
              a[r, k] == if r == i then CellAfter(old(a[r, k]), amt) else old(a[r, k])
  {
    amt := LineAmount(rule, ArrayRow(a, i));
    if amt.Some? {
      SubtractFromRow(a, i, amt.value);
    }
  }

  /** One column of the column pass. */
  method ReduceColumnAt(a: array2<Cost>, rule: Rule, j: nat) returns (amt: Option<real>)
    requires j < a.Length1 && 0 < a.Length0
    modifies a
    ensures amt == Amount(rule, old(ArrayColumn(a, j)))
    ensures forall r, k :: 0 <= r < a.Length0 && 0 <= k < a.Length1 ==>
              a[r, k] == if k == j then CellAfter(old(a[r, k]), amt) else old(a[r, k])
  {
    amt := LineAmount(rule, ArrayColumn(a, j));
    if amt.Some? {
      SubtractFromColumn(a, j, amt.value);
    }
  }

  /** Step i of the row pass: rows before i are reduced, row i is next. */
  method RowStep(a: array2<Cost>, rule: Rule, ghost c: Grid, ghost amts: seq<Option<real>>, i: nat)
    returns (amt: Option<real>)
    requires a.Length0 == a.Length1 && i < a.Length0 && Square(c, a.Length0)
    requires amts == RowAmounts(rule, c)
    requires forall r, k :: 0 <= r < a.Length0 && 0 <= k < a.Length0 ==>
               a[r, k] == if r < i then CellAfter(c[r][k], amts[r]) else c[r][k]
    modifies a
    ensures amt == amts[i]
    ensures forall r, k :: 0 <= r < a.Length0 && 0 <= k < a.Length0 ==>
              a[r, k] == if r < i + 1 then CellAfter(c[r][k], amts[r]) else c[r][k]
  {
    assert ArrayRow(a, i) == c[i];
    amt := ReduceRowAt(a, rule, i);
  }

  /** Step j of the column pass: columns before j are reduced, column j is next. */
  method ColumnStep(a: array2<Cost>, rule: Rule, ghost c: Grid, ghost amts: seq<Option<real>>, j: nat)
    returns (amt: Option<real>)
    requires a.Length0 == a.Length1 && j < a.Length0 && Square(c, a.Length0)
    requires amts == ColAmounts(rule, c, a.Length0)
    requires forall r, k :: 0 <= r < a.Length0 && 0 <= k < a.Length0 ==>
               a[r, k] == if k < j then CellAfter(c[r][k], amts[k]) else c[r][k]
    modifies a
    ensures amt == amts[j]
    ensures forall r, k :: 0 <= r < a.Length0 && 0 <= k < a.Length0 ==>
              a[r, k] == if k < j + 1 then CellAfter(c[r][k], amts[k]) else c[r][k]
  {
    assert ArrayColumn(a, j) == Column(c, a.Length0, j);
    amt := ReduceColumnAt(a, rule, j);
  }

  /** The row pass: each row subtracts what `rule` decides for it; the
      result is the sum of the amounts subtracted. */
  method ReduceRows(a: array2<Cost>, rule: Rule) returns (added: real)
    requires a.Length0 == a.Length1
    modifies a
    ensures Snapshot(a) == RowPass(rule, old(Snapshot(a)), a.Length0)
    ensures added == Total(RowAmounts(rule, old(Snapshot(a))))
  {
    var n := a.Length0;
    ghost var c := Snapshot(a);
    ghost var amts := RowAmounts(rule, c);
    added := 0.0;
    for i := 0 to n
      invariant forall r, k :: 0 <= r < n && 0 <= k < n ==>
                  a[r, k] == if r < i then CellAfter(c[r][k], amts[r]) else c[r][k]
      invariant added == Total(amts[..i])
    {
      var amt := RowStep(a, rule, c, amts, i);
      assert amts[..i + 1][..i] == amts[..i];
      added := added + AmountValue(amt);
    }
    assert amts[..n] == amts;
    SnapshotIs(a, RowPass(rule, c, n));
  }

  /** The column pass, on whatever the row pass left. */
  method ReduceColumns(a: array2<Cost>, rule: Rule) returns (added: real)
    requires a.Length0 == a.Length1
    modifies a
    ensures Snapshot(a) == ColPass(rule, old(Snapshot(a)), a.Length0)
    ensures added == Total(ColAmounts(rule, old(Snapshot(a)), a.Length0))
  {
    var n := a.Length0;
    ghost var c := Snapshot(a);
    ghost var amts := ColAmounts(rule, c, n);
    added := 0.0;
    for j := 0 to n
      invariant forall r, k :: 0 <= r < n && 0 <= k < n ==>
                  a[r, k] == if k < j then CellAfter(c[r][k], amts[k]) else c[r][k]
      invariant added == Total(amts[..j])
    {
      var amt := ColumnStep(a, rule, c, amts, j);
      assert amts[..j + 1][..j] == amts[..j];
      added := added + AmountValue(amt);
    }
    assert amts[..n] == amts;
    SnapshotIs(a, ColPass(rule, c, n));
  }

  /** Both passes: the array ends up as Reduced(rule, ...) and the result is
      everything subtracted. */
  method ReduceInPlace(a: array2<Cost>, rule: Rule) returns (added: real)
    requires a.Length0 == a.Length1
    modifies a
    ensures Snapshot(a) == Reduced(rule, old(Snapshot(a)), a.Length0)
    ensures added == Subtracted(rule, old(Snapshot(a)), a.Length0)
  {
    var rows := ReduceRows(a, rule);
    var cols := ReduceColumns(a, rule);
    added := rows + cols;
  }
}
