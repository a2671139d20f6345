/**
  Repair of duplicated DEPTH keys (CoreQC.qc_depth). Depths are integers
  counted in units of the increment 1e-5, so one bump adds 1. While some
  non-missing value repeats an earlier one, every such later duplicate is
  bumped by one increment.
 */
module Depth {
  import opened Wrappers
  import opened Tables

  /** `notna() & duplicated()`: present, and equal to some earlier value. */
  predicate Duplicated(col: seq<Cell>, i: nat)
    requires i < |col|
  {
    col[i] != Missing && exists j :: 0 <= j < i && col[j] == col[i]
  }

  predicate AnyDuplicated(col: seq<Cell>) {
    exists i :: 0 <= i < |col| && Duplicated(col, i)
  }

  /** A duplicated text value, which the conversion to float rejects. */
  predicate TextDuplicated(col: seq<Cell>) {
    exists i :: 0 <= i < |col| && col[i].Text? && Duplicated(col, i)
  }

  /** The non-missing values are pairwise distinct. */
  predicate Distinct(col: seq<Cell>) {
    forall i, j :: 0 <= i < j < |col| && col[j] != Missing ==> col[i] != col[j]
  }

  lemma {:induction false} FirstOccurrence(col: seq<Cell>, v: Cell) returns (i: nat)
    requires v in col
    ensures i < |col| && col[i] == v
    ensures forall j :: 0 <= j < i ==> col[j] != v
  {
    if col[0] == v {
      i := 0;
    } else {
      assert v in col[1..];
      var k := FirstOccurrence(col[1..], v);
      i := k + 1;
    }
  }

  /**
    The mask marks exactly the repeats (pandas keeps the first occurrence):
    every later copy of a present value is marked, and each present value has
    one unmarked occurrence.
   */
  lemma DuplicatedKeepsFirst(col: seq<Cell>)
    ensures forall i, j :: 0 <= i < j < |col| && col[j] != Missing && col[i] == col[j] ==> Duplicated(col, j)
    ensures forall v :: v != Missing && v in col ==>
      exists i :: 0 <= i < |col| && col[i] == v && !Duplicated(col, i)
  {
    forall v | v != Missing && v in col
      ensures exists i :: 0 <= i < |col| && col[i] == v && !Duplicated(col, i)
    {
      var i := FirstOccurrence(col, v);
      assert !Duplicated(col, i);
    }
  }

  lemma DistinctIffNoDuplicate(col: seq<Cell>)
    ensures Distinct(col) <==> !AnyDuplicated(col)
  {
    if !Distinct(col) {
      var i, j :| 0 <= i < j < |col| && col[j] != Missing && col[i] == col[j];
      assert Duplicated(col, j);
    }
  }

  /** `b` is `a` with each number raised by a non-negative number of increments. */
  predicate ShiftedCell(a: Cell, b: Cell) {
    match a
    case Num(n) => b.Num? && b.n >= n
    case _ => b == a
  }

  predicate Shifted(before: seq<Cell>, after: seq<Cell>) {
    |before| == |after| && forall i :: 0 <= i < |before| ==> ShiftedCell(before[i], after[i])
  }

  lemma ShiftedTransitive(a: seq<Cell>, b: seq<Cell>, c: seq<Cell>)
    requires Shifted(a, b) && Shifted(b, c)
    ensures Shifted(a, c)
  {
    assert forall i :: 0 <= i < |a| ==> ShiftedCell(a[i], b[i]) && ShiftedCell(b[i], c[i]);
  }

  /** One pass: every duplicated number gains one increment. */
  function Bump(col: seq<Cell>): (r: seq<Cell>)
    ensures |r| == |col|
    ensures forall i :: 0 <= i < |col| ==>
      r[i] == (if col[i].Num? && Duplicated(col, i) then Num(col[i].n + 1) else col[i])
  {
    seq(|col|, i requires 0 <= i < |col| =>
      if col[i].Num? && Duplicated(col, i) then Num(col[i].n + 1) else col[i])
  }

  /** Bumping touches numbers only, so which text values repeat does not change. */
  lemma BumpKeepsText(col: seq<Cell>)
    ensures TextDuplicated(Bump(col)) <==> TextDuplicated(col)
  {
    var b := Bump(col);
    assert forall j :: 0 <= j < |col| ==> (b[j].Text? <==> col[j].Text?) && (col[j].Text? ==> b[j] == col[j]);
    if TextDuplicated(col) {
      var i :| 0 <= i < |col| && col[i].Text? && Duplicated(col, i);
      var j :| 0 <= j < i && col[j] == col[i];
      assert b[j] == b[i];
      assert Duplicated(b, i);
    }
    if TextDuplicated(b) {
      var i :| 0 <= i < |b| && b[i].Text? && Duplicated(b, i);
      var j :| 0 <= j < i && b[j] == b[i];
      assert col[j] == col[i];
      assert Duplicated(col, i);
    }
  }

  /**
    The termination bound: each number at position `i` is at most
    `bound + i`. A bumped number equals some earlier one plus one, so a pass
    keeps the bound.
   */
  predicate Bounded(col: seq<Cell>, bound: int) {
    forall i :: 0 <= i < |col| && col[i].Num? ==> col[i].n <= bound + i
  }

  lemma BumpBounded(col: seq<Cell>, bound: int)
    requires Bounded(col, bound)
    ensures Bounded(Bump(col), bound)
  {
    var b := Bump(col);
    forall i | 0 <= i < |b| && b[i].Num?
      ensures b[i].n <= bound + i
    {
      if col[i].Num? && Duplicated(col, i) {
        var j :| 0 <= j < i && col[j] == col[i];
        assert col[j].n <= bound + j;
      }
    }
  }

  /** How far position `i` may still rise under the bound. */
  function Gap(col: seq<Cell>, bound: int, i: nat): nat
    requires Bounded(col, bound) && i < |col|
  {
    if col[i].Num? then bound + i - col[i].n else 0
  }

  /** The room left in the first `k` positions; it shrinks with every pass. */
  function Slack(col: seq<Cell>, bound: int, k: nat): nat
    requires Bounded(col, bound) && k <= |col|
  {
    if k == 0 then 0 else Slack(col, bound, k - 1) + Gap(col, bound, k - 1)
  }

  lemma {:induction false} SlackShrinks(a: seq<Cell>, b: seq<Cell>, bound: int, k: nat, at: nat)
    requires Bounded(a, bound) && Bounded(b, bound) && k <= |a| == |b|
    requires forall i :: 0 <= i < |a| ==> Gap(b, bound, i) <= Gap(a, bound, i)
    requires at < |a| && Gap(b, bound, at) < Gap(a, bound, at)
    ensures Slack(b, bound, k) <= Slack(a, bound, k)
    ensures at < k ==> Slack(b, bound, k) < Slack(a, bound, k)
  {
    if k > 0 {
      SlackShrinks(a, b, bound, k - 1, at);
    }
  }

  lemma BumpDecreases(col: seq<Cell>, bound: int)
    requires Bounded(col, bound) && AnyDuplicated(col) && !TextDuplicated(col)
    ensures Bounded(Bump(col), bound)
    ensures Slack(Bump(col), bound, |col|) < Slack(col, bound, |col|)
  {
    var b := Bump(col);
    BumpBounded(col, bound);
    var at :| 0 <= at < |col| && Duplicated(col, at);
    assert col[at].Num?;
    assert forall i :: 0 <= i < |col| ==> Gap(b, bound, i) <= Gap(col, bound, i);
    SlackShrinks(col, b, bound, |col|, at);
  }

  /** The fixed point: passes repeat until no value repeats an earlier one. */
  function Settle(col: seq<Cell>, bound: int): (r: seq<Cell>)
    requires Bounded(col, bound) && !TextDuplicated(col)
    ensures Distinct(r)
    ensures Shifted(col, r)
    decreases Slack(col, bound, |col|)
  {
    if !AnyDuplicated(col) then
      DistinctIffNoDuplicate(col);
      assert Shifted(col, col);
      col
    else
      BumpDecreases(col, bound);
      BumpKeepsText(col);
      var r := Settle(Bump(col), bound);
      ShiftedTransitive(col, Bump(col), r);
      r
  }

  /** The largest number in the column, or 0 when there is none. */
  function Ceiling(col: seq<Cell>): (m: int)
    ensures forall i :: 0 <= i < |col| && col[i].Num? ==> col[i].n <= m
  {
    if |col| == 0 then 0
    else
      var rest := Ceiling(col[1..]);
      assert forall i :: 1 <= i < |col| ==> col[1..][i - 1] == col[i];
      if col[0].Num? && col[0].n > rest then col[0].n else rest
  }

  /**
    The DEPTH repair on one column. It faults only when a duplicated value is
    text; otherwise the non-missing values end pairwise distinct, missing and
    text cells stay where they were, and each number rises by a whole number
    of increments.
   */
  function ResolveColumn(col: seq<Cell>): (r: Result<seq<Cell>, Fault>)
    ensures r.Failure? <==> TextDuplicated(col)
    ensures r.Failure? ==> r.error == NonNumericDepth
    ensures r.Success? ==> Distinct(r.value) && Shifted(col, r.value)
  {
    if TextDuplicated(col) then Failure(NonNumericDepth)
    else
      assert Bounded(col, Ceiling(col));
      Success(Settle(col, Ceiling(col)))
  }

  /** An already distinct column is left exactly as it was. */
  lemma ResolveDistinct(col: seq<Cell>)
    requires Distinct(col)
    ensures ResolveColumn(col) == Success(col)
  {
    DistinctIffNoDuplicate(col);
    assert !TextDuplicated(col);
  }

  /** Repairing a repaired column changes nothing. */
  lemma ResolveIdempotent(col: seq<Cell>)
    requires ResolveColumn(col).Success?
    ensures ResolveColumn(ResolveColumn(col).value) == ResolveColumn(col)
  {
    ResolveDistinct(ResolveColumn(col).value);
  }

  /** Three equal depths 100, 100, 100 become 100, 100 + 1e-5, 100 + 2e-5. */
  lemma TripleExample(col: seq<Cell>)
    requires col == [Num(100), Num(100), Num(100)]
    ensures ResolveColumn(col) == Success([Num(100), Num(101), Num(102)])
  {
    assert Duplicated(col, 1) && Duplicated(col, 2) by {
      assert col[0] == col[1];
    }
    assert !TextDuplicated(col);
    var once := Bump(col);
    assert once == [Num(100), Num(101), Num(101)];
    assert Duplicated(once, 2) by {
      assert once[1] == once[2];
    }
    var twice := Bump(once);
    assert twice == [Num(100), Num(101), Num(102)];
    assert !AnyDuplicated(twice) by {
      assert Distinct(twice);
      DistinctIffNoDuplicate(twice);
    }
    assert AnyDuplicated(once);
    assert AnyDuplicated(col);
    var bound := Ceiling(col);
    BumpDecreases(col, bound);
    BumpDecreases(once, bound);
    BumpKeepsText(col);
    BumpKeepsText(once);
    assert Settle(twice, bound) == twice;
    assert Settle(once, bound) == twice;
    assert Settle(col, bound) == twice;
  }

  /** Replaces column `j` of every row. */
  function WithColumn(t: LogTable, j: nat, col: seq<Cell>): (r: LogTable)
    requires WellFormed(t) && j < |t.columns| && |col| == |t.rows|
    ensures WellFormed(r) && r.columns == t.columns && |r.rows| == |t.rows|
    ensures forall i :: 0 <= i < |t.rows| ==> r.rows[i].index == t.rows[i].index
    ensures forall i, k :: 0 <= i < |t.rows| && 0 <= k < |t.columns| ==>
      r.rows[i].cells[k] == if k == j then col[i] else t.rows[i].cells[k]
  {
    var rows := seq(|t.rows|, i requires 0 <= i < |t.rows| => Row(t.rows[i].index, t.rows[i].cells[j := col[i]]));
    assert forall i :: 0 <= i < |rows| ==> rows[i].index == t.rows[i].index;
    LogTable(t.columns, rows)
  }

  /** `name` heads more than one column, so selecting it yields a frame rather than one column. */
  predicate RepeatedName(names: seq<string>, name: string) {
    exists i, j :: 0 <= i < j < |names| && names[i] == name && names[j] == name
  }

  /**
    The DEPTH stage on a table: the column named DEPTH changes, the units row
    included in its values as in the original. A missing DEPTH column, a
    repeated one, and a duplicated text value fault.
   */
  function QcDepth(t: LogTable): (r: Result<LogTable, Fault>)
    requires WellFormed(t)
    ensures "DEPTH" !in t.columns ==> r == Failure(MissingColumn("DEPTH"))
    ensures RepeatedName(t.columns, "DEPTH") ==> r == Failure(RepeatedColumn("DEPTH"))
    ensures r.Success? <==>
      && "DEPTH" in t.columns
      && !RepeatedName(t.columns, "DEPTH")
      && !TextDuplicated(Column(t, IndexOf(t.columns, "DEPTH").value))
    ensures r.Failure? && "DEPTH" in t.columns && !RepeatedName(t.columns, "DEPTH") ==> r.error == NonNumericDepth
    ensures r.Success? ==>
      && WellFormed(r.value) && r.value.columns == t.columns && |r.value.rows| == |t.rows|
      && (forall i :: 0 <= i < |t.rows| ==> r.value.rows[i].index == t.rows[i].index)
    ensures r.Success? ==>
      var j := IndexOf(t.columns, "DEPTH").value;
      && Distinct(Column(r.value, j))
      && Shifted(Column(t, j), Column(r.value, j))
      && forall i, k :: 0 <= i < |t.rows| && 0 <= k < |t.columns| && k != j ==>
           r.value.rows[i].cells[k] == t.rows[i].cells[k]
    ensures r.Success? ==>
      var j := IndexOf(t.columns, "DEPTH").value;
      Column(r.value, j) == ResolveColumn(Column(t, j)).value
  {
    match IndexOf(t.columns, "DEPTH")
    case None => Failure(MissingColumn("DEPTH"))
    case Some(j) =>
      if RepeatedName(t.columns, "DEPTH") then Failure(RepeatedColumn("DEPTH"))
      else
        var col :- ResolveColumn(Column(t, j));
        var r := WithColumn(t, j, col);
        assert Column(r, j) == col;
        Success(r)
  }
}
