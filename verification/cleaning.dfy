/**
  Cleaning of a freshly loaded log (CoreQC.clean_log): blank rows are dropped,
  headers are trimmed and upper-cased, and the units row (the first row left)
  loses its enclosing brackets and is upper-cased.
 */
module Cleaning {
  import opened Wrappers
  import opened Strings
  import opened Tables

  predicate AllMissing(row: Row) {
    forall k :: 0 <= k < |row.cells| ==> row.cells[k] == Missing
  }

  /** `dropna(how='all')`: exactly the rows with every cell missing go, the rest keep their order. */
  function DropEmptyRows(rows: seq<Row>): (r: seq<Row>)
    ensures |r| <= |rows|
    ensures forall x :: x in r <==> x in rows && !AllMissing(x)
    ensures IndicesIncreasing(rows) ==> IndicesIncreasing(r)
  {
    if |rows| == 0 then []
    else
      var rest := DropEmptyRows(rows[1..]);
      assert forall x :: x in rows <==> x == rows[0] || x in rows[1..];
      assert IndicesIncreasing(rows) ==> IndicesIncreasing(rows[1..]);
      if AllMissing(rows[0]) then rest
      else
        PrependIncreasing(rows, rest);
        [rows[0]] + rest
  }

  /** Rows drawn, in order, from after the first row stay increasing once the first row is put back. */
  lemma {:induction false} PrependIncreasing(rows: seq<Row>, rest: seq<Row>)
    requires |rows| > 0 && forall x :: x in rest ==> x in rows[1..]
    requires IndicesIncreasing(rows) ==> IndicesIncreasing(rest)
    ensures IndicesIncreasing(rows) ==> IndicesIncreasing([rows[0]] + rest)
  {
    if IndicesIncreasing(rows) {
      var out := [rows[0]] + rest;
      forall i, j | 0 <= i < j < |out|
        ensures out[i].index < out[j].index
      {
        assert out[j] == rest[j - 1] && rest[j - 1] in rest;
        if i > 0 {
          assert out[i] == rest[i - 1];
        } else {
          var k :| 0 <= k < |rows| - 1 && rows[1..][k] == rest[j - 1];
          assert rows[k + 1] == out[j];
        }
      }
    }
  }

  /** A header after `str(x).strip().upper()`. */
  function CleanHeader(name: string): (h: string)
    ensures NoLower(h)
    ensures |h| == 0 || (!IsSpace(h[0]) && !IsSpace(h[|h| - 1]))
    ensures var core := Strip(name, IsSpace); |h| == |core| && forall i :: 0 <= i < |h| ==> h[i] == UpperChar(core[i])
  {
    Upper(Strip(name, IsSpace))
  }

  /**
    A units cell after `.str.strip('()[]').str.upper()`: text loses its
    enclosing brackets and is upper-cased; the `.str` accessor turns any
    non-text cell into a missing one.
   */
  function CleanUnit(c: Cell): (u: Cell)
    ensures u.Missing? || u.Text?
    ensures c.Text? <==> u.Text?
    ensures u.Text? ==> NoLower(u.s)
    ensures u.Text? ==> |u.s| == 0 || (!IsBracket(u.s[0]) && !IsBracket(u.s[|u.s| - 1]))
    ensures u.Text? ==> |u.s| <= |c.s|
    ensures c.Text? ==> u == Text(Upper(Strip(c.s, IsBracket)))
  {
    match c
    case Text(s) => Text(Upper(Strip(s, IsBracket)))
    case _ => Missing
  }

  function CleanUnitsRow(row: Row): (r: Row)
    ensures r.index == row.index && |r.cells| == |row.cells|
    ensures forall k :: 0 <= k < |row.cells| ==> r.cells[k] == CleanUnit(row.cells[k])
  {
    Row(row.index, seq(|row.cells|, k requires 0 <= k < |row.cells| => CleanUnit(row.cells[k])))
  }

  /**
    The cleaned log. It fails only when every row is blank: the units row
    would then be read from an empty frame.
   */
  function CleanLog(t: LogTable): (r: Result<LogTable, Fault>)
    requires WellFormed(t)
    ensures r.Failure? <==> forall i :: 0 <= i < |t.rows| ==> AllMissing(t.rows[i])
    ensures r.Failure? ==> r.error == EmptyLog
    ensures r.Success? ==> WellFormed(r.value) && |r.value.rows| > 0
    ensures r.Success? ==> |r.value.columns| == |t.columns|
    ensures r.Success? ==> forall j :: 0 <= j < |t.columns| ==> r.value.columns[j] == CleanHeader(t.columns[j])
    ensures r.Success? ==>
      var kept := DropEmptyRows(t.rows);
      && |r.value.rows| == |kept|
      && r.value.rows[0] == CleanUnitsRow(kept[0])
      && r.value.rows[1..] == kept[1..]
    ensures r.Success? ==> forall x :: x in r.value.rows[1..] ==> x in t.rows && !AllMissing(x)
  {
    var kept := DropEmptyRows(t.rows);
    if |kept| == 0 then
      assert forall i :: 0 <= i < |t.rows| ==> t.rows[i] in t.rows;
      Failure(EmptyLog)
    else
      assert forall i :: 0 <= i < |kept| ==> kept[i] in kept;
      var header := seq(|t.columns|, j requires 0 <= j < |t.columns| => CleanHeader(t.columns[j]));
      CleanedWellFormed(t, header);
      Success(LogTable(header, [CleanUnitsRow(kept[0])] + kept[1..]))
  }

  /** Keeping the non-blank rows and cleaning the first of them leaves a well-formed table. */
  lemma {:induction false} CleanedWellFormed(t: LogTable, header: seq<string>)
    requires WellFormed(t) && |header| == |t.columns| && |DropEmptyRows(t.rows)| > 0
    ensures var kept := DropEmptyRows(t.rows); WellFormed(LogTable(header, [CleanUnitsRow(kept[0])] + kept[1..]))
  {
    var kept := DropEmptyRows(t.rows);
    var out := [CleanUnitsRow(kept[0])] + kept[1..];
    forall i | 0 <= i < |out|
      ensures out[i].index == kept[i].index && |out[i].cells| == |header|
    {
      assert kept[i] in kept;
      if i > 0 {
        assert out[i] == kept[i];
      }
    }
  }

  /**
    Cleaning a freshly loaded file fails iff every data line is blank; the
    rows kept after the units row are file lines, labelled by their position.
   */
  lemma CleanLoaded(columns: seq<string>, data: seq<seq<Cell>>)
    requires forall i :: 0 <= i < |data| ==> |data[i]| == |columns|
    ensures CleanLog(Loaded(columns, data)).Failure? <==>
      forall i, k :: 0 <= i < |data| && 0 <= k < |data[i]| ==> data[i][k] == Missing
    ensures CleanLog(Loaded(columns, data)).Success? ==>
      forall x :: x in CleanLog(Loaded(columns, data)).value.rows[1..] ==> x.index < |data| && x.cells == data[x.index]
  {
    var t := Loaded(columns, data);
    assert forall i :: 0 <= i < |data| ==> (AllMissing(t.rows[i]) <==> forall k :: 0 <= k < |data[i]| ==> data[i][k] == Missing);
    forall x | x in t.rows
      ensures x.index < |data| && x.cells == data[x.index]
    {
      var i :| 0 <= i < |t.rows| && t.rows[i] == x;
    }
  }

  /** Cleaning a clean header changes nothing. */
  lemma CleanHeaderIdempotent(name: string)
    ensures CleanHeader(CleanHeader(name)) == CleanHeader(name)
  {
    var h := CleanHeader(name);
    StripIdentity(h, IsSpace);
    UpperIdempotent(Strip(name, IsSpace));
  }

  /** Cleaning a clean units cell changes nothing. */
  lemma CleanUnitIdempotent(c: Cell)
    ensures CleanUnit(CleanUnit(c)) == CleanUnit(c)
  {
    if c.Text? {
      var u := CleanUnit(c).s;
      StripIdentity(u, IsBracket);
      UpperIdempotent(Strip(c.s, IsBracket));
    }
  }
}
