/**
  The in-memory log table: an ordered header of column names and an ordered
  sequence of rows. Each row keeps the index label the CSV loader gave it
  (0, 1, 2, ... in file order); dropping rows keeps the indices of the rest, so
  a lookup "by label" and a lookup "by position" can disagree after cleaning.
 */
module Tables {
  import opened Wrappers

  /** One cell as the loader delivers it. */
  datatype Cell = Missing | Num(n: int) | Text(s: string)

  datatype Row = Row(index: nat, cells: seq<Cell>)

  datatype LogTable = LogTable(columns: seq<string>, rows: seq<Row>)

  /** The exceptions that end a run of the original tool, one per cause. */
  datatype Fault =
    | EmptyLog                    // no row survives cleaning, so there is no units row
    | MissingRow(index: nat)      // a lookup by row index finds nothing
    | MissingColumn(name: string) // a lookup by column name finds nothing
    | TooFewColumns               // fewer columns than the metadata template
    | NotAString(item: string)    // the date field is not text, so the pattern cannot be applied
    | NoDictionary(testType: string) // no mnemonic dictionary for an accepted test type
    | NonNumericDepth             // a duplicated DEPTH value cannot be read as a number
    | RepeatedColumn(name: string) // a lookup by name finds several columns where one value is needed

  /** The smaller of two counts. */
  function Min(a: nat, b: nat): nat {
    if a <= b then a else b
  }

  predicate IndicesIncreasing(rows: seq<Row>) {
    forall i, j :: 0 <= i < j < |rows| ==> rows[i].index < rows[j].index
  }

  /** A rectangular table whose row indices are strictly increasing. */
  predicate WellFormed(t: LogTable) {
    && (forall i :: 0 <= i < |t.rows| ==> |t.rows[i].cells| == |t.columns|)
    && IndicesIncreasing(t.rows)
  }

  /** The table a freshly loaded file gives: rows indexed by their position. */
  function Loaded(columns: seq<string>, data: seq<seq<Cell>>): (t: LogTable)
    requires forall i :: 0 <= i < |data| ==> |data[i]| == |columns|
    ensures WellFormed(t)
    ensures |t.rows| == |data|
    ensures forall i :: 0 <= i < |data| ==> t.rows[i].index == i && t.rows[i].cells == data[i]
  {
    LogTable(columns, seq(|data|, i requires 0 <= i < |data| => Row(i, data[i])))
  }

  /** The position of the first column called `name`, if any. */
  function IndexOf(names: seq<string>, name: string): (r: Option<nat>)
    ensures r.None? <==> name !in names
    ensures r.Some? ==> r.value < |names| && names[r.value] == name
    ensures r.Some? ==> forall k :: 0 <= k < r.value ==> names[k] != name
  {
    if |names| == 0 then None
    else if names[0] == name then Some(0)
    else match IndexOf(names[1..], name)
      case None => None
      case Some(k) => Some(k + 1)
  }

  /** The row carrying `index`, if any (pandas `df.loc[index]`). */
  function RowAt(rows: seq<Row>, index: nat): (r: Option<Row>)
    ensures r.None? <==> forall i :: 0 <= i < |rows| ==> rows[i].index != index
    ensures r.Some? ==> r.value in rows && r.value.index == index
  {
    if |rows| == 0 then None
    else if rows[0].index == index then Some(rows[0])
    else RowAt(rows[1..], index)
  }

  /** Column `j` read top to bottom, units row included. */
  function Column(t: LogTable, j: nat): (col: seq<Cell>)
    requires WellFormed(t) && j < |t.columns|
    ensures |col| == |t.rows|
    ensures forall i :: 0 <= i < |t.rows| ==> col[i] == t.rows[i].cells[j]
  {
    seq(|t.rows|, i requires 0 <= i < |t.rows| => t.rows[i].cells[j])
  }

  /** Column `j` over the rows indexed 1 and above (pandas `df.loc[1:, name]`). */
  function DataValues(rows: seq<Row>, j: nat): (vals: seq<Cell>)
    requires forall i :: 0 <= i < |rows| ==> j < |rows[i].cells|
    ensures forall v :: v in vals ==> exists i :: 0 <= i < |rows| && rows[i].index >= 1 && rows[i].cells[j] == v
    ensures forall i :: 0 <= i < |rows| && rows[i].index >= 1 ==> rows[i].cells[j] in vals
  {
    if |rows| == 0 then []
    else
      var rest := DataValues(rows[1..], j);
      assert forall i :: 1 <= i < |rows| ==> rows[1..][i - 1] == rows[i];
      if rows[0].index >= 1 then [rows[0].cells[j]] + rest else rest
  }
}
