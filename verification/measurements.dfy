/**
  Checks of the measurement columns (CoreQC.qc_data): column names must be
  unique; each name is normalised and looked up in the test type's
  dictionary, then its unit and its observed range are compared with the
  entry.
 */
module Measurements {
  import opened Wrappers
  import opened Tables
  import opened Schema
  import opened Report
  import opened Mnemonics

  /** The smallest and the largest numeric value of a column. */
  datatype Span = Span(lo: int, hi: int)

  predicate AnyText(vals: seq<Cell>) {
    exists i :: 0 <= i < |vals| && vals[i].Text?
  }

  predicate AnyNum(vals: seq<Cell>) {
    exists i :: 0 <= i < |vals| && vals[i].Num?
  }

  /** Minimum and maximum over the numeric cells; missing cells are skipped, as pandas does. */
  function NumericSpan(vals: seq<Cell>): (r: Option<Span>)
    ensures r.None? <==> !AnyNum(vals)
    ensures r.Some? ==> forall i :: 0 <= i < |vals| && vals[i].Num? ==> r.value.lo <= vals[i].n <= r.value.hi
    ensures r.Some? ==> Num(r.value.lo) in vals && Num(r.value.hi) in vals
  {
    if |vals| == 0 then None
    else
      var rest := NumericSpan(vals[1..]);
      assert forall i :: 1 <= i < |vals| ==> vals[1..][i - 1] == vals[i];
      assert AnyNum(vals) <==> vals[0].Num? || AnyNum(vals[1..]);
      match vals[0]
      case Num(n) =>
        (match rest
         case None => Some(Span(n, n))
         case Some(sp) => Some(Span(if n < sp.lo then n else sp.lo, if n > sp.hi then n else sp.hi)))
      case _ => rest
  }

  /**
    The observed range of a column, or None when it cannot be taken: a text
    cell makes the conversion fail, and a column without numbers yields NaN,
    which no bound comparison flags.
   */
  function ObservedSpan(vals: seq<Cell>): (r: Option<Span>)
    ensures r.Some? <==> !AnyText(vals) && AnyNum(vals)
    ensures r.Some? ==> forall i :: 0 <= i < |vals| && vals[i].Num? ==> r.value.lo <= vals[i].n <= r.value.hi
    ensures r.Some? ==> Num(r.value.lo) in vals && Num(r.value.hi) in vals
  {
    if AnyText(vals) then None else NumericSpan(vals)
  }

  predicate BelowMin(span: Option<Span>, e: Entry) {
    span.Some? && e.min.Some? && span.value.lo < e.min.value
  }

  predicate AboveMax(span: Option<Span>, e: Entry) {
    span.Some? && e.max.Some? && span.value.hi > e.max.value
  }

  predicate IsRangeKind(f: Finding) {
    f.kind == "min value" || f.kind == "max value"
  }

  /** The WARNING for an observed minimum below the entry's lower bound; it carries that minimum. */
  function MinWarning(name: string, span: Span): Finding {
    RaiseWarning(name, Num(span.lo), kind := "min value", message := "is not in expected range")
  }

  /** The WARNING for an observed maximum above the entry's upper bound; it carries that maximum. */
  function MaxWarning(name: string, span: Span): Finding {
    RaiseWarning(name, Num(span.hi), kind := "max value", message := "is not in expected range")
  }

  /** Range WARNINGs for one column: each bound, when present, is compared with the observed extreme. */
  function RangeFindings(name: string, vals: seq<Cell>, e: Entry): (r: seq<Finding>)
    ensures |r| <= 2
    ensures forall f :: f in r ==> f.severity == Warning && f.item == name && IsRangeKind(f)
    ensures (exists f :: f in r && f.kind == "min value") <==> BelowMin(ObservedSpan(vals), e)
    ensures (exists f :: f in r && f.kind == "max value") <==> AboveMax(ObservedSpan(vals), e)
    ensures ObservedSpan(vals).None? ==> r == []
    ensures ObservedSpan(vals).Some? ==>
      var span := ObservedSpan(vals).value;
      && (MinWarning(name, span) in r <==> BelowMin(ObservedSpan(vals), e))
      && (MaxWarning(name, span) in r <==> AboveMax(ObservedSpan(vals), e))
      && (forall f :: f in r ==> f == MinWarning(name, span) || f == MaxWarning(name, span))
      && (|r| == 2 ==> r == [MinWarning(name, span), MaxWarning(name, span)])
    ensures AnyText(vals) ==> r == []
  {
    var span := ObservedSpan(vals);
    if span.None? then []
    else
      var low := if BelowMin(span, e) then [MinWarning(name, span.value)] else [];
      var high := if AboveMax(span, e) then [MaxWarning(name, span.value)] else [];
      low + high
  }

  /**
    The findings for a column whose normalised name is in the dictionary: the
    unit ERROR, when the units row disagrees with the entry, comes first, then
    the range WARNINGs.
   */
  function KnownColumnFindings(name: string, unit: Cell, vals: seq<Cell>, e: Entry): (r: seq<Finding>)
    ensures |r| <= 3
    ensures forall f :: f in r ==> f.item == name && f.kind != "mnemonic"
    ensures forall f :: f in r ==> (f.severity == Error <==> f.kind == "unit")
    ensures RaiseError(name, unit, kind := "unit") in r <==> unit != Text(e.unit)
    ensures (exists f :: f in r && f.kind == "min value") <==> BelowMin(ObservedSpan(vals), e)
    ensures (exists f :: f in r && f.kind == "max value") <==> AboveMax(ObservedSpan(vals), e)
    ensures AnyText(vals) ==> forall f :: f in r ==> !IsRangeKind(f)
    ensures unit == Text(e.unit) ==> r == RangeFindings(name, vals, e)
    ensures unit != Text(e.unit) ==> r == [RaiseError(name, unit, kind := "unit")] + RangeFindings(name, vals, e)
  {
    var unitCheck := if unit != Text(e.unit) then [RaiseError(name, unit, kind := "unit")] else [];
    unitCheck + RangeFindings(name, vals, e)
  }

  /** The findings for one column: an unknown name stops at the mnemonic ERROR. */
  function CheckColumn(name: string, unit: Cell, vals: seq<Cell>, dict: map<string, Entry>): (r: seq<Finding>)
    ensures Normalize(name) !in dict ==> r == [RaiseError(name, Text(""), kind := "mnemonic")]
    ensures Normalize(name) in dict ==> r == KnownColumnFindings(name, unit, vals, dict[Normalize(name)])
    ensures Normalize(name) in dict ==> forall f :: f in r ==> f.kind != "mnemonic"
    ensures forall f :: f in r ==> f.item == name
  {
    var key := Normalize(name);
    if key !in dict then [RaiseError(name, Text(""), kind := "mnemonic")]
    else KnownColumnFindings(name, unit, vals, dict[key])
  }

  predicate UniqueNames(names: seq<string>) {
    forall i, j :: 0 <= i < j < |names| ==> names[i] != names[j]
  }

  function MeasurementNames(t: LogTable): (names: seq<string>)
    ensures |t.columns| >= MetadataCols ==> names == t.columns[MetadataCols..]
    ensures |t.columns| < MetadataCols ==> names == []
  {
    if |t.columns| >= MetadataCols then t.columns[MetadataCols..] else []
  }

  /** The units cell of column `k`: the row indexed 0, or missing when there is none. */
  function UnitCell(t: LogTable, k: nat): Cell
    requires WellFormed(t) && k < |t.columns|
  {
    match RowAt(t.rows, 0)
    case None => Missing
    case Some(units) => assert units in t.rows; units.cells[k]
  }

  /** What the loop body reports for column `k`: its unit from the row indexed 0, its values from the rows indexed 1 and up. */
  function ColumnReport(t: LogTable, k: nat, dict: map<string, Entry>): seq<Finding>
    requires WellFormed(t) && k < |t.columns|
  {
    CheckColumn(t.columns[k], UnitCell(t, k), DataValues(t.rows, k), dict)
  }

  /** The per-column reports of columns `j` onwards, in column order. */
  function Reports(t: LogTable, j: nat, dict: map<string, Entry>): (rs: seq<seq<Finding>>)
    requires WellFormed(t)
    decreases |t.columns| - j
  {
    if j >= |t.columns| then [] else [ColumnReport(t, j, dict)] + Reports(t, j + 1, dict)
  }

  /** Some column from `j` on has a name the dictionary knows, so its unit must be read. */
  predicate NeedsUnits(t: LogTable, j: nat, dict: map<string, Entry>) {
    exists k :: j <= k < |t.columns| && Normalize(t.columns[k]) in dict
  }

  /**
    Columns `j` onwards. The units are read from the row indexed 0 and the
    values from the rows indexed 1 and above; a known column with no row
    indexed 0 faults. Otherwise the findings are the reports of the columns,
    one after another in column order.
   */
  function ColumnsFindings(t: LogTable, j: nat, dict: map<string, Entry>): (r: Result<seq<Finding>, Fault>)
    requires WellFormed(t)
    ensures r.Failure? <==> RowAt(t.rows, 0).None? && NeedsUnits(t, j, dict)
    ensures r.Failure? ==> r.error == MissingRow(0)
    ensures r.Success? ==> r.value == Concat(Reports(t, j, dict))
    ensures r.Success? && j <= |t.columns| ==> forall f :: f in r.value ==> f.item in t.columns[j..]
    decreases |t.columns| - j
  {
    if j >= |t.columns| then Success([])
    else
      var name := t.columns[j];
      var here :- if Normalize(name) !in dict then Success(CheckColumn(name, Missing, [], dict))
                  else match RowAt(t.rows, 0)
                    case None => Failure(MissingRow(0))
                    case Some(units) =>
                      assert units in t.rows;
                      Success(CheckColumn(name, units.cells[j], DataValues(t.rows, j), dict));
      var rest :- ColumnsFindings(t, j + 1, dict);
      assert forall x :: x in t.columns[j + 1..] ==> x in t.columns[j..];
      assert NeedsUnits(t, j, dict) <==> Normalize(name) in dict || NeedsUnits(t, j + 1, dict);
      assert here == ColumnReport(t, j, dict);
      Success(here + rest)
  }

  /**
    The measurement stage for a log whose test type was accepted. Duplicate
    column names give one ERROR and nothing else; a test type without a
    dictionary faults; otherwise every measurement column is reported in
    order, which needs the row indexed 0 as soon as one name is known.
   */
  function QcData(t: LogTable, testType: string, cat: Catalog): (r: Result<seq<Finding>, Fault>)
    requires WellFormed(t)
    ensures testType !in cat.mnemonics ==> r == Failure(NoDictionary(testType))
    ensures testType in cat.mnemonics && !UniqueNames(MeasurementNames(t)) ==>
      r == Success([RaiseError("", Text(""), message := "MNEMONICS ARE NOT UNIQUE!")])
    ensures testType in cat.mnemonics && UniqueNames(MeasurementNames(t)) ==>
      var dict := cat.mnemonics[testType];
      && (r.Failure? <==> RowAt(t.rows, 0).None? && NeedsUnits(t, MetadataCols, dict))
      && (r.Failure? ==> r.error == MissingRow(0))
      && (r.Success? ==> r.value == Concat(Reports(t, MetadataCols, dict)))
      && (r.Success? ==> forall f :: f in r.value ==> f.item in MeasurementNames(t))
  {
    if testType !in cat.mnemonics then Failure(NoDictionary(testType))
    else
      var names := MeasurementNames(t);
      if !UniqueNames(names) then Success([RaiseError("", Text(""), message := "MNEMONICS ARE NOT UNIQUE!")])
      else ColumnsFindings(t, MetadataCols, cat.mnemonics[testType])
  }

  /**
    A gamma-ray column "GR1" in API units against the entry GRXXXX (API, 0 to
    250) with values 10 and 260: one WARNING on the maximum, no ERROR.
   */
  lemma GammaRayScenario(name: string, vals: seq<Cell>, dict: map<string, Entry>)
    requires name == "GR1" && vals == [Num(10), Num(260)]
    requires dict == map["GRXXXX" := Entry("API", Some(0), Some(250))]
    ensures CheckColumn(name, Text("API"), vals, dict) ==
      [RaiseWarning(name, Num(260), kind := "max value", message := "is not in expected range")]
  {
    assert name == name[..2] + name[2..];
    assert NoRunChar(name[..2]);
    NormalizeNumbered(name[..2], name[2..]);
    assert Normalize(name) == "GRXXXX";
    assert AnyNum(vals) && !AnyText(vals) by {
      assert vals[0].Num?;
    }
    assert ObservedSpan(vals) == Some(Span(10, 260)) by {
      assert vals[1..] == [Num(260)];
      assert NumericSpan(vals[1..]) == Some(Span(260, 260)) by {
        assert vals[1..][1..] == [];
      }
    }
  }
}
