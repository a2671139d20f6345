/**
  Checks of the leading metadata columns (CoreQC.qc_metadata): the column
  names and units against the template, position by position, then the four
  identity fields of the first data row against the accepted values and the
  date pattern.
 */
module Metadata {
  import opened Wrappers
  import opened Strings
  import opened Tables
  import opened Schema
  import opened Report

  const Months: set<string> := {"JAN", "FEB", "MAR", "APR", "MAY", "JUN", "JUL", "AUG", "SEP", "OCT", "NOV", "DEC"}

  /** The pattern `^\d{2}-(JAN|...|DEC)-\d{4}$`, on ASCII digits. */
  predicate DateMatches(s: string) {
    && |s| == 11
    && IsDigit(s[0]) && IsDigit(s[1])
    && s[2] == '-'
    && s[3..6] in Months
    && s[6] == '-'
    && AllDigits(s[7..])
  }

  /** Every day-month-year built from two digits, a month code and four digits is accepted. */
  lemma DateAccepted(day: string, month: string, year: string)
    requires |day| == 2 && AllDigits(day)
    requires month in Months
    requires |year| == 4 && AllDigits(year)
    ensures DateMatches(day + "-" + month + "-" + year)
  {
    var s := day + "-" + month + "-" + year;
    assert |month| == 3;
    assert s[3..6] == month;
    assert s[7..] == year;
  }

  /** Every accepted date is two digits, a month code and four digits, joined by hyphens. */
  lemma DateDecomposes(s: string)
    requires DateMatches(s)
    ensures AllDigits(s[..2]) && s[3..6] in Months && |s[7..]| == 4 && AllDigits(s[7..])
    ensures s == s[..2] + "-" + s[3..6] + "-" + s[7..]
  {
  }

  /** The date check: one ERROR for a date that does not match, none otherwise. */
  function DateFindings(date: string): (r: seq<Finding>)
    ensures DateMatches(date) <==> r == []
    ensures !DateMatches(date) ==> r == [RaiseError("CREP_TEST_DATE", Text(date))]
  {
    if DateMatches(date) then [] else [RaiseError("CREP_TEST_DATE", Text(date))]
  }

  lemma DateExamples(good: string, iso: string, long: string)
    requires good == "15-JAN-2024" && iso == "2024-01-15" && long == "15-JANUARY-2024"
    ensures DateFindings(good) == []
    ensures |DateFindings(iso)| == 1 && DateFindings(iso)[0].severity == Error
    ensures |DateFindings(long)| == 1 && DateFindings(long)[0].severity == Error
  {
    assert good[3..6] == "JAN";
    assert AllDigits(good[7..]) by {
      assert good[7..] == "2024";
    }
    assert iso[2] == '2';
  }

  /** Position `i` of the template: at most one ERROR, and the name decides before the unit. */
  function PositionFindings(name: string, unit: Cell, expected: TemplateColumn): (r: seq<Finding>)
    ensures |r| <= 1
    ensures r == [] <==> name == expected.name && unit == Text(expected.unit)
    ensures name != expected.name ==> r == [RaiseError("", Text(name), kind := "mnemonic")]
    ensures name == expected.name && unit != Text(expected.unit) ==> r == [RaiseError(name, unit, kind := "unit")]
  {
    if name != expected.name then [RaiseError("", Text(name), kind := "mnemonic")]
    else if unit != Text(expected.unit) then [RaiseError(name, unit, kind := "unit")]
    else []
  }

  predicate PositionMatches(t: LogTable, template: seq<TemplateColumn>, i: nat)
    requires WellFormed(t) && |t.rows| > 0 && i < |t.columns| && i < |template|
  {
    t.columns[i] == template[i].name && t.rows[0].cells[i] == Text(template[i].unit)
  }

  /** The positions below `n` whose name or unit differs from the template, in increasing order. */
  function Mismatched(t: LogTable, template: seq<TemplateColumn>, n: nat): (ps: seq<nat>)
    requires WellFormed(t) && |t.rows| > 0 && n <= |t.columns| && n <= |template|
    ensures forall k :: 0 <= k < |ps| ==> ps[k] < n && !PositionMatches(t, template, ps[k])
    ensures forall k, m :: 0 <= k < m < |ps| ==> ps[k] < ps[m]
  {
    if n == 0 then []
    else if PositionMatches(t, template, n - 1) then Mismatched(t, template, n - 1)
    else Mismatched(t, template, n - 1) + [n - 1]
  }

  /** No mismatched position is left out. */
  lemma {:induction false} MismatchedComplete(t: LogTable, template: seq<TemplateColumn>, n: nat)
    requires WellFormed(t) && |t.rows| > 0 && n <= |t.columns| && n <= |template|
    ensures forall i :: 0 <= i < n && !PositionMatches(t, template, i) ==> i in Mismatched(t, template, n)
  {
    if n > 0 {
      MismatchedComplete(t, template, n - 1);
    }
  }

  /** The findings of template position `p`; none beyond the table or the template. */
  function PositionAt(t: LogTable, template: seq<TemplateColumn>, p: nat): seq<Finding> {
    if |t.rows| > 0 && p < |t.columns| && p < |template| && p < |t.rows[0].cells| then
      PositionFindings(t.columns[p], t.rows[0].cells[p], template[p])
    else []
  }

  /** The template loop written position by position, as the source's `for` loop runs. */
  function TemplateLoop(t: LogTable, template: seq<TemplateColumn>, n: nat): seq<Finding> {
    if n == 0 then [] else TemplateLoop(t, template, n - 1) + PositionAt(t, template, n - 1)
  }

  lemma {:induction false} TemplateLoopLength(t: LogTable, template: seq<TemplateColumn>, n: nat)
    requires WellFormed(t) && |t.rows| > 0 && n <= |t.columns| && n <= |template|
    ensures |TemplateLoop(t, template, n)| <= n
    ensures forall f :: f in TemplateLoop(t, template, n) ==> f.severity == Error && (f.kind == "mnemonic" || f.kind == "unit")
  {
    if n > 0 {
      TemplateLoopLength(t, template, n - 1);
      assert TemplateLoop(t, template, n) == TemplateLoop(t, template, n - 1) + PositionAt(t, template, n - 1);
    }
  }

  lemma {:induction false} TemplateLoopReports(t: LogTable, template: seq<TemplateColumn>, n: nat)
    requires WellFormed(t) && |t.rows| > 0 && n <= |t.columns| && n <= |template|
    ensures forall i :: 0 <= i < n && t.columns[i] != template[i].name ==>
      RaiseError("", Text(t.columns[i]), kind := "mnemonic") in TemplateLoop(t, template, n)
    ensures forall i :: 0 <= i < n && t.columns[i] == template[i].name && t.rows[0].cells[i] != Text(template[i].unit) ==>
      RaiseError(t.columns[i], t.rows[0].cells[i], kind := "unit") in TemplateLoop(t, template, n)
  {
    if n > 0 {
      TemplateLoopReports(t, template, n - 1);
      var before := TemplateLoop(t, template, n - 1);
      var here := PositionAt(t, template, n - 1);
      assert TemplateLoop(t, template, n) == before + here;
      assert forall f :: f in before ==> f in before + here;
      assert forall f :: f in here ==> f in before + here;
    }
  }

  /** The template loop over the first `n` columns; the units are read from the first row. */
  function TemplateFindings(t: LogTable, template: seq<TemplateColumn>, n: nat): (r: seq<Finding>)
    requires WellFormed(t) && |t.rows| > 0 && n <= |t.columns| && n <= |template|
    ensures |r| <= n
    ensures r == [] <==> forall i :: 0 <= i < n ==> PositionMatches(t, template, i)
    ensures forall f :: f in r ==> f.severity == Error && (f.kind == "mnemonic" || f.kind == "unit")
    ensures forall i :: 0 <= i < n && t.columns[i] != template[i].name ==>
      RaiseError("", Text(t.columns[i]), kind := "mnemonic") in r
    ensures forall i :: 0 <= i < n && t.columns[i] == template[i].name && t.rows[0].cells[i] != Text(template[i].unit) ==>
      RaiseError(t.columns[i], t.rows[0].cells[i], kind := "unit") in r
  {
    TemplateLoopLength(t, template, n);
    TemplateLoopSilent(t, template, n);
    TemplateLoopReports(t, template, n);
    TemplateLoop(t, template, n)
  }

  /** `fs` lists, one finding each, the findings of the template positions `ps`. */
  predicate Picks(fs: seq<Finding>, ps: seq<nat>, t: LogTable, template: seq<TemplateColumn>) {
    |fs| == |ps| && forall k :: 0 <= k < |ps| ==> [fs[k]] == PositionAt(t, template, ps[k])
  }

  lemma PicksAppend(fs: seq<Finding>, ps: seq<nat>, t: LogTable, template: seq<TemplateColumn>, p: nat)
    requires Picks(fs, ps, t, template) && |PositionAt(t, template, p)| == 1
    ensures Picks(fs + PositionAt(t, template, p), ps + [p], t, template)
  {
    var here := PositionAt(t, template, p);
    assert here == [here[0]];
    forall k | 0 <= k < |ps| + 1
      ensures [(fs + here)[k]] == PositionAt(t, template, (ps + [p])[k])
    {
      if k < |ps| {
        assert (fs + here)[k] == fs[k] && (ps + [p])[k] == ps[k];
      }
    }
  }

  lemma {:induction false} TemplateLoopInOrder(t: LogTable, template: seq<TemplateColumn>, n: nat)
    requires WellFormed(t) && |t.rows| > 0 && n <= |t.columns| && n <= |template|
    ensures Picks(TemplateLoop(t, template, n), Mismatched(t, template, n), t, template)
  {
    if n > 0 {
      TemplateLoopInOrder(t, template, n - 1);
      if !PositionMatches(t, template, n - 1) {
        assert |PositionAt(t, template, n - 1)| == 1;
        PicksAppend(TemplateLoop(t, template, n - 1), Mismatched(t, template, n - 1), t, template, n - 1);
      } else {
        assert PositionAt(t, template, n - 1) == [];
        assert TemplateLoop(t, template, n) == TemplateLoop(t, template, n - 1);
      }
    }
  }

  /** The loop is silent exactly when no position is mismatched. */
  lemma TemplateLoopSilent(t: LogTable, template: seq<TemplateColumn>, n: nat)
    requires WellFormed(t) && |t.rows| > 0 && n <= |t.columns| && n <= |template|
    ensures TemplateLoop(t, template, n) == [] <==> forall i :: 0 <= i < n ==> PositionMatches(t, template, i)
  {
    TemplateLoopInOrder(t, template, n);
    MismatchedComplete(t, template, n);
    var ms := Mismatched(t, template, n);
    if ms != [] {
      assert !PositionMatches(t, template, ms[0]);
    }
  }

  /**
    The template findings are one ERROR per mismatched position, in position
    order, each the one `PositionFindings` gives there; a matching position
    contributes nothing.
   */
  lemma TemplateFindingsInOrder(t: LogTable, template: seq<TemplateColumn>, n: nat)
    requires WellFormed(t) && |t.rows| > 0 && n <= |t.columns| && n <= |template|
    ensures Picks(TemplateFindings(t, template, n), Mismatched(t, template, n), t, template)
  {
    TemplateLoopInOrder(t, template, n);
  }

  /** The identifying fields read from the row indexed 1. */
  datatype Identity = Identity(labName: Cell, testType: Cell, sampleType: Cell, testDate: string)

  /** Membership in an accepted-value list; a missing or numeric cell is never accepted. */
  predicate Accepted(c: Cell, values: set<string>) {
    c.Text? && c.s in values
  }

  function Flag(b: bool): nat {
    if b then 1 else 0
  }

  /** One check: no finding when it passes, else the single finding `f`. */
  function Check(ok: bool, f: Finding): (r: seq<Finding>)
    ensures |r| == Flag(!ok)
    ensures forall g :: g in r <==> !ok && g == f
    ensures OfSeverity(r, f.severity) == r
  {
    if ok then [] else [f]
  }

  /** Splitting four checks' findings by severity splits each check's on its own. */
  lemma {:induction false} OfSeverityFour(a: seq<Finding>, b: seq<Finding>, c: seq<Finding>, d: seq<Finding>, sev: Severity)
    ensures OfSeverity(a + b + c + d, sev) == OfSeverity(a, sev) + OfSeverity(b, sev) + OfSeverity(c, sev) + OfSeverity(d, sev)
  {
    OfSeverityAppend(a, b, sev);
    OfSeverityAppend(a + b, c, sev);
    OfSeverityAppend(a + b + c, d, sev);
  }

  /** The four identity checks' findings, in the order the original raises them. */
  function IdentityList(id: Identity, cat: Catalog): seq<Finding> {
    Check(Accepted(id.labName, cat.labNames), RaiseWarning("CREP_LAB_NAME", id.labName))
    + Check(Accepted(id.testType, cat.testTypes), RaiseError("CREP_TESTTYPE", id.testType))
    + Check(Accepted(id.sampleType, cat.sampleTypes), RaiseError("CREP_SAMPLE_TYPE", id.sampleType))
    + DateFindings(id.testDate)
  }

  /** Each failed check adds one finding, and each finding names its check's value. */
  lemma IdentityListMembers(id: Identity, cat: Catalog)
    ensures var r := IdentityList(id, cat);
      && |r| == Flag(!Accepted(id.labName, cat.labNames)) + Flag(!Accepted(id.testType, cat.testTypes))
                + Flag(!Accepted(id.sampleType, cat.sampleTypes)) + Flag(!DateMatches(id.testDate))
      && (RaiseError("CREP_TESTTYPE", id.testType) in r <==> !Accepted(id.testType, cat.testTypes))
      && (RaiseError("CREP_SAMPLE_TYPE", id.sampleType) in r <==> !Accepted(id.sampleType, cat.sampleTypes))
      && (RaiseError("CREP_TEST_DATE", Text(id.testDate)) in r <==> !DateMatches(id.testDate))
  {
    assert DateFindings(id.testDate) == Check(DateMatches(id.testDate), RaiseError("CREP_TEST_DATE", Text(id.testDate)));
  }

  /** The only warning is the lab-name one. */
  lemma IdentityListWarnings(id: Identity, cat: Catalog)
    ensures OfSeverity(IdentityList(id, cat), Warning)
      == if Accepted(id.labName, cat.labNames) then [] else [RaiseWarning("CREP_LAB_NAME", id.labName)]
  {
    var lab := Check(Accepted(id.labName, cat.labNames), RaiseWarning("CREP_LAB_NAME", id.labName));
    var test := Check(Accepted(id.testType, cat.testTypes), RaiseError("CREP_TESTTYPE", id.testType));
    var sample := Check(Accepted(id.sampleType, cat.sampleTypes), RaiseError("CREP_SAMPLE_TYPE", id.sampleType));
    var date := DateFindings(id.testDate);
    assert OfSeverity(test, Warning) == [] && OfSeverity(sample, Warning) == [] && OfSeverity(date, Warning) == [];
    OfSeverityFour(lab, test, sample, date, Warning);
  }

  /** The errors are the test-type, sample-type and date ones, in that order. */
  lemma IdentityListErrors(id: Identity, cat: Catalog)
    ensures OfSeverity(IdentityList(id, cat), Error) ==
      Check(Accepted(id.testType, cat.testTypes), RaiseError("CREP_TESTTYPE", id.testType))
      + Check(Accepted(id.sampleType, cat.sampleTypes), RaiseError("CREP_SAMPLE_TYPE", id.sampleType))
      + DateFindings(id.testDate)
  {
    var lab := Check(Accepted(id.labName, cat.labNames), RaiseWarning("CREP_LAB_NAME", id.labName));
    var test := Check(Accepted(id.testType, cat.testTypes), RaiseError("CREP_TESTTYPE", id.testType));
    var sample := Check(Accepted(id.sampleType, cat.sampleTypes), RaiseError("CREP_SAMPLE_TYPE", id.sampleType));
    var date := DateFindings(id.testDate);
    assert date == Check(DateMatches(id.testDate), RaiseError("CREP_TEST_DATE", Text(id.testDate)));
    assert OfSeverity(lab, Error) == [];
    assert OfSeverity(test, Error) == test && OfSeverity(sample, Error) == sample && OfSeverity(date, Error) == date;
    OfSeverityFour(lab, test, sample, date, Error);
    assert OfSeverity(lab, Error) + test == test;
  }

  /** The four independent identity checks, each attempted whatever the others found. */
  function IdentityFindings(id: Identity, cat: Catalog): (r: seq<Finding>)
    ensures |r| == Flag(!Accepted(id.labName, cat.labNames)) + Flag(!Accepted(id.testType, cat.testTypes))
                 + Flag(!Accepted(id.sampleType, cat.sampleTypes)) + Flag(!DateMatches(id.testDate))
    ensures OfSeverity(r, Warning) == if Accepted(id.labName, cat.labNames) then [] else [RaiseWarning("CREP_LAB_NAME", id.labName)]
    ensures OfSeverity(r, Error) ==
      Check(Accepted(id.testType, cat.testTypes), RaiseError("CREP_TESTTYPE", id.testType))
      + Check(Accepted(id.sampleType, cat.sampleTypes), RaiseError("CREP_SAMPLE_TYPE", id.sampleType))
      + DateFindings(id.testDate)
    ensures RaiseError("CREP_TESTTYPE", id.testType) in r <==> !Accepted(id.testType, cat.testTypes)
    ensures RaiseError("CREP_SAMPLE_TYPE", id.sampleType) in r <==> !Accepted(id.sampleType, cat.sampleTypes)
    ensures RaiseError("CREP_TEST_DATE", Text(id.testDate)) in r <==> !DateMatches(id.testDate)
  {
    IdentityListMembers(id, cat);
    IdentityListWarnings(id, cat);
    IdentityListErrors(id, cat);
    IdentityList(id, cat)
  }
  /** The cell of the row indexed 1 under the first metadata column called `name`. */
  function Field(t: LogTable, name: string): (r: Option<Cell>)
    requires WellFormed(t)
    ensures r.Some? <==> RowAt(t.rows, 1).Some? && name in t.columns[..Min(MetadataCols, |t.columns|)]
    ensures r.Some? ==>
      var j := IndexOf(t.columns[..Min(MetadataCols, |t.columns|)], name).value;
      && j < MetadataCols && t.columns[j] == name
      && (forall k :: 0 <= k < j ==> t.columns[k] != name)
      && j < |RowAt(t.rows, 1).value.cells|
      && r.value == RowAt(t.rows, 1).value.cells[j]
  {
    match RowAt(t.rows, 1)
    case None => None
    case Some(row) =>
      match IndexOf(t.columns[..Min(MetadataCols, |t.columns|)], name)
      case None => None
      case Some(j) =>
        assert row in t.rows;
        Some(row.cells[j])
  }

  /** The outcome of the metadata stage; `knownTestType` gates the measurement stage. */
  datatype MetaOutcome = MetaOutcome(findings: seq<Finding>, identity: Identity, knownTestType: bool)

  /**
    The metadata stage. It faults where the original raises: no row indexed 1,
    a field column missing from the metadata columns, fewer columns than the
    template, or a date cell that is not text.
   */
  function QcMetadata(t: LogTable, cat: Catalog): (r: Result<MetaOutcome, Fault>)
    requires WellFormed(t) && Valid(cat)
    ensures r.Success? <==>
      && Field(t, "CREP_TESTTYPE").Some?
      && |t.columns| >= MetadataCols
      && Field(t, "CREP_LAB_NAME").Some?
      && Field(t, "CREP_SAMPLETYPE").Some?
      && Field(t, "CREP_TEST_DATE").Some? && Field(t, "CREP_TEST_DATE").value.Text?
    ensures r.Success? ==>
      var id := r.value.identity;
      && id.labName == Field(t, "CREP_LAB_NAME").value
      && id.testType == Field(t, "CREP_TESTTYPE").value
      && id.sampleType == Field(t, "CREP_SAMPLETYPE").value
      && Text(id.testDate) == Field(t, "CREP_TEST_DATE").value
    ensures r.Success? ==> (r.value.knownTestType <==> Accepted(r.value.identity.testType, cat.testTypes))
    ensures r.Success? ==>
      && |t.rows| > 0
      && r.value.findings == TemplateFindings(t, cat.template, MetadataCols) + IdentityFindings(r.value.identity, cat)
  {
    var testType :- FieldOrFault(t, "CREP_TESTTYPE");
    if |t.columns| < MetadataCols then Failure(TooFewColumns)
    else
      assert RowAt(t.rows, 1).Some?;
      var template := TemplateFindings(t, cat.template, MetadataCols);
      var lab :- FieldOrFault(t, "CREP_LAB_NAME");
      var sample :- FieldOrFault(t, "CREP_SAMPLETYPE");
      var date :- FieldOrFault(t, "CREP_TEST_DATE");
      if !date.Text? then Failure(NotAString("CREP_TEST_DATE"))
      else
        var id := Identity(lab, testType, sample, date.s);
        Success(MetaOutcome(template + IdentityFindings(id, cat), id, Accepted(testType, cat.testTypes)))
  }

  function FieldOrFault(t: LogTable, name: string): (r: Result<Cell, Fault>)
    requires WellFormed(t)
    ensures r.Success? <==> Field(t, name).Some?
    ensures r.Success? ==> r.value == Field(t, name).value
  {
    match Field(t, name)
    case Some(c) => Success(c)
    case None => if RowAt(t.rows, 1).None? then Failure(MissingRow(1)) else Failure(MissingColumn(name))
  }

  /** A log whose metadata columns match the template gets findings from the identity checks only. */
  lemma MatchingTemplateIsSilent(t: LogTable, cat: Catalog)
    requires WellFormed(t) && Valid(cat) && |t.rows| > 0 && |t.columns| >= MetadataCols
    requires forall i :: 0 <= i < MetadataCols ==> PositionMatches(t, cat.template, i)
    ensures QcMetadata(t, cat).Success? ==>
      QcMetadata(t, cat).value.findings == IdentityFindings(QcMetadata(t, cat).value.identity, cat)
  {
  }

  /** An unaccepted test type clears the flag and is reported among the metadata findings. */
  lemma UnknownTestTypeReported(t: LogTable, cat: Catalog)
    requires WellFormed(t) && Valid(cat)
    ensures QcMetadata(t, cat).Success? && !QcMetadata(t, cat).value.knownTestType ==>
      RaiseError("CREP_TESTTYPE", QcMetadata(t, cat).value.identity.testType) in QcMetadata(t, cat).value.findings
  {
    if QcMetadata(t, cat).Success? {
      var m := QcMetadata(t, cat).value;
      var ids := IdentityFindings(m.identity, cat);
      assert m.findings == TemplateFindings(t, cat.template, MetadataCols) + ids;
    }
  }
}
