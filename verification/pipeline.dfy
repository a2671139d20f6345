/**
  One log through the checking pipeline (CoreQC.run_qc): cleaning, the
  metadata checks, the measurement checks when the test type is known, then
  the DEPTH repair.
 */
module Pipeline {
  import opened Wrappers
  import opened Tables
  import opened Schema
  import opened Report
  import opened Cleaning
  import opened Metadata
  import opened Measurements
  import opened Depth

  /** The findings of one log, its repaired table and what identified it. */
  datatype QcRun = QcRun(findings: seq<Finding>, table: LogTable, identity: Identity, knownTestType: bool)

  /** The measurement stage, run only for an accepted test type. */
  function DataStage(t: LogTable, meta: MetaOutcome, cat: Catalog): (r: Result<seq<Finding>, Fault>)
    requires WellFormed(t)
    ensures !meta.knownTestType ==> r == Success([])
    ensures meta.knownTestType && meta.identity.testType.Text? ==> r == QcData(t, meta.identity.testType.s, cat)
  {
    if !meta.knownTestType || !meta.identity.testType.Text? then Success([])
    else QcData(t, meta.identity.testType.s, cat)
  }

  /**
    The stages after cleaning, on the cleaned table: metadata, then the
    measurements, then the DEPTH repair. It succeeds iff every stage does and
    otherwise carries the first stage's fault; on success the findings are the
    metadata findings followed by the measurement findings, and the DEPTH
    column of the returned table is free of duplicates.
   */
  function CheckCleaned(clean: LogTable, cat: Catalog): (r: Result<QcRun, Fault>)
    requires WellFormed(clean) && Valid(cat)
    ensures r.Success? <==>
      && QcMetadata(clean, cat).Success?
      && DataStage(clean, QcMetadata(clean, cat).value, cat).Success?
      && QcDepth(clean).Success?
    ensures QcMetadata(clean, cat).Failure? ==> r == Failure(QcMetadata(clean, cat).error)
    ensures QcMetadata(clean, cat).Success? && DataStage(clean, QcMetadata(clean, cat).value, cat).Failure? ==>
      r == Failure(DataStage(clean, QcMetadata(clean, cat).value, cat).error)
    ensures (&& QcMetadata(clean, cat).Success?
             && DataStage(clean, QcMetadata(clean, cat).value, cat).Success?
             && QcDepth(clean).Failure?) ==> r == Failure(QcDepth(clean).error)
    ensures r.Success? ==> r.value.table == QcDepth(clean).value
    ensures r.Success? ==>
      var meta := QcMetadata(clean, cat).value;
      && r.value.identity == meta.identity
      && r.value.knownTestType == meta.knownTestType
      && r.value.findings == meta.findings + DataStage(clean, meta, cat).value
    ensures r.Success? ==>
      var j := IndexOf(clean.columns, "DEPTH").value;
      && WellFormed(r.value.table)
      && r.value.table.columns == clean.columns
      && |r.value.table.rows| == |clean.rows|
      && Distinct(Column(r.value.table, j))
      && Shifted(Column(clean, j), Column(r.value.table, j))
  {
    var meta :- QcMetadata(clean, cat);
    var data :- DataStage(clean, meta, cat);
    var repaired :- QcDepth(clean);
    assert "DEPTH" in clean.columns && WellFormed(repaired) && repaired.columns == clean.columns;
    Success(QcRun(meta.findings + data, repaired, meta.identity, meta.knownTestType))
  }

  /**
    The whole pipeline for one log. A log whose test type is not accepted
    gets its metadata findings only, among them the test-type ERROR.
   */
  function RunQc(raw: LogTable, cat: Catalog): (r: Result<QcRun, Fault>)
    requires WellFormed(raw) && Valid(cat)
    ensures CleanLog(raw).Failure? ==> r == Failure(EmptyLog)
    ensures CleanLog(raw).Success? ==> r == CheckCleaned(CleanLog(raw).value, cat)
    ensures r.Success? ==> (r.value.knownTestType <==> Accepted(r.value.identity.testType, cat.testTypes))
    ensures r.Success? && !r.value.knownTestType ==>
      && r.value.findings == QcMetadata(CleanLog(raw).value, cat).value.findings
      && RaiseError("CREP_TESTTYPE", r.value.identity.testType) in r.value.findings
  {
    var clean :- CleanLog(raw);
    var r := CheckCleaned(clean, cat);
    if r.Success? then
      UnknownTestTypeReported(clean, cat);
      assert r.value.findings == QcMetadata(clean, cat).value.findings + DataStage(clean, QcMetadata(clean, cat).value, cat).value;
      r
    else r
  }
}
