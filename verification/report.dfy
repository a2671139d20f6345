/**
  Findings raised while checking one log. The original keeps warnings and
  errors in two lists; here they form one ordered sequence, and each of the
  two lists is its restriction to one severity.
 */
module Report {
  import opened Tables

  datatype Severity = Warning | Error

  datatype Finding = Finding(severity: Severity, item: string, value: Cell, kind: string, message: string)

  /** A WARNING record, with the source's default kind and message. */
  function RaiseWarning(item: string, value: Cell, kind: string := "value",
                        message: string := "is not recognized"): (f: Finding)
    ensures f.severity == Warning
    ensures f.item == item && f.value == value && f.kind == kind && f.message == message
  {
    Finding(Warning, item, value, kind, message)
  }

  /** An ERROR record, with the source's default kind and message. */
  function RaiseError(item: string, value: Cell, kind: string := "value",
                      message: string := "is invalid"): (f: Finding)
    ensures f.severity == Error
    ensures f.item == item && f.value == value && f.kind == kind && f.message == message
  {
    Finding(Error, item, value, kind, message)
  }

  /** The findings of several checks, one check's after another's. */
  function Concat(groups: seq<seq<Finding>>): (r: seq<Finding>)
    ensures forall f :: f in r <==> exists g :: 0 <= g < |groups| && f in groups[g]
  {
    if |groups| == 0 then []
    else
      assert forall g :: 1 <= g < |groups| ==> groups[1..][g - 1] == groups[g];
      groups[0] + Concat(groups[1..])
  }

  /** The findings of one severity, in arrival order. */
  function OfSeverity(fs: seq<Finding>, sev: Severity): (r: seq<Finding>)
    ensures |r| <= |fs|
    ensures forall f :: f in r <==> f in fs && f.severity == sev
  {
    if |fs| == 0 then []
    else if fs[0].severity == sev then [fs[0]] + OfSeverity(fs[1..], sev)
    else OfSeverity(fs[1..], sev)
  }

  /** Every finding lands in exactly one of the two lists. */
  lemma {:induction false} SplitBySeverity(fs: seq<Finding>)
    ensures |OfSeverity(fs, Warning)| + |OfSeverity(fs, Error)| == |fs|
  {
    if |fs| > 0 {
      SplitBySeverity(fs[1..]);
    }
  }

  /** Restriction to one severity distributes over the concatenation of two stages. */
  lemma {:induction false} OfSeverityAppend(a: seq<Finding>, b: seq<Finding>, sev: Severity)
    ensures OfSeverity(a + b, sev) == OfSeverity(a, sev) + OfSeverity(b, sev)
  {
    if |a| > 0 {
      assert (a + b)[0] == a[0];
      assert (a + b)[1..] == a[1..] + b;
      OfSeverityAppend(a[1..], b, sev);
    } else {
      assert a + b == b;
    }
  }
}
