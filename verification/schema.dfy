/**
  The reference schema read from the settings workbook, taken here as a
  given immutable value, and the layout constants of the tool.
 */
module Schema {
  import opened Wrappers

  /** Number of leading metadata columns checked against the template. */
  const MetadataCols: nat := 7
  /** A log is split only when it has at least MetadataCols + DataColCap columns. */
  const DataColCap: nat := 10
  /** Number of measurement columns per split chunk. */
  const DataColsSegment: nat := 8

  /** A mnemonic dictionary entry; an absent bound leaves that side unconstrained. */
  datatype Entry = Entry(unit: string, min: Option<int>, max: Option<int>)

  datatype TemplateColumn = TemplateColumn(name: string, unit: string)

  datatype Catalog = Catalog(
    template: seq<TemplateColumn>,
    labNames: set<string>,
    testTypes: set<string>,
    sampleTypes: set<string>,
    mnemonics: map<string, map<string, Entry>>)

  /** The template sheet holds at least the metadata columns. */
  predicate Valid(cat: Catalog) {
    |cat.template| >= MetadataCols
  }
}
