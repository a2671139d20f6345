# CoreQC in Dafny

CoreQC checks exported well-log CSV files against a reference schema. This
project is a Dafny model of the tool's core logic. It takes one loaded log
through the tool's stages:

- **Cleaning** (`clean_log`): blank rows are dropped. Headers are trimmed and
  upper-cased. The units row loses its enclosing `()[]` and is upper-cased.
- **Metadata checks** (`qc_metadata`): the first 7 columns are compared with
  the template, position by position. The lab name, test type, sample type and
  test date are read from the row indexed 1. Each is checked against its
  accepted-value list or the `DD-MON-YYYY` pattern.
- **Measurement checks** (`qc_data`): measurement column names must be unique.
  Each name is normalised (every run of digits and dots becomes `XXXX`) and
  looked up in the test type's mnemonic dictionary. The unit and the observed
  minimum and maximum are then compared with the entry.
- **DEPTH repair** (`qc_depth`): passes repeat until no depth value is a
  duplicate. On each pass, every value that repeats an earlier one gains one
  increment.
- **Splitting** (`split_export`): the 7 metadata columns are combined with
  consecutive windows of at most 8 measurement columns. The resulting chunks
  are numbered from 1.

Findings are `Finding(severity, item, value, kind, message)` records kept in
one ordered sequence. `RaiseWarning` and `RaiseError` build them with the
original defaults: kind `"value"`, and message `"is not recognized"` for a
warning or `"is invalid"` for an error. The original keeps warnings and errors
in two separate lists. `Report.OfSeverity` recovers each list from the
sequence.

Modelling choices:

- **Cells.** A cell is `Missing`, `Num(int)` or `Text(string)`. Each row keeps
  the index label the CSV loader gave it. Dropping rows keeps the labels of the
  remaining rows. So lookups by label (`df.loc[1, c]`, `df.loc[0, c]`,
  `df.loc[1:, c]`) and by position (`df.iloc[0]`) are kept apart, as in the
  source.
- **Depths.** A depth is an integer count of the increment 1e-5, so one bump
  adds 1.
- **Schema.** The schema is an immutable `Schema.Catalog` value, and the
  layout constants are `Schema.MetadataCols` (7), `Schema.DataColCap` (10) and
  `Schema.DataColsSegment` (8).
- **Faults.** In the source, an uncaught exception ends the run. In the model
  it is a `Tables.Fault` carried in a `Result`. This covers a frame left with
  no rows, a missing row label or column, fewer than 7 columns, a date that is
  not a string, a test type without a dictionary, a DEPTH column that is
  missing or appears more than once, and a duplicated non-numeric depth.

Behaviours of the code that the model keeps as they are:

- A column-name mismatch in the template check produces
  `raise_error('', name, type='mnemonic')`: the item is empty and the value is
  the observed name.
- The uniqueness error's message is `MNEMONICS ARE NOT UNIQUE!` and its kind
  is `value`.
- The sample-type error is reported under the item `CREP_SAMPLE_TYPE`, while
  the value is read from the column `CREP_SAMPLETYPE`.
- A failure while reading one log ends the whole run; it is not isolated per
  log.
- The DEPTH duplicate check runs over the whole column, including the units
  row.
- When several columns are named DEPTH, `df['DEPTH']` is a frame and the
  loop's truth test on it raises; the model faults with `RepeatedColumn`.

## Model

| member | source | states |
|---|---|---|
| Strings.Strip | CoreQC.py:164-167 | `strip`: the result is the infix of the input that remains after removing the leading and trailing characters of the class. Everything removed is in the class, and neither end of the result is. |
| Cleaning.DropEmptyRows | CoreQC.py:160-161 | A row is kept iff it has a non-missing cell. No row is added, and the kept rows stay in their original label order. |
| Cleaning.CleanHeader | CoreQC.py:163-164 | A cleaned header has no lower-case letter and no whitespace at either end. It is the upper-cased infix left after trimming the original. |
| Cleaning.CleanHeaderIdempotent | CoreQC.py:164 | Cleaning an already clean header changes nothing. |
| Cleaning.CleanUnit | CoreQC.py:166-167 | A text units cell becomes the upper-cased text left after stripping brackets from both ends: no lower-case letter, no bracket at either end, no longer than before. A cell that is not text becomes missing. |
| Cleaning.CleanUnitIdempotent | CoreQC.py:167 | Cleaning an already clean units cell changes nothing. |
| Cleaning.CleanLog | CoreQC.py:156-169 | Cleaning fails iff every row is blank. Otherwise: each header is cleaned; the first kept row is the units row, with its indices kept and every cell cleaned; all later kept rows are unchanged; the table stays rectangular with increasing labels. |
| Cleaning.CleanLoaded | CoreQC.py:156-169 | Cleaning a freshly read file fails iff every data line is blank. Every row kept after the units row is a line of the file, labelled by its position there. |
| Metadata.DateAccepted | CoreQC.py:221-225 | Two digits, `-`, a month code, `-`, four digits always match the date pattern. |
| Metadata.DateDecomposes | CoreQC.py:221-225 | Every matching date splits into two digits, a month code and four digits, joined by hyphens. With `DateAccepted`, this makes the pattern an iff. |
| Metadata.DateFindings | CoreQC.py:221-225 | The date check gives no finding iff the date matches. Otherwise it gives exactly one `CREP_TEST_DATE` ERROR. |
| Metadata.DateExamples | CoreQC.py:221-225 | `15-JAN-2024` passes. `2024-01-15` and `15-JANUARY-2024` each give exactly one ERROR. |
| Metadata.PositionFindings | CoreQC.py:193-201 | Each template position gives at most one ERROR. A name mismatch gives a `mnemonic` ERROR (item empty, value = the observed name) and the unit is not checked. Otherwise a unit mismatch gives a `unit` ERROR. A position gives nothing iff both the name and the unit match. |
| Metadata.TemplateFindings | CoreQC.py:192-201 | The template loop gives at most one ERROR per position, and every finding is a `mnemonic` or `unit` ERROR. Every mismatched position is reported. There are no findings iff every position matches. |
| Metadata.Mismatched | CoreQC.py:193-201 | The listed positions are in increasing order, below the bound, and each fails the name-then-unit comparison. |
| Metadata.MismatchedComplete | CoreQC.py:193-201 | Every position that fails the comparison is listed. |
| Metadata.TemplateFindingsInOrder | CoreQC.py:192-201 | The template findings are, in position order, exactly one per mismatched position, each the finding that position gives; a matching position contributes nothing. |
| Metadata.MatchingTemplateIsSilent | CoreQC.py:192-201 | When the template matches in full, the metadata findings are exactly the identity-check findings. |
| Metadata.IdentityFindings | CoreQC.py:208-225 | The four checks are independent, and the number of findings is the number of failed checks. The only WARNING is the one for an unknown lab name. The ERRORs are, in this order, the one for an unknown test type, the one for an unknown sample type and the one for a malformed date, each present iff its check fails. |
| Metadata.Field | CoreQC.py:203-206 | An identity field is readable iff a row indexed 1 exists and the name is one of the first 7 columns. Its value is the row-1 cell under the first of those columns that has the name. |
| Metadata.QcMetadata | CoreQC.py:183-230 | The stage succeeds iff the row indexed 1 and all four field columns exist, there are at least 7 columns, and the date is text. Then the identity holds the row-1 cells of those columns, the known-test-type flag is set iff the test type is accepted, and the findings are the template findings followed by the identity findings. |
| Metadata.UnknownTestTypeReported | CoreQC.py:212-215 | A cleared test-type flag always comes with a `CREP_TESTTYPE` ERROR among the metadata findings. |
| Mnemonics.Normalize | CoreQC.py:245 | A normalised mnemonic contains no digit and no dot. |
| Mnemonics.NormalizeIdentity | CoreQC.py:245 | A name with no digit or dot normalises to itself. |
| Mnemonics.NormalizeIdempotent | CoreQC.py:245 | Normalising twice is the same as normalising once. |
| Mnemonics.NormalizeRun | CoreQC.py:245 | A non-empty run of digits and dots becomes exactly one `XXXX`. |
| Mnemonics.NormalizeAppend | CoreQC.py:245 | Cutting a name at a point that is not inside a run normalises each half on its own. Together with `NormalizeRun` and `NormalizeIdentity`, this means each maximal run becomes `XXXX`. |
| Mnemonics.NormalizeNumbered | CoreQC.py:245 | A plain name followed by a number normalises to the name plus `XXXX`. |
| Mnemonics.NormalizeExample | CoreQC.py:245 | `GR12.5` normalises to `GRXXXX`. |
| Measurements.NumericSpan | CoreQC.py:268-269 | The span exists iff the column has a number. Its bounds are attained and enclose every number; missing cells are skipped. |
| Measurements.ObservedSpan | CoreQC.py:266-273 | A range is observed iff the column has no text cell and has a number. |
| Measurements.RangeFindings | CoreQC.py:266-281 | A column with a text cell, or with no number, gets none. Otherwise there is a `min value` WARNING iff the minimum bound is present and the observed minimum is below it, carrying the observed minimum and the message `is not in expected range`; likewise `max value` with the observed maximum. Nothing else is reported, and when both are, the minimum comes first. |
| Measurements.KnownColumnFindings | CoreQC.py:252-281 | For a known mnemonic there is no `mnemonic` finding. The findings are a `unit` ERROR carrying the observed unit, present iff the unit differs, followed by the range findings. |
| Measurements.CheckColumn | CoreQC.py:243-281 | An unknown normalised name gives exactly one `mnemonic` ERROR with an empty value. A known name gives exactly the known-column findings for its dictionary entry. Every finding names the column. |
| Measurements.ColumnsFindings | CoreQC.py:243-281 | The loop faults, on the missing row indexed 0, iff that row is absent and some remaining column has a known normalised name. Otherwise the findings are the per-column reports (unit from the row indexed 0, values from the rows indexed 1 and up), one column after another in column order. |
| Measurements.QcData | CoreQC.py:232-281 | A test type without a dictionary faults. Duplicate measurement names give exactly one ERROR and no other finding. Otherwise the stage faults iff the row indexed 0 is absent and a measurement name is known, and else its findings are the per-column reports of the measurement columns in column order. |
| Measurements.GammaRayScenario | CoreQC.py:243-281 | Column `GR1` with unit `API` and values 10 and 260, checked against `GRXXXX` (API, 0 to 250), gives exactly one `max value` WARNING and no ERROR. |
| Depth.DistinctIffNoDuplicate | CoreQC.py:288-293 | The loop's exit condition (no duplicated flag) holds iff the non-missing values are pairwise distinct. |
| Depth.DuplicatedKeepsFirst | CoreQC.py:288 | `duplicated()` flags every later copy of a present value and leaves the first occurrence of each present value unflagged. |
| Depth.Bump | CoreQC.py:292 | A pass keeps the length and adds one increment to exactly the numbers that repeat an earlier non-missing value; every other cell is unchanged. |
| Depth.BumpKeepsText | CoreQC.py:292 | A pass does not change which text values are duplicated. |
| Depth.BumpBounded | CoreQC.py:291-293 | A pass keeps every number at position i at or below the initial maximum plus i. |
| Depth.BumpDecreases | CoreQC.py:291-293 | A pass that has a duplicate strictly reduces the total room left under that bound, which proves the loop terminates. |
| Depth.Settle | CoreQC.py:291-293 | The loop ends with pairwise-distinct non-missing values. Each number rises by a non-negative number of increments; missing and text cells stay put. |
| Depth.ResolveColumn | CoreQC.py:286-295 | The repair faults iff a duplicated value is text. Otherwise it returns pairwise-distinct values, each number shifted up by k ≥ 0 increments and every other cell unchanged. |
| Depth.ResolveDistinct | CoreQC.py:288-293 | A column that is already distinct is returned unchanged. |
| Depth.ResolveIdempotent | CoreQC.py:288-293 | Repairing a repaired column changes nothing. |
| Depth.TripleExample | CoreQC.py:288-293 | Depths [100, 100, 100] become [100, 100 + 1e-5, 100 + 2e-5]. |
| Depth.QcDepth | CoreQC.py:283-295 | A log without a DEPTH column, or with several, faults. Otherwise the stage faults iff a duplicated value is text. On success the DEPTH column becomes exactly the column repair's result, so it is distinct and shifted upward, and an already distinct column is left alone; every other cell, every label and the header stay the same. |
| Splitting.SplitPlan | CoreQC.py:308-327 | There are no chunks iff there are fewer than 17 columns. Otherwise there are ⌈(total − 7)/8⌉ chunks, numbered 1, 2, …. Chunk k is columns 0..6 followed by a non-empty window of at most 8 consecutive measurement columns starting at 7 + 8k. The windows, concatenated in order, are exactly columns 7..total−1. |
| Splitting.SplitBoundary | CoreQC.py:308-309 | 16 columns give no split and 17 columns give 2 chunks. |
| Splitting.ChunkTable | CoreQC.py:322-324 | A chunk's table has the source's rows and labels and exactly the chosen columns, in order. |
| Splitting.SplitLog | CoreQC.py:308-327 | A log has no parts iff it is narrower than 17 columns; otherwise it has ⌈(total − 7)/8⌉. Part n keeps every row label, and its header and each row are the metadata block followed by columns 7 + 8n up to min(7 + 8n + 8, total). Putting the parts' windows back after the metadata block gives the header and every row again. |
| Splitting.PlannedPart | CoreQC.py:321-324 | The part for chunk k has the log's rows and labels; its header and each row are the metadata block followed by the chunk's window. |
| Splitting.RejoinSlices | CoreQC.py:316-327 | The windows of the first chunks, side by side, are exactly the measurement columns up to the end of the last of them. |
| Splitting.CoveringSlicesRejoin | CoreQC.py:316-327 | When the chunks reach the last column, the metadata block followed by the rejoined windows is the whole header or row. |
| Report.RaiseWarning | CoreQC.py:332-336 | A WARNING record keeps the given item, value, kind and message; kind defaults to `value` and message to `is not recognized`. |
| Report.RaiseError | CoreQC.py:338-342 | An ERROR record keeps the given item, value, kind and message; kind defaults to `value` and message to `is invalid`. |
| Report.OfSeverity | CoreQC.py:332-342 | The list for one severity holds exactly the findings of that severity, in arrival order. |
| Report.SplitBySeverity | CoreQC.py:332-342 | Every finding lands in exactly one of the warning and error lists. |
| Report.OfSeverityAppend | CoreQC.py:332-342 | Splitting by severity commutes with appending one stage's findings after another's. |
| Pipeline.DataStage | CoreQC.py:93-94 | The measurement stage contributes nothing unless the test type is known. |
| Pipeline.CheckCleaned | CoreQC.py:90-95 | On the cleaned table the run succeeds iff the metadata, measurement and DEPTH stages all succeed, and otherwise carries the fault of the first stage that fails. On success the findings are the metadata findings followed by the measurement findings, and the table is the DEPTH stage's result: the header, row count and every non-DEPTH cell are kept, and the DEPTH column is distinct and shifted upward from the cleaned one. |
| Pipeline.RunQc | CoreQC.py:81-95 | The flag is set iff the test type is accepted. When it is not set, the measurement check is skipped: the findings are exactly the metadata findings, and they include the test-type ERROR. |

## Left out

- The interactive loop, the prompts and the yes/no split question
  (CoreQC.py:35-79, 171-181) are console I/O.
- File discovery and the `.CSV` extension test (CoreQC.py:128-143) are
  filesystem I/O.
- Reading and writing CSV files is I/O. This covers the read at line 88, the
  re-read and re-save in `split_export` (lines 301-306) and the chunk file
  names (line 319). `Splitting.SplitLog` takes the table to split as a
  parameter. In the source that table is the raw file, re-read rather than the
  cleaned one; cleaning never changes the column count.
- Loading the settings workbook (CoreQC.py:97-126) is left out. This includes
  upper-casing the dictionary's mnemonics and units, dropping duplicate
  mnemonics, and the warning at line 111. The catalog is a given value, and
  its dictionary keys are unique because it is a map.
- Printing is left out: the test type (line 190), the count of duplicated
  depths (line 290) and each finding (lines 335, 341). So is the empty
  `save_report` (lines 329-330). The text rendering of a finding
  (lines 334, 340) is not modelled; findings stay structured records.
- Floating point is not modelled. Depths are integer counts of 1e-5, and range
  values and bounds are integers. The rounding that could stall the depth loop
  for huge values cannot happen here.
- pandas artefacts are left out. Three are replaced by their evident intent:
  - Real object-dtype columns hold strings, so `min`/`max` would compare them
    lexicographically. The model uses numeric cells and skips the range check
    when any data cell is text.
  - The `is not np.nan` test is modelled as an optional bound.
  - The chained assignment on line 292 is modelled as an update of the column.

  Four pandas behaviours are modelled differently:
  - Duplicate names inside the metadata block would make pandas return a
    Series; the model takes the first column with the name.
  - `astype(float)` also accepts numeric strings; the model faults on every
    duplicated text depth.
  - The `.str` accessor raises on a units row with no text cell; the model
    turns that row's cells into missing ones.
  - An empty unit in the settings workbook (NaN, which never equals anything)
    is not modelled; template and dictionary units are strings.
- Python's regex and Unicode rules are not modelled: `\d` matching non-ASCII
  digits, `$` accepting a trailing newline, and Unicode `strip`/`upper`.
  Characters are handled as ASCII.
- A template with fewer than 7 columns is left out: the source raises an
  IndexError on it at CoreQC.py:195, and `Schema.Valid` requires at least 7
  template columns, as a settings workbook in the expected layout has.
