# CGPA calculator engine in Dafny

This project models the grade engine of the CGPA calculator's Tauri
backend (`src-tauri/src/lib.rs`). The engine turns a student's course
records into a grade point average (GPA) per semester and a cumulative
GPA (CGPA). It has two pipelines that share one fixed quality-point table.

- **Quality-point table** (`Qpt.dfy`). `build_qpt` inserts three literal
  lists into a map keyed by (total-marks scale, obtained marks). The scales
  are 60, 40 and 120. `Qpt.BuildQpt` is the insert loops. It is proved
  against `Lookup`, which searches the literals for the last entry with
  the key, since a later insert wins.
- **Delimited pipeline** (`Delimited.dfy`). This is
  `process_multiseme_csv_data` and `calculate_gpa`.
  - The first line is skipped.
  - Each further line `ch,tm,om,semester` is split on commas and parsed.
  - A row with zero credit hours or zero total marks is dropped. The rest
    are grouped by their trimmed label.
  - Each group's GPA is the credit-weighted mean of its quality points,
    normalised to 4.0.
  - The CGPA is all the points over all the credits.
- **Result-table pipeline**. This is `parse_table_by_semester` and
  `convert_rows_to_subjects` (`TableRows.dfy`), retake resolution and
  semester order (`Semesters.dfy`), and `calculate_gpa_cgpa`
  (`Tabular.dfy`).
  - Tab-separated rows are grouped under the last semester label seen.
  - Each row becomes a subject. Its total marks come from its credit hours.
  - Per (Spring/Winter, course code), the attempt with the best grade is
    kept.
  - The kept attempts are grouped by semester and sorted by a
    (year, order) key.
  - Each semester's GPA is its raw quality points over its credit hours.
    The CGPA is the same ratio over every semester.
- **Rust `str` operations** (`Text.dfy`). The operations the code relies on
  are written out: `lines`, `split`, `trim`, `split_whitespace`,
  `contains` and unsigned `parse`. `Averages.dfy` holds the
  points-over-credits ratio and sums over sets.

Each imperative part of the source is a method with loops whose
postcondition ties its result to a specification function:

- `build_qpt`
- the loop of `calculate_gpa`
- both loops of `process_multiseme_csv_data`
- the line loop of `parse_table_by_semester`
- the nested loops of `convert_rows_to_subjects`
- the retake pass, grouping, sort and accumulation of `calculate_gpa_cgpa`

Lemmas then prove what the source promises about those functions.

`Tabular.CalculateGpaCgpa` does not return the sums it happens to
compute. It ensures `Summarises`, which defines the result independently
of iteration order:

- each semester of the kept attempts appears exactly once;
- the semesters are in key order;
- each semester's GPA is a sum over the set of its courses;
- the CGPA is the same sum over all kept courses.

Some behaviours of the code are worth stating on their own:

- **Tabular GPA is not normalised.** The code divides raw table values by
  credit hours (lib.rs:177-178, 187). Table values go up to 12 on the
  60-mark scale, so the four-point bound needs more than the table.
  - The bound holds when every kept attempt whose key hits the table has
    at least two credit hours (`Tabular.ResultWithinFour`).
  - A one-credit course with full marks gives a GPA of 12
    (`Tabular.OneCreditHourExceedsFour`).
- **Unreadable credit hours.** A row whose credit-hour cell does not parse
  is kept with 0 credit hours and a 60-mark scale (lib.rs:88, 96). When
  its marks hit the table, lib.rs:176-178 still adds its quality points
  while adding no credit hours, so the GPA and CGPA grow without bound
  (`Tabular.ZeroCreditAddsPoints`). Beside a 3-credit course with full
  marks, one such row with 45 marks lifts the average from 4 to 23/3
  (`Tabular.ZeroCreditInflates`).
- **Semester order.** The key puts "Winter Semester 2022-23" before
  "Spring Semester 2022", because (2022, 0) precedes (2022, 1)
  (`Semesters.WinterBeforeSpring`).
- **First CSV line.** The code always skips the first line (lib.rs:220,
  `Delimited.FirstLineSkipped`). A file without a header loses its first
  record.

## Model

| member | source | states |
|---|---|---|
| Text.Trim | src-tauri/src/lib.rs:62 | the trimmed text is no longer than the input and neither starts nor ends with whitespace |
| Text.TrimOfPadded | src-tauri/src/lib.rs:230 | whitespace around text that has none at its ends is removed and nothing else is |
| Text.TrimTrimmed | src-tauri/src/lib.rs:227-229 | text with no whitespace at either end trims to itself |
| Text.Split | src-tauri/src/lib.rs:221 | splitting gives at least one piece and no piece contains the separator |
| Text.JoinSplit | src-tauri/src/lib.rs:62 | joining the pieces of a split with the separator rebuilds the text |
| Text.SplitJoin | src-tauri/src/lib.rs:221-222 | pieces without the separator, once joined, split back into exactly those pieces |
| Text.Lines | src-tauri/src/lib.rs:61 | no line of `lines` contains a line feed |
| Text.LinesCons | src-tauri/src/lib.rs:220 | a first line ended by a line feed comes out first, less any carriage return, followed by the lines of the rest |
| Text.LinesJoin | src-tauri/src/lib.rs:61 | lines joined by line feeds, with no carriage returns and a non-empty last line, read back as those lines |
| Text.SplitWhitespace | src-tauri/src/lib.rs:155 | every word is non-empty and contains no whitespace |
| Text.SplitWhitespaceJoin | src-tauri/src/lib.rs:155 | non-empty words joined by spaces split back into those words |
| Text.ContainsIff | src-tauri/src/lib.rs:39 | `contains` holds exactly when the pattern occurs at some position |
| Text.ParseUnsigned | src-tauri/src/lib.rs:227-229 | a parsed value never exceeds the type's largest value |
| Text.ParseUnsignedOfNatToString | src-tauri/src/lib.rs:158 | a numeral, with or without '+', parses to its value when that fits, and fails otherwise |
| Text.ParseUnsignedRejectsNonDigit | src-tauri/src/lib.rs:88 | any character other than a digit, apart from a leading '+', makes the parse fail |
| Qpt.BuildQpt | src-tauri/src/lib.rs:276-320 | after the three insert loops, the map answers every key as the last entry for that key in the literals does |
| Qpt.LookupSpec | src-tauri/src/lib.rs:279-317 | the table hits exactly (60, 24..60), (40, 16..40) and the 120-scale marks 48..120 other than 83, 97 and the odd marks 99..119 except 107; it has no scale-100 key; every value is above 0 and at most 8, 12 or 24 for its scale |
| Qpt.DuplicateKeyLastWins | src-tauri/src/lib.rs:302 | (120, 80) holds the second value written for it, 19.67, and (120, 83) is missing |
| Qpt.Lookup60 | src-tauri/src/lib.rs:279-288 | each 60-scale mark from 24 to 60 reads its value from its own position in the literal |
| Qpt.Lookup40 | src-tauri/src/lib.rs:290-296 | each 40-scale mark from 16 to 40 reads its value from its own position in the literal |
| Qpt.Lookup120 | src-tauri/src/lib.rs:298-307 | each 120-scale mark in the table reads its value from its last position in the literal |
| Qpt.Shape60 | src-tauri/src/lib.rs:279-288 | the 60-scale literal lists marks 24..60 in order with values in (0, 12] |
| Qpt.Shape40 | src-tauri/src/lib.rs:290-296 | the 40-scale literal lists marks 16..40 in order with values in (0, 8] |
| Qpt.Shape120 | src-tauri/src/lib.rs:298-307 | the 120-scale literal lists 62 entries with values in (0, 24] |
| Averages.RatioBounded | src-tauri/src/lib.rs:345-349 | points of at most `bound` per credit give a ratio in [0, bound], including 0.0 for zero credits |
| Delimited.AsU8 | src-tauri/src/lib.rs:331 | `as u8` keeps the value below 256 and leaves values under 256 unchanged |
| Delimited.Normalized | src-tauri/src/lib.rs:327-339 | a subject contributes exactly when ch and tm are non-zero and its 8-bit key is in the table, and then its normalised point is in (0, 4] |
| Delimited.Contribution | src-tauri/src/lib.rs:340 | a subject adds between 0 and 4 points per counted credit hour |
| Delimited.CountedCredits | src-tauri/src/lib.rs:327-341 | a subject adds its own credit hours exactly when ch and tm are non-zero and its 8-bit key is in the table, and none otherwise |
| Delimited.PointsBounded | src-tauri/src/lib.rs:326-343 | the total points lie between 0 and 4 times the total credits |
| Delimited.Gpa | src-tauri/src/lib.rs:345-349 | the GPA of any list of records lies in [0, 4] |
| Delimited.TotalsAppend | src-tauri/src/lib.rs:326-343 | points and credits add up over concatenated lists |
| Delimited.ExcludedSubjectChangesNothing | src-tauri/src/lib.rs:327-331 | a record that misses or has ch or tm zero, wherever it stands, changes neither total nor the GPA |
| Delimited.UnknownScaleIsFull | src-tauri/src/lib.rs:332-338 | `MaxQp` divides a record on an unknown scale that still hits the table by its own quality point, so it counts as exactly 4.0 |
| Delimited.Scale100NeverCounts | src-tauri/src/lib.rs:335 | a 100-mark record never contributes, since the table has no scale-100 key |
| Delimited.TwoSubjectExample | src-tauri/src/lib.rs:322-352 | two 3-credit 60-mark records with 45 and 50 marks give a GPA of 23/6 |
| Delimited.EightBitKeyExample | src-tauri/src/lib.rs:331 | 316 total marks are looked up as 60 but divided as an unknown scale, giving 4.0 |
| Delimited.TableHit | src-tauri/src/lib.rs:331-341 | with the table map, a hit adds (qp / max) * 4 * ch points and ch credits, and a miss adds nothing |
| Delimited.MapTotals | src-tauri/src/lib.rs:326-343 | with the table, the points and credits the loop sums through the map (`MapPoints`, `MapCredits`) are the `Points` and `Credits` of the records |
| Delimited.CalculateGpa | src-tauri/src/lib.rs:322-352 | the loop returns the total points and credits of the contributing records, and the GPA is their ratio, in [0, 4] |
| Delimited.ParseField | src-tauri/src/lib.rs:227-229 | a parsed field is at most the `u32` maximum, and is 0 when the trimmed text does not parse |
| Delimited.ParseLine | src-tauri/src/lib.rs:221-239 | a line that yields a row never has zero credit hours or zero total marks |
| Delimited.ParseLineOfFields | src-tauri/src/lib.rs:221-239 | four comma-free fields give the trimmed label and the three parsed numbers, or nothing when ch or tm is 0 |
| Delimited.ParseLineWrongFieldCount | src-tauri/src/lib.rs:222-225 | any other number of fields gives nothing |
| Delimited.ParseLineOfRecord | src-tauri/src/lib.rs:227-239 | a record written out as `ch,tm,om,semester` with `u32` numbers parses back to itself |
| Delimited.FirstLineSkipped | src-tauri/src/lib.rs:220 | whatever the first line holds, the lines read (`Body`) are those of the rest |
| Delimited.KeptRowsSpec | src-tauri/src/lib.rs:220-240 | the kept rows are exactly the rows of lines that parse, and none has ch or tm zero |
| Delimited.GroupsSpec | src-tauri/src/lib.rs:236-239 | every kept row sits in the group of its label, and every group member and label comes from a kept row |
| Delimited.GroupLines | src-tauri/src/lib.rs:220-240 | the first loop builds the groups of the kept rows |
| Delimited.ReportSemesters | src-tauri/src/lib.rs:242-257 | each label is reported once with its group's GPA, and the CGPA is all points over all credits, in [0, 4] |
| Delimited.ProcessMultisemeCsvData | src-tauri/src/lib.rs:216-261 | the report has one line per label of the kept rows after the header, each with its group's GPA, and the CGPA is the ratio over every kept record, in [0, 4] |
| Delimited.AllLabelsDone | src-tauri/src/lib.rs:253-257 | totals over every label are the totals over every record, and their ratio is in [0, 4] |
| TableRows.Columns | src-tauri/src/lib.rs:62 | a line has one more column than it has tabs, and no column holds a tab or starts or ends with whitespace |
| TableRows.ColumnsOfCells | src-tauri/src/lib.rs:62 | trimmed tab-free cells joined by tabs read back as those cells |
| TableRows.LabelAfterLast | src-tauri/src/lib.rs:65-67 | the current label is column 1 of the last line of at least 5 columns whose column 1 is non-empty |
| TableRows.LabelAfterNone | src-tauri/src/lib.rs:59 | before any such line the label is empty |
| TableRows.TableOfRows | src-tauri/src/lib.rs:61-73 | over the columns of every line (`CellsOf`), a label is a key exactly when some row is stored under it, and its value lists those rows in order |
| TableRows.RowsUnderMembers | src-tauri/src/lib.rs:69-73 | a row is stored under `l` exactly when it is not line 0, has at least 5 columns, does not start with "Sr", and `l` is the non-empty label current at it |
| TableRows.ShortLineIgnored | src-tauri/src/lib.rs:63 | a line of fewer than 5 columns changes neither the label nor the table |
| TableRows.HeaderLineNamesSemester | src-tauri/src/lib.rs:65-71 | an "Sr" row with a label updates the label but is not stored |
| TableRows.FirstLineNotStored | src-tauri/src/lib.rs:69 | line 0 is never stored, though it can set the label |
| TableRows.TableStep | src-tauri/src/lib.rs:61-74 | one more line updates the label and appends the line under it exactly as the loop body does |
| TableRows.ParseTableBySemester | src-tauri/src/lib.rs:57-77 | the line loop builds the table of the text's lines |
| TableRows.ParseMarksOfNat | src-tauri/src/lib.rs:89 | `ParseMarks` (the parse at line 89 with the `round()` of line 175) reads a whole number of marks, with or without '+', as itself |
| TableRows.ParseMarksOfDecimal | src-tauri/src/lib.rs:89 | decimal marks round up exactly when the first fractional digit is 5 or more |
| TableRows.ParseMarksNegative | src-tauri/src/lib.rs:89 | negative marks count as 0 |
| TableRows.CreditHoursOf | src-tauri/src/lib.rs:88 | credit hours fit in a `u8` |
| TableRows.CreditHoursOfCell | src-tauri/src/lib.rs:88 | "n(...)" and "n" give n when it fits in 8 bits and 0 otherwise |
| TableRows.TotalMarksFor | src-tauri/src/lib.rs:92-97 | total marks are 40, 60 or 120, with 40 exactly for 2 credit hours and 120 exactly for 6 |
| TableRows.ConvertGroupOfWide | src-tauri/src/lib.rs:84-106 | a group yields one subject per row of at least 12 cells, in order, each converted from its row by `ConvertRow` (lib.rs:87-106) |
| TableRows.ConvertGroupMembers | src-tauri/src/lib.rs:84-106 | a subject comes from a group exactly when it converts some row of at least 12 cells |
| TableRows.ConvertGroupLabels | src-tauri/src/lib.rs:100 | every subject carries its group's label |
| TableRows.ConvertAllMembers | src-tauri/src/lib.rs:83-108 | a subject is produced exactly when it converts a wide row of some visited group |
| TableRows.ConvertRows | src-tauri/src/lib.rs:84-107 | the inner loop yields the group's subjects |
| TableRows.ConvertRowsToSubjects | src-tauri/src/lib.rs:80-111 | every group is visited once, in some order, and the subjects are those of the groups in that order; whatever the order, a subject is produced exactly when it converts a wide row of its own group |
| Semesters.SemesterType | src-tauri/src/lib.rs:38-44 | the type is "Spring" exactly when the label contains "Spring", and "Winter" otherwise |
| Semesters.GradeToPoint | src-tauri/src/lib.rs:46-55 | the rank is at most 5, and 0 exactly for text that is not A, B, C, D or F |
| Semesters.GradeRanking | src-tauri/src/lib.rs:46-55 | A > B > C > D > F > any other text |
| Semesters.BestPerKeyPrefix | src-tauri/src/lib.rs:135-147 | after n elements, every key seen is kept, with an element of maximal rank, the earliest of them |
| Semesters.ResolveSpec | src-tauri/src/lib.rs:135-147 | exactly one attempt is kept per key (`KeyOf`, the (semester type, course code) pair of lines 136-140) attempted: one with the best grade, the earliest of those |
| Semesters.ResolveRetakes | src-tauri/src/lib.rs:132-147 | the retake loop keeps the attempts `Resolve` names |
| Semesters.ParseSemOrder | src-tauri/src/lib.rs:154-161 | a parsed key has a `u32` year and an order of 0 or 1 |
| Semesters.ParseSemOrderOfWords | src-tauri/src/lib.rs:154-161 | words whose third starts with a year give that year, with order 0 exactly when the first word is "Winter" |
| Semesters.FewWordsSortLast | src-tauri/src/lib.rs:156 | a label of fewer than three words sorts as (9999, 9) |
| Semesters.WinterKey | src-tauri/src/lib.rs:158-159 | "Winter Semester 2022-23" has key (2022, 0) |
| Semesters.SpringKey | src-tauri/src/lib.rs:158-159 | "Spring Semester 2022" has key (2022, 1) |
| Semesters.WinterBeforeSpring | src-tauri/src/lib.rs:164 | under `SortKey` (the parsed key, or (9999, 9)), "Winter Semester 2022-23" sorts strictly before "Spring Semester 2022" |
| Semesters.UnparsedSortsLast | src-tauri/src/lib.rs:164 | a label without a key sorts after any label with a year up to 9999 |
| Semesters.SortByKey | src-tauri/src/lib.rs:163-164 | the array ends sorted by key and is a permutation of what it held |
| Semesters.InsertStep | src-tauri/src/lib.rs:164 | one insertion extends the sorted prefix by one element and keeps the elements |
| Tabular.GroupBySemester | src-tauri/src/lib.rs:149-152 | the groups are exactly the semesters of the kept attempts, and each lists that semester's kept attempts once each |
| Tabular.ListedSum | src-tauri/src/lib.rs:149-152 | a semester's list weighs what the set of its courses weighs |
| Tabular.DistinctPermutation | src-tauri/src/lib.rs:163-164 | reordering a list without repeats leaves no repeats |
| Tabular.SortedEntries | src-tauri/src/lib.rs:163-164 | the sorted list holds every semester's entry exactly once, in key order |
| Tabular.SortedSemesters | src-tauri/src/lib.rs:163-164 | collecting and sorting the groups lists each one once, with labels in key order |
| Tabular.SemesterTotals | src-tauri/src/lib.rs:170-185 | the inner loop sums `HitQp` and `HitCh` (the table value and credit hours of a subject whose key `MarksKey` hits the map, nothing otherwise) over the semester's subjects |
| Tabular.Accumulate | src-tauri/src/lib.rs:166-201 | one result per sorted semester, in order, with the ratio of its own totals, and the CGPA is the ratio of the running totals |
| Tabular.GroupsSumAll | src-tauri/src/lib.rs:188-189 | the running totals over all semesters equal the totals over all kept attempts |
| Tabular.ReferenceTotals | src-tauri/src/lib.rs:166-197 | each sorted semester's ratio is its reference GPA, and the running-total ratio is the reference CGPA |
| Tabular.SummarisesOf | src-tauri/src/lib.rs:191-201 | the accumulated result meets `Summarises` |
| Tabular.CalculateGpaCgpa | src-tauri/src/lib.rs:131-203 | each semester of the kept attempts is reported once, in key order, with its quality points over credit hours, and the CGPA is that ratio over all kept attempts |
| Tabular.SubjectPointsBounded | src-tauri/src/lib.rs:175-178 | with the table, a subject's key (`MarksKey`, marks saturated by `Sat8` as `as u8` does) either misses and adds nothing, or the subject, if regular, earns at most 4 points per credit hour |
| Tabular.RatioWithinFour | src-tauri/src/lib.rs:187 | over courses whose attempts that hit the table have at least 2 credit hours, points over credits lie in [0, 4] |
| Tabular.ResultWithinFour | src-tauri/src/lib.rs:187-197 | if every kept attempt whose key hits the table has at least 2 credit hours, every GPA and the CGPA lie in [0, 4] |
| Tabular.ZeroCreditAddsPoints | src-tauri/src/lib.rs:175-178 | a kept attempt with 0 credit hours whose key hits the table adds its table value to the quality points and nothing to the credit hours |
| Tabular.ZeroCreditInflates | src-tauri/src/lib.rs:175-189 | a 3-credit full-marks course beside a 0-credit 45-mark row gives GPA and CGPA 23/3 |
| Tabular.OneCreditHourExceedsFour | src-tauri/src/lib.rs:96 | a 1-credit course with 60 marks gets GPA and CGPA 12.0, since no normalisation is applied |
| Tabular.TableUnique | src-tauri/src/lib.rs:276-320 | only one map answers every key as the table does, so the table `ProcessStudentResults` uses is `build_qpt`'s |
| Tabular.ReportedLabelsFromSubjects | src-tauri/src/lib.rs:149-152 | every semester a result reports is the semester of one of the input subjects |
| Tabular.ProcessStudentResults | src-tauri/src/lib.rs:205-213 | the result summarises the best attempts among the subjects of the parsed table, visited in some order, against the table, the one map that answers as `build_qpt`'s does, and reports only semesters the table has |

## Left out

- `run` and the Tauri command plumbing (lib.rs:5-10). These are
  framework glue.
- `fetch_result_tables` (lib.rs:115-129). It drives a headless browser
  over the network.
  - `Tabular.ProcessStudentResults` takes the text of the result table
    instead.
  - The `tables[1]` indexing and the error path of the fetch
    (lib.rs:207-208) are not part of this model.
- The `eprintln!` diagnostics (lib.rs:180-183, 223). They go to standard
  error and do not affect any result.
- Floating point. Quality points, normalisation and divisions are exact
  reals rather than `f32`.
  - The `(x * 100.0).round() / 100.0` rounding (lib.rs:193, 201) is left
    out.
  - The `{:.2}` formatting of the report (lib.rs:250, 259) is left out.
    The report is modelled as a list of (label, GPA) lines.
- `TableRows.ParseMarks` reads plain decimal numerals only. It rounds
  half away from zero by the first fractional digit.
  - `f32` parsing of exponents, "inf" and "nan" is not modelled.
  - `f32` rounding error is not modelled.
- `u32` wrap-around of the credit-hour accumulators (lib.rs:178, 189, 243,
  341) is not modelled. Sums are unbounded naturals.
- `HashMap` iteration order (lib.rs:83, 150, 163, 246) is unspecified.
  - Loops over map keys pick the next key nondeterministically.
  - `TableRows.ConvertRowsToSubjects` returns the visit order as a ghost
    value.
  - Contracts state only what holds for every order. Equal sort keys come
    out in an unspecified order, so sort stability is not modelled.
- `Delimited.CalculateGpa`: requires the map to be the quality-point
  table. Its only caller, `process_multiseme_csv_data`, passes
  `build_qpt()`.
- The React frontend is not part of this model.
