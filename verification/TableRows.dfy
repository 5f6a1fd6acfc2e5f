/** The first half of the result-table pipeline: the tab-separated text of
    the result table is cut into rows grouped under the semester named by
    the most recent row that names one, and every row wide enough becomes
    a subject whose total marks follow from its credit hours. */
module TableRows {
  import opened Wrappers
  import opened Text

  /** One course attempt read from the result table. The obtained marks
      are kept as the whole number they round to, which is all the engine
      ever uses them for. */
  datatype Subject = Subject(semesterLabel: string, courseCode: string, creditHours: nat,
                             obtainedMarks: nat, totalMarks: nat, grade: string)

  // ------------------------------------------------------------- columns

  /** The cells of one line: the pieces between tabs, each trimmed. A line
      has one more cell than it has tabs, and no cell holds a tab or starts
      or ends with whitespace. */
  function Columns(line: string): (cols: seq<string>)
    ensures |cols| == multiset(line)['\t'] + 1
    ensures forall k :: 0 <= k < |cols| ==> '\t' !in cols[k] && Trimmed(cols[k])
  {
    SplitCount(line, '\t');
    var ps := Split(line, '\t');
    seq(|ps|, k requires 0 <= k < |ps| => Trim(ps[k]))
  }

  predicate Trimmed(t: string) {
    t == [] || (!IsWhitespace(t[0]) && !IsWhitespace(t[|t| - 1]))
  }

  lemma ColumnsOfPieces(line: string, cells: seq<string>)
    requires Split(line, '\t') == cells
    requires forall k :: 0 <= k < |cells| ==> Trimmed(cells[k])
    ensures Columns(line) == cells
  {
    var cols := Columns(line);
    forall k | 0 <= k < |cells| ensures cols[k] == cells[k] {
      TrimTrimmed(cells[k]);
    }
  }

  /** Cells without tabs or surrounding whitespace, joined by tabs, read
      back as exactly those cells. */
  lemma ColumnsOfCells(cells: seq<string>)
    requires |cells| >= 1
    requires forall k :: 0 <= k < |cells| ==> '\t' !in cells[k] && Trimmed(cells[k])
    ensures Columns(Join(cells, '\t')) == cells
  {
    SplitJoin(cells, '\t');
    ColumnsOfPieces(Join(cells, '\t'), cells);
  }

  /** The cells of every line. */
  function CellsOf(lines: seq<string>): seq<seq<string>> {
    seq(|lines|, k requires 0 <= k < |lines| => Columns(lines[k]))
  }

  // ------------------------------------------------- the current semester

  /** A line of at least five cells whose second cell is not empty names
      the semester of the lines that follow it (itself included). */
  predicate NamesSemester(cols: seq<string>) {
    |cols| >= 5 && cols[1] != ""
  }

  /** The current semester once the lines with cells `table` have been
      read: the second cell of the last line that names one, or "" before
      any does. */
  function LabelAfter(table: seq<seq<string>>): string
    decreases |table|
  {
    if table == [] then ""
    else if NamesSemester(table[|table| - 1]) then table[|table| - 1][1]
    else LabelAfter(table[..|table| - 1])
  }

  /** Before any line names a semester there is no current semester. */
  lemma {:induction false} LabelAfterNone(table: seq<seq<string>>)
    requires forall j :: 0 <= j < |table| ==> !NamesSemester(table[j])
    ensures LabelAfter(table) == ""
    decreases |table|
  {
    if table != [] {
      var n := |table| - 1;
      assert !NamesSemester(table[n]);
      LabelAfterNone(table[..n]);
    }
  }

  /** The current semester is the one named by the most recent line that
      names one. */
  lemma {:induction false} LabelAfterLast(table: seq<seq<string>>, j: nat)
    requires j < |table| && NamesSemester(table[j])
    requires forall k :: j < k < |table| ==> !NamesSemester(table[k])
    ensures LabelAfter(table) == table[j][1]
    decreases |table|
  {
    var n := |table| - 1;
    if j < n {
      assert !NamesSemester(table[n]);
      assert table[..n][j] == table[j];
      LabelAfterLast(table[..n], j);
    }
  }

  // --------------------------------------------------------- the grouping

  /** Line `i` is kept as a row: it has at least five cells, it is not the
      very first line, some semester is current once it is read, and it is
      not a header line (first cell "Sr"). */
  predicate Stored(table: seq<seq<string>>, i: nat)
    requires i < |table|
  {
    i != 0 && |table[i]| >= 5 && LabelAfter(table[..i + 1]) != "" && table[i][0] != "Sr"
  }

  /** The table built line by line: each kept line's cells are appended to
      the rows of the semester current at that line. */
  function TableOf(table: seq<seq<string>>): map<string, seq<seq<string>>>
    decreases |table|
  {
    if table == [] then map[]
    else
      var n := |table| - 1;
      var m := TableOf(table[..n]);
      if Stored(table, n) then
        var l := LabelAfter(table);
        m[l := (if l in m then m[l] else []) + [table[n]]]
      else m
  }

  /** The rows kept under semester `l`, in the order of the lines: a
      definition per semester, independent of the map. */
  function RowsUnder(table: seq<seq<string>>, l: string): seq<seq<string>>
    decreases |table|
  {
    if table == [] then []
    else
      var n := |table| - 1;
      RowsUnder(table[..n], l)
        + (if Stored(table, n) && LabelAfter(table) == l then [table[n]] else [])
  }

  /** The map holds exactly the semesters that have kept rows, and under
      each one all of its rows in their original order. */
  lemma {:induction false} TableOfRows(table: seq<seq<string>>)
    ensures forall l :: l in TableOf(table) <==> RowsUnder(table, l) != []
    ensures forall l :: l in TableOf(table) ==> TableOf(table)[l] == RowsUnder(table, l)
    decreases |table|
  {
    if table != [] {
      var n := |table| - 1;
      TableOfRows(table[..n]);
    }
  }

  lemma RowsUnderStep(table: seq<seq<string>>, l: string, n: nat)
    requires n < |table|
    ensures RowsUnder(table[..n + 1], l) == RowsUnder(table[..n], l)
      + (if Stored(table, n) && LabelAfter(table[..n + 1]) == l then [table[n]] else [])
  {
    var t := table[..n + 1];
    assert t[..n] == table[..n];
    assert t[n] == table[n];
    assert t[..n + 1] == t;
  }

  lemma {:induction false} RowsUnderPrefix(table: seq<seq<string>>, l: string, r: seq<string>, n: nat)
    requires n <= |table|
    ensures r in RowsUnder(table[..n], l) <==>
      exists i :: 0 <= i < n && Stored(table, i) && LabelAfter(table[..i + 1]) == l && table[i] == r
    decreases n
  {
    if n > 0 {
      RowsUnderPrefix(table, l, r, n - 1);
      RowsUnderStep(table, l, n - 1);
    }
  }

  /** A row is kept under `l` exactly when some kept line, read while `l`
      was the current semester, has those cells. */
  lemma RowsUnderMembers(table: seq<seq<string>>, l: string, r: seq<string>)
    ensures r in RowsUnder(table, l) <==>
      exists i :: 0 <= i < |table| && Stored(table, i) && LabelAfter(table[..i + 1]) == l && table[i] == r
  {
    RowsUnderPrefix(table, l, r, |table|);
    assert table[..|table|] == table;
  }

  /** A line of fewer than five cells changes neither the current
      semester nor the table. */
  lemma ShortLineIgnored(table: seq<seq<string>>, cols: seq<string>)
    requires |cols| < 5
    ensures LabelAfter(table + [cols]) == LabelAfter(table)
    ensures TableOf(table + [cols]) == TableOf(table)
  {
    assert (table + [cols])[..|table|] == table;
  }

  /** A header line ("Sr" in its first cell) that names a semester makes
      it current but is not itself a row. */
  lemma HeaderLineNamesSemester(table: seq<seq<string>>, cols: seq<string>)
    requires NamesSemester(cols) && cols[0] == "Sr"
    ensures LabelAfter(table + [cols]) == cols[1]
    ensures TableOf(table + [cols]) == TableOf(table)
  {
    assert (table + [cols])[..|table|] == table;
  }

  /** The first line is never a row, though it can name the semester. */
  lemma FirstLineNotStored(cols: seq<string>)
    ensures TableOf([cols]) == map[]
    ensures LabelAfter([cols]) == (if NamesSemester(cols) then cols[1] else "")
  {
    assert [cols][..0] == [];
  }

  /** Reading one more line: it may name the semester, and it is appended
      to the current semester's rows when it is kept. */
  lemma TableStep(table: seq<seq<string>>, i: nat)
    requires i < |table|
    ensures LabelAfter(table[..i + 1]) ==
      (if NamesSemester(table[i]) then table[i][1] else LabelAfter(table[..i]))
    ensures var l := LabelAfter(table[..i + 1]);
      var m := TableOf(table[..i]);
      TableOf(table[..i + 1]) ==
        (if i != 0 && |table[i]| >= 5 && l != "" && table[i][0] != "Sr"
         then m[l := (if l in m then m[l] else []) + [table[i]]] else m)
  {
    var t := table[..i + 1];
    assert t[..i] == table[..i];
    assert t[i] == table[i];
    assert t[..i + 1] == t;
  }

  /** `parse_table_by_semester`: the rows of the table grouped by the
      semester current at each row. */
  method ParseTableBySemester(tableText: string) returns (semesterMap: map<string, seq<seq<string>>>)
    ensures semesterMap == TableOf(CellsOf(Lines(tableText)))
  {
    var lines := Lines(tableText);
    ghost var table := CellsOf(lines);
    semesterMap := map[];
    var currentSemester := "";
    for i := 0 to |lines|
      invariant semesterMap == TableOf(table[..i])
      invariant currentSemester == LabelAfter(table[..i])
    {
      TableStep(table, i);
      var cols := Columns(lines[i]);
      assert cols == table[i];
      if |cols| < 5 {
        continue;
      }
      if cols[1] != "" {
        currentSemester := cols[1];
      }
      if i == 0 || currentSemester == "" || cols[0] == "Sr" {
        continue;
      }
      var rows := if currentSemester in semesterMap then semesterMap[currentSemester] else [];
      semesterMap := semesterMap[currentSemester := rows + [cols]];
    }
    assert table[..|lines|] == table;
  }

  // ------------------------------------------------------------ subjects

  /** The whole number the marks text rounds to: the text is read as a
      decimal numeral with an optional sign and an optional fractional part
      and rounded half away from zero; a negative value, and text that is
      not such a numeral (which reads as 0.0), give 0. Saturation at 255
      happens where the marks are used as a lookup key. */
  function ParseMarks(text: string): nat
  {
    var negative := |text| > 0 && text[0] == '-';
    var unsigned := if |text| > 0 && (text[0] == '+' || text[0] == '-') then text[1..] else text;
    var pieces := Split(unsigned, '.');
    var whole := pieces[0];
    var frac := if |pieces| == 2 then pieces[1] else "";
    if negative || |pieces| > 2 || !AllDigits(whole) || !AllDigits(frac) || (whole == [] && frac == []) then 0
    else
      (if whole == [] then 0 else DigitsValue(whole)) + (if frac != [] && frac[0] >= '5' then 1 else 0)
  }

  /** A whole number of marks reads as itself. */
  lemma ParseMarksOfNat(n: nat)
    ensures ParseMarks(NatToString(n)) == n
    ensures ParseMarks("+" + NatToString(n)) == n
  {
    var s := NatToString(n);
    DigitsValueOfNatToString(n);
    SplitNoSeparator(s, '.');
    assert ("+" + s)[1..] == s;
  }

  /** Marks with a fractional part round up exactly when the first
      fractional digit is 5 or more. */
  lemma ParseMarksOfDecimal(n: nat, frac: string)
    requires frac != [] && AllDigits(frac)
    ensures ParseMarks(NatToString(n) + "." + frac) == n + (if frac[0] >= '5' then 1 else 0)
  {
    var s := NatToString(n);
    DigitsValueOfNatToString(n);
    SplitNoSeparator(frac, '.');
    SplitAtSeparator(s, '.', frac);
    assert s + "." + frac == s + ['.'] + frac;
  }

  /** Negative marks count as 0. */
  lemma ParseMarksNegative(t: string)
    ensures ParseMarks("-" + t) == 0
  {
  }

  /** The credit hours of a course cell such as "3(2-1)": the trimmed text
      before the first '(' read as an 8-bit unsigned number, or 0 when it
      is not one. */
  function CreditHoursOf(cell: string): (ch: nat)
    ensures ch <= 255
  {
    ParseUnsigned(Trim(Split(cell, '(')[0]), 255).GetOr(0)
  }

  /** The credit hours written before the parenthesis are read back when
      they fit in 8 bits, and are 0 otherwise. */
  lemma CreditHoursOfCell(n: nat, rest: string)
    ensures CreditHoursOf(NatToString(n) + "(" + rest) == (if n <= 255 then n else 0)
    ensures CreditHoursOf(NatToString(n)) == (if n <= 255 then n else 0)
  {
    var s := NatToString(n);
    assert '(' !in s;
    SplitAtSeparator(s, '(', rest);
    SplitNoSeparator(s, '(');
    assert s + "(" + rest == s + ['('] + rest;
    TrimTrimmed(s);
    ParseUnsignedOfNatToString(n, 255);
  }

  /** The total marks a course is out of, fixed by its credit hours:
      2 → 40, 3 → 60, 6 → 120, anything else → 60. */
  function TotalMarksFor(ch: nat): (tm: nat)
    ensures tm == 40 || tm == 60 || tm == 120
    ensures (tm == 40 <==> ch == 2) && (tm == 120 <==> ch == 6)
  {
    match ch
    case 2 => 40
    case 3 => 60
    case 6 => 120
    case _ => 60
  }

  /** The subject one row of at least twelve cells becomes. */
  function ConvertRow(semesterLabel: string, row: seq<string>): Subject
    requires |row| >= 12
  {
    var ch := CreditHoursOf(row[5]);
    Subject(semesterLabel, row[3], ch, ParseMarks(row[10]), TotalMarksFor(ch), row[11])
  }

  /** The subjects of one semester's rows, in row order; rows of fewer
      than twelve cells are skipped. */
  function ConvertGroup(semesterLabel: string, rows: seq<seq<string>>): seq<Subject>
    decreases |rows|
  {
    if rows == [] then []
    else
      var n := |rows| - 1;
      ConvertGroup(semesterLabel, rows[..n])
        + (if |rows[n]| >= 12 then [ConvertRow(semesterLabel, rows[n])] else [])
  }

  /** The subjects of all semesters, visiting them in `order`. */
  function ConvertAll(semesterMap: map<string, seq<seq<string>>>, order: seq<string>): seq<Subject>
    requires forall k :: 0 <= k < |order| ==> order[k] in semesterMap
    decreases |order|
  {
    if order == [] then []
    else
      var n := |order| - 1;
      ConvertAll(semesterMap, order[..n]) + ConvertGroup(order[n], semesterMap[order[n]])
  }

  /** The rows of a semester with at least twelve cells, in order. */
  function Wide(rows: seq<seq<string>>): (ws: seq<seq<string>>)
    ensures forall k :: 0 <= k < |ws| ==> |ws[k]| >= 12
    decreases |rows|
  {
    if rows == [] then []
    else
      var n := |rows| - 1;
      Wide(rows[..n]) + (if |rows[n]| >= 12 then [rows[n]] else [])
  }

  /** There is exactly one subject per row of at least twelve cells, in
      the order of the rows. */
  lemma {:induction false} ConvertGroupOfWide(semesterLabel: string, rows: seq<seq<string>>)
    ensures |ConvertGroup(semesterLabel, rows)| == |Wide(rows)|
    ensures forall k :: 0 <= k < |Wide(rows)| ==>
      ConvertGroup(semesterLabel, rows)[k] == ConvertRow(semesterLabel, Wide(rows)[k])
    decreases |rows|
  {
    if rows != [] {
      var n := |rows| - 1;
      var init := ConvertGroup(semesterLabel, rows[..n]);
      var ws := Wide(rows[..n]);
      ConvertGroupOfWide(semesterLabel, rows[..n]);
      if |rows[n]| >= 12 {
        var last := ConvertRow(semesterLabel, rows[n]);
        assert ConvertGroup(semesterLabel, rows) == init + [last];
        assert Wide(rows) == ws + [rows[n]];
        forall k | 0 <= k < |ws| + 1
          ensures (init + [last])[k] == ConvertRow(semesterLabel, (ws + [rows[n]])[k])
        {
          if k < |ws| {
            assert (init + [last])[k] == init[k];
            assert (ws + [rows[n]])[k] == ws[k];
          }
        }
      } else {
        assert ConvertGroup(semesterLabel, rows) == init + [];
        assert Wide(rows) == ws + [];
      }
    }
  }

  /** A row with fewer than twelve cells gives no subject; the others
      give the subjects of `ConvertRow`. */
  lemma ConvertGroupSnoc(semesterLabel: string, rows: seq<seq<string>>, row: seq<string>)
    ensures ConvertGroup(semesterLabel, rows + [row]) ==
      ConvertGroup(semesterLabel, rows) + (if |row| >= 12 then [ConvertRow(semesterLabel, row)] else [])
  {
    assert (rows + [row])[..|rows|] == rows;
  }

  /** A subject of a semester comes from one of its wide rows, and every
      wide row gives one. */
  lemma {:induction false} ConvertGroupMembers(semesterLabel: string, rows: seq<seq<string>>, s: Subject)
    ensures s in ConvertGroup(semesterLabel, rows) <==>
      exists k :: 0 <= k < |rows| && |rows[k]| >= 12 && s == ConvertRow(semesterLabel, rows[k])
    decreases |rows|
  {
    if rows != [] {
      var n := |rows| - 1;
      var init := ConvertGroup(semesterLabel, rows[..n]);
      var last := if |rows[n]| >= 12 then [ConvertRow(semesterLabel, rows[n])] else [];
      ConvertGroupMembers(semesterLabel, rows[..n], s);
      assert ConvertGroup(semesterLabel, rows) == init + last;
      if s in init + last {
        if s in init {
          var k :| 0 <= k < n && |rows[..n][k]| >= 12 && s == ConvertRow(semesterLabel, rows[..n][k]);
          assert rows[..n][k] == rows[k];
        } else {
          assert |rows[n]| >= 12 && s == ConvertRow(semesterLabel, rows[n]);
        }
      }
      if k :| 0 <= k < |rows| && |rows[k]| >= 12 && s == ConvertRow(semesterLabel, rows[k]) {
        if k == n {
          assert s in last;
        } else {
          assert rows[..n][k] == rows[k];
          assert s in init;
        }
      }
    }
  }

  /** Every subject comes from a wide row of a visited semester and
      carries that semester's label; every wide row of a visited semester
      gives its subject. */
  lemma {:induction false} ConvertAllMembers(semesterMap: map<string, seq<seq<string>>>, order: seq<string>, s: Subject)
    requires forall k :: 0 <= k < |order| ==> order[k] in semesterMap
    ensures s in ConvertAll(semesterMap, order) <==>
      s.semesterLabel in order && s in ConvertGroup(s.semesterLabel, semesterMap[s.semesterLabel])
    decreases |order|
  {
    if order != [] {
      var n := |order| - 1;
      ConvertAllMembers(semesterMap, order[..n], s);
      ConvertGroupLabels(order[n], semesterMap[order[n]]);
      assert order == order[..n] + [order[n]];
      if s.semesterLabel == order[n] {
        ConvertGroupLabels(s.semesterLabel, semesterMap[s.semesterLabel]);
      }
    }
  }

  lemma {:induction false} ConvertGroupLabels(semesterLabel: string, rows: seq<seq<string>>)
    ensures forall s :: s in ConvertGroup(semesterLabel, rows) ==> s.semesterLabel == semesterLabel
    decreases |rows|
  {
    if rows != [] {
      ConvertGroupLabels(semesterLabel, rows[..|rows| - 1]);
    }
  }

  /** The inner loop of `convert_rows_to_subjects`: the subjects of one
      semester's rows, skipping rows of fewer than twelve cells. */
  method ConvertRows(semesterLabel: string, rows: seq<seq<string>>) returns (group: seq<Subject>)
    ensures group == ConvertGroup(semesterLabel, rows)
  {
    group := [];
    for j := 0 to |rows|
      invariant group == ConvertGroup(semesterLabel, rows[..j])
    {
      var row := rows[j];
      assert rows[..j + 1] == rows[..j] + [row];
      ConvertGroupSnoc(semesterLabel, rows[..j], row);
      if |row| < 12 {
        continue;
      }
      var courseCode := row[3];
      var creditHours := CreditHoursOf(row[5]);
      var total := ParseMarks(row[10]);
      var grade := row[11];
      var totalMarks := TotalMarksFor(creditHours);
      group := group + [Subject(semesterLabel, courseCode, creditHours, total, totalMarks, grade)];
    }
    assert rows[..|rows|] == rows;
  }

  /** `convert_rows_to_subjects`: the subjects of every semester, visiting
      the semesters in some order (the map's iteration order, which is not
      specified) and each semester's rows in order. */
  method ConvertRowsToSubjects(semesterMap: map<string, seq<seq<string>>>)
    returns (subjects: seq<Subject>, ghost order: seq<string>)
    ensures |order| == |semesterMap|
    ensures forall i, j :: 0 <= i < j < |order| ==> order[i] != order[j]
    ensures forall k :: 0 <= k < |order| ==> order[k] in semesterMap
    ensures forall l :: l in semesterMap ==> l in order
    ensures subjects == ConvertAll(semesterMap, order)
    ensures forall s :: s in subjects <==>
      s.semesterLabel in semesterMap && s in ConvertGroup(s.semesterLabel, semesterMap[s.semesterLabel])
  {
    subjects := [];
    order := [];
    var remaining := semesterMap.Keys;
    while remaining != {}
      invariant remaining <= semesterMap.Keys
      invariant forall k :: 0 <= k < |order| ==> order[k] in semesterMap && order[k] !in remaining
      invariant forall l :: l in semesterMap ==> l in remaining || l in order
      invariant |order| + |remaining| == |semesterMap|
      invariant forall i, j :: 0 <= i < j < |order| ==> order[i] != order[j]
      invariant subjects == ConvertAll(semesterMap, order)
      decreases |remaining|
    {
      var semesterLabel :| semesterLabel in remaining;
      var group := ConvertRows(semesterLabel, semesterMap[semesterLabel]);
      subjects := subjects + group;
      ghost var order' := order + [semesterLabel];
      assert order'[..|order|] == order;
      order := order';
      remaining := remaining - {semesterLabel};
    }
    forall s ensures s in subjects <==>
      s.semesterLabel in semesterMap && s in ConvertGroup(s.semesterLabel, semesterMap[s.semesterLabel])
    {
      ConvertAllMembers(semesterMap, order, s);
    }
  }
}
