/** The delimited pipeline: `ch,tm,om,semester` lines are parsed, rows with
    zero credit hours or zero total marks are dropped, the rest are grouped
    by their trimmed semester label, and each group's GPA is the
    credit-weighted mean of its quality points normalised to 4.0; the CGPA
    divides the points of every group by the credits of every group. */
module Delimited {
  import opened Wrappers
  import opened Text
  import opened Qpt
  import opened Averages

  /** One delimited record: credit hours, total marks, obtained marks. */
  datatype Subj = Subj(ch: nat, tm: nat, om: nat)

  /** A kept record with the trimmed label of the semester it belongs to. */
  datatype Row = Row(semester: string, subj: Subj)

  /** One line of the report: a semester and its GPA. */
  datatype SemesterLine = SemesterLine(semester: string, gpa: real)

  /** `x as u8` for a `u32`: the low eight bits. */
  function AsU8(x: nat): (r: nat)
    ensures r < 256
    ensures x < 256 ==> r == x
  {
    x % 256
  }

  /** The top quality point `calculate_gpa` divides by: fixed for the four
      scales it knows, and the quality point itself for any other. */
  function MaxQp(tm: nat, qp: real): real {
    match tm
    case 40 => 8.0
    case 60 => 12.0
    case 100 => 20.0
    case 120 => 24.0
    case _ => qp
  }

  /** The quality point a subject contributes, normalised to 4.0, or None
      when it has no credit hours or total marks or its key misses the
      table; keys are looked up with both numbers cut to eight bits. */
  function Normalized(s: Subj): (r: Option<real>)
    ensures r.Some? <==> s.ch != 0 && s.tm != 0 && InTable((AsU8(s.tm), AsU8(s.om)))
    ensures r.Some? ==> 0.0 < r.value <= 4.0
  {
    var key := (AsU8(s.tm), AsU8(s.om));
    LookupSpec(key);
    if s.ch == 0 || s.tm == 0 then None
    else match Lookup(key)
      case None => None
      case Some(qp) =>
        var top := MaxQp(s.tm, qp);
        assert 0.0 < qp <= top by {
          if s.tm in {40, 60, 120} { assert key.0 == s.tm; }
        }
        assert qp / top <= 1.0;
        Some(qp / top * 4.0)
  }

  /** The normalised points one subject adds: its normalised quality point
      times its credit hours, at most 4.0 per credit hour. */
  function Contribution(s: Subj): (p: real)
    ensures 0.0 <= p <= 4.0 * CountedCredits(s) as real
  {
    match Normalized(s)
    case Some(q) =>
      var c := s.ch as real;
      assert (4.0 - q) * c >= 0.0;
      q * c
    case None => 0.0
  }

  /** The credit hours one subject adds: its own when it contributes. */
  function CountedCredits(s: Subj): (c: nat)
    ensures c == if s.ch != 0 && s.tm != 0 && InTable((AsU8(s.tm), AsU8(s.om))) then s.ch else 0
  {
    if Normalized(s).Some? then s.ch else 0
  }

  /** Credit-weighted normalised points of the subjects that contribute. */
  function Points(ss: seq<Subj>): real
    decreases |ss|
  {
    if ss == [] then 0.0
    else Points(ss[..|ss| - 1]) + Contribution(ss[|ss| - 1])
  }

  /** Credit hours of the subjects that contribute. */
  function Credits(ss: seq<Subj>): nat
    decreases |ss|
  {
    if ss == [] then 0
    else Credits(ss[..|ss| - 1]) + CountedCredits(ss[|ss| - 1])
  }

  /** Every contributing subject brings at most 4.0 points per credit hour. */
  lemma {:induction false} PointsBounded(ss: seq<Subj>)
    ensures 0.0 <= Points(ss) <= 4.0 * Credits(ss) as real
    decreases |ss|
  {
    if ss != [] {
      PointsBounded(ss[..|ss| - 1]);
    }
  }

  /** The GPA of a group of subjects. */
  function Gpa(ss: seq<Subj>): (g: real)
    ensures 0.0 <= g <= 4.0
  {
    PointsBounded(ss);
    RatioBounded(Points(ss), Credits(ss) as real, 4.0);
    Ratio(Points(ss), Credits(ss) as real)
  }

  /** Points and credits add up over concatenation. */
  lemma {:induction false} TotalsAppend(a: seq<Subj>, b: seq<Subj>)
    ensures Points(a + b) == Points(a) + Points(b)
    ensures Credits(a + b) == Credits(a) + Credits(b)
    decreases |b|
  {
    if b == [] {
      assert a + b == a;
    } else {
      var n := |b| - 1;
      assert (a + b)[..|a + b| - 1] == a + b[..n];
      assert (a + b)[|a + b| - 1] == b[n];
      TotalsAppend(a, b[..n]);
    }
  }

  /** A subject that does not contribute changes neither sum, wherever it
      stands: leaving it out gives the same GPA. */
  lemma ExcludedSubjectChangesNothing(a: seq<Subj>, s: Subj, b: seq<Subj>)
    requires Normalized(s).None?
    ensures Points(a + [s] + b) == Points(a + b)
    ensures Credits(a + [s] + b) == Credits(a + b)
    ensures Gpa(a + [s] + b) == Gpa(a + b)
  {
    TotalsAppend(a + [s], b);
    TotalsAppend(a, [s]);
    TotalsAppend(a, b);
    assert [s][..0] == [];
  }

  /** A record on a scale the division does not know (neither 40, 60, 100
      nor 120) that still hits the table through its eight-bit key is
      divided by its own quality point: it always counts as a full 4.0. */
  lemma UnknownScaleIsFull(s: Subj)
    requires s.tm !in {40, 60, 100, 120} && Normalized(s).Some?
    ensures Normalized(s).value == 4.0
  {
    var key := (AsU8(s.tm), AsU8(s.om));
    LookupSpec(key);
    var qp := Lookup(key).value;
    assert MaxQp(s.tm, qp) == qp && qp / qp == 1.0;
    assert Normalized(s) == Some(qp / qp * 4.0);
  }

  /** The table has no scale-100 entries, so a 100-mark record never
      contributes, although the division knows its top of 20. */
  lemma Scale100NeverCounts(ch: nat, om: nat)
    ensures Normalized(Subj(ch, 100, om)) == None
  {
    LookupSpec((100, AsU8(om)));
  }

  /** Two 3-credit 60-mark subjects with 45 and 50 marks: 11/12 and 12/12
      of 4.0 each, so the GPA is (11 + 12) / 6. */
  lemma TwoSubjectExample()
    ensures Gpa([Subj(3, 60, 45), Subj(3, 60, 50)]) == 23.0 / 6.0
  {
    var ss := [Subj(3, 60, 45), Subj(3, 60, 50)];
    Lookup60(45);
    Lookup60(50);
    assert Qps60[21].1 == 11.0 && Qps60[26].1 == 12.0;
    assert Normalized(ss[0]) == Some(11.0 / 12.0 * 4.0);
    assert Normalized(ss[1]) == Some(12.0 / 12.0 * 4.0);
    assert ss[..1] == [ss[0]] && [ss[0]][..0] == [];
    assert Points(ss) == 23.0 && Credits(ss) == 6;
  }

  /** Marks are cut to eight bits before the lookup: 316 total marks read as
      60, but the division uses 316, which it does not know. */
  lemma EightBitKeyExample()
    ensures Normalized(Subj(3, 316, 45)) == Some(4.0)
  {
    Lookup60(45);
    UnknownScaleIsFull(Subj(3, 316, 45));
  }

  /** What a map equal to the table says about one record with credit
      hours and total marks: its normalised point, or nothing on a miss. */
  lemma TableHit(s: Subj, qpt: map<Key, real>)
    requires IsTable(qpt) && s.ch != 0 && s.tm != 0
    ensures var key := (AsU8(s.tm), AsU8(s.om));
      && (key in qpt ==> 0.0 < qpt[key] && 0.0 < MaxQp(s.tm, qpt[key]))
      && (key in qpt ==> Contribution(s) == (qpt[key] / MaxQp(s.tm, qpt[key])) * 4.0 * s.ch as real)
      && (key in qpt ==> CountedCredits(s) == s.ch)
      && (key !in qpt ==> Contribution(s) == 0.0 && CountedCredits(s) == 0)
  {
    var key := (AsU8(s.tm), AsU8(s.om));
    assert Get(qpt, key) == Lookup(key);
    LookupSpec(key);
  }

  /** A key the table has carries a positive quality point, so the top it
      is divided by is positive too. */
  lemma HitTop(qpt: map<Key, real>, key: Key, tm: nat)
    requires IsTable(qpt) && key in qpt
    ensures 0.0 < qpt[key] && 0.0 < MaxQp(tm, qpt[key])
  {
    assert Get(qpt, key) == Lookup(key);
    LookupSpec(key);
  }

  /** The normalised points of the subjects that hit the map `qpt`,
      computed with the map as `calculate_gpa` does. */
  ghost function MapPoints(ss: seq<Subj>, qpt: map<Key, real>): real
    requires IsTable(qpt)
    decreases |ss|
  {
    if ss == [] then 0.0
    else
      var s := ss[|ss| - 1];
      var key := (s.tm % 256, s.om % 256);
      MapPoints(ss[..|ss| - 1], qpt)
      + if s.ch == 0 || s.tm == 0 || key !in qpt then 0.0
        else HitTop(qpt, key, s.tm); (qpt[key] / MaxQp(s.tm, qpt[key])) * 4.0 * s.ch as real
  }

  /** The credit hours of the subjects that hit the map `qpt`. */
  ghost function MapCredits(ss: seq<Subj>, qpt: map<Key, real>): nat
    decreases |ss|
  {
    if ss == [] then 0
    else
      var s := ss[|ss| - 1];
      var key := (s.tm % 256, s.om % 256);
      MapCredits(ss[..|ss| - 1], qpt)
      + if s.ch == 0 || s.tm == 0 || key !in qpt then 0 else s.ch
  }

  /** With the table, the sums over the map are the sums the definition
      gives. */
  lemma {:induction false} MapTotals(ss: seq<Subj>, qpt: map<Key, real>)
    requires IsTable(qpt)
    ensures MapPoints(ss, qpt) == Points(ss) && MapCredits(ss, qpt) == Credits(ss)
    decreases |ss|
  {
    if ss != [] {
      var s := ss[|ss| - 1];
      MapTotals(ss[..|ss| - 1], qpt);
      if s.ch != 0 && s.tm != 0 {
        TableHit(s, qpt);
      }
    }
  }

  /** `calculate_gpa`: one loop accumulating normalised points and credit
      hours over the subjects whose key hits the table. */
  method CalculateGpa(subjects: seq<Subj>, qpt: map<Key, real>)
    returns (gpa: real, totalPoints: real, totalCredits: nat)
    requires IsTable(qpt)
    ensures totalPoints == Points(subjects) && totalCredits == Credits(subjects)
    ensures gpa == Ratio(totalPoints, totalCredits as real)
    ensures 0.0 <= gpa <= 4.0
  {
    totalPoints, totalCredits := 0.0, 0;
    for i := 0 to |subjects|
      invariant totalPoints == MapPoints(subjects[..i], qpt)
      invariant totalCredits == MapCredits(subjects[..i], qpt)
    {
      var s := subjects[i];
      assert subjects[..i + 1][..i] == subjects[..i];
      if s.ch == 0 || s.tm == 0 {
        continue;
      }
      var key := (s.tm % 256, s.om % 256);
      if key in qpt {
        HitTop(qpt, key, s.tm);
        var qp := qpt[key];
        var maxQp := MaxQp(s.tm, qp);
        var normalizedQp := (qp / maxQp) * 4.0;
        totalPoints := totalPoints + normalizedQp * s.ch as real;
        totalCredits := totalCredits + s.ch;
      }
    }
    assert subjects[..|subjects|] == subjects;
    MapTotals(subjects, qpt);
    gpa := if totalCredits == 0 then 0.0 else totalPoints / totalCredits as real;
    assert gpa == Gpa(subjects);
  }

  // ------------------------------------------------------------ parsing

  /** `field.trim().parse::<u32>().unwrap_or(0)`. */
  function ParseField(field: string): (n: nat)
    ensures n <= U32Max
    ensures ParseUnsigned(Trim(field), U32Max).None? ==> n == 0
  {
    ParseUnsigned(Trim(field), U32Max).GetOr(0)
  }

  /** The row one line contributes: None for a line without exactly four
      comma-separated fields and for a record with zero credit hours or
      zero total marks. */
  function ParseLine(line: string): (r: Option<Row>)
    ensures r.Some? ==> r.value.subj.ch != 0 && r.value.subj.tm != 0
  {
    var parts := Split(line, ',');
    if |parts| != 4 then None
    else
      var ch := ParseField(parts[0]);
      var tm := ParseField(parts[1]);
      var om := ParseField(parts[2]);
      if ch == 0 || tm == 0 then None
      else Some(Row(Trim(parts[3]), Subj(ch, tm, om)))
  }

  /** The lines after the first, which is always skipped as a header. */
  function Body(csv: string): seq<string> {
    var all := Lines(csv);
    if all == [] then [] else all[1..]
  }

  /** What each line parses to. */
  function Parsed(lines: seq<string>): (ps: seq<Option<Row>>)
    ensures |ps| == |lines|
  {
    seq(|lines|, i requires 0 <= i < |lines| => ParseLine(lines[i]))
  }

  /** The present values, in order. */
  function Present(ps: seq<Option<Row>>): (rows: seq<Row>)
    ensures |rows| <= |ps|
    decreases |ps|
  {
    if ps == [] then []
    else
      var n := |ps| - 1;
      Present(ps[..n]) + match ps[n] case Some(r) => [r] case None => []
  }

  /** The rows the lines contribute, in input order. */
  function KeptRows(lines: seq<string>): (rows: seq<Row>) {
    Present(Parsed(lines))
  }

  /** The semester labels of some rows. */
  function LabelsOf(rows: seq<Row>): set<string> {
    set i | 0 <= i < |rows| :: rows[i].semester
  }

  /** The records of the rows whose label is in `labels`, in input order. */
  function SubjsIn(rows: seq<Row>, labels: set<string>): seq<Subj>
    decreases |rows|
  {
    if rows == [] then []
    else
      var r := rows[|rows| - 1];
      SubjsIn(rows[..|rows| - 1], labels) + if r.semester in labels then [r.subj] else []
  }

  /** The semester groups: each label present, with its records in order. */
  function Groups(rows: seq<Row>): map<string, seq<Subj>> {
    map l | l in LabelsOf(rows) :: SubjsIn(rows, {l})
  }

  /** Every record of every kept row. */
  function AllSubjs(rows: seq<Row>): seq<Subj> {
    SubjsIn(rows, LabelsOf(rows))
  }

  // ------------------------------------------------- parsing properties

  /** A line of four comma-free fields parses to the trimmed label and the
      three numbers, unless credit hours or total marks are zero. */
  lemma ParseLineOfFields(a: string, b: string, c: string, d: string)
    requires ',' !in a && ',' !in b && ',' !in c && ',' !in d
    ensures ParseLine(Join([a, b, c, d], ',')) ==
      if ParseField(a) == 0 || ParseField(b) == 0 then None
      else Some(Row(Trim(d), Subj(ParseField(a), ParseField(b), ParseField(c))))
  {
    SplitJoin([a, b, c, d], ',');
  }

  /** A line with any other number of fields contributes nothing. */
  lemma ParseLineWrongFieldCount(fields: seq<string>)
    requires |fields| >= 1 && |fields| != 4
    requires forall k :: 0 <= k < |fields| ==> ',' !in fields[k]
    ensures ParseLine(Join(fields, ',')) == None
  {
    SplitJoin(fields, ',');
  }

  /** Numerals that fit in a `u32` read back: writing a record out as
      `ch,tm,om,semester` and parsing the line gives the record back. */
  lemma ParseLineOfRecord(ch: nat, tm: nat, om: nat, semester: string)
    requires 0 < ch <= U32Max && 0 < tm <= U32Max && om <= U32Max
    requires ',' !in semester
    ensures ParseLine(Join([NatToString(ch), NatToString(tm), NatToString(om), semester], ','))
      == Some(Row(Trim(semester), Subj(ch, tm, om)))
  {
    forall n: nat ensures Trim(NatToString(n)) == NatToString(n) && ',' !in NatToString(n) {
      var s := NatToString(n);
      assert !IsWhitespace(s[0]) && !IsWhitespace(s[|s| - 1]);
      TrimTrimmed(s);
    }
    ParseUnsignedOfNatToString(ch, U32Max);
    ParseUnsignedOfNatToString(tm, U32Max);
    ParseUnsignedOfNatToString(om, U32Max);
    ParseLineOfFields(NatToString(ch), NatToString(tm), NatToString(om), semester);
  }

  /** The first line never contributes: whatever it holds, the rows are
      those of the lines after it. */
  lemma FirstLineSkipped(header: string, rest: string)
    requires '\n' !in header
    ensures Body(header + "\n" + rest) == Lines(rest)
  {
    LinesCons(header, rest);
  }

  /** Kept rows are exactly the rows of the lines that parse, in order, and
      none has zero credit hours or zero total marks. */
  lemma KeptRowsSpec(lines: seq<string>)
    ensures |KeptRows(lines)| <= |lines|
    ensures forall r :: r in KeptRows(lines) ==> r.subj.ch != 0 && r.subj.tm != 0
    ensures forall i :: 0 <= i < |lines| && ParseLine(lines[i]).Some? ==> ParseLine(lines[i]).value in KeptRows(lines)
    ensures forall r :: r in KeptRows(lines) ==> exists i :: 0 <= i < |lines| && ParseLine(lines[i]) == Some(r)
  {
    var ps := Parsed(lines);
    forall i | 0 <= i < |lines| && ParseLine(lines[i]).Some?
      ensures ParseLine(lines[i]).value in KeptRows(lines)
    {
      PresentHas(ps, i);
    }
    forall r | r in KeptRows(lines)
      ensures exists i :: 0 <= i < |lines| && ParseLine(lines[i]) == Some(r)
    {
      PresentFrom(ps, r);
    }
  }

  lemma {:induction false} PresentHas(ps: seq<Option<Row>>, i: nat)
    requires i < |ps| && ps[i].Some?
    ensures ps[i].value in Present(ps)
    decreases |ps|
  {
    var n := |ps| - 1;
    if i < n {
      PresentHas(ps[..n], i);
      assert ps[..n][i] == ps[i];
    }
  }

  lemma {:induction false} PresentFrom(ps: seq<Option<Row>>, r: Row)
    requires r in Present(ps)
    ensures exists i :: 0 <= i < |ps| && ps[i] == Some(r)
    decreases |ps|
  {
    var n := |ps| - 1;
    if r in Present(ps[..n]) {
      PresentFrom(ps[..n], r);
      var i :| 0 <= i < n && ps[..n][i] == Some(r);
      assert ps[i] == ps[..n][i];
    }
  }

  // ------------------------------------------------ grouping properties

  /** Records of a set of labels split into those of one more label. */
  lemma {:induction false} SubjsInAddLabel(rows: seq<Row>, labels: set<string>, l: string)
    requires l !in labels
    ensures Points(SubjsIn(rows, labels + {l})) == Points(SubjsIn(rows, labels)) + Points(SubjsIn(rows, {l}))
    ensures Credits(SubjsIn(rows, labels + {l})) == Credits(SubjsIn(rows, labels)) + Credits(SubjsIn(rows, {l}))
    decreases |rows|
  {
    if rows != [] {
      var n := |rows| - 1;
      var r := rows[n];
      SubjsInAddLabel(rows[..n], labels, l);
      var tAll := if r.semester in labels + {l} then [r.subj] else [];
      var tS := if r.semester in labels then [r.subj] else [];
      var tL := if r.semester in {l} then [r.subj] else [];
      TotalsAppend(SubjsIn(rows[..n], labels + {l}), tAll);
      TotalsAppend(SubjsIn(rows[..n], labels), tS);
      TotalsAppend(SubjsIn(rows[..n], {l}), tL);
    }
  }

  /** A record of a row with label `l` is in the group of `l`; no label
      outside the rows has a group. */
  lemma {:induction false} GroupsSpec(rows: seq<Row>)
    ensures forall i :: 0 <= i < |rows| ==> rows[i].semester in Groups(rows) && rows[i].subj in Groups(rows)[rows[i].semester]
    ensures forall l :: l in Groups(rows) ==> exists i :: 0 <= i < |rows| && rows[i].semester == l
    ensures forall l :: l in Groups(rows) ==> forall s :: s in Groups(rows)[l] ==> exists i :: 0 <= i < |rows| && rows[i] == Row(l, s)
  {
    forall i | 0 <= i < |rows| ensures rows[i].subj in SubjsIn(rows, {rows[i].semester}) {
      SubjsInHas(rows, {rows[i].semester}, i);
    }
    forall l, s | l in Groups(rows) && s in Groups(rows)[l]
      ensures exists i :: 0 <= i < |rows| && rows[i] == Row(l, s)
    {
      SubjsInFrom(rows, {l}, s);
    }
  }

  lemma {:induction false} SubjsInHas(rows: seq<Row>, labels: set<string>, i: nat)
    requires i < |rows| && rows[i].semester in labels
    ensures rows[i].subj in SubjsIn(rows, labels)
    decreases |rows|
  {
    var n := |rows| - 1;
    if i < n {
      SubjsInHas(rows[..n], labels, i);
    }
  }

  lemma {:induction false} SubjsInFrom(rows: seq<Row>, labels: set<string>, s: Subj)
    requires s in SubjsIn(rows, labels)
    ensures exists i :: 0 <= i < |rows| && rows[i].semester in labels && rows[i].subj == s
    decreases |rows|
  {
    var n := |rows| - 1;
    if s in SubjsIn(rows[..n], labels) {
      SubjsInFrom(rows[..n], labels, s);
      var i :| 0 <= i < n && rows[..n][i].semester in labels && rows[..n][i].subj == s;
      assert rows[i] == rows[..n][i];
    }
  }

  // ---------------------------------------------------- the whole command

  predicate Reported(report: seq<SemesterLine>, l: string) {
    exists i :: 0 <= i < |report| && report[i].semester == l
  }

  /** The first loop of `process_multiseme_csv_data`: every line is split
      on commas and parsed, and each kept record is appended to the group of
      its trimmed label. */
  method GroupLines(lines: seq<string>) returns (semesterMap: map<string, seq<Subj>>)
    ensures semesterMap == Groups(KeptRows(lines))
  {
    semesterMap := map[];
    ghost var kept: seq<Row> := [];
    ghost var ps := Parsed(lines);
    for i := 0 to |lines|
      invariant kept == Present(ps[..i])
      invariant semesterMap == Groups(kept)
    {
      assert ps[..i + 1][..i] == ps[..i] && ps[i] == ParseLine(lines[i]);
      var parts := Split(lines[i], ',');
      if |parts| != 4 {
        assert ParseLine(lines[i]) == None;
        continue;
      }
      var ch := ParseField(parts[0]);
      var tm := ParseField(parts[1]);
      var om := ParseField(parts[2]);
      var semester := Trim(parts[3]);
      if ch == 0 || tm == 0 {
        assert ParseLine(lines[i]) == None;
        continue;
      }
      var row := Row(semester, Subj(ch, tm, om));
      assert ParseLine(lines[i]) == Some(row);
      var group := if semester in semesterMap then semesterMap[semester] else [];
      semesterMap := semesterMap[semester := group + [row.subj]];
      GroupsSnoc(kept, row);
      kept := kept + [row];
    }
    assert ps[..|lines|] == ps;
  }

  /** `process_multiseme_csv_data`: groups the kept rows by label, reports
      each group's GPA (in whatever order the groups are visited), and
      divides the points of all groups by their credits for the CGPA. */
  method ProcessMultisemeCsvData(csv: string) returns (report: seq<SemesterLine>, cgpa: real)
    ensures var rows := KeptRows(Body(csv));
      && Distinct(report)
      && (forall l :: Reported(report, l) <==> l in LabelsOf(rows))
      && (forall i :: 0 <= i < |report| ==> report[i].gpa == Gpa(Groups(rows)[report[i].semester]))
      && cgpa == Ratio(Points(AllSubjs(rows)), Credits(AllSubjs(rows)) as real)
    ensures 0.0 <= cgpa <= 4.0
  {
    var qpt := BuildQpt();
    var lines := Body(csv);
    var semesterMap := GroupLines(lines);
    report, cgpa := ReportSemesters(KeptRows(lines), semesterMap, qpt);
  }

  /** The second loop of `process_multiseme_csv_data` and the CGPA: each
      group's GPA is reported, and its points and credits are added to the
      running totals. */
  method ReportSemesters(ghost kept: seq<Row>, semesterMap: map<string, seq<Subj>>, qpt: map<Key, real>)
    returns (report: seq<SemesterLine>, cgpa: real)
    requires semesterMap == Groups(kept) && IsTable(qpt)
    ensures Distinct(report)
    ensures forall l :: Reported(report, l) <==> l in LabelsOf(kept)
    ensures forall i :: 0 <= i < |report| ==>
      report[i].semester in Groups(kept) && report[i].gpa == Gpa(Groups(kept)[report[i].semester])
    ensures cgpa == Ratio(Points(AllSubjs(kept)), Credits(AllSubjs(kept)) as real)
    ensures 0.0 <= cgpa <= 4.0
  {
    var totalQp := 0.0;
    var totalCh := 0;
    report := [];
    var remaining := semesterMap.Keys;
    ghost var done: set<string> := {};
    SubjsInNoLabels(kept);
    KeysOfGroups(kept);
    while remaining != {}
      invariant remaining !! done && remaining + done == semesterMap.Keys
      invariant totalQp == Points(SubjsIn(kept, done)) && totalCh == Credits(SubjsIn(kept, done))
      invariant ReportsGroups(report, semesterMap, done)
      decreases remaining
    {
      var semester :| semester in remaining;
      assert semesterMap[semester] == SubjsIn(kept, {semester});
      var gpa, qp, ch := CalculateGpa(semesterMap[semester], qpt);
      AddGroupTotals(kept, done, semester);
      totalQp := totalQp + qp;
      totalCh := totalCh + ch;
      ReportsSnoc(report, semesterMap, done, semester, gpa);
      report := report + [SemesterLine(semester, gpa)];
      remaining := remaining - {semester};
      done := done + {semester};
    }
    AllLabelsDone(kept, done, totalQp, totalCh);
    cgpa := if totalCh == 0 then 0.0 else totalQp / totalCh as real;
  }

  lemma AllLabelsDone(kept: seq<Row>, done: set<string>, totalQp: real, totalCh: nat)
    requires done == LabelsOf(kept)
    requires totalQp == Points(SubjsIn(kept, done)) && totalCh == Credits(SubjsIn(kept, done))
    ensures totalQp == Points(AllSubjs(kept)) && totalCh == Credits(AllSubjs(kept))
    ensures 0.0 <= Ratio(totalQp, totalCh as real) <= 4.0
  {
    PointsBounded(AllSubjs(kept));
    RatioBounded(totalQp, totalCh as real, 4.0);
  }

  lemma KeysOfGroups(kept: seq<Row>)
    ensures Groups(kept).Keys == LabelsOf(kept)
  {
  }

  lemma AddGroupTotals(kept: seq<Row>, done: set<string>, semester: string)
    requires semester !in done
    ensures Points(SubjsIn(kept, done)) + Points(SubjsIn(kept, {semester}))
            == Points(SubjsIn(kept, done + {semester}))
    ensures Credits(SubjsIn(kept, done)) + Credits(SubjsIn(kept, {semester}))
            == Credits(SubjsIn(kept, done + {semester}))
  {
    SubjsInAddLabel(kept, done, semester);
  }

  /** The report covers exactly the groups named in `done`, once each, with
      each group's GPA. */
  ghost predicate ReportsGroups(report: seq<SemesterLine>, groups: map<string, seq<Subj>>, done: set<string>) {
    && Distinct(report)
    && (forall l :: Reported(report, l) <==> l in done)
    && (forall i :: 0 <= i < |report| ==>
          report[i].semester in groups && report[i].gpa == Gpa(groups[report[i].semester]))
  }

  lemma ReportsSnoc(report: seq<SemesterLine>, groups: map<string, seq<Subj>>, done: set<string>, l: string, gpa: real)
    requires ReportsGroups(report, groups, done)
    requires l !in done && l in groups && gpa == Gpa(groups[l])
    ensures ReportsGroups(report + [SemesterLine(l, gpa)], groups, done + {l})
  {
    ReportedSnoc(report, SemesterLine(l, gpa));
    DistinctSnoc(report, SemesterLine(l, gpa));
  }

  /** No semester is reported twice. */
  predicate Distinct(report: seq<SemesterLine>) {
    forall i, j :: 0 <= i < j < |report| ==> report[i].semester != report[j].semester
  }

  lemma DistinctSnoc(report: seq<SemesterLine>, line: SemesterLine)
    requires Distinct(report) && !Reported(report, line.semester)
    ensures Distinct(report + [line])
  {
    var report' := report + [line];
    forall i, j | 0 <= i < j < |report'| ensures report'[i].semester != report'[j].semester {
      assert report'[i] == report[i];
      if j < |report| { assert report'[j] == report[j]; }
    }
  }

  /** Reporting one more line reports its semester besides the others. */
  lemma ReportedSnoc(report: seq<SemesterLine>, line: SemesterLine)
    ensures forall l :: Reported(report + [line], l) <==> Reported(report, l) || l == line.semester
  {
    var report' := report + [line];
    forall l ensures Reported(report', l) <==> Reported(report, l) || l == line.semester {
      if Reported(report', l) {
        var i :| 0 <= i < |report'| && report'[i].semester == l;
        if i < |report| { assert report[i] == report'[i]; }
      }
      if Reported(report, l) {
        var i :| 0 <= i < |report| && report[i].semester == l;
        assert report'[i] == report[i];
      }
      assert report'[|report|] == line;
    }
  }

  /** Adding a row to the end adds its record to the end of its group. */
  lemma GroupsSnoc(rows: seq<Row>, r: Row)
    ensures Groups(rows + [r]) == Groups(rows)[r.semester := (if r.semester in Groups(rows) then Groups(rows)[r.semester] else []) + [r.subj]]
  {
    var rows' := rows + [r];
    LabelsSnoc(rows, r);
    if r.semester !in LabelsOf(rows) {
      SubjsInNone(rows, r.semester);
    }
    var before := Groups(rows);
    var rhs := before[r.semester := (if r.semester in before then before[r.semester] else []) + [r.subj]];
    assert rhs.Keys == Groups(rows').Keys;
    forall l | l in rhs ensures Groups(rows')[l] == rhs[l] {
      SubjsInSnoc(rows, r, {l});
    }
  }

  lemma LabelsSnoc(rows: seq<Row>, r: Row)
    ensures LabelsOf(rows + [r]) == LabelsOf(rows) + {r.semester}
  {
    var rows' := rows + [r];
    forall l ensures l in LabelsOf(rows') <==> l in LabelsOf(rows) + {r.semester} {
      if l in LabelsOf(rows') {
        var i :| 0 <= i < |rows'| && rows'[i].semester == l;
        if i < |rows| { assert rows[i] == rows'[i]; }
      }
      if l in LabelsOf(rows) {
        var i :| 0 <= i < |rows| && rows[i].semester == l;
        assert rows'[i] == rows[i];
      }
      assert rows'[|rows|] == r;
    }
  }

  lemma SubjsInSnoc(rows: seq<Row>, r: Row, labels: set<string>)
    ensures SubjsIn(rows + [r], labels) == SubjsIn(rows, labels) + if r.semester in labels then [r.subj] else []
  {
    assert (rows + [r])[..|rows|] == rows;
  }

  lemma {:induction false} SubjsInNoLabels(rows: seq<Row>)
    ensures SubjsIn(rows, {}) == []
    decreases |rows|
  {
    if rows != [] {
      SubjsInNoLabels(rows[..|rows| - 1]);
    }
  }

  lemma {:induction false} SubjsInNone(rows: seq<Row>, l: string)
    requires l !in LabelsOf(rows)
    ensures SubjsIn(rows, {l}) == []
    decreases |rows|
  {
    if rows != [] {
      var n := |rows| - 1;
      assert LabelsOf(rows[..n]) <= LabelsOf(rows);
      SubjsInNone(rows[..n], l);
    }
  }
}
