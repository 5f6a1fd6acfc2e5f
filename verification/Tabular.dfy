/** The second half of the result-table pipeline: the kept attempts are
    grouped by semester, the semesters are put in calendar order, and each
    one's grade point average is its quality points over its credit hours,
    with the cumulative average taken over all of them together. */
module Tabular {
  import opened Wrappers
  import opened Text
  import opened Qpt
  import opened Averages
  import opened TableRows
  import opened Semesters

  datatype SemesterResult = SemesterResult(semesterLabel: string, gpa: real)

  datatype FinalResult = FinalResult(semesters: seq<SemesterResult>, cgpa: real)

  predicate Distinct<T(==)>(s: seq<T>) {
    forall i, j :: 0 <= i < j < |s| ==> s[i] != s[j]
  }

  // ------------------------------------------------ one subject's share

  /** A float-to-`u8` cast: values above 255 saturate. */
  function Sat8(x: nat): nat {
    if x > 255 then 255 else x
  }

  /** The table key of a subject: its scale and its rounded marks. */
  function MarksKey(s: Subject): Key {
    (s.totalMarks, Sat8(s.obtainedMarks))
  }

  /** The quality points a subject adds: the table's value for its key, or
      nothing when the table has no entry for it. */
  function HitQp(qpt: map<Key, real>, s: Subject): real {
    var key := MarksKey(s);
    if key in qpt then qpt[key] else 0.0
  }

  /** The credit hours a subject adds: only those of a subject the table
      has an entry for. */
  function HitCh(qpt: map<Key, real>, s: Subject): nat {
    if MarksKey(s) in qpt then s.creditHours else 0
  }

  /** The two shares as weights on subjects. */
  function Qp(qpt: map<Key, real>): Subject -> real {
    s => HitQp(qpt, s)
  }

  function Ch(qpt: map<Key, real>): Subject -> real {
    s => HitCh(qpt, s) as real
  }

  /** The total weight of a list of subjects. */
  ghost function SeqSum(subs: seq<Subject>, w: Subject -> real): real
    decreases |subs|
  {
    if subs == [] then 0.0 else SeqSum(subs[..|subs| - 1], w) + w(subs[|subs| - 1])
  }

  /** A weight on subjects carried over to the courses of `latest`, through
      each course's kept attempt (zero for a course with none). */
  ghost function Lift(latest: map<CourseKey, Subject>, w: Subject -> real): CourseKey -> real {
    k => if k in latest then w(latest[k]) else 0.0
  }

  // ------------------------------------------- the reference definitions

  /** The courses among `ks` whose kept attempt belongs to semester `l`. */
  ghost function Under(latest: map<CourseKey, Subject>, ks: set<CourseKey>, l: string): set<CourseKey> {
    set k | k in ks && k in latest && latest[k].semesterLabel == l
  }

  /** The semesters of the kept attempts of the courses among `ks`. */
  ghost function LabelsOf(latest: map<CourseKey, Subject>, ks: set<CourseKey>): set<string> {
    set k | k in ks && k in latest :: latest[k].semesterLabel
  }

  /** The semesters a result reports: those of the kept attempts. */
  ghost function SemesterLabels(latest: map<CourseKey, Subject>): set<string> {
    LabelsOf(latest, latest.Keys)
  }

  /** A semester's average: the quality points of its kept attempts over
      their credit hours, counting only attempts the table has an entry for. */
  ghost function SemesterGpa(qpt: map<Key, real>, latest: map<CourseKey, Subject>, l: string): real {
    var ks := Under(latest, latest.Keys, l);
    Ratio(SetSum(ks, Lift(latest, Qp(qpt))), SetSum(ks, Lift(latest, Ch(qpt))))
  }

  /** The cumulative average: the same ratio over every kept attempt. */
  ghost function Cgpa(qpt: map<Key, real>, latest: map<CourseKey, Subject>): real {
    Ratio(SetSum(latest.Keys, Lift(latest, Qp(qpt))), SetSum(latest.Keys, Lift(latest, Ch(qpt))))
  }

  /** What `calculate_gpa_cgpa` promises about its result for the kept
      attempts `latest`: one entry per semester, in calendar order, each
      with that semester's average, and the cumulative average. */
  ghost predicate Summarises(result: FinalResult, qpt: map<Key, real>, latest: map<CourseKey, Subject>) {
    var sems := result.semesters;
    (forall i, j :: 0 <= i < j < |sems| ==> sems[i].semesterLabel != sems[j].semesterLabel)
    && (forall i :: 0 <= i < |sems| ==> sems[i].semesterLabel in SemesterLabels(latest))
    && (forall l :: l in SemesterLabels(latest) ==> exists i :: 0 <= i < |sems| && sems[i].semesterLabel == l)
    && (forall i, j :: 0 <= i < j < |sems| ==> KeyLe(SortKey(sems[i].semesterLabel), SortKey(sems[j].semesterLabel)))
    && (forall i :: 0 <= i < |sems| ==> sems[i].gpa == SemesterGpa(qpt, latest, sems[i].semesterLabel))
    && result.cgpa == Cgpa(qpt, latest)
  }

  // -------------------------------------------------------- grouping

  /** `group` lists the kept attempts of semester `l` among the courses
      `ks`, each once: `keys` names the course of each entry. */
  ghost predicate Lists(latest: map<CourseKey, Subject>, ks: set<CourseKey>, l: string,
                        group: seq<Subject>, keys: seq<CourseKey>) {
    Distinct(keys) && |group| == |keys|
    && (forall i :: 0 <= i < |keys| ==> keys[i] in latest && group[i] == latest[keys[i]])
    && (forall k :: k in keys <==> k in Under(latest, ks, l))
  }

  /** Adding a course of semester `l` to `ks` appends its kept attempt to
      `l`'s list. */
  lemma {:induction false} ListsAdd(latest: map<CourseKey, Subject>, ks: set<CourseKey>, key: CourseKey,
                 group: seq<Subject>, keys: seq<CourseKey>)
    requires key in latest && key !in ks
    requires Lists(latest, ks, latest[key].semesterLabel, group, keys)
    ensures Lists(latest, ks + {key}, latest[key].semesterLabel, group + [latest[key]], keys + [key])
  {
    assert key !in keys;
  }

  /** Adding a course of another semester leaves `l`'s list as it is. */
  lemma {:induction false} ListsOther(latest: map<CourseKey, Subject>, ks: set<CourseKey>, key: CourseKey, l: string,
                   group: seq<Subject>, keys: seq<CourseKey>)
    requires key in latest && latest[key].semesterLabel != l
    requires Lists(latest, ks, l, group, keys)
    ensures Lists(latest, ks + {key}, l, group, keys)
  {
  }

  /** A semester none of the courses `ks` belongs to has the empty list. */
  lemma {:induction false} ListsEmpty(latest: map<CourseKey, Subject>, ks: set<CourseKey>, l: string)
    requires l !in LabelsOf(latest, ks)
    ensures Lists(latest, ks, l, [], [])
  {
    forall k | k in ks && k in latest
      ensures latest[k].semesterLabel in LabelsOf(latest, ks)
    {
    }
  }

  /** The grouping loop's state after the courses `ks`. */
  ghost predicate GroupedBy(latest: map<CourseKey, Subject>, ks: set<CourseKey>,
                            m: map<string, seq<Subject>>, keysOf: map<string, seq<CourseKey>>) {
    m.Keys == LabelsOf(latest, ks) && keysOf.Keys == m.Keys
    && forall l :: l in m ==> Lists(latest, ks, l, m[l], keysOf[l])
  }

  /** One step of the grouping loop. */
  lemma {:induction false} GroupStep(latest: map<CourseKey, Subject>, ks: set<CourseKey>, key: CourseKey,
                  m: map<string, seq<Subject>>, keysOf: map<string, seq<CourseKey>>)
    requires key in latest && key !in ks
    requires GroupedBy(latest, ks, m, keysOf)
    ensures var l := latest[key].semesterLabel;
            GroupedBy(latest, ks + {key},
                      m[l := (if l in m then m[l] else []) + [latest[key]]],
                      keysOf[l := (if l in keysOf then keysOf[l] else []) + [key]])
  {
    var l := latest[key].semesterLabel;
    var group := if l in m then m[l] else [];
    var keys := if l in keysOf then keysOf[l] else [];
    assert LabelsOf(latest, ks + {key}) == LabelsOf(latest, ks) + {l};
    if l !in m {
      ListsEmpty(latest, ks, l);
    }
    ListsAdd(latest, ks, key, group, keys);
    forall l' | l' in m && l' != l
      ensures Lists(latest, ks + {key}, l', m[l'], keysOf[l'])
    {
      ListsOther(latest, ks, key, l', m[l'], keysOf[l']);
    }
  }

  /** The grouping pass of `calculate_gpa_cgpa`: the kept attempts, visited
      in an unspecified order, are appended to the list of their semester.
      Each semester's list then holds exactly that semester's kept attempts. */
  method GroupBySemester(latest: map<CourseKey, Subject>)
    returns (semesterMap: map<string, seq<Subject>>, ghost keysOf: map<string, seq<CourseKey>>)
    ensures semesterMap.Keys == SemesterLabels(latest) && keysOf.Keys == semesterMap.Keys
    ensures forall l :: l in semesterMap ==> Lists(latest, latest.Keys, l, semesterMap[l], keysOf[l])
  {
    semesterMap, keysOf := map[], map[];
    var remaining := latest.Keys;
    ghost var done: set<CourseKey> := {};
    assert LabelsOf(latest, done) == {};
    while remaining != {}
      invariant done <= latest.Keys && remaining == latest.Keys - done
      invariant GroupedBy(latest, done, semesterMap, keysOf)
      decreases remaining
    {
      var key :| key in remaining;
      GroupStep(latest, done, key, semesterMap, keysOf);
      var subj := latest[key];
      var group := if subj.semesterLabel in semesterMap then semesterMap[subj.semesterLabel] else [];
      semesterMap := semesterMap[subj.semesterLabel := group + [subj]];
      keysOf := keysOf[subj.semesterLabel := (if subj.semesterLabel in keysOf then keysOf[subj.semesterLabel] else []) + [key]];
      done := done + {key};
      remaining := remaining - {key};
    }
    assert done == latest.Keys;
  }

  lemma {:induction false} SetSumSingle<K>(k: K, f: K -> real)
    ensures SetSum({k}, f) == f(k)
  {
    SetSumRemove({k}, f, k);
    assert {k} - {k} == {};
  }

  /** The courses a list of keys names. */
  ghost function KeySet(keys: seq<CourseKey>): set<CourseKey> {
    set k | k in keys
  }

  /** The weight of the first `n` entries of a list of kept attempts is the
      sum over their courses. */
  lemma {:induction false} ListedSumPrefix(latest: map<CourseKey, Subject>, group: seq<Subject>,
                                          keys: seq<CourseKey>, n: nat, w: Subject -> real)
    requires Distinct(keys) && |group| == |keys| && n <= |keys|
    requires forall i :: 0 <= i < |keys| ==> keys[i] in latest && group[i] == latest[keys[i]]
    ensures SeqSum(group[..n], w) == SetSum(KeySet(keys[..n]), Lift(latest, w))
  {
    if n == 0 {
      assert KeySet(keys[..0]) == {};
    } else {
      ListedSumPrefix(latest, group, keys, n - 1, w);
      var before := KeySet(keys[..n - 1]);
      assert KeySet(keys[..n]) == before + {keys[n - 1]} by {
        assert keys[..n] == keys[..n - 1] + [keys[n - 1]];
      }
      assert keys[n - 1] !in before;
      SetSumUnion(before, {keys[n - 1]}, Lift(latest, w));
      SetSumSingle(keys[n - 1], Lift(latest, w));
      assert group[..n][..n - 1] == group[..n - 1];
    }
  }

  /** A semester's list weighs what its courses weigh. */
  lemma {:induction false} ListedSum(latest: map<CourseKey, Subject>, l: string, group: seq<Subject>,
                  keys: seq<CourseKey>, w: Subject -> real)
    requires Lists(latest, latest.Keys, l, group, keys)
    ensures SeqSum(group, w) == SetSum(Under(latest, latest.Keys, l), Lift(latest, w))
  {
    ListedSumPrefix(latest, group, keys, |keys|, w);
    assert group[..|keys|] == group && keys[..|keys|] == keys;
    assert KeySet(keys) == Under(latest, latest.Keys, l);
  }

  // ----------------------------------------------------------- order

  lemma {:induction false} CountAtMostOne<T>(s: seq<T>, x: T)
    requires Distinct(s)
    ensures multiset(s)[x] <= 1
    decreases |s|
  {
    if s != [] {
      var n := |s| - 1;
      assert s == s[..n] + [s[n]];
      assert s[n] !in s[..n];
      CountAtMostOne(s[..n], x);
    }
  }

  lemma {:induction false} CountTwo<T>(s: seq<T>, i: int, j: int)
    requires 0 <= i < j < |s| && s[i] == s[j]
    ensures multiset(s)[s[i]] >= 2
  {
    assert s == s[..j] + [s[j]] + s[j + 1..];
    assert s[i] in s[..j];
  }

  /** A rearrangement of a list without repeats has no repeats. */
  lemma {:induction false} DistinctPermutation<T>(s: seq<T>, t: seq<T>)
    requires multiset(s) == multiset(t) && Distinct(s)
    ensures Distinct(t)
  {
    forall i, j | 0 <= i < j < |t|
      ensures t[i] != t[j]
    {
      if t[i] == t[j] {
        CountTwo(t, i, j);
        CountAtMostOne(s, t[i]);
      }
    }
  }

  /** A semester's label with its list of kept attempts. */
  type Semester = (string, seq<Subject>)

  /** The labels of a list of semesters, in list order. */
  function LabelsOfList(semesters: seq<Semester>): (ls: seq<string>)
    ensures |ls| == |semesters|
    ensures forall i :: 0 <= i < |semesters| ==> ls[i] == semesters[i].0
  {
    seq(|semesters|, i requires 0 <= i < |semesters| => semesters[i].0)
  }

  /** Entries of one map with no repeats have no repeated label. */
  lemma {:induction false} EntryLabelsDistinct(semesterMap: map<string, seq<Subject>>, semesters: seq<Semester>)
    requires Distinct(semesters)
    requires forall p :: p in semesters ==> p.0 in semesterMap && p.1 == semesterMap[p.0]
    ensures Distinct(LabelsOfList(semesters))
  {
    forall i, j | 0 <= i < j < |semesters|
      ensures semesters[i].0 != semesters[j].0
    {
      assert semesters[i] in semesters && semesters[j] in semesters;
    }
  }

  /** `semesters` holds every entry of `semesterMap` exactly once. */
  ghost predicate ListsEntries(semesterMap: map<string, seq<Subject>>, semesters: seq<Semester>) {
    Distinct(LabelsOfList(semesters))
    && (forall i :: 0 <= i < |semesters| ==>
          semesters[i].0 in semesterMap && semesters[i].1 == semesterMap[semesters[i].0])
    && (forall l :: l in semesterMap ==> l in LabelsOfList(semesters))
  }

  /** The entries of `semesterMap`, collected in an unspecified order and
      then sorted by the `parse_sem_order` key of their label, unparsed
      labels last. */
  method SortedSemesters(semesterMap: map<string, seq<Subject>>) returns (sorted: seq<Semester>)
    ensures ListsEntries(semesterMap, sorted)
    ensures SortedBy(LabelsOfList(sorted), SortKey)
  {
    var collected: seq<Semester> := [];
    var remaining := semesterMap.Keys;
    while remaining != {}
      invariant remaining <= semesterMap.Keys
      invariant Distinct(collected)
      invariant forall p :: p in collected ==>
                  p.0 in semesterMap && p.1 == semesterMap[p.0] && p.0 !in remaining
      invariant forall l :: l in semesterMap ==> l in remaining || (l, semesterMap[l]) in collected
      decreases remaining
    {
      var l :| l in remaining;
      collected := collected + [(l, semesterMap[l])];
      remaining := remaining - {l};
    }
    var a := new Semester[|collected|](i requires 0 <= i < |collected| => collected[i]);
    assert a[..] == collected;
    SortByKey(a, (p: Semester) => SortKey(p.0));
    sorted := a[..];
    SortedEntries(semesterMap, collected, sorted);
  }

  /** What the sort keeps of the collected entries. */
  lemma {:induction false} SortedEntries(semesterMap: map<string, seq<Subject>>, collected: seq<Semester>, sorted: seq<Semester>)
    requires multiset(sorted) == multiset(collected) && Distinct(collected)
    requires forall p :: p in collected ==> p.0 in semesterMap && p.1 == semesterMap[p.0]
    requires forall l :: l in semesterMap ==> (l, semesterMap[l]) in collected
    requires SortedBy(sorted, (p: Semester) => SortKey(p.0))
    ensures ListsEntries(semesterMap, sorted)
    ensures SortedBy(LabelsOfList(sorted), SortKey)
  {
    forall p ensures p in collected <==> p in sorted {
      assert p in collected <==> p in multiset(collected);
      assert p in sorted <==> p in multiset(sorted);
    }
    DistinctPermutation(collected, sorted);
    EntryLabelsDistinct(semesterMap, sorted);
    forall l | l in semesterMap
      ensures l in LabelsOfList(sorted)
    {
      var i :| 0 <= i < |sorted| && sorted[i] == (l, semesterMap[l]);
      assert LabelsOfList(sorted)[i] == l;
    }
  }

  // ---------------------------------------------------- accumulation

  /** The inner loop of the accumulation: the totals of one semester's list,
      over the subjects the table has an entry for. */
  method SemesterTotals(subs: seq<Subject>, qpt: map<Key, real>) returns (semQp: real, semCh: nat)
    ensures semQp == SeqSum(subs, Qp(qpt)) && semCh as real == SeqSum(subs, Ch(qpt))
  {
    semQp, semCh := 0.0, 0;
    for j := 0 to |subs|
      invariant semQp == SeqSum(subs[..j], Qp(qpt)) && semCh as real == SeqSum(subs[..j], Ch(qpt))
    {
      var s := subs[j];
      var key := (s.totalMarks, Sat8(s.obtainedMarks));
      assert subs[..j + 1][..j] == subs[..j];
      if key in qpt {
        semQp := semQp + qpt[key];
        semCh := semCh + s.creditHours;
      }
    }
    assert subs[..|subs|] == subs;
  }

  /** A list weighs what the courses of semester `l` weigh. */
  ghost predicate Weighs(latest: map<CourseKey, Subject>, l: string, group: seq<Subject>, w: Subject -> real) {
    SeqSum(group, w) == SetSum(Under(latest, latest.Keys, l), Lift(latest, w))
  }

  /** The total weight of the lists of a list of semesters. */
  ghost function GroupsSum(semesters: seq<Semester>, w: Subject -> real): real
    decreases |semesters|
  {
    if semesters == [] then 0.0
    else GroupsSum(semesters[..|semesters| - 1], w) + SeqSum(semesters[|semesters| - 1].1, w)
  }

  /** The average of one list: its quality points over its credit hours. */
  ghost function ListGpa(qpt: map<Key, real>, group: seq<Subject>): real {
    Ratio(SeqSum(group, Qp(qpt)), SeqSum(group, Ch(qpt)))
  }

  /** The courses whose kept attempt belongs to one of the semesters `ls`. */
  ghost function UnderAll(latest: map<CourseKey, Subject>, ls: seq<string>): set<CourseKey> {
    set k | k in latest && latest[k].semesterLabel in ls
  }

  /** Taking one more semester adds its courses, which no earlier semester has. */
  lemma {:induction false} UnderAllStep(latest: map<CourseKey, Subject>, ls: seq<string>, i: int)
    requires 0 <= i < |ls| && Distinct(ls)
    ensures UnderAll(latest, ls[..i + 1]) == UnderAll(latest, ls[..i]) + Under(latest, latest.Keys, ls[i])
    ensures UnderAll(latest, ls[..i]) !! Under(latest, latest.Keys, ls[i])
  {
    assert ls[..i + 1] == ls[..i] + [ls[i]];
    assert ls[i] !in ls[..i];
  }

  /** The running totals after one more semester. */
  lemma {:induction false} TotalsStep(latest: map<CourseKey, Subject>, ls: seq<string>, i: int, f: CourseKey -> real)
    requires 0 <= i < |ls| && Distinct(ls)
    ensures SetSum(UnderAll(latest, ls[..i + 1]), f)
            == SetSum(UnderAll(latest, ls[..i]), f) + SetSum(Under(latest, latest.Keys, ls[i]), f)
  {
    UnderAllStep(latest, ls, i);
    SetSumUnion(UnderAll(latest, ls[..i]), Under(latest, latest.Keys, ls[i]), f);
  }

  /** The lists of the first `n` semesters weigh what their courses weigh. */
  lemma {:induction false} GroupsSumPrefix(latest: map<CourseKey, Subject>, sorted: seq<Semester>,
                                          w: Subject -> real, n: nat)
    requires n <= |sorted| && Distinct(LabelsOfList(sorted))
    requires forall i :: 0 <= i < |sorted| ==> Weighs(latest, sorted[i].0, sorted[i].1, w)
    ensures GroupsSum(sorted[..n], w) == SetSum(UnderAll(latest, LabelsOfList(sorted)[..n]), Lift(latest, w))
  {
    var labels := LabelsOfList(sorted);
    if n == 0 {
      assert UnderAll(latest, labels[..0]) == {};
    } else {
      GroupsSumPrefix(latest, sorted, w, n - 1);
      TotalsStep(latest, labels, n - 1, Lift(latest, w));
      assert sorted[..n][..n - 1] == sorted[..n - 1];
      assert Weighs(latest, sorted[n - 1].0, sorted[n - 1].1, w);
    }
  }

  lemma {:induction false} WholePrefix<T>(s: seq<T>)
    ensures s[..|s|] == s
  {
  }

  /** Taking every semester takes every kept attempt. */
  lemma {:induction false} UnderAllCovers(latest: map<CourseKey, Subject>, labels: seq<string>)
    requires forall l :: l in SemesterLabels(latest) ==> l in labels
    ensures UnderAll(latest, labels) == latest.Keys
  {
    forall k | k in latest ensures latest[k].semesterLabel in labels {
      assert latest[k].semesterLabel in LabelsOf(latest, latest.Keys);
    }
  }

  /** The lists of all semesters weigh what all kept attempts weigh. */
  lemma {:induction false} GroupsSumAll(latest: map<CourseKey, Subject>, sorted: seq<Semester>, w: Subject -> real)
    requires Distinct(LabelsOfList(sorted))
    requires forall l :: l in SemesterLabels(latest) ==> l in LabelsOfList(sorted)
    requires forall i :: 0 <= i < |sorted| ==> Weighs(latest, sorted[i].0, sorted[i].1, w)
    ensures GroupsSum(sorted, w) == SetSum(latest.Keys, Lift(latest, w))
  {
    var labels := LabelsOfList(sorted);
    GroupsSumPrefix(latest, sorted, w, |sorted|);
    WholePrefix(sorted);
    WholePrefix(labels);
    UnderAllCovers(latest, labels);
  }

  /** The loop over the sorted semesters: each semester's average from its
      own totals, and the cumulative average from the running totals. */
  method Accumulate(qpt: map<Key, real>, sorted: seq<Semester>) returns (result: FinalResult)
    ensures |result.semesters| == |sorted|
    ensures forall i :: 0 <= i < |sorted| ==>
              result.semesters[i] == SemesterResult(sorted[i].0, ListGpa(qpt, sorted[i].1))
    ensures result.cgpa == Ratio(GroupsSum(sorted, Qp(qpt)), GroupsSum(sorted, Ch(qpt)))
  {
    var totalQp, totalCh: nat := 0.0, 0;
    var semestersResult: seq<SemesterResult> := [];
    for i := 0 to |sorted|
      invariant |semestersResult| == i
      invariant forall p :: 0 <= p < i ==>
                  semestersResult[p] == SemesterResult(sorted[p].0, ListGpa(qpt, sorted[p].1))
      invariant totalQp == GroupsSum(sorted[..i], Qp(qpt))
      invariant totalCh as real == GroupsSum(sorted[..i], Ch(qpt))
    {
      var (semester, subs) := sorted[i];
      var semQp, semCh := SemesterTotals(subs, qpt);
      var gpa := if semCh == 0 then 0.0 else semQp / semCh as real;
      assert sorted[..i + 1][..i] == sorted[..i];
      totalQp := totalQp + semQp;
      totalCh := totalCh + semCh;
      semestersResult := semestersResult + [SemesterResult(semester, gpa)];
    }
    assert sorted[..|sorted|] == sorted;
    var cgpa := if totalCh == 0 then 0.0 else totalQp / totalCh as real;
    result := FinalResult(semestersResult, cgpa);
  }

  /** Each sorted semester's list weighs what its courses weigh. */
  lemma {:induction false} SortedWeighs(latest: map<CourseKey, Subject>, semesterMap: map<string, seq<Subject>>,
                     keysOf: map<string, seq<CourseKey>>, sorted: seq<Semester>, w: Subject -> real)
    requires keysOf.Keys == semesterMap.Keys
    requires forall l :: l in semesterMap ==> Lists(latest, latest.Keys, l, semesterMap[l], keysOf[l])
    requires ListsEntries(semesterMap, sorted)
    ensures forall i :: 0 <= i < |sorted| ==> Weighs(latest, sorted[i].0, sorted[i].1, w)
  {
    forall i | 0 <= i < |sorted|
      ensures Weighs(latest, sorted[i].0, sorted[i].1, w)
    {
      var l := sorted[i].0;
      ListedSum(latest, l, semesterMap[l], keysOf[l], w);
    }
  }

  /** Each list's average is its semester's. */
  lemma {:induction false} ListGpas(qpt: map<Key, real>, latest: map<CourseKey, Subject>, sorted: seq<Semester>)
    requires forall i :: 0 <= i < |sorted| ==> Weighs(latest, sorted[i].0, sorted[i].1, Qp(qpt))
    requires forall i :: 0 <= i < |sorted| ==> Weighs(latest, sorted[i].0, sorted[i].1, Ch(qpt))
    ensures forall i :: 0 <= i < |sorted| ==> ListGpa(qpt, sorted[i].1) == SemesterGpa(qpt, latest, sorted[i].0)
  {
    forall i | 0 <= i < |sorted|
      ensures ListGpa(qpt, sorted[i].1) == SemesterGpa(qpt, latest, sorted[i].0)
    {
      assert Weighs(latest, sorted[i].0, sorted[i].1, Qp(qpt));
      assert Weighs(latest, sorted[i].0, sorted[i].1, Ch(qpt));
    }
  }

  /** The grouped and sorted lists give the averages of the reference
      definitions. */
  lemma {:induction false} ReferenceTotals(qpt: map<Key, real>, latest: map<CourseKey, Subject>, semesterMap: map<string, seq<Subject>>,
                        keysOf: map<string, seq<CourseKey>>, sorted: seq<Semester>)
    requires semesterMap.Keys == SemesterLabels(latest) && keysOf.Keys == semesterMap.Keys
    requires forall l :: l in semesterMap ==> Lists(latest, latest.Keys, l, semesterMap[l], keysOf[l])
    requires ListsEntries(semesterMap, sorted)
    ensures forall i :: 0 <= i < |sorted| ==> ListGpa(qpt, sorted[i].1) == SemesterGpa(qpt, latest, sorted[i].0)
    ensures Ratio(GroupsSum(sorted, Qp(qpt)), GroupsSum(sorted, Ch(qpt))) == Cgpa(qpt, latest)
  {
    SortedWeighs(latest, semesterMap, keysOf, sorted, Qp(qpt));
    SortedWeighs(latest, semesterMap, keysOf, sorted, Ch(qpt));
    ListGpas(qpt, latest, sorted);
    GroupsSumAll(latest, sorted, Qp(qpt));
    GroupsSumAll(latest, sorted, Ch(qpt));
  }

  /** `calculate_gpa_cgpa`: retakes resolved, kept attempts grouped by
      semester, semesters sorted, averages accumulated. */
  method CalculateGpaCgpa(subjects: seq<Subject>, qpt: map<Key, real>) returns (result: FinalResult)
    ensures Summarises(result, qpt, Resolve(subjects))
  {
    var latest := ResolveRetakes(subjects);
    var semesterMap, keysOf := GroupBySemester(latest);
    var sorted := SortedSemesters(semesterMap);
    result := Accumulate(qpt, sorted);
    ReferenceTotals(qpt, latest, semesterMap, keysOf, sorted);
    SummarisesOf(result, qpt, latest, semesterMap, sorted);
  }

  /** The accumulated result, read against the reference definitions. */
  lemma {:induction false} SummarisesOf(result: FinalResult, qpt: map<Key, real>, latest: map<CourseKey, Subject>,
                     semesterMap: map<string, seq<Subject>>, sorted: seq<Semester>)
    requires semesterMap.Keys == SemesterLabels(latest)
    requires ListsEntries(semesterMap, sorted) && SortedBy(LabelsOfList(sorted), SortKey)
    requires |result.semesters| == |sorted|
    requires forall i :: 0 <= i < |sorted| ==>
               result.semesters[i] == SemesterResult(sorted[i].0, ListGpa(qpt, sorted[i].1))
    requires forall i :: 0 <= i < |sorted| ==> ListGpa(qpt, sorted[i].1) == SemesterGpa(qpt, latest, sorted[i].0)
    requires result.cgpa == Ratio(GroupsSum(sorted, Qp(qpt)), GroupsSum(sorted, Ch(qpt)))
    requires Ratio(GroupsSum(sorted, Qp(qpt)), GroupsSum(sorted, Ch(qpt))) == Cgpa(qpt, latest)
    ensures Summarises(result, qpt, latest)
  {
    var labels := LabelsOfList(sorted);
    var sems := result.semesters;
    forall l | l in SemesterLabels(latest)
      ensures exists i :: 0 <= i < |sems| && sems[i].semesterLabel == l
    {
      var i :| 0 <= i < |labels| && labels[i] == l;
      assert sems[i].semesterLabel == l;
    }
  }

  // ---------------------------------------------------------- bounds

  /** A subject whose total marks follow from at least two credit hours. */
  predicate Regular(s: Subject) {
    s.creditHours >= 2 && s.totalMarks == TotalMarksFor(s.creditHours)
  }

  /** With the quality point table, a subject earns at most four quality
      points per credit hour when it is regular; one whose key misses the
      table earns nothing at all. */
  lemma {:induction false} SubjectPointsBounded(qpt: map<Key, real>, s: Subject)
    requires IsTable(qpt) && (MarksKey(s) in qpt ==> Regular(s))
    ensures 0.0 <= HitQp(qpt, s) <= 4.0 * HitCh(qpt, s) as real
  {
    assert Get(qpt, MarksKey(s)) == Lookup(MarksKey(s));
    LookupSpec(MarksKey(s));
  }

  /** Each course's share is within four points per credit hour. */
  lemma {:induction false} ShareBounded(qpt: map<Key, real>, latest: map<CourseKey, Subject>, k: CourseKey)
    requires IsTable(qpt)
    requires forall k :: k in latest && MarksKey(latest[k]) in qpt ==> Regular(latest[k])
    ensures 0.0 <= Lift(latest, Qp(qpt))(k) <= 4.0 * Lift(latest, Ch(qpt))(k)
    ensures 0.0 <= Lift(latest, Ch(qpt))(k) <= 1.0 * Lift(latest, Ch(qpt))(k)
  {
    if k in latest {
      SubjectPointsBounded(qpt, latest[k]);
    }
  }

  /** Over any set of courses whose counted attempts are regular, the ratio of
      quality points to credit hours lies between 0 and 4. */
  lemma {:induction false} RatioWithinFour(qpt: map<Key, real>, latest: map<CourseKey, Subject>, ks: set<CourseKey>)
    requires IsTable(qpt)
    requires forall k :: k in latest && MarksKey(latest[k]) in qpt ==> Regular(latest[k])
    ensures 0.0 <= Ratio(SetSum(ks, Lift(latest, Qp(qpt))), SetSum(ks, Lift(latest, Ch(qpt)))) <= 4.0
  {
    var fq, fc := Lift(latest, Qp(qpt)), Lift(latest, Ch(qpt));
    forall k | k in ks
      ensures 0.0 <= fq(k) <= 4.0 * fc(k)
      ensures 0.0 <= fc(k) <= 1.0 * fc(k)
    {
      ShareBounded(qpt, latest, k);
    }
    SetSumBounded(ks, fq, fc, 4.0);
    SetSumBounded(ks, fc, fc, 1.0);
    RatioBounded(SetSum(ks, fq), SetSum(ks, fc), 4.0);
  }

  /** When every kept attempt whose key hits the table is regular, every
      reported average lies on the four-point scale. */
  lemma {:induction false} ResultWithinFour(result: FinalResult, qpt: map<Key, real>, latest: map<CourseKey, Subject>)
    requires IsTable(qpt) && Summarises(result, qpt, latest)
    requires forall k :: k in latest && MarksKey(latest[k]) in qpt ==> Regular(latest[k])
    ensures forall i :: 0 <= i < |result.semesters| ==> 0.0 <= result.semesters[i].gpa <= 4.0
    ensures 0.0 <= result.cgpa <= 4.0
  {
    forall i | 0 <= i < |result.semesters|
      ensures 0.0 <= result.semesters[i].gpa <= 4.0
    {
      RatioWithinFour(qpt, latest, Under(latest, latest.Keys, result.semesters[i].semesterLabel));
    }
    RatioWithinFour(qpt, latest, latest.Keys);
  }

  /** A one-credit course is scored on the 60-mark scale without any
      normalisation: full marks alone give a semester average of 12. */
  lemma {:induction false} OneCreditHourExceedsFour(qpt: map<Key, real>)
    requires IsTable(qpt)
    ensures var s := Subject("Spring Semester 2023", "CS-101", 1, 60, TotalMarksFor(1), "A");
            var latest := map[KeyOf(s) := s];
            SemesterGpa(qpt, latest, s.semesterLabel) == 12.0 && Cgpa(qpt, latest) == 12.0
  {
    var s := Subject("Spring Semester 2023", "CS-101", 1, 60, TotalMarksFor(1), "A");
    var latest := map[KeyOf(s) := s];
    Lookup60(60);
    assert Get(qpt, (60, 60)) == Lookup((60, 60));
    assert HitQp(qpt, s) == 12.0 && HitCh(qpt, s) == 1;
    assert Under(latest, latest.Keys, s.semesterLabel) == {KeyOf(s)};
    assert latest.Keys == {KeyOf(s)};
    SetSumSingle(KeyOf(s), Lift(latest, Qp(qpt)));
    SetSumSingle(KeyOf(s), Lift(latest, Ch(qpt)));
  }

  /** A kept attempt with no credit hours whose key hits the table adds its
      quality points to every sum it belongs to and no credit hours. */
  lemma {:induction false} ZeroCreditAddsPoints(qpt: map<Key, real>, latest: map<CourseKey, Subject>,
                                               ks: set<CourseKey>, k: CourseKey)
    requires k in ks && k in latest
    requires latest[k].creditHours == 0 && MarksKey(latest[k]) in qpt
    ensures SetSum(ks, Lift(latest, Qp(qpt)))
            == qpt[MarksKey(latest[k])] + SetSum(ks - {k}, Lift(latest, Qp(qpt)))
    ensures SetSum(ks, Lift(latest, Ch(qpt))) == SetSum(ks - {k}, Lift(latest, Ch(qpt)))
  {
    SetSumRemove(ks, Lift(latest, Qp(qpt)), k);
    SetSumRemove(ks, Lift(latest, Ch(qpt)), k);
  }

  /** A row whose credit hours do not read is kept with 0 credit hours on
      the 60-mark scale. Beside a 3-credit course with full marks, such a
      row with 45 marks lifts the average from 12/3 to 23/3. */
  lemma {:induction false} ZeroCreditInflates(qpt: map<Key, real>)
    requires IsTable(qpt)
    ensures var a := Subject("Spring Semester 2023", "CS-101", 3, 60, TotalMarksFor(3), "A");
            var b := Subject("Spring Semester 2023", "CS-102", 0, 45, TotalMarksFor(0), "B");
            var latest := map[KeyOf(a) := a, KeyOf(b) := b];
            SemesterGpa(qpt, latest, a.semesterLabel) == 23.0 / 3.0 && Cgpa(qpt, latest) == 23.0 / 3.0
  {
    var a := Subject("Spring Semester 2023", "CS-101", 3, 60, TotalMarksFor(3), "A");
    var b := Subject("Spring Semester 2023", "CS-102", 0, 45, TotalMarksFor(0), "B");
    var latest := map[KeyOf(a) := a, KeyOf(b) := b];
    assert KeyOf(a) != KeyOf(b);
    Lookup60(60);
    Lookup60(45);
    assert Get(qpt, (60, 60)) == Lookup((60, 60));
    assert Get(qpt, (60, 45)) == Lookup((60, 45));
    assert HitQp(qpt, a) == 12.0 && HitCh(qpt, a) == 3;
    assert MarksKey(b) == (60, 45) && qpt[(60, 45)] == 11.0;
    var ks := latest.Keys;
    assert ks == {KeyOf(a), KeyOf(b)};
    assert Under(latest, ks, a.semesterLabel) == ks;
    ZeroCreditAddsPoints(qpt, latest, ks, KeyOf(b));
    assert ks - {KeyOf(b)} == {KeyOf(a)};
    SetSumSingle(KeyOf(a), Lift(latest, Qp(qpt)));
    SetSumSingle(KeyOf(a), Lift(latest, Ch(qpt)));
  }

  /** Only one map answers every key as the fixed table does. */
  lemma {:induction false} TableUnique(a: map<Key, real>, b: map<Key, real>)
    requires IsTable(a) && IsTable(b)
    ensures a == b
  {
    forall k ensures k in a <==> k in b {
      assert Get(a, k) == Get(b, k);
    }
    forall k | k in a ensures a[k] == b[k] {
      assert Get(a, k) == Get(b, k);
    }
  }

  // -------------------------------------------------------- pipeline

  /** Every semester a result reports is the semester of some subject. */
  lemma {:induction false} ReportedLabelsFromSubjects(result: FinalResult, qpt: map<Key, real>,
                                                     subjects: seq<Subject>, labels: set<string>)
    requires Summarises(result, qpt, Resolve(subjects))
    requires forall s :: s in subjects ==> s.semesterLabel in labels
    ensures forall i :: 0 <= i < |result.semesters| ==> result.semesters[i].semesterLabel in labels
  {
    var latest := Resolve(subjects);
    ResolveSpec(subjects);
    forall i | 0 <= i < |result.semesters|
      ensures result.semesters[i].semesterLabel in labels
    {
      var l := result.semesters[i].semesterLabel;
      assert l in SemesterLabels(latest);
      var k :| k in latest && latest[k].semesterLabel == l;
      var j :| 0 <= j < |subjects| && KeyOf(subjects[j]) == k && latest[k] == subjects[j];
      assert subjects[j] in subjects;
    }
  }

  /** `process_student_results` on the text of the result table: the
      semesters are visited in the unspecified order `order`, and `qpt` is
      the quality point table, the only map that answers as it does. */
  method ProcessStudentResults(tableText: string)
    returns (result: FinalResult, ghost order: seq<string>, ghost qpt: map<Key, real>)
    ensures IsTable(qpt) && forall m :: IsTable(m) ==> m == qpt
    ensures var table := TableOf(CellsOf(Lines(tableText)));
            |order| == |table| && Distinct(order)
            && (forall k :: 0 <= k < |order| ==> order[k] in table)
            && (forall l :: l in table ==> l in order)
            && Summarises(result, qpt, Resolve(ConvertAll(table, order)))
    ensures forall i :: 0 <= i < |result.semesters| ==>
              result.semesters[i].semesterLabel in TableOf(CellsOf(Lines(tableText)))
  {
    var semesterMap := ParseTableBySemester(tableText);
    var subjects;
    subjects, order := ConvertRowsToSubjects(semesterMap);
    var qptMap := BuildQpt();
    qpt := qptMap;
    result := CalculateGpaCgpa(subjects, qptMap);
    ReportedLabelsFromSubjects(result, qptMap, subjects, semesterMap.Keys);
    forall m | IsTable(m) ensures m == qpt {
      TableUnique(m, qpt);
    }
  }
}
