/** Semesters and retakes in the result-table pipeline: which attempt of
    a course counts, and the order in which semesters are reported. */
module Semesters {
  import opened Wrappers
  import opened Text
  import opened TableRows

  // --------------------------------------------------- semester_type

  /** "Spring" for a label mentioning Spring, "Winter" for every other. */
  function SemesterType(semesterLabel: string): (r: string)
    ensures r == "Spring" || r == "Winter"
    ensures r == "Spring" <==> exists i :: OccursAt(semesterLabel, "Spring", i)
  {
    ContainsIff(semesterLabel, "Spring");
    if Contains(semesterLabel, "Spring") then "Spring" else "Winter"
  }

  // --------------------------------------------------- grade_to_point

  /** The rank of a letter grade: A 5, B 4, C 3, D 2, F 1, anything else 0. */
  function GradeToPoint(grade: string): (p: nat)
    ensures p <= 5
    ensures p == 0 <==> grade !in {"A", "B", "C", "D", "F"}
  {
    if grade == "A" then 5
    else if grade == "B" then 4
    else if grade == "C" then 3
    else if grade == "D" then 2
    else if grade == "F" then 1
    else 0
  }

  /** The letter grades are ranked A above B above C above D above F, and
      F above every text that is not a letter grade. */
  lemma GradeRanking(other: string)
    requires other !in {"A", "B", "C", "D", "F"}
    ensures GradeToPoint("A") > GradeToPoint("B") > GradeToPoint("C")
            > GradeToPoint("D") > GradeToPoint("F") > GradeToPoint(other)
  {
  }

  // ---------------------------------------------------------- retakes

  /** The element kept per key once `xs` are read in order: a later
      element replaces the kept one only when it ranks strictly higher. */
  function BestPerKey<T, K(==)>(xs: seq<T>, key: T -> K, rank: T -> nat): map<K, T>
    decreases |xs|
  {
    if xs == [] then map[]
    else
      var n := |xs| - 1;
      var m := BestPerKey(xs[..n], key, rank);
      var x := xs[n];
      if key(x) in m && rank(x) <= rank(m[key(x)]) then m else m[key(x) := x]
  }

  /** Element `j` is the best among the first `n`: nothing with the same
      key ranks higher, and nothing before it ranks the same. */
  predicate BestAmong<T, K(==)>(xs: seq<T>, key: T -> K, rank: T -> nat, n: nat, j: nat)
    requires j < n <= |xs|
  {
    forall i :: 0 <= i < n && key(xs[i]) == key(xs[j]) ==>
      rank(xs[i]) < rank(xs[j]) || (rank(xs[i]) == rank(xs[j]) && j <= i)
  }

  lemma BestPerKeyStep<T, K>(xs: seq<T>, key: T -> K, rank: T -> nat, n: nat)
    requires n < |xs|
    ensures var m := BestPerKey(xs[..n], key, rank);
      var x := xs[n];
      BestPerKey(xs[..n + 1], key, rank) ==
        (if key(x) in m && rank(x) <= rank(m[key(x)]) then m else m[key(x) := x])
  {
    var t := xs[..n + 1];
    assert t[..n] == xs[..n];
    assert t[n] == xs[n];
  }

  /** The best element so far stays best when the next element has
      another key or ranks no higher. */
  lemma BestKept<T, K>(xs: seq<T>, key: T -> K, rank: T -> nat, p: nat, j: nat)
    requires j < p < |xs| && BestAmong(xs, key, rank, p, j)
    requires key(xs[p]) != key(xs[j]) || rank(xs[p]) <= rank(xs[j])
    ensures BestAmong(xs, key, rank, p + 1, j)
  {
  }

  /** An element ranking higher than every earlier one with its key is the
      best so far. */
  lemma BestNew<T, K>(xs: seq<T>, key: T -> K, rank: T -> nat, p: nat)
    requires p < |xs|
    requires forall i :: 0 <= i < p && key(xs[i]) == key(xs[p]) ==> rank(xs[i]) < rank(xs[p])
    ensures BestAmong(xs, key, rank, p + 1, p)
  {
  }

  /** What the first `n` elements give: one entry per key that occurs,
      holding the earliest of the highest-ranked elements with that key. */
  lemma {:induction false} BestPerKeyPrefix<T, K>(xs: seq<T>, key: T -> K, rank: T -> nat, n: nat)
    requires n <= |xs|
    ensures forall i :: 0 <= i < n ==> key(xs[i]) in BestPerKey(xs[..n], key, rank)
    ensures forall k :: k in BestPerKey(xs[..n], key, rank) ==>
      exists j :: 0 <= j < n && key(xs[j]) == k
                  && BestPerKey(xs[..n], key, rank)[k] == xs[j] && BestAmong(xs, key, rank, n, j)
    decreases n
  {
    if n > 0 {
      var p := n - 1;
      BestPerKeyPrefix(xs, key, rank, p);
      BestPerKeyStep(xs, key, rank, p);
      var m := BestPerKey(xs[..p], key, rank);
      var m' := BestPerKey(xs[..n], key, rank);
      var x := xs[p];
      forall k | k in m'
        ensures exists j :: 0 <= j < n && key(xs[j]) == k && m'[k] == xs[j] && BestAmong(xs, key, rank, n, j)
      {
        if k != key(x) || (k in m && rank(x) <= rank(m[k])) {
          assert k in m && m'[k] == m[k];
          var j :| 0 <= j < p && key(xs[j]) == k && m[k] == xs[j] && BestAmong(xs, key, rank, p, j);
          BestKept(xs, key, rank, p, j);
        } else {
          assert m'[k] == x;
          if k in m {
            var j :| 0 <= j < p && key(xs[j]) == k && m[k] == xs[j] && BestAmong(xs, key, rank, p, j);
            assert rank(xs[j]) < rank(x);
            forall i | 0 <= i < p && key(xs[i]) == key(x) ensures rank(xs[i]) < rank(x) {
              assert rank(xs[i]) <= rank(xs[j]);
            }
          }
          BestNew(xs, key, rank, p);
        }
      }
    }
  }

  /** Attempts at the same course in the same kind of semester (Spring or
      Winter) are retakes of each other. */
  type CourseKey = (string, string)

  function KeyOf(s: Subject): CourseKey {
    (SemesterType(s.semesterLabel), s.courseCode)
  }

  /** Attempts are ranked by their grade. */
  function Rank(s: Subject): nat {
    GradeToPoint(s.grade)
  }

  /** The attempt kept per course once `subjects` are read in order: a
      later attempt replaces the kept one only with a strictly better
      grade. */
  function Resolve(subjects: seq<Subject>): map<CourseKey, Subject> {
    BestPerKey(subjects, KeyOf, Rank)
  }

  /** Retake resolution keeps exactly one attempt per (semester type,
      course code) that was attempted: the one with the best grade, the
      earliest of them when several share it. */
  lemma ResolveSpec(subjects: seq<Subject>)
    ensures forall i :: 0 <= i < |subjects| ==> KeyOf(subjects[i]) in Resolve(subjects)
    ensures forall key :: key in Resolve(subjects) ==>
      exists j :: 0 <= j < |subjects| && KeyOf(subjects[j]) == key && Resolve(subjects)[key] == subjects[j]
                  && forall i :: 0 <= i < |subjects| && KeyOf(subjects[i]) == key ==>
                       GradeToPoint(subjects[i].grade) < GradeToPoint(subjects[j].grade)
                       || (GradeToPoint(subjects[i].grade) == GradeToPoint(subjects[j].grade) && j <= i)
  {
    BestPerKeyPrefix(subjects, KeyOf, Rank, |subjects|);
    assert subjects[..|subjects|] == subjects;
  }

  /** The retake pass of `calculate_gpa_cgpa`, updating `latest_subjects`
      in place. */
  method ResolveRetakes(subjects: seq<Subject>) returns (latest: map<CourseKey, Subject>)
    ensures latest == Resolve(subjects)
  {
    latest := map[];
    for i := 0 to |subjects|
      invariant latest == BestPerKey(subjects[..i], KeyOf, Rank)
    {
      BestPerKeyStep(subjects, KeyOf, Rank, i);
      var subject := subjects[i];
      var key := (SemesterType(subject.semesterLabel), subject.courseCode);
      if key in latest {
        var existing := latest[key];
        if GradeToPoint(subject.grade) > GradeToPoint(existing.grade) {
          latest := latest[key := subject];
        }
      } else {
        latest := latest[key := subject];
      }
    }
    assert subjects[..|subjects|] == subjects;
  }

  // ------------------------------------------------- parse_sem_order

  /** The (year, order) of a label of at least three words: the year is the
      third word's text before any '-', read as a 32-bit unsigned number;
      the order is 0 when the first word is exactly "Winter" and 1
      otherwise. Labels of fewer words, or without a readable year, have
      none. */
  function ParseSemOrder(semesterLabel: string): (r: Option<(nat, nat)>)
    ensures r.Some? ==> r.value.0 <= U32Max && r.value.1 <= 1
  {
    var parts := SplitWhitespace(semesterLabel);
    if |parts| < 3 then None
    else
      match ParseUnsigned(Split(parts[2], '-')[0], U32Max)
      case None => None
      case Some(year) => Some((year, if parts[0] == "Winter" then 0 else 1))
  }

  /** The sort key of a label: its (year, order), or (9999, 9) without one. */
  function SortKey(semesterLabel: string): (nat, nat) {
    ParseSemOrder(semesterLabel).GetOr((9999, 9))
  }

  /** Words joined by spaces whose third word starts with a year give that
      year, and order 0 exactly when the first word is "Winter". */
  lemma ParseSemOrderOfWords(words: seq<string>, year: nat, suffix: string)
    requires |words| >= 3
    requires forall k :: 0 <= k < |words| ==> words[k] != [] && NoWhitespace(words[k])
    requires words[2] == NatToString(year) + suffix
    requires suffix == [] || suffix[0] == '-'
    requires year <= U32Max
    ensures ParseSemOrder(Join(words, ' ')) == Some((year, if words[0] == "Winter" then 0 else 1))
  {
    SplitWhitespaceJoin(words);
    YearPiece(year, suffix);
    ParseUnsignedOfNatToString(year, U32Max);
  }

  /** The text before the first '-' of a numeral followed by nothing or by
      a '-' is the numeral. */
  lemma YearPiece(year: nat, suffix: string)
    requires suffix == [] || suffix[0] == '-'
    ensures Split(NatToString(year) + suffix, '-')[0] == NatToString(year)
  {
    var y := NatToString(year);
    assert '-' !in y;
    if suffix == [] {
      assert y + suffix == y;
      SplitNoSeparator(y, '-');
    } else {
      assert y + suffix == y + ['-'] + suffix[1..];
      SplitAtSeparator(y, '-', suffix[1..]);
    }
  }

  /** A label of fewer than three words sorts as (9999, 9). */
  lemma FewWordsSortLast(semesterLabel: string)
    requires |SplitWhitespace(semesterLabel)| < 3
    ensures SortKey(semesterLabel) == (9999, 9)
  {
  }

  lemma Numeral2022()
    ensures NatToString(2022) == "2022"
  {
  }

  lemma WinterWords()
    ensures Join(["Winter", "Semester", "2022-23"], ' ') == "Winter Semester 2022-23"
  {
  }

  lemma SpringWords()
    ensures Join(["Spring", "Semester", "2022"], ' ') == "Spring Semester 2022"
  {
  }

  lemma WinterKey()
    ensures SortKey("Winter Semester 2022-23") == (2022, 0)
  {
    Numeral2022();
    WinterWords();
    assert "2022-23" == NatToString(2022) + "-23";
    ParseSemOrderOfWords(["Winter", "Semester", "2022-23"], 2022, "-23");
  }

  lemma SpringKey()
    ensures SortKey("Spring Semester 2022") == (2022, 1)
  {
    Numeral2022();
    SpringWords();
    assert "2022" == NatToString(2022) + "";
    ParseSemOrderOfWords(["Spring", "Semester", "2022"], 2022, "");
  }

  /** "Winter Semester 2022-23" comes before "Spring Semester 2022": a
      winter term is keyed by the year it starts in. */
  lemma WinterBeforeSpring()
    ensures KeyLe(SortKey("Winter Semester 2022-23"), SortKey("Spring Semester 2022"))
    ensures !KeyLe(SortKey("Spring Semester 2022"), SortKey("Winter Semester 2022-23"))
  {
    WinterKey();
    SpringKey();
  }

  // ------------------------------------------------------ sort_by_key

  /** Lexicographic order on (year, order) keys. */
  predicate KeyLe(x: (nat, nat), y: (nat, nat)) {
    x.0 < y.0 || (x.0 == y.0 && x.1 <= y.1)
  }

  /** A label without a (year, order) sorts after every label whose year
      is at most 9999. */
  lemma UnparsedSortsLast(unparsed: string, parsed: string)
    requires ParseSemOrder(unparsed).None?
    requires ParseSemOrder(parsed).Some? && ParseSemOrder(parsed).value.0 <= 9999
    ensures KeyLe(SortKey(parsed), SortKey(unparsed))
  {
  }

  predicate SortedBy<T>(s: seq<T>, key: T -> (nat, nat)) {
    forall i, j :: 0 <= i < j < |s| ==> KeyLe(key(s[i]), key(s[j]))
  }

  /** The first `i + 1` keys are in order except for the element at `j`,
      which is no larger than any key after it. */
  predicate Inserting<T>(s: seq<T>, i: nat, j: nat, key: T -> (nat, nat))
    requires j <= i < |s|
  {
    (forall p, q :: 0 <= p < q <= i && p != j && q != j ==> KeyLe(key(s[p]), key(s[q])))
    && (forall q :: j < q <= i ==> KeyLe(key(s[j]), key(s[q])))
  }

  lemma InsertingStart<T>(s: seq<T>, i: nat, key: T -> (nat, nat))
    requires i < |s| && SortedBy(s[..i], key)
    ensures Inserting(s, i, i, key)
  {
    forall p, q | 0 <= p < q <= i && p != i && q != i ensures KeyLe(key(s[p]), key(s[q])) {
      assert s[..i][p] == s[p] && s[..i][q] == s[q];
    }
  }

  lemma InsertingSwap<T>(s: seq<T>, i: nat, j: nat, key: T -> (nat, nat))
    requires 0 < j <= i < |s| && Inserting(s, i, j, key)
    requires !KeyLe(key(s[j - 1]), key(s[j]))
    ensures Inserting(s[j - 1 := s[j]][j := s[j - 1]], i, j - 1, key)
  {
    var t := s[j - 1 := s[j]][j := s[j - 1]];
    assert KeyLe(key(t[j - 1]), key(t[j]));
    forall q | j - 1 < q <= i ensures KeyLe(key(t[j - 1]), key(t[q])) {
      if q > j {
        assert t[q] == s[q];
      }
    }
    forall p, q | 0 <= p < q <= i && p != j - 1 && q != j - 1 ensures KeyLe(key(t[p]), key(t[q])) {
      if q == j {
        assert t[p] == s[p] && t[q] == s[j - 1];
      } else if p == j {
        assert t[p] == s[j - 1] && t[q] == s[q];
      } else {
        assert t[p] == s[p] && t[q] == s[q];
      }
    }
  }

  lemma SwapMultiset<T>(s: seq<T>, j: nat)
    requires 0 < j < |s|
    ensures multiset(s[j - 1 := s[j]][j := s[j - 1]]) == multiset(s)
  {
  }

  lemma InsertingDone<T>(s: seq<T>, i: nat, j: nat, key: T -> (nat, nat))
    requires j <= i < |s| && Inserting(s, i, j, key)
    requires j == 0 || KeyLe(key(s[j - 1]), key(s[j]))
    ensures SortedBy(s[..i + 1], key)
  {
    forall p, q | 0 <= p < q <= i ensures KeyLe(key(s[p]), key(s[q])) {
      if q == j && p < j - 1 {
        assert KeyLe(key(s[p]), key(s[j - 1]));
      }
    }
  }

  /** One insertion step: the element at `i` moves down past the larger
      keys before it, so the first `i + 1` elements are in key order. */
  method InsertStep<T>(a: array<T>, i: nat, key: T -> (nat, nat))
    requires i < a.Length && SortedBy(a[..i], key)
    modifies a
    ensures SortedBy(a[..i + 1], key)
    ensures multiset(a[..]) == multiset(old(a[..]))
  {
    var j := i;
    InsertingStart(a[..], i, key);
    assert a[..][..i] == a[..i];
    while j > 0 && !KeyLe(key(a[j - 1]), key(a[j]))
      invariant 0 <= j <= i
      invariant multiset(a[..]) == multiset(old(a[..]))
      invariant Inserting(a[..], i, j, key)
    {
      ghost var s := a[..];
      a[j - 1], a[j] := a[j], a[j - 1];
      assert a[..] == s[j - 1 := s[j]][j := s[j - 1]];
      InsertingSwap(s, i, j, key);
      SwapMultiset(s, j);
      j := j - 1;
    }
    InsertingDone(a[..], i, j, key);
    assert a[..][..i + 1] == a[..i + 1];
  }

  /** `slice::sort_by_key`: the elements rearranged so that their keys are
      non-decreasing. */
  method SortByKey<T>(a: array<T>, key: T -> (nat, nat))
    modifies a
    ensures SortedBy(a[..], key)
    ensures multiset(a[..]) == multiset(old(a[..]))
  {
    for i := 0 to a.Length
      invariant SortedBy(a[..i], key)
      invariant multiset(a[..]) == multiset(old(a[..]))
    {
      InsertStep(a, i, key);
    }
    assert a[..a.Length] == a[..];
  }
}
