/** The pieces of Rust's `str` API that the GPA engine relies on, written
    out over `string` (`seq<char>`): `lines`, `split`, `trim`,
    `split_whitespace`, `contains` and `parse` for unsigned integers.
    Each definition is paired with a lemma that pins it down independently
    of how it is computed (a round trip or a characterisation). */
module Text {
  import opened Wrappers

  /** `char::is_whitespace`: the Unicode White_Space property. */
  predicate IsWhitespace(c: char) {
    var n := c as int;
    (9 <= n <= 13) || n == 32 || n == 0x85 || n == 0xA0 || n == 0x1680
    || (0x2000 <= n <= 0x200A) || n == 0x2028 || n == 0x2029 || n == 0x202F
    || n == 0x205F || n == 0x3000
  }

  predicate NoWhitespace(s: string) {
    forall i :: 0 <= i < |s| ==> !IsWhitespace(s[i])
  }

  predicate AllWhitespace(s: string) {
    forall i :: 0 <= i < |s| ==> IsWhitespace(s[i])
  }

  // ---------------------------------------------------------------- trim

  /** How many whitespace characters `s` starts with. */
  function LeadingWhitespace(s: string): (n: nat)
    ensures n <= |s| && AllWhitespace(s[..n])
    ensures n == |s| || !IsWhitespace(s[n])
    decreases |s|
  {
    if s != [] && IsWhitespace(s[0]) then
      var m := LeadingWhitespace(s[1..]);
      assert AllWhitespace(s[..1 + m]) by {
        forall i | 0 <= i < 1 + m ensures IsWhitespace(s[i]) {
          if i > 0 { assert s[i] == s[1..][..m][i - 1]; }
        }
      }
      1 + m
    else 0
  }

  /** How many whitespace characters `s` ends with. */
  function TrailingWhitespace(s: string): (n: nat)
    ensures n <= |s| && AllWhitespace(s[|s| - n..])
    ensures n == |s| || !IsWhitespace(s[|s| - n - 1])
    decreases |s|
  {
    if s != [] && IsWhitespace(s[|s| - 1]) then
      var m := TrailingWhitespace(s[..|s| - 1]);
      assert AllWhitespace(s[|s| - 1 - m..]) by {
        forall i | |s| - 1 - m <= i < |s| ensures IsWhitespace(s[i]) {
          if i < |s| - 1 { assert s[i] == s[..|s| - 1][|s| - 1 - m..][i - (|s| - 1 - m)]; }
        }
      }
      1 + m
    else 0
  }

  /** `str::trim`: `s` without its leading and trailing whitespace. */
  function Trim(s: string): (r: string)
    ensures |r| <= |s|
    ensures r == [] || (!IsWhitespace(r[0]) && !IsWhitespace(r[|r| - 1]))
    ensures forall c :: c in r ==> c in s
  {
    var t := s[LeadingWhitespace(s)..];
    t[..|t| - TrailingWhitespace(t)]
  }

  /** Whitespace in front of text that does not start with whitespace is
      exactly what `LeadingWhitespace` counts. */
  lemma {:induction false} LeadingOfPadded(p: string, u: string)
    requires AllWhitespace(p)
    requires u == [] || !IsWhitespace(u[0])
    ensures LeadingWhitespace(p + u) == |p|
    decreases |p|
  {
    if p != [] {
      assert (p + u)[1..] == p[1..] + u;
      LeadingOfPadded(p[1..], u);
    } else {
      assert p + u == u;
    }
  }

  lemma {:induction false} TrailingOfPadded(u: string, q: string)
    requires AllWhitespace(q)
    requires u == [] || !IsWhitespace(u[|u| - 1])
    ensures TrailingWhitespace(u + q) == |q|
    decreases |q|
  {
    if q != [] {
      assert (u + q)[..|u + q| - 1] == u + q[..|q| - 1];
      TrailingOfPadded(u, q[..|q| - 1]);
    } else {
      assert u + q == u;
    }
  }

  /** `trim` gives back exactly the text between whitespace padding: the
      characterisation of `Trim` that does not depend on how it counts. */
  lemma TrimOfPadded(p: string, t: string, q: string)
    requires AllWhitespace(p) && AllWhitespace(q)
    requires t == [] || (!IsWhitespace(t[0]) && !IsWhitespace(t[|t| - 1]))
    ensures Trim(p + t + q) == t
  {
    var s := p + t + q;
    if t == [] {
      assert s == (p + q) + [];
      assert AllWhitespace(p + q) by {
        forall i | 0 <= i < |p + q| ensures IsWhitespace((p + q)[i]) {
          if i < |p| { assert (p + q)[i] == p[i]; } else { assert (p + q)[i] == q[i - |p|]; }
        }
      }
      LeadingOfPadded(p + q, []);
    } else {
      assert s == p + (t + q);
      LeadingOfPadded(p, t + q);
      assert s[|p|..] == t + q;
      TrailingOfPadded(t, q);
    }
  }

  /** Text that is already trimmed is left alone. */
  lemma TrimTrimmed(t: string)
    requires t == [] || (!IsWhitespace(t[0]) && !IsWhitespace(t[|t| - 1]))
    ensures Trim(t) == t
  {
    assert t == [] + t + [];
    TrimOfPadded([], t, []);
  }

  // --------------------------------------------------------------- split

  /** `str::split(sep)` for a single-character separator: the pieces
      between separators, in order; there is always at least one. */
  function Split(s: string, sep: char): (r: seq<string>)
    ensures |r| >= 1
    ensures forall k :: 0 <= k < |r| ==> sep !in r[k]
    decreases |s|
  {
    if s == [] then [""]
    else
      var rest := Split(s[1..], sep);
      if s[0] == sep then [""] + rest
      else [[s[0]] + rest[0]] + rest[1..]
  }

  /** There is one more piece than there are separators. */
  lemma {:induction false} SplitCount(s: string, sep: char)
    ensures |Split(s, sep)| == multiset(s)[sep] + 1
    decreases |s|
  {
    if s != [] {
      SplitCount(s[1..], sep);
      assert s == [s[0]] + s[1..];
      assert multiset(s) == multiset([s[0]]) + multiset(s[1..]);
    }
  }

  /** The pieces glued back together with the separator between them. */
  function Join(ps: seq<string>, sep: char): string
    decreases |ps|
  {
    if ps == [] then ""
    else if |ps| == 1 then ps[0]
    else ps[0] + [sep] + Join(ps[1..], sep)
  }

  /** Splitting loses nothing: joining the pieces rebuilds the text. */
  lemma {:induction false} JoinSplit(s: string, sep: char)
    ensures Join(Split(s, sep), sep) == s
    decreases |s|
  {
    if s != [] {
      var rest := Split(s[1..], sep);
      JoinSplit(s[1..], sep);
      if s[0] == sep {
        assert Split(s, sep) == [""] + rest;
        assert ([""] + rest)[1..] == rest;
        assert s == [] + [sep] + s[1..];
      } else {
        var first := [s[0]] + rest[0];
        var r := [first] + rest[1..];
        assert Split(s, sep) == r;
        if |rest| == 1 {
          assert s == [s[0]] + s[1..];
        } else {
          assert Join(rest, sep) == rest[0] + [sep] + Join(rest[1..], sep);
          assert r[1..] == rest[1..];
          assert s == [s[0]] + s[1..];
        }
      }
    }
  }

  /** A piece without the separator splits to itself. */
  lemma {:induction false} SplitNoSeparator(a: string, sep: char)
    requires sep !in a
    ensures Split(a, sep) == [a]
    decreases |a|
  {
    if a != [] {
      SplitNoSeparator(a[1..], sep);
      assert [a[0]] + a[1..] == a;
    }
  }

  /** The first separator ends the first piece. */
  lemma {:induction false} SplitAtSeparator(a: string, sep: char, t: string)
    requires sep !in a
    ensures Split(a + [sep] + t, sep) == [a] + Split(t, sep)
    decreases |a|
  {
    var s := a + [sep] + t;
    if a == [] {
      assert s[1..] == t;
    } else {
      assert s[1..] == a[1..] + [sep] + t;
      SplitAtSeparator(a[1..], sep, t);
      assert [a[0]] + a[1..] == a;
    }
  }

  /** Splitting undoes joining, when no piece holds the separator. */
  lemma {:induction false} SplitJoin(ps: seq<string>, sep: char)
    requires |ps| >= 1
    requires forall k :: 0 <= k < |ps| ==> sep !in ps[k]
    ensures Split(Join(ps, sep), sep) == ps
    decreases |ps|
  {
    if |ps| == 1 {
      SplitNoSeparator(ps[0], sep);
    } else {
      SplitJoin(ps[1..], sep);
      SplitAtSeparator(ps[0], sep, Join(ps[1..], sep));
      assert [ps[0]] + ps[1..] == ps;
    }
  }

  // --------------------------------------------------------------- lines

  /** A line ending of "\r\n" leaves its '\r' to be dropped. */
  function StripCarriageReturn(l: string): (r: string)
    ensures r == l || (l == r + ['\r'])
  {
    if |l| > 0 && l[|l| - 1] == '\r' then l[..|l| - 1] else l
  }

  /** Every piece but the last is followed by a '\n'; each loses the '\r'
      of a "\r\n" line ending. */
  function EndedLines(ps: seq<string>): (r: seq<string>)
    requires forall k :: 0 <= k < |ps| ==> '\n' !in ps[k]
    ensures |r| == |ps|
    ensures forall k :: 0 <= k < |r| ==> r[k] == StripCarriageReturn(ps[k]) && '\n' !in r[k]
    decreases |ps|
  {
    if ps == [] then []
    else
      var l := StripCarriageReturn(ps[0]);
      assert '\n' !in l by {
        if ps[0] == l + ['\r'] { assert forall i :: 0 <= i < |l| ==> l[i] == ps[0][i]; }
      }
      [l] + EndedLines(ps[1..])
  }

  lemma {:induction false} EndedLinesUnchanged(ps: seq<string>)
    requires forall k :: 0 <= k < |ps| ==> '\n' !in ps[k] && StripCarriageReturn(ps[k]) == ps[k]
    ensures EndedLines(ps) == ps
    decreases |ps|
  {
    if ps != [] {
      EndedLinesUnchanged(ps[1..]);
      assert [ps[0]] + ps[1..] == ps;
    }
  }

  /** The lines made of the pieces between '\n's: every piece but the last
      ended with a '\n'; the last one is a line only when it is not empty. */
  function LinesOfPieces(ps: seq<string>): (r: seq<string>)
    requires |ps| >= 1
    requires forall k :: 0 <= k < |ps| ==> '\n' !in ps[k]
    ensures forall k :: 0 <= k < |r| ==> '\n' !in r[k]
  {
    var last := ps[|ps| - 1];
    EndedLines(ps[..|ps| - 1]) + (if last == "" then [] else [last])
  }

  /** `str::lines`: the text cut at every '\n'; a '\r' just before a
      '\n' goes with the line ending; a final line ending does not start
      an empty last line, and the empty text has no lines. */
  function Lines(s: string): (r: seq<string>)
    ensures forall k :: 0 <= k < |r| ==> '\n' !in r[k]
  {
    LinesOfPieces(Split(s, '\n'))
  }

  lemma EndedLinesCons(h: string, ps: seq<string>)
    requires '\n' !in h
    requires forall k :: 0 <= k < |ps| ==> '\n' !in ps[k]
    ensures EndedLines([h] + ps) == [StripCarriageReturn(h)] + EndedLines(ps)
  {
    assert ([h] + ps)[1..] == ps;
  }

  lemma LinesOfPiecesCons(h: string, qs: seq<string>)
    requires '\n' !in h && |qs| >= 1
    requires forall k :: 0 <= k < |qs| ==> '\n' !in qs[k]
    ensures LinesOfPieces([h] + qs) == [StripCarriageReturn(h)] + LinesOfPieces(qs)
  {
    var ps := [h] + qs;
    var init := qs[..|qs| - 1];
    assert ps[..|ps| - 1] == [h] + init;
    assert ps[|ps| - 1] == qs[|qs| - 1];
    EndedLinesCons(h, init);
  }

  /** A line without '\n' followed by a line ending comes out first, and
      the rest of the text is split as if on its own. */
  lemma LinesCons(h: string, rest: string)
    requires '\n' !in h
    ensures Lines(h + "\n" + rest) == [StripCarriageReturn(h)] + Lines(rest)
  {
    SplitAtSeparator(h, '\n', rest);
    assert h + "\n" + rest == h + ['\n'] + rest;
    LinesOfPiecesCons(h, Split(rest, '\n'));
  }

  /** Pieces that are already whole lines come out of `lines` as they are. */
  lemma LinesOfWholePieces(s: string, ls: seq<string>)
    requires Split(s, '\n') == ls
    requires ls[|ls| - 1] != ""
    requires forall k :: 0 <= k < |ls| ==> StripCarriageReturn(ls[k]) == ls[k]
    ensures Lines(s) == ls
  {
    var init := ls[..|ls| - 1];
    EndedLinesUnchanged(init);
    assert init + [ls[|ls| - 1]] == ls;
  }

  /** Text made of lines joined by '\n' reads back as those lines, when no
      line holds a '\n', none ends in '\r' and the last is not empty. */
  lemma LinesJoin(ls: seq<string>)
    requires |ls| >= 1 && ls[|ls| - 1] != ""
    requires forall k :: 0 <= k < |ls| ==> '\n' !in ls[k] && StripCarriageReturn(ls[k]) == ls[k]
    ensures Lines(Join(ls, '\n')) == ls
  {
    SplitJoin(ls, '\n');
    LinesOfWholePieces(Join(ls, '\n'), ls);
  }

  // ---------------------------------------------------- split_whitespace

  /** How many characters of `s` come before its first whitespace. */
  function WordLength(s: string): (n: nat)
    ensures n <= |s| && NoWhitespace(s[..n])
    ensures n == |s| || IsWhitespace(s[n])
    decreases |s|
  {
    if s != [] && !IsWhitespace(s[0]) then
      var m := WordLength(s[1..]);
      assert NoWhitespace(s[..1 + m]) by {
        forall i | 0 <= i < 1 + m ensures !IsWhitespace(s[i]) {
          if i > 0 { assert s[i] == s[1..][..m][i - 1]; }
        }
      }
      1 + m
    else 0
  }

  /** `str::split_whitespace`: the maximal runs of non-whitespace, in order. */
  function SplitWhitespace(s: string): (r: seq<string>)
    ensures forall k :: 0 <= k < |r| ==> r[k] != [] && NoWhitespace(r[k])
    decreases |s|
  {
    if s == [] then []
    else if IsWhitespace(s[0]) then SplitWhitespace(s[1..])
    else
      var n := WordLength(s);
      [s[..n]] + SplitWhitespace(s[n..])
  }

  lemma {:induction false} WordLengthOfWord(w: string, t: string)
    requires NoWhitespace(w)
    requires t == [] || IsWhitespace(t[0])
    ensures WordLength(w + t) == |w|
    decreases |w|
  {
    if w != [] {
      assert (w + t)[1..] == w[1..] + t;
      WordLengthOfWord(w[1..], t);
    } else {
      assert w + t == t;
    }
  }

  /** Words joined by single spaces split back into those words. */
  lemma {:induction false} SplitWhitespaceJoin(ws: seq<string>)
    requires forall k :: 0 <= k < |ws| ==> ws[k] != [] && NoWhitespace(ws[k])
    ensures SplitWhitespace(Join(ws, ' ')) == ws
    decreases |ws|
  {
    if |ws| == 1 {
      WordLengthOfWord(ws[0], []);
      assert ws[0] + [] == ws[0];
      assert ws[0][|ws[0]|..] == [];
    } else if |ws| > 1 {
      var rest := Join(ws[1..], ' ');
      var s := ws[0] + [' '] + rest;
      assert s == ws[0] + ([' '] + rest);
      WordLengthOfWord(ws[0], [' '] + rest);
      assert s[..|ws[0]|] == ws[0];
      assert s[|ws[0]|..] == [' '] + rest;
      assert ([' '] + rest)[1..] == rest;
      SplitWhitespaceJoin(ws[1..]);
      assert [ws[0]] + ws[1..] == ws;
    }
  }

  // ------------------------------------------------------------ contains

  predicate StartsWith(s: string, p: string) {
    |p| <= |s| && s[..|p|] == p
  }

  /** `str::contains` for a string pattern, searched position by position. */
  predicate Contains(s: string, p: string)
    decreases |s|
  {
    StartsWith(s, p) || (s != [] && Contains(s[1..], p))
  }

  predicate OccursAt(s: string, p: string, i: int) {
    0 <= i <= |s| - |p| && s[i..i + |p|] == p
  }

  /** The search finds the pattern exactly when it occurs somewhere. */
  lemma {:induction false} ContainsIff(s: string, p: string)
    ensures Contains(s, p) <==> exists i :: OccursAt(s, p, i)
    decreases |s|
  {
    if StartsWith(s, p) {
      assert OccursAt(s, p, 0);
    }
    if s != [] {
      ContainsIff(s[1..], p);
      if Contains(s[1..], p) {
        var i :| OccursAt(s[1..], p, i);
        assert s[1..][i..i + |p|] == s[i + 1..i + 1 + |p|];
        assert OccursAt(s, p, i + 1);
      }
      if i :| OccursAt(s, p, i) {
        if i > 0 {
          assert s[1..][i - 1..i - 1 + |p|] == s[i..i + |p|];
          assert OccursAt(s[1..], p, i - 1);
        }
      }
    }
  }

  // ------------------------------------------------------------- numbers

  predicate IsDigit(c: char) {
    '0' <= c <= '9'
  }

  predicate AllDigits(s: string) {
    forall i :: 0 <= i < |s| ==> IsDigit(s[i])
  }

  function DigitValue(c: char): nat
    requires IsDigit(c)
  {
    c as int - '0' as int
  }

  /** The value of a run of decimal digits, most significant first. */
  function DigitsValue(s: string): nat
    requires AllDigits(s)
    decreases |s|
  {
    if s == [] then 0 else 10 * DigitsValue(s[..|s| - 1]) + DigitValue(s[|s| - 1])
  }

  /** The decimal numeral of `n`, without leading zeros. */
  function NatToString(n: nat): (r: string)
    ensures |r| >= 1 && AllDigits(r)
    decreases n
  {
    if n < 10 then [('0' as int + n) as char]
    else NatToString(n / 10) + [('0' as int + n % 10) as char]
  }

  lemma {:induction false} DigitsValueOfNatToString(n: nat)
    ensures DigitsValue(NatToString(n)) == n
    decreases n
  {
    if n >= 10 {
      DigitsValueOfNatToString(n / 10);
      var s := NatToString(n);
      assert s[..|s| - 1] == NatToString(n / 10);
    }
  }

  /** The largest `u32`. */
  const U32Max: nat := 0xFFFF_FFFF

  /** `str::parse` for an unsigned integer type whose largest value is
      `max`: an optional '+', then one or more ASCII digits whose value
      fits; anything else (empty text, a '-', a space, an overflow) fails. */
  function ParseUnsigned(s: string, max: nat): (r: Option<nat>)
    ensures r.Some? ==> r.value <= max
  {
    var digits := if |s| > 0 && s[0] == '+' then s[1..] else s;
    if |digits| > 0 && AllDigits(digits) && DigitsValue(digits) <= max then
      Some(DigitsValue(digits))
    else None
  }

  /** Parsing reads back every numeral that fits, with or without a
      '+', and rejects every numeral that does not. */
  lemma ParseUnsignedOfNatToString(n: nat, max: nat)
    ensures ParseUnsigned(NatToString(n), max) == (if n <= max then Some(n) else None)
    ensures ParseUnsigned("+" + NatToString(n), max) == (if n <= max then Some(n) else None)
  {
    DigitsValueOfNatToString(n);
    var s := NatToString(n);
    assert s[0] != '+';
    assert ("+" + s)[1..] == s;
  }

  /** Text holding anything but digits after the optional sign fails. */
  lemma ParseUnsignedRejectsNonDigit(s: string, max: nat, i: nat)
    requires i < |s| && !IsDigit(s[i]) && !(i == 0 && s[i] == '+')
    ensures ParseUnsigned(s, max) == None
  {
    if |s| > 0 && s[0] == '+' {
      assert s[1..][i - 1] == s[i];
    }
  }
}
