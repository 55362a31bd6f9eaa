/**
 * The rule parser of the tracking engine (`rules_parser.py`): free text such as
 * `понедельник: 08:00-12:00, сегодня 10:00-14:00, 25.03` becomes a list of
 * `{type, value, timeRanges}` records, with time ranges canonicalised to
 * `HH:MM-HH:MM` and `сегодня`/`завтра` frozen to concrete ISO dates.
 */
module RulesParser {
  import opened Options
  import opened PyText
  import opened Calendar
  import Sequences

  /** A structured tracking rule `{type, value, timeRanges}`; a missing field is "" or []. */
  datatype Rule = Rule(kind: string, value: string, timeRanges: seq<string>)

  // ---------------- normalize_time_range ----------------

  const EnDash: char := '–'
  const EmDash: char := '—'

  /** One of the three dash characters of the regex class `[-–—]`. */
  predicate IsDash(c: char) {
    c == '-' || c == EnDash || c == EmDash
  }

  /** `re.sub(r'[-–—]', '-', s)` (equivalently `[—–]`). */
  function UnifyDashes(s: string): (r: string)
    ensures |r| == |s|
    ensures forall i :: 0 <= i < |s| ==> r[i] == (if IsDash(s[i]) then '-' else s[i])
  {
    if s == [] then [] else [if IsDash(s[0]) then '-' else s[0]] + UnifyDashes(s[1..])
  }

  predicate NoLongDashes(s: string) {
    forall i :: 0 <= i < |s| ==> s[i] != EnDash && s[i] != EmDash
  }

  lemma UnifyDashesFacts(s: string)
    ensures NoLongDashes(UnifyDashes(s))
    ensures IsStripped(s) ==> IsStripped(UnifyDashes(s))
    ensures NoLongDashes(s) ==> UnifyDashes(s) == s
  {
  }

  /** No whitespace next to any `-`. */
  predicate TightDashes(s: string) {
    forall i :: 0 <= i < |s| && s[i] == '-' ==>
      (i == 0 || !IsSpace(s[i - 1])) && (i == |s| - 1 || !IsSpace(s[i + 1]))
  }

  /**
   * `re.sub(r'\s*-\s*', '-', s)`: scanning left to right, a whitespace run followed by `-`
   * and the whitespace after it collapse to `-`; any other character is copied.
   */
  function TightenDashes(s: string): (r: string)
    ensures |r| <= |s|
    decreases |s|
  {
    if s == [] then []
    else
      var k := SpaceRun(s);
      if k < |s| && s[k] == '-' then
        var rest := s[k + 1..];
        "-" + TightenDashes(rest[SpaceRun(rest)..])
      else [s[0]] + TightenDashes(s[1..])
  }

  /** What follows a `-` and the whitespace after it. */
  function AfterDash(s: string): string
    requires SpaceRun(s) < |s|
  {
    var rest := s[SpaceRun(s) + 1..];
    rest[SpaceRun(rest)..]
  }

  lemma TightenAtDash(s: string)
    requires s != [] && SpaceRun(s) < |s| && s[SpaceRun(s)] == '-'
    ensures TightenDashes(s) == "-" + TightenDashes(AfterDash(s))
  {
  }

  lemma TightenAtOther(s: string)
    requires s != [] && !(SpaceRun(s) < |s| && s[SpaceRun(s)] == '-')
    ensures TightenDashes(s) == [s[0]] + TightenDashes(s[1..])
  {
  }

  /** The first output character: `-` exactly when the input opens with whitespace then `-`, else the first input character. */
  lemma TightenHead(s: string)
    requires s != []
    ensures TightenDashes(s) != []
    ensures TightenDashes(s)[0] == '-' <==> (SpaceRun(s) < |s| && s[SpaceRun(s)] == '-')
    ensures TightenDashes(s)[0] != '-' ==> TightenDashes(s)[0] == s[0]
  {
  }

  /** A whitespace run that reaches a `-` after the first character reaches it from the start too. */
  lemma SpaceRunDash(s: string)
    requires |s| > 1 && IsSpace(s[0])
    ensures SpaceRun(s[1..]) < |s| - 1 && s[1..][SpaceRun(s[1..])] == '-' ==> SpaceRun(s) < |s| && s[SpaceRun(s)] == '-'
  {
    assert SpaceRun(s) == 1 + SpaceRun(s[1..]);
  }

  lemma TightPrependDash(tail: string)
    requires TightDashes(tail) && (tail == [] || !IsSpace(tail[0]))
    ensures TightDashes("-" + tail)
  {
    var r := "-" + tail;
    forall i | 0 <= i < |r| && r[i] == '-'
      ensures (i == 0 || !IsSpace(r[i - 1])) && (i == |r| - 1 || !IsSpace(r[i + 1]))
    {
      if i > 0 {
        assert r[i] == tail[i - 1];
        if i + 1 < |r| { assert r[i + 1] == tail[i]; }
        if i > 1 { assert r[i - 1] == tail[i - 2]; }
      }
    }
  }

  lemma TightPrependChar(c: char, tail: string)
    requires TightDashes(tail) && c != '-'
    requires tail != [] && tail[0] == '-' ==> !IsSpace(c)
    ensures TightDashes([c] + tail)
  {
    var r := [c] + tail;
    forall i | 0 <= i < |r| && r[i] == '-'
      ensures (i == 0 || !IsSpace(r[i - 1])) && (i == |r| - 1 || !IsSpace(r[i + 1]))
    {
      assert r[i] == tail[i - 1];
      if i + 1 < |r| { assert r[i + 1] == tail[i]; }
      if i > 1 { assert r[i - 1] == tail[i - 2]; }
    }
  }

  lemma {:induction false} TightenIsTight(s: string)
    ensures TightDashes(TightenDashes(s))
    decreases |s|
  {
    if s != [] {
      var k := SpaceRun(s);
      if k < |s| && s[k] == '-' {
        var rest := s[k + 1..];
        var rest2 := rest[SpaceRun(rest)..];
        TightenIsTight(rest2);
        var tail := TightenDashes(rest2);
        assert TightenDashes(s) == "-" + tail;
        if rest2 != [] {
          TightenHead(rest2);
          assert !IsSpace(rest2[0]);
        }
        TightPrependDash(tail);
      } else {
        var tail := TightenDashes(s[1..]);
        TightenIsTight(s[1..]);
        assert TightenDashes(s) == [s[0]] + tail;
        assert s[0] != '-';
        if |s| > 1 {
          TightenHead(s[1..]);
          if IsSpace(s[0]) {
            SpaceRunDash(s);
          }
        }
        TightPrependChar(s[0], tail);
      }
    }
  }

  lemma {:induction false} TightenOfTight(s: string)
    requires TightDashes(s)
    ensures TightenDashes(s) == s
    decreases |s|
  {
    if s != [] {
      var k := SpaceRun(s);
      assert k > 0 ==> IsSpace(s[k - 1]);
      assert TightDashes(s[1..]) by {
        forall i | 0 <= i < |s[1..]| && s[1..][i] == '-'
          ensures (i == 0 || !IsSpace(s[1..][i - 1])) && (i == |s[1..]| - 1 || !IsSpace(s[1..][i + 1]))
        {
          assert s[i + 1] == '-';
        }
      }
      if k < |s| && s[k] == '-' {
        assert k == 0;
        var rest := s[1..];
        assert SpaceRun(rest) == 0 by {
          if rest != [] { assert s[1] == rest[0]; }
        }
        assert rest[0..] == rest;
        TightenOfTight(rest);
        assert s == "-" + rest;
      } else {
        TightenOfTight(s[1..]);
        assert s == [s[0]] + s[1..];
      }
    }
  }

  /** The text is not empty and does not end in whitespace. */
  predicate SolidEnd(s: string) {
    s != [] && !IsSpace(s[|s| - 1])
  }

  lemma SolidEndDrop(s: string, j: nat)
    requires SolidEnd(s) && j < |s|
    ensures SolidEnd(s[j..])
  {
    Sequences.LastOfDrop(s, j);
  }

  lemma SolidEndConcat(a: string, b: string)
    requires SolidEnd(b)
    ensures SolidEnd(a + b)
  {
    assert (a + b)[|a + b| - 1] == b[|b| - 1];
  }

  lemma {:induction false} TightenLast(s: string)
    requires SolidEnd(s)
    ensures SolidEnd(TightenDashes(s))
    decreases |s|
  {
    var k := SpaceRun(s);
    if k < |s| && s[k] == '-' {
      var rest2 := AfterDash(s);
      TightenAtDash(s);
      if rest2 != [] {
        var rest := s[k + 1..];
        SolidEndDrop(s, k + 1);
        SolidEndDrop(rest, SpaceRun(rest));
        TightenLast(rest2);
        SolidEndConcat("-", TightenDashes(rest2));
      } else {
        assert TightenDashes(s) == "-";
      }
    } else {
      TightenAtOther(s);
      if |s| > 1 {
        SolidEndDrop(s, 1);
        TightenLast(s[1..]);
        SolidEndConcat([s[0]], TightenDashes(s[1..]));
      } else {
        assert s[1..] == [];
      }
    }
  }

  lemma TightenKeepsStripped(s: string)
    requires IsStripped(s)
    ensures IsStripped(TightenDashes(s))
  {
    if s != [] {
      TightenHead(s);
      TightenLast(s);
    }
  }

  lemma {:induction false} TightenNoLongDashes(s: string)
    requires NoLongDashes(s)
    ensures NoLongDashes(TightenDashes(s))
    decreases |s|
  {
    if s != [] {
      var k := SpaceRun(s);
      if k < |s| && s[k] == '-' {
        var rest := s[k + 1..];
        var rest2 := AfterDash(s);
        NoLongDashesSuffix(s, k + 1);
        NoLongDashesSuffix(rest, SpaceRun(rest));
        TightenNoLongDashes(rest2);
        TightenAtDash(s);
        NoLongDashesCons('-', TightenDashes(rest2));
      } else {
        NoLongDashesSuffix(s, 1);
        TightenNoLongDashes(s[1..]);
        TightenAtOther(s);
        NoLongDashesCons(s[0], TightenDashes(s[1..]));
      }
    }
  }

  lemma NoLongDashesSuffix(s: string, j: nat)
    requires NoLongDashes(s) && j <= |s|
    ensures NoLongDashes(s[j..])
  {
    forall i | 0 <= i < |s[j..]| ensures s[j..][i] != EnDash && s[j..][i] != EmDash {
      assert s[j..][i] == s[j + i];
    }
  }

  lemma NoLongDashesCons(c: char, t: string)
    requires c != EnDash && c != EmDash && NoLongDashes(t)
    ensures NoLongDashes([c] + t)
  {
    forall i | 0 <= i < |[c] + t| ensures ([c] + t)[i] != EnDash && ([c] + t)[i] != EmDash {
      if i > 0 {
        assert ([c] + t)[i] == t[i - 1];
      }
    }
  }



  /** `$` without MULTILINE: the end of the text, or just before a final newline. */
  predicate AtEnd(s: string, i: int) {
    i == |s| || (i == |s| - 1 && 0 <= i && s[i] == '\n')
  }

  /** The four digit groups of `^(\d{1,2})(\d{2})\s*-\s*(\d{1,2})(\d{2})$` (the `:?` never sees a colon). */
  datatype Groups = Groups(h1: string, m1: string, h2: string, m2: string)

  predicate GroupsWellFormed(g: Groups) {
    1 <= |g.h1| <= 2 && |g.m1| == 2 && 1 <= |g.h2| <= 2 && |g.m2| == 2
    && AllDigits(g.h1) && AllDigits(g.m1) && AllDigits(g.h2) && AllDigits(g.m2)
  }

  /**
   * The regex match on the colon-free text. Each side must be a run of exactly three or
   * four digits: the hour takes the digits before the last two, whatever the backtracking.
   */
  function MatchCompact(u: string): (r: Option<Groups>)
    ensures r.Some? ==> GroupsWellFormed(r.value)
  {
    var a := DigitRun(u);
    if a != 3 && a != 4 then None
    else
      var p := a + SpaceRun(u[a..]);
      if p >= |u| || u[p] != '-' then None
      else
        var q := p + 1 + SpaceRun(u[p + 1..]);
        var b := DigitRun(u[q..]);
        if (b != 3 && b != 4) || !AtEnd(u, q + b) then None
        else
          assert forall i :: 0 <= i < b ==> u[q + i] == u[q..][i];
          Some(Groups(u[..a - 2], u[a - 2..a], u[q..q + b - 2], u[q + b - 2..q + b]))
  }

  lemma SmallDecValue(s: string)
    requires AllDigits(s) && |s| <= 2
    ensures DecValue(s) < 100
  {
    if |s| == 2 {
      DecValueOfTwo(s);
    } else if |s| == 1 {
      assert s[..0] == [];
    }
  }

  /** The text `h1:m1-h2:m2`. */
  function RangeText(h1: string, m1: string, h2: string, m2: string): string {
    h1 + (":" + (m1 + ("-" + (h2 + (":" + m2)))))
  }

  /** The text `h1m1-h2m2`, what the regex sees once the colons are gone. */
  function CompactText(h1: string, m1: string, h2: string, m2: string): string {
    h1 + (m1 + ("-" + (h2 + m2)))
  }

  /** `HH:MM-HH:MM`, every field two ASCII digits. */
  predicate IsCanonicalRange(s: string) {
    |s| == 11 && s[2] == ':' && s[5] == '-' && s[8] == ':'
    && IsDigit(s[0]) && IsDigit(s[1]) && IsDigit(s[3]) && IsDigit(s[4])
    && IsDigit(s[6]) && IsDigit(s[7]) && IsDigit(s[9]) && IsDigit(s[10])
  }

  function CanonicalOf(g: Groups): (r: string)
    requires GroupsWellFormed(g)
    ensures IsCanonicalRange(r)
  {
    SmallDecValue(g.h1);
    SmallDecValue(g.h2);
    var h1 := Pad2(DecValue(g.h1));
    var h2 := Pad2(DecValue(g.h2));
    var r := RangeText(h1, g.m1, h2, g.m2);
    assert r[0] == h1[0] && r[1] == h1[1] && r[3] == g.m1[0] && r[4] == g.m1[1];
    assert r[6] == h2[0] && r[7] == h2[1] && r[9] == g.m2[0] && r[10] == g.m2[1];
    r
  }

  /** The text that `normalize_time_range` examines: stripped, dashes unified, spaces around dashes removed. */
  function Tidy(tr: string): string {
    TightenDashes(UnifyDashes(Strip(tr)))
  }

  /**
   * `normalize_time_range(tr)`: `H:MM-HH:MM` in any spacing and with any dash becomes
   * `HH:MM-HH:MM`; anything else comes back tidied; empty text comes back unchanged.
   */
  function NormalizeTimeRange(tr: string): (r: string)
    ensures tr == [] ==> r == []
    ensures NoLongDashes(r) && TightDashes(r) && IsStripped(r)
  {
    if tr == [] then tr
    else
      var t := Tidy(tr);
      UnifyDashesFacts(Strip(tr));
      TightenIsTight(UnifyDashes(Strip(tr)));
      TightenKeepsStripped(UnifyDashes(Strip(tr)));
      TightenNoLongDashes(UnifyDashes(Strip(tr)));
      match MatchCompact(RemoveChar(t, ':'))
      case Some(g) => CanonicalTidy(CanonicalOf(g)); CanonicalOf(g)
      case None => t
  }

  lemma CanonicalTidy(s: string)
    requires IsCanonicalRange(s)
    ensures NoLongDashes(s) && TightDashes(s) && IsStripped(s)
  {
  }

  lemma CanonicalPieces(s: string)
    requires IsCanonicalRange(s)
    ensures s == RangeText(s[..2], s[3..5], s[6..8], s[9..])
    ensures AllDigits(s[..2]) && AllDigits(s[3..5]) && AllDigits(s[6..8]) && AllDigits(s[9..])
  {
  }

  lemma MatchCanonical(s: string)
    requires IsCanonicalRange(s)
    ensures MatchCompact(RemoveChar(s, ':')) == Some(Groups(s[..2], s[3..5], s[6..8], s[9..]))
  {
    CanonicalPieces(s);
    RemoveColonsOfClock(s[..2], s[3..5], s[6..8], s[9..]);
    MatchCompactOf(s[..2], s[3..5], s[6..8], s[9..]);
  }

  /** Text that is already stripped, with one kind of dash and no space beside it, is left as it is. */
  lemma TidyOfTidy(s: string)
    requires IsStripped(s) && NoLongDashes(s) && TightDashes(s)
    ensures Tidy(s) == s
  {
    StripOfStripped(s);
    UnifyDashesFacts(s);
    TightenOfTight(s);
  }

  /** A canonical `HH:MM-HH:MM` is a fixed point. */
  lemma NormalizeCanonical(s: string)
    requires IsCanonicalRange(s)
    ensures NormalizeTimeRange(s) == s
  {
    CanonicalTidy(s);
    TidyOfTidy(s);
    MatchCanonical(s);
    CanonicalOfPieces(s);
  }

  /** Rebuilding a canonical range from its four fields gives it back. */
  lemma CanonicalOfPieces(s: string)
    requires IsCanonicalRange(s)
    ensures GroupsWellFormed(Groups(s[..2], s[3..5], s[6..8], s[9..]))
    ensures CanonicalOf(Groups(s[..2], s[3..5], s[6..8], s[9..])) == s
  {
    CanonicalPieces(s);
    var g := Groups(s[..2], s[3..5], s[6..8], s[9..]);
    Pad2OfDigits(g.h1);
    Pad2OfDigits(g.h2);
    assert CanonicalOf(g) == RangeText(g.h1, g.m1, g.h2, g.m2);
  }

  /** Normalising twice is normalising once, for every input. */
  lemma NormalizeTimeRangeIdempotent(tr: string)
    ensures NormalizeTimeRange(NormalizeTimeRange(tr)) == NormalizeTimeRange(tr)
  {
    var r := NormalizeTimeRange(tr);
    if tr != [] {
      var t := Tidy(tr);
      match MatchCompact(RemoveChar(t, ':'))
      case Some(g) => NormalizeCanonical(r);
      case None =>
        assert r == t;
        if r != [] {
          TidyOfTidy(r);
        }
    }
  }

  /** `9:00-10:00`, or any one- or two-digit hours with two-digit minutes, comes out zero-padded. */
  lemma NormalizePadsHours(h1: nat, m1: nat, h2: nat, m2: nat)
    requires h1 < 100 && m1 < 100 && h2 < 100 && m2 < 100
    ensures NormalizeTimeRange(RangeText(DecimalString(h1), Pad2(m1), DecimalString(h2), Pad2(m2)))
         == RangeText(Pad2(h1), Pad2(m1), Pad2(h2), Pad2(m2))
  {
    var a := DecimalString(h1);
    var b := DecimalString(h2);
    DecimalStringSmall(h1);
    DecimalStringSmall(h2);
    var s := RangeText(a, Pad2(m1), b, Pad2(m2));
    ClockRangeTidy(a, Pad2(m1), b, Pad2(m2));
    TidyOfTidy(s);
    RemoveColonsOfClock(a, Pad2(m1), b, Pad2(m2));
    MatchCompactOf(a, Pad2(m1), b, Pad2(m2));
    DecValueOfDecimal(h1);
    DecValueOfDecimal(h2);
  }

  lemma ClockRangeTidy(a: string, m1: string, b: string, m2: string)
    requires 1 <= |a| <= 2 && |m1| == 2 && 1 <= |b| <= 2 && |m2| == 2
    requires AllDigits(a) && AllDigits(m1) && AllDigits(b) && AllDigits(m2)
    ensures var s := RangeText(a, m1, b, m2);
      IsStripped(s) && NoLongDashes(s) && TightDashes(s)
  {
    var s := RangeText(a, m1, b, m2);
    var d := |a| + 3;
    assert s[d] == '-';
    forall i | 0 <= i < |s| && s[i] == '-'
      ensures (i == 0 || !IsSpace(s[i - 1])) && (i == |s| - 1 || !IsSpace(s[i + 1]))
    {
      assert i == d;
      assert s[d - 1] == m1[1] && s[d + 1] == b[0];
    }
  }

  lemma DecimalStringSmall(n: nat)
    requires n < 100
    ensures 1 <= |DecimalString(n)| <= 2
  {
  }

  lemma {:induction false} DecValueOfDecimal(n: nat)
    ensures DecValue(DecimalString(n)) == n
    decreases n
  {
    if n >= 10 {
      DecValueOfDecimal(n / 10);
      var s := DecimalString(n);
      assert s[..|s| - 1] == DecimalString(n / 10);
    }
  }

  lemma RemoveColonsOfClock(a: string, m1: string, b: string, m2: string)
    requires AllDigits(a) && AllDigits(m1) && AllDigits(b) && AllDigits(m2)
    ensures RemoveChar(RangeText(a, m1, b, m2), ':') == CompactText(a, m1, b, m2)
  {
    var t4 := b + (":" + m2);
    var t2 := m1 + ("-" + t4);
    RemoveColonHead(m2);
    DigitsHaveNoColon(m2);
    RemoveDigitsHead(b, ":" + m2);
    RemoveDashHead(t4);
    RemoveDigitsHead(m1, "-" + t4);
    RemoveColonHead(t2);
    RemoveDigitsHead(a, ":" + t2);
  }

  lemma RemoveColonHead(x: string)
    ensures RemoveChar(":" + x, ':') == RemoveChar(x, ':')
  {
    assert (":" + x)[1..] == x;
  }

  lemma RemoveDashHead(x: string)
    ensures RemoveChar("-" + x, ':') == "-" + RemoveChar(x, ':')
  {
    assert ("-" + x)[1..] == x;
  }

  lemma RemoveDigitsHead(d: string, x: string)
    requires AllDigits(d)
    ensures RemoveChar(d + x, ':') == d + RemoveChar(x, ':')
  {
    RemoveAppend(d, x, ':');
    DigitsHaveNoColon(d);
  }

  lemma DigitsHaveNoColon(d: string)
    requires AllDigits(d)
    ensures RemoveChar(d, ':') == d
  {
    assert ':' !in d;
    RemoveAbsent(d, ':');
  }

  lemma {:induction false} RemoveAppend(x: string, y: string, c: char)
    ensures RemoveChar(x + y, c) == RemoveChar(x, c) + RemoveChar(y, c)
    decreases |x|
  {
    if x == [] {
      assert x + y == y;
    } else {
      assert (x + y)[0] == x[0];
      assert (x + y)[1..] == x[1..] + y;
      RemoveAppend(x[1..], y, c);
    }
  }

  lemma {:induction false} DigitRunOfDigitsThen(d: string, t: string)
    requires AllDigits(d) && (t == [] || !IsDigit(t[0]))
    ensures DigitRun(d + t) == |d|
    decreases |d|
  {
    if d != [] {
      assert (d + t)[1..] == d[1..] + t;
      DigitRunOfDigitsThen(d[1..], t);
    } else {
      assert d + t == t;
    }
  }

  lemma NoSpaceRun(s: string)
    requires s != [] && !IsSpace(s[0])
    ensures SpaceRun(s) == 0
  {
  }

  /** The positions MatchCompact computes on `left-right`, for digit runs `left` and `right`. */
  lemma CompactPositions(left: string, right: string)
    requires 3 <= |left| <= 4 && 3 <= |right| <= 4 && AllDigits(left) && AllDigits(right)
    ensures var u := left + ("-" + right);
      && DigitRun(u) == |left|
      && SpaceRun(u[|left|..]) == 0
      && u[|left|] == '-'
      && SpaceRun(u[|left| + 1..]) == 0
      && DigitRun(u[|left| + 1..]) == |right|
      && |u| == |left| + 1 + |right|
  {
    var u := left + ("-" + right);
    DigitRunOfDigitsThen(left, "-" + right);
    assert u[|left|..] == "-" + right;
    NoSpaceRun(u[|left|..]);
    assert u[|left| + 1..] == right;
    NoSpaceRun(right);
    DigitRunOfDigitsThen(right, []);
    assert right + [] == right;
  }

  lemma MatchCompactOfRuns(left: string, right: string)
    requires 3 <= |left| <= 4 && 3 <= |right| <= 4 && AllDigits(left) && AllDigits(right)
    ensures MatchCompact(left + ("-" + right))
         == Some(Groups(left[..|left| - 2], left[|left| - 2..], right[..|right| - 2], right[|right| - 2..]))
  {
    var u := left + ("-" + right);
    CompactPositions(left, right);
    var q := |left| + 1;
    assert u[q..] == right;
    assert u[..|left| - 2] == left[..|left| - 2] && u[|left| - 2..|left|] == left[|left| - 2..];
    assert u[q..q + |right| - 2] == right[..|right| - 2];
    assert u[q + |right| - 2..q + |right|] == right[|right| - 2..];
  }

  lemma MatchCompactOf(a: string, m1: string, b: string, m2: string)
    requires 1 <= |a| <= 2 && |m1| == 2 && 1 <= |b| <= 2 && |m2| == 2
    requires AllDigits(a) && AllDigits(m1) && AllDigits(b) && AllDigits(m2)
    ensures MatchCompact(CompactText(a, m1, b, m2)) == Some(Groups(a, m1, b, m2))
  {
    var left := a + m1;
    var right := b + m2;
    assert CompactText(a, m1, b, m2) == left + ("-" + right);
    assert left[..|left| - 2] == a && left[|left| - 2..] == m1;
    assert right[..|right| - 2] == b && right[|right| - 2..] == m2;
    MatchCompactOfRuns(left, right);
  }

  // ---------------- _parse_date_rule ----------------

  /** The month names `_parse_date_rule` knows: genitive forms and three-letter abbreviations. */
  const ParserMonths: map<string, int> := map[
    "января" := 1, "февраля" := 2, "марта" := 3, "апреля" := 4, "мая" := 5, "июня" := 6,
    "июля" := 7, "августа" := 8, "сентября" := 9, "октября" := 10, "ноября" := 11, "декабря" := 12,
    "янв" := 1, "фев" := 2, "мар" := 3, "апр" := 4, "май" := 5, "июн" := 6,
    "июл" := 7, "авг" := 8, "сен" := 9, "окт" := 10, "ноя" := 11, "дек" := 12]

  predicate CyrWord(w: string) {
    w != [] && forall i :: 0 <= i < |w| ==> IsCyrSmall(w[i])
  }

  lemma ParserMonthsAreWords()
    ensures forall k :: k in ParserMonths ==> CyrWord(k) && 1 <= ParserMonths[k] <= 12
  {
  }

  lemma CyrWordFacts(w: string)
    requires CyrWord(w)
    ensures IsWord(w) && Lower(w) == w && !IsDigit(w[0])
  {
    LowerOfUncased(w);
  }

  /** `datetime(y, m, d).date()`, None where Python raises ValueError. */
  function CalendarDate(y: int, m: int, d: int): (r: Option<Date>)
    ensures r.Some? <==> ValidDate(Date(y, m, d))
    ensures r.Some? ==> r.value == Date(y, m, d)
  {
    if ValidDate(Date(y, m, d)) then Some(Date(y, m, d)) else None
  }

  /** `default_year or datetime.now().year`. */
  function YearOrNow(defaultYear: int, nowYear: int): int {
    if defaultYear != 0 then defaultYear else nowYear
  }

  /** `re.match(r'^(\d{1,2})\.(\d{1,2})$', t)`: the day and month groups. */
  function MatchDayDotMonth(t: string): (r: Option<(string, string)>)
    ensures r.Some? ==> 1 <= |r.value.0| <= 2 && AllDigits(r.value.0)
    ensures r.Some? ==> 1 <= |r.value.1| <= 2 && AllDigits(r.value.1)
  {
    var a := DigitRun(t);
    if a < 1 || a > 2 || a >= |t| || t[a] != '.' then None
    else
      var rest := t[a + 1..];
      var b := DigitRun(rest);
      if b < 1 || b > 2 || !AtEnd(rest, b) then None
      else Some((t[..a], rest[..b]))
  }

  /**
   * `_parse_date_rule(date_str, default_year)`: `YYYY-MM-DD`, `D.M` / `DD.MM` and
   * `D месяц` (genitive or abbreviated month) become a date; the last two take the
   * year `default_year or now.year`. Anything else, and impossible dates, give None.
   */
  function ParseDateRule(s: string, defaultYear: int, nowYear: int): (r: Option<Date>)
    ensures s == [] ==> r == None
    ensures r.Some? ==> ValidDate(r.value)
    ensures IsoDateShape(Lower(Strip(s))) && s != [] ==> r == ParseIsoDate(Lower(Strip(s)))
    ensures r.Some? && !IsoDateShape(Lower(Strip(s))) ==> r.value.year == YearOrNow(defaultYear, nowYear)
  {
    if s == [] then None
    else
      var t := Lower(Strip(s));
      var year := YearOrNow(defaultYear, nowYear);
      if IsoDateShape(t) then ParseIsoDate(t)
      else match MatchDayDotMonth(t)
        case Some((dd, mm)) => CalendarDate(year, DecValue(mm), DecValue(dd))
        case None =>
          var parts := SplitWs(t);
          if |parts| == 2 then
            match PyInt(parts[0])
            case Some(day) =>
              if parts[1] in ParserMonths then CalendarDate(year, ParserMonths[parts[1]], day) else None
            case None => None
          else None
  }

  lemma IsoDateText(d: Date)
    requires ValidDate(d)
    ensures Lower(Strip(IsoDate(d))) == IsoDate(d)
  {
    var s := IsoDate(d);
    assert s[..4] == Pad4(d.year) && s[5..7] == Pad2(d.month) && s[8..10] == Pad2(d.day);
    forall i | 0 <= i < 10 ensures IsDigit(s[i]) || s[i] == '-' {
      if i < 4 { assert s[i] == s[..4][i]; }
      else if 5 <= i < 7 { assert s[i] == s[5..7][i - 5]; }
      else if 8 <= i { assert s[i] == s[8..10][i - 8]; }
    }
    StripOfStripped(s);
    LowerOfDigitsAndDashes(s);
  }

  /** ISO text of a real date parses back to that date, whatever the default year. */
  lemma ParseDateRuleIso(d: Date, defaultYear: int, nowYear: int)
    requires ValidDate(d)
    ensures ParseDateRule(IsoDate(d), defaultYear, nowYear) == Some(d)
  {
    IsoDateText(d);
    IsoDateRoundTrip(d);
  }

  lemma DotText(a: string, b: string)
    requires IsDigitStr(a) && IsDigitStr(b)
    ensures Lower(Strip(a + "." + b)) == a + "." + b
  {
    var s := a + "." + b;
    assert s[0] == a[0] && s[|s| - 1] == b[|b| - 1];
    StripOfStripped(s);
    forall i | 0 <= i < |s| ensures LowerChar(s[i]) == s[i] {
      if i < |a| { assert s[i] == a[i]; }
      else if i > |a| { assert s[i] == b[i - |a| - 1]; }
    }
    LowerOfUncased(s);
  }

  lemma MatchDayDotMonthOf(a: string, b: string)
    requires IsDigitStr(a) && IsDigitStr(b) && |a| <= 2 && |b| <= 2
    ensures MatchDayDotMonth(a + "." + b) == Some((a, b))
  {
    var t := a + ("." + b);
    assert a + "." + b == t;
    DigitRunOfDigitsThen(a, "." + b);
    assert t[..|a|] == a && t[|a| + 1..] == b;
    DigitRunOfDigitsThen(b, []);
    assert b + [] == b;
  }

  /** `D.M` text takes the default year (the reference year when there is none). */
  lemma ParseDateRuleDayDotMonth(day: nat, month: nat, defaultYear: int, nowYear: int)
    requires day < 100 && month < 100
    ensures ParseDateRule(DecimalString(day) + "." + DecimalString(month), defaultYear, nowYear)
         == CalendarDate(YearOrNow(defaultYear, nowYear), month, day)
  {
    var a, b := DecimalString(day), DecimalString(month);
    DecimalStringSmall(day);
    DecimalStringSmall(month);
    DecValueOfDecimal(day);
    DecValueOfDecimal(month);
    DotText(a, b);
    MatchDayDotMonthOf(a, b);
  }

  /** Stripped text that `str.lower()` leaves alone reads the same after `.strip().lower()`. */
  lemma PlainText(s: string)
    requires IsStripped(s)
    requires forall i :: 0 <= i < |s| ==> LowerChar(s[i]) == s[i]
    ensures Lower(Strip(s)) == s
  {
    StripOfStripped(s);
    LowerOfUncased(s);
  }

  lemma MonthName(name: string)
    requires name in ParserMonths
    ensures CyrWord(name) && 1 <= ParserMonths[name] <= 12
  {
    ParserMonthsAreWords();
  }

  lemma MonthNameChars(a: string, w: string)
    requires IsDigitStr(a) && CyrWord(w)
    ensures var s := a + " " + w;
      IsStripped(s) && forall i :: 0 <= i < |s| ==> LowerChar(s[i]) == s[i] && s[i] != '-'
  {
    var s := a + " " + w;
    assert s[0] == a[0] && s[|s| - 1] == w[|w| - 1];
    forall i | 0 <= i < |s| ensures LowerChar(s[i]) == s[i] && s[i] != '-' {
      if i < |a| { assert s[i] == a[i]; }
      else if i > |a| { assert s[i] == w[i - |a| - 1]; }
    }
  }

  lemma MonthNameNotDotted(a: string, w: string)
    requires IsDigitStr(a) && CyrWord(w)
    ensures MatchDayDotMonth(a + " " + w) == None
  {
    var s := a + (" " + w);
    assert a + " " + w == s;
    DigitRunOfDigitsThen(a, " " + w);
    assert s[|a|] == ' ';
  }

  /** `D месяц` text takes the month from the name and the default year. */
  lemma ParseDateRuleMonthName(day: nat, name: string, defaultYear: int, nowYear: int)
    requires name in ParserMonths
    ensures ParseDateRule(DecimalString(day) + " " + name, defaultYear, nowYear)
         == CalendarDate(YearOrNow(defaultYear, nowYear), ParserMonths[name], day)
  {
    MonthName(name);
    var a := DecimalString(day);
    var s := a + " " + name;
    MonthNameChars(a, name);
    PlainText(s);
    assert !IsoDateShape(s) by { if |s| == 10 { assert s[4] != '-'; } }
    MonthNameNotDotted(a, name);
    CyrWordFacts(name);
    SplitWsOfTwoWords(a, name);
    DecValueOfDecimal(day);
    assert PyInt(a) == Some(day as int);
  }

  lemma DottedChars(x: string, y: string, z: string)
    requires |x| == 2 && |y| == 2 && |z| == 4 && AllDigits(x) && AllDigits(y) && AllDigits(z)
    ensures var s := x + "." + y + "." + z;
      |s| == 10 && IsWord(s) && s[4] != '-' && IsStripped(s)
      && forall i :: 0 <= i < |s| ==> LowerChar(s[i]) == s[i]
  {
    var s := x + "." + y + "." + z;
    forall i | 0 <= i < |s| ensures (IsDigit(s[i]) || s[i] == '.') {
      if i < 2 { assert s[i] == x[i]; }
      else if 3 <= i < 5 { assert s[i] == y[i - 3]; }
      else if 6 <= i { assert s[i] == z[i - 6]; }
    }
  }

  lemma DottedNotDayMonth(x: string, y: string, z: string)
    requires |x| == 2 && |y| == 2 && |z| == 4 && AllDigits(x) && AllDigits(y) && AllDigits(z)
    ensures MatchDayDotMonth(x + "." + y + "." + z) == None
  {
    var rest := y + ("." + z);
    var s := x + ("." + rest);
    assert x + "." + y + "." + z == s;
    DigitRunOfDigitsThen(x, "." + rest);
    assert s[3..] == rest;
    DigitRunOfDigitsThen(y, "." + z);
    assert rest[2] == '.';
  }

  /**
   * A full `DD.MM.YYYY` date is not one of the parser's forms: it stays text (the
   * bot's own matcher reads it later).
   */
  lemma ParseDateRuleDottedWithYear(d: Date, defaultYear: int, nowYear: int)
    requires ValidDate(d)
    ensures ParseDateRule(Pad2(d.day) + "." + Pad2(d.month) + "." + Pad4(d.year), defaultYear, nowYear) == None
  {
    var x, y, z := Pad2(d.day), Pad2(d.month), Pad4(d.year);
    var s := x + "." + y + "." + z;
    DottedChars(x, y, z);
    PlainText(s);
    DottedNotDayMonth(x, y, z);
    SplitWsOfWord(s);
  }

  // ---------------- parse_user_tracking_input ----------------

  const Weekdays: seq<string> :=
    ["понедельник", "вторник", "среда", "четверг", "пятница", "суббота", "воскресенье"]
  const RelativeDays: seq<string> := ["сегодня", "завтра"]

  lemma WeekdaysAreWords()
    ensures forall k :: 0 <= k < |Weekdays| ==> CyrWord(Weekdays[k])
  {
  }

  /** End of `\d{1,2}:\d{2}` matched at `i`; the greedy digit run decides the match. */
  function ClockEnd(s: string, i: nat): (r: Option<nat>)
    requires i <= |s|
    ensures r.Some? ==> i + 4 <= r.value <= |s|
  {
    var a := DigitRun(s[i..]);
    if 1 <= a <= 2 && i + a + 3 <= |s| && s[i + a] == ':' && IsDigit(s[i + a + 1]) && IsDigit(s[i + a + 2])
    then Some(i + a + 3)
    else None
  }

  /** End of `\d{1,2}:\d{2}\s*[-–—]\s*\d{1,2}:\d{2}$` matched at `i`. */
  function RangeEnd(s: string, i: nat): (r: Option<nat>)
    requires i <= |s|
    ensures r.Some? ==> i < r.value <= |s| && AtEnd(s, r.value)
  {
    match ClockEnd(s, i)
    case None => None
    case Some(e) =>
      var p := e + SpaceRun(s[e..]);
      if p >= |s| || !IsDash(s[p]) then None
      else
        var q := p + 1 + SpaceRun(s[p + 1..]);
        match ClockEnd(s, q)
        case None => None
        case Some(f) => if AtEnd(s, f) then Some(f) else None
  }

  /** `\s+` then the time range, after a date group that ends at `e`: the two groups. */
  function DateThenRange(s: string, e: nat): (r: Option<(string, string)>)
    requires e <= |s|
  {
    var k := SpaceRun(s[e..]);
    if k == 0 then None
    else
      match RangeEnd(s, e + k)
      case None => None
      case Some(f) => Some((s[..e], s[e + k..f]))
  }

  /** End of `\d{1,2}\.\d{1,2}(?:\.\d{4})?` where whitespace must follow. */
  function DottedDateEnd(s: string): (r: Option<nat>)
    ensures r.Some? ==> r.value <= |s|
  {
    var a := DigitRun(s);
    if a < 1 || a > 2 || a >= |s| || s[a] != '.' then None
    else
      var b := DigitRun(s[a + 1..]);
      if b < 1 || b > 2 then None
      else
        var e := a + 1 + b;
        if e < |s| && s[e] == '.' then (if DigitRun(s[e + 1..]) == 4 then Some(e + 5) else None)
        else Some(e)
  }

  /** Length of the leading run of `[а-яё]`. */
  function CyrRun(s: string): (n: nat)
    ensures n <= |s|
    decreases |s|
  {
    if |s| > 0 && IsCyrSmall(s[0]) then 1 + CyrRun(s[1..]) else 0
  }

  /** End of `\d{1,2}\s+[а-яё]{3,}?` where whitespace must follow (so the lazy run is the whole run). */
  function RussianDateEnd(s: string): (r: Option<nat>)
    ensures r.Some? ==> r.value <= |s|
  {
    var a := DigitRun(s);
    if a < 1 || a > 2 then None
    else
      var w := SpaceRun(s[a..]);
      var n := CyrRun(s[a + w..]);
      if w == 0 || n < 3 then None else Some(a + w + n)
  }

  /**
   * The three "date + range" patterns tried in order: ISO date, `DD.MM(.YYYY)` and
   * `D месяц`, each followed by whitespace and a time range that ends the text.
   */
  function DatedRange(pl: string): (r: Option<(string, string)>)
  {
    var iso := if |pl| >= 10 && IsoDateShape(pl[..10]) then DateThenRange(pl, 10) else None;
    if iso.Some? then iso
    else
      var dm := match DottedDateEnd(pl) case Some(e) => DateThenRange(pl, e) case None => None;
      if dm.Some? then dm
      else match RussianDateEnd(pl) case Some(e) => DateThenRange(pl, e) case None => None
  }

  /** `\d{1,2}:\d{2}` at `i` with a digit run of exactly `a` before the colon. */
  predicate LooseClockAt(s: string, i: int, a: int) {
    0 <= i && (a == 1 || a == 2) && i + a + 3 <= |s| && IsDigit(s[i]) && (a == 1 || IsDigit(s[i + 1]))
    && s[i + a] == ':' && IsDigit(s[i + a + 1]) && IsDigit(s[i + a + 2])
  }

  /** `\d{1,2}:\d{2}-\d{1,2}:\d{2}` matches at `i` (no anchor at the end). */
  predicate HyphenRangeAt(s: string, i: int) {
    HyphenRangeWith(s, i, 1, 1) || HyphenRangeWith(s, i, 1, 2)
    || HyphenRangeWith(s, i, 2, 1) || HyphenRangeWith(s, i, 2, 2)
  }

  predicate HyphenRangeWith(s: string, i: int, a: int, b: int) {
    LooseClockAt(s, i, a) && i + a + 3 < |s| && s[i + a + 3] == '-' && LooseClockAt(s, i + a + 4, b)
  }

  /** `re.search(r'\d{1,2}:\d{2}-\d{1,2}:\d{2}', s[i..])` succeeds. */
  predicate SearchHyphenRange(s: string, i: nat)
    decreases |s| - i
  {
    i < |s| && (HyphenRangeAt(s, i) || SearchHyphenRange(s, i + 1))
  }

  /** `[t.strip() for t in pieces if t.strip()]`. */
  function StrippedNonEmpty(pieces: seq<string>): (r: seq<string>)
    ensures |r| <= |pieces|
    ensures forall k :: 0 <= k < |r| ==> r[k] != [] && IsStripped(r[k])
  {
    if pieces == [] then []
    else
      var t := Strip(pieces[0]);
      (if t != [] then [t] else []) + StrippedNonEmpty(pieces[1..])
  }

  function KindOf(day: string): string {
    if day in Weekdays then "weekday" else "date"
  }

  lemma LowerStripSameLength(part: string)
    requires IsStripped(part)
    ensures Strip(Lower(part)) == Lower(part) && |Lower(part)| == |part|
  {
    LowerKeepsStripped(part);
    StripOfStripped(Lower(part));
  }

  /** One comma-separated piece of the input as a rule, before the second pass. */
  function ParsePart(piece: string): (r: Rule)
    ensures r.kind == "weekday" || r.kind == "date"
    ensures r.kind == "weekday" ==> r.value in Weekdays
  {
    var part := Strip(piece);
    var pl := Strip(Lower(part));
    match DatedRange(pl)
    case Some((d, tr)) => Rule("date", d, [NormalizeTimeRange(tr)])
    case None => UndatedPart(part, pl)
  }

  /** A piece without a leading date: `день HH:MM-HH:MM`, `день: интервалы`, or a bare value. */
  function UndatedPart(part: string, pl: string): (r: Rule)
    requires IsStripped(part) && pl == Strip(Lower(part))
    ensures r.kind == "weekday" || r.kind == "date"
    ensures r.kind == "weekday" ==> r.value in Weekdays
  {
    var sp := Find(pl, ' ');
    var word := if sp == -1 then [] else Strip(pl[..sp]);
    if sp != -1 && SearchHyphenRange(part, 0) && (word in RelativeDays || word in Weekdays) then
      LowerStripSameLength(part);
      Rule(if word in RelativeDays then "date" else "weekday", word, [Strip(part[sp + 1..])])
    else
      var c := Find(part, ':');
      if c == -1 then Rule(KindOf(pl), pl, [])
      else
        var dv := Lower(Strip(part[..c]));
        Rule(KindOf(dv), dv, StrippedNonEmpty(Split(UnifyDashes(Strip(part[c + 1..])), ';')))
  }

  /** `[normalize_time_range(tr) for tr in ranges]`. */
  function NormalizeAll(ranges: seq<string>): (r: seq<string>)
    ensures |r| == |ranges|
    ensures forall k :: 0 <= k < |r| ==> r[k] == NormalizeTimeRange(ranges[k])
  {
    seq(|ranges|, k requires 0 <= k < |ranges| => NormalizeTimeRange(ranges[k]))
  }

  /** The value a date rule's relative word stands for on `today`; other values unchanged. */
  function FreezeRelative(kind: string, v: string, today: Date): string
    requires ValidDate(today) && today != LastDate
  {
    if kind == "date" && v == "сегодня" then IsoDate(today)
    else if kind == "date" && v == "завтра" then IsoDate(NextDay(today))
    else v
  }

  /**
   * The second pass over one rule: value stripped and lower-cased, ranges normalised,
   * `сегодня`/`завтра` frozen to ISO dates, and any date the parser reads rewritten as ISO.
   */
  function Finalize(rule: Rule, now: DateTime): (r: Rule)
    requires ValidNow(now)
    ensures r.kind == rule.kind && |r.timeRanges| == |rule.timeRanges|
  {
    var v := FreezeRelative(rule.kind, Lower(Strip(rule.value)), now.date);
    var value :=
      if rule.kind == "date" then
        match ParseDateRule(v, now.date.year, now.date.year)
        case Some(d) => IsoDate(d)
        case None => v
      else v;
    Rule(rule.kind, value, NormalizeAll(rule.timeRanges))
  }

  /** The first pass: one rule per piece, in order. */
  function ParseParts(pieces: seq<string>): (r: seq<Rule>)
    ensures |r| == |pieces|
  {
    if pieces == [] then [] else ParseParts(pieces[..|pieces| - 1]) + [ParsePart(pieces[|pieces| - 1])]
  }

  /** The second pass: every rule finalised. */
  function FinalizeAll(rules: seq<Rule>, now: DateTime): (r: seq<Rule>)
    requires ValidNow(now)
    ensures |r| == |rules|
    ensures forall k :: 0 <= k < |r| ==> r[k] == Finalize(rules[k], now)
  {
    seq(|rules|, k requires 0 <= k < |rules| => Finalize(rules[k], now))
  }

  /** `parse_user_tracking_input(text)` with the clock read once, at `now`. */
  function TrackingRules(text: string, now: DateTime): (r: seq<Rule>)
    requires ValidNow(now)
    ensures text == [] ==> r == []
    ensures text != [] ==> |r| == |Split(text, ',')|
  {
    if text == [] then [] else FinalizeAll(ParseParts(Split(text, ',')), now)
  }

  /** The first loop of `parse_user_tracking_input`: one rule appended per piece. */
  method ParsePieces(parts: seq<string>) returns (rules: seq<Rule>)
    ensures rules == ParseParts(parts)
  {
    rules := [];
    var i := 0;
    while i < |parts|
      invariant 0 <= i <= |parts|
      invariant rules == ParseParts(parts[..i])
    {
      ParsePartsSnoc(parts[..i], parts[i]);
      Sequences.PrefixSnoc(parts, i);
      rules := rules + [ParsePart(parts[i])];
      i := i + 1;
    }
    assert parts[..i] == parts;
  }

  lemma ParsePartsSnoc(pieces: seq<string>, p: string)
    ensures ParseParts(pieces + [p]) == ParseParts(pieces) + [ParsePart(p)]
  {
    assert (pieces + [p])[..|pieces|] == pieces;
  }

  /** The second loop of `parse_user_tracking_input`: every rule rewritten in place. */
  method FinalizeRules(parsed: seq<Rule>, now: DateTime) returns (rules: seq<Rule>)
    requires ValidNow(now)
    ensures rules == FinalizeAll(parsed, now)
  {
    rules := parsed;
    var i := 0;
    while i < |rules|
      invariant 0 <= i <= |rules| == |parsed|
      invariant forall j :: 0 <= j < i ==> rules[j] == Finalize(parsed[j], now)
      invariant forall j :: i <= j < |rules| ==> rules[j] == parsed[j]
    {
      rules := rules[i := Finalize(rules[i], now)];
      i := i + 1;
    }
  }

  /** `parse_user_tracking_input(text)`: the two passes over the comma-separated pieces. */
  method ParseUserTrackingInput(text: string, now: DateTime) returns (rules: seq<Rule>)
    requires ValidNow(now)
    ensures rules == TrackingRules(text, now)
  {
    if text == [] {
      return [];
    }
    var parsed := ParsePieces(Split(text, ','));
    rules := FinalizeRules(parsed, now);
  }

  // ---------------- properties of the parsed rules ----------------

  /** The date parser leaves `v` as it is: either it is not a date it reads, or it is that date's ISO text. */
  predicate DateSettled(v: string, year: int) {
    match ParseDateRule(v, year, year)
    case None => true
    case Some(d) => IsoDate(d) == v
  }

  /** A rule as `parse_user_tracking_input` hands it out. */
  predicate SettledRule(r: Rule, year: int) {
    && (r.kind == "weekday" || r.kind == "date")
    && IsStripped(r.value) && Lower(r.value) == r.value
    && r.value !in RelativeDays
    && (r.kind == "weekday" ==> r.value in Weekdays)
    && (r.kind == "date" ==> DateSettled(r.value, year))
    && forall k :: 0 <= k < |r.timeRanges| ==> NormalizeTimeRange(r.timeRanges[k]) == r.timeRanges[k]
  }

  lemma LowerStripFixed(x: string)
    ensures IsStripped(Lower(Strip(x))) && Lower(Strip(Lower(Strip(x)))) == Lower(Strip(x))
  {
    LowerKeepsStripped(Strip(x));
    StripOfStripped(Lower(Strip(x)));
    LowerIdempotent(Strip(x));
  }

  lemma PlainFixed(x: string)
    requires Lower(Strip(x)) == x
    ensures IsStripped(x) && Lower(x) == x
  {
    LowerStripFixed(x);
  }

  lemma WeekdayWord(w: string)
    requires w in Weekdays
    ensures CyrWord(w) && w !in RelativeDays
  {
    WeekdaysAreWords();
  }

  lemma WeekdayPlain(w: string)
    requires w in Weekdays
    ensures Lower(Strip(w)) == w && w !in RelativeDays
  {
    WeekdayWord(w);
    CyrWordFacts(w);
    StripOfStripped(w);
  }

  lemma IsoNotRelative(d: Date)
    requires ValidDate(d)
    ensures IsoDate(d) !in RelativeDays
  {
    assert |IsoDate(d)| == 10;
  }

  lemma NormalizeAllFixed(ranges: seq<string>)
    ensures NormalizeAll(NormalizeAll(ranges)) == NormalizeAll(ranges)
    ensures forall k :: 0 <= k < |ranges| ==> NormalizeTimeRange(NormalizeAll(ranges)[k]) == NormalizeAll(ranges)[k]
  {
    forall k | 0 <= k < |ranges| ensures NormalizeTimeRange(NormalizeAll(ranges)[k]) == NormalizeAll(ranges)[k] {
      NormalizeTimeRangeIdempotent(ranges[k]);
    }
  }

  /** The value a date rule ends up with, before the date parser: plain text, never a relative word. */
  lemma FrozenValue(rule: Rule, now: DateTime)
    requires ValidNow(now)
    ensures var v := FreezeRelative(rule.kind, Lower(Strip(rule.value)), now.date);
      Lower(Strip(v)) == v && (rule.kind == "date" ==> v !in RelativeDays)
  {
    var v0 := Lower(Strip(rule.value));
    LowerStripFixed(rule.value);
    if rule.kind == "date" && v0 == "сегодня" {
      IsoDateText(now.date);
      IsoNotRelative(now.date);
    } else if rule.kind == "date" && v0 == "завтра" {
      IsoDateText(NextDay(now.date));
      IsoNotRelative(NextDay(now.date));
    }
  }

  /** The value `Finalize` gives: plain text, and a settled date for a date rule. */
  lemma FinalValue(rule: Rule, now: DateTime)
    requires ValidNow(now)
    ensures var r := Finalize(rule, now);
      Lower(Strip(r.value)) == r.value
      && (rule.kind == "date" ==> r.value !in RelativeDays && DateSettled(r.value, now.date.year))
  {
    var y := now.date.year;
    var v := FreezeRelative(rule.kind, Lower(Strip(rule.value)), now.date);
    FrozenValue(rule, now);
    if rule.kind == "date" {
      match ParseDateRule(v, y, y)
      case Some(d) =>
        IsoDateText(d);
        IsoNotRelative(d);
        ParseDateRuleIso(d, y, y);
      case None =>
    }
  }

  /**
   * Every rule of the first pass comes out of the second pass settled: weekday or
   * date, stripped lower-case value, no relative word left, dates in the form the
   * date parser keeps, and canonical time ranges.
   */
  lemma FinalizeSettles(rule: Rule, now: DateTime)
    requires ValidNow(now)
    requires rule.kind == "weekday" || rule.kind == "date"
    requires rule.kind == "weekday" ==> rule.value in Weekdays
    ensures SettledRule(Finalize(rule, now), now.date.year)
  {
    var r := Finalize(rule, now);
    FinalValue(rule, now);
    PlainFixed(r.value);
    if rule.kind == "weekday" {
      WeekdayPlain(rule.value);
    }
    NormalizeAllFixed(rule.timeRanges);
  }

  /** Running the second pass again changes nothing (the rewrite is idempotent). */
  lemma FinalizeIdempotent(rule: Rule, now: DateTime)
    requires ValidNow(now)
    ensures Finalize(Finalize(rule, now), now) == Finalize(rule, now)
  {
    var r := Finalize(rule, now);
    FinalValue(rule, now);
    FinalizeKeepsSettledValue(r, now);
    NormalizeAllFixed(rule.timeRanges);
    assert Finalize(r, now).timeRanges == r.timeRanges;
  }

  /** A plain, non-relative, settled value passes the second pass unchanged. */
  lemma FinalizeKeepsSettledValue(r: Rule, now: DateTime)
    requires ValidNow(now)
    requires Lower(Strip(r.value)) == r.value
    requires r.kind == "date" ==> r.value !in RelativeDays && DateSettled(r.value, now.date.year)
    ensures Finalize(r, now).value == r.value
  {
    assert FreezeRelative(r.kind, Lower(Strip(r.value)), now.date) == r.value;
  }

  /** `сегодня` in a date rule becomes today's ISO date. */
  lemma FinalizeFreezesToday(rule: Rule, now: DateTime)
    requires ValidNow(now)
    requires rule.kind == "date" && Lower(Strip(rule.value)) == "сегодня"
    ensures Finalize(rule, now) == Rule("date", IsoDate(now.date), NormalizeAll(rule.timeRanges))
  {
    ParseDateRuleIso(now.date, now.date.year, now.date.year);
  }

  /** `завтра` in a date rule becomes tomorrow's ISO date. */
  lemma FinalizeFreezesTomorrow(rule: Rule, now: DateTime)
    requires ValidNow(now)
    requires rule.kind == "date" && Lower(Strip(rule.value)) == "завтра"
    ensures Finalize(rule, now) == Rule("date", IsoDate(NextDay(now.date)), NormalizeAll(rule.timeRanges))
  {
    ParseDateRuleIso(NextDay(now.date), now.date.year, now.date.year);
  }

  /** A weekday rule stays the weekday it names: it repeats every week. */
  lemma FinalizeKeepsWeekday(rule: Rule, now: DateTime)
    requires ValidNow(now)
    requires rule.kind == "weekday" && rule.value in Weekdays
    ensures Finalize(rule, now).value == rule.value
  {
    WeekdayPlain(rule.value);
  }

  lemma {:induction false} ParsePartsAt(pieces: seq<string>, k: int)
    requires 0 <= k < |pieces|
    ensures ParseParts(pieces)[k] == ParsePart(pieces[k])
    decreases |pieces|
  {
    if k < |pieces| - 1 {
      var init := pieces[..|pieces| - 1];
      ParsePartsAt(init, k);
      assert init[k] == pieces[k];
    }
  }

  /** Every rule `parse_user_tracking_input` returns is settled. */
  lemma TrackingRulesSettled(text: string, now: DateTime)
    requires ValidNow(now)
    ensures forall k :: 0 <= k < |TrackingRules(text, now)| ==> SettledRule(TrackingRules(text, now)[k], now.date.year)
  {
    if text != [] {
      var parts := Split(text, ',');
      forall k | 0 <= k < |parts| ensures SettledRule(TrackingRules(text, now)[k], now.date.year) {
        ParsePartsAt(parts, k);
        FinalizeSettles(ParsePart(parts[k]), now);
      }
    }
  }

  /** Applying the second pass to the result once more gives the result back. */
  lemma TrackingRulesStable(text: string, now: DateTime)
    requires ValidNow(now)
    ensures FinalizeAll(TrackingRules(text, now), now) == TrackingRules(text, now)
  {
    var r := TrackingRules(text, now);
    if text != [] {
      var parsed := ParseParts(Split(text, ','));
      forall k | 0 <= k < |r| ensures Finalize(r[k], now) == r[k] {
        FinalizeIdempotent(parsed[k], now);
      }
    }
  }

  // ---------------- worked inputs ----------------

  lemma TwoDigitRun(u: string)
    requires |u| >= 3 && IsDigit(u[0]) && IsDigit(u[1]) && !IsDigit(u[2])
    ensures DigitRun(u) == 2
  {
    assert u[1..][0] == u[1] && u[1..][1..][0] == u[2];
  }

  lemma NoSpaceAt(u: string)
    requires |u| >= 1 && !IsSpace(u[0])
    ensures SpaceRun(u) == 0
  {
  }

  lemma OneSpaceAt(u: string)
    requires |u| >= 2 && IsSpace(u[0]) && !IsSpace(u[1])
    ensures SpaceRun(u) == 1
  {
    assert u[1..][0] == u[1];
  }

  /** A canonical range that ends the text is the `TR$` the range patterns look for. */
  lemma RangeEndOfCanonical(s: string, i: nat)
    requires i + 11 == |s| && IsCanonicalRange(s[i..])
    ensures RangeEnd(s, i) == Some(|s|)
  {
    var u := s[i..];
    assert forall k :: 0 <= k < 11 ==> s[i + k] == u[k];
    ClockEndTwo(s, i);
    ClockEndTwo(s, i + 6);
    assert s[i + 5..][0] == '-';
    NoSpaceAt(s[i + 5..]);
    assert s[i + 6..][0] == s[i + 6];
    NoSpaceAt(s[i + 6..]);
  }

  /** A two-digit clock `HH:MM` at `i` ends at `i + 5`. */
  lemma ClockEndTwo(s: string, i: nat)
    requires i + 5 <= |s| && IsDigit(s[i]) && IsDigit(s[i + 1]) && s[i + 2] == ':'
    requires IsDigit(s[i + 3]) && IsDigit(s[i + 4])
    ensures ClockEnd(s, i) == Some(i + 5)
  {
    var u := s[i..];
    assert u[0] == s[i] && u[1] == s[i + 1] && u[2] == s[i + 2];
    TwoDigitRun(u);
  }

  lemma IsoDateChars(d: Date)
    requires ValidDate(d)
    ensures var s := IsoDate(d);
      IsDigit(s[0]) && IsDigit(s[9]) && forall i :: 0 <= i < 10 ==> IsDigit(s[i]) || s[i] == '-'
  {
    var s := IsoDate(d);
    assert s[..4] == Pad4(d.year) && s[5..7] == Pad2(d.month) && s[8..10] == Pad2(d.day);
    forall i | 0 <= i < 10 ensures IsDigit(s[i]) || s[i] == '-' {
      if i < 4 { assert s[i] == s[..4][i]; }
      else if 5 <= i < 7 { assert s[i] == s[5..7][i - 5]; }
      else if 8 <= i { assert s[i] == s[8..10][i - 8]; }
    }
  }

  /** Text without a comma is one piece, so one rule. */
  lemma TrackingSingle(s: string, now: DateTime)
    requires ValidNow(now) && s != [] && ',' !in s
    ensures TrackingRules(s, now) == [Finalize(ParsePart(s), now)]
  {
    SplitWithout(s, ',');
    ParsePartsAt([s], 0);
  }

  lemma SplitWithout(s: string, sep: char)
    requires sep !in s
    ensures Split(s, sep) == [s]
  {
  }

  lemma IsoRangeText(d: Date, r: string)
    requires ValidDate(d) && IsCanonicalRange(r)
    ensures var s := IsoDate(d) + " " + r;
      |s| == 22 && s[..10] == IsoDate(d) && s[10] == ' ' && s[11..] == r
      && IsStripped(s) && Lower(s) == s && ',' !in s
  {
    var s := IsoDate(d) + " " + r;
    IsoDateChars(d);
    assert s[..10] == IsoDate(d);
    assert s[11..] == r;
    forall i | 0 <= i < |s| ensures IsDigit(s[i]) || s[i] == '-' || s[i] == ':' || s[i] == ' ' {
      if i < 10 { assert s[i] == IsoDate(d)[i]; }
      else if i > 10 { assert s[i] == r[i - 11]; }
    }
    LowerOfDigitsAndDashes(s);
  }

  lemma IsoRangeNoComma(d: Date, r: string)
    requires ValidDate(d) && IsCanonicalRange(r)
    ensures ',' !in IsoDate(d) + " " + r
  {
    IsoRangeText(d, r);
  }

  /** One space and a canonical range that ends the text, after a date group ending at `e`. */
  lemma DateThenCanonical(s: string, e: nat)
    requires e + 12 == |s| && s[e] == ' ' && IsCanonicalRange(s[e + 1..])
    ensures DateThenRange(s, e) == Some((s[..e], s[e + 1..]))
  {
    assert s[e..][0] == ' ' && s[e..][1] == s[e + 1..][0];
    OneSpaceAt(s[e..]);
    RangeEndOfCanonical(s, e + 1);
    assert s[e + 1..|s|] == s[e + 1..];
  }

  lemma DatedRangeIso(d: Date, r: string)
    requires ValidDate(d) && IsCanonicalRange(r)
    ensures DatedRange(IsoDate(d) + " " + r) == Some((IsoDate(d), r))
  {
    var s := IsoDate(d) + " " + r;
    IsoRangeText(d, r);
    IsoDateRoundTrip(d);
    DateThenCanonical(s, 10);
  }

  lemma ParsePartIso(d: Date, r: string)
    requires ValidDate(d) && IsCanonicalRange(r)
    ensures ParsePart(IsoDate(d) + " " + r) == Rule("date", IsoDate(d), [r])
  {
    var s := IsoDate(d) + " " + r;
    IsoRangeText(d, r);
    StripOfStripped(s);
    DatedRangeIso(d, r);
    NormalizeCanonical(r);
  }

  /** A date rule holding an ISO date and canonical ranges is already final. */
  lemma FinalizeIsoRule(d: Date, ranges: seq<string>, now: DateTime)
    requires ValidNow(now) && ValidDate(d)
    requires forall k :: 0 <= k < |ranges| ==> IsCanonicalRange(ranges[k])
    ensures Finalize(Rule("date", IsoDate(d), ranges), now) == Rule("date", IsoDate(d), ranges)
  {
    IsoDateText(d);
    IsoNotRelative(d);
    ParseDateRuleIso(d, now.date.year, now.date.year);
    FinalizeKeepsSettledValue(Rule("date", IsoDate(d), ranges), now);
    NormalizeAllCanonical(ranges);
  }

  /** `2025-10-10 16:00-17:30`: one date rule with that date and that range. */
  lemma TrackingIsoDateWithRange(d: Date, r: string, now: DateTime)
    requires ValidNow(now) && ValidDate(d) && IsCanonicalRange(r)
    ensures TrackingRules(IsoDate(d) + " " + r, now) == [Rule("date", IsoDate(d), [r])]
  {
    var s := IsoDate(d) + " " + r;
    IsoRangeNoComma(d, r);
    TrackingSingle(s, now);
    ParsePartIso(d, r);
    FinalizeIsoRule(d, [r], now);
  }

  lemma CanonicalChars(r: string)
    requires IsCanonicalRange(r)
    ensures forall i :: 0 <= i < |r| ==> IsDigit(r[i]) || r[i] == ':' || r[i] == '-'
  {
  }

  /** `str.find` gives the first occurrence. */
  lemma {:induction false} FindFirst(s: string, c: char, i: int)
    requires 0 <= i < |s| && s[i] == c && c !in s[..i]
    ensures Find(s, c) == i
    decreases i
  {
    if i > 0 {
      assert s[..i][0] == s[0];
      assert s[1..][..i - 1] == s[1..i];
      assert forall k :: 0 <= k < i - 1 ==> s[1..i][k] == s[..i][k + 1];
      FindFirst(s[1..], c, i - 1);
    }
  }

  lemma WeekdayColonChars(w: string, r: string)
    requires w in Weekdays && IsCanonicalRange(r)
    ensures var s := w + ": " + r; var n := |w|;
      && (forall i :: 0 <= i < |s| ==> LowerChar(s[i]) == s[i] && s[i] != ',')
      && (forall i :: 0 <= i < n ==> IsCyrSmall(s[i]))
      && IsStripped(s) && !IsDigit(s[0])
  {
    WeekdayWord(w);
    CanonicalChars(r);
    var s := w + ": " + r;
    var n := |w|;
    assert s[0] == w[0] && s[|s| - 1] == r[10];
    forall i | 0 <= i < |s| ensures LowerChar(s[i]) == s[i] && s[i] != ',' && (i < n ==> IsCyrSmall(s[i])) {
      if i < n { assert s[i] == w[i]; }
      else if i > n + 1 { assert s[i] == r[i - n - 2]; }
    }
  }

  lemma WeekdayColonText(w: string, r: string)
    requires w in Weekdays && IsCanonicalRange(r)
    ensures var s := w + ": " + r; var n := |w|;
      && s[..n] == w && s[n + 1..] == " " + r && s[..n + 1] == w + ":"
      && IsStripped(s) && Lower(s) == s && ',' !in s && !IsDigit(s[0])
      && Find(s, ' ') == n + 1 && Find(s, ':') == n
  {
    var s := w + ": " + r;
    var n := |w|;
    WeekdayColonChars(w, r);
    LowerOfUncased(s);
    ColonSpaceSlices(w, r);
    WeekdayWord(w);
    CyrWordNoMarks(w);
    FindFirst(s, ' ', n + 1);
    FindFirst(s, ':', n);
  }

  lemma WeekdayColonNoComma(w: string, r: string)
    requires w in Weekdays && IsCanonicalRange(r)
    ensures ',' !in w + ": " + r
  {
    WeekdayColonChars(w, r);
  }

  /** How `w: r` splits around its colon and its space. */
  lemma ColonSpaceSlices(w: string, r: string)
    ensures var s := w + ": " + r; var n := |w|;
      && s[..n] == w && s[n + 1..] == " " + r && s[..n + 1] == w + ":"
      && s[n] == ':' && s[n + 1] == ' '
  {
    var s := w + ": " + r;
    var n := |w|;
    assert s[..n] == w && s[n + 1..] == " " + r && s[..n + 1] == w + ":";
  }

  /** A word of small Cyrillic letters holds no colon or space, even with a colon after it. */
  lemma CyrWordNoMarks(w: string)
    requires CyrWord(w)
    ensures ':' !in w && ' ' !in w + ":"
  {
    var x := w + ":";
    forall i | 0 <= i < |x| ensures x[i] != ' ' && (i < |w| ==> w[i] != ':') {
      if i < |w| { assert x[i] == w[i] && IsCyrSmall(w[i]); }
    }
  }

  lemma NotDatedStart(s: string)
    requires s != [] && !IsDigit(s[0])
    ensures DatedRange(s) == None
  {
    if |s| >= 10 {
      assert s[..10][0] == s[0];
      assert !IsoDateShape(s[..10]) by { assert !AllDigits(s[..10][0..4]) by { assert s[..10][0..4][0] == s[0]; } }
    }
  }

  lemma LeadingSpaceRange(r: string)
    requires IsCanonicalRange(r)
    ensures Strip(" " + r) == r
    ensures StrippedNonEmpty(Split(UnifyDashes(r), ';')) == [r]
  {
    CanonicalTidy(r);
    StripLeadingSpace(r);
    RangeOnePiece(r);
  }

  /** One leading space is stripped off text that is otherwise stripped. */
  lemma StripLeadingSpace(r: string)
    requires r != [] && IsStripped(r)
    ensures Strip(" " + r) == r
  {
    var s := " " + r;
    assert s[1..] == r;
    assert LStrip(r) == r;
    assert LStrip(s) == r;
    StripOfStripped(r);
  }

  /** A canonical range is one `;`-piece that survives stripping. */
  lemma RangeOnePiece(r: string)
    requires IsCanonicalRange(r)
    ensures StrippedNonEmpty(Split(UnifyDashes(r), ';')) == [r]
  {
    CanonicalTidy(r);
    StripOfStripped(r);
    UnifyDashesFacts(r);
    CanonicalChars(r);
    SplitWithout(r, ';');
    assert StrippedNonEmpty([r]) == [r] by { assert [r][1..] == []; }
  }

  lemma NotWordColon(w: string)
    requires w in Weekdays
    ensures w + ":" !in RelativeDays && w + ":" !in Weekdays && Strip(w + ":") == w + ":"
  {
    WeekdayWord(w);
    var x := w + ":";
    assert x[|x| - 1] == ':' && x[0] == w[0];
    if x in Weekdays {
      WeekdayWord(x);
    }
    StripOfStripped(x);
  }

  /** Text already stripped and lower-case, with no leading date, goes to the undated branch. */
  lemma ParsePartUndated(s: string)
    requires IsStripped(s) && Lower(s) == s && DatedRange(s) == None
    ensures ParsePart(s) == UndatedPart(s, s)
  {
    StripOfStripped(s);
  }

  /** The `день: интервалы` branch of the first pass, on text already stripped and lower-case. */
  lemma ParsePartByColon(s: string, c: int)
    requires IsStripped(s) && Lower(s) == s && DatedRange(s) == None
    requires Find(s, ' ') >= 0 ==> Strip(s[..Find(s, ' ')]) !in RelativeDays && Strip(s[..Find(s, ' ')]) !in Weekdays
    requires Find(s, ':') == c >= 0
    ensures var dv := Lower(Strip(s[..c]));
      ParsePart(s) == Rule(KindOf(dv), dv, StrippedNonEmpty(Split(UnifyDashes(Strip(s[c + 1..])), ';')))
  {
    ParsePartUndated(s);
    UndatedByColon(s, s, c);
  }

  lemma UndatedByColon(part: string, pl: string, c: int)
    requires IsStripped(part) && pl == Strip(Lower(part))
    requires Find(pl, ' ') >= 0 ==> Strip(pl[..Find(pl, ' ')]) !in RelativeDays && Strip(pl[..Find(pl, ' ')]) !in Weekdays
    requires Find(part, ':') == c >= 0
    ensures var dv := Lower(Strip(part[..c]));
      UndatedPart(part, pl) == Rule(KindOf(dv), dv, StrippedNonEmpty(Split(UnifyDashes(Strip(part[c + 1..])), ';')))
  {
  }

  lemma ParsePartWeekdayColon(w: string, r: string)
    requires w in Weekdays && IsCanonicalRange(r)
    ensures ParsePart(w + ": " + r) == Rule("weekday", w, [r])
  {
    var s := w + ": " + r;
    var n := |w|;
    WeekdayColonText(w, r);
    NotDatedStart(s);
    NotWordColon(w);
    ParsePartByColon(s, n);
    WeekdayPlain(w);
    LeadingSpaceRange(r);
  }

  /** A weekday rule holding canonical ranges is already final. */
  lemma FinalizeWeekdayRule(w: string, ranges: seq<string>, now: DateTime)
    requires ValidNow(now) && w in Weekdays
    requires forall k :: 0 <= k < |ranges| ==> IsCanonicalRange(ranges[k])
    ensures Finalize(Rule("weekday", w, ranges), now) == Rule("weekday", w, ranges)
  {
    WeekdayPlain(w);
    FinalizeKeepsSettledValue(Rule("weekday", w, ranges), now);
    NormalizeAllCanonical(ranges);
  }

  /** Canonical ranges pass normalisation unchanged. */
  lemma NormalizeAllCanonical(ranges: seq<string>)
    requires forall k :: 0 <= k < |ranges| ==> IsCanonicalRange(ranges[k])
    ensures NormalizeAll(ranges) == ranges
  {
    forall k | 0 <= k < |ranges| ensures NormalizeAll(ranges)[k] == ranges[k] {
      NormalizeCanonical(ranges[k]);
    }
  }

  /** `понедельник: 08:00-12:00`: one weekday rule with that range. */
  lemma TrackingWeekdayColon(w: string, r: string, now: DateTime)
    requires ValidNow(now) && w in Weekdays && IsCanonicalRange(r)
    ensures TrackingRules(w + ": " + r, now) == [Rule("weekday", w, [r])]
  {
    var s := w + ": " + r;
    WeekdayColonNoComma(w, r);
    ParsePartWeekdayColon(w, r);
    FinalizeWeekdayRule(w, [r], now);
    TrackingOneRule(s, now, Rule("weekday", w, [r]));
  }

  /** Text without a comma whose one piece parses to a rule already final gives that rule. */
  lemma TrackingOneRule(s: string, now: DateTime, rule: Rule)
    requires ValidNow(now) && s != [] && ',' !in s
    requires ParsePart(s) == rule && Finalize(rule, now) == rule
    ensures TrackingRules(s, now) == [rule]
  {
    TrackingSingle(s, now);
  }

  lemma DayWord(w: string)
    requires w in RelativeDays || w in Weekdays
    ensures CyrWord(w) && Lower(Strip(w)) == w
    ensures w in RelativeDays ==> w !in Weekdays
  {
    if w in Weekdays {
      WeekdayWord(w);
    }
    CyrWordFacts(w);
    StripOfStripped(w);
  }

  lemma DayWordSpaceChars(w: string, r: string)
    requires CyrWord(w) && IsCanonicalRange(r)
    ensures var s := w + " " + r;
      && (forall i :: 0 <= i < |s| ==> LowerChar(s[i]) == s[i] && s[i] != ',')
      && IsStripped(s) && !IsDigit(s[0])
  {
    CanonicalChars(r);
    var s := w + " " + r;
    var n := |w|;
    assert s[0] == w[0] && s[|s| - 1] == r[10];
    forall i | 0 <= i < |s| ensures LowerChar(s[i]) == s[i] && s[i] != ',' {
      if i < n { assert s[i] == w[i]; }
      else if i > n { assert s[i] == r[i - n - 1]; }
    }
  }

  lemma DayWordSpaceText(w: string, r: string)
    requires CyrWord(w) && IsCanonicalRange(r)
    ensures var s := w + " " + r; var n := |w|;
      && s[..n] == w && s[n + 1..] == r
      && IsStripped(s) && Lower(s) == s && ',' !in s && !IsDigit(s[0])
      && Find(s, ' ') == n
  {
    var s := w + " " + r;
    var n := |w|;
    DayWordSpaceChars(w, r);
    assert s[..n] == w && s[n + 1..] == r;
    LowerOfUncased(s);
    assert ' ' !in w by {
      forall i | 0 <= i < n ensures w[i] != ' ' {
        assert IsCyrSmall(w[i]);
      }
    }
    FindFirst(s, ' ', n);
  }

  lemma {:induction false} SearchFinds(s: string, i: nat, j: nat)
    requires i <= j < |s| && HyphenRangeAt(s, j)
    ensures SearchHyphenRange(s, i)
    decreases j - i
  {
    if i < j {
      SearchFinds(s, i + 1, j);
    }
  }

  lemma SearchCanonical(s: string, i: nat)
    requires i + 11 == |s| && IsCanonicalRange(s[i..])
    ensures SearchHyphenRange(s, 0)
  {
    var u := s[i..];
    assert forall k :: 0 <= k < 11 ==> s[i + k] == u[k];
    assert HyphenRangeWith(s, i, 2, 2);
    SearchFinds(s, 0, i);
  }

  /** The `день HH:MM-HH:MM` branch of the first pass, on text already stripped and lower-case. */
  lemma ParsePartBySpace(s: string, sp: int)
    requires IsStripped(s) && Lower(s) == s && DatedRange(s) == None
    requires Find(s, ' ') == sp >= 0 && SearchHyphenRange(s, 0)
    requires Strip(s[..sp]) in RelativeDays || Strip(s[..sp]) in Weekdays
    ensures var w := Strip(s[..sp]);
      ParsePart(s) == Rule(if w in RelativeDays then "date" else "weekday", w, [Strip(s[sp + 1..])])
  {
    ParsePartUndated(s);
  }

  /** The rule a day word becomes once the second pass has frozen it. */
  function DayWordRule(w: string, ranges: seq<string>, now: DateTime): Rule
    requires ValidNow(now)
  {
    if w == "сегодня" then Rule("date", IsoDate(now.date), ranges)
    else if w == "завтра" then Rule("date", IsoDate(NextDay(now.date)), ranges)
    else Rule("weekday", w, ranges)
  }

  /**
   * `сегодня 10:00-14:00`, `завтра 10:00-14:00`, `среда 10:00-14:00`: one rule, the
   * relative words frozen to today's or tomorrow's date, a weekday kept as it is.
   */
  lemma TrackingDayWordRange(w: string, r: string, now: DateTime)
    requires ValidNow(now) && (w in RelativeDays || w in Weekdays) && IsCanonicalRange(r)
    ensures TrackingRules(w + " " + r, now) == [DayWordRule(w, [r], now)]
  {
    var s := w + " " + r;
    DayWord(w);
    DayWordSpaceText(w, r);
    TrackingSingle(s, now);
    ParsePartDayWord(w, r);
    FinalizeDayWord(w, r, now);
  }

  lemma ParsePartDayWord(w: string, r: string)
    requires (w in RelativeDays || w in Weekdays) && IsCanonicalRange(r)
    ensures ParsePart(w + " " + r) == Rule(if w in RelativeDays then "date" else "weekday", w, [r])
  {
    var s := w + " " + r;
    var n := |w|;
    DayWord(w);
    DayWordSpaceText(w, r);
    NotDatedStart(s);
    SearchCanonical(s, n + 1);
    StripOfStripped(w);
    CanonicalTidy(r);
    StripOfStripped(r);
    ParsePartBySpace(s, n);
  }

  lemma NormalizeOneCanonical(r: string)
    requires IsCanonicalRange(r)
    ensures NormalizeAll([r]) == [r]
  {
    NormalizeCanonical(r);
  }

  lemma FinalizeDayWord(w: string, r: string, now: DateTime)
    requires ValidNow(now) && (w in RelativeDays || w in Weekdays) && IsCanonicalRange(r)
    ensures Finalize(Rule(if w in RelativeDays then "date" else "weekday", w, [r]), now) == DayWordRule(w, [r], now)
  {
    DayWord(w);
    NormalizeOneCanonical(r);
    if w == "сегодня" {
      FinalizeFreezesToday(Rule("date", w, [r]), now);
    } else if w == "завтра" {
      FinalizeFreezesTomorrow(Rule("date", w, [r]), now);
    } else {
      FinalizeWeekdayRule(w, [r], now);
    }
  }

}
