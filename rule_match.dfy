/**
 * The bot's own reading of tracking rules (bot.py): time windows and the matcher
 * `slot_matches_tracking_rules`, its `_parse_date_rule`, the legacy string rules
 * (`_parse_string_rule`, `_normalize_rules`), the older `normalize_time` /
 * `normalize_time_range`, the one-off freeze of stored rules and the rule dedup
 * of the rule-editing dialogue.
 */
module RuleMatch {
  import opened Options
  import opened PyText
  import opened Calendar
  import opened Sorting
  import RulesParser

  type Rule = RulesParser.Rule

  // ---------------- _parse_time_range / _time_matches_ranges ----------------

  /** A parsed window, both ends in seconds since midnight. */
  datatype Window = Window(start: nat, end: nat)

  /** `time(int(h), int(m))`; None where `int()` or `time()` raises. */
  function IntClock(h: string, m: string): (r: Option<nat>)
    ensures r.Some? ==> r.value < 86400
  {
    match (PyInt(h), PyInt(m))
    case (Some(a), Some(b)) => if 0 <= a < 24 && 0 <= b < 60 then Some(a * 3600 + b * 60) else None
    case _ => None
  }

  /**
   * `_parse_time_range`: after `.` becomes `:`, text with a dash is two ISO times
   * around the first dash (any bad half gives None); otherwise `H:M:H:M` through
   * `int()`, otherwise a single ISO time read as a zero-length window.
   */
  function ParseTimeRange(rangeStr: string): (r: Option<Window>)
    ensures rangeStr == [] ==> r == None
    ensures r.Some? ==> r.value.start < 86400 && r.value.end < 86400
  {
    if rangeStr == [] then None
    else
      var cleaned := ReplaceChar(Strip(rangeStr), '.', ':');
      var parts := SplitOnce(cleaned, '-');
      if |parts| == 2 then DashedWindow(parts[0], parts[1]) else UndashedWindow(cleaned)
  }

  /** `time.fromisoformat` of each stripped half; a ValueError from either gives None. */
  function DashedWindow(a: string, b: string): (r: Option<Window>)
    ensures r.Some? ==> r.value.start < 86400 && r.value.end < 86400
  {
    match (ParseIsoTime(Strip(a)), ParseIsoTime(Strip(b)))
    case (Some(x), Some(y)) => Some(Window(x, y))
    case _ => None
  }

  /** Text without a dash: four colon fields through `int()`, else one ISO time as a window of zero length. */
  function UndashedWindow(cleaned: string): (r: Option<Window>)
    ensures r.Some? ==> r.value.start < 86400 && r.value.end < 86400
  {
    var cp := Split(cleaned, ':');
    var four := if |cp| == 4 then IntClock(cp[0], cp[1]) else None;
    var four2 := if |cp| == 4 then IntClock(cp[2], cp[3]) else None;
    if four.Some? && four2.Some? then Some(Window(four.value, four2.value))
    else match ParseIsoTime(cleaned)
      case Some(p) => Some(Window(p, p))
      case None => None
  }

  /** The window admits `t`: inclusive at both ends, wrapping past midnight when it starts after it ends. */
  predicate Admits(w: Window, t: int) {
    if w.start <= w.end then w.start <= t <= w.end else t >= w.start || t <= w.end
  }

  predicate RangeAdmits(rangeStr: string, t: int) {
    ParseTimeRange(rangeStr).Some? && Admits(ParseTimeRange(rangeStr).value, t)
  }

  function AnyRangeAdmits(t: int, ranges: seq<string>): bool {
    if ranges == [] then false else RangeAdmits(ranges[0], t) || AnyRangeAdmits(t, ranges[1..])
  }

  /** `_time_matches_ranges`: no ranges means any time; otherwise some parsable range must admit `t`. */
  function TimeMatchesRanges(t: int, ranges: seq<string>): (b: bool)
    ensures ranges == [] ==> b
  {
    ranges == [] || AnyRangeAdmits(t, ranges)
  }

  lemma {:induction false} AnyRangeAdmitsSpec(t: int, ranges: seq<string>)
    ensures AnyRangeAdmits(t, ranges) <==> exists k :: 0 <= k < |ranges| && RangeAdmits(ranges[k], t)
    decreases |ranges|
  {
    if ranges != [] {
      AnyRangeAdmitsSpec(t, ranges[1..]);
      if exists k :: 0 <= k < |ranges| && RangeAdmits(ranges[k], t) {
        var k :| 0 <= k < |ranges| && RangeAdmits(ranges[k], t);
        if k > 0 {
          assert ranges[1..][k - 1] == ranges[k];
        }
      }
      if AnyRangeAdmits(t, ranges[1..]) {
        var k :| 0 <= k < |ranges[1..]| && RangeAdmits(ranges[1..][k], t);
        assert ranges[k + 1] == ranges[1..][k];
      }
    }
  }

  /** The time matches iff there are no ranges or one of them parses and admits it; unparsable ranges never admit. */
  lemma TimeMatchesRangesSpec(t: int, ranges: seq<string>)
    ensures TimeMatchesRanges(t, ranges) <==> ranges == [] || exists k :: 0 <= k < |ranges| && RangeAdmits(ranges[k], t)
  {
    AnyRangeAdmitsSpec(t, ranges);
  }

  /**
   * A window admits exactly the times on the clockwise arc from its start to its end:
   * the usual interval when start <= end, the arc through midnight otherwise.
   */
  lemma AdmitsIsArc(w: Window, t: int)
    requires w.start < 86400 && w.end < 86400 && 0 <= t < 86400
    ensures Admits(w, t) <==> (t - w.start) % 86400 <= (w.end - w.start) % 86400
  {
    var d := 86400;
    if w.start <= w.end {
      assert (w.end - w.start) % d == w.end - w.start;
      if t >= w.start {
        assert (t - w.start) % d == t - w.start;
      } else {
        assert (t - w.start) % d == t - w.start + d;
      }
    } else {
      assert (w.end - w.start) % d == w.end - w.start + d;
      if t >= w.start {
        assert (t - w.start) % d == t - w.start;
      } else {
        assert (t - w.start) % d == t - w.start + d;
      }
    }
  }

  /** Both ends of a window are admitted. */
  lemma AdmitsEnds(w: Window)
    ensures Admits(w, w.start) && Admits(w, w.end)
  {
  }

  predicate ClockChars(s: string) {
    forall i :: 0 <= i < |s| ==> IsDigit(s[i]) || s[i] == ':'
  }

  lemma ClockTextChars(h: int, m: int)
    requires 0 <= h < 100 && 0 <= m < 100
    ensures ClockChars(ClockText(h, m)) && ClockText(h, m)[2] == ':' && IsDigit(ClockText(h, m)[0])
    ensures IsDigit(ClockText(h, m)[4]) && '-' !in ClockText(h, m) && '.' !in ClockText(h, m)
  {
    var s := ClockText(h, m);
    assert s[..2] == Pad2(h) && s[3..] == Pad2(m);
    forall i | 0 <= i < 5 ensures IsDigit(s[i]) || s[i] == ':' {
      if i < 2 { assert s[i] == s[..2][i]; }
      else if i > 2 { assert s[i] == s[3..][i - 3]; }
    }
  }

  lemma ReplaceAbsent(s: string, a: char, b: char)
    requires a !in s
    ensures ReplaceChar(s, a, b) == s
  {
    var r := ReplaceChar(s, a, b);
    assert forall i :: 0 <= i < |s| ==> r[i] == s[i];
  }

  lemma ClockRangeText(h1: int, m1: int, h2: int, m2: int)
    requires 0 <= h1 < 100 && 0 <= m1 < 100 && 0 <= h2 < 100 && 0 <= m2 < 100
    ensures var s := ClockText(h1, m1) + "-" + ClockText(h2, m2);
      ReplaceChar(Strip(s), '.', ':') == s && SplitOnce(s, '-') == [ClockText(h1, m1), ClockText(h2, m2)]
  {
    var a := ClockText(h1, m1);
    var b := ClockText(h2, m2);
    var s := a + "-" + b;
    ClockTextChars(h1, m1);
    ClockTextChars(h2, m2);
    assert s == a + ['-'] + b;
    assert s[0] == a[0] && s[|s| - 1] == b[4];
    StripOfStripped(s);
    AbsentFromJoin(a, b, '-', '.');
    ReplaceAbsent(s, '.', ':');
    SplitOnceTwo(a, b, '-');
  }

  /** The dash branch of `_parse_time_range`, given how the cleaned text splits. */
  lemma ParseTimeRangeDashed(s: string, a: string, b: string)
    requires s != [] && SplitOnce(ReplaceChar(Strip(s), '.', ':'), '-') == [a, b]
    ensures ParseTimeRange(s) == DashedWindow(a, b)
  {
  }

  /** `HH:MM-HH:MM` text of two real clock times parses to the window between them. */
  lemma ParseClockRange(h1: int, m1: int, h2: int, m2: int)
    requires ValidClock(h1, m1, 0) && ValidClock(h2, m2, 0)
    ensures ParseTimeRange(ClockText(h1, m1) + "-" + ClockText(h2, m2))
         == Some(Window(h1 * 3600 + m1 * 60, h2 * 3600 + m2 * 60))
  {
    var a := ClockText(h1, m1);
    var b := ClockText(h2, m2);
    ClockWindowHalf(h1, m1);
    ClockWindowHalf(h2, m2);
    assert DashedWindow(a, b) == Some(Window(h1 * 3600 + m1 * 60, h2 * 3600 + m2 * 60));
    ClockRangeText(h1, m1, h2, m2);
    ParseTimeRangeDashed(a + "-" + b, a, b);
  }

  lemma ClockWindowHalf(h: int, m: int)
    requires ValidClock(h, m, 0)
    ensures ParseIsoTime(Strip(ClockText(h, m))) == Some(h * 3600 + m * 60)
  {
    ClockTextChars(h, m);
    StripOfStripped(ClockText(h, m));
    ParseClockText(h, m);
  }

  /** Stripping keeps a prefix that starts and ends with non-whitespace. */
  lemma StripKeepsHead(s: string, n: nat)
    requires n < |s| && !IsSpace(s[0]) && !IsSpace(s[n])
    ensures |Strip(s)| > n && Strip(s)[..n + 1] == s[..n + 1]
  {
    LStripOfWordStart(s);
    RStripIsPrefix(s);
    var st := Strip(s);
    assert forall i :: |st| <= i < |s| ==> IsSpace(s[i]);
  }

  lemma SplitOnceAt(t: string, i: nat)
    requires i < |t| && t[i] == '-' && '-' !in t[..i]
    ensures |SplitOnce(t, '-')| == 2 && SplitOnce(t, '-')[0] == t[..i]
  {
    FindAt(t, '-', i);
  }

  /** Cleaned text that starts with a dash-free, dot-free word `a` and a dash splits right after `a`. */
  lemma SplitAfterHead(a: string, rest: string)
    requires a != [] && !IsSpace(a[0]) && '-' !in a && '.' !in a
    ensures var parts := SplitOnce(ReplaceChar(Strip(a + "-" + rest), '.', ':'), '-');
      |parts| == 2 && parts[0] == a
  {
    var st := Strip(a + "-" + rest);
    StripDashHead(a, rest);
    var cleaned := ReplaceChar(st, '.', ':');
    ReplaceDotsHead(st, a);
    SplitOnceAt(cleaned, |a|);
  }

  /** Stripping `a-rest` keeps the head `a-` when `a` starts with a non-blank. */
  lemma StripDashHead(a: string, rest: string)
    requires a != [] && !IsSpace(a[0])
    ensures var st := Strip(a + "-" + rest);
      |st| > |a| && st[..|a| + 1] == a + "-"
  {
    var s := a + "-" + rest;
    var n := |a|;
    assert s[..n + 1] == a + "-" by {
      assert s == (a + "-") + rest;
    }
    assert s[0] == a[0] && s[n] == '-';
    StripKeepsHead(s, n);
  }

  /** Turning dots into colons leaves a dot-free head `a-` as it is. */
  lemma ReplaceDotsHead(st: string, a: string)
    requires |st| > |a| && st[..|a| + 1] == a + "-" && '.' !in a
    ensures var cleaned := ReplaceChar(st, '.', ':');
      cleaned[..|a|] == a && cleaned[|a|] == '-'
  {
    var n := |a|;
    var cleaned := ReplaceChar(st, '.', ':');
    assert forall i :: 0 <= i <= n ==> cleaned[i] == (if st[i] == '.' then ':' else st[i]);
    assert forall i :: 0 <= i <= n ==> st[i] == (a + "-")[i];
  }

  /** A range whose text before the first dash is not an ISO time gives no window. */
  lemma BadHeadUnparsed(a: string, rest: string)
    requires a != [] && !IsSpace(a[0]) && '-' !in a && '.' !in a
    requires ParseIsoTime(Strip(a)) == None
    ensures ParseTimeRange(a + "-" + rest) == None
  {
    var s := a + "-" + rest;
    var parts := SplitOnce(ReplaceChar(Strip(s), '.', ':'), '-');
    SplitAfterHead(a, rest);
    ParseTimeRangeDashed(s, parts[0], parts[1]);
  }

  /** A one-digit hour is not ISO time, so a range starting with one gives no window. */
  lemma OneDigitHourUnparsed(h: int, m: int, rest: string)
    requires 0 <= h < 10 && 0 <= m < 100
    ensures ParseTimeRange([DigitChar(h)] + ":" + Pad2(m) + "-" + rest) == None
  {
    var a := [DigitChar(h)] + ":" + Pad2(m);
    assert |a| == 4 && a[0] == DigitChar(h) && a[1] == ':' && a[2] == Pad2(m)[0] && a[3] == Pad2(m)[1];
    assert IsDigit(a[0]) && IsDigit(a[3]);
    assert '-' !in a && '.' !in a;
    assert ParseIsoTime(Strip(a)) == None by {
      StripOfStripped(a);
    }
    BadHeadUnparsed(a, rest);
  }

  // ---------------- normalize_time / normalize_time_range ----------------

  /** `normalize_time`: `H:M` with integer parts becomes `HH:MM`, four digits `HHMM` gain a colon, anything else is only stripped. */
  function NormalizeTime(timeStr: string): (r: string)
  {
    var t := Strip(timeStr);
    if ':' in t then
      var parts := Split(t, ':');
      if |parts| == 2 && PyInt(parts[0]).Some? && PyInt(parts[1]).Some? then
        Pad2(PyInt(parts[0]).value) + ":" + Pad2(PyInt(parts[1]).value)
      else t
    else if |t| == 4 && IsDigitStr(t) then t[..2] + ":" + t[2..]
    else t
  }

  /** Text the range cleaner leaves alone: no ASCII space and no en or em dash. */
  predicate Cleaned(s: string) {
    ' ' !in s && '—' !in s && '–' !in s
  }

  /** `tr.replace(' ', '').replace('—', '-').replace('–', '-')`. */
  function CleanRange(tr: string): (r: string)
    ensures Cleaned(r)
  {
    ReplaceChar(ReplaceChar(RemoveChar(tr, ' '), '—', '-'), '–', '-')
  }

  /**
   * `normalize_time_range`: two dash-separated times are normalised one by one;
   * four two-character pieces `HH-MM-HH-MM` are read as two times; anything else
   * is returned cleaned.
   */
  function NormalizeTimeRange(tr: string): (r: string)
  {
    var t := CleanRange(tr);
    var parts := Split(t, '-');
    if |parts| == 2 then NormalizeTime(parts[0]) + "-" + NormalizeTime(parts[1])
    else if |parts| == 4 && |parts[0]| == 2 && |parts[1]| == 2 && |parts[2]| == 2 && |parts[3]| == 2 then
      NormalizeTime(parts[0] + ":" + parts[1]) + "-" + NormalizeTime(parts[2] + ":" + parts[3])
    else t
  }

  predicate DashFree(s: string) {
    Cleaned(s) && '-' !in s
  }

  lemma CleanedFixed(s: string)
    requires Cleaned(s)
    ensures CleanRange(s) == s
  {
    RemoveAbsent(s, ' ');
    ReplaceAbsent(s, '—', '-');
    ReplaceAbsent(s, '–', '-');
  }

  lemma DashFreeStrip(s: string)
    requires DashFree(s)
    ensures DashFree(Strip(s))
  {
    if ' ' in Strip(s) { StripChars(s, ' '); }
    if '—' in Strip(s) { StripChars(s, '—'); }
    if '–' in Strip(s) { StripChars(s, '–'); }
    if '-' in Strip(s) { StripChars(s, '-'); }
  }

  /** The pieces of a split on `sep` hold no character the text lacks, and no `sep`. */
  lemma DashFreeSplit(s: string, sep: char, k: int)
    requires Cleaned(s) && (sep == '-' || '-' !in s) && 0 <= k < |Split(s, sep)|
    ensures DashFree(Split(s, sep)[k])
  {
    var p := Split(s, sep)[k];
    if ' ' in p { SplitChars(s, sep, k, ' '); }
    if '—' in p { SplitChars(s, sep, k, '—'); }
    if '–' in p { SplitChars(s, sep, k, '–'); }
    if '-' in p { SplitChars(s, sep, k, '-'); }
  }

  /** A number without a sign in its text is not negative. */
  lemma PyIntUnsigned(s: string)
    requires '-' !in s && PyInt(s).Some?
    ensures PyInt(s).value >= 0
  {
    var t := Strip(s);
    if |t| > 1 && t[0] == '-' {
      StripChars(s, '-');
    }
  }

  /** `HH:MM` made of two non-negative numbers. */
  lemma PaddedClock(a: int, b: int)
    requires a >= 0 && b >= 0
    ensures var out := Pad2(a) + ":" + Pad2(b);
      DashFree(out) && NormalizeTime(out) == out
  {
    Pad2Digits(a);
    Pad2Digits(b);
    ClockPieces(Pad2(a), Pad2(b));
  }

  /** Two digit strings around a colon: stripped, dash-free, and split back into the two. */
  lemma ClockPieces(x: string, y: string)
    requires IsDigitStr(x) && IsDigitStr(y)
    ensures var out := x + ":" + y;
      DashFree(out) && Strip(out) == out && ':' in out && Split(out, ':') == [x, y]
  {
    var out := x + ":" + y;
    assert out == x + [':'] + y;
    assert forall i :: 0 <= i < |out| ==> IsDigit(out[i]) || out[i] == ':' by {
      forall i | 0 <= i < |out| ensures IsDigit(out[i]) || out[i] == ':' {
        if i < |x| { assert out[i] == x[i]; } else if i > |x| { assert out[i] == y[i - |x| - 1]; }
      }
    }
    assert out[0] == x[0] && out[|out| - 1] == y[|y| - 1];
    StripOfStripped(out);
    assert ':' !in x && ':' !in y;
    SplitTwo(x, y, ':');
    assert out[|x|] == ':';
  }

  /** `normalize_time` applied twice is applied once, and it never writes a dash or a space. */
  lemma NormalizeTimeIdempotent(x: string)
    requires DashFree(x)
    ensures DashFree(NormalizeTime(x)) && NormalizeTime(NormalizeTime(x)) == NormalizeTime(x)
  {
    var t := Strip(x);
    DashFreeStrip(x);
    StripIdempotent(x);
    if ':' in t {
      var parts := Split(t, ':');
      if |parts| == 2 && PyInt(parts[0]).Some? && PyInt(parts[1]).Some? {
        DashFreeSplit(t, ':', 0);
        DashFreeSplit(t, ':', 1);
        PyIntUnsigned(parts[0]);
        PyIntUnsigned(parts[1]);
        PaddedClock(PyInt(parts[0]).value, PyInt(parts[1]).value);
      }
    } else if |t| == 4 && IsDigitStr(t) {
      var hh := t[..2];
      var mm := t[2..];
      var out := hh + ":" + mm;
      Pad2OfDigits(hh);
      Pad2OfDigits(mm);
      assert out == Pad2(DecValue(hh)) + ":" + Pad2(DecValue(mm));
      PaddedClock(DecValue(hh), DecValue(mm));
    }
  }

  /** Two dash-free halves around one dash are the two parts of the range. */
  lemma RangeOfHalves(a: string, b: string)
    requires DashFree(a) && DashFree(b)
    ensures Cleaned(a + "-" + b) && Split(a + "-" + b, '-') == [a, b]
  {
    var s := a + "-" + b;
    assert s == a + ['-'] + b;
    SplitTwo(a, b, '-');
    assert forall i :: 0 <= i < |s| ==> s[i] == '-' || (i < |a| && s[i] == a[i]) || (i > |a| && s[i] == b[i - |a| - 1]);
  }

  /** The bot's `normalize_time_range` is idempotent on every input. */
  lemma NormalizeTimeRangeIdempotent(tr: string)
    ensures NormalizeTimeRange(NormalizeTimeRange(tr)) == NormalizeTimeRange(tr)
  {
    var t := CleanRange(tr);
    var parts := Split(t, '-');
    var out := NormalizeTimeRange(tr);
    if |parts| == 2 {
      DashFreeSplit(t, '-', 0);
      DashFreeSplit(t, '-', 1);
      NormalizeTimeIdempotent(parts[0]);
      NormalizeTimeIdempotent(parts[1]);
      RangeOfHalves(NormalizeTime(parts[0]), NormalizeTime(parts[1]));
      CleanedFixed(out);
    } else if |parts| == 4 && |parts[0]| == 2 && |parts[1]| == 2 && |parts[2]| == 2 && |parts[3]| == 2 {
      var q0 := parts[0] + ":" + parts[1];
      var q1 := parts[2] + ":" + parts[3];
      DashFreeSplit(t, '-', 0);
      DashFreeSplit(t, '-', 1);
      DashFreeSplit(t, '-', 2);
      DashFreeSplit(t, '-', 3);
      assert DashFree(q0) by {
        assert forall i :: 0 <= i < |q0| ==> q0[i] == ':' || (i < 2 && q0[i] == parts[0][i]) || (i > 2 && q0[i] == parts[1][i - 3]);
      }
      assert DashFree(q1) by {
        assert forall i :: 0 <= i < |q1| ==> q1[i] == ':' || (i < 2 && q1[i] == parts[2][i]) || (i > 2 && q1[i] == parts[3][i - 3]);
      }
      NormalizeTimeIdempotent(q0);
      NormalizeTimeIdempotent(q1);
      RangeOfHalves(NormalizeTime(q0), NormalizeTime(q1));
      CleanedFixed(out);
    } else {
      CleanedFixed(t);
    }
  }

  // ---------------- _parse_date_rule (the bot's own) ----------------

  /** `MONTH_NAME_TO_NUM`: nominative and genitive month names. */
  const BotMonths: map<string, int> := map[
    "январь" := 1, "января" := 1, "февраль" := 2, "февраля" := 2, "март" := 3, "марта" := 3,
    "апрель" := 4, "апреля" := 4, "май" := 5, "мая" := 5, "июнь" := 6, "июня" := 6,
    "июль" := 7, "июля" := 7, "август" := 8, "августа" := 8, "сентябрь" := 9, "сентября" := 9,
    "октябрь" := 10, "октября" := 10, "ноябрь" := 11, "ноября" := 11, "декабрь" := 12, "декабря" := 12]

  /** `WEEKDAY_NAME_TO_INDEX`: Monday is 0, as `date.weekday()` counts. */
  const WeekdayIndex: map<string, nat> := map[
    "понедельник" := 0, "вторник" := 1, "среда" := 2, "четверг" := 3,
    "пятница" := 4, "суббота" := 5, "воскресенье" := 6]

  lemma BotMonthsAreWords()
    ensures forall k :: k in BotMonths ==> RulesParser.CyrWord(k) && 1 <= BotMonths[k] <= 12
  {
  }

  /** The index map and the parser's weekday list name the same seven days in the same order. */
  lemma WeekdayIndexOfNames()
    ensures forall k :: 0 <= k < 7 ==> RulesParser.Weekdays[k] in WeekdayIndex && WeekdayIndex[RulesParser.Weekdays[k]] == k
    ensures forall w :: w in WeekdayIndex <==> w in RulesParser.Weekdays
  {
  }

  /** The first of `strptime(v, '%Y-%m-%d')` and `strptime(v, '%d.%m.%Y')` that succeeds, as a date. */
  function StrptimeDate(v: string): (r: Option<Date>)
    ensures r.Some? ==> ValidDate(r.value)
  {
    match Strptime(DateFormat, v)
    case Some(t) => Some(t.date)
    case None =>
      match Strptime(DottedFormat, v)
      case Some(t) => Some(t.date)
      case None => None
  }

  /** Text with no dash, and either no dot or fewer than eight characters, is neither strptime format. */
  lemma StrptimeDateNone(v: string)
    requires '-' !in v && ('.' !in v || |v| < 8)
    ensures StrptimeDate(v) == None
  {
    StrptimeNeeds(DateFormat, v, '-');
    StrptimeNeeds(DottedFormat, v, '.');
    assert Lit('-') in DateFormat && Lit('.') in DottedFormat;
    assert MinLen(DottedFormat) == 8;
  }

  /** `[p for p in ps if p]`. */
  function NonEmptyPieces(ps: seq<string>): (r: seq<string>)
    ensures |r| <= |ps|
    ensures (forall k :: 0 <= k < |ps| ==> ps[k] != []) ==> r == ps
  {
    if ps == [] then [] else (if ps[0] == [] then [] else [ps[0]]) + NonEmptyPieces(ps[1..])
  }

  /** The dotted fallback: `D.M` or `D.M.Y` digits, the year defaulting to `reference_year`; None where `date()` raises. */
  function DottedDate(v: string, referenceYear: int): (r: Option<Date>)
    ensures r.Some? ==> ValidDate(r.value)
  {
    var parts := NonEmptyPieces(Split(v, '.'));
    if |parts| >= 2 && IsDigitStr(parts[0]) && IsDigitStr(parts[1]) then
      var year := if |parts| >= 3 && IsDigitStr(parts[2]) then DecValue(parts[2]) else referenceYear;
      RulesParser.CalendarDate(year, DecValue(parts[1]), DecValue(parts[0]))
    else None
  }

  /**
   * The token fallback: dashes read as spaces, then `D месяц [Y]`; the year is
   * `year or reference_year`, so a year of 0 also falls back.
   */
  function TokenDate(v: string, referenceYear: int): (r: Option<Date>)
    ensures r.Some? ==> ValidDate(r.value)
  {
    var tokens := SplitWs(ReplaceChar(v, '-', ' '));
    if |tokens| >= 2 && IsDigitStr(tokens[0]) && tokens[1] in BotMonths then
      var year := if |tokens| >= 3 && IsDigitStr(tokens[2]) then DecValue(tokens[2]) else 0;
      RulesParser.CalendarDate(if year != 0 then year else referenceYear, BotMonths[tokens[1]], DecValue(tokens[0]))
    else None
  }

  /**
   * The bot's `_parse_date_rule(value, reference_year)`: `сегодня` and `завтра` are
   * today and tomorrow, then the two strptime formats, then the dotted and the
   * token fallbacks; None when nothing gives a real date.
   */
  function ParseDateRule(value: string, referenceYear: int, today: Date): (r: Option<Date>)
    requires ValidDate(today) && today != LastDate
    ensures value == [] ==> r == None
    ensures r.Some? ==> ValidDate(r.value)
  {
    if value == [] then None
    else
      var v := Lower(Strip(value));
      if v == "сегодня" then Some(today)
      else if v == "завтра" then Some(NextDay(today))
      else if StrptimeDate(v).Some? then StrptimeDate(v)
      else
        var dotted := if '.' in v then DottedDate(v, referenceYear) else None;
        if dotted.Some? then dotted else TokenDate(v, referenceYear)
  }

  /** `сегодня` and `завтра`, in any case and with surrounding blanks, are today and tomorrow. */
  lemma ParseDateRuleRelative(value: string, referenceYear: int, today: Date)
    requires ValidDate(today) && today != LastDate
    ensures Lower(Strip(value)) == "сегодня" ==> ParseDateRule(value, referenceYear, today) == Some(today)
    ensures Lower(Strip(value)) == "завтра" ==> ParseDateRule(value, referenceYear, today) == Some(NextDay(today))
  {
  }

  /** ISO text of a real date is that date. */
  lemma ParseDateRuleIso(d: Date, referenceYear: int, today: Date)
    requires ValidDate(d) && ValidDate(today) && today != LastDate
    ensures ParseDateRule(IsoDate(d), referenceYear, today) == Some(d)
  {
    RulesParser.IsoDateText(d);
    StrptimeIsoDate(d);
    assert |IsoDate(d)| == 10;
  }

  /** Past the relative words and strptime, the fallbacks decide. */
  lemma ParseDateRuleFallback(value: string, referenceYear: int, today: Date)
    requires ValidDate(today) && today != LastDate && value != []
    requires Lower(Strip(value)) != "сегодня" && Lower(Strip(value)) != "завтра"
    requires '-' !in Lower(Strip(value)) && ('.' !in Lower(Strip(value)) || |Lower(Strip(value))| < 8)
    ensures var v := Lower(Strip(value));
      ParseDateRule(value, referenceYear, today)
      == if '.' in v && DottedDate(v, referenceYear).Some? then DottedDate(v, referenceYear) else TokenDate(v, referenceYear)
  {
    StrptimeDateNone(Lower(Strip(value)));
  }

  lemma DigitsOnly(s: string)
    requires AllDigits(s)
    ensures '-' !in s && '.' !in s && ' ' !in s && forall i :: 0 <= i < |s| ==> !IsSpace(s[i])
  {
    assert forall i :: 0 <= i < |s| ==> IsDigit(s[i]);
  }

  /** `D.M` without a year is that day and month of the reference year (None when that is no date). */
  lemma ParseDateRuleDayMonth(day: nat, month: nat, referenceYear: int, today: Date)
    requires day < 100 && month < 100 && ValidDate(today) && today != LastDate
    ensures ParseDateRule(DecimalString(day) + "." + DecimalString(month), referenceYear, today)
         == RulesParser.CalendarDate(referenceYear, month, day)
  {
    var a := DecimalString(day);
    var b := DecimalString(month);
    var v := a + "." + b;
    assert |a| <= 2 && |b| <= 2 by {
      if day >= 10 { assert |DecimalString(day / 10)| == 1; }
      if month >= 10 { assert |DecimalString(month / 10)| == 1; }
    }
    DotPairText(a, b, referenceYear);
    ParseDateRuleFallback(v, referenceYear, today);
    DecValueOfDecimal(day);
    DecValueOfDecimal(month);
    DottedDateOfTwo(a, b, referenceYear);
  }

  /** `D.M` text: plain, dotted, short, and no token date. */
  lemma DotPairText(a: string, b: string, referenceYear: int)
    requires IsDigitStr(a) && IsDigitStr(b) && |a| <= 2 && |b| <= 2
    ensures var v := a + "." + b;
      Lower(Strip(v)) == v && '-' !in v && '.' in v && |v| < 8
      && v != "сегодня" && v != "завтра" && TokenDate(v, referenceYear) == None
  {
    var v := a + "." + b;
    RulesParser.DotText(a, b);
    DotPairChars(a, b);
    DigitFirstNotRelative(v);
    SingleWordNoDate(v, referenceYear);
  }

  /** A dotted pair of digit strings holds a dot and neither a dash nor whitespace. */
  lemma DotPairChars(a: string, b: string)
    requires IsDigitStr(a) && IsDigitStr(b)
    ensures var v := a + "." + b;
      '-' !in v && '.' in v && IsWord(v) && IsDigit(v[0])
  {
    var v := a + "." + b;
    DigitsOnly(a);
    DigitsOnly(b);
    assert v == a + ['.'] + b;
    assert v[|a|] == '.';
    assert v[0] == a[0];
    forall i | 0 <= i < |v| ensures !IsSpace(v[i]) {
      if i < |a| { assert v[i] == a[i]; }
      else if i > |a| { assert v[i] == b[i - |a| - 1]; }
    }
  }

  /** A text whose first character is a digit is neither `сегодня` nor `завтра`. */
  lemma DigitFirstNotRelative(v: string)
    requires v != [] && IsDigit(v[0])
    ensures v != "сегодня" && v != "завтра"
  {
    assert "сегодня"[0] == 'с' && "завтра"[0] == 'з';
  }

  /** One dash-free word cannot be a `D месяц` date: that needs two tokens. */
  lemma SingleWordNoDate(v: string, referenceYear: int)
    requires IsWord(v) && '-' !in v
    ensures TokenDate(v, referenceYear) == None
  {
    ReplaceAbsent(v, '-', ' ');
    SplitWsOfWord(v);
  }

  lemma DottedDateOfTwo(a: string, b: string, referenceYear: int)
    requires IsDigitStr(a) && IsDigitStr(b)
    ensures DottedDate(a + "." + b, referenceYear) == RulesParser.CalendarDate(referenceYear, DecValue(b), DecValue(a))
  {
    DigitsOnly(a);
    DigitsOnly(b);
    assert a + "." + b == a + ['.'] + b;
    SplitTwo(a, b, '.');
    assert NonEmptyPieces([a, b]) == [a, b];
  }

  /** A month name, as text without dots or dashes, in lower case. */
  lemma MonthNameText(name: string)
    requires name in BotMonths
    ensures RulesParser.CyrWord(name) && IsWord(name) && '-' !in name && '.' !in name && !IsDigit(name[0])
    ensures Lower(name) == name
  {
    BotMonthsAreWords();
    RulesParser.CyrWordFacts(name);
  }

  /** The text `D месяц Y` and its pieces. */
  lemma MonthYearText(a: string, name: string, c: string)
    requires IsDigitStr(a) && IsDigitStr(c) && name in BotMonths
    ensures var v := a + " " + name + " " + c;
      Lower(Strip(v)) == v && '-' !in v && '.' !in v && v != "сегодня" && v != "завтра"
      && SplitWs(ReplaceChar(v, '-', ' ')) == [a, name, c]
  {
    var v := a + " " + name + " " + c;
    MonthNameText(name);
    DigitsOnly(a);
    DigitsOnly(c);
    var pre := a + " " + name + " ";
    assert v == pre + c && v[0] == a[0];
    assert v[|v| - 1] == c[|c| - 1];
    assert v != "сегодня" && v != "завтра" by {
      assert "сегодня"[0] == 'с' && "завтра"[0] == 'з';
    }
    assert Strip(v) == v by {
      StripOfStripped(v);
    }
    assert Lower(v) == v && '-' !in v && '.' !in v by {
      PlainPieces(a, name, c);
      PlainFacts(v);
    }
    ReplaceAbsent(v, '-', ' ');
    SplitWsOfThreeWords(a, name, c);
  }

  /**
   * `D месяц Y` is that day of that month of year Y; a year of 0 means the
   * reference year (the source writes `year or reference_year`).
   */
  lemma ParseDateRuleMonthYear(a: string, name: string, c: string, referenceYear: int, today: Date)
    requires IsDigitStr(a) && IsDigitStr(c) && name in BotMonths && ValidDate(today) && today != LastDate
    ensures ParseDateRule(a + " " + name + " " + c, referenceYear, today)
         == RulesParser.CalendarDate(if DecValue(c) != 0 then DecValue(c) else referenceYear, BotMonths[name], DecValue(a))
  {
    var v := a + " " + name + " " + c;
    MonthYearText(a, name, c);
    ParseDateRuleFallback(v, referenceYear, today);
    TokenDateOfThree(v, a, name, c, referenceYear);
  }

  lemma TokenDateOfThree(v: string, a: string, name: string, c: string, referenceYear: int)
    requires SplitWs(ReplaceChar(v, '-', ' ')) == [a, name, c]
    requires IsDigitStr(a) && IsDigitStr(c) && name in BotMonths
    ensures TokenDate(v, referenceYear)
         == RulesParser.CalendarDate(if DecValue(c) != 0 then DecValue(c) else referenceYear, BotMonths[name], DecValue(a))
  {
  }

  lemma TokenDateOfTwo(v: string, a: string, name: string, referenceYear: int)
    requires SplitWs(ReplaceChar(v, '-', ' ')) == [a, name]
    requires IsDigitStr(a) && name in BotMonths
    ensures TokenDate(v, referenceYear) == RulesParser.CalendarDate(referenceYear, BotMonths[name], DecValue(a))
  {
  }

  /** `D месяц` is that day of that month in the reference year. */
  lemma ParseDateRuleMonth(a: string, name: string, referenceYear: int, today: Date)
    requires IsDigitStr(a) && name in BotMonths && ValidDate(today) && today != LastDate
    ensures ParseDateRule(a + " " + name, referenceYear, today)
         == RulesParser.CalendarDate(referenceYear, BotMonths[name], DecValue(a))
  {
    var v := a + " " + name;
    MonthText(a, name);
    ParseDateRuleFallback(v, referenceYear, today);
    TokenDateOfTwo(v, a, name, referenceYear);
  }

  /** The text `D месяц` and its pieces. */
  lemma MonthText(a: string, name: string)
    requires IsDigitStr(a) && name in BotMonths
    ensures var v := a + " " + name;
      Lower(Strip(v)) == v && '-' !in v && '.' !in v && v != "сегодня" && v != "завтра"
      && SplitWs(ReplaceChar(v, '-', ' ')) == [a, name]
  {
    var v := a + " " + name;
    MonthNameText(name);
    DigitsOnly(a);
    assert v[0] == a[0] && v[|v| - 1] == name[|name| - 1];
    DigitFirstNotRelative(v);
    assert Strip(v) == v by {
      StripOfStripped(v);
    }
    assert Lower(v) == v && '-' !in v && '.' !in v by {
      PlainPair(a, name);
      PlainFacts(v);
    }
    ReplaceAbsent(v, '-', ' ');
    SplitWsOfTwoWords(a, name);
  }

  /** Text already in lower case that holds neither a dash nor a dot. */
  predicate Plain(s: string) {
    forall i :: 0 <= i < |s| ==> LowerChar(s[i]) == s[i] && s[i] != '-' && s[i] != '.'
  }

  lemma PlainConcat(x: string, y: string)
    requires Plain(x) && Plain(y)
    ensures Plain(x + y)
  {
    forall i | 0 <= i < |x + y| ensures LowerChar((x + y)[i]) == (x + y)[i] && (x + y)[i] != '-' && (x + y)[i] != '.' {
      if i < |x| { assert (x + y)[i] == x[i]; } else { assert (x + y)[i] == y[i - |x|]; }
    }
  }

  lemma PlainWord(name: string)
    requires name in BotMonths
    ensures Plain(name)
  {
    MonthNameText(name);
    RulesParser.CyrWordFacts(name);
  }

  lemma PlainFacts(v: string)
    requires Plain(v)
    ensures Lower(v) == v && '-' !in v && '.' !in v
  {
    LowerOfUncased(v);
  }

  lemma PlainPair(a: string, name: string)
    requires AllDigits(a) && name in BotMonths
    ensures Plain(a + " " + name)
  {
    assert Plain(a) && Plain(" ");
    PlainConcat(a, " ");
    PlainWord(name);
    PlainConcat(a + " ", name);
  }

  lemma PlainPieces(a: string, name: string, c: string)
    requires AllDigits(a) && AllDigits(c) && name in BotMonths
    ensures Plain(a + " " + name + " " + c)
  {
    PlainPair(a, name);
    assert Plain(" ") && Plain(c);
    PlainConcat(a + " " + name, " ");
    PlainConcat(a + " " + name + " ", c);
  }

  // ---------------- slot_matches_tracking_rules ----------------

  /** The slot's time of day with the seconds dropped, in seconds since midnight. */
  function SlotMinute(slot: DateTime): (t: int)
    requires ValidDateTime(slot)
    ensures 0 <= t < 86400 && t % 60 == 0
  {
    slot.hour * 3600 + slot.minute * 60
  }

  /**
   * The day test for a lower-cased kind and a stripped, lower-cased value: a
   * weekday by name, a date through `_parse_date_rule` (with the current year),
   * `сегодня` / `завтра` against today, and `any` for every day; other kinds
   * admit nothing.
   */
  predicate KindAdmits(kind: string, value: string, d: Date, now: DateTime)
    requires ValidDate(d) && ValidNow(now)
  {
    if kind == "weekday" then value in WeekdayIndex && Weekday(d) == WeekdayIndex[value]
    else if kind == "date" then ParseDateRule(value, now.date.year, now.date) == Some(d)
    else if kind == "relative_date" then
      (value == "сегодня" && d == now.date) || (value == "завтра" && d == NextDay(now.date))
    else kind == "any"
  }

  /** Whether one rule's day part admits the date; kind and value are compared case-blind. */
  predicate DayAdmits(rule: Rule, d: Date, now: DateTime)
    requires ValidDate(d) && ValidNow(now)
  {
    KindAdmits(Lower(rule.kind), Lower(Strip(rule.value)), d, now)
  }

  /** The four kinds are their own lower case. */
  lemma KindWords()
    ensures Lower("weekday") == "weekday" && Lower("date") == "date"
    ensures Lower("relative_date") == "relative_date" && Lower("any") == "any"
  {
    LowerWeekdayKind();
    LowerDateKind();
    LowerRelativeKind();
    LowerAnyKind();
  }

  lemma LowerWeekdayKind() ensures Lower("weekday") == "weekday" { LowerOfUncased("weekday"); }
  lemma LowerDateKind() ensures Lower("date") == "date" { LowerOfUncased("date"); }
  lemma LowerRelativeKind() ensures Lower("relative_date") == "relative_date" { LowerOfUncased("relative_date"); }
  lemma LowerAnyKind() ensures Lower("any") == "any" { LowerOfUncased("any"); }

  /** One rule accepts the slot: its day part and its windows both do. */
  predicate RuleMatches(slot: DateTime, rule: Rule, now: DateTime)
    requires ValidDateTime(slot) && ValidNow(now)
  {
    DayAdmits(rule, slot.date, now) && TimeMatchesRanges(SlotMinute(slot), rule.timeRanges)
  }

  /** The loop over the rules: true at the first rule that accepts the slot. */
  function AnyRuleMatches(slot: DateTime, rules: seq<Rule>, now: DateTime): bool
    requires ValidDateTime(slot) && ValidNow(now)
  {
    if rules == [] then false
    else RuleMatches(slot, rules[0], now) || AnyRuleMatches(slot, rules[1..], now)
  }

  /** `slot_matches_tracking_rules`: no rules means no constraint. */
  function SlotMatches(slot: DateTime, rules: seq<Rule>, now: DateTime): (b: bool)
    requires ValidDateTime(slot) && ValidNow(now)
    ensures rules == [] ==> b
  {
    rules == [] || AnyRuleMatches(slot, rules, now)
  }

  lemma AnyRuleMatchesSpec(slot: DateTime, rules: seq<Rule>, now: DateTime)
    requires ValidDateTime(slot) && ValidNow(now)
    ensures AnyRuleMatches(slot, rules, now) <==> exists k :: 0 <= k < |rules| && RuleMatches(slot, rules[k], now)
  {
    if AnyRuleMatches(slot, rules, now) {
      var k := AcceptingRule(slot, rules, now);
    }
    forall k | 0 <= k < |rules| && RuleMatches(slot, rules[k], now)
      ensures AnyRuleMatches(slot, rules, now)
    {
      AcceptedByRule(slot, rules, now, k);
    }
  }

  /** The loop stops at a rule that accepts the slot. */
  lemma AcceptingRule(slot: DateTime, rules: seq<Rule>, now: DateTime) returns (k: nat)
    requires ValidDateTime(slot) && ValidNow(now) && AnyRuleMatches(slot, rules, now)
    ensures k < |rules| && RuleMatches(slot, rules[k], now)
  {
    k := 0;
    while !RuleMatches(slot, rules[k], now)
      invariant k < |rules| && AnyRuleMatches(slot, rules[k..], now)
      decreases |rules| - k
    {
      MatchesLater(slot, rules, k, now);
      k := k + 1;
    }
  }

  /** When the rule at `k` refuses the slot, the loop's acceptance comes from the rules after it. */
  lemma MatchesLater(slot: DateTime, rules: seq<Rule>, k: nat, now: DateTime)
    requires ValidDateTime(slot) && ValidNow(now)
    requires k < |rules| && AnyRuleMatches(slot, rules[k..], now) && !RuleMatches(slot, rules[k], now)
    ensures k + 1 < |rules| && AnyRuleMatches(slot, rules[k + 1..], now)
  {
    assert rules[k..][0] == rules[k] && rules[k..][1..] == rules[k + 1..];
  }

  /** One accepting rule is enough for the loop. */
  lemma {:induction false} AcceptedByRule(slot: DateTime, rules: seq<Rule>, now: DateTime, k: nat)
    requires ValidDateTime(slot) && ValidNow(now) && k < |rules| && RuleMatches(slot, rules[k], now)
    ensures AnyRuleMatches(slot, rules, now)
  {
    if k > 0 {
      assert rules[1..][k - 1] == rules[k];
      AcceptedByRule(slot, rules[1..], now, k - 1);
    }
  }

  /** A non-empty rule list accepts a slot exactly when one of its rules does. */
  lemma SlotMatchesSpec(slot: DateTime, rules: seq<Rule>, now: DateTime)
    requires ValidDateTime(slot) && ValidNow(now)
    ensures SlotMatches(slot, rules, now)
        <==> rules == [] || exists k :: 0 <= k < |rules| && RuleMatches(slot, rules[k], now)
  {
    AnyRuleMatchesSpec(slot, rules, now);
  }

  /** The rules of a concatenation: either part may accept (both parts non-empty or not). */
  lemma {:induction false} AnyRuleMatchesAppend(slot: DateTime, xs: seq<Rule>, ys: seq<Rule>, now: DateTime)
    requires ValidDateTime(slot) && ValidNow(now)
    ensures AnyRuleMatches(slot, xs + ys, now) == (AnyRuleMatches(slot, xs, now) || AnyRuleMatches(slot, ys, now))
  {
    if xs != [] {
      assert (xs + ys)[0] == xs[0] && (xs + ys)[1..] == xs[1..] + ys;
      AnyRuleMatchesAppend(slot, xs[1..], ys, now);
    } else {
      assert xs + ys == ys;
    }
  }

  /** A weekday rule accepts exactly the slots on that weekday whose time its windows accept. */
  lemma WeekdayRuleMatches(slot: DateTime, k: nat, ranges: seq<string>, now: DateTime)
    requires ValidDateTime(slot) && ValidNow(now) && k < 7
    ensures RuleMatches(slot, RulesParser.Rule("weekday", RulesParser.Weekdays[k], ranges), now)
        <==> Weekday(slot.date) == k && TimeMatchesRanges(SlotMinute(slot), ranges)
  {
    RulesParser.WeekdayPlain(RulesParser.Weekdays[k]);
    WeekdayIndexOfNames();
    KindWords();
  }

  /** A date rule holding ISO text accepts exactly the slots on that date whose time its windows accept. */
  lemma IsoDateRuleMatches(slot: DateTime, d: Date, ranges: seq<string>, now: DateTime)
    requires ValidDateTime(slot) && ValidNow(now) && ValidDate(d)
    ensures RuleMatches(slot, RulesParser.Rule("date", IsoDate(d), ranges), now)
        <==> slot.date == d && TimeMatchesRanges(SlotMinute(slot), ranges)
  {
    RulesParser.IsoDateText(d);
    ParseDateRuleIso(d, now.date.year, now.date);
    KindWords();
    assert KindAdmits("date", IsoDate(d), slot.date, now) <==> slot.date == d;
  }

  /** `relative_date` rules follow the clock: `сегодня` is today's date and `завтра` the next. */
  lemma RelativeRuleMatches(slot: DateTime, ranges: seq<string>, now: DateTime)
    requires ValidDateTime(slot) && ValidNow(now)
    ensures RuleMatches(slot, RulesParser.Rule("relative_date", "сегодня", ranges), now)
        <==> slot.date == now.date && TimeMatchesRanges(SlotMinute(slot), ranges)
    ensures RuleMatches(slot, RulesParser.Rule("relative_date", "завтра", ranges), now)
        <==> slot.date == NextDay(now.date) && TimeMatchesRanges(SlotMinute(slot), ranges)
  {
    RulesParser.DayWord(RulesParser.RelativeDays[0]);
    RulesParser.DayWord(RulesParser.RelativeDays[1]);
    KindWords();
    assert KindAdmits("relative_date", "сегодня", slot.date, now) <==> slot.date == now.date;
    assert KindAdmits("relative_date", "завтра", slot.date, now) <==> slot.date == NextDay(now.date);
  }

  /** An `any` rule constrains only the time of day. */
  lemma AnyRuleMatchesTime(slot: DateTime, value: string, ranges: seq<string>, now: DateTime)
    requires ValidDateTime(slot) && ValidNow(now)
    ensures RuleMatches(slot, RulesParser.Rule("any", value, ranges), now) <==> TimeMatchesRanges(SlotMinute(slot), ranges)
  {
    KindWords();
  }

  /**
   * Freezing `сегодня` to today's ISO date keeps what a date rule accepts, as long
   * as the clock is the one it was frozen with.
   */
  lemma FrozenTodayMatches(slot: DateTime, ranges: seq<string>, now: DateTime)
    requires ValidDateTime(slot) && ValidNow(now)
    ensures RuleMatches(slot, RulesParser.Rule("date", "сегодня", ranges), now)
        == RuleMatches(slot, RulesParser.Rule("date", IsoDate(now.date), ranges), now)
  {
    TodayDateRuleMatches(slot, ranges, now);
    IsoDateRuleMatches(slot, now.date, ranges, now);
  }

  /** A date rule holding `сегодня` accepts the slots of today whose time its windows accept. */
  lemma TodayDateRuleMatches(slot: DateTime, ranges: seq<string>, now: DateTime)
    requires ValidDateTime(slot) && ValidNow(now)
    ensures RuleMatches(slot, RulesParser.Rule("date", "сегодня", ranges), now)
        <==> slot.date == now.date && TimeMatchesRanges(SlotMinute(slot), ranges)
  {
    RulesParser.DayWord(RulesParser.RelativeDays[0]);
    ParseDateRuleRelative("сегодня", now.date.year, now.date);
    KindWords();
    assert KindAdmits("date", "сегодня", slot.date, now) <==> slot.date == now.date;
  }
}
