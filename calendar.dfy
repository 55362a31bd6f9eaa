/**
 * Civil dates and times as Python's `datetime` module treats them: the proleptic
 * Gregorian calendar for years 1..9999, `weekday()`, `+ timedelta(days=1)`,
 * `strftime('%Y-%m-%d')`, the three `strptime` formats the tracker uses and
 * `fromisoformat` in its documented form.
 */
module Calendar {
  import opened Options
  import opened PyText

  datatype Date = Date(year: int, month: int, day: int)

  /** A naive date-time down to the microsecond, as `now` and the service's slot times carry them. */
  datatype DateTime = DateTime(date: Date, hour: int, minute: int, second: int, micro: int)

  predicate IsLeap(y: int) {
    y % 4 == 0 && (y % 100 != 0 || y % 400 == 0)
  }

  function DaysInMonth(y: int, m: int): (n: int)
    requires 1 <= m <= 12
    ensures 28 <= n <= 31
  {
    if m == 2 then (if IsLeap(y) then 29 else 28)
    else if m == 4 || m == 6 || m == 9 || m == 11 then 30
    else 31
  }

  /** What `date(year, month, day)` accepts without raising ValueError. */
  predicate ValidDate(d: Date) {
    1 <= d.year <= 9999 && 1 <= d.month <= 12 && 1 <= d.day <= DaysInMonth(d.year, d.month)
  }

  predicate ValidClock(h: int, m: int, s: int) {
    0 <= h < 24 && 0 <= m < 60 && 0 <= s < 60
  }

  predicate ValidDateTime(t: DateTime) {
    ValidDate(t.date) && ValidClock(t.hour, t.minute, t.second) && 0 <= t.micro < 1000000
  }

  /** `date.max`: the one date that has no successor. */
  const LastDate := Date(9999, 12, 31)

  /** A reading of the wall clock the model accepts: a real time on a day that has a successor. */
  predicate ValidNow(t: DateTime) {
    ValidDateTime(t) && t.date != LastDate
  }

  function DaysInYear(y: int): int {
    if IsLeap(y) then 366 else 365
  }

  function DaysBeforeYear(y: int): nat
    requires y >= 1
    decreases y
  {
    if y == 1 then 0 else DaysBeforeYear(y - 1) + DaysInYear(y - 1)
  }

  function DaysBeforeMonth(y: int, m: int): nat
    requires 1 <= m <= 13
    decreases m
  {
    if m == 1 then 0 else DaysBeforeMonth(y, m - 1) + DaysInMonth(y, m - 1)
  }

  lemma DaysBeforeYearEnd(y: int)
    ensures DaysBeforeMonth(y, 13) == DaysInYear(y)
  {
    assert DaysBeforeMonth(y, 2) == 31;
    assert DaysBeforeMonth(y, 3) == 31 + DaysInMonth(y, 2);
    assert DaysBeforeMonth(y, 7) == DaysBeforeMonth(y, 3) + 31 + 30 + 31 + 30;
    assert DaysBeforeMonth(y, 13) == DaysBeforeMonth(y, 7) + 31 + 31 + 30 + 31 + 30 + 31;
  }

  /** Days since 0001-01-01, i.e. `date.toordinal() - 1`. */
  function Ordinal(d: Date): nat
    requires ValidDate(d)
  {
    DaysBeforeYear(d.year) + DaysBeforeMonth(d.year, d.month) + d.day - 1
  }

  /** `date.weekday()`: Monday is 0, and 0001-01-01 was a Monday. */
  function Weekday(d: Date): (w: nat)
    requires ValidDate(d)
    ensures w < 7
  {
    Ordinal(d) % 7
  }

  /** `d + timedelta(days=1)`; Python raises OverflowError past `date.max`. */
  function NextDay(d: Date): (r: Date)
    requires ValidDate(d) && d != LastDate
    ensures ValidDate(r) && Ordinal(r) == Ordinal(d) + 1
  {
    if d.day < DaysInMonth(d.year, d.month) then
      NextInMonth(d);
      Date(d.year, d.month, d.day + 1)
    else if d.month < 12 then
      NextMonthStart(d);
      Date(d.year, d.month + 1, 1)
    else
      NextYearStart(d);
      Date(d.year + 1, 1, 1)
  }

  lemma NextInMonth(d: Date)
    requires ValidDate(d) && d.day < DaysInMonth(d.year, d.month)
    ensures ValidDate(Date(d.year, d.month, d.day + 1))
    ensures Ordinal(Date(d.year, d.month, d.day + 1)) == Ordinal(d) + 1
  {
  }

  lemma NextMonthStart(d: Date)
    requires ValidDate(d) && d.day == DaysInMonth(d.year, d.month) && d.month < 12
    ensures ValidDate(Date(d.year, d.month + 1, 1))
    ensures Ordinal(Date(d.year, d.month + 1, 1)) == Ordinal(d) + 1
  {
    assert DaysBeforeMonth(d.year, d.month + 1) == DaysBeforeMonth(d.year, d.month) + DaysInMonth(d.year, d.month);
  }

  lemma NextYearStart(d: Date)
    requires ValidDate(d) && d != LastDate && d.day == DaysInMonth(d.year, d.month) && d.month == 12
    ensures ValidDate(Date(d.year + 1, 1, 1))
    ensures Ordinal(Date(d.year + 1, 1, 1)) == Ordinal(d) + 1
  {
    DaysBeforeYearEnd(d.year);
    assert DaysBeforeMonth(d.year, 13) == DaysBeforeMonth(d.year, 12) + 31;
    assert DaysBeforeYear(d.year + 1) == DaysBeforeYear(d.year) + DaysInYear(d.year);
  }

  lemma NextDayWeekday(d: Date)
    requires ValidDate(d) && d != LastDate
    ensures Weekday(NextDay(d)) == (Weekday(d) + 1) % 7
  {
    var o := Ordinal(d);
    assert Ordinal(NextDay(d)) == o + 1;
    SuccMod7(o);
  }

  lemma SuccMod7(o: nat)
    ensures (o + 1) % 7 == (o % 7 + 1) % 7
  {
  }

  lemma NextDayAdvances(d: Date)
    requires ValidDate(d) && d != LastDate
    ensures NextDay(d) != d
  {
  }

  /** Python's `a < b` on naive date-times: field by field, the year first. */
  predicate Earlier(a: DateTime, b: DateTime) {
    if a.date.year != b.date.year then a.date.year < b.date.year
    else if a.date.month != b.date.month then a.date.month < b.date.month
    else if a.date.day != b.date.day then a.date.day < b.date.day
    else if a.hour != b.hour then a.hour < b.hour
    else if a.minute != b.minute then a.minute < b.minute
    else if a.second != b.second then a.second < b.second
    else a.micro < b.micro
  }

  /** Python's `a <= b` on naive date-times. */
  predicate NotAfter(a: DateTime, b: DateTime) {
    !Earlier(b, a)
  }

  /** The order is strict and total: exactly one of `a < b`, `a == b`, `b < a`. */
  lemma EarlierTrichotomy(a: DateTime, b: DateTime)
    ensures Earlier(a, b) || a == b || Earlier(b, a)
    ensures !(Earlier(a, b) && Earlier(b, a)) && !Earlier(a, a)
  {
  }

  lemma EarlierTransitive(a: DateTime, b: DateTime, c: DateTime)
    requires Earlier(a, b) && NotAfter(b, c)
    ensures Earlier(a, c)
  {
  }

  lemma NotAfterTransitive(a: DateTime, b: DateTime, c: DateTime)
    requires NotAfter(a, b) && NotAfter(b, c)
    ensures NotAfter(a, c)
  {
  }

  /** `t.replace(second=0, microsecond=0)`. */
  function TruncateToMinute(t: DateTime): DateTime {
    DateTime(t.date, t.hour, t.minute, 0, 0)
  }

  // ---------------- Formatting ----------------

  /** `d.strftime('%Y-%m-%d')`. */
  function IsoDate(d: Date): (s: string)
    requires ValidDate(d)
    ensures |s| == 10
  {
    Pad4(d.year) + "-" + Pad2(d.month) + "-" + Pad2(d.day)
  }

  /** `t.strftime('%Y-%m-%d %H:%M')`, the slot key format. */
  function SlotText(t: DateTime): (s: string)
    requires ValidDateTime(t)
    ensures |s| == 16
  {
    IsoDate(t.date) + " " + Pad2(t.hour) + ":" + Pad2(t.minute)
  }

  // ---------------- Parsing ISO text ----------------

  predicate DigitsAt(s: string, i: int, n: int) {
    0 <= i && 0 <= n && i + n <= |s| && AllDigits(s[i..i + n])
  }

  /** The text `\d{4}-\d{2}-\d{2}`, exactly. */
  predicate IsoDateShape(s: string) {
    |s| == 10 && DigitsAt(s, 0, 4) && s[4] == '-' && DigitsAt(s, 5, 2) && s[7] == '-' && DigitsAt(s, 8, 2)
  }

  function IsoDateFields(s: string): Date
    requires IsoDateShape(s)
  {
    Date(DecValue(s[..4]), DecValue(s[5..7]), DecValue(s[8..10]))
  }

  /** `date.fromisoformat(s)` / `datetime(y, m, d)` on `YYYY-MM-DD` text; the inverse of IsoDate. */
  function ParseIsoDate(s: string): (r: Option<Date>)
    ensures r.Some? ==> ValidDate(r.value) && IsoDate(r.value) == s
    ensures r.Some? <==> IsoDateShape(s) && ValidDate(IsoDateFields(s))
  {
    if IsoDateShape(s) && ValidDate(IsoDateFields(s)) then
      var d := IsoDateFields(s);
      Pad4OfDigits(s[..4]);
      Pad2OfDigits(s[5..7]);
      Pad2OfDigits(s[8..10]);
      assert s == s[..4] + "-" + s[5..7] + "-" + s[8..10];
      Some(d)
    else None
  }

  lemma IsoDateRoundTrip(d: Date)
    requires ValidDate(d)
    ensures ParseIsoDate(IsoDate(d)) == Some(d)
  {
    var s := IsoDate(d);
    assert s[..4] == Pad4(d.year);
    assert s[5..7] == Pad2(d.month);
    assert s[8..10] == Pad2(d.day);
    assert IsoDateShape(s);
    assert IsoDateFields(s) == d;
  }

  function TwoDigitValue(s: string, i: int): (r: Option<nat>)
    ensures r.Some? ==> r.value < 100
  {
    if 0 <= i && i + 2 <= |s| && IsDigit(s[i]) && IsDigit(s[i + 1]) then
      Some(DigitVal(s[i]) * 10 + DigitVal(s[i + 1]))
    else None
  }

  function ThreeDigitValue(s: string, i: int): (r: Option<nat>)
    ensures r.Some? ==> r.value < 1000
  {
    if 0 <= i && i + 3 <= |s| && IsDigit(s[i]) && IsDigit(s[i + 1]) && IsDigit(s[i + 2]) then
      Some(DigitVal(s[i]) * 100 + DigitVal(s[i + 1]) * 10 + DigitVal(s[i + 2]))
    else None
  }

  /**
   * The clock of `fromisoformat`: `HH`, `HH:MM`, `HH:MM:SS`, `HH:MM:SS.fff` or
   * `HH:MM:SS.ffffff`, each field of ASCII digits, as the seconds since midnight
   * and the microseconds. The fields must be a real time of day.
   */
  function ParseIsoClock(s: string): (r: Option<(nat, nat)>)
    ensures r.Some? ==> r.value.0 < 86400 && r.value.1 < 1000000
    ensures r.Some? ==> |s| in {2, 5, 8, 12, 15}
    ensures r.Some? && |s| <= 8 ==> r.value.1 == 0
  {
    if |s| != 2 && |s| != 5 && |s| != 8 && |s| != 12 && |s| != 15 then None
    else if |s| >= 5 && s[2] != ':' then None
    else if |s| >= 8 && s[5] != ':' then None
    else if |s| >= 12 && s[8] != '.' then None
    else
      var h := TwoDigitValue(s, 0);
      var m := if |s| >= 5 then TwoDigitValue(s, 3) else Some(0);
      var sec := if |s| >= 8 then TwoDigitValue(s, 6) else Some(0);
      var hi := if |s| >= 12 then ThreeDigitValue(s, 9) else Some(0);
      var lo := if |s| == 15 then ThreeDigitValue(s, 12) else Some(0);
      if h.Some? && m.Some? && sec.Some? && hi.Some? && lo.Some?
         && h.value < 24 && m.value < 60 && sec.value < 60 then
        Some((h.value * 3600 + m.value * 60 + sec.value, hi.value * 1000 + lo.value))
      else None
  }

  /**
   * `time.fromisoformat(s)` on a time without a UTC offset, as the whole seconds
   * since midnight: text without a `.` never has a fraction to drop.
   */
  function ParseIsoTime(s: string): (r: Option<nat>)
    ensures r.Some? ==> r.value < 86400
    ensures r.Some? <==> ParseIsoClock(s).Some?
    ensures r.Some? && '.' !in s ==> ParseIsoClock(s) == Some((r.value, 0))
  {
    match ParseIsoClock(s)
    case Some(c) =>
      assert '.' !in s ==> |s| <= 8 by {
        if |s| > 8 { assert s[8] == '.'; }
      }
      Some(c.0)
    case None => None
  }

  /** `HH:MM` with both fields zero-padded. */
  function ClockText(h: int, m: int): (s: string)
    requires 0 <= h < 100 && 0 <= m < 100
    ensures |s| == 5
  {
    Pad2(h) + ":" + Pad2(m)
  }

  lemma ParseClockText(h: int, m: int)
    requires ValidClock(h, m, 0)
    ensures ParseIsoTime(ClockText(h, m)) == Some(h * 3600 + m * 60)
  {
    var s := ClockText(h, m);
    DecValueOfTwo(Pad2(h));
    DecValueOfTwo(Pad2(m));
    assert s[0] == Pad2(h)[0] && s[1] == Pad2(h)[1];
    assert s[3] == Pad2(m)[0] && s[4] == Pad2(m)[1];
  }

  /** The index of the first `+` or `-` of `s`, where an offset starts; `|s|` when there is none. */
  function SignIndex(s: string): (i: nat)
    ensures i <= |s|
    ensures forall j :: 0 <= j < i ==> s[j] != '+' && s[j] != '-'
    ensures i < |s| ==> s[i] == '+' || s[i] == '-'
  {
    if s == [] then 0 else if s[0] == '+' || s[0] == '-' then 0 else 1 + SignIndex(s[1..])
  }

  /** A UTC offset `±HH:MM`, `±HH:MM:SS` or `±HH:MM:SS.ffffff`. */
  predicate IsoOffset(s: string) {
    (|s| == 6 || |s| == 9 || |s| == 16) && (s[0] == '+' || s[0] == '-') && ParseIsoClock(s[1..]).Some?
  }

  /** What follows the separator: a clock, and an offset from the first sign on. */
  function ParseIsoTail(rest: string): (r: Option<(nat, nat)>)
    ensures r.Some? ==> r.value.0 < 86400 && r.value.1 < 1000000
    ensures var i := SignIndex(rest);
      r.Some? <==> (i == |rest| || IsoOffset(rest[i..])) && ParseIsoClock(rest[..i]).Some?
    ensures r.Some? ==> r == ParseIsoClock(rest[..SignIndex(rest)])
  {
    var i := SignIndex(rest);
    if i < |rest| && !IsoOffset(rest[i..]) then None else ParseIsoClock(rest[..i])
  }

  /** The date-time at seconds-since-midnight and microseconds `c` of day `d`. */
  function ClockAt(d: Date, c: (nat, nat)): (t: DateTime)
    requires c.0 < 86400 && c.1 < 1000000
    ensures t.date == d && ValidClock(t.hour, t.minute, t.second) && 0 <= t.micro < 1000000
    ensures t.hour * 3600 + t.minute * 60 + t.second == c.0 && t.micro == c.1
  {
    DateTime(d, c.0 / 3600, c.0 / 60 % 60, c.0 % 60, c.1)
  }

  /**
   * `datetime.fromisoformat(s)`: `YYYY-MM-DD`, optionally followed by any one
   * separator character, a clock `HH[:MM[:SS[.fff[fff]]]]` and a UTC offset.
   * The offset is checked and dropped: the clinic's slots and the tracker's
   * clock share one zone.
   */
  function ParseIsoDateTime(s: string): (r: Option<DateTime>)
    ensures r.Some? ==> ValidDateTime(r.value)
    ensures r.Some? ==> |s| >= 10 && ParseIsoDate(s[..10]) == Some(r.value.date)
    ensures |s| > 10 ==> (r.Some? <==> ParseIsoDate(s[..10]).Some? && ParseIsoTail(s[11..]).Some?)
    ensures r.Some? && |s| > 10 ==>
      ParseIsoTail(s[11..]) == Some((r.value.hour * 3600 + r.value.minute * 60 + r.value.second, r.value.micro))
    ensures |s| == 10 ==> (r.Some? <==> ParseIsoDate(s[..10]).Some?)
    ensures r.Some? && |s| == 10 ==> r.value == DateTime(r.value.date, 0, 0, 0, 0)
  {
    if |s| < 10 then None
    else
      match ParseIsoDate(s[..10])
      case None => None
      case Some(d) =>
        if |s| == 10 then Some(DateTime(d, 0, 0, 0, 0))
        else
          match ParseIsoTail(s[11..])
          case None => None
          case Some(c) => Some(ClockAt(d, c))
  }

  /** `SignIndex` is the position of the first sign: any index with no sign before it and a sign (or the end) at it. */
  lemma {:induction false} SignIndexAt(s: string, i: nat)
    requires i <= |s|
    requires forall j :: 0 <= j < i ==> s[j] != '+' && s[j] != '-'
    requires i < |s| ==> s[i] == '+' || s[i] == '-'
    ensures SignIndex(s) == i
  {
    if i > 0 {
      SignIndexAt(s[1..], i - 1);
    }
  }

  lemma ServiceDate()
    ensures ParseIsoDate("2025-03-24") == Some(Date(2025, 3, 24))
  {
    var s := "2025-03-24";
    assert s[..4] == "2025" && s[5..7] == "03" && s[8..10] == "24";
    DecValueOfFour("2025");
    DecValueOfTwo("03");
    DecValueOfTwo("24");
    assert IsoDateShape(s);
    assert IsoDateFields(s) == Date(2025, 3, 24);
  }

  lemma ServiceOffset()
    ensures IsoOffset("+03:00")
  {
    assert "+03:00"[1..] == "03:00";
  }

  lemma ServiceClock()
    ensures ParseIsoClock("18:15:00.000") == Some((65700, 0))
  {
  }

  lemma ServiceSign()
    ensures SignIndex("18:15:00.000+03:00") == 12
  {
    SignIndexAt("18:15:00.000+03:00", 12);
  }

  lemma ServiceSplit()
    ensures "18:15:00.000+03:00"[..12] == "18:15:00.000" && "18:15:00.000+03:00"[12..] == "+03:00"
  {
  }

  lemma ServiceTail()
    ensures ParseIsoTail("18:15:00.000+03:00") == Some((65700, 0))
  {
    ServiceSign();
    ServiceSplit();
    ServiceOffset();
    ServiceClock();
  }

  /** A stamp whose date and tail parse reads as the clock of the tail on that date. */
  lemma StampOfParts(date: string, sep: char, tail: string, d: Date, c: (nat, nat))
    requires |date| == 10 && ParseIsoDate(date) == Some(d)
    requires tail != [] && ParseIsoTail(tail) == Some(c) && c.0 < 86400 && c.1 < 1000000
    ensures ParseIsoDateTime(date + [sep] + tail) == Some(ClockAt(d, c))
  {
    var s := date + [sep] + tail;
    assert s[..10] == date;
    assert s[11..] == tail;
  }

  lemma FractionParts()
    ensures ParseIsoDateTime("2025-03-24" + ['T'] + "18:15:00.000+03:00") == Some(ClockAt(Date(2025, 3, 24), (65700, 0)))
  {
    ServiceDate();
    ServiceTail();
    StampOfParts("2025-03-24", 'T', "18:15:00.000+03:00", Date(2025, 3, 24), (65700, 0));
  }

  lemma FractionJoin()
    ensures "2025-03-24" + ['T'] + "18:15:00.000+03:00" == "2025-03-24T18:15:00.000+03:00"
  {
  }

  lemma QuarterPastSix()
    ensures ClockAt(Date(2025, 3, 24), (65700, 0)) == DateTime(Date(2025, 3, 24), 18, 15, 0, 0)
  {
  }

  /** A service stamp with milliseconds and an offset reads as its local date-time. */
  lemma StampWithFraction()
    ensures ParseIsoDateTime("2025-03-24T18:15:00.000+03:00") == Some(DateTime(Date(2025, 3, 24), 18, 15, 0, 0))
  {
    FractionParts();
    FractionJoin();
    QuarterPastSix();
  }

  lemma MicrosClock()
    ensures ParseIsoClock("18:15:07.250000") == Some((65707, 250000))
  {
    var s := "18:15:07.250000";
    assert s[2] == ':' && s[5] == ':' && s[8] == '.';
    assert TwoDigitValue(s, 0) == Some(18) && TwoDigitValue(s, 3) == Some(15) && TwoDigitValue(s, 6) == Some(7);
    assert ThreeDigitValue(s, 9) == Some(250) && ThreeDigitValue(s, 12) == Some(0);
  }

  lemma MicrosSign()
    ensures SignIndex("18:15:07.250000") == 15
  {
    SignIndexAt("18:15:07.250000", 15);
  }

  /** A tail without a sign is a bare clock. */
  lemma TailWithoutOffset(rest: string)
    requires SignIndex(rest) == |rest|
    ensures ParseIsoTail(rest) == ParseIsoClock(rest)
  {
    assert rest[..|rest|] == rest;
  }

  lemma MicrosTail()
    ensures ParseIsoTail("18:15:07.250000") == Some((65707, 250000))
  {
    MicrosSign();
    TailWithoutOffset("18:15:07.250000");
    MicrosClock();
  }

  lemma MicrosParts()
    ensures ParseIsoDateTime("2025-03-24" + [' '] + "18:15:07.250000") == Some(ClockAt(Date(2025, 3, 24), (65707, 250000)))
  {
    ServiceDate();
    MicrosTail();
    StampOfParts("2025-03-24", ' ', "18:15:07.250000", Date(2025, 3, 24), (65707, 250000));
  }

  lemma MicrosJoin()
    ensures "2025-03-24" + [' '] + "18:15:07.250000" == "2025-03-24 18:15:07.250000"
  {
  }

  lemma MicrosClockAt()
    ensures ClockAt(Date(2025, 3, 24), (65707, 250000)) == DateTime(Date(2025, 3, 24), 18, 15, 7, 250000)
  {
  }

  /** Microseconds are kept, and a blank separates date and clock as well as `T` does. */
  lemma StampWithMicros()
    ensures ParseIsoDateTime("2025-03-24 18:15:07.250000") == Some(DateTime(Date(2025, 3, 24), 18, 15, 7, 250000))
  {
    MicrosParts();
    MicrosJoin();
    MicrosClockAt();
  }

  lemma MinuteTail()
    ensures ParseIsoTail("18:15") == Some((65700, 0))
  {
    var rest := "18:15";
    SignIndexAt(rest, 5);
    assert rest[..5] == rest;
    assert ParseIsoClock(rest) == Some((65700, 0));
  }

  lemma SeparatorParts()
    ensures ParseIsoDateTime("2025-03-24" + ['_'] + "18:15") == Some(ClockAt(Date(2025, 3, 24), (65700, 0)))
  {
    ServiceDate();
    MinuteTail();
    StampOfParts("2025-03-24", '_', "18:15", Date(2025, 3, 24), (65700, 0));
  }

  lemma SeparatorJoin()
    ensures "2025-03-24" + ['_'] + "18:15" == "2025-03-24_18:15"
  {
  }

  /** Any one character may separate the date from the clock. */
  lemma StampAnySeparator()
    ensures ParseIsoDateTime("2025-03-24_18:15") == Some(DateTime(Date(2025, 3, 24), 18, 15, 0, 0))
  {
    SeparatorParts();
    SeparatorJoin();
    QuarterPastSix();
  }

  /** A fraction of two digits is refused: it must have three or six. */
  lemma StampShortFractionRefused()
    ensures ParseIsoDateTime("2025-03-24T18:15:00.00") == None
  {
    var s := "2025-03-24T18:15:00.00";
    assert s[11..] == "18:15:00.00";
    ShortFractionTail();
  }

  lemma ShortFractionTail()
    ensures ParseIsoTail("18:15:00.00") == None
  {
    var rest := "18:15:00.00";
    assert |rest| == 11;
    assert forall j :: 0 <= j < |rest| ==> rest[j] != '+' && rest[j] != '-';
    TailWithoutSign(rest);
  }

  /** Without a sign there is no offset: the tail is read as a clock alone. */
  lemma TailWithoutSign(rest: string)
    requires forall j :: 0 <= j < |rest| ==> rest[j] != '+' && rest[j] != '-'
    ensures ParseIsoTail(rest) == ParseIsoClock(rest)
  {
    SignIndexAt(rest, |rest|);
    assert rest[..|rest|] == rest;
  }

  // ---------------- strptime ----------------

  /** One element of a `strptime` format after `_strptime` has compiled it to a regular expression. */
  datatype Directive =
    | Lit(c: char)   // a literal character
    | Spaces         // whitespace in the format, compiled to `\s+`
    | Year           // %Y   \d\d\d\d
    | Month          // %m   1[0-2]|0[1-9]|[1-9]
    | Day            // %d   3[01]|[12]\d|0[1-9]|[1-9]| [1-9]
    | Hour           // %H   2[0-3]|[0-1]\d|\d
    | Minute         // %M   [0-5]\d|\d

  datatype Fields = Fields(year: int, month: int, day: int, hour: int, minute: int)

  /** `_strptime`'s defaults for fields the format does not mention. */
  const DefaultFields := Fields(1900, 1, 1, 0, 0)

  /** A way for one directive to match: how many characters it takes and the value it reads. */
  datatype Cand = Cand(len: nat, value: int)

  predicate InRange(c: char, lo: char, hi: char) {
    lo <= c <= hi
  }

  function Opt(b: bool, c: Cand): seq<Cand> {
    if b then [c] else []
  }

  /** `\s+` backtracks from the longest run down to one character. */
  function Shorter(n: nat): (r: seq<Cand>)
    ensures |r| == n
    ensures forall i :: 0 <= i < n ==> r[i] == Cand(n - i, 0)
  {
    if n == 0 then [] else [Cand(n, 0)] + Shorter(n - 1)
  }

  /** The ways the directive can match at the start of `s`, in the order the regex engine tries them. */
  function Candidates(d: Directive, s: string): (r: seq<Cand>)
    ensures forall i :: 0 <= i < |r| ==> 1 <= r[i].len <= |s|
  {
    match d
    case Lit(c) => Opt(|s| >= 1 && s[0] == c, Cand(1, 0))
    case Spaces => Shorter(SpaceRun(s))
    case Year => Opt(DigitsAt(s, 0, 4), Cand(4, if DigitsAt(s, 0, 4) then DecValue(s[..4]) else 0))
    case Month => MonthCands(s)
    case Day => DayCands(s)
    case Hour => HourCands(s)
    case Minute => MinuteCands(s)
  }

  function MonthCands(s: string): (r: seq<Cand>)
    ensures forall i :: 0 <= i < |r| ==> 1 <= r[i].len <= |s|
  {
    (if |s| >= 2 && s[0] == '1' && InRange(s[1], '0', '2') then [Cand(2, 10 + DigitVal(s[1]))] else [])
    + (if |s| >= 2 && s[0] == '0' && InRange(s[1], '1', '9') then [Cand(2, DigitVal(s[1]))] else [])
    + (if |s| >= 1 && InRange(s[0], '1', '9') then [Cand(1, DigitVal(s[0]))] else [])
  }

  function DayCands(s: string): (r: seq<Cand>)
    ensures forall i :: 0 <= i < |r| ==> 1 <= r[i].len <= |s|
  {
    (if |s| >= 2 && s[0] == '3' && InRange(s[1], '0', '1') then [Cand(2, 30 + DigitVal(s[1]))] else [])
    + (if |s| >= 2 && InRange(s[0], '1', '2') && IsDigit(s[1]) then [Cand(2, DigitVal(s[0]) * 10 + DigitVal(s[1]))] else [])
    + (if |s| >= 2 && s[0] == '0' && InRange(s[1], '1', '9') then [Cand(2, DigitVal(s[1]))] else [])
    + (if |s| >= 1 && InRange(s[0], '1', '9') then [Cand(1, DigitVal(s[0]))] else [])
    + (if |s| >= 2 && s[0] == ' ' && InRange(s[1], '1', '9') then [Cand(2, DigitVal(s[1]))] else [])
  }

  function HourCands(s: string): (r: seq<Cand>)
    ensures forall i :: 0 <= i < |r| ==> 1 <= r[i].len <= |s|
  {
    (if |s| >= 2 && s[0] == '2' && InRange(s[1], '0', '3') then [Cand(2, 20 + DigitVal(s[1]))] else [])
    + (if |s| >= 2 && InRange(s[0], '0', '1') && IsDigit(s[1]) then [Cand(2, DigitVal(s[0]) * 10 + DigitVal(s[1]))] else [])
    + (if |s| >= 1 && IsDigit(s[0]) then [Cand(1, DigitVal(s[0]))] else [])
  }

  function MinuteCands(s: string): (r: seq<Cand>)
    ensures forall i :: 0 <= i < |r| ==> 1 <= r[i].len <= |s|
  {
    (if |s| >= 2 && InRange(s[0], '0', '5') && IsDigit(s[1]) then [Cand(2, DigitVal(s[0]) * 10 + DigitVal(s[1]))] else [])
    + (if |s| >= 1 && IsDigit(s[0]) then [Cand(1, DigitVal(s[0]))] else [])
  }

  function Store(f: Fields, d: Directive, v: int): Fields {
    match d
    case Year => f.(year := v)
    case Month => f.(month := v)
    case Day => f.(day := v)
    case Hour => f.(hour := v)
    case Minute => f.(minute := v)
    case _ => f
  }

  /** The first match of the compiled format at `pos`, with backtracking: the fields read and where it ended. */
  function MatchFrom(fmt: seq<Directive>, s: string, pos: nat, f: Fields): (r: Option<(Fields, nat)>)
    requires pos <= |s|
    ensures r.Some? ==> pos <= r.value.1 <= |s|
    decreases |fmt|, 1, 0
  {
    if fmt == [] then Some((f, pos))
    else TryEach(fmt, s, pos, f, Candidates(fmt[0], s[pos..]))
  }

  function TryEach(fmt: seq<Directive>, s: string, pos: nat, f: Fields, cands: seq<Cand>): (r: Option<(Fields, nat)>)
    requires fmt != [] && pos <= |s|
    requires forall i :: 0 <= i < |cands| ==> pos + cands[i].len <= |s|
    ensures r.Some? ==> pos <= r.value.1 <= |s|
    decreases |fmt|, 0, |cands|
  {
    if cands == [] then None
    else
      var r := MatchFrom(fmt[1..], s, pos + cands[0].len, Store(f, fmt[0], cands[0].value));
      if r.Some? then r else TryEach(fmt, s, pos, f, cands[1..])
  }

  /**
   * `datetime.strptime(s, fmt)`: the first regex match must reach the end of `s`
   * ("unconverted data remains" otherwise) and the fields must form a real date.
   */
  function Strptime(fmt: seq<Directive>, s: string): (r: Option<DateTime>)
    ensures r.Some? ==> ValidDateTime(r.value) && r.value.second == 0
  {
    match MatchFrom(fmt, s, 0, DefaultFields)
    case None => None
    case Some((f, end)) =>
      var t := DateTime(Date(f.year, f.month, f.day), f.hour, f.minute, 0, 0);
      if end == |s| && ValidDate(t.date) && ValidClock(t.hour, t.minute, 0) then Some(t) else None
  }

  /** The fewest characters a directive can match. */
  function MinLen(fmt: seq<Directive>): nat {
    if fmt == [] then 0 else (if fmt[0] == Year then 4 else 1) + MinLen(fmt[1..])
  }

  /** A match reads at least `MinLen(fmt)` characters and finds every literal of the format. */
  lemma {:induction false} MatchNeeds(fmt: seq<Directive>, s: string, pos: nat, f: Fields, c: char)
    requires pos <= |s|
    requires MatchFrom(fmt, s, pos, f).Some?
    ensures pos + MinLen(fmt) <= |s|
    ensures Lit(c) in fmt ==> c in s[pos..]
    decreases |fmt|, 1, 0
  {
    if fmt != [] {
      CandidateFacts(fmt[0], s[pos..]);
      TryEachNeeds(fmt, s, pos, f, Candidates(fmt[0], s[pos..]), c);
    }
  }

  lemma {:induction false} TryEachNeeds(fmt: seq<Directive>, s: string, pos: nat, f: Fields, cands: seq<Cand>, c: char)
    requires fmt != [] && pos <= |s|
    requires forall i :: 0 <= i < |cands| ==> pos + cands[i].len <= |s|
    requires forall i :: 0 <= i < |cands| ==> WayFits(fmt[0], s[pos..], cands[i])
    requires TryEach(fmt, s, pos, f, cands).Some?
    ensures pos + MinLen(fmt) <= |s|
    ensures Lit(c) in fmt ==> c in s[pos..]
    decreases |fmt|, 0, |cands|
  {
    var c0 := cands[0];
    if MatchFrom(fmt[1..], s, pos + c0.len, Store(f, fmt[0], c0.value)).Some? {
      FirstWayNeeds(fmt, s, pos, f, c0, c);
    } else {
      LaterWays(fmt, s, pos, f, cands);
      TryEachNeeds(fmt, s, pos, f, cands[1..], c);
    }
  }

  /** When the first way fails, the match is the one over the remaining ways, which fit as well. */
  lemma LaterWays(fmt: seq<Directive>, s: string, pos: nat, f: Fields, cands: seq<Cand>)
    requires fmt != [] && pos <= |s| && cands != []
    requires forall i :: 0 <= i < |cands| ==> pos + cands[i].len <= |s|
    requires forall i :: 0 <= i < |cands| ==> WayFits(fmt[0], s[pos..], cands[i])
    requires MatchFrom(fmt[1..], s, pos + cands[0].len, Store(f, fmt[0], cands[0].value)).None?
    ensures forall i :: 0 <= i < |cands[1..]| ==> pos + cands[1..][i].len <= |s|
    ensures forall i :: 0 <= i < |cands[1..]| ==> WayFits(fmt[0], s[pos..], cands[1..][i])
    ensures TryEach(fmt, s, pos, f, cands[1..]) == TryEach(fmt, s, pos, f, cands)
  {
    var later := cands[1..];
    forall i | 0 <= i < |later| ensures pos + later[i].len <= |s| && WayFits(fmt[0], s[pos..], later[i]) {
      assert later[i] == cands[i + 1];
    }
  }

  /** What every way a directive matches satisfies: at least one character, four for `%Y`, the literal itself for a literal. */
  predicate WayFits(d: Directive, t: string, c0: Cand) {
    1 <= c0.len <= |t| && (d == Year ==> c0.len == 4) && (d.Lit? ==> t[0] == d.c)
  }

  lemma {:induction false} FirstWayNeeds(fmt: seq<Directive>, s: string, pos: nat, f: Fields, c0: Cand, c: char)
    requires fmt != [] && pos <= |s| && WayFits(fmt[0], s[pos..], c0)
    requires MatchFrom(fmt[1..], s, pos + c0.len, Store(f, fmt[0], c0.value)).Some?
    ensures pos + MinLen(fmt) <= |s|
    ensures Lit(c) in fmt ==> c in s[pos..]
    decreases |fmt|, 0, 0
  {
    var p1 := pos + c0.len;
    MatchNeeds(fmt[1..], s, p1, Store(f, fmt[0], c0.value), c);
    FirstWayCombine(fmt, s, pos, c0, c);
  }

  /** The needs of the rest of the format, after the first way, give the needs of the whole. */
  lemma FirstWayCombine(fmt: seq<Directive>, s: string, pos: nat, c0: Cand, c: char)
    requires fmt != [] && pos <= |s| && WayFits(fmt[0], s[pos..], c0)
    requires pos + c0.len + MinLen(fmt[1..]) <= |s|
    requires Lit(c) in fmt[1..] ==> c in s[pos + c0.len..]
    ensures pos + MinLen(fmt) <= |s|
    ensures Lit(c) in fmt ==> c in s[pos..]
  {
    var p1 := pos + c0.len;
    assert MinLen(fmt) == (if fmt[0] == Year then 4 else 1) + MinLen(fmt[1..]);
    InCons(fmt, Lit(c));
    if fmt[0] == Lit(c) {
      assert s[pos..][0] == c;
    } else if c in s[p1..] {
      InLaterSuffix(s, pos, p1, c);
    }
  }

  /** Every way a directive matches fits it. */
  lemma CandidateFacts(d: Directive, t: string)
    ensures forall i :: 0 <= i < |Candidates(d, t)| ==> WayFits(d, t, Candidates(d, t)[i])
  {
  }

  lemma InCons<T>(xs: seq<T>, x: T)
    requires xs != []
    ensures x in xs <==> x == xs[0] || x in xs[1..]
  {
    assert xs == [xs[0]] + xs[1..];
  }

  lemma InLaterSuffix<T>(xs: seq<T>, i: int, j: int, x: T)
    requires 0 <= i <= j <= |xs| && x in xs[j..]
    ensures x in xs[i..]
  {
    var k :| 0 <= k < |xs[j..]| && xs[j..][k] == x;
    assert xs[i..][k + j - i] == x;
  }

  /** What a successful `strptime` needs of its text: enough characters and every literal of the format. */
  lemma StrptimeNeeds(fmt: seq<Directive>, s: string, c: char)
    ensures Strptime(fmt, s).Some? ==> MinLen(fmt) <= |s| && (Lit(c) in fmt ==> c in s)
  {
    if Strptime(fmt, s).Some? {
      MatchNeeds(fmt, s, 0, DefaultFields, c);
      assert s[0..] == s;
    }
  }

  const DateFormat: seq<Directive> := [Year, Lit('-'), Month, Lit('-'), Day]            // '%Y-%m-%d'
  const DottedFormat: seq<Directive> := [Day, Lit('.'), Month, Lit('.'), Year]          // '%d.%m.%Y'
  const SlotFormat: seq<Directive> := [Year, Lit('-'), Month, Lit('-'), Day, Spaces, Hour, Lit(':'), Minute]  // '%Y-%m-%d %H:%M'

  // ---- the round trips strptime completes with strftime ----

  /** When the directive's first alternative leads to a match, that match is the result. */
  lemma Step(d0: Directive, rest: seq<Directive>, s: string, pos: nat, f: Fields, c: Cand)
    requires pos <= |s|
    requires Candidates(d0, s[pos..]) != [] && Candidates(d0, s[pos..])[0] == c
    requires pos + c.len <= |s|
    requires MatchFrom(rest, s, pos + c.len, Store(f, d0, c.value)).Some?
    ensures MatchFrom([d0] + rest, s, pos, f) == MatchFrom(rest, s, pos + c.len, Store(f, d0, c.value))
  {
    var cands := Candidates(d0, s[pos..]);
    MatchFromCons(d0, rest, s, pos, f);
    TryFirst(d0, rest, s, pos, f, cands, c);
  }

  lemma MatchFromCons(d0: Directive, rest: seq<Directive>, s: string, pos: nat, f: Fields)
    requires pos <= |s|
    ensures MatchFrom([d0] + rest, s, pos, f) == TryEach([d0] + rest, s, pos, f, Candidates(d0, s[pos..]))
  {
    assert ([d0] + rest)[0] == d0;
  }

  /** When the first way leads to a match, that match is what the backtracking search returns. */
  lemma {:induction false} TryFirst(d0: Directive, rest: seq<Directive>, s: string, pos: nat, f: Fields, cands: seq<Cand>, c: Cand)
    requires pos <= |s| && cands != [] && cands[0] == c && pos + c.len <= |s|
    requires forall i :: 0 <= i < |cands| ==> 1 <= cands[i].len <= |s[pos..]|
    requires MatchFrom(rest, s, pos + c.len, Store(f, d0, c.value)).Some?
    ensures TryEach([d0] + rest, s, pos, f, cands) == MatchFrom(rest, s, pos + c.len, Store(f, d0, c.value))
  {
    var fmt := [d0] + rest;
    ConsParts(d0, rest);
    CandsFit(s, pos, cands);
    TryHead(fmt, s, pos, f, cands);
  }

  lemma ConsParts<T>(x: T, xs: seq<T>)
    ensures ([x] + xs) != [] && ([x] + xs)[0] == x && ([x] + xs)[1..] == xs
  {
  }

  /** Ways that fit the rest of the text at `pos` end inside the text. */
  lemma CandsFit(s: string, pos: nat, cands: seq<Cand>)
    requires pos <= |s|
    requires forall i :: 0 <= i < |cands| ==> 1 <= cands[i].len <= |s[pos..]|
    ensures forall i :: 0 <= i < |cands| ==> pos + cands[i].len <= |s|
  {
  }

  /** When the first candidate leads to a match, that match is the result. */
  lemma TryHead(fmt: seq<Directive>, s: string, pos: nat, f: Fields, cands: seq<Cand>)
    requires fmt != [] && pos <= |s| && cands != []
    requires forall i :: 0 <= i < |cands| ==> pos + cands[i].len <= |s|
    requires MatchFrom(fmt[1..], s, pos + cands[0].len, Store(f, fmt[0], cands[0].value)).Some?
    ensures TryEach(fmt, s, pos, f, cands) == MatchFrom(fmt[1..], s, pos + cands[0].len, Store(f, fmt[0], cands[0].value))
  {
  }

  lemma TwoDigitsAt(s: string, pos: nat, n: int)
    requires 0 <= n < 100 && pos + 2 <= |s| && s[pos..pos + 2] == Pad2(n)
    ensures IsDigit(s[pos]) && IsDigit(s[pos + 1])
    ensures DigitVal(s[pos]) * 10 + DigitVal(s[pos + 1]) == n
  {
    DecValueOfTwo(Pad2(n));
    assert s[pos] == Pad2(n)[0] && s[pos + 1] == Pad2(n)[1];
  }

  lemma MonthAt(s: string, pos: nat, m: int)
    requires 1 <= m <= 12 && pos + 2 <= |s| && s[pos..pos + 2] == Pad2(m)
    ensures Candidates(Month, s[pos..]) != [] && Candidates(Month, s[pos..])[0] == Cand(2, m)
  {
    TwoDigitsAt(s, pos, m);
    var t := s[pos..];
    assert t[0] == s[pos] && t[1] == s[pos + 1];
  }

  lemma DayAt(s: string, pos: nat, d: int)
    requires 1 <= d <= 31 && pos + 2 <= |s| && s[pos..pos + 2] == Pad2(d)
    ensures Candidates(Day, s[pos..]) != [] && Candidates(Day, s[pos..])[0] == Cand(2, d)
  {
    TwoDigitsAt(s, pos, d);
    var t := s[pos..];
    assert t[0] == s[pos] && t[1] == s[pos + 1];
  }

  lemma HourAt(s: string, pos: nat, h: int)
    requires 0 <= h < 24 && pos + 2 <= |s| && s[pos..pos + 2] == Pad2(h)
    ensures Candidates(Hour, s[pos..]) != [] && Candidates(Hour, s[pos..])[0] == Cand(2, h)
  {
    TwoDigitsAt(s, pos, h);
    var t := s[pos..];
    assert t[0] == s[pos] && t[1] == s[pos + 1];
  }

  lemma MinuteAt(s: string, pos: nat, m: int)
    requires 0 <= m < 60 && pos + 2 <= |s| && s[pos..pos + 2] == Pad2(m)
    ensures Candidates(Minute, s[pos..]) != [] && Candidates(Minute, s[pos..])[0] == Cand(2, m)
  {
    TwoDigitsAt(s, pos, m);
    var t := s[pos..];
    assert t[0] == s[pos] && t[1] == s[pos + 1];
  }

  lemma YearAt(s: string, y: int)
    requires 1 <= y <= 9999 && |s| >= 4 && s[..4] == Pad4(y)
    ensures Candidates(Year, s[0..]) == [Cand(4, y)]
  {
    assert s[0..] == s;
    assert DigitsAt(s, 0, 4);
  }

  lemma LitAt(s: string, pos: nat, c: char)
    requires pos < |s| && s[pos] == c
    ensures Candidates(Lit(c), s[pos..]) == [Cand(1, 0)]
  {
  }

  lemma IsoDatePieces(s: string, d: Date)
    requires ValidDate(d) && |s| >= 10 && s[..10] == IsoDate(d)
    ensures s[..4] == Pad4(d.year) && s[4] == '-' && s[5..7] == Pad2(d.month) && s[7] == '-' && s[8..10] == Pad2(d.day)
  {
    var iso := IsoDate(d);
    assert iso[..4] == Pad4(d.year) && iso[5..7] == Pad2(d.month) && iso[8..10] == Pad2(d.day);
    assert s[..4] == iso[..4] && s[5..7] == iso[5..7] && s[8..10] == iso[8..10];
    assert s[4] == iso[4] && s[7] == iso[7];
  }

  /** `-DD` at index 7 of `s`, then `rest`. */
  lemma MatchDayPart(s: string, dd: int, rest: seq<Directive>, f2: Fields)
    requires 1 <= dd <= 31 && |s| >= 10 && s[7] == '-' && s[8..10] == Pad2(dd)
    requires MatchFrom(rest, s, 10, f2.(day := dd)).Some?
    ensures MatchFrom([Lit('-'), Day] + rest, s, 7, f2) == MatchFrom(rest, s, 10, f2.(day := dd))
  {
    DayAt(s, 8, dd);
    LitThenField(s, 7, '-', Day, rest, f2, dd);
  }

  /** `-MM-DD` at index 4 of `s`, then `rest`. */
  lemma MatchMonthPart(s: string, m: int, dd: int, rest: seq<Directive>, f1: Fields)
    requires 1 <= m <= 12 && 1 <= dd <= 31 && |s| >= 10
    requires s[4] == '-' && s[5..7] == Pad2(m) && s[7] == '-' && s[8..10] == Pad2(dd)
    requires MatchFrom(rest, s, 10, f1.(month := m, day := dd)).Some?
    ensures MatchFrom([Lit('-'), Month, Lit('-'), Day] + rest, s, 4, f1) == MatchFrom(rest, s, 10, f1.(month := m, day := dd))
  {
    var f2 := f1.(month := m);
    assert f2.(day := dd) == f1.(month := m, day := dd);
    MatchDayPart(s, dd, rest, f2);
    assert [Lit('-'), Month, Lit('-'), Day] + rest == [Lit('-'), Month] + ([Lit('-'), Day] + rest);
    MonthAt(s, 5, m);
    LitThenField(s, 4, '-', Month, [Lit('-'), Day] + rest, f1, m);
  }

  /** A literal and then a two-character field, followed by `tail`. */
  lemma LitThenField(s: string, pos: nat, c: char, d0: Directive, tail: seq<Directive>, f: Fields, v: int)
    requires pos + 3 <= |s| && s[pos] == c
    requires Candidates(d0, s[pos + 1..]) != [] && Candidates(d0, s[pos + 1..])[0] == Cand(2, v)
    requires MatchFrom(tail, s, pos + 3, Store(f, d0, v)).Some?
    ensures MatchFrom([Lit(c), d0] + tail, s, pos, f) == MatchFrom(tail, s, pos + 3, Store(f, d0, v))
  {
    assert [Lit(c), d0] + tail == [Lit(c)] + ([d0] + tail);
    Step(d0, tail, s, pos + 1, f, Cand(2, v));
    LitStep(c, [d0] + tail, s, pos, f);
  }

  /** A literal at `pos` is consumed and the match goes on one character later. */
  lemma LitStep(c: char, rest: seq<Directive>, s: string, pos: nat, f: Fields)
    requires pos < |s| && s[pos] == c
    requires MatchFrom(rest, s, pos + 1, f).Some?
    ensures MatchFrom([Lit(c)] + rest, s, pos, f) == MatchFrom(rest, s, pos + 1, f)
  {
    LitAt(s, pos, c);
    assert Store(f, Lit(c), 0) == f;
    Step(Lit(c), rest, s, pos, f, Cand(1, 0));
  }

  /** The date part `YYYY-MM-DD` at the start of `s` is read back by the first regex path. */
  lemma MatchIsoDatePart(s: string, d: Date, rest: seq<Directive>, f: Fields)
    requires ValidDate(d) && |s| >= 10 && s[..10] == IsoDate(d)
    requires MatchFrom(rest, s, 10, f.(year := d.year, month := d.month, day := d.day)).Some?
    ensures MatchFrom([Year, Lit('-'), Month, Lit('-'), Day] + rest, s, 0, f)
         == MatchFrom(rest, s, 10, f.(year := d.year, month := d.month, day := d.day))
  {
    var f1 := f.(year := d.year);
    assert f1.(month := d.month, day := d.day) == f.(year := d.year, month := d.month, day := d.day);
    IsoDatePieces(s, d);
    MatchMonthPart(s, d.month, d.day, rest, f1);
    assert [Year, Lit('-'), Month, Lit('-'), Day] + rest == [Year] + ([Lit('-'), Month, Lit('-'), Day] + rest);
    YearAt(s, d.year);
    Step(Year, [Lit('-'), Month, Lit('-'), Day] + rest, s, 0, f, Cand(4, d.year));
  }

  /** `strptime(d.strftime('%Y-%m-%d'), '%Y-%m-%d')` gives back midnight of `d`. */
  lemma StrptimeIsoDate(d: Date)
    requires ValidDate(d)
    ensures Strptime(DateFormat, IsoDate(d)) == Some(DateTime(d, 0, 0, 0, 0))
  {
    var s := IsoDate(d);
    var f := DefaultFields.(year := d.year, month := d.month, day := d.day);
    assert MatchFrom([], s, 10, f) == Some((f, 10));
    assert DateFormat == [Year, Lit('-'), Month, Lit('-'), Day] + [];
    MatchIsoDatePart(s, d, [], DefaultFields);
  }

  /** `strptime(t.strftime('%Y-%m-%d %H:%M'), '%Y-%m-%d %H:%M')` gives back `t` to the minute. */
  lemma StrptimeSlotText(t: DateTime)
    requires ValidDateTime(t)
    ensures Strptime(SlotFormat, SlotText(t)) == Some(TruncateToMinute(t))
  {
    var s := SlotText(t);
    var d := t.date;
    var rest: seq<Directive> := [Spaces, Hour, Lit(':'), Minute];
    assert SlotFormat == [Year, Lit('-'), Month, Lit('-'), Day] + rest;
    var f0 := DefaultFields.(year := d.year, month := d.month, day := d.day);
    SlotTextPieces(t);
    MatchClockPart(s, t.hour, t.minute, f0);
    MatchIsoDatePart(s, d, rest, DefaultFields);
  }

  lemma SlotTextPieces(t: DateTime)
    requires ValidDateTime(t)
    ensures var s := SlotText(t);
      s[..10] == IsoDate(t.date) && s[10] == ' ' && s[11..13] == Pad2(t.hour) && s[13] == ':' && s[14..16] == Pad2(t.minute)
  {
    var s := SlotText(t);
    assert s == IsoDate(t.date) + " " + Pad2(t.hour) + ":" + Pad2(t.minute);
  }

  /** ` HH:MM` at index 10 of a 16-character `s` is read by `\s+%H:%M`, to the end. */
  lemma MatchClockPart(s: string, h: int, m: int, f0: Fields)
    requires 0 <= h < 24 && 0 <= m < 60 && |s| == 16
    requires s[10] == ' ' && s[11..13] == Pad2(h) && s[13] == ':' && s[14..16] == Pad2(m)
    ensures MatchFrom([Spaces, Hour, Lit(':'), Minute], s, 10, f0) == Some((f0.(hour := h, minute := m), 16))
  {
    var f1 := f0.(hour := h);
    var r1: seq<Directive> := [Hour, Lit(':'), Minute];
    var r2: seq<Directive> := [Lit(':'), Minute];
    assert [Spaces, Hour, Lit(':'), Minute] == [Spaces] + r1 && r1 == [Hour] + r2 && r2 == [Lit(':'), Minute] + [];
    TwoDigitsAt(s, 11, h);
    // \s+ sees a run of exactly one space
    assert SpaceRun(s[10..]) == 1 by {
      assert s[10..][0] == ' ';
      assert s[10..][1..] == s[11..];
      assert SpaceRun(s[11..]) == 0;
    }
    assert Candidates(Spaces, s[10..]) == [Cand(1, 0)];
    assert MatchFrom([], s, 16, f1.(minute := m)) == Some((f1.(minute := m), 16));
    MinuteAt(s, 14, m);
    LitThenField(s, 13, ':', Minute, [], f1, m);
    HourAt(s, 11, h);
    Step(Hour, r2, s, 11, f0, Cand(2, h));
    Step(Spaces, r1, s, 10, f0, Cand(1, 0));
  }
}
