/**
 * Per-day coverage of a doctor's working hours by the tracking rules
 * (web_app.py): `_coverage_for_day` gathers the merged intervals of the rules
 * that apply to one calendar day, and `_classify_coverage` grades how much of
 * the day's working intervals they cover.
 */
module WebCoverage {
  import opened Options
  import opened Calendar
  import opened Sequences
  import opened Sorting
  import opened WebIntervals
  import opened WebRules

  /** `WEEKDAY_MAP`: weekday number (Monday is 0) to its Russian name. */
  const WeekdayMap: map<nat, string> := map[
    0 := "понедельник", 1 := "вторник", 2 := "среда", 3 := "четверг",
    4 := "пятница", 5 := "суббота", 6 := "воскресенье"]

  /** `WEEKDAY_MAP[k]`. */
  function WeekdayName(k: nat): string
    requires k < 7
  {
    WeekdayKnown(k);
    WeekdayMap[k]
  }

  const Today := "сегодня"
  const Tomorrow := "завтра"

  // ---------------- _coverage_for_day ----------------

  /**
   * The prefixes a rule may carry to apply to `d` when the clock says `today`:
   * the ISO date, the weekday name, and the relative labels on the days they
   * name. Computing `today + 1 day` raises OverflowError on the last
   * representable date, so there is no answer then.
   */
  function DayPrefixes(d: Date, today: Date): (r: Option<set<string>>)
    requires ValidDate(d) && ValidDate(today)
    ensures r.None? <==> today == LastDate
  {
    if today == LastDate then None
    else
      Some(Labels(IsoDate(d), WeekdayName(Weekday(d)), d == today, d == NextDay(today)))
  }

  /** The ISO date, the weekday name, and the relative labels that hold. */
  function Labels(iso: string, name: string, isToday: bool, isTomorrow: bool): set<string> {
    var base := {iso} + {name};
    var withToday := if isToday then base + {Today} else base;
    if isTomorrow then withToday + {Tomorrow} else withToday
  }

  /** The interval a rule gives when its parsed prefix is one of `labels`. */
  function DayBlockFor(labels: set<string>, rule: string): seq<Span> {
    var t := ParseRule(rule);
    if t.Some? && t.value.0 in labels then [(t.value.1, t.value.2)] else []
  }

  function DayBlock(labels: set<string>): string -> seq<Span> {
    (rule: string) => DayBlockFor(labels, rule)
  }

  /** `day_intervals`: in rule order, the intervals of the rules whose prefix is a label of the day. */
  function DayIntervals(rules: seq<string>, labels: set<string>): seq<Span> {
    FlatMap(rules, DayBlock(labels))
  }

  /** `_coverage_for_day(date_obj, rules)`; None where the function raises. */
  function CoverageForDay(d: Date, today: Date, rules: seq<string>): Option<seq<Span>>
    requires ValidDate(d) && ValidDate(today)
  {
    var labels := DayPrefixes(d, today);
    if labels.None? then None else MergeIntervals(DayIntervals(rules, labels.value))
  }

  /** The loop of `_coverage_for_day`: it builds the label set, collects the day's intervals and merges them. */
  method CoverageForDayLoop(d: Date, today: Date, rules: seq<string>) returns (r: Option<seq<Span>>)
    requires ValidDate(d) && ValidDate(today)
    ensures r == CoverageForDay(d, today, rules)
  {
    var labels := BuildPrefixes(d, today);
    if labels.None? {
      return None;
    }
    var dayIntervals := CollectDayIntervals(rules, labels.value);
    r := MergeIntervalsLoop(dayIntervals);
  }

  /** `date_prefixes`, built with one `add` at a time; None where `today + 1 day` raises. */
  method BuildPrefixes(d: Date, today: Date) returns (r: Option<set<string>>)
    requires ValidDate(d) && ValidDate(today)
    ensures r == DayPrefixes(d, today)
  {
    var iso := IsoDate(d);
    var name := WeekdayName(Weekday(d));
    var labels := {iso};
    labels := labels + {name};
    var isToday := d == today;
    if isToday {
      labels := labels + {Today};
    }
    if today == LastDate {
      return None;
    }
    var tomorrow := NextDay(today);
    var isTomorrow := d == tomorrow;
    if isTomorrow {
      labels := labels + {Tomorrow};
    }
    assert labels == Labels(iso, name, isToday, isTomorrow);
    return Some(labels);
  }

  /** `day_intervals`, appended to rule by rule. */
  method CollectDayIntervals(rules: seq<string>, labels: set<string>) returns (dayIntervals: seq<Span>)
    ensures dayIntervals == DayIntervals(rules, labels)
  {
    dayIntervals := [];
    var i := 0;
    while i < |rules|
      invariant 0 <= i <= |rules|
      invariant dayIntervals == DayIntervals(rules[..i], labels)
    {
      PrefixSnoc(rules, i);
      FlatMapSnoc(rules[..i], rules[i], DayBlock(labels));
      var parsed := ParseRule(rules[i]);
      if parsed.Some? && parsed.value.0 in labels {
        dayIntervals := dayIntervals + [(parsed.value.1, parsed.value.2)];
      }
      i := i + 1;
    }
    assert rules[..i] == rules;
  }

  /** The label set of a day: its ISO date and weekday name always, `сегодня` exactly on today, `завтра` exactly on tomorrow. */
  lemma DayPrefixesSpec(d: Date, today: Date, p: string)
    requires ValidDate(d) && ValidDate(today) && today != LastDate
    ensures DayPrefixes(d, today).Some?
    ensures p in DayPrefixes(d, today).value <==>
      p == IsoDate(d) || p == WeekdayName(Weekday(d)) || (p == Today && d == today) || (p == Tomorrow && d == NextDay(today))
  {
  }

  /** No day is both today and tomorrow, so the two relative labels never apply together. */
  lemma TodayNotTomorrow(d: Date, today: Date)
    requires ValidDate(d) && ValidDate(today) && today != LastDate
    ensures !({Today, Tomorrow} <= DayPrefixes(d, today).value)
  {
    NextDayAdvances(today);
    WeekdayNameShape(Weekday(d));
    IsoNotRelative(d);
    DayPrefixesSpec(d, today, Today);
    DayPrefixesSpec(d, today, Tomorrow);
  }

  /** Every weekday number has a name. */
  lemma WeekdayKnown(k: nat)
    requires k < 7
    ensures k in WeekdayMap
  {
  }

  /** No weekday name is ten characters long or a relative label. */
  lemma WeekdayNameShape(k: nat)
    requires k < 7
    ensures |WeekdayName(k)| != 10 && WeekdayName(k) != Today && WeekdayName(k) != Tomorrow
  {
  }

  /** An ISO date text is neither relative label. */
  lemma IsoNotRelative(d: Date)
    requires ValidDate(d)
    ensures IsoDate(d) != Today && IsoDate(d) != Tomorrow
  {
    assert |IsoDate(d)| == 10;
  }

  /** The rule `rule` applies to the day with the labels `labels` and gives `sp`. */
  predicate AppliesWith(labels: set<string>, rule: string, sp: Span) {
    var t := ParseRule(rule);
    t.Some? && t.value.0 in labels && sp == (t.value.1, t.value.2)
  }

  /** An interval is collected exactly when some rule with a label of the day gives it. */
  lemma DayIntervalsMember(rules: seq<string>, labels: set<string>, sp: Span)
    ensures sp in DayIntervals(rules, labels) <==> exists i :: 0 <= i < |rules| && AppliesWith(labels, rules[i], sp)
  {
    var f := DayBlock(labels);
    FlatMapMember(rules, f, sp);
    if sp in DayIntervals(rules, labels) {
      var i :| 0 <= i < |rules| && sp in f(rules[i]);
      BlockApplies(labels, rules[i], sp);
    } else {
      forall i | 0 <= i < |rules| ensures !AppliesWith(labels, rules[i], sp) {
        BlockApplies(labels, rules[i], sp);
      }
    }
  }

  lemma BlockApplies(labels: set<string>, rule: string, sp: Span)
    ensures sp in DayBlock(labels)(rule) <==> AppliesWith(labels, rule, sp)
  {
  }

  /** A rule dated with the ISO text of another day gives nothing for this day. */
  lemma OtherDateIgnored(d: Date, other: Date, today: Date, rule: string)
    requires ValidDate(d) && ValidDate(other) && ValidDate(today) && today != LastDate && other != d
    requires ParseRule(rule).Some? && ParseRule(rule).value.0 == IsoDate(other)
    ensures DayBlockFor(DayPrefixes(d, today).value, rule) == []
  {
    var p := IsoDate(other);
    DayPrefixesSpec(d, today, p);
    IsoDateRoundTrip(d);
    IsoDateRoundTrip(other);
    WeekdayNameShape(Weekday(d));
    IsoNotRelative(other);
    assert |p| == 10;
    UnlabelledIgnored(DayPrefixes(d, today).value, rule);
  }

  /** A rule whose prefix is not a label of the day gives nothing for it. */
  lemma UnlabelledIgnored(labels: set<string>, rule: string)
    requires ParseRule(rule).Some? && ParseRule(rule).value.0 !in labels
    ensures DayBlockFor(labels, rule) == []
  {
  }

  /** A rule dated with this day's ISO text gives its interval for this day, whatever the clock says. */
  lemma OwnDateApplies(d: Date, today: Date, rule: string)
    requires ValidDate(d) && ValidDate(today) && today != LastDate
    requires ParseRule(rule).Some? && ParseRule(rule).value.0 == IsoDate(d)
    ensures DayBlockFor(DayPrefixes(d, today).value, rule) == [(ParseRule(rule).value.1, ParseRule(rule).value.2)]
  {
  }

  /**
   * The day's coverage is the merge of the day's intervals: sorted, strictly
   * apart, and covering a minute exactly when one of the applying rules does.
   */
  lemma CoverageForDaySpec(d: Date, today: Date, rules: seq<string>, p: int)
    requires ValidDate(d) && ValidDate(today) && today != LastDate
    requires AllSpansConvert(DayIntervals(rules, DayPrefixes(d, today).value))
    ensures CoverageForDay(d, today, rules).Some?
    ensures var spans := DayIntervals(rules, DayPrefixes(d, today).value);
      spans != [] ==>
        var nums := ToMinuteSpans(spans).value;
        var merged := Merge(Sort(nums, LexLe));
        && CoverageForDay(d, today, rules).value == ToSpans(merged)
        && Separated(merged)
        && (Covers(merged, p) <==> Covers(nums, p))
  {
    var spans := DayIntervals(rules, DayPrefixes(d, today).value);
    ToMinuteSpansFlat(spans);
    if spans != [] {
      MergeIntervalsSpec(spans, p);
    }
  }

  // ---------------- _classify_coverage ----------------

  /** The three grades `'none'`, `'partial'` and `'full'`. */
  datatype Coverage = NoCoverage | Partial | Full

  /** `total`: the summed length of the working intervals. */
  function Total(wi: seq<Minutes>): int {
    if wi == [] then 0 else Total(wi[..|wi| - 1]) + (wi[|wi| - 1].1 - wi[|wi| - 1].0)
  }

  /** The length of the intersection of two intervals, nothing when they do not meet. */
  function Overlap(w: Minutes, r: Minutes): (n: int)
    ensures 0 <= n
    ensures n <= w.1 - w.0 || n == 0
    ensures n <= r.1 - r.0 || n == 0
  {
    var s := if w.0 < r.0 then r.0 else w.0;
    var e := if w.1 < r.1 then w.1 else r.1;
    if s < e then e - s else 0
  }

  /** What the rule intervals cover of one working interval, summed over the rules. */
  function CoveredBy(w: Minutes, ri: seq<Minutes>): int {
    if ri == [] then 0 else CoveredBy(w, ri[..|ri| - 1]) + Overlap(w, ri[|ri| - 1])
  }

  /** `covered`: what the rule intervals cover, summed over the working intervals. */
  function Covered(wi: seq<Minutes>, ri: seq<Minutes>): int {
    if wi == [] then 0 else Covered(wi[..|wi| - 1], ri) + CoveredBy(wi[|wi| - 1], ri)
  }

  /**
   * The grade of a covered share: none when nothing is covered, full when
   * `covered / total >= 0.999`, partial otherwise. A negative total makes the
   * ratio negative, hence partial.
   */
  function Grade(total: int, covered: int): Coverage {
    if covered == 0 then NoCoverage
    else if total > 0 && 1000 * covered >= 999 * total then Full
    else Partial
  }

  /**
   * `_classify_coverage(work_intervals, rule_intervals)`; None where a time does
   * not convert and Python raises. The rule intervals are converted only once
   * the total is known to be non-zero.
   */
  function ClassifyCoverage(work: seq<Span>, rule: seq<Span>): Option<Coverage> {
    if work == [] then Some(NoCoverage)
    else
      var wi := ToMinuteSpans(work);
      if wi.None? then None
      else if Total(wi.value) == 0 then Some(NoCoverage)
      else
        var ri := ToMinuteSpans(rule);
        if ri.None? then None else Some(Grade(Total(wi.value), Covered(wi.value, ri.value)))
  }

  /** A prefix of convertible intervals converts. */
  lemma {:induction false} ToMinuteSpansPrefix(xs: seq<Span>, k: int)
    requires 0 <= k <= |xs| && ToMinuteSpans(xs).Some?
    ensures ToMinuteSpans(xs[..k]).Some?
    decreases |xs|
  {
    if k < |xs| {
      var init := xs[..|xs| - 1];
      assert init[..k] == xs[..k];
      ToMinuteSpansPrefix(init, k);
    } else {
      assert xs[..k] == xs;
    }
  }

  /** The loops of `_classify_coverage`: the running total, then the sweep over all pairs. */
  method ClassifyCoverageLoop(work: seq<Span>, rule: seq<Span>) returns (r: Option<Coverage>)
    ensures r == ClassifyCoverage(work, rule)
  {
    if work == [] {
      return Some(NoCoverage);
    }
    var total := SumLengths(work);
    if total.None? {
      return None;
    }
    if total.value == 0 {
      return Some(NoCoverage);
    }
    var wi := ToMinuteSpans(work).value;
    var ri := ToMinuteSpans(rule);
    if ri.None? {
      return None;
    }
    var covered := SweepCovered(wi, ri.value);
    if covered == 0 {
      return Some(NoCoverage);
    }
    if total.value > 0 && 1000 * covered >= 999 * total.value {
      return Some(Full);
    }
    return Some(Partial);
  }

  /** The first loop: `total += to_minutes(e) - to_minutes(s)`; None where a time does not convert. */
  method SumLengths(work: seq<Span>) returns (total: Option<int>)
    ensures total.Some? <==> ToMinuteSpans(work).Some?
    ensures total.Some? ==> total.value == Total(ToMinuteSpans(work).value)
  {
    var sum := 0;
    var i := 0;
    while i < |work|
      invariant 0 <= i <= |work|
      invariant ToMinuteSpans(work[..i]).Some?
      invariant sum == Total(ToMinuteSpans(work[..i]).value)
    {
      var e := ToMinutes(work[i].1);
      var s := ToMinutes(work[i].0);
      if e.None? || s.None? {
        PrefixFails(work, i);
        return None;
      }
      ToMinuteSpansStep(work, i);
      sum := sum + (e.value - s.value);
      i := i + 1;
    }
    assert work[..i] == work;
    return Some(sum);
  }

  /** The conversion of one more interval extends the conversion of the prefix. */
  lemma ToMinuteSpansStep(work: seq<Span>, i: int)
    requires 0 <= i < |work| && ToMinuteSpans(work[..i]).Some? && SpanConverts(work[i])
    ensures ToMinuteSpans(work[..i + 1]).Some?
    ensures Total(ToMinuteSpans(work[..i + 1]).value) ==
      Total(ToMinuteSpans(work[..i]).value) + (ToMinutes(work[i].1).value - ToMinutes(work[i].0).value)
  {
    var xs := ToMinuteSpans(work[..i]).value;
    var x := (ToMinutes(work[i].0).value, ToMinutes(work[i].1).value);
    ToMinuteSpansSnoc(work, i);
    TotalSnoc(xs, x);
  }

  lemma ToMinuteSpansSnoc(work: seq<Span>, i: int)
    requires 0 <= i < |work| && ToMinuteSpans(work[..i]).Some? && SpanConverts(work[i])
    ensures ToMinuteSpans(work[..i + 1])
         == Some(ToMinuteSpans(work[..i]).value + [(ToMinutes(work[i].0).value, ToMinutes(work[i].1).value)])
  {
    assert work[..i + 1][..i] == work[..i];
  }

  lemma TotalSnoc(xs: seq<Minutes>, x: Minutes)
    ensures Total(xs + [x]) == Total(xs) + (x.1 - x.0)
  {
    assert (xs + [x])[..|xs|] == xs;
  }

  /** An interval that does not convert makes the whole conversion fail. */
  lemma PrefixFails(work: seq<Span>, i: int)
    requires 0 <= i < |work| && !SpanConverts(work[i])
    ensures ToMinuteSpans(work).None?
  {
    ToMinuteSpansFlat(work);
  }

  /** The nested sweep: for every working interval and every rule interval, add the overlap. */
  method SweepCovered(wi: seq<Minutes>, ri: seq<Minutes>) returns (covered: int)
    ensures covered == Covered(wi, ri)
  {
    covered := 0;
    var k := 0;
    while k < |wi|
      invariant 0 <= k <= |wi|
      invariant covered == Covered(wi[..k], ri)
    {
      assert wi[..k + 1][..k] == wi[..k];
      var j := 0;
      while j < |ri|
        invariant 0 <= j <= |ri|
        invariant covered == Covered(wi[..k], ri) + CoveredBy(wi[k], ri[..j])
      {
        assert ri[..j + 1][..j] == ri[..j];
        var interS := if wi[k].0 < ri[j].0 then ri[j].0 else wi[k].0;
        var interE := if wi[k].1 < ri[j].1 then wi[k].1 else ri[j].1;
        if interS < interE {
          covered := covered + (interE - interS);
        }
        j := j + 1;
      }
      assert ri[..j] == ri;
      k := k + 1;
    }
    assert wi[..k] == wi;
  }

  /** Rule intervals never cover a negative amount. */
  lemma {:induction false} CoveredNonNegative(wi: seq<Minutes>, ri: seq<Minutes>)
    ensures 0 <= Covered(wi, ri)
  {
    if wi != [] {
      CoveredNonNegative(wi[..|wi| - 1], ri);
      CoveredByNonNegative(wi[|wi| - 1], ri);
    }
  }

  lemma {:induction false} CoveredByNonNegative(w: Minutes, ri: seq<Minutes>)
    ensures 0 <= CoveredBy(w, ri)
  {
    if ri != [] {
      CoveredByNonNegative(w, ri[..|ri| - 1]);
    }
  }

  /** Without rule intervals nothing is covered. */
  lemma {:induction false} CoveredByNothing(wi: seq<Minutes>)
    ensures Covered(wi, []) == 0
  {
    if wi != [] {
      CoveredByNothing(wi[..|wi| - 1]);
    }
  }

  /** With no rules for the day, convertible working hours are graded `'none'`. */
  lemma NoRulesNoCoverage(work: seq<Span>)
    requires AllSpansConvert(work)
    ensures ClassifyCoverage(work, []) == Some(NoCoverage)
  {
    ToMinuteSpansFlat(work);
    if work != [] {
      CoveredByNothing(ToMinuteSpans(work).value);
      assert ToMinuteSpans([]) == Some([]);
    }
  }

  /** Intervals that start no later than they end. */
  predicate Ordered(xs: seq<Minutes>) {
    forall i :: 0 <= i < |xs| ==> xs[i].0 <= xs[i].1
  }

  /**
   * Against ordered rule intervals strictly apart (as `_merge_intervals`
   * produces them), what one working interval has covered is at most its part
   * up to the last rule's end.
   */
  lemma {:induction false} CoveredByAtMost(w: Minutes, ri: seq<Minutes>)
    requires ri != [] && Ordered(ri) && Separated(ri)
    ensures CoveredBy(w, ri) <= Overlap(w, (w.0, ri[|ri| - 1].1))
  {
    var n := |ri| - 1;
    var init := ri[..n];
    if init != [] {
      assert Ordered(init) && Separated(init) by {
        assert forall i :: 0 <= i < |init| ==> init[i] == ri[i];
      }
      CoveredByAtMost(w, init);
      assert init[|init| - 1].1 < ri[n].0;
    }
  }

  /** Against ordered rule intervals strictly apart, each ordered working interval is covered at most its length. */
  lemma CoveredByAtMostLength(w: Minutes, ri: seq<Minutes>)
    requires w.0 <= w.1 && Ordered(ri) && Separated(ri)
    ensures CoveredBy(w, ri) <= w.1 - w.0
  {
    if ri != [] {
      CoveredByAtMost(w, ri);
    }
  }

  /**
   * Against merged rule intervals the covered amount never exceeds the total,
   * so the ratio that grades the day is at most one.
   */
  lemma {:induction false} CoveredAtMostTotal(wi: seq<Minutes>, ri: seq<Minutes>)
    requires Ordered(wi) && Ordered(ri) && Separated(ri)
    ensures 0 <= Covered(wi, ri) <= Total(wi)
  {
    CoveredNonNegative(wi, ri);
    if wi != [] {
      var init := wi[..|wi| - 1];
      assert Ordered(init) by {
        assert forall i :: 0 <= i < |init| ==> init[i] == wi[i];
      }
      CoveredAtMostTotal(init, ri);
      CoveredByAtMostLength(wi[|wi| - 1], ri);
    }
  }

  /** One rule interval around the whole of an ordered working interval covers all of it. */
  lemma {:induction false} CoveredBySpanning(wi: seq<Minutes>, r: Minutes)
    requires forall i :: 0 <= i < |wi| ==> r.0 <= wi[i].0 <= wi[i].1 <= r.1
    ensures Covered(wi, [r]) == Total(wi)
  {
    if wi != [] {
      var init := wi[..|wi| - 1];
      assert forall i :: 0 <= i < |init| ==> init[i] == wi[i];
      CoveredBySpanning(init, r);
      var w := wi[|wi| - 1];
      assert [r][..0] == [];
      assert CoveredBy(w, [r]) == Overlap(w, r);
    }
  }

  /** A single rule interval spanning every working interval grades a day with working time as `'full'`. */
  lemma SpanningRuleFull(work: seq<Span>, r: Span)
    requires work != [] && ToMinuteSpans(work).Some? && SpanConverts(r)
    requires var rm := (ToMinutes(r.0).value, ToMinutes(r.1).value);
      forall i :: 0 <= i < |work| ==> rm.0 <= ToMinuteSpans(work).value[i].0 <= ToMinuteSpans(work).value[i].1 <= rm.1
    requires Total(ToMinuteSpans(work).value) != 0
    ensures ClassifyCoverage(work, [r]) == Some(Full)
  {
    var wi := ToMinuteSpans(work).value;
    var rm := (ToMinutes(r.0).value, ToMinutes(r.1).value);
    OneSpanMinutes(r);
    CoveredBySpanning(wi, rm);
    assert Ordered(wi);
    CoveredAtMostTotal(wi, []);
  }
}
