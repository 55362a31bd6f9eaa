/**
 * Tracking rules as the bot stores them (bot.py): a stored entry is either a
 * structured rule or a legacy text such as `завтра 11:20-19:00`. This module
 * models `_parse_string_rule` and `_normalize_rules`, which turn the stored list
 * into the structured rules the matcher reads, `_freeze_rules_if_needed`, which
 * rewrites `сегодня` / `завтра` and other non-ISO dates into ISO dates once, and
 * the rule-append dedup of the rule-editing dialogue.
 */
module StoredRules {
  import opened Options
  import opened PyText
  import opened Calendar
  import opened Sorting
  import Sequences
  import RulesParser
  import RuleMatch

  type Rule = RulesParser.Rule

  /** One element of a tracking record's rule list. */
  datatype StoredRule = RuleDict(rule: Rule) | RuleText(text: string)

  // ---------------- _parse_string_rule ----------------

  predicate ClockSep(c: char) {
    c == ':' || c == '.'
  }

  /**
   * The length of a `\d{1,2}[:.]\d{2}` match starting at `i`. The two-digit hour
   * is tried first; the two readings exclude each other (the second character is
   * a digit in one and a separator in the other), so backtracking never revisits
   * this choice.
   */
  function ClockAt(s: string, i: nat): (r: Option<nat>)
    ensures r.Some? ==> (r.value == 4 || r.value == 5) && i + r.value <= |s| && IsDigit(s[i])
  {
    if i + 5 <= |s| && IsDigit(s[i]) && IsDigit(s[i + 1]) && ClockSep(s[i + 2]) && IsDigit(s[i + 3]) && IsDigit(s[i + 4]) then Some(5)
    else if i + 4 <= |s| && IsDigit(s[i]) && ClockSep(s[i + 1]) && IsDigit(s[i + 2]) && IsDigit(s[i + 3]) then Some(4)
    else None
  }

  /** Where `\s?` leaves the scan: one whitespace character is taken when there is one. */
  function OptSpace(s: string, j: nat): (k: nat)
    ensures j <= k <= j + 1
  {
    if j < |s| && IsSpace(s[j]) then j + 1 else j
  }

  /** The two clock groups of one match of the range pattern. */
  datatype RangeMatch = RangeMatch(start: nat, end1: nat, start2: nat, end: nat)

  /**
   * A match of `(\d{1,2}[:.]\d{2})\s?-\s?(\d{1,2}[:.]\d{2})` starting exactly at
   * `i`. Taking the optional blank is never undone: without it the next
   * character would have to be the dash (or a digit) while it is whitespace.
   */
  function RangeAt(s: string, i: nat): (r: Option<RangeMatch>)
    ensures r.Some? ==> r.value.start == i && i < r.value.end1 < r.value.start2 < r.value.end <= |s|
    ensures r.Some? ==> ClockAt(s, i) == Some(r.value.end1 - i)
    ensures r.Some? ==> ClockAt(s, r.value.start2) == Some(r.value.end - r.value.start2)
  {
    match ClockAt(s, i)
    case None => None
    case Some(n1) =>
      var j := OptSpace(s, i + n1);
      if j < |s| && s[j] == '-' then
        var k := OptSpace(s, j + 1);
        match ClockAt(s, k)
        case None => None
        case Some(n2) => Some(RangeMatch(i, i + n1, k, k + n2))
      else None
  }

  /** `re.search`: the leftmost position from `i` on where the pattern matches. */
  function SearchRange(s: string, i: nat): (r: Option<RangeMatch>)
    requires i <= |s|
    ensures r.Some? ==> i <= r.value.start && RangeAt(s, r.value.start) == r
    decreases |s| - i
  {
    if i == |s| then None
    else if RangeAt(s, i).Some? then RangeAt(s, i)
    else SearchRange(s, i + 1)
  }

  /** The pattern matches at no position of `[i, k)`. */
  predicate NoMatchIn(s: string, i: nat, k: nat) {
    forall j :: i <= j < k ==> RangeAt(s, j).None?
  }

  /** The match found is the leftmost one; when none is found, the pattern matches nowhere from `i` on. */
  lemma SearchRangeLeftmost(s: string, i: nat)
    requires i <= |s|
    ensures var r := SearchRange(s, i);
      && (r.Some? ==> NoMatchIn(s, i, r.value.start))
      && (r.None? ==> NoMatchIn(s, i, |s|))
  {
    var k := i;
    while k < |s| && RangeAt(s, k).None?
      invariant i <= k <= |s|
      invariant SearchRange(s, i) == SearchRange(s, k) && NoMatchIn(s, i, k)
      decreases |s| - k
    {
      SearchNext(s, k);
      NoMatchSnoc(s, i, k);
      k := k + 1;
    }
    SearchStops(s, k);
  }

  /** The search stops at the end of the text or at a match. */
  lemma SearchStops(s: string, k: nat)
    requires k <= |s| && (k < |s| ==> RangeAt(s, k).Some?)
    ensures SearchRange(s, k) == if k == |s| then None else RangeAt(s, k)
    ensures SearchRange(s, k).Some? ==> SearchRange(s, k).value.start == k
  {
  }

  lemma NoMatchSnoc(s: string, i: nat, k: nat)
    requires i <= k && RangeAt(s, k).None? && NoMatchIn(s, i, k)
    ensures NoMatchIn(s, i, k + 1)
  {
  }

  /** The stored range: both groups with `.` read as `:`, joined by a dash. */
  function RangeText(s: string, m: RangeMatch): string
    requires m.start <= m.end1 <= m.start2 <= m.end <= |s|
  {
    ReplaceChar(s[m.start..m.end1], '.', ':') + "-" + ReplaceChar(s[m.start2..m.end], '.', ':')
  }

  /**
   * The date a legacy prefix names: `strptime` with `%Y-%m-%d` then `%d.%m.%Y`,
   * else `D.M` / `DD.MM` in the current year, else `D месяц` in the current year.
   * A `D.M` text that is no real date gives None without trying the last form.
   */
  function DatePrefix(p: string, year: int): (r: Option<Date>)
    ensures r.Some? ==> ValidDate(r.value)
  {
    if RuleMatch.StrptimeDate(p).Some? then RuleMatch.StrptimeDate(p)
    else match RulesParser.MatchDayDotMonth(p)
      case Some((dd, mm)) => RulesParser.CalendarDate(year, DecValue(mm), DecValue(dd))
      case None =>
        var tokens := SplitWs(p);
        if |tokens| >= 2 && IsDigitStr(tokens[0]) && tokens[1] in RuleMatch.BotMonths then
          RulesParser.CalendarDate(year, RuleMatch.BotMonths[tokens[1]], DecValue(tokens[0]))
        else None
  }

  /** The four rule kinds the matcher knows. */
  predicate KnownKind(kind: string) {
    kind == "weekday" || kind == "relative_date" || kind == "date" || kind == "any"
  }

  /**
   * What a lower-cased legacy prefix means, as `(type, value)`: a weekday name,
   * a relative day word, a date (stored as ISO text), or `any` with an empty value.
   */
  function ClassifyPrefix(p: string, year: int): (r: (string, string))
    ensures KnownKind(r.0)
    ensures r.0 == "weekday" <==> p in RuleMatch.WeekdayIndex
    ensures r.0 == "weekday" || r.0 == "relative_date" ==> r.1 == p
    ensures r.0 == "relative_date" <==> p !in RuleMatch.WeekdayIndex && p in RulesParser.RelativeDays
    ensures r.0 == "date" ==> ParseIsoDate(r.1).Some?
    ensures r.0 == "any" ==> r.1 == []
  {
    if p in RuleMatch.WeekdayIndex then ("weekday", p)
    else if p == "сегодня" || p == "завтра" then ("relative_date", p)
    else match DatePrefix(p, year)
      case Some(d) =>
        IsoDateRoundTrip(d);
        ("date", IsoDate(d))
      case None => ("any", "")
  }

  lemma KnownKindLower(r: Option<Rule>)
    requires r.Some? ==> KnownKind(r.value.kind)
    ensures r.Some? ==> r.value.kind != [] && Lower(r.value.kind) == r.value.kind
  {
    RuleMatch.KindWords();
  }

  /**
   * `_parse_string_rule(raw)`: None for blank text; otherwise the first time
   * range (if any) becomes the rule's one window and the stripped text before it
   * is classified. `year` is the current year.
   */
  function ParseStringRule(raw: string, year: int): (r: Option<Rule>)
    ensures r.Some? <==> Strip(raw) != []
    ensures r.Some? ==> KnownKind(r.value.kind) && |r.value.timeRanges| <= 1
    ensures r.Some? && r.value.kind == "any" ==> r.value.value == []
    ensures r.Some? && r.value.kind == "date" ==> ParseIsoDate(r.value.value).Some?
  {
    var s := Strip(raw);
    if s == [] then None
    else
      var m := SearchRange(s, 0);
      var ranges := if m.Some? then [RangeText(s, m.value)] else [];
      var prefix := if m.Some? then Strip(s[..m.value.start]) else s;
      var c := ClassifyPrefix(Lower(prefix), year);
      Some(RulesParser.Rule(c.0, c.1, ranges))
  }

  /** Past a stretch where the pattern matches nowhere, the search finds the match that follows it. */
  lemma SearchFinds(s: string, i: nat, n: nat)
    requires i <= n < |s| && NoMatchIn(s, i, n) && RangeAt(s, n).Some?
    ensures SearchRange(s, i) == RangeAt(s, n)
  {
    var k := i;
    while k < n
      invariant i <= k <= n
      invariant SearchRange(s, i) == SearchRange(s, k)
    {
      NoMatchAt(s, i, k, n);
      SearchNext(s, k);
      k := k + 1;
    }
    SearchStops(s, n);
  }

  lemma NoMatchAt(s: string, i: nat, k: nat, n: nat)
    requires i <= k < n && NoMatchIn(s, i, n)
    ensures RangeAt(s, k).None?
  {
  }

  /** Where the pattern does not match, the search goes on at the next position. */
  lemma SearchNext(s: string, i: nat)
    requires i < |s| && RangeAt(s, i).None?
    ensures SearchRange(s, i) == SearchRange(s, i + 1)
  {
  }

  lemma StripTrailingBlank(w: string)
    requires w != [] && IsStripped(w)
    ensures Strip(w + " ") == w
  {
    var t := w + " ";
    assert LStrip(t) == t;
    assert t[..|t| - 1] == w;
    assert RStrip(t) == RStrip(w);
  }

  /** A canonical range `HH:MM-HH:MM` ending the text at `n` is one match of the pattern there. */
  lemma RangeAtCanonical(s: string, n: nat)
    requires n + 11 == |s| && RulesParser.IsCanonicalRange(s[n..])
    ensures RangeAt(s, n) == Some(RangeMatch(n, n + 5, n + 6, n + 11))
    ensures RangeText(s, RangeMatch(n, n + 5, n + 6, n + 11)) == s[n..]
  {
    CanonicalAt(s, n);
    var r := s[n..];
    assert s[n..n + 5] == r[..5] && s[n + 6..n + 11] == r[6..];
    CanonicalHalves(r);
  }

  /** The characters of a canonical range at the end of `s`, read in `s`. */
  lemma CanonicalAt(s: string, n: nat)
    requires n + 11 == |s| && RulesParser.IsCanonicalRange(s[n..])
    ensures ClockAt(s, n) == Some(5) && ClockAt(s, n + 6) == Some(5)
    ensures s[n + 5] == '-' && OptSpace(s, n + 5) == n + 5 && OptSpace(s, n + 6) == n + 6
  {
    var r := s[n..];
    assert s[n] == r[0] && s[n + 1] == r[1] && s[n + 2] == r[2] && s[n + 3] == r[3] && s[n + 4] == r[4];
    assert s[n + 5] == r[5];
    assert s[n + 6] == r[6] && s[n + 7] == r[7] && s[n + 8] == r[8] && s[n + 9] == r[9] && s[n + 10] == r[10];
  }

  /** Both clocks of a canonical range are dot-free and the range is them joined by the dash. */
  lemma CanonicalHalves(r: string)
    requires RulesParser.IsCanonicalRange(r)
    ensures ReplaceChar(r[..5], '.', ':') + "-" + ReplaceChar(r[6..], '.', ':') == r
  {
    var a := r[..5];
    var b := r[6..];
    assert '.' !in a && '.' !in b by {
      assert forall k :: 0 <= k < 5 ==> a[k] == r[k] && b[k] == r[k + 6];
    }
    RuleMatch.ReplaceAbsent(a, '.', ':');
    RuleMatch.ReplaceAbsent(b, '.', ':');
    assert r == a + "-" + b;
  }

  /** A lower-case Cyrillic word and a blank hold no digit, so no match starts in them, whatever follows. */
  lemma WordBlankNoMatch(w: string, r: string)
    requires RulesParser.CyrWord(w)
    ensures NoMatchIn(w + " " + r, 0, |w| + 1)
  {
    var s := w + " " + r;
    forall j | 0 <= j < |w| + 1 ensures RangeAt(s, j).None? {
      if j < |w| { assert s[j] == w[j] && IsCyrSmall(w[j]); }
      assert !IsDigit(s[j]);
    }
  }

  /** In `<day word> HH:MM-HH:MM` the search finds the range right after the blank. */
  lemma SearchDayRange(w: string, r: string)
    requires RulesParser.CyrWord(w) && RulesParser.IsCanonicalRange(r)
    ensures var s := w + " " + r; var n := |w| + 1;
      SearchRange(s, 0) == Some(RangeMatch(n, n + 5, n + 6, n + 11))
      && RangeText(s, RangeMatch(n, n + 5, n + 6, n + 11)) == r && s[..n] == w + " "
  {
    var s := w + " " + r;
    var n := |w| + 1;
    assert s[n..] == r;
    WordBlankNoMatch(w, r);
    RangeAtCanonical(s, n);
    SearchFinds(s, 0, n);
  }

  /** `_parse_string_rule` once the search has found a range. */
  lemma ParseStringRuleFound(raw: string, m: RangeMatch, year: int)
    requires Strip(raw) != [] && SearchRange(Strip(raw), 0) == Some(m)
    ensures var s := Strip(raw); var c := ClassifyPrefix(Lower(Strip(s[..m.start])), year);
      ParseStringRule(raw, year) == Some(RulesParser.Rule(c.0, c.1, [RangeText(s, m)]))
  {
  }

  /** A day word classifies as itself: a weekday or a relative day. */
  lemma ClassifyDayWord(w: string, year: int)
    requires w in RulesParser.Weekdays || w in RulesParser.RelativeDays
    ensures ClassifyPrefix(w, year) == (if w in RulesParser.Weekdays then "weekday" else "relative_date", w)
  {
    RulesParser.DayWord(w);
    RuleMatch.WeekdayIndexOfNames();
  }

  /** A legacy text `<word> HH:MM-HH:MM` is that range, with the word classified as the prefix. */
  lemma ParseStringRuleWordRange(w: string, r: string, year: int)
    requires RulesParser.CyrWord(w) && RulesParser.IsCanonicalRange(r)
    ensures var c := ClassifyPrefix(w, year);
      ParseStringRule(w + " " + r, year) == Some(RulesParser.Rule(c.0, c.1, [r]))
  {
    var s := w + " " + r;
    var n := |w| + 1;
    var m := RangeMatch(n, n + 5, n + 6, n + 11);
    RulesParser.CyrWordFacts(w);
    assert Strip(s) == s by {
      assert s[0] == w[0] && s[|s| - 1] == r[10];
      StripOfStripped(s);
    }
    SearchDayRange(w, r);
    assert Lower(Strip(s[..n])) == w by {
      StripTrailingBlank(w);
    }
    ParseStringRuleFound(s, m, year);
  }

  /**
   * A legacy text `<day word> HH:MM-HH:MM` reads back as the structured rule of
   * that weekday or relative day, with that one range.
   */
  lemma ParseStringRuleDayRange(w: string, r: string, year: int)
    requires w in RulesParser.Weekdays || w in RulesParser.RelativeDays
    requires RulesParser.IsCanonicalRange(r)
    ensures ParseStringRule(w + " " + r, year)
         == Some(RulesParser.Rule(if w in RulesParser.Weekdays then "weekday" else "relative_date", w, [r]))
  {
    RulesParser.DayWord(w);
    ParseStringRuleWordRange(w, r, year);
    ClassifyDayWord(w, year);
  }

  // ---------------- _normalize_rules ----------------

  /**
   * One stored entry as `_normalize_rules` reads it: a structured rule gets a
   * lower-case type (`any` when it has none); a legacy text goes through
   * `_parse_string_rule`, and a blank one is dropped.
   */
  function NormalizeEntry(e: StoredRule, year: int): (r: Option<Rule>)
    ensures e.RuleDict? ==> r.Some? && r.value.value == e.rule.value && r.value.timeRanges == e.rule.timeRanges
    ensures e.RuleDict? && Lower(e.rule.kind) != [] ==> r.value.kind == Lower(e.rule.kind)
    ensures e.RuleText? ==> (r.Some? <==> Strip(e.text) != [])
    ensures r.Some? ==> r.value.kind != [] && Lower(r.value.kind) == r.value.kind
  {
    match e
    case RuleDict(rule) =>
      var k := Lower(rule.kind);
      LowerIdempotent(rule.kind);
      RuleMatch.LowerAnyKind();
      Some(RulesParser.Rule(if k == [] then "any" else k, rule.value, rule.timeRanges))
    case RuleText(t) =>
      var r := ParseStringRule(t, year);
      KnownKindLower(r);
      r
  }

  /** Each stored entry's normalisation, in order. */
  function Normalizations(rs: seq<StoredRule>, year: int): (ns: seq<Option<Rule>>)
    ensures |ns| == |rs|
    ensures forall k :: 0 <= k < |ns| && ns[k].Some? ==> ns[k].value.kind != [] && Lower(ns[k].value.kind) == ns[k].value.kind
  {
    if rs == [] then []
    else
      var init := Normalizations(rs[..|rs| - 1], year);
      init + [NormalizeEntry(rs[|rs| - 1], year)]
  }

  lemma {:induction false} NormalizationsAt(rs: seq<StoredRule>, year: int, k: nat)
    requires k < |rs|
    ensures Normalizations(rs, year)[k] == NormalizeEntry(rs[k], year)
    decreases |rs|
  {
    if k < |rs| - 1 {
      NormalizationsAt(rs[..|rs| - 1], year, k);
      assert rs[..|rs| - 1][k] == rs[k];
    }
  }

  /** The rules present in a sequence of optional rules, in order. */
  function Somes(ns: seq<Option<Rule>>): (r: seq<Rule>)
    ensures |r| <= |ns|
    ensures forall j :: 0 <= j < |r| ==> Some(r[j]) in ns
  {
    if ns == [] then []
    else
      var init := Somes(ns[..|ns| - 1]);
      assert forall k :: 0 <= k < |ns| - 1 ==> ns[..|ns| - 1][k] == ns[k];
      match ns[|ns| - 1]
      case Some(x) => init + [x]
      case None => init
  }

  /** `_normalize_rules(rules)`: the normalised entries, blank legacy texts dropped. */
  function NormalizedAll(rs: seq<StoredRule>, year: int): (r: seq<Rule>)
    ensures |r| <= |rs|
    ensures forall k :: 0 <= k < |r| ==> r[k].kind != [] && Lower(r[k].kind) == r[k].kind
  {
    Somes(Normalizations(rs, year))
  }

  /** The loop of `_normalize_rules`. */
  method NormalizeRules(rules: seq<StoredRule>, year: int) returns (normalized: seq<Rule>)
    ensures normalized == NormalizedAll(rules, year)
  {
    normalized := [];
    var i := 0;
    while i < |rules|
      invariant 0 <= i <= |rules|
      invariant normalized == NormalizedAll(rules[..i], year)
    {
      assert rules[..i + 1][..i] == rules[..i];
      var parsed := NormalizeEntry(rules[i], year);
      var ns := Normalizations(rules[..i], year);
      assert Normalizations(rules[..i + 1], year) == ns + [parsed];
      assert (ns + [parsed])[..|ns|] == ns;
      if parsed.Some? {
        normalized := normalized + [parsed.value];
      }
      i := i + 1;
    }
    assert rules[..|rules|] == rules;
  }

  /** Structured rules stored back as entries. */
  function AsStored(xs: seq<Rule>): (r: seq<StoredRule>)
    ensures |r| == |xs| && forall k :: 0 <= k < |xs| ==> r[k] == RuleDict(xs[k])
  {
    if xs == [] then [] else AsStored(xs[..|xs| - 1]) + [RuleDict(xs[|xs| - 1])]
  }

  /** Structured rules with a lower-case, non-empty type survive normalisation unchanged. */
  lemma {:induction false} NormalizedOfNormal(xs: seq<Rule>, year: int)
    requires forall k :: 0 <= k < |xs| ==> xs[k].kind != [] && Lower(xs[k].kind) == xs[k].kind
    ensures NormalizedAll(AsStored(xs), year) == xs
  {
    if xs != [] {
      var init := xs[..|xs| - 1];
      assert AsStored(xs)[..|xs| - 1] == AsStored(init);
      NormalizedOfNormal(init, year);
      assert xs == init + [xs[|xs| - 1]];
    }
  }

  /** Normalising twice is normalising once. */
  lemma NormalizeIdempotent(rs: seq<StoredRule>, year: int)
    ensures NormalizedAll(AsStored(NormalizedAll(rs, year)), year) == NormalizedAll(rs, year)
  {
    NormalizedOfNormal(NormalizedAll(rs, year), year);
  }

  /** A list of structured rules loses nothing and keeps its order. */
  lemma {:induction false} NormalizedDictsLength(xs: seq<Rule>, year: int)
    ensures |NormalizedAll(AsStored(xs), year)| == |xs|
    ensures forall k :: 0 <= k < |xs| ==>
      NormalizedAll(AsStored(xs), year)[k].value == xs[k].value && NormalizedAll(AsStored(xs), year)[k].timeRanges == xs[k].timeRanges
  {
    if xs != [] {
      var init := xs[..|xs| - 1];
      assert AsStored(xs)[..|xs| - 1] == AsStored(init);
      NormalizedDictsLength(init, year);
    }
  }

  // ---------------- _freeze_rules_if_needed ----------------

  /** A structured rule that still names `сегодня` / `завтра` as a date. */
  predicate RelativeEntry(e: StoredRule) {
    e.RuleDict?
    && (Lower(e.rule.kind) == "relative_date" || Lower(e.rule.kind) == "date")
    && (Lower(Strip(e.rule.value)) == "сегодня" || Lower(Strip(e.rule.value)) == "завтра")
  }

  /** The same time ranges under an ISO date. */
  function DateEntry(d: Date, trs: seq<string>): StoredRule
    requires ValidDate(d)
  {
    RuleDict(RulesParser.Rule("date", IsoDate(d), trs))
  }

  /**
   * The ISO date an entry is rewritten to, if any: `сегодня` / `завтра` (as a
   * date or relative rule) become today or tomorrow; a date rule that
   * `_parse_date_rule` reads but that is not already `YYYY-MM-DD` becomes that
   * date; weekday rules and everything else are not rewritten.
   */
  function RewriteDate(x: Rule, now: DateTime): (r: Option<Date>)
    requires ValidNow(now)
    ensures r.Some? ==> ValidDate(r.value)
    ensures RelativeEntry(RuleDict(x)) ==> r.Some?
    ensures r.Some? ==> Lower(x.kind) == "relative_date" || Lower(x.kind) == "date"
  {
    var rtype := Lower(x.kind);
    var value := Lower(Strip(x.value));
    if RelativeEntry(RuleDict(x)) then Some(if value == "сегодня" then now.date else NextDay(now.date))
    else if rtype == "date" && !IsoDateShape(value) then RuleMatch.ParseDateRule(value, now.date.year, now.date)
    else None
  }

  /**
   * One step of the freeze loop: the entry to keep and whether it was rewritten.
   * A rewritten rule keeps its ranges under the ISO date; a weekday rule stays
   * recurring with its value tidied; anything else is kept as it is.
   */
  function FreezeEntry(e: StoredRule, now: DateTime): (r: (StoredRule, bool))
    requires ValidNow(now)
    ensures r.0.RuleDict? == e.RuleDict?
    ensures e.RuleText? ==> r == (e, false)
    ensures e.RuleDict? ==> r.0.rule.timeRanges == e.rule.timeRanges
    ensures RelativeEntry(e) ==> r.1
    ensures r.0 != e ==> e.RuleDict? && Lower(e.rule.kind) != []
    ensures r.1 ==> r.0.rule.kind == "date" && ParseIsoDate(r.0.rule.value).Some?
    ensures !r.1 ==> r.0 == e || (Lower(e.rule.kind) == "weekday" && r.0.rule == RulesParser.Rule("weekday", Lower(Strip(e.rule.value)), e.rule.timeRanges))
  {
    match e
    case RuleText(_) => (e, false)
    case RuleDict(rule) =>
      match RewriteDate(rule, now)
      case Some(t) =>
        IsoDateRoundTrip(t);
        (DateEntry(t, rule.timeRanges), true)
      case None =>
        if Lower(rule.kind) == "weekday" then (RuleDict(RulesParser.Rule("weekday", Lower(Strip(rule.value)), rule.timeRanges)), false)
        else (e, false)
  }

  /** The list the freeze loop builds. */
  function Frozen(rs: seq<StoredRule>, now: DateTime): (r: seq<StoredRule>)
    requires ValidNow(now)
    ensures |r| == |rs|
  {
    if rs == [] then [] else Frozen(rs[..|rs| - 1], now) + [FreezeEntry(rs[|rs| - 1], now).0]
  }

  /** The freeze loop rewrites each entry on its own, in place. */
  lemma {:induction false} FrozenAt(rs: seq<StoredRule>, now: DateTime, k: nat)
    requires ValidNow(now) && k < |rs|
    ensures Frozen(rs, now)[k] == FreezeEntry(rs[k], now).0
    decreases |rs|
  {
    if k < |rs| - 1 {
      FrozenAt(rs[..|rs| - 1], now, k);
      assert rs[..|rs| - 1][k] == rs[k];
    }
  }

  /** Whether the freeze loop rewrote any entry. */
  function Changed(rs: seq<StoredRule>, now: DateTime): (b: bool)
    requires ValidNow(now)
    ensures b <==> exists k :: 0 <= k < |rs| && FreezeEntry(rs[k], now).1
  {
    if rs == [] then false
    else
      var b := Changed(rs[..|rs| - 1], now) || FreezeEntry(rs[|rs| - 1], now).1;
      assert forall k :: 0 <= k < |rs| - 1 ==> rs[..|rs| - 1][k] == rs[k];
      b
  }

  /** `_freeze_rules_if_needed`: the stored list is replaced only when some entry was rewritten. */
  function FreezeRules(rs: seq<StoredRule>, now: DateTime): (r: seq<StoredRule>)
    requires ValidNow(now)
  {
    if Changed(rs, now) then Frozen(rs, now) else rs
  }

  /** The freeze loop, returning the new list and whether it differs. */
  method FreezeRulesIfNeeded(rules: seq<StoredRule>, now: DateTime) returns (result: seq<StoredRule>, changed: bool)
    requires ValidNow(now)
    ensures result == FreezeRules(rules, now) && changed == Changed(rules, now)
  {
    var frozen: seq<StoredRule> := [];
    changed := false;
    var i := 0;
    while i < |rules|
      invariant 0 <= i <= |rules|
      invariant frozen == Frozen(rules[..i], now)
      invariant changed == Changed(rules[..i], now)
    {
      assert rules[..i + 1][..i] == rules[..i];
      var step := FreezeEntry(rules[i], now);
      frozen := frozen + [step.0];
      changed := changed || step.1;
      i := i + 1;
    }
    assert rules[..|rules|] == rules;
    result := if changed then frozen else rules;
  }

  /** A rule already frozen to an ISO date is left alone by a second freeze. */
  lemma DateEntryStable(x: Rule, now: DateTime)
    requires ValidNow(now) && x.kind == "date" && ParseIsoDate(x.value).Some?
    ensures FreezeEntry(RuleDict(x), now) == (RuleDict(x), false)
  {
    var d := ParseIsoDate(x.value).value;
    assert IsoDate(d) == x.value;
    RuleMatch.LowerDateKind();
    RulesParser.IsoDateText(d);
    RulesParser.IsoNotRelative(d);
    RuleMatch.ParseDateRuleIso(d, now.date.year, now.date);
    IsoDateRoundTrip(d);
  }

  /** A tidied weekday rule is left alone by a second freeze. */
  lemma WeekdayEntryStable(v: string, trs: seq<string>, now: DateTime)
    requires ValidNow(now)
    ensures var e := RuleDict(RulesParser.Rule("weekday", Lower(Strip(v)), trs));
      FreezeEntry(e, now) == (e, false)
  {
    RuleMatch.LowerWeekdayKind();
    RulesParser.LowerStripFixed(v);
  }

  /** What one freeze step produces, a second step keeps and does not report as a change. */
  lemma FreezeEntryStable(e: StoredRule, now: DateTime)
    requires ValidNow(now)
    ensures var f := FreezeEntry(e, now).0; FreezeEntry(f, now) == (f, false)
  {
    var r := FreezeEntry(e, now);
    if r.1 {
      DateEntryStable(r.0.rule, now);
    } else if r.0 != e {
      WeekdayEntryStable(e.rule.value, e.rule.timeRanges, now);
    }
  }

  /** After a rewrite no entry is left that a freeze would rewrite. */
  lemma FrozenUnchanged(rs: seq<StoredRule>, now: DateTime)
    requires ValidNow(now)
    ensures !Changed(Frozen(rs, now), now)
  {
    var f := Frozen(rs, now);
    forall k | 0 <= k < |f| ensures !FreezeEntry(f[k], now).1 {
      FrozenAt(rs, now, k);
      FreezeEntryStable(rs[k], now);
    }
  }

  /** `_freeze_rules_if_needed` a second time changes nothing. */
  lemma FreezeIdempotent(rs: seq<StoredRule>, now: DateTime)
    requires ValidNow(now)
    ensures FreezeRules(FreezeRules(rs, now), now) == FreezeRules(rs, now)
  {
    if Changed(rs, now) {
      FrozenUnchanged(rs, now);
    }
  }

  /**
   * Entry by entry: legacy texts are kept, weekday rules stay weekday rules with
   * the same day and ranges, and no `сегодня` / `завтра` date rule is left.
   */
  lemma FreezeRulesAt(rs: seq<StoredRule>, now: DateTime, k: nat)
    requires ValidNow(now) && k < |rs|
    ensures var f := FreezeRules(rs, now);
      && |f| == |rs|
      && (rs[k].RuleText? ==> f[k] == rs[k])
      && (rs[k].RuleDict? ==> f[k].RuleDict? && f[k].rule.timeRanges == rs[k].rule.timeRanges)
      && (rs[k].RuleDict? && Lower(rs[k].rule.kind) == "weekday" ==>
            Lower(f[k].rule.kind) == "weekday" && Lower(Strip(f[k].rule.value)) == Lower(Strip(rs[k].rule.value)))
      && !RelativeEntry(f[k])
  {
    var f := FreezeRules(rs, now);
    FrozenAt(rs, now, k);
    assert !FreezeEntry(f[k], now).1 by {
      if Changed(rs, now) {
        FreezeEntryStable(rs[k], now);
      } else {
        assert f[k] == rs[k];
      }
    }
    if rs[k].RuleDict? && Lower(rs[k].rule.kind) == "weekday" {
      WeekdayStays(rs[k], now);
    }
  }

  /** A weekday rule comes out of a freeze step as a weekday rule for the same day. */
  lemma WeekdayStays(e: StoredRule, now: DateTime)
    requires ValidNow(now) && e.RuleDict? && Lower(e.rule.kind) == "weekday"
    ensures var f := FreezeEntry(e, now).0;
      Lower(f.rule.kind) == "weekday" && Lower(Strip(f.rule.value)) == Lower(Strip(e.rule.value))
  {
    var v := Lower(Strip(e.rule.value));
    assert FreezeEntry(e, now).0 == RuleDict(RulesParser.Rule("weekday", v, e.rule.timeRanges));
    RuleMatch.LowerWeekdayKind();
    RulesParser.LowerStripFixed(e.rule.value);
  }

  // ---------------- matching through the stored list ----------------

  /** The stored entry, once normalised, accepts the slot. */
  predicate EntryMatches(slot: DateTime, e: StoredRule, now: DateTime)
    requires ValidDateTime(slot) && ValidNow(now)
  {
    var n := NormalizeEntry(e, now.date.year);
    n.Some? && RuleMatch.RuleMatches(slot, n.value, now)
  }

  /** The present rules accept a slot through some rule exactly when some present entry does. */
  lemma {:induction false} SomesMatches(slot: DateTime, ns: seq<Option<Rule>>, now: DateTime)
    requires ValidDateTime(slot) && ValidNow(now)
    ensures RuleMatch.AnyRuleMatches(slot, Somes(ns), now) <==> Sequences.AnyPresent(ns, Matcher(slot, now))
  {
    if ns != [] {
      var n := |ns| - 1;
      var init := ns[..n];
      SomesMatches(slot, init, now);
      Sequences.AnyPresentSnoc(ns, Matcher(slot, now));
      match ns[n]
      case Some(x) =>
        assert Somes(ns) == Somes(init) + [x];
        RuleMatch.AnyRuleMatchesAppend(slot, Somes(init), [x], now);
        assert RuleMatch.AnyRuleMatches(slot, [x], now) == Matcher(slot, now)(x);
      case None =>
        assert Somes(ns) == Somes(init);
    }
  }

  /** Whether a rule accepts the slot, as a function of the rule. */
  function Matcher(slot: DateTime, now: DateTime): Rule -> bool {
    (r: Rule) => ValidDateTime(slot) && ValidNow(now) && RuleMatch.RuleMatches(slot, r, now)
  }

  /** No rule is present exactly when every entry is absent. */
  lemma {:induction false} SomesEmpty(ns: seq<Option<Rule>>)
    ensures Somes(ns) == [] <==> forall k :: 0 <= k < |ns| ==> ns[k].None?
  {
    if ns != [] {
      var init := ns[..|ns| - 1];
      SomesEmpty(init);
      assert forall k :: 0 <= k < |init| ==> init[k] == ns[k];
    }
  }

  /** A structured rule with a type accepts a slot by its lowered type and value. */
  lemma DictMatches(slot: DateTime, x: Rule, now: DateTime)
    requires ValidDateTime(slot) && ValidNow(now) && Lower(x.kind) != []
    ensures EntryMatches(slot, RuleDict(x), now)
        == (RuleMatch.KindAdmits(Lower(x.kind), Lower(Strip(x.value)), slot.date, now)
            && RuleMatch.TimeMatchesRanges(RuleMatch.SlotMinute(slot), x.timeRanges))
  {
    LowerIdempotent(x.kind);
  }

  /** Under the clock it was frozen with, a rewritten entry accepts the same slots. */
  lemma FreezeEntryMatches(slot: DateTime, e: StoredRule, now: DateTime)
    requires ValidDateTime(slot) && ValidNow(now)
    ensures EntryMatches(slot, FreezeEntry(e, now).0, now) == EntryMatches(slot, e, now)
    ensures NormalizeEntry(FreezeEntry(e, now).0, now.date.year).Some? == NormalizeEntry(e, now.date.year).Some?
  {
    if FreezeEntry(e, now).0 != e {
      FreezeDictMatches(slot, e.rule, now);
    }
  }

  lemma FreezeDictMatches(slot: DateTime, x: Rule, now: DateTime)
    requires ValidDateTime(slot) && ValidNow(now) && FreezeEntry(RuleDict(x), now).0 != RuleDict(x)
    ensures EntryMatches(slot, FreezeEntry(RuleDict(x), now).0, now) == EntryMatches(slot, RuleDict(x), now)
  {
    var r := FreezeEntry(RuleDict(x), now);
    var f := r.0.rule;
    assert Lower(f.kind) != [] by {
      RuleMatch.LowerDateKind();
      RuleMatch.LowerWeekdayKind();
    }
    DictMatches(slot, x, now);
    DictMatches(slot, f, now);
    if r.1 {
      FrozenDayAdmits(x, slot.date, now);
    } else {
      WeekdayDayAdmits(x, slot.date, now);
    }
  }

  /** The tidied weekday rule names the same weekday. */
  lemma WeekdayDayAdmits(x: Rule, d: Date, now: DateTime)
    requires ValidDate(d) && ValidNow(now) && Lower(x.kind) == "weekday"
    ensures var f := FreezeEntry(RuleDict(x), now).0.rule;
      RuleMatch.KindAdmits(Lower(f.kind), Lower(Strip(f.value)), d, now)
      == RuleMatch.KindAdmits(Lower(x.kind), Lower(Strip(x.value)), d, now)
  {
    WeekdayStays(RuleDict(x), now);
  }

  /** The day a rewritten rule names is the day the original named. */
  lemma FrozenDayAdmits(x: Rule, d: Date, now: DateTime)
    requires ValidDate(d) && ValidNow(now) && FreezeEntry(RuleDict(x), now).1
    ensures var f := FreezeEntry(RuleDict(x), now).0.rule;
      RuleMatch.KindAdmits(Lower(f.kind), Lower(Strip(f.value)), d, now)
      == RuleMatch.KindAdmits(Lower(x.kind), Lower(Strip(x.value)), d, now)
  {
    var t := RewriteDate(x, now).value;
    assert FreezeEntry(RuleDict(x), now).0 == DateEntry(t, x.timeRanges);
    assert RuleMatch.KindAdmits(Lower("date"), Lower(Strip(IsoDate(t))), d, now) <==> d == t by {
      IsoKindAdmits(t, d, now);
      RuleMatch.LowerDateKind();
      RulesParser.IsoDateText(t);
    }
    RewriteDateAdmits(x, d, now);
  }

  /** The original rule names exactly the date it is rewritten to. */
  lemma RewriteDateAdmits(x: Rule, d: Date, now: DateTime)
    requires ValidDate(d) && ValidNow(now) && RewriteDate(x, now).Some?
    ensures RuleMatch.KindAdmits(Lower(x.kind), Lower(Strip(x.value)), d, now) <==> d == RewriteDate(x, now).value
  {
    if RelativeEntry(RuleDict(x)) {
      RelativeKindAdmits(x, d, now);
    }
  }

  /** A date rule holding ISO text names that date. */
  lemma IsoKindAdmits(t: Date, d: Date, now: DateTime)
    requires ValidDate(t) && ValidDate(d) && ValidNow(now)
    ensures RuleMatch.KindAdmits("date", IsoDate(t), d, now) <==> d == t
  {
    RuleMatch.ParseDateRuleIso(t, now.date.year, now.date);
  }

  /** `сегодня` / `завтра` as a date or relative rule name today or tomorrow. */
  lemma RelativeKindAdmits(x: Rule, d: Date, now: DateTime)
    requires ValidDate(d) && ValidNow(now) && RelativeEntry(RuleDict(x))
    ensures var v := Lower(Strip(x.value));
      RuleMatch.KindAdmits(Lower(x.kind), v, d, now)
      <==> d == (if v == "сегодня" then now.date else NextDay(now.date))
  {
    var v := Lower(Strip(x.value));
    RulesParser.LowerStripFixed(x.value);
    RuleMatch.ParseDateRuleRelative(v, now.date.year, now.date);
  }

  /** The `k`-th entry accepts the same slots before and after the freeze. */
  lemma FrozenAtMatches(slot: DateTime, rs: seq<StoredRule>, now: DateTime, k: int)
    requires ValidDateTime(slot) && ValidNow(now) && Changed(rs, now) && 0 <= k < |rs|
    ensures var y := now.date.year;
      var n1 := Normalizations(rs, y)[k];
      var n2 := Normalizations(Frozen(rs, now), y)[k];
      && n2.Some? == n1.Some?
      && (n2.Some? ==> RuleMatch.RuleMatches(slot, n2.value, now) == RuleMatch.RuleMatches(slot, n1.value, now))
  {
    FrozenAt(rs, now, k);
    NormalizationsAt(rs, now.date.year, k);
    NormalizationsAt(Frozen(rs, now), now.date.year, k);
    FreezeEntryMatches(slot, rs[k], now);
  }

  /**
   * Freezing keeps what the tracking record accepts: under the same clock the
   * normalised rules before and after accept exactly the same slots.
   */
  lemma FreezeKeepsMatching(slot: DateTime, rs: seq<StoredRule>, now: DateTime)
    requires ValidDateTime(slot) && ValidNow(now)
    ensures RuleMatch.SlotMatches(slot, NormalizedAll(FreezeRules(rs, now), now.date.year), now)
        == RuleMatch.SlotMatches(slot, NormalizedAll(rs, now.date.year), now)
  {
    if Changed(rs, now) {
      var y := now.date.year;
      var ns1 := Normalizations(rs, y);
      var ns2 := Normalizations(Frozen(rs, now), y);
      forall k | 0 <= k < |rs|
        ensures ns2[k].Some? == ns1[k].Some?
        ensures ns2[k].Some? ==> Matcher(slot, now)(ns2[k].value) == Matcher(slot, now)(ns1[k].value)
      {
        FrozenAtMatches(slot, rs, now, k);
      }
      SomesAgree(slot, ns1, ns2, now);
    }
  }

  /** Entries present together and accepting the slot together give rule lists that accept it together. */
  lemma SomesAgree(slot: DateTime, ns1: seq<Option<Rule>>, ns2: seq<Option<Rule>>, now: DateTime)
    requires ValidDateTime(slot) && ValidNow(now) && |ns1| == |ns2|
    requires forall k :: 0 <= k < |ns1| ==>
      ns2[k].Some? == ns1[k].Some? && (ns2[k].Some? ==> Matcher(slot, now)(ns2[k].value) == Matcher(slot, now)(ns1[k].value))
    ensures RuleMatch.SlotMatches(slot, Somes(ns2), now) == RuleMatch.SlotMatches(slot, Somes(ns1), now)
  {
    SomesMatches(slot, ns1, now);
    SomesMatches(slot, ns2, now);
    Sequences.AnyPresentSame(ns1, ns2, Matcher(slot, now));
    SomesEmpty(ns1);
    SomesEmpty(ns2);
  }

  // ---------------- rule append with dedup (rule-editing dialogue) ----------------

  /**
   * The dedup key of a stored entry: a structured rule is keyed by its raw type,
   * raw value and its ranges in sorted order; a text by the text itself. The two
   * kinds of key never coincide, as the source's 3-tuples and `('str', s)` pairs.
   */
  datatype RuleKey = DictKey(kind: string, value: string, ranges: seq<string>) | TextKey(text: string)

  function KeyOf(e: StoredRule): RuleKey {
    match e
    case RuleDict(r) => DictKey(r.kind, r.value, Sort(r.timeRanges, StrLe))
    case RuleText(t) => TextKey(t)
  }

  function Keys(s: seq<StoredRule>): set<RuleKey> {
    set e | e in s :: KeyOf(e)
  }

  /**
   * The entries of `ns` the dedup loop appends when the keys in `K` are already
   * present: each entry whose key is new, the first of several with one key.
   */
  function Fresh(ns: seq<StoredRule>, K: set<RuleKey>): (r: seq<StoredRule>)
    ensures |r| <= |ns|
    ensures forall e :: e in r ==> e in ns && KeyOf(e) !in K
    decreases |ns|
  {
    if ns == [] then []
    else if KeyOf(ns[0]) in K then Fresh(ns[1..], K)
    else [ns[0]] + Fresh(ns[1..], K + {KeyOf(ns[0])})
  }

  /**
   * Appends to the existing rules every new rule whose key is not yet present;
   * returns the new list and how many were appended.
   */
  method AppendNewRules(existing: seq<StoredRule>, incoming: seq<StoredRule>) returns (result: seq<StoredRule>, added: nat)
    ensures result == existing + Fresh(incoming, Keys(existing))
    ensures added == |result| - |existing|
  {
    result := existing;
    var keys := Keys(existing);
    added := 0;
    var i := 0;
    while i < |incoming|
      invariant 0 <= i <= |incoming|
      invariant keys == Keys(result)
      invariant result + Fresh(incoming[i..], keys) == existing + Fresh(incoming, Keys(existing))
      invariant added == |result| - |existing|
    {
      var r := incoming[i];
      var k := KeyOf(r);
      AppendStep(result, incoming, i, keys);
      if k !in keys {
        result := result + [r];
        keys := keys + {k};
        added := added + 1;
      }
      i := i + 1;
    }
  }

  /** One step of the dedup loop, on `Fresh` and on the key set. */
  lemma AppendStep(result: seq<StoredRule>, incoming: seq<StoredRule>, i: int, keys: set<RuleKey>)
    requires 0 <= i < |incoming| && keys == Keys(result)
    ensures KeyOf(incoming[i]) in keys ==> Fresh(incoming[i..], keys) == Fresh(incoming[i + 1..], keys)
    ensures KeyOf(incoming[i]) !in keys ==>
      && result + Fresh(incoming[i..], keys) == (result + [incoming[i]]) + Fresh(incoming[i + 1..], keys + {KeyOf(incoming[i])})
      && Keys(result + [incoming[i]]) == keys + {KeyOf(incoming[i])}
  {
    var r := incoming[i];
    assert incoming[i..][1..] == incoming[i + 1..];
    assert incoming[i..][0] == r;
    if KeyOf(r) !in keys {
      KeysSnoc(result, r);
    }
  }

  lemma KeysSnoc(s: seq<StoredRule>, e: StoredRule)
    ensures Keys(s + [e]) == Keys(s) + {KeyOf(e)}
  {
    assert forall x :: x in s + [e] <==> x in s || x == e;
  }

  /** No two entries of `r` share a key. */
  predicate DistinctKeys(r: seq<StoredRule>) {
    Sequences.DistinctBy(r, KeyFn())
  }

  function KeyFn(): StoredRule -> RuleKey {
    (e: StoredRule) => KeyOf(e)
  }

  /** The appended entries have pairwise different keys. */
  lemma {:induction false} FreshDistinct(ns: seq<StoredRule>, K: set<RuleKey>)
    ensures DistinctKeys(Fresh(ns, K))
    decreases |ns|
  {
    if ns != [] {
      var k := KeyOf(ns[0]);
      if k in K {
        FreshDistinct(ns[1..], K);
      } else {
        var rest := Fresh(ns[1..], K + {k});
        FreshDistinct(ns[1..], K + {k});
        Sequences.ConsDistinctBy(ns[0], rest, KeyFn());
      }
    }
  }

  /** Every new rule's key is present after the append. */
  lemma {:induction false} FreshComplete(ns: seq<StoredRule>, K: set<RuleKey>)
    ensures K + Keys(Fresh(ns, K)) == K + Keys(ns)
    decreases |ns|
  {
    if ns != [] {
      var k := KeyOf(ns[0]);
      assert Keys(ns) == {k} + Keys(ns[1..]) by {
        assert ns == [ns[0]] + ns[1..];
      }
      if k in K {
        FreshComplete(ns[1..], K);
      } else {
        FreshComplete(ns[1..], K + {k});
        var rest := Fresh(ns[1..], K + {k});
        assert Keys([ns[0]] + rest) == {k} + Keys(rest);
      }
    }
  }

  /** Nothing is appended when every new key is already present. */
  lemma {:induction false} FreshOfKnown(ns: seq<StoredRule>, K: set<RuleKey>)
    requires Keys(ns) <= K
    ensures Fresh(ns, K) == []
    decreases |ns|
  {
    if ns != [] {
      assert ns[0] in ns;
      assert Keys(ns[1..]) <= Keys(ns) by {
        forall e | e in ns[1..] ensures e in ns { }
      }
      FreshOfKnown(ns[1..], K);
    }
  }

  /**
   * The append keeps the existing rules in order, adds only entries of the new
   * batch under keys not present before, with no two under one key, and after it
   * every key of the batch is present.
   */
  lemma AppendNewRulesSpec(existing: seq<StoredRule>, incoming: seq<StoredRule>)
    ensures var r := existing + Fresh(incoming, Keys(existing));
      && r[..|existing|] == existing
      && (forall i :: |existing| <= i < |r| ==> r[i] in incoming && KeyOf(r[i]) !in Keys(existing))
      && DistinctKeys(r[|existing|..])
      && Keys(r) == Keys(existing) + Keys(incoming)
  {
    var f := Fresh(incoming, Keys(existing));
    var r := existing + f;
    FreshDistinct(incoming, Keys(existing));
    FreshComplete(incoming, Keys(existing));
    forall i | |existing| <= i < |r| ensures r[i] in incoming && KeyOf(r[i]) !in Keys(existing) {
      assert r[i] == f[i - |existing|];
    }
    assert r[|existing|..] == f;
    assert Keys(r) == Keys(existing) + Keys(f);
  }

  /** Sending the same batch a second time appends nothing. */
  lemma AppendTwiceAddsNothing(existing: seq<StoredRule>, incoming: seq<StoredRule>)
    ensures var once := existing + Fresh(incoming, Keys(existing));
      Fresh(incoming, Keys(once)) == []
  {
    AppendNewRulesSpec(existing, incoming);
    FreshOfKnown(incoming, Keys(existing + Fresh(incoming, Keys(existing))));
  }

  /** Code-point order on strings is a total order. */
  lemma StrLeOrder()
    ensures TotalPreorder(StrLe) && Antisymmetric(StrLe)
  {
    forall a: string, b: string ensures StrLe(a, b) || StrLe(b, a) {
      StrLtTotal(a, b);
    }
    forall a: string, b: string, c: string | StrLe(a, b) && StrLe(b, c) ensures StrLe(a, c) {
      if StrLt(a, b) && StrLt(b, c) {
        StrLtTransitive(a, b, c);
      }
    }
    forall a: string, b: string | StrLe(a, b) && StrLe(b, a) ensures a == b {
      if StrLt(a, b) {
        StrLtAsymmetric(a, b);
      }
    }
  }

  /** Rules that list the same ranges in another order share a key. */
  lemma KeyIgnoresRangeOrder(a: Rule, b: Rule)
    requires a.kind == b.kind && a.value == b.value
    requires multiset(a.timeRanges) == multiset(b.timeRanges)
    ensures KeyOf(RuleDict(a)) == KeyOf(RuleDict(b))
  {
    StrLeOrder();
    SortPermutationInvariant(a.timeRanges, b.timeRanges, StrLe);
  }
}
