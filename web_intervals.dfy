/**
 * The web panel's rule strings (web_app.py): a rule is `<prefix> HH:MM-HH:MM`,
 * `_parse_rule` splits one, and `_merge_intervals` sorts a list of `HH:MM`
 * intervals and merges the ones that overlap or touch.
 */
module WebIntervals {
  import opened Options
  import opened PyText
  import opened Sorting
  import opened Sequences

  /** An interval as two `HH:MM` texts. */
  type Span = (string, string)

  /** An interval as two minute counts. */
  type Minutes = (int, int)

  // ---------------- _parse_rule ----------------

  /**
   * `_parse_rule(rule)`: exactly two blank-separated words, the second holding
   * a `-` whose two sides have five characters each; the prefix lower-cased.
   */
  function ParseRule(rule: string): Option<(string, string, string)> {
    var parts := SplitWs(Strip(rule));
    if |parts| != 2 then None
    else
      var times := parts[1];
      if '-' !in times then None
      else
        var halves := SplitOnce(times, '-');
        if |halves[0]| != 5 || |halves[1]| != 5 then None
        else Some((Lower(parts[0]), halves[0], halves[1]))
  }

  /** `f"{prefix} {s}-{e}"`, the text `_merge_rules` writes for a merged interval. */
  function Format(prefix: string, span: Span): string {
    prefix + " " + span.0 + "-" + span.1
  }

  /** A parsed rule has five-character ends and a prefix that is a lower-cased word. */
  lemma ParseRuleShape(rule: string)
    requires ParseRule(rule).Some?
    ensures var (p, s, e) := ParseRule(rule).value;
      |s| == 5 && |e| == 5 && '-' !in s && IsWord(p) && Lower(p) == p
      && (forall i :: 0 <= i < 5 ==> !IsSpace(s[i]) && !IsSpace(e[i]))
  {
    var parts := SplitWs(Strip(rule));
    var halves := SplitOnce(parts[1], '-');
    assert IsWord(parts[1]);
    assert parts[1] == halves[0] + ['-'] + halves[1];
    forall i | 0 <= i < 5 ensures !IsSpace(halves[0][i]) && !IsSpace(halves[1][i]) {
      assert halves[0][i] == parts[1][i];
      assert halves[1][i] == parts[1][i + 6];
    }
    LowerIdempotent(parts[0]);
    forall i | 0 <= i < |parts[0]| ensures !IsSpace(Lower(parts[0])[i]) {
      LowerCharFacts(parts[0][i]);
    }
  }

  /**
   * The text written for a merged interval parses back to its prefix and ends:
   * `_parse_rule` inverts the format for a lower-cased word prefix and blank-free
   * five-character ends whose start has no `-`.
   */
  lemma ParseFormat(prefix: string, s: string, e: string)
    requires IsWord(prefix) && Lower(prefix) == prefix
    requires |s| == 5 && |e| == 5 && '-' !in s
    requires forall i :: 0 <= i < 5 ==> !IsSpace(s[i]) && !IsSpace(e[i])
    ensures ParseRule(Format(prefix, (s, e))) == Some((prefix, s, e))
  {
    var times := s + "-" + e;
    FormatWords(prefix, s, e);
    TimesHalves(s, e);
    assert '-' in times by { assert times[5] == '-'; }
  }

  /** The formatted text splits into the prefix and `s-e`. */
  lemma FormatWords(prefix: string, s: string, e: string)
    requires IsWord(prefix)
    requires |s| == 5 && |e| == 5
    requires forall i :: 0 <= i < 5 ==> !IsSpace(s[i]) && !IsSpace(e[i])
    ensures SplitWs(Strip(Format(prefix, (s, e)))) == [prefix, s + "-" + e]
  {
    var times := s + "-" + e;
    forall i | 0 <= i < |times| ensures !IsSpace(times[i]) {
      if i < 5 { assert times[i] == s[i]; }
      else if i > 5 { assert times[i] == e[i - 6]; }
    }
    assert IsWord(times);
    assert Format(prefix, (s, e)) == prefix + " " + times;
    FormatSplit(prefix, times);
  }

  /** `(prefix + " " + times).strip().split()` of two words is the two words. */
  lemma FormatSplit(prefix: string, times: string)
    requires IsWord(prefix) && IsWord(times)
    ensures SplitWs(Strip(prefix + " " + times)) == [prefix, times]
  {
    var text := prefix + " " + times;
    assert text[0] == prefix[0] && text[|text| - 1] == times[|times| - 1];
    StripOfStripped(text);
    SplitWsOfTwoWords(prefix, times);
  }

  /** `(s + "-" + e).split('-', 1)` is `[s, e]` when `s` has no `-`. */
  lemma TimesHalves(s: string, e: string)
    requires |s| == 5 && '-' !in s
    ensures SplitOnce(s + "-" + e, '-') == [s, e]
  {
    var times := s + "-" + e;
    assert times[5] == '-';
    assert forall i :: 0 <= i < 5 ==> times[i] == s[i];
    FindAt(times, '-', 5);
    assert times[..5] == s && times[6..] == e;
  }

  // ---------------- minutes and clock texts ----------------

  /** Python's `t[i:j]` for `0 <= i <= j`. */
  function Slice(t: string, i: nat, j: nat): string
    requires i <= j
  {
    if j <= |t| then t[i..j] else if i <= |t| then t[i..] else ""
  }

  /** `int(t[:2]) * 60 + int(t[3:5])`; None where `int()` raises. */
  function ToMinutes(t: string): Option<int> {
    var h := PyInt(Slice(t, 0, 2));
    var m := PyInt(Slice(t, 3, 5));
    if h.Some? && m.Some? then Some(h.value * 60 + m.value) else None
  }

  /** `f"{m//60:02d}:{m%60:02d}"` (floor division and a non-negative remainder, as in Python). */
  function ToStr(m: int): string {
    Pad2(m / 60) + ":" + Pad2(m % 60)
  }

  /** A minute count of a day-like clock: two-digit hours. */
  predicate InClock(m: int) {
    0 <= m < 6000
  }

  /** A clock text of minutes below 100 hours reads back as those minutes, and has the `DD:DD` shape. */
  lemma ClockRoundTrip(m: int)
    requires InClock(m)
    ensures |ToStr(m)| == 5 && ToMinutes(ToStr(m)) == Some(m)
    ensures ToStr(m)[2] == ':' && forall i :: 0 <= i < 5 && i != 2 ==> IsDigit(ToStr(m)[i])
  {
    var h := Pad2(m / 60);
    var mm := Pad2(m % 60);
    var t := ToStr(m);
    assert t[..2] == h && t[3..5] == mm;
    assert Slice(t, 0, 2) == h && Slice(t, 3, 5) == mm;
    assert forall i :: 0 <= i < 2 ==> t[i] == h[i] && t[i + 3] == mm[i];
  }

  // ---------------- _merge_intervals ----------------

  /** The order `sorted()` puts minute pairs in: by start, then by end. */
  predicate LexLe(a: Minutes, b: Minutes) {
    a.0 < b.0 || (a.0 == b.0 && a.1 <= b.1)
  }

  lemma LexLeOrder()
    ensures TotalPreorder(LexLe) && Antisymmetric(LexLe)
  {
  }

  /** One step of the merge loop: a start past the last end opens an interval, otherwise the last one grows. */
  function MergeStep(merged: seq<Minutes>, x: Minutes): seq<Minutes> {
    if merged == [] || x.0 > merged[|merged| - 1].1 then merged + [x]
    else
      var last := merged[|merged| - 1];
      if x.1 > last.1 then merged[..|merged| - 1] + [(last.0, x.1)] else merged
  }

  /** The merge loop over a sorted list. */
  function Merge(xs: seq<Minutes>): seq<Minutes> {
    if xs == [] then [] else MergeStep(Merge(xs[..|xs| - 1]), xs[|xs| - 1])
  }

  /** Consecutive intervals are strictly apart: each ends before the next starts. */
  predicate Separated(xs: seq<Minutes>) {
    forall i :: 0 <= i < |xs| - 1 ==> xs[i].1 < xs[i + 1].0
  }

  /** The point `p` lies in one of the (closed) intervals. */
  predicate Covers(xs: seq<Minutes>, p: int) {
    exists i :: 0 <= i < |xs| && xs[i].0 <= p <= xs[i].1
  }

  ghost predicate Lexed(xs: seq<Minutes>) {
    SortedBy(xs, LexLe)
  }

  /** What the merge loop keeps true: sorted, apart, and its last interval not past the last input. */
  ghost predicate MergeInvariant(merged: seq<Minutes>, xs: seq<Minutes>) {
    && Lexed(merged) && Separated(merged)
    && (merged == [] <==> xs == [])
    && (xs != [] ==> LexLe(merged[|merged| - 1], xs[|xs| - 1]))
  }

  lemma MergeStepInvariant(merged: seq<Minutes>, xs: seq<Minutes>, x: Minutes)
    requires MergeInvariant(merged, xs)
    requires xs != [] ==> LexLe(xs[|xs| - 1], x)
    ensures MergeInvariant(MergeStep(merged, x), xs + [x])
  {
    var r := MergeStep(merged, x);
    var ys := xs + [x];
    assert ys[|ys| - 1] == x;
    if merged == [] || x.0 > merged[|merged| - 1].1 {
      if merged != [] {
        var last := merged[|merged| - 1];
        assert LexLe(last, x);
        forall i, j | 0 <= i < j < |r| ensures LexLe(r[i], r[j]) {
          if j == |r| - 1 && i < |merged| {
            assert LexLe(merged[i], last);
          }
        }
      }
    } else {
      var last := merged[|merged| - 1];
      var n := |merged| - 1;
      if x.1 > last.1 {
        assert r[n] == (last.0, x.1);
        forall i, j | 0 <= i < j < |r| ensures LexLe(r[i], r[j]) {
          if j == n {
            assert LexLe(merged[i], last);
          } else {
            assert r[i] == merged[i] && r[j] == merged[j];
          }
        }
        forall i | 0 <= i < |r| - 1 ensures r[i].1 < r[i + 1].0 {
          assert r[i] == merged[i];
          if i + 1 < n { assert r[i + 1] == merged[i + 1]; }
        }
      }
    }
  }

  /** The merge of a sorted list is sorted, and its intervals are strictly apart. */
  lemma {:induction false} MergeSortedApart(xs: seq<Minutes>)
    requires Lexed(xs)
    ensures MergeInvariant(Merge(xs), xs)
  {
    if xs != [] {
      var init := xs[..|xs| - 1];
      assert Lexed(init);
      MergeSortedApart(init);
      if init != [] {
        assert LexLe(init[|init| - 1], xs[|xs| - 1]);
      }
      MergeStepInvariant(Merge(init), init, xs[|xs| - 1]);
      assert init + [xs[|xs| - 1]] == xs;
    }
  }

  /** Merging intervals that are already apart changes nothing. */
  lemma {:induction false} MergeOfSeparated(xs: seq<Minutes>)
    requires Separated(xs)
    ensures Merge(xs) == xs
  {
    if xs != [] {
      var init := xs[..|xs| - 1];
      assert Separated(init);
      MergeOfSeparated(init);
      assert init + [xs[|xs| - 1]] == xs;
    }
  }

  /** The merge of a sorted list covers exactly the points its intervals cover. */
  lemma {:induction false} MergeCovers(xs: seq<Minutes>, p: int)
    requires Lexed(xs)
    ensures Covers(Merge(xs), p) <==> Covers(xs, p)
  {
    if xs != [] {
      var init := xs[..|xs| - 1];
      var x := xs[|xs| - 1];
      assert Lexed(init);
      MergeCovers(init, p);
      MergeSortedApart(init);
      var m := Merge(init);
      if m != [] {
        assert LexLe(m[|m| - 1], init[|init| - 1]) && LexLe(init[|init| - 1], x);
      }
      MergeStepCovers(m, x, p);
      CoversSnoc(init, x, p);
      assert xs == init + [x];
    }
  }

  /** One merge step covers what the merged list and the new interval cover, when the new one starts no earlier than the last. */
  lemma MergeStepCovers(m: seq<Minutes>, x: Minutes, p: int)
    requires m != [] ==> m[|m| - 1].0 <= x.0
    ensures Covers(MergeStep(m, x), p) <==> Covers(m, p) || x.0 <= p <= x.1
  {
    if m == [] || x.0 > m[|m| - 1].1 {
      CoversSnoc(m, x, p);
    } else {
      var last := m[|m| - 1];
      var front := m[..|m| - 1];
      assert m == front + [last];
      CoversSnoc(front, last, p);
      if x.1 > last.1 {
        CoversSnoc(front, (last.0, x.1), p);
      } else if x.0 <= p <= x.1 {
        assert m[|m| - 1].0 <= p <= m[|m| - 1].1;
      }
    }
  }

  lemma CoversSnoc(xs: seq<Minutes>, x: Minutes, p: int)
    ensures Covers(xs + [x], p) <==> Covers(xs, p) || x.0 <= p <= x.1
  {
    var ys := xs + [x];
    if Covers(xs, p) {
      var i :| 0 <= i < |xs| && xs[i].0 <= p <= xs[i].1;
      assert ys[i] == xs[i];
    }
    if Covers(ys, p) {
      var i :| 0 <= i < |ys| && ys[i].0 <= p <= ys[i].1;
      if i < |xs| { assert ys[i] == xs[i]; }
    }
    if x.0 <= p <= x.1 {
      assert ys[|xs|] == x;
    }
  }

  /** Every end point of the merge is an end point of its input. */
  lemma {:induction false} MergeEnds(xs: seq<Minutes>, i: int)
    requires 0 <= i < |Merge(xs)|
    ensures exists j :: 0 <= j < |xs| && Merge(xs)[i].0 == xs[j].0
    ensures exists j :: 0 <= j < |xs| && Merge(xs)[i].1 == xs[j].1
  {
    var init := xs[..|xs| - 1];
    var x := xs[|xs| - 1];
    var m := Merge(init);
    var r := Merge(xs);
    assert r == MergeStep(m, x);
    if i < |m| && r[i] == m[i] {
      MergeEnds(init, i);
      var j :| 0 <= j < |init| && m[i].0 == init[j].0;
      var k :| 0 <= k < |init| && m[i].1 == init[k].1;
      assert init[j] == xs[j] && init[k] == xs[k];
    } else if i == |m| {
      assert r[i] == x;
    } else {
      assert i == |m| - 1 && r[i] == (m[i].0, x.1);
      MergeEnds(init, i);
      var j :| 0 <= j < |init| && m[i].0 == init[j].0;
      assert init[j] == xs[j];
    }
  }

  /** `[(to_minutes(s), to_minutes(e)) for s, e in intervals]`; None where a conversion raises. */
  function ToMinuteSpans(spans: seq<Span>): (r: Option<seq<Minutes>>)
    ensures r.Some? ==> |r.value| == |spans|
  {
    if spans == [] then Some([])
    else
      var init := ToMinuteSpans(spans[..|spans| - 1]);
      var last := spans[|spans| - 1];
      var s := ToMinutes(last.0);
      var e := ToMinutes(last.1);
      if init.None? || s.None? || e.None? then None else Some(init.value + [(s.value, e.value)])
  }

  /** Each converted pair is the conversion of the pair at the same place. */
  lemma {:induction false} ToMinuteSpansAt(spans: seq<Span>, i: int)
    requires ToMinuteSpans(spans).Some? && 0 <= i < |spans|
    ensures ToMinutes(spans[i].0) == Some(ToMinuteSpans(spans).value[i].0)
    ensures ToMinutes(spans[i].1) == Some(ToMinuteSpans(spans).value[i].1)
  {
    var init := spans[..|spans| - 1];
    var last := spans[|spans| - 1];
    var front := ToMinuteSpans(init).value;
    assert ToMinuteSpans(spans).value == front + [(ToMinutes(last.0).value, ToMinutes(last.1).value)];
    if i < |init| {
      ToMinuteSpansAt(init, i);
      assert spans[i] == init[i];
    }
    Sequences.SnocAt(front, (ToMinutes(last.0).value, ToMinutes(last.1).value), i);
  }

  /** Both ends of the interval convert. */
  predicate SpanConverts(sp: Span) {
    ToMinutes(sp.0).Some? && ToMinutes(sp.1).Some?
  }

  function SpanMinutes(sp: Span): Option<Minutes> {
    if SpanConverts(sp) then Some((ToMinutes(sp.0).value, ToMinutes(sp.1).value)) else None
  }

  /** The conversion succeeds exactly when every interval converts, and is then the list of their conversions. */
  lemma {:induction false} ToMinuteSpansFlat(spans: seq<Span>)
    ensures ToMinuteSpans(spans).Some? <==> AllSpansConvert(spans)
    ensures ToMinuteSpans(spans).Some? ==> ToMinuteSpans(spans).value == FlatMap(spans, Keep(SpanMinutes))
  {
    if spans != [] {
      var n := |spans| - 1;
      var init := spans[..n];
      var last := spans[n];
      ToMinuteSpansFlat(init);
      AllSpansConvertSnoc(init, last);
      assert spans == init + [last];
      FlatMapSnoc(init, last, Keep(SpanMinutes));
      assert ToMinuteSpans(spans) == if ToMinuteSpans(init).None? || !SpanConverts(last) then None
        else Some(ToMinuteSpans(init).value + [SpanMinutes(last).value]);
    }
  }

  predicate AllSpansConvert(spans: seq<Span>) {
    forall i :: 0 <= i < |spans| ==> SpanConverts(spans[i])
  }

  lemma AllSpansConvertSnoc(init: seq<Span>, last: Span)
    ensures AllSpansConvert(init + [last]) <==> AllSpansConvert(init) && SpanConverts(last)
  {
    var spans := init + [last];
    assert forall i :: 0 <= i < |init| ==> spans[i] == init[i];
    assert spans[|init|] == last;
  }

  /** `_merge_intervals` depends only on the multiset of its input intervals. */
  lemma MergeIntervalsPermutation(xs: seq<Span>, ys: seq<Span>)
    requires multiset(xs) == multiset(ys)
    ensures MergeIntervals(xs) == MergeIntervals(ys)
  {
    assert |xs| == |multiset(xs)| == |ys|;
    ToMinuteSpansFlat(xs);
    ToMinuteSpansFlat(ys);
    AllSpansConvertPermutation(xs, ys);
    if xs != [] && ToMinuteSpans(xs).Some? && ToMinuteSpans(ys).Some? {
      var nx := ToMinuteSpans(xs).value;
      var ny := ToMinuteSpans(ys).value;
      FlatMapPermutation(xs, ys, Keep(SpanMinutes));
      LexLeOrder();
      SortPermutationInvariant(nx, ny, LexLe);
    }
  }

  lemma AllSpansConvertPermutation(xs: seq<Span>, ys: seq<Span>)
    requires multiset(xs) == multiset(ys)
    ensures AllSpansConvert(xs) <==> AllSpansConvert(ys)
  {
    forall i | 0 <= i < |xs| ensures exists j :: 0 <= j < |ys| && ys[j] == xs[i] {
      assert xs[i] in multiset(ys);
    }
    forall i | 0 <= i < |ys| ensures exists j :: 0 <= j < |xs| && xs[j] == ys[i] {
      assert ys[i] in multiset(xs);
    }
  }

  /** `[(to_str(s), to_str(e)) for s, e in merged]`. */
  function ToSpans(xs: seq<Minutes>): (r: seq<Span>)
    ensures |r| == |xs|
  {
    if xs == [] then [] else ToSpans(xs[..|xs| - 1]) + [SpanText(xs[|xs| - 1])]
  }

  /** `(to_str(s), to_str(e))`. */
  function SpanText(x: Minutes): Span {
    (ToStr(x.0), ToStr(x.1))
  }

  /** Each text pair is the clock text of the minutes at the same place. */
  lemma {:induction false} ToSpansAt(xs: seq<Minutes>, i: int)
    requires 0 <= i < |xs|
    ensures ToSpans(xs)[i] == SpanText(xs[i])
  {
    var n := |xs| - 1;
    if i < n {
      ToSpansAt(xs[..n], i);
      ToSpansFront(xs, i);
    } else {
      ToSpansLast(xs);
    }
  }

  lemma ToSpansFront(xs: seq<Minutes>, i: int)
    requires 0 <= i < |xs| - 1
    ensures ToSpans(xs)[i] == ToSpans(xs[..|xs| - 1])[i] && xs[..|xs| - 1][i] == xs[i]
  {
    ToSpansSnoc(xs);
    Sequences.SnocAt(ToSpans(xs[..|xs| - 1]), SpanText(xs[|xs| - 1]), i);
  }

  lemma ToSpansLast(xs: seq<Minutes>)
    requires xs != []
    ensures ToSpans(xs)[|xs| - 1] == SpanText(xs[|xs| - 1])
  {
    ToSpansSnoc(xs);
    Sequences.SnocAt(ToSpans(xs[..|xs| - 1]), SpanText(xs[|xs| - 1]), |xs| - 1);
  }

  lemma ToSpansSnoc(xs: seq<Minutes>)
    requires xs != []
    ensures ToSpans(xs) == ToSpans(xs[..|xs| - 1]) + [SpanText(xs[|xs| - 1])]
  {
  }

  /** A clock text below 100 hours has five characters, none of them blank or `-`. */
  lemma ClockTextShape(m: int)
    requires InClock(m)
    ensures |ToStr(m)| == 5 && '-' !in ToStr(m)
    ensures forall i :: 0 <= i < 5 ==> !IsSpace(ToStr(m)[i])
  {
    ClockRoundTrip(m);
  }

  /** `_merge_intervals(intervals)`: None where a time does not convert (the source raises). */
  function MergeIntervals(spans: seq<Span>): Option<seq<Span>> {
    if spans == [] then Some([])
    else
      var nums := ToMinuteSpans(spans);
      if nums.None? then None else Some(ToSpans(Merge(Sort(nums.value, LexLe))))
  }

  /** The loop of `_merge_intervals`, extending the last interval in place. */
  method MergeSortedLoop(sorted: seq<Minutes>) returns (merged: seq<Minutes>)
    ensures merged == Merge(sorted)
  {
    merged := [];
    var i := 0;
    while i < |sorted|
      invariant 0 <= i <= |sorted|
      invariant merged == Merge(sorted[..i])
    {
      var (s, e) := sorted[i];
      assert sorted[..i + 1][..i] == sorted[..i];
      assert Merge(sorted[..i + 1]) == MergeStep(merged, sorted[i]);
      if merged == [] || s > merged[|merged| - 1].1 {
        merged := merged + [(s, e)];
      } else if e > merged[|merged| - 1].1 {
        var n := |merged| - 1;
        assert merged[n := (merged[n].0, e)] == merged[..n] + [(merged[n].0, e)];
        merged := merged[n := (merged[n].0, e)];
      }
      i := i + 1;
    }
    assert sorted[..i] == sorted;
  }

  /** `_merge_intervals(intervals)`, with the merge loop. */
  method MergeIntervalsLoop(spans: seq<Span>) returns (r: Option<seq<Span>>)
    ensures r == MergeIntervals(spans)
  {
    if spans == [] {
      return Some([]);
    }
    var nums := ToMinuteSpans(spans);
    if nums.None? {
      return None;
    }
    var merged := MergeSortedLoop(Sort(nums.value, LexLe));
    return Some(ToSpans(merged));
  }

  /** Every time converts and lies below 100 hours. */
  predicate SpansInClock(spans: seq<Span>) {
    forall i :: 0 <= i < |spans| ==>
      && ToMinutes(spans[i].0).Some? && InClock(ToMinutes(spans[i].0).value)
      && ToMinutes(spans[i].1).Some? && InClock(ToMinutes(spans[i].1).value)
  }

  /**
   * The merged intervals, read back as minutes, are sorted, strictly apart, and
   * cover exactly the minutes the input intervals cover.
   */
  lemma MergeIntervalsSpec(spans: seq<Span>, p: int)
    requires MergeIntervals(spans).Some? && spans != []
    ensures var nums := ToMinuteSpans(spans).value;
      var merged := Merge(Sort(nums, LexLe));
      && MergeIntervals(spans).value == ToSpans(merged)
      && Lexed(merged) && Separated(merged)
      && (Covers(merged, p) <==> Covers(nums, p))
  {
    var nums := ToMinuteSpans(spans).value;
    var sorted := Sort(nums, LexLe);
    LexLeOrder();
    SortIsSorted(nums, LexLe);
    MergeSortedApart(sorted);
    MergeCovers(sorted, p);
    CoversPermutation(sorted, nums, p);
  }

  /** Covering depends only on the multiset of intervals. */
  lemma CoversPermutation(xs: seq<Minutes>, ys: seq<Minutes>, p: int)
    requires multiset(xs) == multiset(ys)
    ensures Covers(xs, p) <==> Covers(ys, p)
  {
    if Covers(xs, p) {
      var i :| 0 <= i < |xs| && xs[i].0 <= p <= xs[i].1;
      assert xs[i] in multiset(ys);
      var j :| 0 <= j < |ys| && ys[j] == xs[i];
    }
    if Covers(ys, p) {
      var i :| 0 <= i < |ys| && ys[i].0 <= p <= ys[i].1;
      assert ys[i] in multiset(xs);
      var j :| 0 <= j < |xs| && xs[j] == ys[i];
    }
  }

  /** The merged texts of intervals below 100 hours read back as the merged minutes. */
  lemma {:induction false} ToSpansRoundTrip(xs: seq<Minutes>)
    requires forall i :: 0 <= i < |xs| ==> InClock(xs[i].0) && InClock(xs[i].1)
    ensures ToMinuteSpans(ToSpans(xs)) == Some(xs)
  {
    if xs != [] {
      var init := xs[..|xs| - 1];
      var x := xs[|xs| - 1];
      assert init + [x] == xs;
      var texts := ToSpans(xs);
      var last := (ToStr(x.0), ToStr(x.1));
      assert texts == ToSpans(init) + [last];
      assert texts[..|texts| - 1] == ToSpans(init);
      assert texts[|texts| - 1] == last;
      ToSpansRoundTrip(init);
      ClockRoundTrip(x.0);
      ClockRoundTrip(x.1);
    }
  }

  /**
   * Merging is idempotent on intervals below 100 hours: the merged list, merged
   * again, is the same list.
   */
  lemma MergeIntervalsIdempotent(spans: seq<Span>)
    requires SpansInClock(spans)
    ensures MergeIntervals(spans).Some?
    ensures MergeIntervals(MergeIntervals(spans).value) == MergeIntervals(spans)
  {
    if spans != [] {
      AllConvert(spans);
      var nums := ToMinuteSpans(spans).value;
      var sorted := Sort(nums, LexLe);
      var merged := Merge(sorted);
      LexLeOrder();
      SortIsSorted(nums, LexLe);
      MergeSortedApart(sorted);
      MergedInClock(spans, sorted);
      ToSpansRoundTrip(merged);
      SortOfSorted(merged, LexLe);
      MergeOfSeparated(merged);
      assert MergeIntervals(spans).value == ToSpans(merged);
    }
  }

  /** The merged intervals of times below 100 hours stay below 100 hours. */
  lemma MergedInClock(spans: seq<Span>, sorted: seq<Minutes>)
    requires SpansInClock(spans) && ToMinuteSpans(spans).Some?
    requires multiset(sorted) == multiset(ToMinuteSpans(spans).value)
    ensures forall i :: 0 <= i < |Merge(sorted)| ==> InClock(Merge(sorted)[i].0) && InClock(Merge(sorted)[i].1)
  {
    var nums := ToMinuteSpans(spans).value;
    var merged := Merge(sorted);
    forall i | 0 <= i < |merged| ensures InClock(merged[i].0) && InClock(merged[i].1) {
      MergeEnds(sorted, i);
      var j :| 0 <= j < |sorted| && merged[i].0 == sorted[j].0;
      var k :| 0 <= k < |sorted| && merged[i].1 == sorted[k].1;
      SortedMember(nums, sorted, j);
      SortedMember(nums, sorted, k);
      var j' :| 0 <= j' < |nums| && nums[j'] == sorted[j];
      var k' :| 0 <= k' < |nums| && nums[k'] == sorted[k];
      ToMinuteSpansAt(spans, j');
      ToMinuteSpansAt(spans, k');
    }
  }

  lemma SortedMember(nums: seq<Minutes>, sorted: seq<Minutes>, j: int)
    requires multiset(sorted) == multiset(nums) && 0 <= j < |sorted|
    ensures exists k :: 0 <= k < |nums| && nums[k] == sorted[j]
  {
    assert sorted[j] in multiset(nums);
  }

  /** Intervals whose times all convert convert as a list. */
  lemma {:induction false} AllConvert(spans: seq<Span>)
    requires forall i :: 0 <= i < |spans| ==> ToMinutes(spans[i].0).Some? && ToMinutes(spans[i].1).Some?
    ensures ToMinuteSpans(spans).Some?
  {
    if spans != [] {
      AllConvert(spans[..|spans| - 1]);
    }
  }
}
