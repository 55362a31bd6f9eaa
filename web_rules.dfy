/**
 * `_merge_rules` of the web panel (web_app.py): rule strings `<prefix> HH:MM-HH:MM`
 * are parsed, grouped by prefix in the order the prefixes first appear, each
 * group's intervals merged, and the merged rules written back and sorted.
 */
module WebRules {
  import opened Options
  import opened PyText
  import opened Sorting
  import opened Sequences
  import opened WebIntervals
  import StoredRules

  /** A parsed rule: its lower-cased prefix and its two five-character ends. */
  type Triple = (string, string, string)

  /** The parsed rules, unparsable ones dropped, in input order. */
  function Parsed(rules: seq<string>): seq<Triple> {
    FlatMap(rules, Keep(ParseRule))
  }

  /** The keys of `grouped`: the prefixes in the order they first appear (a dict keeps insertion order). */
  function Prefixes(ps: seq<Triple>): (r: seq<string>)
    ensures Distinct(r)
  {
    if ps == [] then []
    else
      var init := Prefixes(ps[..|ps| - 1]);
      var p := ps[|ps| - 1].0;
      if p in init then init else init + [p]
  }

  /** The interval of a parsed rule whose prefix is `p`. */
  function Pick(p: string): Triple -> Option<Span> {
    (t: Triple) => if t.0 == p then Some((t.1, t.2)) else None
  }

  /** `grouped[p]`: the intervals of the rules with prefix `p`, in input order. */
  function Group(ps: seq<Triple>, p: string): seq<Span> {
    FlatMap(ps, Keep(Pick(p)))
  }

  function Formatter(p: string): Span -> seq<string> {
    (sp: Span) => [Format(p, sp)]
  }

  /** The rules `_merge_rules` writes for prefix `p`: its merged intervals, formatted. */
  function BlockFor(ps: seq<Triple>, p: string): seq<string> {
    var m := MergeIntervals(Group(ps, p)); if m.Some? then FlatMap(m.value, Formatter(p)) else []
  }

  function Block(ps: seq<Triple>): string -> seq<string> {
    (p: string) => BlockFor(ps, p)
  }

  /** Every group's times convert to minutes. */
  predicate Converts(ps: seq<Triple>) {
    forall i :: 0 <= i < |Prefixes(ps)| ==> MergeIntervals(Group(ps, Prefixes(ps)[i])).Some?
  }

  /** `_merge_rules(rules)`; None where a time does not convert (the source raises ValueError). */
  function MergeRules(rules: seq<string>): Option<seq<string>> {
    var ps := Parsed(rules);
    if Converts(ps) then Some(Sort(FlatMap(Prefixes(ps), Block(ps)), StrLe)) else None
  }

  // ---------------- the loops of _merge_rules ----------------

  /** `grouped` and its key order after the rules in `ps`. */
  ghost predicate GroupedBy(grouped: map<string, seq<Span>>, order: seq<string>, ps: seq<Triple>) {
    && order == Prefixes(ps)
    && (forall p :: p in grouped <==> p in order)
    && (forall p :: p in grouped ==> grouped[p] == Group(ps, p))
  }

  lemma GroupedStep(grouped: map<string, seq<Span>>, order: seq<string>, ps: seq<Triple>, t: Triple)
    requires GroupedBy(grouped, order, ps)
    ensures t.0 in grouped ==> GroupedBy(grouped[t.0 := grouped[t.0] + [(t.1, t.2)]], order, ps + [t])
    ensures t.0 !in grouped ==> GroupedBy(grouped[t.0 := [(t.1, t.2)]], order + [t.0], ps + [t])
  {
    var qs := ps + [t];
    assert qs[..|qs| - 1] == ps;
    PrefixHasGroup(ps, t.0);
    forall p ensures Group(qs, p) == Group(ps, p) + Keep(Pick(p))(t) {
      FlatMapSnoc(ps, t, Keep(Pick(p)));
    }
  }

  /** `_merge_rules(rules)` with its grouping loop and its output loop. */
  method MergeRulesLoop(rules: seq<string>) returns (r: Option<seq<string>>)
    ensures r == MergeRules(rules)
  {
    var grouped, order := GroupRules(rules);
    var out := EmitRules(grouped, order, Parsed(rules));
    if out.None? {
      return None;
    }
    return Some(Sort(out.value, StrLe));
  }

  /** The first `j` groups of `order` convert to minutes. */
  ghost predicate ConvertsUpTo(ps: seq<Triple>, order: seq<string>, j: int) {
    forall k :: 0 <= k < j && k < |order| ==> MergeIntervals(Group(ps, order[k])).Some?
  }

  lemma ConvertsUpToStep(ps: seq<Triple>, order: seq<string>, j: int)
    requires ConvertsUpTo(ps, order, j) && 0 <= j < |order| && MergeIntervals(Group(ps, order[j])).Some?
    ensures ConvertsUpTo(ps, order, j + 1)
  {
  }

  /** The output loop: the merged intervals of every group, formatted, group by group. */
  method EmitRules(grouped: map<string, seq<Span>>, order: seq<string>, ghost ps: seq<Triple>) returns (r: Option<seq<string>>)
    requires GroupedBy(grouped, order, ps)
    ensures r.Some? <==> Converts(ps)
    ensures r.Some? ==> r.value == FlatMap(Prefixes(ps), Block(ps))
  {
    var out: seq<string> := [];
    var j := 0;
    while j < |order|
      invariant 0 <= j <= |order|
      invariant out == FlatMap(order[..j], Block(ps))
      invariant ConvertsUpTo(ps, order, j)
    {
      var p := order[j];
      PrefixSnoc(order, j);
      FlatMapSnoc(order[..j], p, Block(ps));
      assert grouped[p] == Group(ps, p);
      var m := MergeIntervalsLoop(grouped[p]);
      if m.None? {
        assert Prefixes(ps)[j] == p;
        return None;
      }
      BlockOf(ps, p, m.value);
      ConvertsUpToStep(ps, order, j);
      out := AppendFormatted(out, p, m.value);
      j := j + 1;
    }
    assert order[..j] == order;
    return Some(out);
  }

  lemma BlockOf(ps: seq<Triple>, p: string, merged: seq<Span>)
    requires MergeIntervals(Group(ps, p)) == Some(merged)
    ensures Block(ps)(p) == FlatMap(merged, Formatter(p))
  {
  }

  /** The grouping loop: `grouped.setdefault(prefix, []).append((s, e))` for every rule that parses. */
  method GroupRules(rules: seq<string>) returns (grouped: map<string, seq<Span>>, order: seq<string>)
    ensures GroupedBy(grouped, order, Parsed(rules))
  {
    grouped := map[];
    order := [];
    var i := 0;
    while i < |rules|
      invariant 0 <= i <= |rules|
      invariant GroupedBy(grouped, order, Parsed(rules[..i]))
    {
      ghost var ps := Parsed(rules[..i]);
      var parsed := ParseRule(rules[i]);
      ParsedSnoc(rules, i, parsed);
      if parsed.Some? {
        var (p, s, e) := parsed.value;
        GroupedStep(grouped, order, ps, (p, s, e));
        if p !in grouped {
          order := order + [p];
          grouped := grouped[p := [(s, e)]];
        } else {
          grouped := grouped[p := grouped[p] + [(s, e)]];
        }
      }
      i := i + 1;
    }
    assert rules[..i] == rules;
  }

  lemma ParsedSnoc(rules: seq<string>, i: int, parsed: Option<Triple>)
    requires 0 <= i < |rules| && parsed == ParseRule(rules[i])
    ensures parsed.Some? ==> Parsed(rules[..i + 1]) == Parsed(rules[..i]) + [parsed.value]
    ensures parsed.None? ==> Parsed(rules[..i + 1]) == Parsed(rules[..i])
  {
    PrefixSnoc(rules, i);
    FlatMapSnoc(rules[..i], rules[i], Keep(ParseRule));
  }

  /** The inner output loop: `merged_rules.append(f"{prefix} {s}-{e}")` for every merged interval. */
  method AppendFormatted(out: seq<string>, p: string, merged: seq<Span>) returns (r: seq<string>)
    ensures r == out + FlatMap(merged, Formatter(p))
  {
    r := out;
    var k := 0;
    while k < |merged|
      invariant 0 <= k <= |merged|
      invariant r == out + FlatMap(merged[..k], Formatter(p))
    {
      PrefixSnoc(merged, k);
      FlatMapSnoc(merged[..k], merged[k], Formatter(p));
      r := r + [Format(p, merged[k])];
      k := k + 1;
    }
    assert merged[..k] == merged;
  }

  // ---------------- what the merged rules are ----------------

  lemma {:induction false} PrefixesMembers(ps: seq<Triple>, p: string)
    ensures p in Prefixes(ps) <==> exists i :: 0 <= i < |ps| && ps[i].0 == p
  {
    if ps != [] {
      var n := |ps| - 1;
      var init := ps[..n];
      PrefixesMembers(init, p);
      assert forall i :: 0 <= i < n ==> init[i] == ps[i];
    }
  }

  /** A prefix is a key of `grouped` exactly when its group is non-empty. */
  lemma PrefixHasGroup(ps: seq<Triple>, p: string)
    ensures p in Prefixes(ps) <==> Group(ps, p) != []
  {
    PrefixesMembers(ps, p);
    if p in Prefixes(ps) {
      var i :| 0 <= i < |ps| && ps[i].0 == p;
      FlatMapMember(ps, Keep(Pick(p)), (ps[i].1, ps[i].2));
    }
    if Group(ps, p) != [] {
      FlatMapMember(ps, Keep(Pick(p)), Group(ps, p)[0]);
    }
  }

  /** An interval of a group is the interval of a parsed rule with that prefix. */
  lemma GroupMember(ps: seq<Triple>, p: string, k: int)
    requires 0 <= k < |Group(ps, p)|
    ensures exists i :: 0 <= i < |ps| && ps[i] == (p, Group(ps, p)[k].0, Group(ps, p)[k].1)
  {
    FlatMapMember(ps, Keep(Pick(p)), Group(ps, p)[k]);
  }

  /** A parsed rule comes from a rule that parses to it; its prefix is a lower-cased word. */
  lemma ParsedMember(rules: seq<string>, i: int)
    requires 0 <= i < |Parsed(rules)|
    ensures exists j :: 0 <= j < |rules| && ParseRule(rules[j]) == Some(Parsed(rules)[i])
    ensures IsWord(Parsed(rules)[i].0) && Lower(Parsed(rules)[i].0) == Parsed(rules)[i].0
  {
    FlatMapMember(rules, Keep(ParseRule), Parsed(rules)[i]);
    var j :| 0 <= j < |rules| && Parsed(rules)[i] in Keep(ParseRule)(rules[j]);
    ParseRuleShape(rules[j]);
  }

  /**
   * The merged rules, sorted: a sorted permutation of the formatted merged
   * intervals of each prefix's group.
   */
  lemma MergeRulesSpec(rules: seq<string>)
    requires MergeRules(rules).Some?
    ensures var ps := Parsed(rules);
      && SortedBy(MergeRules(rules).value, StrLe)
      && multiset(MergeRules(rules).value) == multiset(FlatMap(Prefixes(ps), Block(ps)))
  {
    StoredRules.StrLeOrder();
    SortIsSorted(FlatMap(Prefixes(Parsed(rules)), Block(Parsed(rules))), StrLe);
  }

  /** A rule `_parse_rule` refuses is dropped: removing it changes nothing. */
  lemma UnparsableDropped(rules: seq<string>, i: int)
    requires 0 <= i < |rules| && ParseRule(rules[i]).None?
    ensures MergeRules(RemoveAt(rules, i)) == MergeRules(rules)
  {
    FlatMapDrop(rules, i, Keep(ParseRule));
  }

  // ---------------- idempotence ----------------

  /** Both ends of a parsed rule convert and lie below 100 hours. */
  predicate ClockTriple(t: Triple) {
    && ToMinutes(t.1).Some? && InClock(ToMinutes(t.1).value)
    && ToMinutes(t.2).Some? && InClock(ToMinutes(t.2).value)
  }

  /** Every rule that parses has times below 100 hours (`HH:MM` with two-digit hours). */
  predicate RulesInClock(rules: seq<string>) {
    forall i :: 0 <= i < |Parsed(rules)| ==> ClockTriple(Parsed(rules)[i])
  }

  /** The shape `Format` needs for `_parse_rule` to read a merged interval back. */
  predicate TextSpan(sp: Span) {
    && |sp.0| == 5 && |sp.1| == 5 && '-' !in sp.0
    && forall i :: 0 <= i < 5 ==> !IsSpace(sp.0[i]) && !IsSpace(sp.1[i])
  }

  lemma GroupInClock(ps: seq<Triple>, p: string)
    requires forall i :: 0 <= i < |ps| ==> ClockTriple(ps[i])
    ensures SpansInClock(Group(ps, p))
  {
    forall k | 0 <= k < |Group(ps, p)|
      ensures ToMinutes(Group(ps, p)[k].0).Some? && InClock(ToMinutes(Group(ps, p)[k].0).value)
      ensures ToMinutes(Group(ps, p)[k].1).Some? && InClock(ToMinutes(Group(ps, p)[k].1).value)
    {
      GroupMember(ps, p, k);
    }
  }

  /**
   * A group of times below 100 hours merges into well-formed clock texts that
   * merge to themselves, and into nothing only when the group is empty.
   */
  lemma MergedGroup(ps: seq<Triple>, p: string)
    requires forall i :: 0 <= i < |ps| ==> ClockTriple(ps[i])
    ensures MergeIntervals(Group(ps, p)).Some?
    ensures var m := MergeIntervals(Group(ps, p)).value;
      && (m == [] <==> Group(ps, p) == [])
      && (forall k :: 0 <= k < |m| ==> TextSpan(m[k]))
      && MergeIntervals(m) == Some(m)
  {
    var g := Group(ps, p);
    GroupInClock(ps, p);
    MergeIntervalsIdempotent(g);
    if g != [] {
      var nums := ToMinuteSpans(g).value;
      var sorted := Sort(nums, LexLe);
      var merged := Merge(sorted);
      LexLeOrder();
      SortIsSorted(nums, LexLe);
      MergeSortedApart(sorted);
      MergedInClock(g, sorted);
      forall k | 0 <= k < |merged| ensures TextSpan(ToSpans(merged)[k]) {
        ToSpansAt(merged, k);
        ClockTextShape(merged[k].0);
        ClockTextShape(merged[k].1);
      }
    }
  }

  /** The merged intervals of prefix `p`, or nothing where a time does not convert. */
  function Merged(ps: seq<Triple>, p: string): seq<Span> {
    var m := MergeIntervals(Group(ps, p)); if m.Some? then m.value else []
  }

  function Tag(p: string, sp: Span): seq<Triple> {
    [(p, sp.0, sp.1)]
  }

  function Tagger(p: string): Span -> seq<Triple> {
    (sp: Span) => Tag(p, sp)
  }

  /** What `_parse_rule` reads back from the rules written for prefix `p`. */
  function TaggedFor(ps: seq<Triple>, p: string): seq<Triple> {
    var m := MergeIntervals(Group(ps, p)); if m.Some? then FlatMap(m.value, Tagger(p)) else []
  }

  function Tagged(ps: seq<Triple>): string -> seq<Triple> {
    (p: string) => TaggedFor(ps, p)
  }

  /** Formatted clock texts with a lower-cased word prefix parse back to that prefix and those texts. */
  lemma ParseFormatted(p: string, m: seq<Span>)
    requires IsWord(p) && Lower(p) == p
    requires forall k :: 0 <= k < |m| ==> TextSpan(m[k])
    ensures Parsed(FlatMap(m, Formatter(p))) == FlatMap(m, Tagger(p))
  {
    FlatMapCompose(m, Formatter(p), Keep(ParseRule));
    forall k | 0 <= k < |m| ensures Compose(Formatter(p), Keep(ParseRule))(m[k]) == Tagger(p)(m[k]) {
      FlatMapOne(Format(p, m[k]), Keep(ParseRule));
      ParseFormat(p, m[k].0, m[k].1);
    }
    FlatMapCongruence(m, Compose(Formatter(p), Keep(ParseRule)), Tagger(p));
  }

  /** Parsing the merged rules gives, prefix by prefix, the merged intervals tagged with their prefix. */
  lemma ParsedOfMerged(rules: seq<string>)
    requires RulesInClock(rules)
    ensures var ps := Parsed(rules);
      Parsed(FlatMap(Prefixes(ps), Block(ps))) == FlatMap(Prefixes(ps), Tagged(ps))
  {
    var ps := Parsed(rules);
    var pre := Prefixes(ps);
    FlatMapCompose(pre, Block(ps), Keep(ParseRule));
    forall i | 0 <= i < |pre| ensures Compose(Block(ps), Keep(ParseRule))(pre[i]) == Tagged(ps)(pre[i]) {
      var p := pre[i];
      PrefixesMembers(ps, p);
      var j :| 0 <= j < |ps| && ps[j].0 == p;
      ParsedMember(rules, j);
      MergedGroup(ps, p);
      ParseFormatted(p, MergeIntervals(Group(ps, p)).value);
    }
    FlatMapCongruence(pre, Compose(Block(ps), Keep(ParseRule)), Tagged(ps));
  }

  /** The intervals with prefix `p` among those tagged with prefix `q`. */
  lemma TaggedGroup(ps: seq<Triple>, q: string, p: string)
    requires MergeIntervals(Group(ps, q)).Some?
    ensures Group(TaggedFor(ps, q), p) == if q == p then MergeIntervals(Group(ps, q)).value else []
  {
    var m := MergeIntervals(Group(ps, q)).value;
    FlatMapCompose(m, Tagger(q), Keep(Pick(p)));
    var h := Compose(Tagger(q), Keep(Pick(p)));
    forall k | 0 <= k < |m| ensures h(m[k]) == if q == p then [m[k]] else [] {
      FlatMapOne((q, m[k].0, m[k].1), Keep(Pick(p)));
    }
    if q == p {
      FlatMapIdentity(m, h);
    } else {
      FlatMapNothing(m, h);
    }
  }

  /** Grouping the tagged merged intervals by prefix gives back each prefix's merged intervals. */
  lemma GroupOfTagged(ps: seq<Triple>, p: string)
    requires forall i :: 0 <= i < |ps| ==> ClockTriple(ps[i])
    ensures Group(FlatMap(Prefixes(ps), Tagged(ps)), p) == if p in Prefixes(ps) then Merged(ps, p) else []
  {
    var pre := Prefixes(ps);
    FlatMapCompose(pre, Tagged(ps), Keep(Pick(p)));
    var h := Compose(Tagged(ps), Keep(Pick(p)));
    forall i | 0 <= i < |pre| && pre[i] != p ensures h(pre[i]) == [] {
      GroupConverts(ps, pre[i]);
      TaggedGroup(ps, pre[i], p);
    }
    FlatMapSingle(pre, h, p);
    if p in pre {
      GroupConverts(ps, p);
      TaggedGroup(ps, p, p);
    }
  }

  lemma GroupConverts(ps: seq<Triple>, p: string)
    requires forall i :: 0 <= i < |ps| ==> ClockTriple(ps[i])
    ensures MergeIntervals(Group(ps, p)).Some?
  {
    GroupInClock(ps, p);
    MergeIntervalsIdempotent(Group(ps, p));
  }

  /** A list with the multiset of the tagged merged intervals has the same prefixes. */
  lemma SamePrefixes(ps: seq<Triple>, qs: seq<Triple>, p: string)
    requires forall i :: 0 <= i < |ps| ==> ClockTriple(ps[i])
    requires multiset(qs) == multiset(FlatMap(Prefixes(ps), Tagged(ps)))
    ensures p in Prefixes(qs) <==> p in Prefixes(ps)
  {
    var t := FlatMap(Prefixes(ps), Tagged(ps));
    FlatMapPermutation(qs, t, Keep(Pick(p)));
    GroupOfTagged(ps, p);
    PrefixHasGroup(qs, p);
    PrefixHasGroup(ps, p);
    MergedGroup(ps, p);
    assert |Group(qs, p)| == |multiset(Group(qs, p))| == |multiset(Group(t, p))| == |Group(t, p)|;
  }

  /** ... and each of its groups merges to the merged intervals of the same prefix. */
  lemma SameBlock(ps: seq<Triple>, qs: seq<Triple>, p: string)
    requires forall i :: 0 <= i < |ps| ==> ClockTriple(ps[i])
    requires multiset(qs) == multiset(FlatMap(Prefixes(ps), Tagged(ps)))
    requires p in Prefixes(ps)
    ensures MergeIntervals(Group(qs, p)).Some? && BlockFor(qs, p) == BlockFor(ps, p)
  {
    var t := FlatMap(Prefixes(ps), Tagged(ps));
    FlatMapPermutation(qs, t, Keep(Pick(p)));
    GroupOfTagged(ps, p);
    MergeIntervalsPermutation(Group(qs, p), Group(t, p));
    MergedGroup(ps, p);
  }

  /**
   * `_merge_rules` is idempotent on rules whose times lie below 100 hours:
   * merging the merged rules again gives the same list.
   */
  lemma MergeRulesIdempotent(rules: seq<string>)
    requires RulesInClock(rules)
    ensures MergeRules(rules).Some?
    ensures MergeRules(MergeRules(rules).value) == MergeRules(rules)
  {
    var ps := Parsed(rules);
    var pre := Prefixes(ps);
    forall i | 0 <= i < |pre| ensures MergeIntervals(Group(ps, pre[i])).Some? {
      MergedGroup(ps, pre[i]);
    }
    var f := FlatMap(pre, Block(ps));
    var merged := Sort(f, StrLe);
    assert MergeRules(rules) == Some(merged);
    var qs := Parsed(merged);
    var pre2 := Prefixes(qs);
    FlatMapPermutation(merged, f, Keep(ParseRule));
    ParsedOfMerged(rules);
    forall p ensures p in pre2 <==> p in pre {
      SamePrefixes(ps, qs, p);
    }
    forall p | p in pre ensures MergeIntervals(Group(qs, p)).Some? && BlockFor(qs, p) == BlockFor(ps, p) {
      SameBlock(ps, qs, p);
    }
    DistinctSameElements(pre2, pre);
    assert Converts(qs);
    FlatMapCongruence(pre2, Block(qs), Block(ps));
    FlatMapPermutation(pre2, pre, Block(ps));
    StoredRules.StrLeOrder();
    SortPermutationInvariant(FlatMap(pre2, Block(qs)), f, StrLe);
  }

  /**
   * Past 99:59 merging is not idempotent: `99:99` reads as 6039 minutes and is
   * written back as `100:39`, whose six characters `_parse_rule` refuses, so a
   * second merge drops the rule.
   */
  lemma MergeRulesPastClock(p: string)
    requires IsWord(p) && Lower(p) == p
    ensures MergeRules([Format(p, ("99:99", "99:99"))]) == Some([Format(p, ("100:39", "100:39"))])
    ensures MergeRules([Format(p, ("100:39", "100:39"))]) == Some([])
  {
    FirstMergePastClock(p);
    SecondMergePastClock(p);
  }

  lemma FirstMergePastClock(p: string)
    requires IsWord(p) && Lower(p) == p
    ensures MergeRules([Format(p, ("99:99", "99:99"))]) == Some([Format(p, ("100:39", "100:39"))])
  {
    var t := (p, "99:99", "99:99");
    var out := Format(p, ("100:39", "100:39"));
    ParsedPastClock(p);
    PrefixesOne(t);
    BlockPastClock(p);
    FlatMapOne(p, Block([t]));
    assert Converts([t]);
    assert Sort([out], StrLe) == [out];
  }

  lemma SecondMergePastClock(p: string)
    requires IsWord(p)
    ensures MergeRules([Format(p, ("100:39", "100:39"))]) == Some([])
  {
    var out := Format(p, ("100:39", "100:39"));
    OverlongRefused(p);
    FlatMapOne(out, Keep(ParseRule));
    assert Parsed([out]) == [];
  }

  lemma ParsedPastClock(p: string)
    requires IsWord(p) && Lower(p) == p
    ensures Parsed([Format(p, ("99:99", "99:99"))]) == [(p, "99:99", "99:99")]
  {
    ParseFormat(p, "99:99", "99:99");
    FlatMapOne(Format(p, ("99:99", "99:99")), Keep(ParseRule));
  }

  lemma PrefixesOne(t: Triple)
    ensures Prefixes([t]) == [t.0]
  {
    assert [t][..0] == [];
  }

  lemma BlockPastClock(p: string)
    ensures BlockFor([(p, "99:99", "99:99")], p) == [Format(p, ("100:39", "100:39"))]
  {
    var t := (p, "99:99", "99:99");
    FlatMapOne(t, Keep(Pick(p)));
    assert Group([t], p) == [("99:99", "99:99")];
    MergedPastClock();
    FlatMapOne(("100:39", "100:39"), Formatter(p));
  }

  lemma MergedPastClock()
    ensures MergeIntervals([("99:99", "99:99")]) == Some([("100:39", "100:39")])
  {
    var g := [("99:99", "99:99")];
    NinetyNine();
    assert g[..0] == [];
    var x: (int, int) := (6039, 6039);
    var xs: seq<(int, int)> := [x];
    OneSpanMinutes(g[0]);
    assert Sort([x], LexLe) == [x];
    assert xs[..0] == [];
    assert Merge([x]) == [x];
    HundredThirtyNine();
    assert ToSpans([x]) == [("100:39", "100:39")];
  }

  lemma OneSpanMinutes(sp: Span)
    requires ToMinutes(sp.0).Some? && ToMinutes(sp.1).Some?
    ensures ToMinuteSpans([sp]) == Some([(ToMinutes(sp.0).value, ToMinutes(sp.1).value)])
  {
    var m := (ToMinutes(sp.0).value, ToMinutes(sp.1).value);
    assert [sp][..0] == [];
    assert ToMinuteSpans([]) == Some([]);
    assert [] + [m] == [m];
  }

  lemma NinetyNine()
    ensures ToMinutes("99:99") == Some(6039)
  {
    assert Slice("99:99", 0, 2) == "99" && Slice("99:99", 3, 5) == "99";
    DecValueOfTwo("99");
  }

  lemma HundredThirtyNine()
    ensures ToStr(6039) == "100:39"
  {
    assert 6039 / 60 == 100 && 6039 % 60 == 39;
    assert DecimalString(1) == "1";
    assert DecimalString(10) == "10";
    assert DecimalString(100) == "100";
    assert Pad2(39) == "39";
  }

  /** A six-character start is refused. */
  lemma OverlongRefused(p: string)
    requires IsWord(p)
    ensures ParseRule(Format(p, ("100:39", "100:39"))).None?
  {
    var s := "100:39";
    var times := s + "-" + s;
    assert times == s + ['-'] + s;
    assert IsWord(times) by {
      assert forall i :: 0 <= i < |times| ==> !IsSpace(times[i]);
    }
    assert Format(p, (s, s)) == p + " " + times;
    FormatSplit(p, times);
    assert '-' !in s && '-' in times;
    SplitOnceTwo(s, s, '-');
  }
}
