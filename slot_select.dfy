/**
 * The slot selectors of bot.py: `filter_slots_by_rules` (slot keys to the sorted
 * future keys the rules accept), `collect_matching_slots` (every future slot of
 * a schedule the rules accept, by start time) and `find_first_matching_slot`
 * (the earliest of those, the first one seen on ties). The clock is the
 * parameter `now`; the rules are the normalised rules of the tracking record.
 */
module SlotSelect {
  import opened Options
  import Sequences
  import opened PyText
  import opened Calendar
  import opened Sorting
  import opened Schedule
  import RulesParser
  import RuleMatch

  type Rule = RulesParser.Rule

  // ---------------- filter_slots_by_rules ----------------

  /** Ascending without repeats, as `sorted()` lists a set. */
  ghost predicate StrictlySorted(xs: seq<string>) {
    forall i, j :: 0 <= i < j < |xs| ==> StrLt(xs[i], xs[j])
  }

  /** A key is kept when it reads as `%Y-%m-%d %H:%M`, lies after now and the rules accept it. */
  predicate Keeps(key: string, rules: seq<Rule>, now: DateTime)
    requires ValidNow(now)
  {
    match Strptime(SlotFormat, key)
    case None => false
    case Some(t) => Earlier(now, t) && RuleMatch.SlotMatches(t, rules, now)
  }

  /** `m` is in `s` and no element of `s` is below it. */
  predicate IsLeast(m: string, s: set<string>) {
    m in s && forall y :: y in s ==> StrLe(m, y)
  }

  /** A finite set of strings has a least element. */
  lemma {:induction false} LeastExists(s: set<string>)
    requires s != {}
    ensures exists m :: IsLeast(m, s)
    decreases |s|
  {
    var x :| x in s;
    if s != {x} {
      LeastExists(s - {x});
      var m :| IsLeast(m, s - {x});
      var l := LeastAdded(x, m, s);
    } else {
      assert IsLeast(x, s);
    }
  }

  /** The least of `s` is `x` or the least of the rest, whichever is lower. */
  lemma LeastAdded(x: string, m: string, s: set<string>) returns (l: string)
    requires x in s && IsLeast(m, s - {x})
    ensures IsLeast(l, s)
  {
    if StrLt(x, m) {
      forall y | y in s ensures StrLe(x, y) {
        if y != x {
          assert StrLe(m, y);
          if StrLt(m, y) {
            StrLtTransitive(x, m, y);
          }
        }
      }
      l := x;
    } else {
      StrLtTotal(x, m);
      assert StrLe(m, x);
      l := m;
    }
  }

  /** `sorted(slots)`: the elements of the set in ascending code-point order. */
  method SortedKeys(slots: set<string>) returns (xs: seq<string>)
    ensures StrictlySorted(xs)
    ensures forall x :: x in xs <==> x in slots
  {
    xs := [];
    var rest := slots;
    while rest != {}
      invariant rest <= slots
      invariant forall x :: x in xs <==> x in slots && x !in rest
      invariant StrictlySorted(xs)
      invariant forall i, y :: 0 <= i < |xs| && y in rest ==> StrLt(xs[i], y)
      decreases |rest|
    {
      LeastExists(rest);
      var m :| IsLeast(m, rest);
      forall y | y in rest - {m} ensures StrLt(m, y) {
        assert StrLe(m, y);
      }
      xs := xs + [m];
      rest := rest - {m};
    }
  }

  /**
   * `filter_slots_by_rules`: the keys of `slots` that read as a slot time after
   * now and that the rules accept, in ascending order; malformed keys are
   * skipped.
   */
  method FilterSlotsByRules(slots: set<string>, rules: seq<Rule>, now: DateTime) returns (filtered: seq<string>)
    requires ValidNow(now)
    ensures StrictlySorted(filtered)
    ensures forall x :: x in filtered <==> x in slots && Keeps(x, rules, now)
  {
    filtered := [];
    if slots == {} {
      return;
    }
    var order := SortedKeys(slots);
    var i := 0;
    while i < |order|
      invariant 0 <= i <= |order|
      invariant forall x :: x in filtered <==> x in order[..i] && Keeps(x, rules, now)
      invariant StrictlySorted(filtered)
      invariant forall j, k :: 0 <= j < |filtered| && i <= k < |order| ==> StrLt(filtered[j], order[k])
    {
      var slot := order[i];
      Sequences.PrefixSnoc(order, i);
      var parsed := Strptime(SlotFormat, slot);
      if parsed.Some? {
        var t := parsed.value;
        if Earlier(now, t) && RuleMatch.SlotMatches(t, rules, now) {
          filtered := filtered + [slot];
        }
      }
      i := i + 1;
    }
    assert order[..i] == order;
  }

  /**
   * A well-formed key is kept exactly when its slot lies after now and the rules
   * accept it; the key of any slot time reads back as that time to the minute.
   */
  lemma KeepsSlotText(t: DateTime, rules: seq<Rule>, now: DateTime)
    requires ValidDateTime(t) && ValidNow(now)
    ensures Keeps(SlotText(t), rules, now)
        <==> Earlier(now, TruncateToMinute(t)) && RuleMatch.SlotMatches(TruncateToMinute(t), rules, now)
  {
    StrptimeSlotText(t);
  }

  /** Which rule accepts a slot does not depend on its seconds. */
  lemma {:induction false} MatchesIgnoreSeconds(t: DateTime, rules: seq<Rule>, now: DateTime)
    requires ValidDateTime(t) && ValidNow(now)
    ensures RuleMatch.SlotMatches(TruncateToMinute(t), rules, now) == RuleMatch.SlotMatches(t, rules, now)
  {
    if rules != [] {
      var u := TruncateToMinute(t);
      assert RuleMatch.SlotMinute(u) == RuleMatch.SlotMinute(t);
      assert RuleMatch.RuleMatches(u, rules[0], now) == RuleMatch.RuleMatches(t, rules[0], now);
      MatchesIgnoreSeconds(t, rules[1..], now);
      if rules[1..] == [] {
        assert RuleMatch.AnyRuleMatches(u, rules[1..], now) == RuleMatch.AnyRuleMatches(t, rules[1..], now);
      }
    }
  }

  // ---------------- the payload selectors ----------------

  /** A usable slot: its start as a date-time and the start / end texts the service sent. */
  datatype Pick = Pick(at: DateTime, start: string, end: string)

  /** What the selectors return for a slot: `(display, start_iso, end_iso)`. */
  datatype Offer = Offer(display: string, start: string, end: string)

  /**
   * The test both selectors apply to one slot: a non-empty start that
   * `fromisoformat` reads, strictly after now, accepted by the rules.
   */
  function Candidate(s: Slot, rules: seq<Rule>, now: DateTime): (r: Option<Pick>)
    requires ValidNow(now)
    ensures r.Some? ==> ValidDateTime(r.value.at) && r.value.start == s.startTime && r.value.end == s.endTime
    ensures r.Some? ==> ParseIsoDateTime(s.startTime) == Some(r.value.at)
    ensures r.Some? ==> Earlier(now, r.value.at) && RuleMatch.SlotMatches(r.value.at, rules, now)
    ensures r.None? ==> match ParseIsoDateTime(s.startTime)
      case None => true
      case Some(t) => !Earlier(now, t) || !RuleMatch.SlotMatches(t, rules, now)
  {
    if s.startTime == [] then None
    else
      match ParseIsoDateTime(s.startTime)
      case None => None
      case Some(t) =>
        if !Earlier(now, t) then None
        else if !RuleMatch.SlotMatches(t, rules, now) then None
        else Some(Pick(t, s.startTime, s.endTime))
  }

  /** The usable slots in visiting order. */
  function Candidates(slots: seq<Slot>, rules: seq<Rule>, now: DateTime): (r: seq<Pick>)
    requires ValidNow(now)
    ensures forall p :: p in r ==> ValidDateTime(p.at)
    ensures |r| <= |slots|
  {
    if slots == [] then []
    else
      var front := Candidates(slots[..|slots| - 1], rules, now);
      match Candidate(slots[|slots| - 1], rules, now)
      case None => front
      case Some(p) => front + [p]
  }

  /** Every usable slot of the payload is a candidate and every candidate is one. */
  lemma {:induction false} CandidatesSpec(slots: seq<Slot>, rules: seq<Rule>, now: DateTime)
    requires ValidNow(now)
    ensures forall p :: p in Candidates(slots, rules, now) <==> exists s :: s in slots && Candidate(s, rules, now) == Some(p)
  {
    if slots != [] {
      var init := slots[..|slots| - 1];
      var last := slots[|slots| - 1];
      CandidatesSpec(init, rules, now);
      assert slots == init + [last];
      forall p ensures p in Candidates(slots, rules, now) <==> exists s :: s in slots && Candidate(s, rules, now) == Some(p) {
        if p in Candidates(slots, rules, now) {
          if p !in Candidates(init, rules, now) {
            assert Candidate(last, rules, now) == Some(p);
          }
        }
        if exists s :: s in slots && Candidate(s, rules, now) == Some(p) {
          var s :| s in slots && Candidate(s, rules, now) == Some(p);
          if s != last {
            assert s in init;
          }
        }
      }
    }
  }

  /** One more visited slot adds its candidate, if it has one. */
  lemma CandidatesSnoc(slots: seq<Slot>, i: int, rules: seq<Rule>, now: DateTime)
    requires ValidNow(now) && 0 <= i < |slots|
    ensures Candidates(slots[..i + 1], rules, now)
      == Candidates(slots[..i], rules, now) + (match Candidate(slots[i], rules, now) case None => [] case Some(p) => [p])
  {
    assert slots[..i + 1][..i] == slots[..i];
  }

  /** A slot time the selectors may offer: a real time after now that the rules accept. */
  predicate Usable(p: Pick, rules: seq<Rule>, now: DateTime)
    requires ValidNow(now)
  {
    ValidDateTime(p.at) && Earlier(now, p.at) && RuleMatch.SlotMatches(p.at, rules, now)
  }

  /** Every candidate lies after now and is accepted by the rules. */
  lemma {:induction false} CandidatesAccepted(slots: seq<Slot>, rules: seq<Rule>, now: DateTime)
    requires ValidNow(now)
    ensures forall p :: p in Candidates(slots, rules, now) ==> Usable(p, rules, now)
  {
    if slots != [] {
      CandidatesAccepted(slots[..|slots| - 1], rules, now);
    }
  }

  /** The order `collected.sort(key=start)` sorts by. */
  predicate PickLe(a: Pick, b: Pick) {
    NotAfter(a.at, b.at)
  }

  lemma PickLeTotal()
    ensures TotalPreorder(PickLe)
  {
    forall a: Pick, b: Pick ensures PickLe(a, b) || PickLe(b, a) {
      EarlierTrichotomy(a.at, b.at);
    }
    forall a: Pick, b: Pick, c: Pick | PickLe(a, b) && PickLe(b, c) ensures PickLe(a, c) {
      NotAfterTransitive(a.at, b.at, c.at);
    }
  }

  function OfferOf(p: Pick): Offer
    requires ValidDateTime(p.at)
  {
    Offer(SlotText(p.at), p.start, p.end)
  }

  /** Every slot of the list has a real start time. */
  predicate AllTimed(ps: seq<Pick>) {
    forall i :: 0 <= i < |ps| ==> ValidDateTime(ps[i].at)
  }

  /** The offers for a list of usable slots, in the same order (see `OffersAt`). */
  function Offers(ps: seq<Pick>): (r: seq<Offer>)
    requires AllTimed(ps)
    ensures |r| == |ps|
  {
    if ps == [] then [] else Offers(ps[..|ps| - 1]) + [OfferOf(ps[|ps| - 1])]
  }

  /** The offer at position `i` is the one of the slot at position `i`. */
  lemma {:induction false} OffersAt(ps: seq<Pick>, i: nat)
    requires AllTimed(ps) && i < |ps|
    ensures Offers(ps)[i] == OfferOf(ps[i])
  {
    var n := |ps| - 1;
    var front := ps[..n];
    OffersLast(ps);
    Sequences.SnocAt(Offers(front), OfferOf(ps[n]), i);
    if i < n {
      OffersAt(front, i);
      assert front[i] == ps[i];
    }
  }

  lemma OffersLast(ps: seq<Pick>)
    requires AllTimed(ps) && ps != []
    ensures AllTimed(ps[..|ps| - 1])
    ensures Offers(ps) == Offers(ps[..|ps| - 1]) + [OfferOf(ps[|ps| - 1])]
  {
  }

  /** The usable slots of a schedule, stably sorted by start. */
  function SortedCandidates(days: seq<Day>, rules: seq<Rule>, now: DateTime): (r: seq<Pick>)
    requires ValidNow(now)
    ensures AllTimed(r)
  {
    var cs := Candidates(DaySlots(days), rules, now);
    var r := Sort(cs, PickLe);
    assert forall i :: 0 <= i < |r| ==> r[i] in multiset(cs);
    r
  }

  /** `collect_matching_slots`: the offers of all usable slots, by start time. */
  method CollectMatchingSlots(days: seq<Day>, rules: seq<Rule>, now: DateTime) returns (result: seq<Offer>)
    requires ValidNow(now)
    ensures result == Offers(SortedCandidates(days, rules, now))
  {
    var collected := CollectCandidates(DaySlots(days), rules, now);
    result := [];
    if collected == [] {
      return;
    }
    var sorted := Sort(collected, PickLe);
    assert forall i :: 0 <= i < |sorted| ==> sorted[i] in multiset(collected);
    result := OffersLoop(sorted);
  }

  /** The loop of `collect_matching_slots` that gathers the usable slots in visiting order. */
  method CollectCandidates(slots: seq<Slot>, rules: seq<Rule>, now: DateTime) returns (collected: seq<Pick>)
    requires ValidNow(now)
    ensures collected == Candidates(slots, rules, now)
  {
    collected := [];
    var i := 0;
    while i < |slots|
      invariant 0 <= i <= |slots|
      invariant collected == Candidates(slots[..i], rules, now)
    {
      var c := CheckSlot(slots[i], rules, now);
      CandidatesSnoc(slots, i, rules, now);
      i := i + 1;
      if c.Some? {
        collected := collected + [c.value];
      }
    }
    assert slots[..i] == slots;
  }

  /**
   * The body of the slot loops: a slot without a start, one whose start does not
   * parse, one not after now and one the rules refuse are skipped.
   */
  method CheckSlot(s: Slot, rules: seq<Rule>, now: DateTime) returns (c: Option<Pick>)
    requires ValidNow(now)
    ensures c == Candidate(s, rules, now)
  {
    if s.startTime == [] {
      return None;
    }
    var parsed := ParseIsoDateTime(s.startTime);
    if parsed.None? {
      return None;
    }
    var t := parsed.value;
    if !Earlier(now, t) {
      return None;
    }
    if !RuleMatch.SlotMatches(t, rules, now) {
      return None;
    }
    return Some(Pick(t, s.startTime, s.endTime));
  }

  /** The offers built from the sorted slots. */
  method OffersLoop(sorted: seq<Pick>) returns (result: seq<Offer>)
    requires AllTimed(sorted)
    ensures result == Offers(sorted)
  {
    result := [];
    var k := 0;
    while k < |sorted|
      invariant 0 <= k <= |sorted| && |result| == k
      invariant forall i :: 0 <= i < k ==> result[i] == OfferOf(sorted[i])
    {
      result := result + [OfferOf(sorted[k])];
      k := k + 1;
    }
    forall i | 0 <= i < |sorted| ensures result[i] == Offers(sorted)[i] {
      OffersAt(sorted, i);
    }
  }

  /**
   * What `collect_matching_slots` returns: the usable slots of the schedule and
   * nothing else, each as often as it occurs, ordered by start time.
   */
  lemma CollectSpec(days: seq<Day>, rules: seq<Rule>, now: DateTime)
    requires ValidNow(now)
    ensures var r := SortedCandidates(days, rules, now);
      && multiset(r) == multiset(Candidates(DaySlots(days), rules, now))
      && SortedBy(r, PickLe)
      && (forall i :: 0 <= i < |r| ==> Usable(r[i], rules, now))
  {
    var cs := Candidates(DaySlots(days), rules, now);
    PickLeTotal();
    SortIsSorted(cs, PickLe);
    var r := Sort(cs, PickLe);
    CandidatesAccepted(DaySlots(days), rules, now);
    forall i | 0 <= i < |r| ensures Usable(r[i], rules, now) {
      assert r[i] in multiset(cs);
    }
  }

  /** `find_first_matching_slot`: the first usable slot of least start, if any. */
  method FindFirstMatchingSlot(days: seq<Day>, rules: seq<Rule>, now: DateTime) returns (r: Option<Offer>)
    requires ValidNow(now)
    ensures var cs := Candidates(DaySlots(days), rules, now);
      r == if cs == [] then None else Some(OfferOf(cs[FirstMinIndex(cs, PickLe)]))
  {
    var slots := DaySlots(days);
    var best: Option<Pick> := None;
    ghost var bestIndex := 0;
    var i := 0;
    while i < |slots|
      invariant 0 <= i <= |slots|
      invariant FirstSoFar(Candidates(slots[..i], rules, now), best, bestIndex, PickLe)
    {
      ghost var before := Candidates(slots[..i], rules, now);
      var c := CheckSlot(slots[i], rules, now);
      CandidatesSnoc(slots, i, rules, now);
      i := i + 1;
      if c.Some? {
        best, bestIndex := ConsiderPick(before, best, bestIndex, c.value);
      }
    }
    Sequences.PrefixFull(slots, i);
    PickLeTotal();
    FirstSoFarIsFirstMinIndex(Candidates(slots, rules, now), best, bestIndex, PickLe);
    r := if best.Some? then Some(OfferOf(best.value)) else None;
  }

  /** `if best is None or dt < best[0]: best = ...` */
  method ConsiderPick(ghost cs: seq<Pick>, best: Option<Pick>, ghost k: int, p: Pick) returns (best': Option<Pick>, ghost k': int)
    requires FirstSoFar(cs, best, k, PickLe)
    ensures FirstSoFar(cs + [p], best', k', PickLe)
  {
    PickLeTotal();
    if best.None? || Earlier(p.at, best.value.at) {
      if best.Some? {
        FirstMinExtendLower(cs, k, p, PickLe);
      } else {
        assert cs + [p] == [p];
      }
      best', k' := Some(p), |cs|;
    } else {
      FirstMinExtendKeep(cs, k, p, PickLe);
      best', k' := best, k;
    }
  }

  /**
   * `find_first_matching_slot` returns the head of `collect_matching_slots`
   * (None exactly when that list is empty), as its docstring promises.
   */
  lemma FindIsHeadOfCollect(days: seq<Day>, rules: seq<Rule>, now: DateTime)
    requires ValidNow(now)
    ensures var cs := Candidates(DaySlots(days), rules, now);
      var all := Offers(SortedCandidates(days, rules, now));
      (cs == [] <==> all == [])
      && (cs != [] ==> all[0] == OfferOf(cs[FirstMinIndex(cs, PickLe)]))
  {
    var cs := Candidates(DaySlots(days), rules, now);
    if cs != [] {
      PickLeTotal();
      SortHeadIsFirstMin(cs, PickLe);
      OffersAt(SortedCandidates(days, rules, now), 0);
    }
  }
}
