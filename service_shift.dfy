/**
 * The slot choice of service_shift.py: moving an existing appointment (a blood
 * test, an ECG) to the earliest slot, among the resources of one clinic, that
 * starts inside an allowed time window and outside every forbidden one. The
 * clinic's answers (the resource list and each resource's schedule) are inputs.
 */
module ServiceShift {
  import opened Options
  import opened PyText
  import opened Calendar
  import opened Sorting
  import opened Sequences
  import opened Schedule

  // ---------------- TimeWindow ----------------

  /** A `TimeWindow` of two `datetime.time` values, as seconds since midnight. */
  datatype TimeWindow = TimeWindow(start: nat, end: nat)

  /**
   * `_p(x)` of `TimeWindow.parse`: `hh, mm = x.split(":")` and `time(int(hh), int(mm))`.
   * None where Python raises: not exactly one colon, a part `int()` refuses, or
   * an hour or minute out of range.
   */
  function ParseClock(x: string): (r: Option<nat>)
    ensures r.Some? ==> r.value < 86400 && r.value % 60 == 0
  {
    var parts := Split(x, ':');
    if |parts| != 2 then None
    else
      var h := PyInt(parts[0]);
      var m := PyInt(parts[1]);
      if h.Some? && m.Some? && 0 <= h.value < 24 && 0 <= m.value < 60 then Some(ClockSeconds(h.value, m.value))
      else None
  }

  /** `time(h, m)` as seconds since midnight. */
  function ClockSeconds(h: int, m: int): (t: nat)
    requires 0 <= h < 24 && 0 <= m < 60
    ensures t < 86400 && t % 60 == 0
  {
    assert h * 3600 + m * 60 == (h * 60 + m) * 60;
    h * 3600 + m * 60
  }

  /** `TimeWindow.parse(a, b)`: both ends parsed, `a` first. */
  function ParseWindow(a: string, b: string): Option<TimeWindow> {
    var s := ParseClock(a);
    if s.None? then None
    else
      var e := ParseClock(b);
      if e.None? then None else Some(TimeWindow(s.value, e.value))
  }

  /** The `HH:MM` text of a clock time parses to that time. */
  lemma ParseClockOfText(h: int, m: int)
    requires ValidClock(h, m, 0)
    ensures ParseClock(ClockText(h, m)) == Some(h * 3600 + m * 60)
  {
    var hh, mm := Pad2(h), Pad2(m);
    Pad2Digits(h);
    Pad2Digits(m);
    assert ':' !in hh && ':' !in mm by {
      assert hh == [hh[0], hh[1]] && mm == [mm[0], mm[1]];
    }
    assert ClockText(h, m) == hh + [':'] + mm;
    SplitTwo(hh, mm, ':');
  }

  /** The hour and minute fields of `t` make a clock time. */
  predicate ClockFieldsOk(t: int) {
    0 <= t / 3600 < 24 && 0 <= t / 60 % 60 < 60
  }

  /** A clock time in whole minutes has an hour and a minute field. */
  lemma ClockFields(t: nat)
    requires t < 86400 && t % 60 == 0
    ensures ClockFieldsOk(t) && ValidClock(t / 3600, t / 60 % 60, 0) && (t / 3600) * 3600 + (t / 60 % 60) * 60 == t
  {
  }

  /** Every clock time `ParseClock` can return reads back from its `HH:MM` text. */
  lemma ClockRoundTrip(t: nat)
    requires t < 86400 && t % 60 == 0
    ensures ClockFieldsOk(t) && ParseClock(ClockText(t / 3600, t / 60 % 60)) == Some(t)
  {
    var h, m := t / 3600, t / 60 % 60;
    ClockFields(t);
    ParseClockOfText(h, m);
    assert h * 3600 + m * 60 == t;
  }

  /** A window is parsed exactly when both ends are, in order. */
  lemma ParseWindowSpec(a: string, b: string)
    ensures ParseWindow(a, b).Some? <==> ParseClock(a).Some? && ParseClock(b).Some?
    ensures ParseWindow(a, b).Some? ==> ParseWindow(a, b).value == TimeWindow(ParseClock(a).value, ParseClock(b).value)
  {
  }

  /** A parsed window reads back from the `HH:MM` texts of its ends. */
  lemma ParseWindowRoundTrip(w: TimeWindow)
    requires w.start < 86400 && w.start % 60 == 0 && w.end < 86400 && w.end % 60 == 0
    ensures ClockFieldsOk(w.start) && ClockFieldsOk(w.end)
    ensures ParseWindow(ClockText(w.start / 3600, w.start / 60 % 60), ClockText(w.end / 3600, w.end / 60 % 60)) == Some(w)
  {
    ClockRoundTrip(w.start);
    ClockRoundTrip(w.end);
  }

  // ---------------- _slot_passes ----------------

  /**
   * `t.time()` as whole seconds since midnight. The windows' ends are whole
   * seconds, so `w.start <= t.time() < w.end` does not depend on the microseconds.
   */
  function TimeOf(t: DateTime): int {
    t.hour * 3600 + t.minute * 60 + t.second
  }

  /** `w.start <= t.time() < w.end`: windows are half-open. */
  predicate InWindow(w: TimeWindow, t: DateTime) {
    w.start <= TimeOf(t) < w.end
  }

  predicate InAny(ws: seq<TimeWindow>, t: DateTime) {
    exists i :: 0 <= i < |ws| && InWindow(ws[i], t)
  }

  /**
   * `_slot_passes(tw, fw, start, end)`: with allowed windows the start must lie
   * in one of them, and it must lie in no forbidden window. `end` is not read.
   */
  predicate SlotPasses(allowed: seq<TimeWindow>, forbidden: seq<TimeWindow>, start: DateTime, end: DateTime) {
    (allowed == [] || InAny(allowed, start)) && !InAny(forbidden, start)
  }

  /** Without allowed windows only the forbidden ones count. */
  lemma NoAllowedWindows(forbidden: seq<TimeWindow>, start: DateTime, end: DateTime)
    ensures SlotPasses([], forbidden, start, end) <==> !InAny(forbidden, start)
  {
  }

  /** A forbidden window containing the start rejects the slot whatever the allowed windows say. */
  lemma ForbiddenRejects(allowed: seq<TimeWindow>, forbidden: seq<TimeWindow>, i: int, start: DateTime, end: DateTime)
    requires 0 <= i < |forbidden| && InWindow(forbidden[i], start)
    ensures !SlotPasses(allowed, forbidden, start, end)
  {
  }

  /** A window admits its start and refuses its end. */
  lemma WindowHalfOpen(w: TimeWindow, start: DateTime, end: DateTime)
    requires w.start < w.end
    ensures TimeOf(start) == w.start ==> SlotPasses([w], [], start, end)
    ensures TimeOf(start) == w.end ==> !SlotPasses([w], [], start, end)
  {
    if TimeOf(start) == w.start {
      assert InWindow([w][0], start);
    }
  }

  /** The slot's end never changes the verdict. */
  lemma EndIgnored(allowed: seq<TimeWindow>, forbidden: seq<TimeWindow>, start: DateTime, end1: DateTime, end2: DateTime)
    ensures SlotPasses(allowed, forbidden, start, end1) == SlotPasses(allowed, forbidden, start, end2)
  {
  }

  // ---------------- _pick_earliest ----------------

  /** A start time with what is chosen at it. */
  datatype Timed<T> = Timed(start: DateTime, item: T)

  /** The order `st < best[0]` refines: by start. */
  predicate TimedLe<T>(a: Timed<T>, b: Timed<T>) {
    NotAfter(a.start, b.start)
  }

  lemma TimedLeTotal<T(!new)>()
    ensures TotalPreorder((a: Timed<T>, b: Timed<T>) => TimedLe(a, b))
  {
    forall a: Timed<T>, b: Timed<T> ensures TimedLe(a, b) || TimedLe(b, a) {
      EarlierTrichotomy(a.start, b.start);
    }
    forall a: Timed<T>, b: Timed<T>, c: Timed<T> | TimedLe(a, b) && TimedLe(b, c) ensures TimedLe(a, c) {
      NotAfterTransitive(a.start, b.start, c.start);
    }
  }

  /** The order as a function value. */
  function ByStart<T>(): (Timed<T>, Timed<T>) -> bool {
    (a: Timed<T>, b: Timed<T>) => TimedLe(a, b)
  }

  /** Scanning in order, the first of the least start (None for no candidates). */
  function Earliest<T>(cs: seq<Timed<T>>): Option<Timed<T>> {
    if cs == [] then None else Some(cs[FirstMinIndex(cs, ByStart())])
  }

  /**
   * A slot `_pick_earliest` may choose: both times read by `fromisoformat`, and
   * the slot passing the windows; the end is kept for the shift request.
   */
  function SlotCandidate(allowed: seq<TimeWindow>, forbidden: seq<TimeWindow>, s: Slot): Option<Timed<DateTime>> {
    var st := ParseIsoDateTime(s.startTime);
    var en := ParseIsoDateTime(s.endTime);
    if st.None? || en.None? then None
    else if !SlotPasses(allowed, forbidden, st.value, en.value) then None
    else Some(Timed(st.value, en.value))
  }

  function SlotCandidateOf(allowed: seq<TimeWindow>, forbidden: seq<TimeWindow>): Slot -> Option<Timed<DateTime>> {
    (s: Slot) => SlotCandidate(allowed, forbidden, s)
  }

  /** The candidates of a list of slots, in visiting order. */
  function SlotCandidates(allowed: seq<TimeWindow>, forbidden: seq<TimeWindow>, slots: seq<Slot>): seq<Timed<DateTime>> {
    FlatMap(slots, Keep(SlotCandidateOf(allowed, forbidden)))
  }

  /**
   * `_pick_earliest(schedule_payload, allowed, forbidden)`: None for an empty
   * payload; otherwise the first passing slot of least start, over days, blocks
   * and slots in order. `st < best[0]` is strict, so the first of equal starts is kept.
   */
  function PickEarliest(payload: Option<seq<Day>>, allowed: seq<TimeWindow>, forbidden: seq<TimeWindow>): Option<Timed<DateTime>> {
    if payload.None? then None else Earliest(SlotCandidates(allowed, forbidden, DaySlots(payload.value)))
  }

  /** The loop of `_pick_earliest`, with `best` updated on a strictly earlier start. */
  method PickEarliestLoop(payload: Option<seq<Day>>, allowed: seq<TimeWindow>, forbidden: seq<TimeWindow>)
    returns (best: Option<Timed<DateTime>>)
    ensures best == PickEarliest(payload, allowed, forbidden)
  {
    if payload.None? {
      return None;
    }
    var slots := DaySlots(payload.value);
    best := None;
    ghost var k := 0;
    var i := 0;
    while i < |slots|
      invariant 0 <= i <= |slots|
      invariant FirstSoFar(SlotCandidates(allowed, forbidden, slots[..i]), best, k, ByStart())
    {
      ghost var before := SlotCandidates(allowed, forbidden, slots[..i]);
      PrefixSnoc(slots, i);
      FlatMapSnoc(slots[..i], slots[i], Keep(SlotCandidateOf(allowed, forbidden)));
      var c := ReadSlot(allowed, forbidden, slots[i]);
      i := i + 1;
      if c.Some? {
        best, k := Consider(before, best, k, c.value);
      }
    }
    PrefixFull(slots, i);
    TimedLeTotal<DateTime>();
    FirstSoFarIsFirstMinIndex(SlotCandidates(allowed, forbidden, slots), best, k, ByStart());
  }

  /** One slot of the loop: skipped when a time does not parse or the windows refuse it. */
  method ReadSlot(allowed: seq<TimeWindow>, forbidden: seq<TimeWindow>, s: Slot) returns (c: Option<Timed<DateTime>>)
    ensures c == SlotCandidate(allowed, forbidden, s)
  {
    var st := ParseIsoDateTime(s.startTime);
    var en := ParseIsoDateTime(s.endTime);
    if st.None? || en.None? {
      return None;
    }
    if !SlotPasses(allowed, forbidden, st.value, en.value) {
      return None;
    }
    return Some(Timed(st.value, en.value));
  }

  /** `if best is None or st < best[0]: best = (st, en)`. */
  method Consider<T(!new)>(ghost cs: seq<Timed<T>>, best: Option<Timed<T>>, ghost k: int, c: Timed<T>)
    returns (best': Option<Timed<T>>, ghost k': int)
    requires FirstSoFar(cs, best, k, ByStart())
    ensures FirstSoFar(cs + [c], best', k', ByStart())
  {
    TimedLeTotal<T>();
    if best.None? || Earlier(c.start, best.value.start) {
      if best.Some? {
        FirstMinExtendLower(cs, k, c, ByStart());
      } else {
        assert cs + [c] == [c];
      }
      best', k' := Some(c), |cs|;
    } else {
      FirstMinExtendKeep(cs, k, c, ByStart());
      best', k' := best, k;
    }
  }

  /**
   * The earliest candidate is one of them, starts no later than any, and
   * strictly before every one met ahead of it; there is none only when there
   * are no candidates.
   */
  lemma EarliestSpec<T(!new)>(cs: seq<Timed<T>>)
    ensures Earliest(cs).None? <==> cs == []
    ensures Earliest(cs).Some? ==>
      exists k :: (&& 0 <= k < |cs| && cs[k] == Earliest(cs).value
                   && (forall j :: 0 <= j < |cs| ==> NotAfter(cs[k].start, cs[j].start))
                   && (forall j :: 0 <= j < k ==> Earlier(cs[k].start, cs[j].start)))
  {
    if cs != [] {
      TimedLeTotal<T>();
      var k := FirstMinIndex(cs, ByStart());
      FirstMinIndexIsFirstMin(cs, ByStart());
      assert forall j :: 0 <= j < |cs| ==> ByStart()(cs[k], cs[j]);
      assert forall j :: 0 <= j < k ==> !ByStart()(cs[j], cs[k]);
    }
  }

  /** A candidate of a slot in the payload is among the payload's candidates. */
  lemma SlotCandidateMember(allowed: seq<TimeWindow>, forbidden: seq<TimeWindow>, slots: seq<Slot>, i: int)
    requires 0 <= i < |slots| && SlotCandidate(allowed, forbidden, slots[i]).Some?
    ensures SlotCandidate(allowed, forbidden, slots[i]).value in SlotCandidates(allowed, forbidden, slots)
  {
    var c := SlotCandidate(allowed, forbidden, slots[i]).value;
    FlatMapMember(slots, Keep(SlotCandidateOf(allowed, forbidden)), c);
    assert c in Keep(SlotCandidateOf(allowed, forbidden))(slots[i]);
  }

  /** Every candidate comes from a slot of the payload that parses and passes the windows. */
  lemma CandidateFromSlot(allowed: seq<TimeWindow>, forbidden: seq<TimeWindow>, slots: seq<Slot>, c: Timed<DateTime>)
    requires c in SlotCandidates(allowed, forbidden, slots)
    ensures exists i :: 0 <= i < |slots| && SlotCandidate(allowed, forbidden, slots[i]) == Some(c)
  {
    FlatMapMember(slots, Keep(SlotCandidateOf(allowed, forbidden)), c);
    var i :| 0 <= i < |slots| && c in Keep(SlotCandidateOf(allowed, forbidden))(slots[i]);
    assert SlotCandidate(allowed, forbidden, slots[i]) == Some(c);
  }

  /**
   * `_pick_earliest` finds a slot exactly when some slot parses and passes; the
   * one it finds does, and no passing slot starts earlier.
   */
  lemma PickEarliestSpec(days: seq<Day>, allowed: seq<TimeWindow>, forbidden: seq<TimeWindow>, i: int)
    requires 0 <= i < |DaySlots(days)| && SlotCandidate(allowed, forbidden, DaySlots(days)[i]).Some?
    ensures PickEarliest(Some(days), allowed, forbidden).Some?
    ensures var best := PickEarliest(Some(days), allowed, forbidden).value;
      && NotAfter(best.start, SlotCandidate(allowed, forbidden, DaySlots(days)[i]).value.start)
      && (exists j :: 0 <= j < |DaySlots(days)| && SlotCandidate(allowed, forbidden, DaySlots(days)[j]) == Some(best))
  {
    var slots := DaySlots(days);
    var cs := SlotCandidates(allowed, forbidden, slots);
    var c := SlotCandidate(allowed, forbidden, slots[i]).value;
    SlotCandidateMember(allowed, forbidden, slots, i);
    EarliestSpec(cs);
    var best := Earliest(cs).value;
    var n :| 0 <= n < |cs| && cs[n] == c;
    CandidateFromSlot(allowed, forbidden, slots, best);
  }

  // ---------------- _iter_resources ----------------

  /** An element of `complexResource`; a missing `name` or room number is the empty text. */
  datatype ComplexResource = ComplexResource(id: int, name: string, roomNumber: string)

  /** An element of `availableResources`. */
  datatype AvailableResource = AvailableResource(id: int, complexResources: seq<ComplexResource>)

  /** An element of `doctorsInfo`; `lpuShortName` may be missing. */
  datatype Lpu = Lpu(shortName: Option<string>, availableResources: seq<AvailableResource>)

  /** What `_iter_resources` yields: `(ar_id, cr_id, cabinet)`. */
  datatype Resource = Resource(arId: int, crId: int, cabinet: string)

  /** `comp.get("name") or comp.get("room", {}).get("number", "")`. */
  function Cabinet(c: ComplexResource): string {
    if c.name != "" then c.name else c.roomNumber
  }

  function ComplexBlock(arId: int): ComplexResource -> seq<Resource> {
    (c: ComplexResource) => ComplexTriple(arId, c)
  }

  function ComplexTriple(arId: int, c: ComplexResource): seq<Resource> {
    [Resource(arId, c.id, Cabinet(c))]
  }

  /** The resources of one available resource, one per complex resource. */
  function ArResources(ar: AvailableResource): seq<Resource> {
    FlatMap(ar.complexResources, ComplexBlock(ar.id))
  }

  function ArBlock(): AvailableResource -> seq<Resource> {
    (ar: AvailableResource) => ArResources(ar)
  }

  /** The resources of one clinic, or none when its short name is not exactly the target. */
  function LpuResources(target: string, lpu: Lpu): seq<Resource> {
    if lpu.shortName != Some(target) then [] else FlatMap(lpu.availableResources, ArBlock())
  }

  function LpuBlock(target: string): Lpu -> seq<Resource> {
    (lpu: Lpu) => LpuResources(target, lpu)
  }

  /** `_iter_resources(li_payload, target_lpu_name)`, as the list of what it yields. */
  function IterResources(lpus: seq<Lpu>, target: string): seq<Resource> {
    FlatMap(lpus, LpuBlock(target))
  }

  /** The generator's loops: clinics, their available resources, their complex resources. */
  method IterResourcesLoop(lpus: seq<Lpu>, target: string) returns (out: seq<Resource>)
    ensures out == IterResources(lpus, target)
  {
    out := [];
    var i := 0;
    while i < |lpus|
      invariant 0 <= i <= |lpus|
      invariant out == IterResources(lpus[..i], target)
    {
      PrefixSnoc(lpus, i);
      FlatMapSnoc(lpus[..i], lpus[i], LpuBlock(target));
      if lpus[i].shortName == Some(target) {
        var yielded := LpuResourcesLoop(lpus[i]);
        out := out + yielded;
      }
      i := i + 1;
    }
    assert lpus[..i] == lpus;
  }

  /** The resources of one matching clinic. */
  method LpuResourcesLoop(lpu: Lpu) returns (out: seq<Resource>)
    ensures out == FlatMap(lpu.availableResources, ArBlock())
  {
    var ars := lpu.availableResources;
    out := [];
    var j := 0;
    while j < |ars|
      invariant 0 <= j <= |ars|
      invariant out == FlatMap(ars[..j], ArBlock())
    {
      PrefixSnoc(ars, j);
      FlatMapSnoc(ars[..j], ars[j], ArBlock());
      var yielded := ArResourcesLoop(ars[j]);
      out := out + yielded;
      j := j + 1;
    }
    assert ars[..j] == ars;
  }

  /** The resources of one available resource. */
  method ArResourcesLoop(ar: AvailableResource) returns (out: seq<Resource>)
    ensures out == ArResources(ar)
  {
    var comps := ar.complexResources;
    out := [];
    var k := 0;
    while k < |comps|
      invariant 0 <= k <= |comps|
      invariant out == FlatMap(comps[..k], ComplexBlock(ar.id))
    {
      PrefixSnoc(comps, k);
      FlatMapSnoc(comps[..k], comps[k], ComplexBlock(ar.id));
      out := out + [Resource(ar.id, comps[k].id, Cabinet(comps[k]))];
      k := k + 1;
    }
    assert comps[..k] == comps;
  }

  /** `r` is yielded for a complex resource of an available resource of `lpu`, and `lpu` is the target clinic. */
  predicate FromClinic(target: string, lpu: Lpu, r: Resource) {
    && lpu.shortName == Some(target)
    && exists j :: 0 <= j < |lpu.availableResources| && FromAvailable(lpu.availableResources[j], r)
  }

  /** `r` is yielded for one of the complex resources of `ar`. */
  predicate FromAvailable(ar: AvailableResource, r: Resource) {
    exists k :: 0 <= k < |ar.complexResources| && r == Resource(ar.id, ar.complexResources[k].id, Cabinet(ar.complexResources[k]))
  }

  lemma ArResourcesMember(ar: AvailableResource, r: Resource)
    ensures r in ArResources(ar) <==> FromAvailable(ar, r)
  {
    FlatMapMember(ar.complexResources, ComplexBlock(ar.id), r);
    assert forall k :: 0 <= k < |ar.complexResources| ==>
      ComplexBlock(ar.id)(ar.complexResources[k]) == [Resource(ar.id, ar.complexResources[k].id, Cabinet(ar.complexResources[k]))];
  }

  lemma LpuResourcesMember(target: string, lpu: Lpu, r: Resource)
    ensures r in LpuResources(target, lpu) <==> FromClinic(target, lpu, r)
  {
    var ars := lpu.availableResources;
    FlatMapMember(ars, ArBlock(), r);
    forall j | 0 <= j < |ars| ensures r in ArBlock()(ars[j]) <==> FromAvailable(ars[j], r) {
      ArResourcesMember(ars[j], r);
    }
  }

  /**
   * A resource is yielded exactly when it is a complex resource of an available
   * resource of a clinic whose short name is exactly the target.
   */
  lemma IterResourcesMember(lpus: seq<Lpu>, target: string, r: Resource)
    ensures r in IterResources(lpus, target) <==> exists i :: 0 <= i < |lpus| && FromClinic(target, lpus[i], r)
  {
    FlatMapMember(lpus, LpuBlock(target), r);
    forall i | 0 <= i < |lpus| ensures r in LpuBlock(target)(lpus[i]) <==> FromClinic(target, lpus[i], r) {
      LpuResourcesMember(target, lpus[i], r);
    }
  }

  /** A clinic with another short name, or none, contributes nothing. */
  lemma OtherClinicIgnored(target: string, lpu: Lpu)
    requires lpu.shortName != Some(target)
    ensures IterResources([lpu], target) == []
  {
    FlatMapOne(lpu, LpuBlock(target));
  }

  // ---------------- the choice across resources ----------------

  /** What the shift request needs: the resource and the slot's end. */
  datatype Choice = Choice(resource: Resource, end: DateTime)

  /** The best slot of one resource, given its fetched schedule (None: no payload). */
  function ResourceCandidate(fetch: (int, int) -> Option<seq<Day>>, allowed: seq<TimeWindow>, forbidden: seq<TimeWindow>, r: Resource)
    : Option<Timed<Choice>>
  {
    var slot := PickEarliest(fetch(r.arId, r.crId), allowed, forbidden);
    if slot.None? then None else Some(Timed(slot.value.start, Choice(r, slot.value.item)))
  }

  function ResourceCandidateOf(fetch: (int, int) -> Option<seq<Day>>, allowed: seq<TimeWindow>, forbidden: seq<TimeWindow>)
    : Resource -> Option<Timed<Choice>>
  {
    (r: Resource) => ResourceCandidate(fetch, allowed, forbidden, r)
  }

  function ResourceCandidates(resources: seq<Resource>, fetch: (int, int) -> Option<seq<Day>>, allowed: seq<TimeWindow>, forbidden: seq<TimeWindow>)
    : seq<Timed<Choice>>
  {
    FlatMap(resources, Keep(ResourceCandidateOf(fetch, allowed, forbidden)))
  }

  /**
   * One polling round of `shift_service_appointment`: over the yielded
   * resources in order, each with the schedule `fetch` returns for it, the
   * first resource's best slot with the strictly smallest start.
   */
  function ShiftChoice(lpus: seq<Lpu>, target: string, fetch: (int, int) -> Option<seq<Day>>,
                       allowed: seq<TimeWindow>, forbidden: seq<TimeWindow>): Option<Timed<Choice>>
  {
    Earliest(ResourceCandidates(IterResources(lpus, target), fetch, allowed, forbidden))
  }

  /** The loop over resources with `best_global`. */
  method ShiftChoiceLoop(lpus: seq<Lpu>, target: string, fetch: (int, int) -> Option<seq<Day>>,
                         allowed: seq<TimeWindow>, forbidden: seq<TimeWindow>) returns (best: Option<Timed<Choice>>)
    ensures best == ShiftChoice(lpus, target, fetch, allowed, forbidden)
  {
    var resources := IterResourcesLoop(lpus, target);
    best := None;
    ghost var k := 0;
    var i := 0;
    while i < |resources|
      invariant 0 <= i <= |resources|
      invariant FirstSoFar(ResourceCandidates(resources[..i], fetch, allowed, forbidden), best, k, ByStart())
    {
      ghost var before := ResourceCandidates(resources[..i], fetch, allowed, forbidden);
      PrefixSnoc(resources, i);
      FlatMapSnoc(resources[..i], resources[i], Keep(ResourceCandidateOf(fetch, allowed, forbidden)));
      var r := resources[i];
      var slot := PickEarliestLoop(fetch(r.arId, r.crId), allowed, forbidden);
      i := i + 1;
      if slot.None? {
        continue;
      }
      best, k := Consider(before, best, k, Timed(slot.value.start, Choice(r, slot.value.item)));
    }
    assert resources[..i] == resources;
    TimedLeTotal<Choice>();
    FirstSoFarIsFirstMinIndex(ResourceCandidates(resources, fetch, allowed, forbidden), best, k, ByStart());
  }

  /** A resource with a passing slot has a best slot, no later than that one. */
  lemma ResourceCandidateBound(fetch: (int, int) -> Option<seq<Day>>, allowed: seq<TimeWindow>, forbidden: seq<TimeWindow>,
                               r: Resource, i: int)
    requires fetch(r.arId, r.crId).Some?
    requires 0 <= i < |DaySlots(fetch(r.arId, r.crId).value)|
    requires SlotCandidate(allowed, forbidden, DaySlots(fetch(r.arId, r.crId).value)[i]).Some?
    ensures ResourceCandidate(fetch, allowed, forbidden, r).Some?
    ensures NotAfter(ResourceCandidate(fetch, allowed, forbidden, r).value.start,
                     SlotCandidate(allowed, forbidden, DaySlots(fetch(r.arId, r.crId).value)[i]).value.start)
  {
    PickEarliestSpec(fetch(r.arId, r.crId).value, allowed, forbidden, i);
  }

  /** The earliest of a list starts no later than any of its members. */
  lemma EarliestBelow<T(!new)>(cs: seq<Timed<T>>, x: Timed<T>)
    requires x in cs
    ensures Earliest(cs).Some? && NotAfter(Earliest(cs).value.start, x.start)
  {
    EarliestSpec(cs);
  }

  /** The candidates across resources come from the resources' own best slots. */
  lemma ResourceCandidatesMember(resources: seq<Resource>, fetch: (int, int) -> Option<seq<Day>>,
                                 allowed: seq<TimeWindow>, forbidden: seq<TimeWindow>, x: Timed<Choice>)
    ensures x in ResourceCandidates(resources, fetch, allowed, forbidden) <==>
      exists n :: 0 <= n < |resources| && ResourceCandidate(fetch, allowed, forbidden, resources[n]) == Some(x)
  {
    var f := ResourceCandidateOf(fetch, allowed, forbidden);
    FlatMapMember(resources, Keep(f), x);
    assert forall n :: 0 <= n < |resources| ==> (x in Keep(f)(resources[n]) <==> f(resources[n]) == Some(x));
  }

  /** What one resource offers carries that resource. */
  lemma ResourceCandidateOwn(fetch: (int, int) -> Option<seq<Day>>, allowed: seq<TimeWindow>, forbidden: seq<TimeWindow>, r: Resource)
    requires ResourceCandidate(fetch, allowed, forbidden, r).Some?
    ensures ResourceCandidate(fetch, allowed, forbidden, r).value.item.resource == r
  {
  }

  /**
   * The chosen slot is the best slot of a resource of the target clinic, and
   * no passing slot of any of its resources starts earlier.
   */
  lemma ShiftChoiceEarliest(lpus: seq<Lpu>, target: string, fetch: (int, int) -> Option<seq<Day>>,
                            allowed: seq<TimeWindow>, forbidden: seq<TimeWindow>, n: int, i: int)
    requires 0 <= n < |IterResources(lpus, target)|
    requires var r := IterResources(lpus, target)[n];
      && fetch(r.arId, r.crId).Some?
      && 0 <= i < |DaySlots(fetch(r.arId, r.crId).value)|
      && SlotCandidate(allowed, forbidden, DaySlots(fetch(r.arId, r.crId).value)[i]).Some?
    ensures ShiftChoice(lpus, target, fetch, allowed, forbidden).Some?
    ensures var r := IterResources(lpus, target)[n];
      var c := SlotCandidate(allowed, forbidden, DaySlots(fetch(r.arId, r.crId).value)[i]).value;
      NotAfter(ShiftChoice(lpus, target, fetch, allowed, forbidden).value.start, c.start)
    ensures ShiftChoice(lpus, target, fetch, allowed, forbidden).value.item.resource in IterResources(lpus, target)
  {
    var resources := IterResources(lpus, target);
    var r := resources[n];
    var c := SlotCandidate(allowed, forbidden, DaySlots(fetch(r.arId, r.crId).value)[i]).value;
    ResourceCandidateBound(fetch, allowed, forbidden, r, i);
    var rc := ResourceCandidate(fetch, allowed, forbidden, r).value;
    var cs := ResourceCandidates(resources, fetch, allowed, forbidden);
    ResourceCandidatesMember(resources, fetch, allowed, forbidden, rc);
    EarliestBelow(cs, rc);
    var best := Earliest(cs).value;
    NotAfterTransitive(best.start, rc.start, c.start);
    EarliestSpec(cs);
    ResourceCandidatesMember(resources, fetch, allowed, forbidden, best);
    var q :| 0 <= q < |resources| && ResourceCandidate(fetch, allowed, forbidden, resources[q]) == Some(best);
    ResourceCandidateOwn(fetch, allowed, forbidden, resources[q]);
  }

  /** With no matching clinic there is nothing to shift to. */
  lemma NoClinicNoChoice(lpus: seq<Lpu>, target: string, fetch: (int, int) -> Option<seq<Day>>,
                         allowed: seq<TimeWindow>, forbidden: seq<TimeWindow>)
    requires forall i :: 0 <= i < |lpus| ==> lpus[i].shortName != Some(target)
    ensures ShiftChoice(lpus, target, fetch, allowed, forbidden) == None
  {
    FlatMapNothing(lpus, LpuBlock(target));
    assert IterResources(lpus, target) == [];
  }
}
