/**
 * One pass of `check_schedule_updates` (bot.py) over one tracking record: the
 * record (`active`, `auto_booking`, its stored rules) is an object the pass
 * updates, and the saved schedules (`doctor_schedules`) are a map from doctor
 * to the last `scheduleOfDay` saved for it. The schedule fetch and the booking
 * call are inputs: the fetch result, and what `book_appointment` returns.
 */
module Tracking {
  import opened Options
  import opened Calendar
  import opened Schedule
  import StoredRules
  import SlotSelect
  import RuleMatch
  import Booking

  type Rule = StoredRules.Rule
  type StoredRule = StoredRules.StoredRule

  /** A `UserTrackedDoctor` row: the doctor it follows and the fields the pass reads and writes. */
  class TrackRecord {
    const doctor: string
    var active: bool
    var autoBooking: bool
    var rules: seq<StoredRule>

    constructor(doctor: string, active: bool, autoBooking: bool, rules: seq<StoredRule>)
      ensures this.doctor == doctor && this.active == active
      ensures this.autoBooking == autoBooking && this.rules == rules
    {
      this.doctor := doctor;
      this.active := active;
      this.autoBooking := autoBooking;
      this.rules := rules;
    }
  }

  /**
   * The `doctor_schedules` table: the saved `scheduleOfDay` of each doctor,
   * one row per doctor (`doctor_api_id` is unique).
   */
  class BaselineStore {
    var baselines: map<string, seq<Day>>

    constructor(baselines: map<string, seq<Day>>)
      ensures this.baselines == baselines
    {
      this.baselines := baselines;
    }

    /** The fetch's own save: the doctor's row is updated, or created when there is none. */
    method Save(doctor: string, days: seq<Day>)
      modifies this
      ensures baselines == old(baselines)[doctor := days]
    {
      baselines := baselines[doctor := days];
    }

    /**
     * A new row for the doctor, committed: it fails on the unique key when the
     * doctor already has a row, and then nothing is written.
     */
    method Insert(doctor: string, days: seq<Day>) returns (ok: bool)
      modifies this
      ensures ok == (doctor !in old(baselines))
      ensures ok ==> baselines == old(baselines)[doctor := days]
      ensures !ok ==> baselines == old(baselines)
    {
      ok := doctor !in baselines;
      if ok {
        baselines := baselines[doctor := days];
      }
    }

    /** The row read before the fetch gets the new schedule text, committed. */
    method Update(doctor: string, days: seq<Day>)
      requires doctor in baselines
      modifies this
      ensures baselines == old(baselines)[doctor := days]
    {
      baselines := baselines[doctor := days];
    }
  }

  /** What the pass does with one record. */
  datatype Outcome =
    | DoctorUnknown                 // no such doctor: the record is queued for deletion
    | Paused                        // tracking is switched off
    | NoSchedule                    // the fetch gave no payload
    | AutoBook(attempt: Option<string>, booked: bool)
                                    // auto mode: the slot tried (if any) and whether it was booked
    | BookingAborts(slot: string)
                                    // auto mode: `book_appointment` returned a bare False or raised,
                                    // so unpacking its result raises and ends the whole pass
    | Notify(appeared: bool, slots: set<string>, nearest: Option<string>)
                                    // manual mode: a message listing `slots`; `appeared` for the
                                    // "slots appeared" wording; `nearest` the earliest usable slot
    | Quiet                         // manual mode and nothing to report
    | SaveConflict                  // manual mode, no baseline before the fetch, and the fetch wrote
                                    // one: the second row for the doctor breaks the unique key and
                                    // the error ends the whole pass before any message

  /** The keys among `keys` that `filter_slots_by_rules` keeps. */
  function Relevant(keys: set<string>, rules: seq<Rule>, now: DateTime): (r: set<string>)
    requires ValidNow(now)
    ensures r <= keys
    ensures forall k :: k in keys && SlotSelect.Keeps(k, rules, now) ==> k in r
  {
    set k | k in keys && SlotSelect.Keeps(k, rules, now)
  }

  /** The display text of the earliest usable slot: the head of `collect_matching_slots`. */
  function Nearest(days: seq<Day>, rules: seq<Rule>, now: DateTime): Option<string>
    requires ValidNow(now)
  {
    var offers := SlotSelect.Offers(SlotSelect.SortedCandidates(days, rules, now));
    if offers == [] then None else Some(offers[0].display)
  }

  /**
   * The manual-mode decision after the diff, as the source computes it from the
   * old baseline (missing, or reduced to keys) and the fetched schedule.
   */
  function ManualDecision(baseline: Option<seq<Day>>, current: seq<Day>, rules: seq<Rule>, now: DateTime): (o: Outcome)
    requires ValidNow(now)
    ensures o.Notify? || o == Quiet
  {
    var oldData := if baseline.Some? then baseline.value else [];
    var diff := Compare(oldData, current);
    var relevantAdded := Relevant(diff.added, rules, now);
    var relevantNow := Relevant(ScheduleKeys(current), rules, now);
    var oldKeys: set<string> := if oldData == [] then {} else ScheduleKeys(oldData);
    var oldRelevant := Relevant(oldKeys, rules, now);
    Decide(baseline.None?, relevantAdded, relevantNow, oldRelevant, Nearest(current, rules, now))
  }

  /**
   * What the manual branch ends in: the insert of a first baseline fails when
   * the fetch has already written a row for the doctor; otherwise the manual decision.
   */
  function ManualOutcome(baseline: Option<seq<Day>>, fetchSaved: bool, current: seq<Day>, rules: seq<Rule>,
                         now: DateTime): (o: Outcome)
    requires ValidNow(now)
    ensures o.Notify? || o == Quiet || o == SaveConflict
    ensures o == SaveConflict <==> baseline.None? && fetchSaved
  {
    if baseline.None? && fetchSaved then SaveConflict else ManualDecision(baseline, current, rules, now)
  }

  /**
   * The message decision from the relevant added, current and old slots: the
   * "appeared" wording when nothing relevant was there before (or there was no
   * baseline) and something relevant is there now.
   */
  function Decide(noBaseline: bool, added: set<string>, current: set<string>, before: set<string>, best: Option<string>): (o: Outcome)
    ensures o.Notify? || o == Quiet
  {
    var appeared := (|before| == 0 && current != {} && added == {}) || (noBaseline && current != {});
    var shown := if appeared then current else added;
    var nearest := if current != {} then best else None;
    if appeared || added != {} then Notify(appeared, shown, nearest) else Quiet
  }

  /**
   * Manual mode notifies exactly when a relevant slot was added, or when no
   * slot of the old schedule was relevant and some current one is; the message
   * lists only relevant current slots, and never none.
   */
  lemma ManualDecisionSpec(baseline: Option<seq<Day>>, current: seq<Day>, rules: seq<Rule>, now: DateTime)
    requires ValidNow(now)
    ensures var oldKeys := if baseline.Some? then ScheduleKeys(baseline.value) else {};
      var newKeys := ScheduleKeys(current);
      var o := ManualDecision(baseline, current, rules, now);
      && (o.Notify? <==> Relevant(newKeys - oldKeys, rules, now) != {}
                          || (Relevant(oldKeys, rules, now) == {} && Relevant(newKeys, rules, now) != {}))
      && (o.Notify? ==> o.slots != {} && o.slots <= Relevant(newKeys, rules, now))
      && (o.Notify? && !o.appeared ==> o.slots == Relevant(newKeys - oldKeys, rules, now))
  {
    var oldData := if baseline.Some? then baseline.value else [];
    assert oldData == [] ==> ScheduleKeys(oldData) == {};
  }

  /** With a baseline whose slots are the current ones, manual mode stays quiet. */
  lemma UnchangedScheduleIsQuiet(baseline: seq<Day>, current: seq<Day>, rules: seq<Rule>, now: DateTime)
    requires ValidNow(now)
    requires ScheduleKeys(baseline) == ScheduleKeys(current)
    ensures ManualDecision(Some(baseline), current, rules, now) == Quiet
  {
    ManualDecisionSpec(Some(baseline), current, rules, now);
    assert ScheduleKeys(current) - ScheduleKeys(baseline) == {};
  }

  /**
   * A relevant slot that was not in the baseline is announced, and is in the
   * message, unless the baseline was missing and the fetch saved one: then the
   * pass fails before any message.
   */
  lemma NewRelevantSlotAnnounced(baseline: Option<seq<Day>>, fetchSaved: bool, current: seq<Day>,
                                 rules: seq<Rule>, now: DateTime, k: string)
    requires ValidNow(now)
    requires k in ScheduleKeys(current) && SlotSelect.Keeps(k, rules, now)
    requires baseline.Some? ==> k !in ScheduleKeys(baseline.value)
    ensures var o := ManualOutcome(baseline, fetchSaved, current, rules, now);
      if baseline.None? && fetchSaved then o == SaveConflict else o.Notify? && k in o.slots
  {
    ManualDecisionSpec(baseline, current, rules, now);
    var oldKeys := if baseline.Some? then ScheduleKeys(baseline.value) else {};
    assert k in Relevant(ScheduleKeys(current) - oldKeys, rules, now);
  }

  /**
   * One pass over one record: the freeze of its rules, the baseline read before
   * the fetch, the fetch, and then either the auto-booking branch or the diff
   * and the manual-mode decision. The fetch returns `fetched` (None: no payload)
   * and, on its own, writes `fetchWrote` as the doctor's row when one of its
   * requests answered with a `scheduleOfDay` (even an empty one, even when the
   * payload finally returned is another one or none) and that commit went through.
   */
  method CheckRecord(track: TrackRecord, store: BaselineStore, doctorKnown: bool, fetched: Option<seq<Day>>,
                     fetchWrote: Option<seq<Day>>, booking: Booking.BookResult, now: DateTime) returns (outcome: Outcome)
    requires ValidNow(now)
    modifies track, store
    ensures !doctorKnown ==> outcome == DoctorUnknown
    ensures doctorKnown && !old(track.active) ==> outcome == Paused
    ensures !doctorKnown || !old(track.active) ==> unchanged(track, store)
    ensures track.active == old(track.active)
    ensures doctorKnown && old(track.active) ==> track.rules == StoredRules.FreezeRules(old(track.rules), now)
    ensures doctorKnown && old(track.active) && fetched.None? ==>
      && outcome == NoSchedule && track.autoBooking == old(track.autoBooking)
      && store.baselines == if fetchWrote.Some? then old(store.baselines)[track.doctor := fetchWrote.value]
                            else old(store.baselines)
    ensures doctorKnown && old(track.active) && fetched.Some? ==>
      store.baselines == if track.doctor !in old(store.baselines) && fetchWrote.Some?
                         then old(store.baselines)[track.doctor := fetchWrote.value]
                         else old(store.baselines)[track.doctor := fetched.value]
    ensures doctorKnown && old(track.active) && fetched.Some? && old(track.autoBooking) ==>
      var rules := StoredRules.NormalizedAll(track.rules, now.date.year);
      var best := Nearest(fetched.value, rules, now);
      outcome == AutoOutcome(best, booking) && track.autoBooking == !(outcome.AutoBook? && outcome.booked)
    ensures doctorKnown && old(track.active) && fetched.Some? && !old(track.autoBooking) ==>
      var rules := StoredRules.NormalizedAll(track.rules, now.date.year);
      var baseline := if track.doctor in old(store.baselines) then Some(old(store.baselines)[track.doctor]) else None;
      outcome == ManualOutcome(baseline, fetchWrote.Some?, fetched.value, rules, now) && !track.autoBooking
  {
    if !doctorKnown {
      return DoctorUnknown;
    }
    if !track.active {
      return Paused;
    }
    FreezeTrack(track, now);
    outcome := FetchAndDecide(track, store, fetched, fetchWrote, booking, now);
  }

  /** `freeze_rules_if_needed` on the record: its rules are written back only when the freeze changed them. */
  method FreezeTrack(track: TrackRecord, now: DateTime)
    requires ValidNow(now)
    modifies track
    ensures track.rules == StoredRules.FreezeRules(old(track.rules), now)
    ensures track.active == old(track.active) && track.autoBooking == old(track.autoBooking)
  {
    var frozen, changed := StoredRules.FreezeRulesIfNeeded(track.rules, now);
    if changed {
      track.rules := frozen;
    }
  }

  /**
   * The pass after the freeze: the baseline read, the fetch and what it wrote,
   * and the branch on auto-booking. A first baseline that the fetch wrote
   * stays as written: the branch's own insert of it fails and is rolled back.
   */
  method FetchAndDecide(track: TrackRecord, store: BaselineStore, fetched: Option<seq<Day>>,
                        fetchWrote: Option<seq<Day>>, booking: Booking.BookResult, now: DateTime) returns (outcome: Outcome)
    requires ValidNow(now)
    modifies track, store
    ensures track.active == old(track.active) && track.rules == old(track.rules)
    ensures fetched.None? ==>
      && outcome == NoSchedule && track.autoBooking == old(track.autoBooking)
      && store.baselines == if fetchWrote.Some? then old(store.baselines)[track.doctor := fetchWrote.value]
                            else old(store.baselines)
    ensures fetched.Some? ==>
      store.baselines == if track.doctor !in old(store.baselines) && fetchWrote.Some?
                         then old(store.baselines)[track.doctor := fetchWrote.value]
                         else old(store.baselines)[track.doctor := fetched.value]
    ensures fetched.Some? && old(track.autoBooking) ==>
      var rules := StoredRules.NormalizedAll(track.rules, now.date.year);
      var best := Nearest(fetched.value, rules, now);
      outcome == AutoOutcome(best, booking) && track.autoBooking == !(outcome.AutoBook? && outcome.booked)
    ensures fetched.Some? && !old(track.autoBooking) ==>
      var rules := StoredRules.NormalizedAll(track.rules, now.date.year);
      var baseline := if track.doctor in old(store.baselines) then Some(old(store.baselines)[track.doctor]) else None;
      outcome == ManualOutcome(baseline, fetchWrote.Some?, fetched.value, rules, now) && !track.autoBooking
  {
    // the old baseline is read before the fetch, which may write a row of its own
    var baseline := if track.doctor in store.baselines then Some(store.baselines[track.doctor]) else None;
    if fetchWrote.Some? {
      store.Save(track.doctor, fetchWrote.value);
    }
    if fetched.None? {
      return NoSchedule;
    }
    var current := fetched.value;
    var rules := StoredRules.NormalizeRules(track.rules, now.date.year);
    var best := NearestSlot(current, rules, now);
    if track.autoBooking {
      outcome := AutoBranch(track, store, baseline, current, best, booking);
    } else {
      var saved := track.doctor in store.baselines;
      outcome := ManualBranch(track, store, baseline, current, rules, now, best);
      SavedFlag(baseline, saved, fetchWrote.Some?, current, rules, now);
    }
    SaveOver(old(store.baselines), track.doctor, fetchWrote, current);
  }

  /** A row the fetch wrote and the branch then overwrote holds what the branch wrote. */
  lemma SaveOver(m: map<string, seq<Day>>, k: string, wrote: Option<seq<Day>>, v: seq<Day>)
    ensures (if wrote.Some? then m[k := wrote.value] else m)[k := v] == m[k := v]
  {
  }

  /** With a baseline read, whether the fetch wrote does not matter; without one, the row exists iff it did. */
  lemma SavedFlag(baseline: Option<seq<Day>>, saved: bool, fetchSaved: bool, current: seq<Day>, rules: seq<Rule>,
                  now: DateTime)
    requires ValidNow(now) && (baseline.None? ==> saved == fetchSaved)
    ensures ManualOutcome(baseline, saved, current, rules, now) == ManualOutcome(baseline, fetchSaved, current, rules, now)
  {
  }

  /**
   * What the auto branch ends in: no attempt without a usable slot; otherwise
   * the `(success, kind)` pair of `book_appointment`, where a bare False or an
   * exception makes the unpacking raise.
   */
  function AutoOutcome(best: Option<string>, booking: Booking.BookResult): (o: Outcome)
    ensures o.AutoBook? || o.BookingAborts?
    ensures o.BookingAborts? <==> best.Some? && (booking.BareFalse? || booking.Raises?)
    ensures o.BookingAborts? ==> o.slot == best.value
    ensures o.AutoBook? ==> o.attempt == best && (o.booked <==> best.Some? && booking.Booked?)
  {
    if best.None? then AutoBook(None, false)
    else if booking.BareFalse? || booking.Raises? then BookingAborts(best.value)
    else AutoBook(best, booking.Booked?)
  }

  /**
   * The auto-booking branch: the baseline is saved as the fetched schedule (a
   * failed insert is rolled back, leaving the row the fetch wrote), one
   * booking of the nearest slot is tried if there is one, and success switches
   * auto-booking off; no diff and no notification follow.
   */
  method AutoBranch(track: TrackRecord, store: BaselineStore, baseline: Option<seq<Day>>, current: seq<Day>,
                    best: Option<string>, booking: Booking.BookResult) returns (outcome: Outcome)
    requires baseline.Some? ==> track.doctor in store.baselines
    modifies track, store
    ensures store.baselines == if baseline.None? && track.doctor in old(store.baselines) then old(store.baselines)
                               else old(store.baselines)[track.doctor := current]
    ensures outcome == AutoOutcome(best, booking)
    ensures track.autoBooking == (old(track.autoBooking) && !(outcome.AutoBook? && outcome.booked))
    ensures track.rules == old(track.rules) && track.active == old(track.active)
  {
    if baseline.None? {
      var inserted := store.Insert(track.doctor, current);
    } else {
      store.Update(track.doctor, current);
    }
    if best.None? {
      return AutoBook(None, false);
    }
    match booking
    case BareFalse => return BookingAborts(best.value);
    case Raises => return BookingAborts(best.value);
    case Failed(_) => return AutoBook(best, false);
    case Booked(_) =>
      track.autoBooking := false;
      return AutoBook(best, true);
  }

  /**
   * The manual branch: the diff against the baseline read before the fetch, the
   * save of the fetched schedule, and the decision; the insert of a first
   * baseline fails when the fetch wrote a row, which then stays as written,
   * and nothing is announced.
   */
  method ManualBranch(track: TrackRecord, store: BaselineStore, baseline: Option<seq<Day>>, current: seq<Day>,
                      rules: seq<Rule>, now: DateTime, best: Option<string>) returns (outcome: Outcome)
    requires ValidNow(now) && best == Nearest(current, rules, now)
    requires baseline.Some? ==> track.doctor in store.baselines
    modifies store
    ensures store.baselines == if baseline.None? && track.doctor in old(store.baselines) then old(store.baselines)
                               else old(store.baselines)[track.doctor := current]
    ensures outcome == ManualOutcome(baseline, track.doctor in old(store.baselines), current, rules, now)
  {
    var oldData := if baseline.Some? then baseline.value else [];
    var diff := Compare(oldData, current);
    if baseline.None? {
      var inserted := store.Insert(track.doctor, current);
      if !inserted {
        return SaveConflict;
      }
    } else {
      store.Update(track.doctor, current);
    }
    outcome := Announce(baseline, diff, current, rules, now, best);
  }

  /** `collect_matching_slots(...)[0]`, the slot the auto branch tries and the message names. */
  method NearestSlot(current: seq<Day>, rules: seq<Rule>, now: DateTime) returns (best: Option<string>)
    requires ValidNow(now)
    ensures best == Nearest(current, rules, now)
  {
    var matching := SlotSelect.CollectMatchingSlots(current, rules, now);
    best := if matching == [] then None else Some(matching[0].display);
  }

  /** The manual-mode tail of the pass: filter the diff and the schedules by the rules and decide. */
  method Announce(baseline: Option<seq<Day>>, diff: Diff, current: seq<Day>, rules: seq<Rule>, now: DateTime,
                  best: Option<string>) returns (outcome: Outcome)
    requires ValidNow(now)
    requires diff == Compare(if baseline.Some? then baseline.value else [], current)
    requires best == Nearest(current, rules, now)
    ensures outcome == ManualDecision(baseline, current, rules, now)
  {
    var oldData := if baseline.Some? then baseline.value else [];
    var relevantAdded := SlotSelect.FilterSlotsByRules(diff.added, rules, now);
    var allCurrent := ParseSchedulePayload(current);
    var relevantNow := SlotSelect.FilterSlotsByRules(allCurrent, rules, now);
    var oldSlots: set<string> := {};
    if oldData != [] {
      oldSlots := ParseSchedulePayload(oldData);
    }
    var oldRelevant := SlotSelect.FilterSlotsByRules(oldSlots, rules, now);
    SeqOfSet(relevantAdded, Relevant(diff.added, rules, now));
    SeqOfSet(relevantNow, Relevant(ScheduleKeys(current), rules, now));
    SeqOfSet(oldRelevant, Relevant(oldSlots, rules, now));
    outcome := Conclude(baseline.None?, relevantAdded, relevantNow, oldRelevant, best);
  }

  /** The message decision on the sorted listings of the relevant slots. */
  method Conclude(noBaseline: bool, relevantAdded: seq<string>, relevantNow: seq<string>, oldRelevant: seq<string>,
                  best: Option<string>) returns (outcome: Outcome)
    requires SlotSelect.StrictlySorted(relevantAdded) && SlotSelect.StrictlySorted(relevantNow)
    requires SlotSelect.StrictlySorted(oldRelevant)
    ensures outcome == Decide(noBaseline, (set s | s in relevantAdded), (set s | s in relevantNow),
                              (set s | s in oldRelevant), best)
  {
    SeqOfSet(relevantAdded, set s | s in relevantAdded);
    SeqOfSet(relevantNow, set s | s in relevantNow);
    SeqOfSet(oldRelevant, set s | s in oldRelevant);
    var appeared := (|oldRelevant| == 0 && |relevantNow| > 0 && relevantAdded == [])
                  || (noBaseline && |relevantNow| > 0);
    if appeared || relevantAdded != [] {
      var shown := if appeared then relevantNow else relevantAdded;
      var nearest := if relevantNow != [] then best else None;
      outcome := Notify(appeared, (set s | s in shown), nearest);
    } else {
      outcome := Quiet;
    }
  }

  /** A strictly sorted listing of a set is empty, or has as many elements, exactly when the set does. */
  lemma SeqOfSet(xs: seq<string>, s: set<string>)
    requires SlotSelect.StrictlySorted(xs)
    requires forall x :: x in xs <==> x in s
    ensures (set x | x in xs) == s
    ensures (xs == []) == (s == {}) && (|xs| == 0) == (|s| == 0)
  {
    assert (set x | x in xs) == s;
    if xs != [] {
      assert xs[0] in s;
    }
  }
}
