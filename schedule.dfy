/**
 * The schedule the clinic service returns for one resource (bot.py): days, each
 * with blocks, each with slots carrying a `startTime` such as
 * `2025-03-24T18:15:00+03:00`. This module models `parse_schedule_payload`,
 * which reduces a schedule to its set of `YYYY-MM-DD HH:MM` slot keys, and
 * `compare_schedules_payloads`, which takes the two set differences.
 */
module Schedule {
  import opened Options
  import Sequences
  import opened PyText
  import opened Calendar

  /** One bookable slot; a missing or empty `startTime` / `endTime` is the empty text. */
  datatype Slot = Slot(startTime: string, endTime: string)

  /** One element of a day's `scheduleBySlot`; a missing `slot` list is empty. */
  datatype Block = Block(slots: seq<Slot>)

  /** One element of `scheduleOfDay`; a missing `scheduleBySlot` list is empty. */
  datatype Day = Day(blocks: seq<Block>)

  /** The slots of a list of blocks, in the order the nested loops visit them. */
  function BlockSlots(bs: seq<Block>): seq<Slot> {
    if bs == [] then [] else bs[0].slots + BlockSlots(bs[1..])
  }

  /** The slots of a list of days, in the order the nested loops visit them. */
  function DaySlots(ds: seq<Day>): seq<Slot> {
    if ds == [] then [] else BlockSlots(ds[0].blocks) + DaySlots(ds[1..])
  }

  /** `f"{start[:10]} {start[11:16]}"`: the date, a space, and the clock to the minute. */
  function SlotKey(start: string): (k: string)
    requires |start| >= 16
    ensures |k| == 16 && k[10] == ' '
  {
    start[..10] + " " + start[11..16]
  }

  /** A slot contributes a key when its start text has at least 16 characters. */
  predicate HasKey(s: Slot) {
    |s.startTime| >= 16
  }

  /** The keys of the slots that have one. */
  function KeySet(slots: seq<Slot>): set<string> {
    set s | s in slots && HasKey(s) :: SlotKey(s.startTime)
  }

  /** The keys of a schedule. */
  function ScheduleKeys(days: seq<Day>): set<string> {
    KeySet(DaySlots(days))
  }

  /** `parse_schedule_payload`: adds the key of every slot the nested loops visit. */
  method ParseSchedulePayload(days: seq<Day>) returns (keys: set<string>)
    ensures keys == ScheduleKeys(days)
    ensures forall k :: k in keys ==> |k| == 16 && k[10] == ' '
  {
    var slots := DaySlots(days);
    keys := {};
    var i := 0;
    while i < |slots|
      invariant 0 <= i <= |slots|
      invariant keys == KeySet(slots[..i])
    {
      var start := slots[i].startTime;
      Sequences.PrefixSnoc(slots, i);
      if |start| >= 16 {
        keys := keys + {SlotKey(start)};
      }
      i := i + 1;
    }
    assert slots[..i] == slots;
  }

  /**
   * A slot whose start is a service time stamp with minutes gets the key the
   * selectors print for the same slot (`strftime('%Y-%m-%d %H:%M')`), so the
   * two ways of naming a slot agree.
   */
  lemma SlotKeyIsSlotText(start: string)
    requires |start| >= 16 && start[13] == ':'
    requires ParseIsoDateTime(start).Some?
    ensures ValidDateTime(ParseIsoDateTime(start).value)
    ensures SlotKey(start) == SlotText(ParseIsoDateTime(start).value)
  {
    var t := ParseIsoDateTime(start).value;
    var rest := start[11..];
    var clock := rest[..SignIndex(rest)];
    var secs := ParseIsoClock(clock).value.0;
    assert secs == t.hour * 3600 + t.minute * 60 + t.second;
    assert clock[..5] == start[11..16];
    IsoClockText(clock);
    ClockOfSeconds(t.hour, t.minute, t.second, secs);
  }

  /** The first five characters of a clock are its hour and minute, zero-padded. */
  lemma IsoClockText(clock: string)
    requires |clock| >= 5 && ParseIsoClock(clock).Some?
    ensures var secs := ParseIsoClock(clock).value.0;
      clock[..5] == Pad2(secs / 3600) + ":" + Pad2(secs / 60 % 60)
  {
    var secs := ParseIsoClock(clock).value.0;
    var h := TwoDigitValue(clock, 0).value;
    var m := TwoDigitValue(clock, 3).value;
    ClockFields(clock, h, m, secs);
    var hh := clock[..2];
    var mm := clock[3..5];
    assert hh == [clock[0], clock[1]] && mm == [clock[3], clock[4]];
    DecValueOfTwo(hh);
    DecValueOfTwo(mm);
    Pad2OfDigits(hh);
    Pad2OfDigits(mm);
    assert clock[..5] == hh + ":" + mm;
  }

  /** The hour and minute fields of a clock read back from its seconds count. */
  lemma ClockFields(clock: string, h: nat, m: nat, secs: nat)
    requires |clock| >= 5 && ParseIsoClock(clock).Some? && ParseIsoClock(clock).value.0 == secs
    requires TwoDigitValue(clock, 0) == Some(h) && TwoDigitValue(clock, 3) == Some(m)
    ensures h < 24 && m < 60 && secs / 3600 == h && secs / 60 % 60 == m
  {
    var sec := secs - h * 3600 - m * 60;
    assert 0 <= sec < 60;
    ClockOfSeconds(h, m, sec, secs);
  }

  /** Seconds since midnight split back into hour and minute. */
  lemma ClockOfSeconds(h: int, m: int, sec: int, secs: int)
    requires ValidClock(h, m, sec) && secs == h * 3600 + m * 60 + sec
    ensures secs / 3600 == h && secs / 60 % 60 == m
  {
    assert secs / 60 == h * 60 + m;
  }

  // ---------------- compare_schedules_payloads ----------------

  /**
   * The outcome of comparing two schedules: the keys that appeared, the keys
   * that disappeared, and whether there is anything to report (the source then
   * returns a change text, otherwise None).
   */
  datatype Diff = Diff(added: set<string>, removed: set<string>, changed: bool)

  /** `compare_schedules_payloads(before, after)`. */
  function Compare(before: seq<Day>, after: seq<Day>): (r: Diff)
    ensures r.added == ScheduleKeys(after) - ScheduleKeys(before)
    ensures r.removed == ScheduleKeys(before) - ScheduleKeys(after)
    ensures r.added !! r.removed
    ensures (ScheduleKeys(before) - r.removed) + r.added == ScheduleKeys(after)
    ensures r.changed <==> ScheduleKeys(before) != ScheduleKeys(after)
  {
    var oldKeys := if before == [] then {} else ScheduleKeys(before);
    var newKeys := if after == [] then {} else ScheduleKeys(after);
    var added := newKeys - oldKeys;
    var removed := oldKeys - newKeys;
    if added == {} && removed == {} then Diff({}, {}, false)
    else Diff(added, removed, true)
  }

  /** A schedule compared with itself shows no change. */
  lemma CompareSelf(days: seq<Day>)
    ensures Compare(days, days) == Diff({}, {}, false)
  {
  }

  /** Swapping the two schedules swaps what appeared and what disappeared. */
  lemma CompareSwap(a: seq<Day>, b: seq<Day>)
    ensures Compare(a, b).added == Compare(b, a).removed
    ensures Compare(a, b).removed == Compare(b, a).added
    ensures Compare(a, b).changed == Compare(b, a).changed
  {
  }
}
