/**
 * `book_appointment` (bot.py): book a slot for a user, either by moving an
 * existing appointment of the same speciality group (shift) or by creating a
 * new one, with the referral policy gating creation, and record the new
 * appointment id on the user's link rows of every speciality in the group.
 *
 * The database rows it reads (the doctor, the speciality row, the user's
 * links) and the upstream replies (the patient's appointments, the schedule,
 * the create and shift replies) are inputs; the links are an object the
 * booking updates.
 */
module Booking {
  import opened Options
  import opened PyText
  import opened Schedule
  import Specialities

  /** `DISPENSARY_WHITELIST`: specialities booked without a referral whatever their policy. */
  const Whitelist: set<string> := {"600034"}

  const DoctorMissing := "Врач не найден в базе данных"
  const DoctorIncomplete := "Недостаточно данных о враче"
  const NoScheduleText := "Не удалось получить расписание для врача"
  const ReferralRequired := "Требуется направление для записи"
  const UnknownError := "Неизвестная ошибка"
  const NoReply := "Нет ответа от сервера"

  /** The `DoctorInfo` row; an empty text stands for a missing column. */
  datatype Doctor = Doctor(apiId: string, complexResourceId: string, speciality: Option<string>)

  /** The `Specialty` row of the doctor's speciality code. */
  datatype SpecialtyRow = SpecialtyRow(receptionType: Option<int>, referralPolicy: Option<int>)

  /** A `UserDoctorLink` row of this user; an empty text stands for NULL. */
  datatype Link = Link(appointmentId: string, referralId: string)

  /**
   * An appointment of the patient as the upstream lists it: its speciality code
   * and the text of its `appointmentId or id`. Every falsy JSON value there (the
   * number 0, null, false, "", a missing key) is given as "", so `appointmentId: 0,
   * id: 5` is "5"; the string "0" is truthy in JSON and stays "0".
   */
  datatype ApiAppointment = ApiAppointment(speciality: string, id: string)

  /** The schedule reply: its `Описание` and its payload, when there is one. */
  datatype ScheduleReply = ScheduleReply(description: string, payload: Option<SchedulePayload>)
  datatype SchedulePayload = SchedulePayload(description: string, days: seq<Day>)

  /**
   * A create or shift reply: whether it has the `payload` and `appointmentId`
   * keys, the ids found at `appointmentId`, `payload.appointmentId` and
   * `data.appointmentId` ("" when absent or empty), and its `Описание`. A
   * `Reply` is a non-empty reply: the empty reply `{}` is falsy, so the code
   * treats it exactly as no reply, and both are `None` where a reply is optional.
   */
  datatype Reply = Reply(hasPayload: bool, hasId: bool, id: string, payloadId: string, dataId: string,
                         description: Option<string>)

  /** An upstream booking call the decision makes. */
  datatype Call =
    | Shift(resource: int, complex: int, start: string, end: string, appointment: string, receptionType: int)
    | Create(resource: int, complex: int, start: string, end: string, receptionType: int)

  /**
   * The result: the source's `(True, kind)` and `(False, message)` pairs, the
   * bare `False` two paths return instead of a pair, and the exception one
   * conversion lets escape.
   */
  datatype BookResult = Booked(kind: string) | Failed(message: string) | BareFalse | Raises

  /** What one booking does: its result, its upstream booking calls, and the appointment id it saves. */
  datatype Decision = Decision(result: BookResult, calls: seq<Call>, save: Option<string>)

  // ---------------- finding an existing appointment ----------------

  /**
   * The first lookup: the id of the patient's first appointment whose speciality
   * is in the group and whose id is present ("" when there is none).
   */
  function ApiAppointmentId(appts: seq<ApiAppointment>, group: set<string>): string {
    if appts == [] then ""
    else if appts[0].speciality != "" && appts[0].speciality in group && appts[0].id != "" then appts[0].id
    else ApiAppointmentId(appts[1..], group)
  }

  /** The appointment of a group member's speciality that the first lookup settles on. */
  predicate ApiMatch(a: ApiAppointment, group: set<string>) {
    a.speciality != "" && a.speciality in group && a.id != ""
  }

  /** The first lookup finds an id exactly when some appointment matches, and then it is the first match's. */
  lemma {:induction false} ApiAppointmentIdSpec(appts: seq<ApiAppointment>, group: set<string>)
    ensures var id := ApiAppointmentId(appts, group);
      && (id == "" <==> forall i :: 0 <= i < |appts| ==> !ApiMatch(appts[i], group))
      && (id != "" ==> exists i :: 0 <= i < |appts| && ApiMatch(appts[i], group) && appts[i].id == id
                                   && forall j :: 0 <= j < i ==> !ApiMatch(appts[j], group))
  {
    if appts != [] {
      ApiAppointmentIdSpec(appts[1..], group);
      if !ApiMatch(appts[0], group) {
        var id := ApiAppointmentId(appts, group);
        if id != "" {
          var i :| 0 <= i < |appts[1..]| && ApiMatch(appts[1..][i], group) && appts[1..][i].id == id
                   && forall j :: 0 <= j < i ==> !ApiMatch(appts[1..][j], group);
          assert forall j :: 0 <= j < i + 1 ==> !ApiMatch(appts[j], group) by {
            forall j | 0 <= j < i + 1 ensures !ApiMatch(appts[j], group) {
              if j > 0 { assert appts[j] == appts[1..][j - 1]; }
            }
          }
        } else {
          assert forall i :: 0 <= i < |appts| ==> !ApiMatch(appts[i], group) by {
            forall i | 0 <= i < |appts| ensures !ApiMatch(appts[i], group) {
              if i > 0 { assert appts[i] == appts[1..][i - 1]; }
            }
          }
        }
      }
    }
  }

  /**
   * An appointment of the group with a falsy id does not end the first lookup:
   * the next one of the group with an id is taken.
   */
  lemma FalsyIdSkipped(rest: seq<ApiAppointment>, group: set<string>, code: string)
    ensures ApiAppointmentId([ApiAppointment(code, "")] + rest, group) == ApiAppointmentId(rest, group)
  {
    assert ([ApiAppointment(code, "")] + rest)[1..] == rest;
  }

  /** The loop over the patient's appointments. */
  method FindApiAppointment(appts: seq<ApiAppointment>, group: set<string>) returns (id: string)
    ensures id == ApiAppointmentId(appts, group)
  {
    id := "";
    var i := 0;
    while i < |appts|
      invariant 0 <= i <= |appts|
      invariant ApiAppointmentId(appts, group) == ApiAppointmentId(appts[i..], group)
    {
      assert appts[i..][1..] == appts[i + 1..];
      if appts[i].speciality != "" && appts[i].speciality in group {
        id := appts[i].id;
        if id != "" {
          return;
        }
      }
      i := i + 1;
    }
    id := "";
  }

  /** A link of the group whose appointment id converts to an integer. */
  predicate Linked(links: map<string, Link>, c: string) {
    c in links && links[c].appointmentId != "" && PyInt(links[c].appointmentId).Some?
  }

  /**
   * The second lookup, over the group's links in set order (which Python leaves
   * unspecified): any link whose appointment id converts, or "" when none does.
   */
  method FindLinkedAppointment(links: map<string, Link>, group: set<string>) returns (id: string)
    ensures id == "" <==> forall c :: c in group ==> !Linked(links, c)
    ensures id != "" ==> exists c :: c in group && Linked(links, c) && links[c].appointmentId == id
  {
    var rest := group;
    while rest != {}
      invariant rest <= group
      invariant forall c :: c in group - rest ==> !Linked(links, c)
      decreases |rest|
    {
      var c :| c in rest;
      if c in links && links[c].appointmentId != "" && PyInt(links[c].appointmentId).Some? {
        return links[c].appointmentId;
      }
      rest := rest - {c};
    }
    id := "";
  }

  /**
   * An appointment id as the code tests it after `int()`: present, and not a
   * text that converts to 0 (a text that does not convert stays a non-empty,
   * truthy string).
   */
  predicate Truthy(id: string) {
    id != "" && PyInt(id) != Some(0)
  }

  /**
   * The id an execution may shift: the first lookup's if it is truthy,
   * otherwise some converting link id of the group, otherwise none ("").
   */
  predicate FoundAppointment(found: string, appts: seq<ApiAppointment>, links: map<string, Link>, group: set<string>) {
    var api := ApiAppointmentId(appts, group);
    if Truthy(api) then found == api
    else if found == "" then forall c :: c in group ==> !Linked(links, c)
    else exists c :: c in group && Linked(links, c) && links[c].appointmentId == found
  }

  /**
   * The lookup after a refused creation: each appointment of the group sets the
   * id, the first whose id converts ends the loop, and an id that does not
   * convert is kept only until the next appointment of the group.
   */
  function LaterAppointmentId(appts: seq<ApiAppointment>, group: set<string>, acc: string): string {
    if appts == [] then acc
    else if appts[0].speciality in group then
      if appts[0].id != "" && PyInt(appts[0].id).Some? then appts[0].id
      else LaterAppointmentId(appts[1..], group, appts[0].id)
    else LaterAppointmentId(appts[1..], group, acc)
  }

  predicate Converts(a: ApiAppointment, group: set<string>) {
    a.speciality in group && a.id != "" && PyInt(a.id).Some?
  }

  /**
   * The later lookup yields the first converting id of the group when there is
   * one; otherwise the id of the last appointment of the group, or the initial
   * value when the group has none.
   */
  lemma {:induction false} LaterAppointmentIdSpec(appts: seq<ApiAppointment>, group: set<string>, acc: string, i: int)
    requires 0 <= i < |appts| && Converts(appts[i], group)
    requires forall j :: 0 <= j < i ==> !Converts(appts[j], group)
    ensures LaterAppointmentId(appts, group, acc) == appts[i].id
  {
    if i > 0 {
      assert !Converts(appts[0], group);
      forall j | 0 <= j < i - 1 ensures !Converts(appts[1..][j], group) {
        assert appts[1..][j] == appts[j + 1];
      }
      LaterAppointmentIdSpec(appts[1..], group, if appts[0].speciality in group then appts[0].id else acc, i - 1);
    }
  }

  /**
   * Without a converting id, the later lookup ends with the initial value or
   * the id of an appointment of the group, and with the initial value when the
   * group has no appointment.
   */
  lemma {:induction false} LaterAppointmentIdNone(appts: seq<ApiAppointment>, group: set<string>, acc: string)
    requires forall j :: 0 <= j < |appts| ==> !Converts(appts[j], group)
    ensures var r := LaterAppointmentId(appts, group, acc);
      r == acc || exists j :: 0 <= j < |appts| && appts[j].speciality in group && appts[j].id == r
    ensures (forall j :: 0 <= j < |appts| ==> appts[j].speciality !in group) ==> LaterAppointmentId(appts, group, acc) == acc
  {
    if appts != [] {
      var next := if appts[0].speciality in group then appts[0].id else acc;
      assert !Converts(appts[0], group);
      var tail := appts[1..];
      forall j | 0 <= j < |tail| ensures !Converts(tail[j], group) {
        assert tail[j] == appts[j + 1];
      }
      LaterAppointmentIdNone(tail, group, next);
      var r := LaterAppointmentId(tail, group, next);
      assert LaterAppointmentId(appts, group, acc) == r;
      if r != acc && r != next {
        var j :| 0 <= j < |tail| && tail[j].speciality in group && tail[j].id == r;
        assert appts[j + 1] == tail[j];
      } else if r != acc {
        assert appts[0].speciality in group && appts[0].id == r;
      }
      if forall j :: 0 <= j < |appts| ==> appts[j].speciality !in group {
        assert appts[0].speciality !in group;
        forall j | 0 <= j < |tail| ensures tail[j].speciality !in group {
          assert tail[j] == appts[j + 1];
        }
      }
    }
  }

  /** The loop over the patient's appointments after a refused creation. */
  method FindLaterAppointment(appts: seq<ApiAppointment>, group: set<string>) returns (id: string)
    ensures id == LaterAppointmentId(appts, group, "")
  {
    id := "";
    var i := 0;
    while i < |appts|
      invariant 0 <= i <= |appts|
      invariant LaterAppointmentId(appts, group, "") == LaterAppointmentId(appts[i..], group, id)
    {
      assert appts[i..][1..] == appts[i + 1..];
      if appts[i].speciality in group {
        id := appts[i].id;
        if id != "" && PyInt(id).Some? {
          return;
        }
      }
      i := i + 1;
    }
  }

  // ---------------- finding the slot ----------------

  /** `slot.replace(" ", "T")[:16]`: the ISO prefix the slot text names. */
  function Target(slot: string): (t: string)
    ensures |t| <= 16
  {
    var r := ReplaceChar(slot, ' ', 'T');
    if |r| <= 16 then r else r[..16]
  }

  /** `st[:16]`. */
  function Prefix16(st: string): (p: string)
    ensures |p| <= 16
  {
    if |st| <= 16 then st else st[..16]
  }

  predicate SlotHit(s: Slot, target: string) {
    s.startTime != "" && Prefix16(s.startTime) == target
  }

  /** The start and end of the first slot whose start begins with the target. */
  function SlotFor(slots: seq<Slot>, target: string): Option<(string, string)> {
    if slots == [] then None
    else if SlotHit(slots[0], target) then Some((slots[0].startTime, slots[0].endTime))
    else SlotFor(slots[1..], target)
  }

  /** The slot found is the first one whose start begins with the target, and there is one unless none does. */
  lemma {:induction false} SlotForSpec(slots: seq<Slot>, target: string)
    ensures SlotFor(slots, target).None? <==> forall i :: 0 <= i < |slots| ==> !SlotHit(slots[i], target)
    ensures SlotFor(slots, target).Some? ==>
      exists i :: 0 <= i < |slots| && SlotHit(slots[i], target)
        && SlotFor(slots, target).value == (slots[i].startTime, slots[i].endTime)
        && forall j :: 0 <= j < i ==> !SlotHit(slots[j], target)
  {
    if slots != [] {
      SlotForSpec(slots[1..], target);
      if !SlotHit(slots[0], target) {
        forall i | 0 < i < |slots| ensures slots[i] == slots[1..][i - 1] { }
        if SlotFor(slots, target).Some? {
          var i :| 0 <= i < |slots[1..]| && SlotHit(slots[1..][i], target)
                   && SlotFor(slots[1..], target).value == (slots[1..][i].startTime, slots[1..][i].endTime)
                   && forall j :: 0 <= j < i ==> !SlotHit(slots[1..][j], target);
          assert forall j :: 0 <= j < i + 1 ==> !SlotHit(slots[j], target);
        }
      }
    }
  }

  /** The nested loops over days, blocks and slots, leaving them at the first hit. */
  method FindSlot(days: seq<Day>, slot: string) returns (r: Option<(string, string)>)
    ensures r == SlotFor(DaySlots(days), Target(slot))
  {
    var slots := DaySlots(days);
    var target := Target(slot);
    var i := 0;
    while i < |slots|
      invariant 0 <= i <= |slots|
      invariant SlotFor(slots, target) == SlotFor(slots[i..], target)
    {
      assert slots[i..][1..] == slots[i + 1..];
      var st := slots[i].startTime;
      if st != "" && Prefix16(st) == target {
        return Some((st, slots[i].endTime));
      }
      i := i + 1;
    }
    r := None;
  }

  /**
   * The slot text the tracker offers (`YYYY-MM-DD HH:MM`, the slot's key) leads
   * the booking back to that slot's start: its target is the start's first 16
   * characters, whenever the start has the `T` separator and no blank before it.
   */
  lemma KeyFindsSlot(s: Slot)
    requires |s.startTime| >= 16 && s.startTime[10] == 'T'
    requires forall i :: 0 <= i < 16 ==> s.startTime[i] != ' '
    ensures SlotHit(s, Target(SlotKey(s.startTime)))
  {
    var st := s.startTime;
    var key := SlotKey(st);
    assert |key| == 16;
    assert forall i :: 0 <= i < 16 ==> ReplaceChar(key, ' ', 'T')[i] == st[i];
    assert Target(key) == st[..16];
  }

  // ---------------- the speciality row ----------------

  /** `reception_type_id`: the speciality row's value, 0 without a speciality, a row or a value. */
  function ReceptionTypeId(speciality: Option<string>, row: Option<SpecialtyRow>): int {
    if speciality.Some? && speciality.value != "" && row.Some? && row.value.receptionType.Some?
    then row.value.receptionType.value else 0
  }

  /**
   * `referral_policy`: the speciality row's value (0 without one; a row created
   * on the fly has the column default 0), forced to 2 for the whitelist.
   */
  function ReferralPolicy(speciality: Option<string>, row: Option<SpecialtyRow>): (p: int)
    ensures speciality.Some? && speciality.value in Whitelist ==> p == 2
    ensures speciality.None? || speciality.value == "" ==> p == 0
  {
    if speciality.Some? && speciality.value in Whitelist then 2
    else if speciality.Some? && speciality.value != "" && row.Some? && row.value.referralPolicy.Some?
    then row.value.referralPolicy.value else 0
  }

  /** Some link of the group carries a referral. */
  predicate HasReferral(links: map<string, Link>, group: set<string>) {
    exists c :: c in group && c in links && links[c].referralId != ""
  }

  // ---------------- replies ----------------

  /** `resp and ("payload" in resp or "appointmentId" in resp)`. */
  predicate Accepted(reply: Option<Reply>) {
    reply.Some? && (reply.value.hasPayload || reply.value.hasId)
  }

  /** The new id of an accepted reply; creation also looks under `data`. */
  function NewId(r: Reply, creation: bool): string {
    if r.id != "" then r.id else if r.payloadId != "" then r.payloadId else if creation then r.dataId else ""
  }

  /** The message of a refused reply. */
  function ReplyError(reply: Option<Reply>): string {
    if reply.None? then NoReply
    else if reply.value.description.Some? then reply.value.description.value
    else UnknownError
  }

  /** The schedule reply is unusable: missing, without a payload, or without days. */
  predicate NoSchedule(reply: Option<ScheduleReply>) {
    reply.None? || reply.value.payload.None? || reply.value.payload.value.days == []
  }

  /** The message for an unusable schedule reply. */
  function ScheduleError(reply: Option<ScheduleReply>): string {
    if reply.Some? && reply.value.description != "" then reply.value.description
    else if reply.Some? && reply.value.payload.Some? && reply.value.payload.value.description != ""
    then reply.value.payload.value.description
    else NoScheduleText
  }

  /** A shift and what its reply makes of it. */
  function ShiftOutcome(call: Call, before: seq<Call>, reply: Option<Reply>): Decision {
    if Accepted(reply) then
      var id := NewId(reply.value, false);
      Decision(Booked("shift"), before + [call], if id != "" then Some(id) else None)
    else Decision(Failed(ReplyError(reply)), before + [call], None)
  }

  // ---------------- the decision ----------------

  /**
   * `book_appointment` once the existing appointment (`found`, "" for none) and
   * the later lookup's id (`later`) are known: the refusals before any booking
   * call, and otherwise the attempt on the slot found.
   */
  function Decide(doctor: Option<Doctor>, slot: string, found: string, schedule: Option<ScheduleReply>,
                  row: Option<SpecialtyRow>, links: map<string, Link>, shiftReply: Option<Reply>,
                  createReply: Option<Reply>, later: string): Decision
  {
    if !Bookable(doctor, slot, schedule) then Decision(Refusal(doctor, schedule), [], None)
    else
      var hit := SlotFor(DaySlots(schedule.value.payload.value.days), Target(slot)).value;
      Attempt(doctor.value, hit.0, hit.1, found, row, links, shiftReply, createReply, later)
  }

  /**
   * The refusals, in the source's order: no doctor, no complex resource, an
   * api id that does not convert (bare `False`), a complex resource id that
   * does not convert (the exception), no usable schedule, and, last, the slot
   * missing from the schedule or without an end (bare `False`).
   */
  function Refusal(doctor: Option<Doctor>, schedule: Option<ScheduleReply>): BookResult {
    if doctor.None? then Failed(DoctorMissing)
    else if doctor.value.complexResourceId == "" then Failed(DoctorIncomplete)
    else if PyInt(doctor.value.apiId).None? then BareFalse
    else if PyInt(doctor.value.complexResourceId).None? then Raises
    else if NoSchedule(schedule) then Failed(ScheduleError(schedule))
    else BareFalse
  }

  /**
   * The booking calls on the slot found: shift the existing appointment; or,
   * without one, the referral gate, the creation, and after a refused creation
   * the shift of the appointment the later lookup found.
   */
  function Attempt(doc: Doctor, start: string, end: string, found: string, row: Option<SpecialtyRow>,
                   links: map<string, Link>, shiftReply: Option<Reply>, createReply: Option<Reply>,
                   later: string): (d: Decision)
    requires PyInt(doc.apiId).Some? && PyInt(doc.complexResourceId).Some?
    ensures d.result.Booked? || d.result.Failed?
  {
    var resource := PyInt(doc.apiId).value;
    var complex := PyInt(doc.complexResourceId).value;
    var rt := ReceptionTypeId(doc.speciality, row);
    var group := Specialities.EquivalentCodes(doc.speciality);
    if Truthy(found) then ShiftOutcome(Shift(resource, complex, start, end, found, rt), [], shiftReply)
    else if ReferralPolicy(doc.speciality, row) == 0 && !HasReferral(links, group) then
      Decision(Failed(ReferralRequired), [], None)
    else
      var create := Create(resource, complex, start, end, rt);
      if Accepted(createReply) then
        var id := NewId(createReply.value, true);
        Decision(Booked("create"), [create], if id != "" then Some(id) else None)
      else if Truthy(later) then ShiftOutcome(Shift(resource, complex, start, end, later, rt), [create], shiftReply)
      else Decision(Failed(ReplyError(createReply)), [create], None)
  }

  /**
   * The calls of an attempt: at most two, all on the slot found, the first a
   * shift exactly when an appointment was found, and two only when a refused
   * creation is followed by the shift of the later lookup's id. A success
   * reports the kind of its last call, and an id is saved only after a success.
   */
  lemma AttemptCalls(doc: Doctor, start: string, end: string, found: string, row: Option<SpecialtyRow>,
                     links: map<string, Link>, shiftReply: Option<Reply>, createReply: Option<Reply>,
                     later: string)
    requires PyInt(doc.apiId).Some? && PyInt(doc.complexResourceId).Some?
    ensures var d := Attempt(doc, start, end, found, row, links, shiftReply, createReply, later);
      && |d.calls| <= 2
      && (forall i :: 0 <= i < |d.calls| ==> d.calls[i].start == start && d.calls[i].end == end)
      && (d.calls != [] ==> (d.calls[0].Shift? <==> Truthy(found)))
      && (|d.calls| == 2 ==> d.calls[0].Create? && d.calls[1].Shift? && d.calls[1].appointment == later)
      && (d.result.Booked? ==> d.calls != [] && (d.result.kind == "shift" || d.result.kind == "create"))
      && (d.result.Booked? ==> (d.result.kind == "shift" <==> d.calls[|d.calls| - 1].Shift?))
      && (d.save.Some? ==> d.result.Booked? && d.save.value != "")
  {
    var d := Attempt(doc, start, end, found, row, links, shiftReply, createReply, later);
    var resource := PyInt(doc.apiId).value;
    var complex := PyInt(doc.complexResourceId).value;
    var rt := ReceptionTypeId(doc.speciality, row);
    var create := Create(resource, complex, start, end, rt);
    var group := Specialities.EquivalentCodes(doc.speciality);
    if Truthy(found) {
      ShiftOutcomeShape(Shift(resource, complex, start, end, found, rt), [], shiftReply);
      assert d.calls == [Shift(resource, complex, start, end, found, rt)];
    } else if ReferralPolicy(doc.speciality, row) == 0 && !HasReferral(links, group) {
      assert d.calls == [];
    } else if Accepted(createReply) {
      assert d.calls == [create] && d.result == Booked("create");
    } else if Truthy(later) {
      ShiftOutcomeShape(Shift(resource, complex, start, end, later, rt), [create], shiftReply);
      assert d.calls == [create, Shift(resource, complex, start, end, later, rt)];
    } else {
      assert d.calls == [create] && d.result.Failed?;
    }
  }

  /**
   * An appointment id that converts to 0 is falsy: the attempt goes on as if no
   * appointment had been found, and a later id of 0 is no later appointment.
   */
  lemma ZeroIdIsNone(doc: Doctor, start: string, end: string, found: string, row: Option<SpecialtyRow>,
                     links: map<string, Link>, shiftReply: Option<Reply>, createReply: Option<Reply>,
                     later: string)
    requires PyInt(doc.apiId).Some? && PyInt(doc.complexResourceId).Some?
    requires (found == "" || PyInt(found) == Some(0)) && (later == "" || PyInt(later) == Some(0))
    ensures var d := Attempt(doc, start, end, found, row, links, shiftReply, createReply, later);
      d == Attempt(doc, start, end, "", row, links, shiftReply, createReply, "")
      && (d.calls != [] ==> d.calls == [Create(PyInt(doc.apiId).value, PyInt(doc.complexResourceId).value,
                                               start, end, ReceptionTypeId(doc.speciality, row))])
  {
  }

  /** A shift adds one call after the earlier ones; a success is a shift, and an id is saved only after one. */
  lemma ShiftOutcomeShape(call: Call, before: seq<Call>, reply: Option<Reply>)
    ensures var d := ShiftOutcome(call, before, reply);
      && d.calls == before + [call]
      && (d.result.Booked? ==> d.result.kind == "shift")
      && (d.save.Some? ==> d.result.Booked? && d.save.value != "")
  {
  }

  /** The doctor row is there, has a complex resource, and both its ids convert. */
  predicate Identified(doctor: Option<Doctor>) {
    && doctor.Some? && doctor.value.complexResourceId != ""
    && PyInt(doctor.value.apiId).Some? && PyInt(doctor.value.complexResourceId).Some?
  }

  /** The doctor row is complete, its ids convert, the schedule is usable and the slot is in it with an end. */
  predicate Bookable(doctor: Option<Doctor>, slot: string, schedule: Option<ScheduleReply>) {
    && Identified(doctor)
    && !NoSchedule(schedule)
    && var hit := SlotFor(DaySlots(schedule.value.payload.value.days), Target(slot));
       hit.Some? && hit.value.1 != ""
  }

  /**
   * A booking call is made only for a bookable slot and names the slot found;
   * at most two are made, the first shifts exactly when an existing appointment
   * was found, and two are a refused creation followed by the shift of the
   * later lookup's id.
   */
  lemma DecideCalls(doctor: Option<Doctor>, slot: string, found: string, schedule: Option<ScheduleReply>,
                    row: Option<SpecialtyRow>, links: map<string, Link>, shiftReply: Option<Reply>,
                    createReply: Option<Reply>, later: string)
    ensures var d := Decide(doctor, slot, found, schedule, row, links, shiftReply, createReply, later);
      && |d.calls| <= 2
      && (d.calls != [] ==> Bookable(doctor, slot, schedule))
      && (d.calls != [] ==> forall i :: 0 <= i < |d.calls| ==>
            Some((d.calls[i].start, d.calls[i].end)) == SlotFor(DaySlots(schedule.value.payload.value.days), Target(slot)))
      && (d.calls != [] ==> (d.calls[0].Shift? <==> Truthy(found)))
      && (|d.calls| == 2 ==> d.calls[0].Create? && d.calls[1].Shift? && d.calls[1].appointment == later)
  {
    if Bookable(doctor, slot, schedule) {
      var hit := SlotFor(DaySlots(schedule.value.payload.value.days), Target(slot)).value;
      AttemptCalls(doctor.value, hit.0, hit.1, found, row, links, shiftReply, createReply, later);
    }
  }

  /**
   * A booking succeeds only through a call: "shift" when the last call shifted,
   * "create" when it created; an id is saved only after a success.
   */
  lemma DecideBooked(doctor: Option<Doctor>, slot: string, found: string, schedule: Option<ScheduleReply>,
                     row: Option<SpecialtyRow>, links: map<string, Link>, shiftReply: Option<Reply>,
                     createReply: Option<Reply>, later: string)
    ensures var d := Decide(doctor, slot, found, schedule, row, links, shiftReply, createReply, later);
      && (d.result.Booked? ==> d.calls != [] && (d.result.kind == "shift" || d.result.kind == "create"))
      && (d.result.Booked? ==> (d.result.kind == "shift" <==> d.calls[|d.calls| - 1].Shift?))
      && (d.save.Some? ==> d.result.Booked? && d.save.value != "")
  {
    if Bookable(doctor, slot, schedule) {
      var hit := SlotFor(DaySlots(schedule.value.payload.value.days), Target(slot)).value;
      AttemptCalls(doctor.value, hit.0, hit.1, found, row, links, shiftReply, createReply, later);
    }
  }

  /**
   * With no existing appointment, a strict policy (0) and no referral on any
   * link of the group, the booking fails with "referral required" before any
   * creation is attempted.
   */
  lemma ReferralGate(doctor: Option<Doctor>, slot: string, schedule: Option<ScheduleReply>,
                     row: Option<SpecialtyRow>, links: map<string, Link>, shiftReply: Option<Reply>,
                     createReply: Option<Reply>, later: string)
    requires Bookable(doctor, slot, schedule)
    requires ReferralPolicy(doctor.value.speciality, row) == 0
    requires !HasReferral(links, Specialities.EquivalentCodes(doctor.value.speciality))
    ensures Decide(doctor, slot, "", schedule, row, links, shiftReply, createReply, later)
            == Decision(Failed(ReferralRequired), [], None)
  {
  }

  /** A whitelisted speciality goes to creation whatever its row says. */
  lemma WhitelistCreates(doctor: Option<Doctor>, slot: string, schedule: Option<ScheduleReply>,
                         row: Option<SpecialtyRow>, links: map<string, Link>, shiftReply: Option<Reply>,
                         createReply: Option<Reply>, later: string)
    requires Bookable(doctor, slot, schedule) && doctor.value.speciality == Some("600034")
    ensures var d := Decide(doctor, slot, "", schedule, row, links, shiftReply, createReply, later);
      d.calls != [] && d.calls[0].Create?
  {
    var hit := SlotFor(DaySlots(schedule.value.payload.value.days), Target(slot)).value;
    CreateFirst(doctor.value, hit.0, hit.1, row, links, shiftReply, createReply, later);
  }

  /** Without a referral gate and without an existing appointment, the first call is a creation. */
  lemma CreateFirst(doc: Doctor, start: string, end: string, row: Option<SpecialtyRow>,
                    links: map<string, Link>, shiftReply: Option<Reply>, createReply: Option<Reply>, later: string)
    requires PyInt(doc.apiId).Some? && PyInt(doc.complexResourceId).Some?
    requires ReferralPolicy(doc.speciality, row) != 0
    ensures var d := Attempt(doc, start, end, "", row, links, shiftReply, createReply, later);
      d.calls != [] && d.calls[0].Create?
  {
    var resource := PyInt(doc.apiId).value;
    var complex := PyInt(doc.complexResourceId).value;
    var rt := ReceptionTypeId(doc.speciality, row);
    var create := Create(resource, complex, start, end, rt);
    if Truthy(later) {
      ShiftOutcomeShape(Shift(resource, complex, start, end, later, rt), [create], shiftReply);
    }
  }

  /** The two paths that return a bare `False` instead of a pair. */
  lemma BareFalsePaths(doctor: Option<Doctor>, slot: string, found: string, schedule: Option<ScheduleReply>,
                       row: Option<SpecialtyRow>, links: map<string, Link>, shiftReply: Option<Reply>,
                       createReply: Option<Reply>, later: string)
    ensures Decide(doctor, slot, found, schedule, row, links, shiftReply, createReply, later).result == BareFalse
      <==> && doctor.Some? && doctor.value.complexResourceId != ""
           && (|| PyInt(doctor.value.apiId).None?
               || (&& PyInt(doctor.value.complexResourceId).Some? && !NoSchedule(schedule)
                   && !Bookable(doctor, slot, schedule)))
  {
  }

  // ---------------- the links ----------------

  /**
   * The links after the new appointment id is recorded for every code of the
   * group: existing rows get the id and keep their referral, missing rows are
   * added with the id only, rows of other codes stay as they are.
   */
  function Upsert(links: map<string, Link>, group: set<string>, id: string): map<string, Link> {
    map c | c in links.Keys + group ::
      if c !in group then links[c]
      else if c in links then links[c].(appointmentId := id)
      else Link(id, "")
  }

  /** What recording an id does to each row. */
  lemma UpsertSpec(links: map<string, Link>, group: set<string>, id: string)
    ensures var r := Upsert(links, group, id);
      && r.Keys == links.Keys + group
      && (forall c :: c in group ==> r[c].appointmentId == id)
      && (forall c :: c in group && c in links ==> r[c].referralId == links[c].referralId)
      && (forall c :: c in group && c !in links ==> r[c].referralId == "")
      && (forall c :: c in links && c !in group ==> r[c] == links[c])
  {
  }

  /** Recording the same id twice is recording it once. */
  lemma UpsertIdempotent(links: map<string, Link>, group: set<string>, id: string)
    ensures Upsert(Upsert(links, group, id), group, id) == Upsert(links, group, id)
  {
  }

  /** Recording an id keeps every referral of the group, so the referral gate opens or closes as before. */
  lemma UpsertKeepsReferrals(links: map<string, Link>, group: set<string>, id: string)
    ensures HasReferral(Upsert(links, group, id), group) == HasReferral(links, group)
  {
    var r := Upsert(links, group, id);
    if HasReferral(r, group) {
      var c :| c in group && c in r && r[c].referralId != "";
      assert c in links;
    }
    if HasReferral(links, group) {
      var c :| c in group && c in links && links[c].referralId != "";
      assert r[c].referralId != "";
    }
  }

  /**
   * After a booking records an id that converts, every code of the group has a
   * link to it, so the next booking for any of them finds that appointment.
   */
  lemma BookedIdIsFound(links: map<string, Link>, group: set<string>, id: string, c: string)
    requires id != "" && PyInt(id).Some? && c in group
    ensures Linked(Upsert(links, group, id), c) && Upsert(links, group, id)[c].appointmentId == id
  {
  }

  /** The user's `UserDoctorLink` rows, by speciality code. */
  class LinkStore {
    var links: map<string, Link>

    constructor(links: map<string, Link>)
      ensures this.links == links
    {
      this.links := links;
    }

    /** The upsert loop over the group's codes, in set order. */
    method Record(group: set<string>, id: string)
      modifies this
      ensures links == Upsert(old(links), group, id)
    {
      ghost var start := links;
      var m := links;
      var rest := group;
      ghost var done: set<string> := {};
      UpsertNothing(m, id);
      while rest != {}
        invariant rest !! done && rest + done == group
        invariant m == Upsert(start, done, id)
        decreases |rest|
      {
        var c :| c in rest;
        UpsertStep(start, done, id, c);
        m := m[c := if c in m then m[c].(appointmentId := id) else Link(id, "")];
        SetMove(rest, done, c);
        done := done + {c};
        rest := rest - {c};
      }
      links := m;
    }
  }

  /** Moving one element from the remaining set to the done set keeps them apart and their union. */
  lemma SetMove(rest: set<string>, done: set<string>, c: string)
    requires c in rest && rest !! done
    ensures (rest - {c}) !! (done + {c}) && (rest - {c}) + (done + {c}) == rest + done
    ensures |rest - {c}| < |rest|
  {
  }

  /** Recording for no code changes nothing. */
  lemma UpsertNothing(links: map<string, Link>, id: string)
    ensures Upsert(links, {}, id) == links
  {
  }

  /** One more code recorded. */
  lemma UpsertStep(links: map<string, Link>, done: set<string>, id: string, c: string)
    requires c !in done
    ensures var m := Upsert(links, done, id);
      Upsert(links, done + {c}, id) == m[c := if c in m then m[c].(appointmentId := id) else Link(id, "")]
  {
  }

  /**
   * `book_appointment(user_id, doctor_api_id, slot)`: both lookups of an
   * existing appointment, the decision, and the upsert of the links after a
   * success that returned an id. Returns the appointment id it found ("" for none).
   */
  method Book(store: LinkStore, doctor: Option<Doctor>, slot: string, appts: seq<ApiAppointment>,
              schedule: Option<ScheduleReply>, row: Option<SpecialtyRow>, shiftReply: Option<Reply>,
              createReply: Option<Reply>, laterAppts: seq<ApiAppointment>)
    returns (result: BookResult, calls: seq<Call>, found: string)
    modifies store
    ensures var group := if doctor.Some? then Specialities.EquivalentCodes(doctor.value.speciality) else {};
      && (Identified(doctor) ==> FoundAppointment(found, appts, old(store.links), group))
      && var d := Decide(doctor, slot, found, schedule, row, old(store.links), shiftReply, createReply,
                         LaterAppointmentId(laterAppts, group, ""));
      && result == d.result && calls == d.calls
      && store.links == (if d.save.Some? then Upsert(old(store.links), group, d.save.value) else old(store.links))
  {
    found := "";
    if !Identified(doctor) {
      var d := Decide(doctor, slot, found, schedule, row, store.links, shiftReply, createReply, "");
      return d.result, d.calls, found;
    }
    var group := Specialities.EquivalentCodes(doctor.value.speciality);
    found := FindApiAppointment(appts, group);
    if !Truthy(found) {
      found := FindLinkedAppointment(store.links, group);
    }
    var later := FindLaterAppointment(laterAppts, group);
    var d := Decide(doctor, slot, found, schedule, row, store.links, shiftReply, createReply, later);
    if d.save.Some? {
      store.Record(group, d.save.value);
    }
    return d.result, d.calls, found;
  }
}
