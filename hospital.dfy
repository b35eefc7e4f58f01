/**
 * The three tables the appointment-slot handlers share, and the handlers
 * themselves: the doctor's availability POST and GET (app.py:818-930), the
 * patient's doctor page (app.py:952-1016), the patient's booking calendar
 * (app.py:1071-1149), booking (app.py:1152-1240) and the admin's blacklist
 * toggle (app.py:525-546).
 */
module Hospital {
  import opened Optional
  import opened Calendar
  import opened Availability
  import opened FormKeys
  import opened Booking

  /** One cell of a week view: `{"key", "label", "status"}`. */
  datatype SlotView = SlotView(key: string, hours: string, status: int)

  datatype DayView = DayView(date: string, slots: seq<SlotView>)

  /** One cell of the booking calendar, with its `booked` flag. */
  datatype BookableSlot = BookableSlot(key: string, hours: string, status: int, booked: bool)

  datatype BookableDay = BookableDay(date: string, slots: seq<BookableSlot>)

  /** What a POST to the availability page carries: a JSON body or form fields. */
  datatype PostBody =
    | JsonBody(availability: Option<AvailabilityPayload>)   // None: no "availability" key, or not JSON
    | FormBody(keys: seq<string>)                           // the names of the submitted fields

  /** `day` is `date` with the `SLOTS` cells and their stored status. */
  ghost predicate ShowsDay(day: DayView, t: AvailabilityTable, doctorId: int, date: string) {
    && day.date == date
    && |day.slots| == |Slots|
    && forall j :: 0 <= j < |Slots| ==>
         day.slots[j] == SlotView(Slots[j].key, Slots[j].hours, StoredStatus(t, doctorId, date, Slots[j].key))
  }

  /** `days` lists the seven window dates in order, each shown as `ShowsDay` says. */
  ghost predicate ShowsWeek(days: seq<DayView>, t: AvailabilityTable, doctorId: int, today: Date)
    requires WindowFits(today)
  {
    |days| == WindowLength && forall i :: 0 <= i < WindowLength ==> ShowsDay(days[i], t, doctorId, WindowIso(today)[i])
  }

  /** `any(int(s["status"]) == 1 for day in days for s in day["slots"])` (app.py:1003-1007). */
  function HasAvailability(days: seq<DayView>): (b: bool)
    ensures b <==> exists i, j :: 0 <= i < |days| && 0 <= j < |days[i].slots| && days[i].slots[j].status == 1
    decreases |days|
  {
    if days == [] then false
    else
      var last := days[|days| - 1];
      var rest := HasAvailability(days[..|days| - 1]);
      assert forall i :: 0 <= i < |days| - 1 ==> days[..|days| - 1][i] == days[i];
      rest || exists j :: 0 <= j < |last.slots| && last.slots[j].status == 1
  }

  /** A shown week has availability exactly when some stored cell of the window is open. */
  lemma WeekAvailability(days: seq<DayView>, t: AvailabilityTable, doctorId: int, today: Date)
    requires WindowFits(today) && ShowsWeek(days, t, doctorId, today)
    ensures HasAvailability(days)
        <==> exists i, j :: 0 <= i < WindowLength && 0 <= j < |Slots|
                            && StoredStatus(t, doctorId, WindowIso(today)[i], Slots[j].key) == 1
  {
    if HasAvailability(days) {
      var i, j :| 0 <= i < |days| && 0 <= j < |days[i].slots| && days[i].slots[j].status == 1;
      assert ShowsDay(days[i], t, doctorId, WindowIso(today)[i]);
    } else {
      forall i, j | 0 <= i < WindowLength && 0 <= j < |Slots|
        ensures StoredStatus(t, doctorId, WindowIso(today)[i], Slots[j].key) != 1
      {
        assert ShowsDay(days[i], t, doctorId, WindowIso(today)[i]);
        assert days[i].slots[j].status != 1;
      }
    }
  }

  /**
   * One cell of the booking calendar: the stored status forced to 0/1 and
   * `booked` when the confirmed count for the slot is above zero
   * (app.py:1124-1133).
   */
  function BookableCell(t: AvailabilityTable, appts: seq<Appointment>, doctorId: int, date: string, def: SlotDef): (c: BookableSlot)
    ensures c.key == def.key && c.hours == def.hours
    ensures c.status == 0 || c.status == 1
    ensures c.status == 1 <==> StoredStatus(t, doctorId, date, def.key) == 1
    ensures c.booked <==> exists a :: 0 <= a < |appts| && ConfirmedFor(appts[a], doctorId, date, def.key)
  {
    var status := StoredStatus(t, doctorId, date, def.key);
    var count := ConfirmedCount(appts, doctorId, date, def.key);
    ConfirmedCountZeroIff(appts, doctorId, date, def.key);
    BookableSlot(def.key, def.hours, if status == 1 then 1 else 0, count > 0)
  }

  /** After a form post with the intended parse, a window cell is open exactly when its box was ticked. */
  lemma FormPostOpensExactlyTicked(before: AvailabilityTable, after: AvailabilityTable, doctorId: int,
                                   today: Date, keys: seq<string>, i: int, j: int)
    requires WindowFits(today) && 0 <= i < WindowLength && 0 <= j < |Slots|
    requires GridWritten(before, after, doctorId, WindowIso(today), Slots, FormPairs(keys))
    ensures StoredStatus(after, doctorId, WindowIso(today)[i], Slots[j].key) == 1
        <==> Prefix + WindowIso(today)[i] + "-" + Slots[j].key in keys
  {
    var k := SlotKey(doctorId, WindowIso(today)[i], Slots[j].key);
    assert SlotKeys(Slots)[j] == Slots[j].key;
    assert InGrid(k, doctorId, WindowIso(today), Slots);
    SlotKeysHaveNoHyphen(j);
    FormCellOpenIffSubmitted(keys, WindowIso(today)[i], Slots[j].key);
  }

  /** With the split as written, a form post leaves every cell of the window closed. */
  lemma FormPostAsWrittenClosesAll(before: AvailabilityTable, after: AvailabilityTable, doctorId: int,
                                   today: Date, keys: seq<string>, i: int, j: int)
    requires WindowFits(today) && 0 <= i < WindowLength && 0 <= j < |Slots|
    requires GridWritten(before, after, doctorId, WindowIso(today), Slots, AsWrittenPairs(keys))
    ensures StoredStatus(after, doctorId, WindowIso(today)[i], Slots[j].key) == 0
  {
    var k := SlotKey(doctorId, WindowIso(today)[i], Slots[j].key);
    assert SlotKeys(Slots)[j] == Slots[j].key;
    assert InGrid(k, doctorId, WindowIso(today), Slots);
    AsWrittenFormOpensNothing(keys, today, i, Slots[j].key);
  }

  class HospitalDb {
    var doctors: DoctorTable
    var availability: AvailabilityTable
    var appointments: seq<Appointment>

    /** Statuses are 0/1, each slot has at most one confirmed appointment, ids are distinct. */
    ghost predicate Valid()
      reads this
    {
      StatusesBinary(availability) && UniqueConfirmed(appointments) && UniqueIds(appointments)
    }

    constructor(initialDoctors: DoctorTable)
      ensures Valid()
      ensures doctors == initialDoctors && availability == map[] && appointments == []
    {
      doctors := initialDoctors;
      availability := map[];
      appointments := [];
    }

    /** `INSERT ... ON CONFLICT(doctor_id, date, slot) DO UPDATE SET status = excluded.status`. */
    method Upsert(doctorId: int, date: string, slot: string, status: int)
      modifies this
      ensures availability == old(availability)[SlotKey(doctorId, date, slot) := status]
      ensures doctors == old(doctors) && appointments == old(appointments)
    {
      availability := availability[SlotKey(doctorId, date, slot) := status];
    }

    /** One `dstr: {slot: val, ...}` member of the JSON map: each entry upserted, normalised, in order. */
    method WriteJsonDay(doctorId: int, day: DayEntry)
      modifies this
      ensures availability == ApplyWrites(old(availability), doctorId, DayWrites(day))
      ensures doctors == old(doctors) && appointments == old(appointments)
    {
      var j := 0;
      while j < |day.slots|
        invariant 0 <= j <= |day.slots|
        invariant availability == ApplyWrites(old(availability), doctorId, DayWrites(DayEntry(day.date, day.slots[..j])))
        invariant doctors == old(doctors) && appointments == old(appointments)
      {
        var entry := day.slots[j];
        Upsert(doctorId, day.date, entry.slot, Normalize(entry.value));
        DayWritesStep(day.date, day.slots, j);
        ApplyWritesSnoc(old(availability), doctorId, DayWrites(DayEntry(day.date, day.slots[..j])),
                        AvailWrite(day.date, entry.slot, entry.value));
        j := j + 1;
      }
      assert day.slots[..j] == day.slots;
    }

    /** The JSON path: upsert every `date -> slot -> value` entry, normalised, in order (app.py:843-858). */
    method SubmitAvailabilityJson(doctorId: int, payload: AvailabilityPayload)
      requires Valid()
      modifies this
      ensures Valid()
      ensures availability == ApplyWrites(old(availability), doctorId, Flatten(payload))
      ensures doctors == old(doctors) && appointments == old(appointments)
    {
      var i := 0;
      while i < |payload|
        invariant 0 <= i <= |payload|
        invariant availability == ApplyWrites(old(availability), doctorId, Flatten(payload[..i]))
        invariant doctors == old(doctors) && appointments == old(appointments)
      {
        WriteJsonDay(doctorId, payload[i]);
        FlattenStep(payload, i);
        ApplyWritesAppend(old(availability), doctorId, Flatten(payload[..i]), DayWrites(payload[i]));
        i := i + 1;
      }
      assert payload[..i] == payload;
      ApplyWritesKeepsBinary(old(availability), doctorId, Flatten(payload));
    }

    /** One day of the form grid: each cell of `date` in `defs` upserted to its form value. */
    method WriteFormDay(doctorId: int, date: string, defs: seq<SlotDef>, parsed: set<(string, string)>)
      modifies this
      ensures availability == ApplyWrites(old(availability), doctorId, DayWrites(FormDay(date, defs, parsed)))
      ensures doctors == old(doctors) && appointments == old(appointments)
    {
      ghost var day := FormDay(date, defs, parsed);
      var s := 0;
      while s < |defs|
        invariant 0 <= s <= |defs|
        invariant availability == ApplyWrites(old(availability), doctorId, DayWrites(DayEntry(date, day.slots[..s])))
        invariant doctors == old(doctors) && appointments == old(appointments)
      {
        var slotKey := defs[s].key;
        var val := FormValue(parsed, date, slotKey);
        Upsert(doctorId, date, slotKey, val);
        assert day.slots[s] == SlotEntry(slotKey, JInt(val));
        DayWritesStep(date, day.slots, s);
        ApplyWritesSnoc(old(availability), doctorId, DayWrites(DayEntry(date, day.slots[..s])),
                        AvailWrite(date, slotKey, JInt(val)));
        s := s + 1;
      }
      assert DayEntry(date, day.slots[..s]) == day;
    }

    /**
     * The form path: for each of the seven days and each slot of `SLOTS`,
     * upsert 1 when the pair was parsed from the form and 0 otherwise
     * (app.py:879-894).
     */
    method SubmitAvailabilityForm(doctorId: int, today: Date, parsed: set<(string, string)>)
      requires Valid() && WindowFits(today)
      modifies this
      ensures Valid()
      ensures GridWritten(old(availability), availability, doctorId, WindowIso(today), Slots, parsed)
      ensures doctors == old(doctors) && appointments == old(appointments)
    {
      ghost var payload := FormPayload(WindowIso(today), Slots, parsed);
      var n := 0;
      while n < WindowLength
        invariant 0 <= n <= WindowLength
        invariant availability == ApplyWrites(old(availability), doctorId, Flatten(payload[..n]))
        invariant doctors == old(doctors) && appointments == old(appointments)
      {
        WindowIsoAt(today, n);
        var d := AddDays(today, n);
        var dstr := IsoFormat(d);
        WriteFormDay(doctorId, dstr, Slots, parsed);
        FlattenStep(payload, n);
        ApplyWritesAppend(old(availability), doctorId, Flatten(payload[..n]), DayWrites(payload[n]));
        n := n + 1;
      }
      assert payload[..n] == payload;
      FormPayloadWritesGrid(old(availability), doctorId, WindowIso(today), Slots, parsed);
      GridWrittenKeepsBinary(old(availability), availability, doctorId, WindowIso(today), Slots, parsed);
    }

    /**
     * The POST dispatch (app.py:834-898): a JSON body with an "availability"
     * map takes the upsert loop; otherwise a non-empty form takes the grid
     * path; otherwise nothing is written.
     */
    method PostAvailability(doctorId: int, today: Date, body: PostBody)
      requires Valid()
      requires body.FormBody? ==> WindowFits(today)   // only the form grid builds the window
      modifies this
      ensures Valid()
      ensures doctors == old(doctors) && appointments == old(appointments)
      ensures body.JsonBody? && body.availability.Some? ==>
        availability == ApplyWrites(old(availability), doctorId, Flatten(body.availability.value))
      ensures body.FormBody? && body.keys != [] ==>
        GridWritten(old(availability), availability, doctorId, WindowIso(today), Slots, FormPairs(body.keys))
      ensures (body.JsonBody? && body.availability.None?) || (body.FormBody? && body.keys == []) ==>
        availability == old(availability)
    {
      match body
      case JsonBody(Some(payload)) =>
        SubmitAvailabilityJson(doctorId, payload);
      case JsonBody(None) =>
      case FormBody(keys) =>
        if keys != [] {
          var parsed := CollectFormAvailability(keys);
          SubmitAvailabilityForm(doctorId, today, parsed);
        }
    }

    /**
     * The week the doctor's page and the patient's doctor page show: each
     * window date with the `SLOTS` cells, read through `date BETWEEN first AND
     * last` (app.py:902-928, 968-1001).
     */
    method WeekDays(doctorId: int, today: Date) returns (days: seq<DayView>)
      requires WindowFits(today)
      ensures ShowsWeek(days, availability, doctorId, today)
    {
      var dates := WindowIso(today);
      var lo, hi := dates[0], dates[WindowLength - 1];
      days := [];
      var n := 0;
      while n < WindowLength
        invariant 0 <= n <= WindowLength && |days| == n
        invariant forall i :: 0 <= i < n ==> ShowsDay(days[i], availability, doctorId, dates[i])
      {
        var dstr := dates[n];
        var slots: seq<SlotView> := [];
        var s := 0;
        while s < |Slots|
          invariant 0 <= s <= |Slots| && |slots| == s
          invariant forall j :: 0 <= j < s ==>
            slots[j] == SlotView(Slots[j].key, Slots[j].hours, StoredStatus(availability, doctorId, dstr, Slots[j].key))
        {
          var status := RangeStatus(availability, doctorId, dstr, Slots[s].key, lo, hi);
          RangeStatusInWindow(availability, doctorId, today, n, Slots[s].key);
          slots := slots + [SlotView(Slots[s].key, Slots[s].hours, status)];
          s := s + 1;
        }
        days := days + [DayView(dstr, slots)];
        n := n + 1;
      }
    }

    /** `patient_doctor_view`: the week, and whether any cell is open (app.py:952-1016). */
    method PatientDoctorView(doctorId: int, today: Date) returns (r: Option<(seq<DayView>, bool)>)
      requires WindowFits(today)
      ensures r.None? <==> doctorId !in doctors
      ensures r.Some? ==> ShowsWeek(r.value.0, availability, doctorId, today)
      ensures r.Some? ==>
        (r.value.1 <==> exists i, j :: 0 <= i < WindowLength && 0 <= j < |Slots|
                                      && StoredStatus(availability, doctorId, WindowIso(today)[i], Slots[j].key) == 1)
    {
      if doctorId !in doctors {
        return None;
      }
      var days := WeekDays(doctorId, today);
      var open := HasAvailability(days);
      WeekAvailability(days, availability, doctorId, today);
      return Some((days, open));
    }

    /**
     * `patientdoctoravailability`: the week crossed with `SLOT_DEFS`, each cell
     * with its status forced to 0/1 and `booked` when a confirmed appointment
     * holds it (app.py:1071-1149).
     */
    method PatientDoctorAvailability(doctorId: int, today: Date) returns (r: Option<seq<BookableDay>>)
      requires WindowFits(today)
      ensures r.None? <==> doctorId !in doctors
      ensures r.Some? ==> |r.value| == WindowLength
      ensures r.Some? ==> forall i :: 0 <= i < WindowLength ==>
        r.value[i].date == WindowIso(today)[i] && |r.value[i].slots| == |SlotDefs|
      ensures r.Some? ==> forall i, j :: 0 <= i < WindowLength && 0 <= j < |SlotDefs| ==>
        r.value[i].slots[j] == BookableCell(availability, appointments, doctorId, WindowIso(today)[i], SlotDefs[j])
    {
      if doctorId !in doctors {
        return None;
      }
      var dates := WindowIso(today);
      var days: seq<BookableDay> := [];
      var n := 0;
      while n < WindowLength
        invariant 0 <= n <= WindowLength && |days| == n
        invariant forall i :: 0 <= i < n ==> days[i].date == dates[i] && |days[i].slots| == |SlotDefs|
        invariant forall i, j :: 0 <= i < n && 0 <= j < |SlotDefs| ==>
          days[i].slots[j] == BookableCell(availability, appointments, doctorId, dates[i], SlotDefs[j])
      {
        var slots := BookableCells(doctorId, dates[n], SlotDefs);
        days := days + [BookableDay(dates[n], slots)];
        n := n + 1;
      }
      return Some(days);
    }

    /** The cells of one day of the booking calendar, one per slot definition. */
    method BookableCells(doctorId: int, date: string, defs: seq<SlotDef>) returns (slots: seq<BookableSlot>)
      ensures |slots| == |defs|
      ensures forall j :: 0 <= j < |defs| ==> slots[j] == BookableCell(availability, appointments, doctorId, date, defs[j])
    {
      slots := [];
      var s := 0;
      while s < |defs|
        invariant 0 <= s <= |defs| && |slots| == s
        invariant forall j :: 0 <= j < s ==> slots[j] == BookableCell(availability, appointments, doctorId, date, defs[j])
      {
        var def := defs[s];
        var status := StoredStatus(availability, doctorId, date, def.key);
        var booked := ConfirmedCount(appointments, doctorId, date, def.key) > 0;
        slots := slots + [BookableSlot(def.key, def.hours, if status == 1 then 1 else 0, booked)];
        s := s + 1;
      }
    }

    /** `patient_book_slot`: the guards in order, then one confirmed insert (app.py:1152-1240). */
    method BookSlot(s: Session, req: BookingRequest, fault: StorageFault) returns (outcome: BookingOutcome)
      requires Valid()
      modifies this
      ensures Valid()
      ensures outcome == Decide(old(doctors), old(availability), old(appointments), s, req, fault)
      ensures appointments == AppointmentsAfter(old(doctors), old(availability), old(appointments), s, req, fault)
      ensures doctors == old(doctors) && availability == old(availability)
    {
      if s.userId.None? {
        return LoginRequired;
      }
      if !HasParameters(req) {
        return MissingParameters;
      }
      var doctorId, date, slot := req.doctorId.value, req.date.value, req.slot.value;
      if doctorId !in doctors {
        return DoctorNotFound;
      }
      var doc := doctors[doctorId];
      if Blocked(doc) {
        return DoctorBlocked;
      }
      var key := SlotKey(doctorId, date, slot);
      if key !in availability || availability[key] != 1 {
        return SlotUnavailable;
      }
      // BEGIN ... COMMIT, taken as one step
      if fault == FaultBeforeCount {
        return BookingFailed;
      }
      var count := ConfirmedCount(appointments, doctorId, date, slot);
      if count > 0 {
        return SlotAlreadyBooked;
      }
      if fault == FaultOnInsert {
        return BookingFailed;
      }
      var id := NextId(appointments);
      BookingPreservesInvariants(doctors, availability, appointments, s, req, fault);
      appointments := appointments + [Appointment(id, PatientNameOf(s), s.userId.value, doc.name, doctorId,
                                                  date, slot, doc.department, ConfirmedStatus)];
      return Booked(id);
    }

    /** `toggle_blacklist_doctor` (app.py:525-546): false when the id has no row. */
    method ToggleBlacklist(doctorId: int) returns (found: bool)
      requires Valid()
      modifies this
      ensures Valid()
      ensures found <==> doctorId in old(doctors)
      ensures found ==> doctors == ToggleDoctor(old(doctors), doctorId).value
      ensures !found ==> doctors == old(doctors)
      ensures availability == old(availability) && appointments == old(appointments)
    {
      if doctorId !in doctors {
        return false;
      }
      var b := doctors[doctorId].blacklisted;
      var newStatus := if b == 1 then 0 else 1;
      doctors := doctors[doctorId := doctors[doctorId].(blacklisted := newStatus)];
      return true;
    }
  }
}
