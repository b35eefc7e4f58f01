/**
 * Booking an appointment slot (app.py:1152-1240), the admin's blacklist toggle
 * (app.py:525-546) and the per-doctor capacity figure (app.py:1019-1054).
 *
 * The booking handler is a chain of guards, each ending in a named failure,
 * followed by one insert of a `confirmed` appointment. `Decide` states which
 * outcome a request gets against the current tables and `AppointmentsAfter`
 * what the appointment list becomes; the handler in module Hospital is proved
 * against both. The central invariant is that no two `confirmed` appointments
 * share a (doctor, date, slot).
 */
module Booking {
  import opened Optional
  import opened Availability

  // ---------------------------------------------------------------------
  // Doctors and the blacklist flag

  /** The columns of a `doctors` row the booking path reads. */
  datatype Doctor = Doctor(name: string, department: string, blacklisted: int)

  type DoctorTable = map<int, Doctor>

  /** A new doctor row gets `blacklisted = 1` (app.py:63): bookable. */
  const DefaultBlacklisted: int := 1

  /** In this code a doctor is blocked when the flag is 0 (app.py:1177). */
  function Blocked(d: Doctor): (b: bool)
    ensures b ==> d.blacklisted != DefaultBlacklisted
    ensures b <==> d.blacklisted == ToggleFlag(DefaultBlacklisted)
  {
    d.blacklisted == 0
  }

  /** `0 if blacklisted == 1 else 1` (app.py:539). */
  function ToggleFlag(b: int): (r: int)
    ensures r == 0 || r == 1
  {
    if b == 1 then 0 else 1
  }

  /** Toggling twice restores exactly the flags that were already 0 or 1. */
  lemma ToggleTwice(b: int)
    ensures ToggleFlag(ToggleFlag(b)) == b <==> b == 0 || b == 1
  {
  }

  /**
   * A new doctor, with the default flag, is bookable; the toggle blocks a
   * doctor exactly when the flag was that default, and a doctor with any other
   * flag (0, or an out-of-range value) ends up bookable.
   */
  lemma ToggleBlocksIffBookableDefault(d: Doctor)
    ensures d.blacklisted == DefaultBlacklisted ==> !Blocked(d)
    ensures Blocked(d.(blacklisted := ToggleFlag(d.blacklisted))) <==> d.blacklisted == DefaultBlacklisted
    ensures d.blacklisted == 0 || d.blacklisted == 1 ==>
      (Blocked(d.(blacklisted := ToggleFlag(d.blacklisted))) <==> !Blocked(d))
  {
  }

  /** `toggle_blacklist_doctor` on the table: None when the id has no row. */
  function ToggleDoctor(doctors: DoctorTable, id: int): (r: Option<DoctorTable>)
    ensures r.None? <==> id !in doctors
    ensures r.Some? ==> r.value.Keys == doctors.Keys
    ensures r.Some? ==> forall k :: k in doctors && k != id ==> r.value[k] == doctors[k]
    ensures r.Some? ==> r.value[id].name == doctors[id].name && r.value[id].department == doctors[id].department
    ensures r.Some? ==> (Blocked(r.value[id]) <==> doctors[id].blacklisted == 1)
    ensures r.Some? ==> r.value[id].blacklisted == (if doctors[id].blacklisted == 1 then 0 else 1)
  {
    if id !in doctors then None
    else Some(doctors[id := doctors[id].(blacklisted := ToggleFlag(doctors[id].blacklisted))])
  }

  /** Toggling the same doctor twice restores the table when the flag was 0 or 1. */
  lemma ToggleDoctorTwice(doctors: DoctorTable, id: int)
    requires id in doctors && (doctors[id].blacklisted == 0 || doctors[id].blacklisted == 1)
    ensures ToggleDoctor(doctors, id).Some?
    ensures ToggleDoctor(ToggleDoctor(doctors, id).value, id) == Some(doctors)
  {
    var once := ToggleDoctor(doctors, id).value;
    var twice := ToggleDoctor(once, id).value;
    assert twice[id] == doctors[id];
    assert twice == doctors;
  }

  // ---------------------------------------------------------------------
  // Appointments

  /** The `appointments` columns; `created_at` and `sr_no` are not modelled. */
  datatype Appointment = Appointment(
    id: int,
    patientName: string,
    patientId: int,
    doctorName: string,
    doctorId: int,
    date: string,
    slot: string,
    department: string,
    status: string)
  {
    function Key(): SlotKey {
      SlotKey(doctorId, date, slot)
    }
  }

  const ConfirmedStatus: string := "confirmed"

  predicate ConfirmedFor(a: Appointment, doctorId: int, date: string, slot: string) {
    a.Key() == SlotKey(doctorId, date, slot) && a.status == ConfirmedStatus
  }

  /** `SELECT COUNT(*) ... AND status = 'confirmed'` (app.py:1196-1199). */
  function ConfirmedCount(appts: seq<Appointment>, doctorId: int, date: string, slot: string): (c: nat)
    ensures c <= |appts|
    decreases |appts|
  {
    if appts == [] then 0
    else
      ConfirmedCount(appts[..|appts| - 1], doctorId, date, slot)
      + (if ConfirmedFor(appts[|appts| - 1], doctorId, date, slot) then 1 else 0)
  }

  lemma ConfirmedCountSnoc(appts: seq<Appointment>, a: Appointment, doctorId: int, date: string, slot: string)
    ensures ConfirmedCount(appts + [a], doctorId, date, slot)
      == ConfirmedCount(appts, doctorId, date, slot) + (if ConfirmedFor(a, doctorId, date, slot) then 1 else 0)
  {
    assert (appts + [a])[..|appts|] == appts;
  }

  /** The count is zero exactly when no appointment is confirmed for the slot. */
  lemma {:induction false} ConfirmedCountZeroIff(appts: seq<Appointment>, doctorId: int, date: string, slot: string)
    ensures ConfirmedCount(appts, doctorId, date, slot) == 0
      <==> forall i :: 0 <= i < |appts| ==> !ConfirmedFor(appts[i], doctorId, date, slot)
    decreases |appts|
  {
    if appts != [] {
      var init := appts[..|appts| - 1];
      ConfirmedCountZeroIff(init, doctorId, date, slot);
      assert forall i :: 0 <= i < |init| ==> init[i] == appts[i];
    }
  }

  /** At most one `confirmed` appointment per (doctor, date, slot). */
  ghost predicate UniqueConfirmed(appts: seq<Appointment>) {
    forall i, j ::
      0 <= i < j < |appts| && appts[i].status == ConfirmedStatus && appts[j].status == ConfirmedStatus
      ==> appts[i].Key() != appts[j].Key()
  }

  /** Two confirmed appointments for one slot make its count at least two. */
  lemma {:induction false} TwoConfirmedCountTwo(appts: seq<Appointment>, i: int, j: int)
    requires 0 <= i < j < |appts|
    requires appts[i].status == ConfirmedStatus && appts[j].status == ConfirmedStatus
    requires appts[i].Key() == appts[j].Key()
    ensures ConfirmedCount(appts, appts[j].doctorId, appts[j].date, appts[j].slot) >= 2
    decreases |appts|
  {
    var k := appts[j];
    var init := appts[..|appts| - 1];
    if j < |appts| - 1 {
      assert init[i] == appts[i] && init[j] == appts[j];
      TwoConfirmedCountTwo(init, i, j);
    } else {
      assert init[i] == appts[i];
      ConfirmedCountZeroIff(init, k.doctorId, k.date, k.slot);
    }
  }

  /** Under the invariant, every slot's confirmed count is 0 or 1. */
  lemma {:induction false} UniqueConfirmedCountAtMostOne(appts: seq<Appointment>, doctorId: int, date: string, slot: string)
    requires UniqueConfirmed(appts)
    ensures ConfirmedCount(appts, doctorId, date, slot) <= 1
    decreases |appts|
  {
    if appts != [] {
      var init := appts[..|appts| - 1];
      var last := appts[|appts| - 1];
      assert UniqueConfirmed(init) by {
        forall i, j | 0 <= i < j < |init| ensures init[i] == appts[i] && init[j] == appts[j] { }
      }
      if ConfirmedFor(last, doctorId, date, slot) {
        forall i | 0 <= i < |init| ensures !ConfirmedFor(init[i], doctorId, date, slot) {
          assert init[i] == appts[i];
        }
        ConfirmedCountZeroIff(init, doctorId, date, slot);
      } else {
        UniqueConfirmedCountAtMostOne(init, doctorId, date, slot);
      }
    }
  }

  /** The invariant holds exactly when no slot's confirmed count exceeds one. */
  lemma UniqueConfirmedIffCountsAtMostOne(appts: seq<Appointment>)
    ensures UniqueConfirmed(appts)
      <==> forall d: int, date: string, slot: string :: ConfirmedCount(appts, d, date, slot) <= 1
  {
    if UniqueConfirmed(appts) {
      forall d: int, date: string, slot: string ensures ConfirmedCount(appts, d, date, slot) <= 1 {
        UniqueConfirmedCountAtMostOne(appts, d, date, slot);
      }
    } else {
      var i, j :| 0 <= i < j < |appts| && appts[i].status == ConfirmedStatus
        && appts[j].status == ConfirmedStatus && appts[i].Key() == appts[j].Key();
      TwoConfirmedCountTwo(appts, i, j);
    }
  }

  /** The largest `id` in the table, 0 when it is empty. */
  function MaxId(appts: seq<Appointment>): (m: int)
    ensures m >= 0
    ensures forall i :: 0 <= i < |appts| ==> appts[i].id <= m
    ensures m > 0 ==> exists i :: 0 <= i < |appts| && appts[i].id == m
    ensures m == 0 <==> forall i :: 0 <= i < |appts| ==> appts[i].id <= 0
    decreases |appts|
  {
    if appts == [] then 0
    else
      var m := MaxId(appts[..|appts| - 1]);
      var last := appts[|appts| - 1];
      assert forall i :: 0 <= i < |appts| - 1 ==> appts[..|appts| - 1][i] == appts[i];
      if last.id > m then last.id else m
  }

  /** The rowid SQLite gives an `INTEGER PRIMARY KEY` insert: one past the largest. */
  function NextId(appts: seq<Appointment>): (id: int)
    ensures id >= 1
    ensures forall i :: 0 <= i < |appts| ==> appts[i].id < id
  {
    MaxId(appts) + 1
  }

  /** `id INTEGER PRIMARY KEY` (app.py:88). */
  ghost predicate UniqueIds(appts: seq<Appointment>) {
    forall i, j :: 0 <= i < j < |appts| ==> appts[i].id != appts[j].id
  }

  // ---------------------------------------------------------------------
  // Requests and the guard chain

  /** The session fields the handler reads (app.py:1154-1162). */
  datatype Session = Session(userId: Option<int>, username: Option<string>, patientName: Option<string>)

  /** A JSON body's `doctor_id`, `date` and `slot`; a missing key is None. */
  datatype BookingRequest = BookingRequest(doctorId: Option<int>, date: Option<string>, slot: Option<string>)

  /** Python truthiness of the three parameters (app.py:1164). */
  function HasParameters(req: BookingRequest): (h: bool)
    ensures h ==> req.doctorId.Some? && req.date.Some? && req.slot.Some?
    ensures req.doctorId == Some(0) || req.date == Some("") || req.slot == Some("") ==> !h
  {
    req.doctorId.Some? && req.doctorId.value != 0
    && req.date.Some? && req.date.value != ""
    && req.slot.Some? && req.slot.value != ""
  }

  /** `session.get("username") or session.get("patient_name") or ""` (app.py:1162). */
  function PatientNameOf(s: Session): (name: string)
    ensures name == "" <==> (s.username.None? || s.username.value == "") && (s.patientName.None? || s.patientName.value == "")
    ensures name != "" ==> Some(name) == s.username || Some(name) == s.patientName
    ensures s.username.Some? && s.username.value != "" ==> name == s.username.value
  {
    if s.username.Some? && s.username.value != "" then s.username.value
    else if s.patientName.Some? && s.patientName.value != "" then s.patientName.value
    else ""
  }

  /** Where a `sqlite3.Error` is raised inside the transaction, if at all. */
  datatype StorageFault = NoFault | FaultBeforeCount | FaultOnInsert

  datatype BookingOutcome =
    | LoginRequired        // 401
    | MissingParameters    // 400
    | DoctorNotFound       // 404
    | DoctorBlocked        // 403
    | SlotUnavailable      // 409
    | SlotAlreadyBooked    // 409
    | BookingFailed        // 500
    | Booked(appointmentId: int)

  /** The HTTP status the handler returns with each outcome. */
  function HttpStatus(o: BookingOutcome): (code: int)
    ensures code == 200 <==> o.Booked?
    ensures code == 409 <==> o == SlotUnavailable || o == SlotAlreadyBooked
  {
    match o
    case LoginRequired => 401
    case MissingParameters => 400
    case DoctorNotFound => 404
    case DoctorBlocked => 403
    case SlotUnavailable => 409
    case SlotAlreadyBooked => 409
    case BookingFailed => 500
    case Booked(_) => 200
  }

  /** The outcome of `patient_book_slot` against the current tables, guard by guard. */
  function Decide(doctors: DoctorTable, avail: AvailabilityTable, appts: seq<Appointment>,
                  s: Session, req: BookingRequest, fault: StorageFault): (o: BookingOutcome)
    ensures o == LoginRequired <==> s.userId.None?
    ensures o == BookingFailed ==> fault != NoFault
    ensures o.Booked? ==>
              && HasParameters(req)
              && StoredStatus(avail, req.doctorId.value, req.date.value, req.slot.value) == 1
              && ConfirmedCount(appts, req.doctorId.value, req.date.value, req.slot.value) == 0
    ensures o.Booked? ==> forall i :: 0 <= i < |appts| ==> appts[i].id < o.appointmentId
  {
    if s.userId.None? then LoginRequired
    else if !HasParameters(req) then MissingParameters
    else
      var d, date, slot := req.doctorId.value, req.date.value, req.slot.value;
      if d !in doctors then DoctorNotFound
      else if Blocked(doctors[d]) then DoctorBlocked
      else if StoredStatus(avail, d, date, slot) != 1 then SlotUnavailable
      else if fault == FaultBeforeCount then BookingFailed
      else if ConfirmedCount(appts, d, date, slot) > 0 then SlotAlreadyBooked
      else if fault == FaultOnInsert then BookingFailed
      else Booked(NextId(appts))
  }

  /** The row a successful booking inserts (app.py:1207-1224). */
  function NewAppointment(doctors: DoctorTable, appts: seq<Appointment>, s: Session, req: BookingRequest): (a: Appointment)
    requires s.userId.Some? && HasParameters(req) && req.doctorId.value in doctors
    ensures ConfirmedFor(a, req.doctorId.value, req.date.value, req.slot.value)
    ensures forall i :: 0 <= i < |appts| ==> appts[i].id < a.id
    ensures a.patientId == s.userId.value && a.patientName == PatientNameOf(s)
    ensures a.doctorName == doctors[req.doctorId.value].name && a.department == doctors[req.doctorId.value].department
  {
    var doc := doctors[req.doctorId.value];
    Appointment(NextId(appts), PatientNameOf(s), s.userId.value, doc.name, req.doctorId.value,
                req.date.value, req.slot.value, doc.department, ConfirmedStatus)
  }

  /** The appointment list after the request: one row more on success, unchanged otherwise. */
  function AppointmentsAfter(doctors: DoctorTable, avail: AvailabilityTable, appts: seq<Appointment>,
                             s: Session, req: BookingRequest, fault: StorageFault): (r: seq<Appointment>)
    ensures |r| == |appts| || |r| == |appts| + 1
    ensures r[..|appts|] == appts
    ensures r == appts <==> !Decide(doctors, avail, appts, s, req, fault).Booked?
  {
    if Decide(doctors, avail, appts, s, req, fault).Booked? then appts + [NewAppointment(doctors, appts, s, req)]
    else appts
  }

  /**
   * A booking succeeds exactly when every guard passes: logged in, all three
   * parameters present, the doctor exists and is not blocked, the slot is open,
   * no appointment is confirmed for it, and storage does not fail.
   */
  lemma BookedIffGuardsPass(doctors: DoctorTable, avail: AvailabilityTable, appts: seq<Appointment>,
                            s: Session, req: BookingRequest, fault: StorageFault)
    ensures Decide(doctors, avail, appts, s, req, fault).Booked? <==>
      s.userId.Some? && HasParameters(req)
      && req.doctorId.value in doctors && !Blocked(doctors[req.doctorId.value])
      && StoredStatus(avail, req.doctorId.value, req.date.value, req.slot.value) == 1
      && fault == NoFault
      && forall i :: 0 <= i < |appts| ==> !ConfirmedFor(appts[i], req.doctorId.value, req.date.value, req.slot.value)
  {
    if s.userId.Some? && HasParameters(req) {
      ConfirmedCountZeroIff(appts, req.doctorId.value, req.date.value, req.slot.value);
    }
  }

  /**
   * The guards apply in the handler's order: each failure is reported exactly
   * when every earlier guard passed and its own check fails.
   */
  lemma GuardOrder(doctors: DoctorTable, avail: AvailabilityTable, appts: seq<Appointment>,
                   s: Session, req: BookingRequest, fault: StorageFault)
    ensures Decide(doctors, avail, appts, s, req, fault) == LoginRequired <==> s.userId.None?
    ensures Decide(doctors, avail, appts, s, req, fault) == MissingParameters <==> s.userId.Some? && !HasParameters(req)
    ensures s.userId.Some? && HasParameters(req) ==>
      var o := Decide(doctors, avail, appts, s, req, fault);
      var d, date, slot := req.doctorId.value, req.date.value, req.slot.value;
      && (o == DoctorNotFound <==> d !in doctors)
      && (o == DoctorBlocked <==> d in doctors && doctors[d].blacklisted == 0)
      && (o == SlotUnavailable <==>
            d in doctors && !Blocked(doctors[d])
            && (SlotKey(d, date, slot) !in avail || avail[SlotKey(d, date, slot)] != 1))
      && (o == SlotAlreadyBooked <==>
            d in doctors && !Blocked(doctors[d]) && StoredStatus(avail, d, date, slot) == 1
            && fault != FaultBeforeCount
            && exists i :: 0 <= i < |appts| && ConfirmedFor(appts[i], d, date, slot))
  {
    if s.userId.Some? && HasParameters(req) {
      ConfirmedCountZeroIff(appts, req.doctorId.value, req.date.value, req.slot.value);
    }
  }

  /** A successful booking appends one confirmed row carrying the request and the doctor's name and department. */
  lemma BookedAppendsConfirmedRow(doctors: DoctorTable, avail: AvailabilityTable, appts: seq<Appointment>,
                                  s: Session, req: BookingRequest, fault: StorageFault)
    requires Decide(doctors, avail, appts, s, req, fault).Booked?
    ensures var r := AppointmentsAfter(doctors, avail, appts, s, req, fault);
      var a := r[|r| - 1];
      |r| == |appts| + 1 && r[..|appts|] == appts
      && a.status == ConfirmedStatus && a.Key() == SlotKey(req.doctorId.value, req.date.value, req.slot.value)
      && a.doctorName == doctors[req.doctorId.value].name
      && a.department == doctors[req.doctorId.value].department
      && a.patientId == s.userId.value && a.patientName == PatientNameOf(s)
      && a.id == Decide(doctors, avail, appts, s, req, fault).appointmentId
      && forall i :: 0 <= i < |appts| ==> appts[i].id < a.id
  {
  }

  /** Every request keeps the invariant: at most one confirmed appointment per slot, and distinct ids. */
  lemma BookingPreservesInvariants(doctors: DoctorTable, avail: AvailabilityTable, appts: seq<Appointment>,
                                   s: Session, req: BookingRequest, fault: StorageFault)
    requires UniqueConfirmed(appts) && UniqueIds(appts)
    ensures UniqueConfirmed(AppointmentsAfter(doctors, avail, appts, s, req, fault))
    ensures UniqueIds(AppointmentsAfter(doctors, avail, appts, s, req, fault))
  {
    var r := AppointmentsAfter(doctors, avail, appts, s, req, fault);
    if Decide(doctors, avail, appts, s, req, fault).Booked? {
      BookedIffGuardsPass(doctors, avail, appts, s, req, fault);
      var a := NewAppointment(doctors, appts, s, req);
      assert r == appts + [a];
      forall i, j | 0 <= i < j < |r| && r[i].status == ConfirmedStatus && r[j].status == ConfirmedStatus
        ensures r[i].Key() != r[j].Key()
      {
        if j == |appts| {
          assert !ConfirmedFor(appts[i], a.doctorId, a.date, a.slot);
        } else {
          assert r[i] == appts[i] && r[j] == appts[j];
        }
      }
      forall i, j | 0 <= i < j < |r| ensures r[i].id != r[j].id {
        if j < |appts| {
          assert r[i] == appts[i] && r[j] == appts[j];
        }
      }
    }
  }

  /** Once a slot is booked, no later request for it succeeds; one past the guards is told it is taken. */
  lemma SecondBookingRefused(doctors: DoctorTable, avail: AvailabilityTable, appts: seq<Appointment>,
                             s1: Session, req1: BookingRequest, fault1: StorageFault,
                             s2: Session, req2: BookingRequest, fault2: StorageFault)
    requires Decide(doctors, avail, appts, s1, req1, fault1).Booked?
    requires HasParameters(req2)
    requires req2.doctorId == req1.doctorId && req2.date == req1.date && req2.slot == req1.slot
    ensures var after := AppointmentsAfter(doctors, avail, appts, s1, req1, fault1);
      var o := Decide(doctors, avail, after, s2, req2, fault2);
      !o.Booked? && (s2.userId.Some? && fault2 != FaultBeforeCount ==> o == SlotAlreadyBooked)
  {
    var after := AppointmentsAfter(doctors, avail, appts, s1, req1, fault1);
    var a := NewAppointment(doctors, appts, s1, req1);
    ConfirmedCountSnoc(appts, a, req1.doctorId.value, req1.date.value, req1.slot.value);
  }

  // ---------------------------------------------------------------------
  // Several patients booking in turn

  datatype Attempt = Attempt(session: Session, req: BookingRequest, fault: StorageFault)

  /** The outcomes and final list when the attempts are served one after another. */
  function BookAll(doctors: DoctorTable, avail: AvailabilityTable, appts: seq<Appointment>, attempts: seq<Attempt>)
    : (r: (seq<BookingOutcome>, seq<Appointment>))
    ensures |r.0| == |attempts|
    ensures |appts| <= |r.1| <= |appts| + |attempts|
    ensures r.1[..|appts|] == appts
    decreases |attempts|
  {
    if attempts == [] then ([], appts)
    else
      var prev := BookAll(doctors, avail, appts, attempts[..|attempts| - 1]);
      var at := attempts[|attempts| - 1];
      (prev.0 + [Decide(doctors, avail, prev.1, at.session, at.req, at.fault)],
       AppointmentsAfter(doctors, avail, prev.1, at.session, at.req, at.fault))
  }

  lemma {:induction false} BookAllPreservesInvariants(doctors: DoctorTable, avail: AvailabilityTable,
                                                      appts: seq<Appointment>, attempts: seq<Attempt>)
    requires UniqueConfirmed(appts) && UniqueIds(appts)
    ensures UniqueConfirmed(BookAll(doctors, avail, appts, attempts).1)
    ensures UniqueIds(BookAll(doctors, avail, appts, attempts).1)
    decreases |attempts|
  {
    if attempts != [] {
      var prev := BookAll(doctors, avail, appts, attempts[..|attempts| - 1]);
      var at := attempts[|attempts| - 1];
      BookAllPreservesInvariants(doctors, avail, appts, attempts[..|attempts| - 1]);
      BookingPreservesInvariants(doctors, avail, prev.1, at.session, at.req, at.fault);
    }
  }

  /** Every attempt is a logged-in, fault-free request for the same slot. */
  predicate AllForSlot(attempts: seq<Attempt>, doctorId: int, date: string, slot: string) {
    forall k :: 0 <= k < |attempts| ==>
      attempts[k].session.userId.Some? && attempts[k].fault == NoFault
      && attempts[k].req == BookingRequest(Some(doctorId), Some(date), Some(slot))
  }

  /**
   * Patients racing for one open, unbooked slot of a bookable doctor, served in
   * turn: the first is booked, every later one is told the slot is taken, and
   * the slot ends with exactly one confirmed appointment.
   */
  lemma {:induction false} FirstComeFirstServed(doctors: DoctorTable, avail: AvailabilityTable, appts: seq<Appointment>,
                                                attempts: seq<Attempt>, doctorId: int, date: string, slot: string)
    requires attempts != [] && AllForSlot(attempts, doctorId, date, slot)
    requires doctorId != 0 && date != "" && slot != ""
    requires doctorId in doctors && !Blocked(doctors[doctorId])
    requires StoredStatus(avail, doctorId, date, slot) == 1
    requires ConfirmedCount(appts, doctorId, date, slot) == 0
    ensures var r := BookAll(doctors, avail, appts, attempts);
      r.0[0].Booked?
      && (forall k :: 1 <= k < |attempts| ==> r.0[k] == SlotAlreadyBooked)
      && ConfirmedCount(r.1, doctorId, date, slot) == 1
    decreases |attempts|
  {
    var init := attempts[..|attempts| - 1];
    var at := attempts[|attempts| - 1];
    var prev := BookAll(doctors, avail, appts, init);
    var r := BookAll(doctors, avail, appts, attempts);
    if init == [] {
      var a := NewAppointment(doctors, appts, at.session, at.req);
      ConfirmedCountSnoc(appts, a, doctorId, date, slot);
    } else {
      assert AllForSlot(init, doctorId, date, slot) by {
        forall k | 0 <= k < |init| ensures init[k] == attempts[k] { }
      }
      FirstComeFirstServed(doctors, avail, appts, init, doctorId, date, slot);
      assert r.0 == prev.0 + [SlotAlreadyBooked];
      forall k | 1 <= k < |attempts| ensures r.0[k] == SlotAlreadyBooked {
        if k < |init| {
          assert r.0[k] == prev.0[k];
        }
      }
    }
  }

  // ---------------------------------------------------------------------
  // Capacity (`doctoravailability`)

  const MaxSlots: int := 10

  /** `SELECT COUNT(*) FROM appointments WHERE doctor_name = ?`, any status (app.py:1036-1040). */
  function BookedCount(appts: seq<Appointment>, doctorName: string): (c: nat)
    ensures c <= |appts|
    decreases |appts|
  {
    if appts == [] then 0
    else
      BookedCount(appts[..|appts| - 1], doctorName)
      + (if appts[|appts| - 1].doctorName == doctorName then 1 else 0)
  }

  /** `max(max_slots - booked_count, 0)` (app.py:1044-1046). */
  function AvailableSlots(booked: nat): (r: int)
    ensures 0 <= r <= MaxSlots
    ensures r == 0 <==> booked >= MaxSlots
    ensures booked <= MaxSlots ==> r + booked == MaxSlots
  {
    if MaxSlots - booked > 0 then MaxSlots - booked else 0
  }

  /** What the capacity page shows: booked and available counts. */
  datatype Capacity = Capacity(booked: nat, available: int)

  /** `doctoravailability`: None ("Doctor not found") when the id has no row. */
  function CheckCapacity(doctors: DoctorTable, appts: seq<Appointment>, doctorId: int): (r: Option<Capacity>)
    ensures r.None? <==> doctorId !in doctors
    ensures r.Some? ==> 0 <= r.value.available <= MaxSlots
    ensures r.Some? ==> r.value.booked == BookedCount(appts, doctors[doctorId].name)
    ensures r.Some? ==> r.value.available == (if MaxSlots - r.value.booked > 0 then MaxSlots - r.value.booked else 0)
  {
    if doctorId !in doctors then None
    else
      var booked := BookedCount(appts, doctors[doctorId].name);
      Some(Capacity(booked, AvailableSlots(booked)))
  }

  /**
   * A successful booking uses up one of the doctor's ten places: the booked
   * count rises by one and the available count falls by one, never below 0.
   */
  lemma BookingUsesCapacity(doctors: DoctorTable, avail: AvailabilityTable, appts: seq<Appointment>,
                            s: Session, req: BookingRequest, fault: StorageFault)
    requires Decide(doctors, avail, appts, s, req, fault).Booked?
    ensures var before := CheckCapacity(doctors, appts, req.doctorId.value);
      var after := CheckCapacity(doctors, AppointmentsAfter(doctors, avail, appts, s, req, fault), req.doctorId.value);
      before.Some? && after.Some?
      && after.value.booked == before.value.booked + 1
      && after.value.available == (if before.value.available > 0 then before.value.available - 1 else 0)
  {
    var a := NewAppointment(doctors, appts, s, req);
    assert (appts + [a])[..|appts|] == appts;
  }
}
