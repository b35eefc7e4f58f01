# Appointment slots of the hospital app, in Dafny

This project models the appointment-slot part of `app.py`, a Flask hospital
application. Three tables are shared:

- `doctor_availability`: one 0/1 status per (doctor, date, slot), written with
  `INSERT ... ON CONFLICT DO UPDATE`;
- `appointments`;
- the `doctors` table's `blacklisted` flag.

The handlers that read and write these tables are modelled too:

- the doctor's availability page: the JSON upsert loop, the form grid and its
  field-name parsing, and the seven-day view;
- the patient's doctor page and its `has_availability` flag;
- the capacity page: `max(10 - booked, 0)`;
- the patient's booking calendar, with its `booked` flags;
- the booking handler's chain of guards, ending in one `confirmed` insert;
- the admin's blacklist toggle.

Modules:

- `Calendar`: proleptic Gregorian dates, `today + timedelta(days=n)`, the
  seven-day window, `isoformat()`, the byte order SQLite compares TEXT in, and
  the two slot constants `SLOTS` and `SLOT_DEFS`.
- `Availability`: the availability table as a map keyed by its unique triple,
  and the conversion of a submitted JSON value to 0/1. It also has the upserts
  of the JSON loop as a sequence of writes, with their fold `ApplyWrites`, and
  the grid relation `GridWritten` that a form submission must establish.
- `FormKeys`: the `avail-<date>-<slot>` field names. Both the split as written
  and the evidently intended parse are here (see Findings), together with the
  loop that collects `form_avail`.
- `Booking`: doctors, appointments, and the guard chain as one function
  (`Decide`) of the tables and the request. It also proves the invariant "at
  most one `confirmed` appointment per (doctor, date, slot)", states how
  several patients booking in turn are served, and covers the capacity figure
  and the toggle.
- `Hospital`: the class `HospitalDb`, holding the three tables as fields. Each
  handler is a method proved against the functions above; each keeps `Valid()`:
  statuses are 0/1, confirmed appointments are unique per slot, and ids are
  distinct.

Dates, the clock (`date.today()`), the session, the request body and storage
faults are parameters of the methods. Where a handler can end in an error,
`Option` or the `BookingOutcome` datatype models the error path.

Some choices of the code that a reader might not expect, modelled as written:

- A missing doctor (404) and a blocked one (403) are two different failures.
- A doctor is blocked when `blacklisted == 0`, and new doctors get 1
  (app.py:63, 1177), so the flag means "active", whatever its name says.
- There are two slot lists, `SLOTS` (morning/afternoon) and `SLOT_DEFS`
  (morning/evening). `Availability.GridNeverWritesEvening` states the
  consequence: the doctor's form never opens the calendar's evening slot.
- A request from nobody logged in is answered 401 before any other check.

## Model

| member | source | states |
|---|---|---|
| Calendar.NextDay | app.py:884 | the next day is a valid date strictly after the given one, in the same year or on 1 January of the next |
| Calendar.NextDayIsImmediate | app.py:884 | no valid date lies strictly between a date and the next day |
| Calendar.AddDays | app.py:884 | `d + timedelta(days=n)` is a valid date, strictly later when n > 0, never in an earlier year |
| Calendar.AddDaysMonotone | app.py:884 | adding more days gives a strictly later date |
| Calendar.Window | app.py:904 | the window has seven dates, starts today, and each date is the day after the previous one |
| Calendar.WindowIncreasing | app.py:971 | the window's dates strictly increase |
| Calendar.IsoFormat | app.py:885 | `isoformat()`, as also used at app.py:905: ten characters, with hyphens after the year and after the month |
| Calendar.IsoFormatMonotone | app.py:905 | ISO strings sort, byte by byte, in the same order as the dates they render |
| Calendar.WindowIso | app.py:1063-1068 | seven ISO strings, the first for today, strictly increasing and pairwise distinct |
| Calendar.WindowWithinBounds | app.py:907-908 | every date of the window lies between the first and the last, so `BETWEEN` admits it |
| Calendar.WindowIsoAt | app.py:1084-1087 | the i-th window string is `(today + timedelta(days=i)).isoformat()` |
| Calendar.IsoFormatExamples | app.py:885 | 31 January and 1 February 2024 render as "2024-01-31" and "2024-02-01" |
| Calendar.WindowAcrossMonthEnd | app.py:904 | a window starting on 28 January 2024 runs 28-31 January, then 1-3 February, without gaps |
| Calendar.WindowAcrossLeapDayAndYearEnd | app.py:884 | date arithmetic crosses 29 February 2024, skips it in 2100, and crosses the year end |
| Calendar.SlotKeysHaveNoHyphen | app.py:944 | no slot key of either list contains a hyphen |
| Calendar.SlotListsDiffer | app.py:1057-1060 | the two slot lists share "morning"; only `SLOTS` has "afternoon" and only `SLOT_DEFS` has "evening" |
| Availability.StoredStatus | app.py:921 | `.get(slot_key, 0)`, as at app.py:994 and 1126 too: the status of the triple's row; a missing row reads 0; on a 0/1 table the result is 0 or 1 |
| Availability.RangeStatus | app.py:907 | the rows fetched by the range query (also app.py:974): a row outside the `BETWEEN` range reads 0; a non-zero result is the stored status; on a 0/1 table the result is 0 or 1 |
| Availability.RangeStatusInWindow | app.py:907-921 | for every window date, reading through `date BETWEEN first AND last` gives the stored status |
| Availability.Normalize | app.py:848-851 | every submitted JSON value is stored as 0 or 1 |
| Availability.NormalizeNumbers | app.py:849 | numbers convert by truncation toward zero (0.5 closes, -1.5 opens); false and null close |
| Availability.NormalizeZeroText | app.py:849 | the text " -0_0 " is an integer zero to `int()`, so it closes the slot |
| Availability.ZerosText | app.py:849-851 | a text of n zeros closes the slot up to 4300 digits; past that `int()` raises and the text opens the slot |
| Availability.NormalizeSeparatorText | app.py:849-851 | a leading U+001C is no space to `int()`, so "\x1c0" raises there and the non-empty text opens the slot |
| Availability.NormalizeNonZeroText | app.py:849 | "007" opens the slot |
| Availability.NormalizeFalseText | app.py:850-851 | "false" is no integer and is non-empty, so it opens the slot |
| Availability.NormalizeDecimalText | app.py:849-851 | "0.0" opens the slot, while the number 0.0 closes it |
| Availability.NormalizeFixesStatuses | app.py:849 | a stored 0/1 submitted again keeps its value |
| Availability.FormValue | app.py:888 | a cell's form value is 1 exactly when the parsed pairs contain it, else 0 |
| Availability.DayWrites | app.py:847-858 | one upsert per entry of the day, in order, each naming the day's date and the entry's slot and value |
| Availability.Flatten | app.py:846-847 | every upsert names a date of the payload; there are none exactly when every day is empty |
| Availability.ApplyWrites | app.py:853-858 | the upserts never delete a row, and every new row is one some upsert names |
| Availability.ApplyWritesLastWins | app.py:853-858 | a triple holds the converted value of the last upsert naming it |
| Availability.ApplyWritesUntouched | app.py:853-858 | a triple no upsert names keeps its row, or stays absent |
| Availability.ApplyWritesKeepsBinary | app.py:848-858 | the upserts keep every stored status 0 or 1 |
| Availability.ApplyWritesForgetsStart | app.py:853-858 | the final value of a written triple does not depend on the table before |
| Availability.ApplyWritesIdempotent | app.py:846-858 | submitting the same availability twice gives the same table as submitting it once |
| Availability.ApplyWritesAppend | app.py:846-847 | issuing one batch of upserts and then another is issuing their concatenation |
| Availability.FlattenMembers | app.py:846-847 | the nested loop issues exactly one upsert per (day, entry) pair |
| Availability.ApplyWritesAgreed | app.py:853-858 | a triple whose every upsert stores the same status ends with that status |
| Availability.FormPayload | app.py:883-888 | the grid's upserts: one day per window date, one entry per slot, holding the cell's form value |
| Availability.FormWritesAreGridCells | app.py:883-888 | every upsert of the grid names a grid cell and stores its form value |
| Availability.GridCellsAreWritten | app.py:883-894 | every cell of the grid is upserted |
| Availability.FormPayloadWritesGrid | app.py:883-894 | the grid's upserts set each cell to its form value and leave every other row as it was |
| Availability.GridWrittenKeepsBinary | app.py:888-894 | a grid write keeps every stored status 0 or 1 |
| Availability.GridNeverWritesEvening | app.py:887 | the form grid never changes an "evening" row, the slot the booking calendar offers |
| FormKeys.FirstHyphen | app.py:874 | the index of the first hyphen: nothing before it is a hyphen |
| FormKeys.LastHyphen | app.py:874 | the index of the last hyphen: nothing after it is a hyphen |
| FormKeys.SplitHyphen2 | app.py:874 | `split("-", 2)`: one part when there is no hyphen; otherwise the parts rejoined with hyphens give the string back, and only the last part may contain hyphens |
| FormKeys.PrefixedKeyFirstHyphen | app.py:872-874 | a field that starts with "avail-" has its first hyphen at the end of the prefix |
| FormKeys.ParseKeyAsWritten | app.py:872-877 | a field parses exactly when it starts with "avail-" and has a hyphen after the prefix; a parsed pair is the field's date and slot around a hyphen, and the date never contains a hyphen |
| FormKeys.ParseKey | app.py:872-877 | the corrected parse: the field is "avail-" + date + "-" + slot, with no hyphen in the slot |
| FormKeys.ParseKeyRoundTrip | app.py:872-875 | every field the grid renders for a date and a slot parses back to that pair |
| FormKeys.AsWrittenCutsAfterDate | app.py:874 | as written, "avail-" + a hyphen-free date + "-" + any tail parses to that date and that tail |
| FormKeys.SplitCutsIsoDate | app.py:874 | as written, "avail-2024-06-10-morning" parses to date "2024" and slot "06-10-morning" |
| FormKeys.RsplitKeepsIsoDate | app.py:874 | the corrected parse reads that field as date "2024-06-10" and slot "morning" |
| FormKeys.Collect | app.py:870-877 | every pair some field parses to is collected |
| FormKeys.FormPairs | app.py:870-877 | with the corrected parse, each collected pair has a hyphen-free slot and comes from the field "avail-" + date + "-" + slot |
| FormKeys.AsWrittenPairs | app.py:870-877 | as written, each collected pair has a hyphen-free date and comes from the field "avail-" + date + "-" + slot |
| FormKeys.CollectSpec | app.py:870-877 | a pair is collected exactly when some field parses to it |
| FormKeys.CollectFormAvailability | app.py:870-877 | with the corrected parse, the loop over the form collects exactly the pairs some field parses to |
| FormKeys.AsWrittenDatesHaveNoHyphen | app.py:874-875 | as written, no collected date contains a hyphen |
| FormKeys.AsWrittenFormOpensNothing | app.py:874-888 | as written, whatever was ticked, every window cell gets form value 0 |
| FormKeys.FormCellOpenIffSubmitted | app.py:872-888 | with the corrected parse, a cell's form value is 1 exactly when its box was submitted |
| Booking.ToggleFlag | app.py:539 | the toggled flag is always 0 or 1 |
| Booking.ToggleTwice | app.py:539 | toggling twice restores the flag exactly when it was 0 or 1 |
| Booking.ToggleBlocksIffBookableDefault | app.py:539 | a new doctor (flag 1, app.py:63) is bookable; the toggle blocks a doctor exactly when the flag was 1, and on a 0/1 flag it flips blocked and bookable |
| Booking.ToggleDoctor | app.py:533-541 | None for an unknown id; otherwise only that doctor's flag changes, to 0 when it was 1 and to 1 otherwise, so the doctor ends blocked exactly when the flag was 1 |
| Booking.ToggleDoctorTwice | app.py:539-541 | toggling the same doctor twice restores the doctors table when the flag was 0 or 1 |
| Booking.ConfirmedCount | app.py:1195-1200 | the number of confirmed appointments for the slot, never more than the number of appointments |
| Booking.ConfirmedCountZeroIff | app.py:1196-1202 | the confirmed count is zero exactly when no appointment is confirmed for the slot |
| Booking.ConfirmedCountSnoc | app.py:1196-1199 | one more appointment raises the count by one exactly when it is confirmed for the slot |
| Booking.TwoConfirmedCountTwo | app.py:1196-1199 | two confirmed appointments for one slot make its count at least 2 |
| Booking.UniqueConfirmedCountAtMostOne | app.py:1195-1205 | under the invariant, every slot's confirmed count is at most 1 |
| Booking.UniqueConfirmedIffCountsAtMostOne | app.py:1195-1205 | the invariant holds exactly when no slot's confirmed count exceeds 1 |
| Booking.MaxId | app.py:1209-1227 | the largest id when some id is positive, and 0 exactly when none is; it bounds every id, and when positive it is some row's id |
| Booking.NextId | app.py:1227 | the new row's id is greater than every existing id |
| Booking.Blocked | app.py:1177 | the 403 guard `blacklisted == 0`: a blocked doctor never has the default flag 1, and is blocked exactly when the flag is what the toggle sets from the default |
| Booking.HasParameters | app.py:1164 | the 400 guard: passing needs all three parameters, and a doctor id of 0 or an empty date or slot fails it, as Python's truthiness has it |
| Booking.PatientNameOf | app.py:1162 | the username whenever it is non-empty, even when a patient name is set; else the patient name when non-empty; else "" |
| Booking.Decide | app.py:1154-1236 | 401 exactly when nobody is logged in; a 500 only under a storage fault; success only for a request with all parameters, an open slot and no confirmed appointment for it, with an id above every existing one |
| Booking.NewAppointment | app.py:1209-1224 | the inserted row is confirmed for the request's triple, carries the patient's id and name and the doctor's name and department, and has an id above every existing one |
| Booking.HttpStatus | app.py:1155-1240 | for reading the outcomes only: 200 exactly on success; 409 exactly for an unavailable or already-booked slot |
| Booking.AppointmentsAfter | app.py:1152-1240 | the list is kept as a prefix and grows by at most one row; it is unchanged exactly when the booking fails |
| Booking.GuardOrder | app.py:1154-1205 | each failure (401, 400, 404, 403, 409 unavailable, 409 booked) happens exactly when the earlier guards pass and its own check fails |
| Booking.BookedIffGuardsPass | app.py:1154-1227 | a booking succeeds exactly when: logged in, parameters present, doctor found and not blocked, slot open, no confirmed appointment for it, no storage fault |
| Booking.BookedAppendsConfirmedRow | app.py:1207-1227 | success appends one confirmed row with the request's triple, the doctor's name and department, the patient's id and name, and a fresh id |
| Booking.BookingPreservesInvariants | app.py:1195-1227 | every request keeps at most one confirmed appointment per slot, and distinct ids |
| Booking.SecondBookingRefused | app.py:1195-1205 | after a slot is booked, no request for it succeeds; one that gets past the guards is told "already booked" |
| Booking.BookAll | app.py:1152-1240 | bookings served in turn: one outcome per attempt; the original list is kept as a prefix and grows by at most one row per attempt |
| Booking.BookAllPreservesInvariants | app.py:1152-1240 | bookings served in turn keep both invariants |
| Booking.FirstComeFirstServed | app.py:1195-1227 | patients racing for one open slot, served in turn: the first is booked, every later one gets "already booked", and exactly one confirmed row results |
| Booking.BookedCount | app.py:1036-1040 | the number of appointments carrying the doctor's name, never more than the number of appointments |
| Booking.AvailableSlots | app.py:1044-1046 | available is in [0, 10], is 0 exactly when booked >= 10, and adds up with booked to 10 otherwise |
| Booking.CheckCapacity | app.py:1024-1046 | None exactly for an unknown doctor; otherwise booked counts the appointments carrying the doctor's name, and available is `max(10 - booked, 0)`, in [0, 10] |
| Booking.BookingUsesCapacity | app.py:1036-1046 | a successful booking raises the doctor's booked count by 1 and lowers available by 1, never below 0 |
| Hospital.HasAvailability | app.py:1003-1007 | true exactly when some cell of some day has status 1 |
| Hospital.WeekAvailability | app.py:988-1007 | a shown week has availability exactly when some stored window cell of `SLOTS` is open |
| Hospital.BookableCell | app.py:1125-1133 | a calendar cell's status is 0/1, and 1 exactly when the stored status is 1; `booked` holds exactly when some appointment is confirmed for the cell |
| Hospital.FormPostOpensExactlyTicked | app.py:869-894 | after a form post with the corrected parse, a window cell is open exactly when its box was ticked |
| Hospital.FormPostAsWrittenClosesAll | app.py:869-894 | after a form post with the split as written, every window cell is closed |
| Hospital.HospitalDb.constructor | app.py:116-124 | the doctors table is the given one, the availability table and the appointment list start empty, and the invariant holds |
| Hospital.HospitalDb.Upsert | app.py:853-858 | the triple's row holds the new status; every other row and table is unchanged |
| Hospital.HospitalDb.WriteJsonDay | app.py:847-858 | the inner loop leaves the table as the fold of its upserts |
| Hospital.HospitalDb.SubmitAvailabilityJson | app.py:843-860 | the table becomes the fold of all upserts, in order; the invariant is kept; the other tables are unchanged |
| Hospital.HospitalDb.WriteFormDay | app.py:887-894 | one day of the grid leaves the table as the fold of that day's upserts |
| Hospital.HospitalDb.SubmitAvailabilityForm | app.py:879-897 | every window cell of `SLOTS` gets its form value, every other row is unchanged, and the invariant is kept |
| Hospital.HospitalDb.PostAvailability | app.py:834-899 | a JSON body with an "availability" map takes the upsert loop; a non-empty form takes the grid with the corrected parse; otherwise nothing changes |
| Hospital.HospitalDb.WeekDays | app.py:901-928 | every day of the week view shows its window date and the stored status of each `SLOTS` cell, 0 when there is no row |
| Hospital.HospitalDb.PatientDoctorView | app.py:952-1016 | None exactly for an unknown doctor; otherwise the week as stored, with `has_availability` exactly when some window cell is open |
| Hospital.HospitalDb.PatientDoctorAvailability | app.py:1071-1149 | None exactly for an unknown doctor; otherwise seven days in window order, each cell of `SLOT_DEFS` as `BookableCell` states |
| Hospital.HospitalDb.BookableCells | app.py:1122-1134 | one cell per slot definition, each as `BookableCell` states |
| Hospital.HospitalDb.BookSlot | app.py:1152-1240 | the outcome is `Decide`'s, the appointment list becomes `AppointmentsAfter`'s, the other tables are unchanged and the invariant is kept |
| Hospital.HospitalDb.ToggleBlacklist | app.py:525-546 | false and no change for an unknown id; otherwise the doctors table becomes `ToggleDoctor`'s; the other tables are unchanged |

## Left out

- Flask routing, the session, role checks, `flash`, redirects, templates and
  `jsonify`. The session's `user_id` and names, the request body and `today`
  are parameters; HTTP statuses are the `BookingOutcome` kinds.
- The doctor page looks the doctor up by the session's `doctor_name`
  (app.py:823-832); the model's methods take the doctor id it finds.
- A booking body that is not a JSON object. `request.get_json() or {}` turns
  a falsy body (an empty array, `0`, `false`, `null`, `""`) into `{}`, so 400.
  A non-empty array or another scalar reaches `data.get` (app.py:1157-1158),
  which raises, so the handler ends in a 500.
  `BookingRequest` holds only the three parameters, each present or missing.
- SQL text and connection handling. The tables are a map, a sequence and a map.
- Concurrency and transaction isolation. The model makes the whole booking
  handler one atomic step and models races as bookings served in turn. That
  includes the doctor and availability reads at app.py:1170-1190, which the code
  runs before `BEGIN`. So an availability write by another request between the
  availability check and the insert is not modelled either.
- Storage faults. They are the `StorageFault` parameter and happen only inside
  the `try` block: before the count, or at the insert. A fault anywhere else
  would raise out of the handler. No other storage failure is modelled.
- The `created_at` timestamp, `sr_no`, and the `strftime` display strings.
  They depend on the clock and locale.
- Request values of other types. `doctor_id` is modelled as an integer or
  missing, `date` and `slot` as strings or missing. A string `doctor_id` that
  SQLite's type affinity would convert is not modelled.
- A JSON "availability" value that is not an object, or a day whose value is
  not an object. Iterating such a value raises, so the handler ends in a 500
  and nothing is committed.
- JSON objects with duplicate keys. Python keeps the last value under the first
  key's position; the model's payload is a plain sequence of entries in
  iteration order.
- Availability.Normalize: for JSON arrays and objects only the length matters,
  and non-ASCII digits, which `int()` also accepts, are not modelled. The
  4300-digit limit of `int(str)` is CPython's default from 3.11 on; an
  interpreter without it (older, or run with the limit off) would store 0 for a
  longer zero text, where the model stores 1. A `JFloat` holds the binary64
  value `json.loads` produces, so a literal's rounding happens before the
  model: `0.99999999999999999` arrives as 1.0 and opens the slot.
- Dates past 9999-12-31. Python raises `OverflowError` there, so the views and
  the form grid require `WindowFits` (the window ends by 9999-12-31). The JSON
  path builds no window and has no such requirement.
- The `local_slots` fallback of `patient_doctor_view` (app.py:981-986). `SLOTS`
  is always defined, so the fallback cannot run.
- MaxId: ids of 0 or below count as 0, so a table whose ids are all 0 or
  below gets id 1, where SQLite would take the largest id plus one. The handler
  never supplies an id, so every id it stores is SQLite's and positive.
- Appointment ids past SQLite's largest rowid. The model always takes one more
  than the largest id.
- A per-slot capacity on the capacity page. The page counts every appointment
  whose `doctor_name` matches, whatever its status or slot, and the model
  states that count as the code computes it.
- Login, registration, password hashing, the CRUD pages, the dashboards and the
  chat endpoint. They are not part of the slot logic.

## Findings

| source | as written | input that shows it | evidently intended | confidence | as-written member | corrected member |
|---|---|---|---|---|---|---|
| app.py:874 | `_, dstr, slot_key = key.split("-", 2)` cuts at the first two hyphens, so the date is everything between them. The ISO dates the grid later looks up (app.py:885-888) contain hyphens, so no pair matches and every form submission writes 0 to all fourteen cells | the field "avail-2024-06-10-morning" parses to ("2024", "06-10-morning") | the date is everything between "avail-" and the last hyphen, giving ("2024-06-10", "morning") | not executed | FormKeys.ParseKeyAsWritten, FormKeys.SplitCutsIsoDate, Hospital.FormPostAsWrittenClosesAll | FormKeys.ParseKey, FormKeys.ParseKeyRoundTrip, Hospital.FormPostOpensExactlyTicked |
