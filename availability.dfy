/**
 * The doctor_availability table (app.py:116-124) as a map keyed by its
 * UNIQUE(doctor_id, date, slot) triple, the two ways a doctor writes it
 * (the JSON upsert loop and the seven-day form grid) and how the views read it.
 */
module Availability {
  import opened Calendar

  /** The unique triple of a doctor_availability row; appointments carry the same triple. */
  datatype SlotKey = SlotKey(doctorId: int, date: string, slot: string)

  /**
   * One status per triple. `INSERT ... ON CONFLICT(doctor_id, date, slot)
   * DO UPDATE SET status = excluded.status` is a map update, so the table can
   * never hold two rows for a triple.
   */
  type AvailabilityTable = map<SlotKey, int>

  /** Every writer stores 0 (closed) or 1 (open). */
  ghost predicate StatusesBinary(t: AvailabilityTable) {
    forall k :: k in t ==> t[k] == 0 || t[k] == 1
  }

  /** `avail.get(dstr, {}).get(slot_key, 0)`: a missing row reads as closed. */
  function StoredStatus(t: AvailabilityTable, doctorId: int, date: string, slot: string): (r: int)
    ensures SlotKey(doctorId, date, slot) in t ==> r == t[SlotKey(doctorId, date, slot)]
    ensures SlotKey(doctorId, date, slot) !in t ==> r == 0
    ensures StatusesBinary(t) ==> r == 0 || r == 1
  {
    var k := SlotKey(doctorId, date, slot);
    if k in t then t[k] else 0
  }

  /**
   * The same lookup after the rows were fetched with
   * `date BETWEEN lo AND hi` (app.py:907, 974): rows outside the range are not seen.
   */
  function RangeStatus(t: AvailabilityTable, doctorId: int, date: string, slot: string, lo: string, hi: string): (r: int)
    ensures !LexLessEq(lo, date) || !LexLessEq(date, hi) ==> r == 0
    ensures r != 0 ==> r == StoredStatus(t, doctorId, date, slot)
    ensures StatusesBinary(t) ==> r == 0 || r == 1
  {
    if LexLessEq(lo, date) && LexLessEq(date, hi) then StoredStatus(t, doctorId, date, slot) else 0
  }

  /** For every date of the window, the range query of the views loses nothing. */
  lemma RangeStatusInWindow(t: AvailabilityTable, doctorId: int, today: Date, i: int, slot: string)
    requires WindowFits(today) && 0 <= i < WindowLength
    ensures RangeStatus(t, doctorId, WindowIso(today)[i], slot, WindowIso(today)[0], WindowIso(today)[WindowLength - 1])
         == StoredStatus(t, doctorId, WindowIso(today)[i], slot)
  {
    WindowWithinBounds(today, i);
  }

  // ---------------------------------------------------------------------
  // JSON submissions (app.py:843-858)

  /** A decoded JSON value, as `request.get_json` hands it to the handler. */
  datatype JsonValue =
    | JNull
    | JBool(b: bool)
    | JInt(i: int)
    | JFloat(f: real)      // a finite number written with a fraction or exponent
    | JNonFinite           // NaN, Infinity or -Infinity, which Python's json accepts
    | JString(s: string)
    | JArray(length: nat)
    | JObject(size: nat)

  predicate IsDecimalDigit(c: char) {
    '0' <= c <= '9'
  }

  /**
   * The characters `int(str)` strips: the ASCII space and tab to carriage
   * return, and the non-ASCII characters `str.isspace()` accepts. The ASCII
   * separators U+001C to U+001F count as spaces for `str.isspace()` but not
   * for `int()`.
   */
  predicate IsPySpace(c: char) {
    c == ' ' || ('\t' <= c <= '\r')
    || c == '\U{85}' || c == '\U{a0}' || c == '\U{1680}' || ('\U{2000}' <= c <= '\U{200a}')
    || c == '\U{2028}' || c == '\U{2029}' || c == '\U{202f}' || c == '\U{205f}' || c == '\U{3000}'
  }

  function StripLeft(s: string): (r: string)
    ensures |r| <= |s| && (r == [] || !IsPySpace(r[0]))
  {
    if s != [] && IsPySpace(s[0]) then StripLeft(s[1..]) else s
  }

  function StripRight(s: string): (r: string)
    ensures |r| <= |s| && (r == [] || !IsPySpace(r[|r| - 1]))
  {
    if s != [] && IsPySpace(s[|s| - 1]) then StripRight(s[..|s| - 1]) else s
  }

  /** Digits, with single underscores allowed between two digits (PEP 515). */
  predicate DigitGroups(u: string) {
    |u| > 0 && IsDecimalDigit(u[0]) && IsDecimalDigit(u[|u| - 1])
    && forall i :: 0 <= i < |u| ==>
         IsDecimalDigit(u[i]) || (u[i] == '_' && 0 < i < |u| - 1 && IsDecimalDigit(u[i + 1]))
  }

  /** The body of a base-10 `int(str)` after stripping: an optional sign, then digit groups. */
  predicate IntText(t: string) {
    |t| > 0 && (if t[0] == '+' || t[0] == '-' then DigitGroups(t[1..]) else DigitGroups(t))
  }

  /**
   * CPython's default limit on the digits `int(str)` converts: a longer text
   * raises ValueError (Python 3.11 and later). Signs and underscores do not count.
   */
  const MaxStrDigits: nat := 4300

  function DigitCount(t: string): (n: nat)
    ensures n <= |t|
  {
    if t == [] then 0 else (if IsDecimalDigit(t[0]) then 1 else 0) + DigitCount(t[1..])
  }

  lemma {:induction false} DigitCountAllDigits(t: string)
    requires forall i :: 0 <= i < |t| ==> IsDecimalDigit(t[i])
    ensures DigitCount(t) == |t|
  {
    if t != [] {
      DigitCountAllDigits(t[1..]);
    }
  }

  /** The integer text denotes zero: it has no digit other than 0. */
  predicate ZeroText(t: string) {
    forall i :: 0 <= i < |t| ==> !('1' <= t[i] <= '9')
  }

  /**
   * `1 if int(val) else 0`, falling back to `1 if bool(val) else 0` when
   * `int(val)` raises (app.py:848-851).
   */
  function Normalize(v: JsonValue): (r: int)
    ensures r == 0 || r == 1
  {
    match v
    case JNull => 0                                       // int(None) raises; bool(None) is False
    case JBool(b) => if b then 1 else 0
    case JInt(i) => if i != 0 then 1 else 0
    case JFloat(f) => if f >= 1.0 || f <= -1.0 then 1 else 0   // int() truncates toward zero
    case JNonFinite => 1                                  // int() raises; bool(nan) and bool(inf) are True
    case JString(s) =>
      var t := StripRight(StripLeft(s));
      if IntText(t) && DigitCount(t) <= MaxStrDigits then (if ZeroText(t) then 0 else 1)
      else if s != [] then 1 else 0
    case JArray(n) => if n > 0 then 1 else 0              // int([...]) raises; bool is non-emptiness
    case JObject(n) => if n > 0 then 1 else 0
  }

  /** Numbers convert by truncation toward zero; booleans by their truth. */
  lemma NormalizeNumbers()
    ensures Normalize(JFloat(0.5)) == 0 && Normalize(JFloat(-1.5)) == 1
    ensures Normalize(JInt(-3)) == 1 && Normalize(JBool(false)) == 0 && Normalize(JNull) == 0
  {
  }

  /** An integer text for zero closes a slot, surrounding spaces, a sign and underscores allowed. */
  lemma NormalizeZeroText()
    ensures Normalize(JString(" -0_0 ")) == 0
  {
    var t := StripRight(StripLeft(" -0_0 "));
    assert t == "-0_0" by {
      assert StripLeft(" -0_0 ") == "-0_0 " by {
        assert !IsPySpace('-');
        assert " -0_0 "[1..] == "-0_0 ";
      }
      assert StripRight("-0_0 ") == "-0_0" by {
        assert "-0_0 "[..4] == "-0_0";
      }
    }
    assert IntText(t) && ZeroText(t) by {
      assert t[1..] == "0_0";
      assert DigitGroups("0_0");
    }
  }

  /**
   * A text of n zeros closes the slot up to the digit limit; past it `int()`
   * raises and the non-empty text opens the slot.
   */
  lemma ZerosText(n: nat)
    requires n >= 1
    ensures Normalize(JString(seq(n, i => '0'))) == (if n <= MaxStrDigits then 0 else 1)
  {
    var s: string := seq(n, i => '0');
    assert !IsPySpace('0');
    assert StripLeft(s) == s;
    assert StripRight(s) == s;
    assert DigitGroups(s);
    DigitCountAllDigits(s);
  }

  /** A leading file separator (U+001C) is no space to `int()`, so the text is no integer and opens the slot. */
  lemma NormalizeSeparatorText()
    ensures Normalize(JString("\U{1c}0")) == 1
  {
    var s: string := "\U{1c}0";
    assert !IsPySpace(s[0]) && !IsPySpace(s[1]);
    assert StripRight(StripLeft(s)) == s;
    assert !IsDecimalDigit(s[0]) && s[0] != '+' && s[0] != '-';
  }

  /** An integer text with a non-zero digit opens a slot, leading zeros allowed. */
  lemma NormalizeNonZeroText()
    ensures Normalize(JString("007")) == 1
  {
    var t := StripRight(StripLeft("007"));
    assert t == "007";
    assert IntText(t) && !ZeroText(t) by {
      assert DigitGroups(t);
      assert t[2] == '7';
    }
  }

  /** Text that is not an integer converts by non-emptiness, so "false" opens a slot. */
  lemma NormalizeFalseText()
    ensures Normalize(JString("false")) == 1
  {
    var t := StripRight(StripLeft("false"));
    assert t == "false";
    assert !IntText(t) by { assert t[0] == 'f'; }
  }

  /** "0.0" is not an integer text either, so it opens a slot although 0.0 as a number does not. */
  lemma NormalizeDecimalText()
    ensures Normalize(JString("0.0")) == 1 && Normalize(JFloat(0.0)) == 0
  {
    var t := StripRight(StripLeft("0.0"));
    assert t == "0.0";
    assert !IntText(t) by { assert t[1] == '.'; }
  }

  /** A stored status read back as a JSON integer converts to itself. */
  lemma NormalizeFixesStatuses(v: JsonValue)
    ensures Normalize(JInt(Normalize(v))) == Normalize(v)
  {
  }

  datatype SlotEntry = SlotEntry(slot: string, value: JsonValue)

  /** One `dstr: {slot: val, ...}` member of the "availability" object, in iteration order. */
  datatype DayEntry = DayEntry(date: string, slots: seq<SlotEntry>)

  /** The "availability" object; Python dicts iterate in insertion order. */
  type AvailabilityPayload = seq<DayEntry>

  /** One upsert of the nested loop. */
  datatype AvailWrite = AvailWrite(date: string, slot: string, value: JsonValue)

  function DayWrites(e: DayEntry): (ws: seq<AvailWrite>)
    ensures |ws| == |e.slots|
    ensures forall j :: 0 <= j < |ws| ==> ws[j] == AvailWrite(e.date, e.slots[j].slot, e.slots[j].value)
  {
    seq(|e.slots|, j requires 0 <= j < |e.slots| => AvailWrite(e.date, e.slots[j].slot, e.slots[j].value))
  }

  /** The upserts of the nested loop, in the order it issues them. */
  function Flatten(p: AvailabilityPayload): (ws: seq<AvailWrite>)
    ensures forall i :: 0 <= i < |ws| ==> exists d :: 0 <= d < |p| && ws[i].date == p[d].date
    ensures ws == [] <==> forall d :: 0 <= d < |p| ==> p[d].slots == []
    decreases |p|
  {
    if p == [] then [] else Flatten(p[..|p| - 1]) + DayWrites(p[|p| - 1])
  }

  /** The upserts of a day's first s + 1 entries are those of its first s, then one more. */
  lemma DayWritesStep(date: string, entries: seq<SlotEntry>, s: int)
    requires 0 <= s < |entries|
    ensures DayWrites(DayEntry(date, entries[..s + 1]))
         == DayWrites(DayEntry(date, entries[..s])) + [AvailWrite(date, entries[s].slot, entries[s].value)]
  {
  }

  /** The upserts of the first i + 1 days are those of the first i, then all of day i. */
  lemma FlattenStep(p: AvailabilityPayload, i: int)
    requires 0 <= i < |p|
    ensures Flatten(p[..i + 1]) == Flatten(p[..i]) + DayWrites(p[i])
  {
    assert p[..i + 1][..i] == p[..i];
  }

  function WriteKey(doctorId: int, w: AvailWrite): SlotKey {
    SlotKey(doctorId, w.date, w.slot)
  }

  /** The table after issuing the upserts `ws` in order for one doctor. */
  function ApplyWrites(t: AvailabilityTable, doctorId: int, ws: seq<AvailWrite>): (r: AvailabilityTable)
    ensures t.Keys <= r.Keys
    ensures forall k :: k in r && k !in t ==> exists j :: 0 <= j < |ws| && WriteKey(doctorId, ws[j]) == k
    decreases |ws|
  {
    if ws == [] then t
    else
      var w := ws[|ws| - 1];
      ApplyWrites(t, doctorId, ws[..|ws| - 1])[WriteKey(doctorId, w) := Normalize(w.value)]
  }

  lemma ApplyWritesSnoc(t: AvailabilityTable, doctorId: int, ws: seq<AvailWrite>, w: AvailWrite)
    ensures ApplyWrites(t, doctorId, ws + [w]) == ApplyWrites(t, doctorId, ws)[WriteKey(doctorId, w) := Normalize(w.value)]
  {
    assert (ws + [w])[..|ws|] == ws;
  }

  /** Issuing `a` then `b` is issuing `a + b`. */
  lemma {:induction false} ApplyWritesAppend(t: AvailabilityTable, doctorId: int, a: seq<AvailWrite>, b: seq<AvailWrite>)
    ensures ApplyWrites(ApplyWrites(t, doctorId, a), doctorId, b) == ApplyWrites(t, doctorId, a + b)
    decreases |b|
  {
    if b == [] {
      assert a + b == a;
    } else {
      assert (a + b)[..|a + b| - 1] == a + b[..|b| - 1];
      ApplyWritesAppend(t, doctorId, a, b[..|b| - 1]);
    }
  }

  /** Last write wins: a triple holds the converted value of the last upsert naming it. */
  lemma {:induction false} ApplyWritesLastWins(t: AvailabilityTable, doctorId: int, ws: seq<AvailWrite>, idx: int)
    requires 0 <= idx < |ws|
    requires forall j :: idx < j < |ws| ==> WriteKey(doctorId, ws[j]) != WriteKey(doctorId, ws[idx])
    ensures WriteKey(doctorId, ws[idx]) in ApplyWrites(t, doctorId, ws)
    ensures ApplyWrites(t, doctorId, ws)[WriteKey(doctorId, ws[idx])] == Normalize(ws[idx].value)
    decreases |ws|
  {
    if idx < |ws| - 1 {
      ApplyWritesLastWins(t, doctorId, ws[..|ws| - 1], idx);
    }
  }

  /** A triple that no upsert names keeps its row, or its absence. */
  lemma {:induction false} ApplyWritesUntouched(t: AvailabilityTable, doctorId: int, ws: seq<AvailWrite>, k: SlotKey)
    requires forall j :: 0 <= j < |ws| ==> WriteKey(doctorId, ws[j]) != k
    ensures k in ApplyWrites(t, doctorId, ws) <==> k in t
    ensures k in t ==> ApplyWrites(t, doctorId, ws)[k] == t[k]
    decreases |ws|
  {
    if ws != [] {
      ApplyWritesUntouched(t, doctorId, ws[..|ws| - 1], k);
    }
  }

  /** Upserts only ever store 0 or 1. */
  lemma {:induction false} ApplyWritesKeepsBinary(t: AvailabilityTable, doctorId: int, ws: seq<AvailWrite>)
    requires StatusesBinary(t)
    ensures StatusesBinary(ApplyWrites(t, doctorId, ws))
    decreases |ws|
  {
    if ws != [] {
      ApplyWritesKeepsBinary(t, doctorId, ws[..|ws| - 1]);
    }
  }

  /** A triple that some upsert names ends up with a value that does not depend on the starting table. */
  lemma {:induction false} ApplyWritesForgetsStart(t1: AvailabilityTable, t2: AvailabilityTable, doctorId: int, ws: seq<AvailWrite>, idx: int)
    requires 0 <= idx < |ws|
    ensures WriteKey(doctorId, ws[idx]) in ApplyWrites(t1, doctorId, ws)
    ensures WriteKey(doctorId, ws[idx]) in ApplyWrites(t2, doctorId, ws)
    ensures ApplyWrites(t1, doctorId, ws)[WriteKey(doctorId, ws[idx])] == ApplyWrites(t2, doctorId, ws)[WriteKey(doctorId, ws[idx])]
    decreases |ws|
  {
    var k := WriteKey(doctorId, ws[idx]);
    if idx < |ws| - 1 && WriteKey(doctorId, ws[|ws| - 1]) != k {
      ApplyWritesForgetsStart(t1, t2, doctorId, ws[..|ws| - 1], idx);
    }
  }

  /** Submitting the same availability twice leaves the table as submitting it once. */
  lemma ApplyWritesIdempotent(t: AvailabilityTable, doctorId: int, ws: seq<AvailWrite>)
    ensures ApplyWrites(ApplyWrites(t, doctorId, ws), doctorId, ws) == ApplyWrites(t, doctorId, ws)
  {
    var once := ApplyWrites(t, doctorId, ws);
    var twice := ApplyWrites(once, doctorId, ws);
    forall k | k in twice || k in once
      ensures k in twice && k in once && twice[k] == once[k]
    {
      if idx :| 0 <= idx < |ws| && WriteKey(doctorId, ws[idx]) == k {
        ApplyWritesForgetsStart(once, t, doctorId, ws, idx);
      } else {
        ApplyWritesUntouched(once, doctorId, ws, k);
        ApplyWritesUntouched(t, doctorId, ws, k);
      }
    }
  }

  // ---------------------------------------------------------------------
  // The seven-day form grid (app.py:879-894)

  /** `form_avail.get(dstr, {}).get(slot_key, 0)` with every parsed entry set to 1. */
  function FormValue(parsed: set<(string, string)>, date: string, slot: string): (v: int)
    ensures v == 1 <==> (date, slot) in parsed
    ensures v == 0 <==> (date, slot) !in parsed
  {
    if (date, slot) in parsed then 1 else 0
  }

  /** The triple is one of the cells `dates` x `defs` of the doctor's grid. */
  predicate InGrid(k: SlotKey, doctorId: int, dates: seq<string>, defs: seq<SlotDef>) {
    k.doctorId == doctorId && k.date in dates && k.slot in SlotKeys(defs)
  }

  /**
   * `after` is `before` with every cell of the grid upserted to its form
   * value and every other row as it was.
   */
  ghost predicate GridWritten(before: AvailabilityTable, after: AvailabilityTable, doctorId: int,
                              dates: seq<string>, defs: seq<SlotDef>, parsed: set<(string, string)>)
  {
    && (forall k :: k in after <==> k in before || InGrid(k, doctorId, dates, defs))
    && (forall k :: k in after && InGrid(k, doctorId, dates, defs) ==> after[k] == FormValue(parsed, k.date, k.slot))
    && (forall k :: k in after && !InGrid(k, doctorId, dates, defs) ==> after[k] == before[k])
  }

  /**
   * The upserts the form grid issues, as a payload: one day per date, one
   * entry per slot definition, holding the cell's form value.
   */
  function FormPayload(dates: seq<string>, defs: seq<SlotDef>, parsed: set<(string, string)>): (p: AvailabilityPayload)
    ensures |p| == |dates|
    ensures forall i :: 0 <= i < |p| ==> p[i] == FormDay(dates[i], defs, parsed)
  {
    seq(|dates|, i requires 0 <= i < |dates| => FormDay(dates[i], defs, parsed))
  }

  function FormDay(date: string, defs: seq<SlotDef>, parsed: set<(string, string)>): (e: DayEntry)
    ensures e.date == date && |e.slots| == |defs|
    ensures forall j :: 0 <= j < |defs| ==> e.slots[j] == SlotEntry(defs[j].key, JInt(FormValue(parsed, date, defs[j].key)))
  {
    DayEntry(date, seq(|defs|, j requires 0 <= j < |defs| => SlotEntry(defs[j].key, JInt(FormValue(parsed, date, defs[j].key)))))
  }

  /** The upserts of the nested loop are exactly one per (day, entry) pair. */
  lemma {:induction false} FlattenMembers(p: AvailabilityPayload, w: AvailWrite)
    ensures w in Flatten(p) <==>
      exists i, j :: 0 <= i < |p| && 0 <= j < |p[i].slots| && w == DayWrites(p[i])[j]
    decreases |p|
  {
    if p != [] {
      var init := p[..|p| - 1];
      FlattenMembers(init, w);
      assert Flatten(p) == Flatten(init) + DayWrites(p[|p| - 1]);
      if w in Flatten(init) {
        var i, j :| 0 <= i < |init| && 0 <= j < |init[i].slots| && w == DayWrites(init[i])[j];
        assert init[i] == p[i];
      }
      if w in DayWrites(p[|p| - 1]) {
        var j :| 0 <= j < |DayWrites(p[|p| - 1])| && DayWrites(p[|p| - 1])[j] == w;
        assert 0 <= j < |p[|p| - 1].slots|;
      }
      if i, j :| 0 <= i < |p| && 0 <= j < |p[i].slots| && w == DayWrites(p[i])[j] {
        if i < |p| - 1 {
          assert init[i] == p[i];
        } else {
          assert DayWrites(p[|p| - 1])[j] == w;
        }
      }
    }
  }

  /** When every upsert naming a triple stores the same status, the triple ends with it. */
  lemma {:induction false} ApplyWritesAgreed(t: AvailabilityTable, doctorId: int, ws: seq<AvailWrite>, k: SlotKey, v: int)
    requires exists j :: 0 <= j < |ws| && WriteKey(doctorId, ws[j]) == k
    requires forall j :: 0 <= j < |ws| && WriteKey(doctorId, ws[j]) == k ==> Normalize(ws[j].value) == v
    ensures k in ApplyWrites(t, doctorId, ws) && ApplyWrites(t, doctorId, ws)[k] == v
    decreases |ws|
  {
    var init := ws[..|ws| - 1];
    if WriteKey(doctorId, ws[|ws| - 1]) != k {
      var j :| 0 <= j < |ws| && WriteKey(doctorId, ws[j]) == k;
      assert init[j] == ws[j];
      forall j | 0 <= j < |init| && WriteKey(doctorId, init[j]) == k ensures Normalize(init[j].value) == v {
        assert init[j] == ws[j];
      }
      ApplyWritesAgreed(t, doctorId, init, k, v);
    }
  }

  /** Every upsert of the form grid names a grid cell and stores that cell's form value. */
  lemma FormWritesAreGridCells(doctorId: int, dates: seq<string>, defs: seq<SlotDef>, parsed: set<(string, string)>, w: AvailWrite)
    requires w in Flatten(FormPayload(dates, defs, parsed))
    ensures InGrid(WriteKey(doctorId, w), doctorId, dates, defs)
    ensures Normalize(w.value) == FormValue(parsed, w.date, w.slot)
  {
    var p := FormPayload(dates, defs, parsed);
    FlattenMembers(p, w);
    var i, j :| 0 <= i < |p| && 0 <= j < |p[i].slots| && w == DayWrites(p[i])[j];
    assert w.date == dates[i];
    assert w.slot == SlotKeys(defs)[j];
  }

  /** Every cell of the grid is named by some upsert of the form grid. */
  lemma GridCellsAreWritten(doctorId: int, dates: seq<string>, defs: seq<SlotDef>, parsed: set<(string, string)>, k: SlotKey)
    requires InGrid(k, doctorId, dates, defs)
    ensures exists j :: 0 <= j < |Flatten(FormPayload(dates, defs, parsed))|
                      && WriteKey(doctorId, Flatten(FormPayload(dates, defs, parsed))[j]) == k
  {
    var p := FormPayload(dates, defs, parsed);
    var i :| 0 <= i < |dates| && dates[i] == k.date;
    var j :| 0 <= j < |defs| && SlotKeys(defs)[j] == k.slot;
    var w := DayWrites(p[i])[j];
    FlattenMembers(p, w);
    var ws := Flatten(p);
    var idx :| 0 <= idx < |ws| && ws[idx] == w;
  }

  /** Issuing the form grid's upserts gives exactly the grid relation. */
  lemma FormPayloadWritesGrid(t: AvailabilityTable, doctorId: int, dates: seq<string>, defs: seq<SlotDef>, parsed: set<(string, string)>)
    ensures GridWritten(t, ApplyWrites(t, doctorId, Flatten(FormPayload(dates, defs, parsed))), doctorId, dates, defs, parsed)
  {
    var ws := Flatten(FormPayload(dates, defs, parsed));
    var after := ApplyWrites(t, doctorId, ws);
    forall k ensures (k in after <==> k in t || InGrid(k, doctorId, dates, defs))
      && (k in after && InGrid(k, doctorId, dates, defs) ==> after[k] == FormValue(parsed, k.date, k.slot))
      && (k in after && !InGrid(k, doctorId, dates, defs) ==> after[k] == t[k])
    {
      if InGrid(k, doctorId, dates, defs) {
        GridCellsAreWritten(doctorId, dates, defs, parsed, k);
        forall j | 0 <= j < |ws| && WriteKey(doctorId, ws[j]) == k
          ensures Normalize(ws[j].value) == FormValue(parsed, k.date, k.slot)
        {
          FormWritesAreGridCells(doctorId, dates, defs, parsed, ws[j]);
        }
        ApplyWritesAgreed(t, doctorId, ws, k, FormValue(parsed, k.date, k.slot));
      } else {
        forall j | 0 <= j < |ws| ensures WriteKey(doctorId, ws[j]) != k {
          FormWritesAreGridCells(doctorId, dates, defs, parsed, ws[j]);
        }
        ApplyWritesUntouched(t, doctorId, ws, k);
      }
    }
  }

  /** A grid write keeps the table binary. */
  lemma GridWrittenKeepsBinary(before: AvailabilityTable, after: AvailabilityTable, doctorId: int,
                               dates: seq<string>, defs: seq<SlotDef>, parsed: set<(string, string)>)
    requires StatusesBinary(before)
    requires GridWritten(before, after, doctorId, dates, defs, parsed)
    ensures StatusesBinary(after)
  {
  }

  /** The doctor's form grid never writes an "evening" row, the slot the booking calendar offers. */
  lemma GridNeverWritesEvening(before: AvailabilityTable, after: AvailabilityTable, doctorId: int,
                               dates: seq<string>, parsed: set<(string, string)>, date: string)
    requires GridWritten(before, after, doctorId, dates, Slots, parsed)
    ensures StoredStatus(after, doctorId, date, "evening") == StoredStatus(before, doctorId, date, "evening")
  {
    SlotListsDiffer();
  }
}
