/**
 * The slot calendar: proleptic Gregorian dates as Python's `datetime.date`
 * handles them, the rolling seven-day window `today + timedelta(days=i)` for
 * `i in range(7)`, the ISO rendering `date.isoformat()` that the tables store,
 * and the two slot lists of app.py.
 */
module Calendar {

  datatype Date = Date(year: int, month: int, day: int)

  predicate IsLeapYear(y: int) {
    y % 4 == 0 && (y % 100 != 0 || y % 400 == 0)
  }

  function DaysInMonth(y: int, m: int): (n: int)
    requires 1 <= m <= 12
    ensures 28 <= n <= 31
    ensures n == 29 <==> m == 2 && IsLeapYear(y)
  {
    if m == 2 then (if IsLeapYear(y) then 29 else 28)
    else if m == 4 || m == 6 || m == 9 || m == 11 then 30
    else 31
  }

  /** `date.min` is 0001-01-01; the upper end is checked where dates are rendered. */
  predicate ValidDate(d: Date) {
    1 <= d.year && 1 <= d.month <= 12 && 1 <= d.day <= DaysInMonth(d.year, d.month)
  }

  /** `date.max.year`: isoformat renders exactly four year digits. */
  const MaxYear := 9999

  /** Chronological order: year, then month, then day. */
  predicate Before(a: Date, b: Date) {
    a.year < b.year
    || (a.year == b.year && (a.month < b.month || (a.month == b.month && a.day < b.day)))
  }

  /** `d + timedelta(days=1)`. */
  function NextDay(d: Date): (r: Date)
    requires ValidDate(d)
    ensures ValidDate(r) && Before(d, r)
    ensures r.year == d.year || (r.year == d.year + 1 && r.month == 1 && r.day == 1)
  {
    if d.day < DaysInMonth(d.year, d.month) then Date(d.year, d.month, d.day + 1)
    else if d.month < 12 then Date(d.year, d.month + 1, 1)
    else Date(d.year + 1, 1, 1)
  }

  /** No valid date lies strictly between a date and its successor. */
  lemma NextDayIsImmediate(d: Date, x: Date)
    requires ValidDate(d) && ValidDate(x) && Before(d, x)
    ensures x == NextDay(d) || Before(NextDay(d), x)
  {
  }

  /** `d + timedelta(days=n)`. */
  function AddDays(d: Date, n: nat): (r: Date)
    requires ValidDate(d)
    ensures ValidDate(r)
    ensures n > 0 ==> Before(d, r)
    ensures d.year <= r.year
    decreases n
  {
    if n == 0 then d else NextDay(AddDays(d, n - 1))
  }

  lemma {:induction false} AddDaysMonotone(d: Date, i: nat, j: nat)
    requires ValidDate(d) && i < j
    ensures Before(AddDays(d, i), AddDays(d, j))
    decreases j
  {
    if i < j - 1 {
      AddDaysMonotone(d, i, j - 1);
    }
  }

  /** Every window builder of app.py uses `range(7)`. */
  const WindowLength := 7

  /**
   * The window ends no later than `date.max`; past it Python raises
   * OverflowError, which no handler catches.
   */
  predicate WindowFits(today: Date) {
    ValidDate(today) && AddDays(today, WindowLength - 1).year <= MaxYear
  }

  /** `[today + timedelta(days=i) for i in range(7)]` */
  function Window(today: Date): (w: seq<Date>)
    requires WindowFits(today)
    ensures |w| == WindowLength && w[0] == today
    ensures forall i :: 0 <= i < |w| ==> ValidDate(w[i]) && w[i].year <= MaxYear
    ensures forall i :: 0 <= i < |w| - 1 ==> w[i + 1] == NextDay(w[i])
  {
    var w := seq(WindowLength, i requires 0 <= i < WindowLength => AddDays(today, i));
    forall i | 0 <= i < |w| - 1 ensures w[i + 1] == NextDay(w[i]) {
      assert w[i + 1] == AddDays(today, i + 1);
    }
    forall i | 0 <= i < |w| ensures ValidDate(w[i]) && w[i].year <= MaxYear {
      if i < WindowLength - 1 {
        AddDaysMonotone(today, i, WindowLength - 1);
      }
    }
    w
  }

  /** The window's days are strictly increasing. */
  lemma WindowIncreasing(today: Date, i: int, j: int)
    requires WindowFits(today) && 0 <= i < j < WindowLength
    ensures Before(Window(today)[i], Window(today)[j])
  {
    var w := Window(today);
    assert w[i] == AddDays(today, i) && w[j] == AddDays(today, j);
    AddDaysMonotone(today, i, j);
  }

  // ---------------------------------------------------------------------
  // ISO rendering and the byte order SQLite compares TEXT with

  function Digit(n: int): (c: char)
    requires 0 <= n <= 9
    ensures '0' <= c <= '9'
  {
    (48 + n) as char
  }

  /** `%02d` */
  function Pad2(n: int): (s: string)
    requires 0 <= n <= 99
    ensures |s| == 2
  {
    [Digit(n / 10), Digit(n % 10)]
  }

  /** `%04d` */
  function Pad4(n: int): (s: string)
    requires 0 <= n <= 9999
    ensures |s| == 4
  {
    Pad2(n / 100) + Pad2(n % 100)
  }

  /** `date.isoformat()`: YYYY-MM-DD. */
  function IsoFormat(d: Date): (s: string)
    requires ValidDate(d) && d.year <= MaxYear
    ensures |s| == 10 && s[4] == '-' && s[7] == '-'
  {
    Pad4(d.year) + "-" + Pad2(d.month) + "-" + Pad2(d.day)
  }

  /**
   * SQLite's BINARY collation: compare code by code, a proper prefix first.
   * On UTF-8 bytes this is the same order as on code points.
   */
  predicate LexLess(a: string, b: string)
    decreases |a|
  {
    |b| > 0 && (|a| == 0 || a[0] < b[0] || (a[0] == b[0] && LexLess(a[1..], b[1..])))
  }

  predicate LexLessEq(a: string, b: string) {
    a == b || LexLess(a, b)
  }

  lemma {:induction false} LexLessIrreflexive(a: string)
    ensures !LexLess(a, a)
    decreases |a|
  {
    if |a| > 0 {
      LexLessIrreflexive(a[1..]);
    }
  }

  /** A strict difference inside equal-length heads decides the whole comparison. */
  lemma {:induction false} LexLessAppend(a1: string, b1: string, a2: string, b2: string)
    requires |a1| == |b1| && LexLess(a1, b1)
    ensures LexLess(a1 + a2, b1 + b2)
    decreases |a1|
  {
    if a1[0] == b1[0] && !(a1[0] < b1[0]) {
      assert (a1 + a2)[1..] == a1[1..] + a2;
      assert (b1 + b2)[1..] == b1[1..] + b2;
      LexLessAppend(a1[1..], b1[1..], a2, b2);
    }
  }

  /** A common head does not change the comparison. */
  lemma {:induction false} LexLessPrefix(p: string, a: string, b: string)
    requires LexLess(a, b)
    ensures LexLess(p + a, p + b)
    decreases |p|
  {
    if |p| > 0 {
      assert (p + a)[1..] == p[1..] + a;
      assert (p + b)[1..] == p[1..] + b;
      LexLessPrefix(p[1..], a, b);
    } else {
      assert p + a == a && p + b == b;
    }
  }

  lemma Pad2Monotone(n: int, m: int)
    requires 0 <= n < m <= 99
    ensures LexLess(Pad2(n), Pad2(m))
  {
    var a, b := Pad2(n), Pad2(m);
    if n / 10 == m / 10 {
      assert a[0] == b[0];
      assert a[1] < b[1];
      assert LexLess(a[1..], b[1..]);
    }
  }

  lemma Pad4Monotone(n: int, m: int)
    requires 0 <= n < m <= 9999
    ensures LexLess(Pad4(n), Pad4(m))
  {
    if n / 100 < m / 100 {
      Pad2Monotone(n / 100, m / 100);
      LexLessAppend(Pad2(n / 100), Pad2(m / 100), Pad2(n % 100), Pad2(m % 100));
    } else {
      Pad2Monotone(n % 100, m % 100);
      LexLessPrefix(Pad2(n / 100), Pad2(n % 100), Pad2(m % 100));
    }
  }

  /** ISO strings sort exactly as the dates they render. */
  lemma IsoFormatMonotone(a: Date, b: Date)
    requires ValidDate(a) && a.year <= MaxYear && ValidDate(b) && b.year <= MaxYear
    requires Before(a, b)
    ensures LexLess(IsoFormat(a), IsoFormat(b))
  {
    var ya, yb := Pad4(a.year), Pad4(b.year);
    var ma, mb := Pad2(a.month), Pad2(b.month);
    var da, db := Pad2(a.day), Pad2(b.day);
    assert IsoFormat(a) == ya + ("-" + ma + "-" + da);
    assert IsoFormat(b) == yb + ("-" + mb + "-" + db);
    if a.year < b.year {
      Pad4Monotone(a.year, b.year);
      LexLessAppend(ya, yb, "-" + ma + "-" + da, "-" + mb + "-" + db);
    } else if a.month < b.month {
      Pad2Monotone(a.month, b.month);
      LexLessAppend(ma, mb, "-" + da, "-" + db);
      assert IsoFormat(a) == (ya + "-") + (ma + ("-" + da));
      assert IsoFormat(b) == (ya + "-") + (mb + ("-" + db));
      LexLessPrefix(ya + "-", ma + ("-" + da), mb + ("-" + db));
    } else {
      Pad2Monotone(a.day, b.day);
      assert IsoFormat(a) == (ya + "-" + ma + "-") + da;
      assert IsoFormat(b) == (ya + "-" + ma + "-") + db;
      LexLessPrefix(ya + "-" + ma + "-", da, db);
    }
  }

  /** `[d.isoformat() for d in dates]` over the window. */
  function WindowIso(today: Date): (w: seq<string>)
    requires WindowFits(today)
    ensures |w| == WindowLength && w[0] == IsoFormat(today)
    ensures forall i :: 0 <= i < |w| ==> |w[i]| == 10 && w[i][4] == '-'
    ensures forall i, j :: 0 <= i < j < |w| ==> LexLess(w[i], w[j]) && w[i] != w[j]
  {
    var days := Window(today);
    var w := seq(WindowLength, i requires 0 <= i < WindowLength => IsoFormat(days[i]));
    forall i, j | 0 <= i < j < |w| ensures LexLess(w[i], w[j]) && w[i] != w[j] {
      WindowIncreasing(today, i, j);
      IsoFormatMonotone(days[i], days[j]);
      LexLessIrreflexive(w[i]);
    }
    w
  }

  /** The SQL filter `date BETWEEN first AND last` admits every date of the window. */
  lemma WindowWithinBounds(today: Date, i: int)
    requires WindowFits(today) && 0 <= i < WindowLength
    ensures LexLessEq(WindowIso(today)[0], WindowIso(today)[i])
    ensures LexLessEq(WindowIso(today)[i], WindowIso(today)[WindowLength - 1])
  {
  }

  /** The i-th window string is `(today + timedelta(days=i)).isoformat()`. */
  lemma WindowIsoAt(today: Date, i: int)
    requires WindowFits(today) && 0 <= i < WindowLength
    ensures AddDays(today, i) == Window(today)[i] && AddDays(today, i).year <= MaxYear
    ensures WindowIso(today)[i] == IsoFormat(AddDays(today, i))
  {
  }

  /** `date(2024, 1, 28).isoformat()` and its neighbours, digit by digit. */
  lemma IsoFormatExamples()
    ensures IsoFormat(Date(2024, 1, 31)) == "2024-01-31"
    ensures IsoFormat(Date(2024, 2, 1)) == "2024-02-01"
  {
    assert Pad4(2024) == Pad2(20) + Pad2(24);
    assert Pad2(20) == "20" && Pad2(24) == "24";
    assert Pad2(1) == "01" && Pad2(2) == "02" && Pad2(31) == "31";
  }

  /** The days after 28 January 2024, one step at a time. */
  lemma MonthEndDays()
    ensures AddDays(Date(2024, 1, 28), 1) == Date(2024, 1, 29)
    ensures AddDays(Date(2024, 1, 28), 2) == Date(2024, 1, 30)
    ensures AddDays(Date(2024, 1, 28), 3) == Date(2024, 1, 31)
    ensures AddDays(Date(2024, 1, 28), 4) == Date(2024, 2, 1)
    ensures AddDays(Date(2024, 1, 28), 5) == Date(2024, 2, 2)
    ensures AddDays(Date(2024, 1, 28), 6) == Date(2024, 2, 3)
  {
    var t := Date(2024, 1, 28);
    assert AddDays(t, 1) == Date(2024, 1, 29);
    assert AddDays(t, 2) == Date(2024, 1, 30);
    assert AddDays(t, 3) == Date(2024, 1, 31);
    assert AddDays(t, 4) == Date(2024, 2, 1);
    assert AddDays(t, 5) == Date(2024, 2, 2);
  }

  /** A window that starts on 28 January runs into February without a gap. */
  lemma WindowAcrossMonthEnd()
    ensures WindowFits(Date(2024, 1, 28))
    ensures Window(Date(2024, 1, 28))
         == [Date(2024, 1, 28), Date(2024, 1, 29), Date(2024, 1, 30), Date(2024, 1, 31),
             Date(2024, 2, 1), Date(2024, 2, 2), Date(2024, 2, 3)]
  {
    var t := Date(2024, 1, 28);
    MonthEndDays();
    var w := Window(t);
    forall i | 0 <= i < WindowLength ensures w[i] == AddDays(t, i) {
      WindowIsoAt(t, i);
    }
  }

  /** A window over the leap day of 2024, over 2100 (not a leap year) and over the new year. */
  lemma WindowAcrossLeapDayAndYearEnd()
    ensures AddDays(Date(2024, 2, 27), 2) == Date(2024, 2, 29)
    ensures AddDays(Date(2024, 2, 27), 3) == Date(2024, 3, 1)
    ensures AddDays(Date(2100, 2, 27), 2) == Date(2100, 3, 1)
    ensures AddDays(Date(2023, 12, 30), 2) == Date(2024, 1, 1)
  {
  }

  // ---------------------------------------------------------------------
  // Slot definitions

  datatype SlotDef = SlotDef(key: string, hours: string)

  /** `SLOTS` (app.py:944): the doctor's grid and the patient's doctor view. */
  const Slots: seq<SlotDef> := [SlotDef("morning", "08:00 - 12:00"), SlotDef("afternoon", "12:00 - 16:00")]

  /** `SLOT_DEFS` (app.py:1057-1060): the patient's booking calendar. */
  const SlotDefs: seq<SlotDef> := [SlotDef("morning", "08:00 - 12:00"), SlotDef("evening", "16:00 - 20:00")]

  function SlotKeys(defs: seq<SlotDef>): (keys: seq<string>)
    ensures |keys| == |defs|
    ensures forall j :: 0 <= j < |defs| ==> keys[j] == defs[j].key
  {
    seq(|defs|, j requires 0 <= j < |defs| => defs[j].key)
  }

  /** No slot key of either list contains a hyphen. */
  lemma SlotKeysHaveNoHyphen(j: int)
    requires 0 <= j < |Slots|
    ensures '-' !in Slots[j].key && '-' !in SlotDefs[j].key
  {
  }

  /** The two lists agree on the morning slot and disagree on the second one. */
  lemma SlotListsDiffer()
    ensures Slots[0] == SlotDefs[0]
    ensures Slots[1].key == "afternoon" && SlotDefs[1].key == "evening"
    ensures "evening" !in SlotKeys(Slots) && "afternoon" !in SlotKeys(SlotDefs)
  {
    assert SlotKeys(Slots) == ["morning", "afternoon"];
    assert SlotKeys(SlotDefs) == ["morning", "evening"];
  }
}
