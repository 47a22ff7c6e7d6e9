/** Dates and times of day made from a number of seconds, against a day-by-day Gregorian calendar. */
module Time {
  import opened Veils

  type i64 = x: int | -0x8000_0000_0000_0000 <= x < 0x8000_0000_0000_0000
  type i32 = x: int | -0x8000_0000 <= x < 0x8000_0000

  /** Casting to 32 bits keeps the low ones. */
  function ToI32(x: int): i32 {
    (x + 0x8000_0000) % 0x1_0000_0000 - 0x8000_0000
  }

  function WrapI64(x: int): i64 {
    (x + 0x8000_0000_0000_0000) % 0x1_0000_0000_0000_0000 - 0x8000_0000_0000_0000
  }

  datatype Date = Date(year: int, month: nat, day: nat)

  datatype Civil = Civil(date: Date, weekday: nat, hour: nat, minute: nat, second: nat)

  // --- the calendar (section 3.2.1 of ISO 8601:2004) -----------------------

  predicate Leap(y: int) {
    y % 4 == 0 && (y % 100 != 0 || y % 400 == 0)
  }

  function DaysIn(y: int, m: nat): nat {
    if m == 2 then if Leap(y) then 29 else 28
    else if m == 4 || m == 6 || m == 9 || m == 11 then 30
    else 31
  }

  predicate ValidDate(d: Date) {
    1 <= d.month <= 12 && 1 <= d.day <= DaysIn(d.year, d.month)
  }

  function NextDay(d: Date): Date {
    if d.day < DaysIn(d.year, d.month) then d.(day := d.day + 1)
    else if d.month < 12 then Date(d.year, d.month + 1, 1)
    else Date(d.year + 1, 1, 1)
  }

  function PrevDay(d: Date): Date {
    if d.day > 1 then d.(day := d.day - 1)
    else if d.month > 1 then Date(d.year, d.month - 1, DaysIn(d.year, d.month - 1))
    else Date(d.year - 1, 12, 31)
  }

  /** The date `z` days from 1970-01-01, counted one day at a time. */
  function Counted(z: int): Date
    decreases if z < 0 then -z else z
  {
    if z == 0 then Date(1970, 1, 1)
    else if z > 0 then NextDay(Counted(z - 1))
    else PrevDay(Counted(z + 1))
  }

  // --- the code ------------------------------------------------------------

  /** Days of a 400-year era before its year `yoe`; years begin in March. */
  function DaysBefore(yoe: int): int {
    365 * yoe + yoe / 4 - yoe / 100 + yoe / 400
  }

  function YearOfEra(doe: int): int {
    (doe - doe / 1460 + doe / 36_524 - doe / 146_096) / 365
  }

  const ERA := 146_097
  /** From 0000-03-01 to 1970-01-01. */
  const EPOCH := 719_468

  function DateFormula(x: (int, int)): Date {
    var (y, doy) := x;
    var mp := (5 * doy + 2) / 153;
    var d := doy - (153 * mp + 2) / 5 + 1;
    var m := if mp < 10 then mp + 3 else mp - 9;
    if doy < 0 || doy > 365 then Date(y, 0, 0) else Date(if m <= 2 then y + 1 else y, m, d)
  }

  /** The date of day `doy` of the year that begins in March of `y`. */
  function DateOf(y: int, doy: int): Date
    requires 0 <= doy <= 365
  {
    Veil(DateFormula, (y, doy), doy + 3)
  }

  lemma DateOfIs(y: int, doy: int)
    requires 0 <= doy <= 365
    ensures DateOf(y, doy) == DateFormula((y, doy))
  {
    Lift(DateFormula, (y, doy), doy + 3);
  }

  function YearOf(s: int): int {
    YearOfEra(s % ERA) + s / ERA * 400
  }

  function DayOfYear(s: int): int {
    var (doe, yoe) := (s % ERA, YearOfEra(s % ERA));
    doe - (365 * yoe + yoe / 4 - yoe / 100)
  }

  /** The computation on unbounded numbers. */
  function DateOfDay(z: int): Date {
    DayOfYearBounds(z + EPOCH);
    DateOf(YearOf(z + EPOCH), DayOfYear(z + EPOCH))
  }

  /** `civil_from_days`: the sum wraps at 64 bits, the year is cut to 32. */
  function CivilFromDays(z: i64): Date {
    var s := WrapI64(z + EPOCH);
    DayOfYearBounds(s);
    var d := DateOf(YearOf(s), DayOfYear(s));
    d.(year := ToI32(d.year))
  }

  /** 0 is Monday. */
  function Weekday(days: int): nat {
    (days + 3) % 7
  }

  function CivilFromSecs(secs: i64): Civil {
    var sod := secs % 86_400;
    Civil(CivilFromDays(secs / 86_400), Weekday(secs / 86_400), sod / 3600, sod / 60 % 60, sod % 60)
  }

  /** Day `s` of four-year block `q` of century `c`, counted within the era. */
  function InBlock(c: int, q: int, s: int): int {
    36_524 * c + 1461 * q + s
  }

  lemma Split(doe: int) returns (c: int, q: int, s: int)
    requires 0 <= doe < 146_096
    ensures 0 <= c <= 3 && 0 <= q <= 24 && 0 <= s <= 1460 && doe == InBlock(c, q, s)
    ensures q == 24 ==> s < 1460
  {
    c := doe / 36_524;
    var r := doe % 36_524;
    q := r / 1461;
    s := r % 1461;
  }

  /** The divisions in the year formula, one at a time. */
  lemma Quotients(c: int, q: int, s: int)
    requires 0 <= c <= 3 && 0 <= q <= 24 && 0 <= s <= 1460 && (q == 24 ==> s < 1460)
    ensures var doe := InBlock(c, q, s);
            && doe / 36_524 == c && doe / 146_096 == 0
            && doe / 1460 == 25 * c + q + (24 * c + q + s) / 1460
  {
    var doe := InBlock(c, q, s);
    assert doe == 36_524 * c + (1461 * q + s) && 0 <= 1461 * q + s < 36_524;
    assert doe == 1460 * (25 * c + q) + (24 * c + q + s);
  }

  lemma YearInBlock(c: int, q: int, s: int)
    requires 0 <= c <= 3 && 0 <= q <= 24 && 0 <= s <= 1460 && (q == 24 ==> s < 1460)
    ensures YearOfEra(InBlock(c, q, s)) == 100 * c + 4 * q + (if s < 1460 then s / 365 else 3)
  {
    Quotients(c, q, s);
    var e := (24 * c + q + s) / 1460;
    var k := if s < 1460 then s / 365 else 3;
    assert 0 <= e <= 1 && (e == 1 ==> 1364 <= s);
    assert InBlock(c, q, s) - (25 * c + q + e) + c == 365 * (100 * c + 4 * q) + (s - e);
    assert (s - e) / 365 == k;
  }

  lemma DaysBeforeBlock(c: int, q: int, k: int)
    requires 0 <= c <= 3 && 0 <= q <= 24 && 0 <= k <= 3
    ensures DaysBefore(100 * c + 4 * q + k) == InBlock(c, q, 365 * k)
    ensures DaysBefore(100 * c + 4 * q + k + 1) ==
      InBlock(c, q, 365 * (k + 1)) + (if k == 3 && (q < 24 || c == 3) then 1 else 0)
  {
    assert (100 * c + 4 * q + k) / 4 == 25 * c + q;
    assert (100 * c + 4 * q + k) / 100 == c;
    assert (100 * c + 4 * q + k) / 400 == 0;
    var y := 100 * c + 4 * q + k + 1;
    assert y / 4 == 25 * c + q + (if k == 3 then 1 else 0);
    assert y / 100 == c + (if k == 3 && q == 24 then 1 else 0);
    assert y / 400 == if k == 3 && q == 24 && c == 3 then 1 else 0;
  }

  /** The year formula finds the year that the day lies in. */
  lemma EraBounds(doe: int)
    requires 0 <= doe < 146_097
    ensures 0 <= YearOfEra(doe) < 400
    ensures DaysBefore(YearOfEra(doe)) <= doe < DaysBefore(YearOfEra(doe) + 1)
  {
    if doe < 146_096 {
      var c, q, s := Split(doe);
      YearInBlock(c, q, s);
      DaysBeforeBlock(c, q, if s < 1460 then s / 365 else 3);
    } else {
      LastOfEra(doe);
    }
  }

  lemma LastOfEra(doe: int)
    requires doe == 146_096
    ensures YearOfEra(doe) == 399 && DaysBefore(399) <= doe < DaysBefore(400)
  {}

  /** Years do not overlap, so no other year would do. */
  lemma YearIsUnique(a: int, b: int, doe: int)
    requires 0 <= a && 0 <= b
    requires DaysBefore(a) <= doe < DaysBefore(a + 1)
    requires DaysBefore(b) <= doe < DaysBefore(b + 1)
    ensures a == b
  {
    if a < b {
      YearsAscend(a + 1, b);
    } else if b < a {
      YearsAscend(b + 1, a);
    }
  }

  lemma YearsAscend(a: int, b: int)
    requires 0 <= a <= b
    ensures DaysBefore(a) <= DaysBefore(b)
  {}

  // --- one day after another -----------------------------------------------

  function YearLength(y: int): int {
    if Leap(y + 1) then 366 else 365
  }

  lemma Remainder4(y: int, q: int)
    ensures (y + 4 * q) % 4 == y % 4
  {}

  lemma Remainder100(y: int, q: int)
    ensures (y + 100 * q) % 100 == y % 100
  {}

  lemma Remainder400(y: int, q: int)
    ensures (y + 400 * q) % 400 == y % 400
  {}

  lemma LeapRepeats(y: int, era: int)
    ensures Leap(y + 400 * era) == Leap(y)
  {
    Remainder4(y, 100 * era);
    Remainder100(y, 4 * era);
    Remainder400(y, era);
  }

  lemma YearLengthInEra(yoe: int)
    requires 0 <= yoe < 400
    ensures DaysBefore(yoe + 1) - DaysBefore(yoe) == YearLength(yoe)
  {
    assert (yoe + 1) / 4 - yoe / 4 == if (yoe + 1) % 4 == 0 then 1 else 0;
    assert (yoe + 1) / 100 - yoe / 100 == if (yoe + 1) % 100 == 0 then 1 else 0;
    assert (yoe + 1) / 400 - yoe / 400 == if (yoe + 1) % 400 == 0 then 1 else 0;
  }

  lemma YearLengths(era: int, yoe: int)
    requires 0 <= yoe < 400
    ensures DaysBefore(yoe + 1) - DaysBefore(yoe) == YearLength(yoe + 400 * era)
  {
    LeapRepeats(yoe + 1, era);
    YearLengthInEra(yoe);
  }

  lemma DayOfYearBounds(s: int)
    ensures 0 <= DayOfYear(s) < YearLength(YearOf(s)) <= 366
    ensures s == s / ERA * ERA + DaysBefore(YearOfEra(s % ERA)) + DayOfYear(s)
  {
    EraBounds(s % ERA);
    YearLengths(s / ERA, YearOfEra(s % ERA));
  }

  /** A year and a day in it say which day is meant. */
  lemma Locate(s: int, era: int, yoe: int, doy: int)
    requires 0 <= yoe < 400 && 0 <= doy < YearLength(yoe + 400 * era)
    requires s == ERA * era + DaysBefore(yoe) + doy
    ensures YearOf(s) == yoe + 400 * era && DayOfYear(s) == doy
  {
    YearLengths(era, yoe);
    YearsAscend(yoe + 1, 400);
    assert s / ERA == era && s % ERA == DaysBefore(yoe) + doy;
    EraBounds(s % ERA);
    YearIsUnique(YearOfEra(s % ERA), yoe, s % ERA);
  }

  lemma DateIsValid(y: int, doy: int)
    requires 0 <= doy < YearLength(y)
    ensures ValidDate(DateOf(y, doy))
    ensures DateOf(y, doy).month <= 2 <==> doy >= 306
  {
    DateOfIs(y, doy);
  }

  lemma NextInYear(y: int, doy: int)
    requires 0 <= doy && doy + 1 < YearLength(y)
    ensures DateOf(y, doy + 1) == NextDay(DateOf(y, doy))
  {
    var mp := (5 * doy + 2) / 153;
    MonthHolds(doy, mp);
    MonthLength(y, mp);
    DateInMonth(y, doy, mp);
    DateInMonth(y, doy + 1, if doy + 1 < MonthStart(mp + 1) then mp else mp + 1);
  }

  /** The first day of month `mp`, counted from March. */
  function MonthStart(mp: int): int {
    (153 * mp + 2) / 5
  }

  lemma MonthHolds(doy: int, mp: int)
    ensures (5 * doy + 2) / 153 == mp <==> MonthStart(mp) <= doy < MonthStart(mp + 1)
  {}

  /** Twelve months from March on, the last of which ends with the year. */
  lemma MonthLength(y: int, mp: int)
    requires 0 <= mp <= 11
    ensures mp < 11 ==> MonthStart(mp + 1) - MonthStart(mp) == DaysIn(MonthDate(y, mp, 0).year, MonthDate(y, mp, 0).month)
    ensures mp == 11 ==> YearLength(y) - MonthStart(mp) == DaysIn(MonthDate(y, mp, 0).year, MonthDate(y, mp, 0).month)
  {}

  function MonthDate(y: int, mp: int, day: nat): Date
    requires 0 <= mp <= 11
  {
    Date(if mp < 10 then y else y + 1, if mp < 10 then mp + 3 else mp - 9, day)
  }

  lemma DateInMonth(y: int, doy: int, mp: int)
    requires 0 <= doy <= 365 && MonthStart(mp) <= doy < MonthStart(mp + 1)
    ensures 0 <= mp <= 11 && DateOf(y, doy) == MonthDate(y, mp, doy - MonthStart(mp) + 1)
  {
    DateOfIs(y, doy);
    MonthHolds(doy, mp);
  }

  lemma NextAcrossYears(y: int)
    ensures DateOf(y + 1, 0) == NextDay(DateOf(y, YearLength(y) - 1))
  {
    DateOfIs(y + 1, 0);
    DateOfIs(y, YearLength(y) - 1);
  }

  /** Where a day lies: the year `yoe` of `era`, beginning in March, and the day of that year. */
  predicate LiesAt(s: int, era: int, yoe: int, doy: int) {
    && 0 <= yoe < 400 && 0 <= doy < YearLength(yoe + 400 * era)
    && s == ERA * era + DaysBefore(yoe) + doy
  }

  lemma DayLiesAt(z: int) returns (era: int, yoe: int, doy: int)
    ensures LiesAt(z + EPOCH, era, yoe, doy) && DateOfDay(z) == DateOf(yoe + 400 * era, doy)
  {
    var s := z + EPOCH;
    era, yoe, doy := s / ERA, YearOfEra(s % ERA), DayOfYear(s);
    DayOfYearBounds(s);
    EraBounds(s % ERA);
  }

  lemma DateFromPlace(z: int, era: int, yoe: int, doy: int)
    requires LiesAt(z + EPOCH, era, yoe, doy)
    ensures DateOfDay(z) == DateOf(yoe + 400 * era, doy)
  {
    Locate(z + EPOCH, era, yoe, doy);
  }

  /** The last day of a year is followed by the first day of the next. */
  lemma NextYear(s: int, era: int, yoe: int) returns (era': int, yoe': int)
    requires LiesAt(s, era, yoe, YearLength(yoe + 400 * era) - 1)
    ensures yoe' + 400 * era' == yoe + 400 * era + 1 && LiesAt(s + 1, era', yoe', 0)
  {
    YearLengths(era, yoe);
    if yoe < 399 {
      era', yoe' := era, yoe + 1;
    } else {
      era', yoe' := era + 1, 0;
    }
  }

  lemma NextPlace(s: int, era: int, yoe: int, doy: int)
    requires LiesAt(s, era, yoe, doy)
    ensures DateOfDay(s + 1 - EPOCH) == NextDay(DateOf(yoe + 400 * era, doy))
  {
    var y := yoe + 400 * era;
    if doy + 1 < YearLength(y) {
      NextInYear(y, doy);
      DateFromPlace(s + 1 - EPOCH, era, yoe, doy + 1);
    } else {
      NextAcrossYears(y);
      var era', yoe' := NextYear(s, era, yoe);
      DateFromPlace(s + 1 - EPOCH, era', yoe', 0);
    }
  }

  /** The day after day `z` is the calendar's next day. */
  lemma SuccessorDay(z: int)
    ensures ValidDate(DateOfDay(z))
    ensures DateOfDay(z + 1) == NextDay(DateOfDay(z))
  {
    var era, yoe, doy := DayLiesAt(z);
    DateIsValid(yoe + 400 * era, doy);
    NextPlace(z + EPOCH, era, yoe, doy);
  }

  lemma PrevUndoesNext(d: Date)
    requires ValidDate(d)
    ensures PrevDay(NextDay(d)) == d
  {}

  lemma DayZero()
    ensures DateOfDay(0) == Date(1970, 1, 1)
  {
    DateFromPlace(0, 4, 369, 306);
    DateOfIs(1969, 306);
  }

  /** The closed formula is the day-by-day count, for every day there is. */
  lemma {:induction false} DateOfDayIsCounted(z: int)
    ensures DateOfDay(z) == Counted(z)
    decreases if z < 0 then -z else z
  {
    if z == 0 {
      DayZero();
    } else if z > 0 {
      DateOfDayIsCounted(z - 1);
      SuccessorDay(z - 1);
    } else {
      DateOfDayIsCounted(z + 1);
      SuccessorDay(z);
      PrevUndoesNext(DateOfDay(z));
    }
  }

  // --- the other way -------------------------------------------------------

  function MarchYear(d: Date): int {
    if d.month <= 2 then d.year - 1 else d.year
  }

  function MarchDay(d: Date): int {
    (153 * ((d.month + 9) % 12) + 2) / 5 + d.day - 1
  }

  /** The day number of a date. */
  function DaysFromCivil(d: Date): int {
    ERA * (MarchYear(d) / 400) + DaysBefore(MarchYear(d) % 400) + MarchDay(d) - EPOCH
  }

  /** The month formula and its inverse. */
  lemma MonthFromDay(mp: int, k: int)
    requires 0 <= mp <= 11 && 0 <= k
    requires (153 * mp + 2) / 5 + k < (153 * (mp + 1) + 2) / 5
    ensures (5 * ((153 * mp + 2) / 5 + k) + 2) / 153 == mp
  {}

  lemma MonthLengths(d: Date)
    requires ValidDate(d)
    ensures var mp := (d.month + 9) % 12;
            && (mp < 11 ==> (153 * mp + 2) / 5 + DaysIn(d.year, d.month) == (153 * (mp + 1) + 2) / 5)
            && (mp == 11 ==> (153 * mp + 2) / 5 + DaysIn(d.year, d.month) == YearLength(MarchYear(d)))
  {
    var m := d.month;
    if m == 1 {} else if m == 2 {} else if m == 3 {} else if m == 4 {} else if m == 5 {} else if m == 6 {}
    else if m == 7 {} else if m == 8 {} else if m == 9 {} else if m == 10 {} else if m == 11 {} else {}
  }

  lemma DayInYear(d: Date)
    requires ValidDate(d)
    ensures 0 <= MarchDay(d) < YearLength(MarchYear(d))
  {
    MonthLengths(d);
  }

  /** The month formula finds the month that the day lies in, counted from March. */
  lemma MonthOfDate(d: Date)
    requires ValidDate(d)
    ensures (5 * MarchDay(d) + 2) / 153 == (d.month + 9) % 12
  {
    var mp := (d.month + 9) % 12;
    MonthLengths(d);
    DayInYear(d);
    LastMonth();
    MonthFromDay(mp, d.day - 1);
  }

  lemma LastMonth()
    ensures (153 * 11 + 2) / 5 == 337 && (153 * 12 + 2) / 5 == 367
  {}

  /** From the month counted from March and the day back to the month and the day. */
  lemma MonthFromMarch(m: nat)
    requires 1 <= m <= 12
    ensures var mp := (m + 9) % 12; m == if mp < 10 then mp + 3 else mp - 9
  {}

  lemma DateFromParts(d: Date)
    requires ValidDate(d)
    ensures 0 <= MarchDay(d) < YearLength(MarchYear(d)) && DateOf(MarchYear(d), MarchDay(d)) == d
  {
    DayInYear(d);
    MonthOfDate(d);
    MonthFromMarch(d.month);
    DateOfIs(MarchYear(d), MarchDay(d));
  }

  lemma PartsFromDate(y: int, doy: int)
    requires 0 <= doy < YearLength(y)
    ensures MarchYear(DateOf(y, doy)) == y && MarchDay(DateOf(y, doy)) == doy
  {
    DateOfIs(y, doy);
  }

  /** Day numbers determine dates. */
  lemma DaysFromDate(z: int)
    ensures DaysFromCivil(DateOfDay(z)) == z
  {
    var era, yoe, doy := DayLiesAt(z);
    PartsFromDate(yoe + 400 * era, doy);
    assert (yoe + 400 * era) / 400 == era && (yoe + 400 * era) % 400 == yoe;
  }

  /** Dates determine day numbers. */
  lemma DateFromDays(d: Date)
    requires ValidDate(d)
    ensures DateOfDay(DaysFromCivil(d)) == d
  {
    DateFromParts(d);
    var y := MarchYear(d);
    assert y % 400 + 400 * (y / 400) == y;
    DateFromPlace(DaysFromCivil(d), y / 400, y % 400, MarchDay(d));
  }

  // --- with machine words --------------------------------------------------

  predicate YearFits(d: Date) {
    -0x8000_0000 <= d.year < 0x8000_0000
  }

  lemma SmallYearsNearby(d: Date)
    requires ValidDate(d) && YearFits(d)
    ensures -0x100_0000_0000 < DaysFromCivil(d) < 0x100_0000_0000
  {
    var y := MarchYear(d);
    assert 0 <= MarchDay(d) <= 366;
    assert 0 <= DaysBefore(y % 400) <= 146_097;
    assert -0x8000_0200 <= 400 * (y / 400) <= 0x8000_0000;
  }

  /** A year that fits 32 bits belongs to a day far from the ends of 64 bits. */
  lemma DaysOfSmallYears(z: int)
    requires YearFits(Counted(z))
    ensures -0x100_0000_0000 < z < 0x100_0000_0000 && ValidDate(Counted(z))
  {
    DateOfDayIsCounted(z);
    DaysFromDate(z);
    SuccessorDay(z);
    SmallYearsNearby(Counted(z));
  }

  lemma NoWrapNearby(x: int)
    requires -0x200_0000_0000 < x < 0x200_0000_0000
    ensures WrapI64(x) == x
  {}

  lemma CivilFromNearbyDays(z: i64)
    requires -0x100_0000_0000 < z < 0x100_0000_0000
    ensures CivilFromDays(z) == DateOfDay(z).(year := ToI32(DateOfDay(z).year))
  {
    NoWrapNearby(z + EPOCH);
  }

  lemma ToI32IffFits(x: int)
    ensures ToI32(x) == x <==> -0x8000_0000 <= x < 0x8000_0000
  {}

  /** The days of -2147483648-01-01 and of 2147483647-12-31, and the seconds they begin and end with. */
  const FIRST_DAY := -784_353_015_833
  const LAST_DAY := 784_351_576_776
  const FIRST_SECOND := -67_768_100_567_971_200
  const LAST_SECOND := 67_767_976_233_532_799

  lemma NextCounted(z: int)
    ensures ValidDate(Counted(z)) && Counted(z + 1) == NextDay(Counted(z))
  {
    DateOfDayIsCounted(z);
    DateOfDayIsCounted(z + 1);
    SuccessorDay(z);
  }

  /** Years never go back. */
  lemma {:induction false} YearsFollow(a: int, b: int)
    requires a <= b
    ensures Counted(a).year <= Counted(b).year
    decreases b - a
  {
    if a < b {
      YearsFollow(a, b - 1);
      NextCounted(b - 1);
    }
  }

  lemma FirstNumber()
    ensures DaysFromCivil(Date(-0x8000_0000, 1, 1)) == FIRST_DAY
  {
    var y := -0x8000_0001;
    assert y / 400 == -5_368_710 && y % 400 == 351;
    assert DaysBefore(351) == 128_199;
    assert MarchDay(Date(-0x8000_0000, 1, 1)) == 306;
  }

  lemma LastNumber()
    ensures DaysFromCivil(Date(0x7FFF_FFFF, 12, 31)) == LAST_DAY
  {
    var y := 0x7FFF_FFFF;
    assert y / 400 == 5_368_709 && y % 400 == 47;
    assert DaysBefore(47) == 17_166;
    assert MarchDay(Date(0x7FFF_FFFF, 12, 31)) == 305;
  }

  lemma FirstAndLastDate()
    ensures Counted(FIRST_DAY) == Date(-0x8000_0000, 1, 1) && Counted(FIRST_DAY - 1).year == -0x8000_0001
    ensures Counted(LAST_DAY) == Date(0x7FFF_FFFF, 12, 31) && Counted(LAST_DAY + 1).year == 0x8000_0000
  {
    FirstNumber();
    LastNumber();
    DateFromDays(Date(-0x8000_0000, 1, 1));
    DateFromDays(Date(0x7FFF_FFFF, 12, 31));
    DateOfDayIsCounted(FIRST_DAY);
    DateOfDayIsCounted(LAST_DAY);
    NextCounted(LAST_DAY);
    NextCounted(FIRST_DAY - 1);
    PrevUndoesNext(Counted(FIRST_DAY - 1));
  }

  /** The days whose year fits 32 bits. */
  lemma YearFitsIff(z: int)
    ensures YearFits(Counted(z)) <==> FIRST_DAY <= z <= LAST_DAY
  {
    FirstAndLastDate();
    if z < FIRST_DAY {
      YearsFollow(z, FIRST_DAY - 1);
    } else if z <= LAST_DAY {
      YearsFollow(FIRST_DAY, z);
      YearsFollow(z, LAST_DAY);
    } else {
      YearsFollow(LAST_DAY + 1, z);
    }
  }

  /** The code gives the calendar's date exactly for these days; beyond them the year is cut off. */
  lemma CivilFromDaysIff(z: i64)
    ensures CivilFromDays(z) == Counted(z) <==> FIRST_DAY <= z <= LAST_DAY
  {
    YearFitsIff(z);
    if YearFits(Counted(z)) {
      DaysOfSmallYears(z);
      DateOfDayIsCounted(z);
      CivilFromNearbyDays(z);
      ToI32IffFits(Counted(z).year);
    } else {
      var year: i32 := CivilFromDays(z).year;
    }
  }

  lemma SecondsOfDays(secs: int)
    ensures FIRST_DAY <= secs / 86_400 <= LAST_DAY <==> FIRST_SECOND <= secs <= LAST_SECOND
  {}

  /** Date and time of day recombine to the seconds they came from, exactly for the seconds of these days. */
  lemma CivilFromSecsRecombines(secs: i64)
    ensures var c := CivilFromSecs(secs);
            && (c.date == Counted(secs / 86_400) <==> FIRST_SECOND <= secs <= LAST_SECOND)
            && c.weekday == Weekday(secs / 86_400)
            && c.hour < 24 && c.minute < 60 && c.second < 60
    ensures FIRST_SECOND <= secs <= LAST_SECOND ==>
              var c := CivilFromSecs(secs);
              ValidDate(c.date) && 86_400 * DaysFromCivil(c.date) + 3600 * c.hour + 60 * c.minute + c.second == secs
  {
    var z := secs / 86_400;
    SecondsOfDays(secs);
    CivilFromDaysIff(z);
    NextCounted(z);
    DateOfDayIsCounted(z);
    DaysFromDate(z);
    TimeOfDay(secs);
  }

  lemma TimeOfDay(secs: int)
    ensures var sod := secs % 86_400;
            && sod / 3600 < 24 && 3600 * (sod / 3600) + 60 * (sod / 60 % 60) + sod % 60 == sod
            && 86_400 * (secs / 86_400) + sod == secs
  {
    var sod := secs % 86_400;
    assert sod / 60 == 60 * (sod / 3600) + sod / 60 % 60;
  }

  /** Weekdays follow one another from 1970-01-01, a Thursday. */
  lemma WeekdaysFollow(z: int)
    ensures Weekday(z + 1) == (Weekday(z) + 1) % 7 && Weekday(0) == 3
  {}
}
