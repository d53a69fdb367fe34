/** The proleptic Gregorian calendar, computed three times: from a day number to a date, from a date
    to a day number, and once more by adding up years and months. */
module Calendar {
  import opened ByteStrings
  import opened Wrappers

  /** Division of 64-bit integers rounds towards zero. */
  function TruncDiv(a: int, b: int): int
    requires b > 0
  {
    if a >= 0 then a / b else -(-a / b)
  }

  function TruncRem(a: int, b: int): int
    requires b > 0
  {
    a - b * TruncDiv(a, b)
  }

  datatype Date = Date(year: int, month: int, day: int)

  // ----- the calendar itself -----

  predicate Leap(year: int) { (year % 4 == 0 && year % 100 != 0) || year % 400 == 0 }

  function MonthLength(year: int, month: int): int {
    if month in {4, 6, 9, 11} then 30 else if month != 2 then 31 else if Leap(year) then 29 else 28
  }

  predicate ValidDate(t: Date) { 1 <= t.month <= 12 && 1 <= t.day <= MonthLength(t.year, t.month) }

  function NextDay(t: Date): Date {
    if t.day < MonthLength(t.year, t.month) then t.(day := t.day + 1)
    else if t.month < 12 then Date(t.year, t.month + 1, 1)
    else Date(t.year + 1, 1, 1)
  }

  predicate Before(s: Date, t: Date) {
    s.year < t.year || (s.year == t.year && (s.month < t.month || (s.month == t.month && s.day < t.day)))
  }

  // ----- the closed forms -----

  /** The date of a day counted from 1970-01-01. Only the dividend of the era can be negative. */
  function CivilFromDays(days: int): Date {
    var z := days + 719_468;
    var era := EraOfDay(z);
    var doe := z - era * 146_097;
    var yoe := YearInEra(doe);
    CivilInYear(yoe + era * 400, doe - YearStart(yoe))
  }

  /** Days of an era before one of its years. */
  function YearStart(yoe: int): int { 365 * yoe + yoe / 4 - yoe / 100 }

  function EraOfDay(z: int): int { TruncDiv(if z >= 0 then z else z - 146_096, 146_097) }

  function EraOfYear(y: int): int { TruncDiv(if y >= 0 then y else y - 399, 400) }

  function YearInEra(doe: int): int { (doe - doe / 1_460 + doe / 36_524 - doe / 146_096) / 365 }

  function CivilInYear(y: int, doy: int): Date {
    var mp := (5 * doy + 2) / 153;
    var d := doy - (153 * mp + 2) / 5 + 1;
    var m := mp + if mp < 10 then 3 else -9;
    Date(y + if m <= 2 then 1 else 0, m, d)
  }

  /** The closed form in the other direction, before the day is checked. */
  function DayNumber(t: Date): int {
    var adjusted := t.year - if t.month <= 2 then 1 else 0;
    var era := EraOfYear(adjusted);
    var yoe := adjusted - era * 400;
    era * 146_097 + (YearStart(yoe) + DayOfYear(t)) - 719_468
  }

  function DayOfYear(t: Date): int {
    var mp := t.month + if t.month > 2 then -3 else 9;
    (153 * mp + 2) / 5 + t.day - 1
  }

  /** A year that starts in March: centuries of an era, groups of four years in a century, years in
      a group, and days. The last day exists in leap years only. */
  predicate MarchDay(c: int, q: int, r: int, doy: int) {
    && 0 <= c < 4 && 0 <= q < 25 && 0 <= r < 4 && 0 <= doy <= 365
    && (doy == 365 ==> r == 3 && (q < 24 || c == 3))
  }

  lemma EraOf(z: int, era: int, doe: int)
    requires z == era * 146_097 + doe && 0 <= doe < 146_097
    ensures EraOfDay(z) == era
  {
  }

  lemma EraSplits(z: int)
    ensures 0 <= z - EraOfDay(z) * 146_097 < 146_097
  {
  }

  /** Adjusted years split into eras the same way. */
  lemma EraOfYearIs(y: int, era: int, yoe: int)
    requires y == era * 400 + yoe && 0 <= yoe < 400
    ensures EraOfYear(y) == era
  {
  }

  lemma YearParts(c: int, q: int, r: int)
    requires 0 <= c < 4 && 0 <= q < 25 && 0 <= r < 4
    ensures var yoe := 100 * c + 4 * q + r;
            && 0 <= yoe < 400 && yoe / 4 == 25 * c + q && yoe / 100 == c
            && YearStart(yoe) == 36_524 * c + 1_461 * q + 365 * r
  {
  }

  /** The four divisions find the year of the era. */
  lemma YearOfEra(c: int, q: int, r: int, doy: int)
    requires MarchDay(c, q, r, doy)
    ensures var doe := 36_524 * c + 1_461 * q + 365 * r + doy;
            && 0 <= doe < 146_097
            && YearInEra(doe) == 100 * c + 4 * q + r
  {
    var doe := 36_524 * c + 1_461 * q + 365 * r + doy;
    var rest := 24 * c + q + 365 * r + doy;
    var late := if rest >= 1_460 then 1 else 0;
    var last := if doe == 146_096 then 1 else 0;
    assert doe == 1_460 * (25 * c + q) + rest && 0 <= rest < 2_920;
    assert doe / 1_460 == 25 * c + q + late;
    assert doe / 36_524 == c + last;
    assert doe / 146_096 == last;
  }

  /** Every day of an era has such parts. */
  lemma EraParts(doe: int) returns (c: int, q: int, r: int, doy: int)
    requires 0 <= doe < 146_097
    ensures MarchDay(c, q, r, doy) && doe == 36_524 * c + 1_461 * q + 365 * r + doy
  {
    c := Min(doe / 36_524, 3);
    var inCentury := doe - 36_524 * c;
    q := Min(inCentury / 1_461, 24);
    var inGroup := inCentury - 1_461 * q;
    r := Min(inGroup / 365, 3);
    doy := inGroup - 365 * r;
  }

  /** Months counted from March start at fixed days. */
  lemma MonthOfDay(mp: int, day: int)
    requires 0 <= mp < 12 && 1 <= day <= (if mp == 11 then 29 else if mp in {1, 3, 6, 8} then 30 else 31)
    ensures var doy := (153 * mp + 2) / 5 + day - 1; 0 <= doy <= 365 && (5 * doy + 2) / 153 == mp
    ensures (153 * mp + 2) / 5 + day - 1 == 365 <==> mp == 11 && day == 29
  {
  }

  lemma DayOfMonth(doy: int)
    requires 0 <= doy <= 365
    ensures var mp := (5 * doy + 2) / 153; var day := doy - (153 * mp + 2) / 5 + 1;
            0 <= mp < 12 && 1 <= day <= (if mp == 11 then 29 else if mp in {1, 3, 6, 8} then 30 else 31)
  {
  }

  lemma EndsFour(n: int, part: int)
    requires 1 <= part <= 4
    ensures (4 * n + part) % 4 == 0 <==> part == 4
  {
    assert (4 * n + part) / 4 == n + part / 4;
  }

  lemma EndsHundred(n: int, part: int)
    requires 1 <= part <= 100
    ensures (100 * n + part) % 100 == 0 <==> part == 100
  {
    assert (100 * n + part) / 100 == n + part / 100;
  }

  lemma EndsEra(n: int, part: int)
    requires 1 <= part <= 400
    ensures (400 * n + part) % 400 == 0 <==> part == 400
  {
    assert (400 * n + part) / 400 == n + part / 400;
  }

  /** The last day of a March year exists when the year it ends in is a leap year. */
  lemma LeapParts(era: int, c: int, q: int, r: int)
    requires 0 <= c < 4 && 0 <= q < 25 && 0 <= r < 4
    ensures Leap(era * 400 + 100 * c + 4 * q + r + 1) <==> r == 3 && (q < 24 || c == 3)
  {
    var y := era * 400 + 100 * c + 4 * q + r + 1;
    EndsFour(100 * era + 25 * c + q, r + 1);
    EndsHundred(4 * era + c, 4 * q + r + 1);
    EndsEra(era, 100 * c + 4 * q + r + 1);
    assert y == 4 * (100 * era + 25 * c + q) + (r + 1);
    assert y == 100 * (4 * era + c) + (4 * q + r + 1);
    assert y == 400 * era + (100 * c + 4 * q + r + 1);
  }

  function MarchYear(era: int, c: int, q: int, r: int): int { era * 400 + 100 * c + 4 * q + r }

  function MarchNumber(era: int, c: int, q: int, r: int, doy: int): int {
    era * 146_097 + (36_524 * c + 1_461 * q + 365 * r + doy) - 719_468
  }

  lemma CivilOfParts(era: int, c: int, q: int, r: int, doy: int)
    requires MarchDay(c, q, r, doy)
    ensures CivilFromDays(MarchNumber(era, c, q, r, doy)) == CivilInYear(MarchYear(era, c, q, r), doy)
  {
    hide EraOfDay, YearInEra, YearStart, CivilInYear;
    YearOfEra(c, q, r, doy);
    YearParts(c, q, r);
    EraOf(MarchNumber(era, c, q, r, doy) + 719_468, era, 36_524 * c + 1_461 * q + 365 * r + doy);
  }

  /** The month split is undone by counting the days of the months again. */
  lemma DayOfCivil(y: int, doy: int)
    requires 0 <= doy <= 365
    ensures var t := CivilInYear(y, doy);
            && DayOfYear(t) == doy && t.year - (if t.month <= 2 then 1 else 0) == y
            && (ValidDate(t) <==> doy < 365 || Leap(y + 1))
  {
    hide Leap;
    DayOfMonth(doy);
    MonthOfDay((5 * doy + 2) / 153, doy - (153 * ((5 * doy + 2) / 153) + 2) / 5 + 1);
  }

  lemma CivilOfDay(t: Date)
    requires ValidDate(t)
    ensures var y := t.year - if t.month <= 2 then 1 else 0;
            && 0 <= DayOfYear(t) <= 365 && CivilInYear(y, DayOfYear(t)) == t
            && (DayOfYear(t) == 365 ==> Leap(y + 1))
  {
    hide Leap;
    MonthOfDay(t.month + if t.month > 2 then -3 else 9, t.day);
  }

  lemma NumberOfParts(era: int, c: int, q: int, r: int, doy: int)
    requires MarchDay(c, q, r, doy)
    ensures var t := CivilInYear(MarchYear(era, c, q, r), doy);
            ValidDate(t) && DayNumber(t) == MarchNumber(era, c, q, r, doy)
  {
    hide EraOfYear, CivilInYear, YearStart, DayOfYear, Leap, ValidDate;
    var y := MarchYear(era, c, q, r);
    YearParts(c, q, r);
    EraOfYearIs(y, era, 100 * c + 4 * q + r);
    LeapParts(era, c, q, r);
    DayOfCivil(y, doy);
  }

  /** Every valid date has such parts. */
  lemma DateParts(t: Date) returns (era: int, c: int, q: int, r: int, doy: int)
    requires ValidDate(t)
    ensures MarchDay(c, q, r, doy) && CivilInYear(MarchYear(era, c, q, r), doy) == t
  {
    var y := t.year - if t.month <= 2 then 1 else 0;
    era := y / 400;
    var yoe := y % 400;
    c, q, r := yoe / 100, yoe % 100 / 4, yoe % 4;
    assert yoe == 100 * c + 4 * q + r;
    doy := DayOfYear(t);
    CivilOfDay(t);
    LeapParts(era, c, q, r);
  }

  /** Every day number, also in negative eras, has a valid date, and the date leads back to it. */
  lemma NumberOfCivil(days: int)
    ensures ValidDate(CivilFromDays(days)) && DayNumber(CivilFromDays(days)) == days
  {
    var z := days + 719_468;
    EraSplits(z);
    var era := EraOfDay(z);
    var c, q, r, doy := EraParts(z - era * 146_097);
    assert days == MarchNumber(era, c, q, r, doy);
    CivilOfParts(era, c, q, r, doy);
    NumberOfParts(era, c, q, r, doy);
  }

  /** Every valid date, and only a valid one, comes back from its day number. */
  lemma CivilOfNumber(t: Date)
    ensures CivilFromDays(DayNumber(t)) == t <==> ValidDate(t)
  {
    NumberOfCivil(DayNumber(t));
    if ValidDate(t) {
      var era, c, q, r, doy := DateParts(t);
      CivilOfParts(era, c, q, r, doy);
      NumberOfParts(era, c, q, r, doy);
    }
  }

  // ----- both agree with the calendar -----

  /** Days before the first of March of a year. */
  function MarchStart(y: int): int { EraOfYear(y) * 146_097 + YearStart(y - EraOfYear(y) * 400) }

  lemma MarchStartIs(y: int)
    ensures MarchStart(y) == 365 * y + LeapDays(y)
  {
    var era, yoe := y / 400, y % 400;
    EraOfYearIs(y, era, yoe);
    assert y / 4 == 100 * era + yoe / 4 && y / 100 == 4 * era + yoe / 100;
  }

  lemma NextQuarter(y: int)
    ensures y / 4 == (y - 1) / 4 + if y % 4 == 0 then 1 else 0
  {
  }

  lemma NextHundred(y: int)
    ensures y / 100 == (y - 1) / 100 + if y % 100 == 0 then 1 else 0
  {
  }

  lemma NextEra(y: int)
    ensures y / 400 == (y - 1) / 400 + if y % 400 == 0 then 1 else 0
  {
  }

  /** Leap days up to a year. */
  function LeapDays(y: int): int { y / 4 - y / 100 + y / 400 }

  lemma LeapDayCount(y: int)
    ensures LeapDays(y) == LeapDays(y - 1) + if Leap(y) then 1 else 0
  {
    NextQuarter(y);
    NextHundred(y);
    NextEra(y);
    Nested(y);
  }

  lemma Nested(y: int)
    ensures y % 400 == 0 ==> y % 100 == 0
    ensures y % 100 == 0 ==> y % 4 == 0
  {
  }

  lemma YearLength(y: int)
    ensures MarchStart(y) == MarchStart(y - 1) + if Leap(y) then 366 else 365
  {
    hide MarchStart, LeapDays, Leap;
    MarchStartIs(y);
    MarchStartIs(y - 1);
    LeapDayCount(y);
  }

  lemma DayNumberIs(t: Date)
    ensures DayNumber(t) == MarchStart(t.year - if t.month <= 2 then 1 else 0) + DayOfYear(t) - 719_468
  {
  }

  lemma Epoch()
    ensures DayNumber(Date(1970, 1, 1)) == 0
  {
  }

  /** The count grows by one from each day to the next, starting at the epoch: it counts the days of
      the calendar. */
  lemma DayByDay(t: Date)
    requires ValidDate(t)
    ensures ValidDate(NextDay(t)) && DayNumber(NextDay(t)) == DayNumber(t) + 1
    ensures DayNumber(Date(1970, 1, 1)) == 0
  {
    hide DayNumber, MarchStart, Leap;
    Epoch();
    DayNumberIs(t);
    DayNumberIs(NextDay(t));
    YearLength(t.year);
  }

  lemma {:induction false} LaterYear(y: int, z: int)
    requires y < z
    ensures MarchStart(y) + 365 <= MarchStart(z)
    ensures Leap(y + 1) ==> MarchStart(y) + 366 <= MarchStart(z)
    decreases z - y
  {
    YearLength(z);
    hide MarchStart, Leap;
    if y + 1 == z {
    } else {
      LaterYear(y, z - 1);
    }
  }

  lemma LaterDay(s: Date, t: Date)
    requires ValidDate(s) && ValidDate(t) && Before(s, t)
    ensures var y, z := s.year - (if s.month <= 2 then 1 else 0), t.year - (if t.month <= 2 then 1 else 0);
            y < z || (y == z && DayOfYear(s) < DayOfYear(t))
  {
    hide Leap;
  }

  /** Day numbers order valid dates as year, month and day do. */
  lemma Increasing(s: Date, t: Date)
    requires ValidDate(s) && ValidDate(t)
    ensures DayNumber(s) < DayNumber(t) <==> Before(s, t)
  {
    if Before(s, t) { Later(s, t); }
    else if Before(t, s) { Later(t, s); }
    hide DayNumber, ValidDate;
  }

  lemma Later(s: Date, t: Date)
    requires ValidDate(s) && ValidDate(t) && Before(s, t)
    ensures DayNumber(s) < DayNumber(t)
  {
    hide DayNumber, Leap, ValidDate, MarchStart, DayOfYear, Before;
    LaterDay(s, t);
    DayNumberIs(s);
    DayNumberIs(t);
    CivilOfDay(s);
    CivilOfDay(t);
    var y, z := s.year - (if s.month <= 2 then 1 else 0), t.year - (if t.month <= 2 then 1 else 0);
    if y < z { LaterYear(y, z); }
  }

  // ----- the loops -----

  const DAYS_IN_MONTH: seq<nat> := [0, 31, 28, 31, 30, 31, 30, 31, 31, 30, 31, 30, 31]

  lemma NextYear(y: int)
    ensures DayNumber(Date(y + 1, 1, 1)) == DayNumber(Date(y, 1, 1)) + if Leap(y) then 366 else 365
  {
    DayNumberIs(Date(y + 1, 1, 1));
    DayNumberIs(Date(y, 1, 1));
    YearLength(y);
    hide DayNumber, MarchStart, Leap;
  }

  lemma NextMonth(y: int, m: int)
    requires 1 <= m < 12
    ensures DayNumber(Date(y, m + 1, 1)) == DayNumber(Date(y, m, 1)) + MonthLength(y, m)
  {
    DayByDay(Date(y, m, MonthLength(y, m)));
    DayInMonth(y, m, MonthLength(y, m));
    hide DayNumber, Leap;
  }

  lemma DayInMonth(y: int, m: int, d: int)
    ensures DayNumber(Date(y, m, d)) == DayNumber(Date(y, m, 1)) + d - 1
  {
  }

  /** Adding up years and months counts the same days as the closed form. */
  method DaysSinceEpoch(y: nat, m: nat, d: nat) returns (r: Option<nat>)
    requires 1 <= m <= 12
    ensures r.None? <==> y < 1970
    ensures r.Some? && d > 0 ==> r.value == DayNumber(Date(y, m, d))
    ensures r.Some? && d == 0 ==> r.value == DayNumber(Date(y, m, 1))
  {
    hide DayNumber, Leap;
    if y < 1970 { return None; }
    var days: nat := 0;
    Epoch();
    DayInMonth(y, m, d);
    for yr := 1970 to y
      invariant days == DayNumber(Date(yr, 1, 1))
    {
      NextYear(yr);
      days := days + if Leap(yr) then 366 else 365;
    }
    for mo := 1 to m
      invariant days == DayNumber(Date(y, mo, 1))
    {
      NextMonth(y, mo);
      days := days + DAYS_IN_MONTH[mo];
      if mo == 2 && Leap(y) { days := days + 1; }
    }
    days := days + SatSub(d, 1);
    r := Some(days);
  }

  /** A date given by three numbers, in seconds. Days are checked against 31 only. */
  method ParseDate(y: nat, m: nat, d: nat) returns (r: Option<nat>)
    ensures r.Some? <==> y >= 1970 && 1 <= m <= 12 && 1 <= d <= 31
    ensures r.Some? ==> r.value == DayNumber(Date(y, m, d)) * 86_400
    ensures r.Some? ==> (CivilFromDays(r.value / 86_400) == Date(y, m, d) <==> d <= MonthLength(y, m))
  {
    hide DayNumber, CivilFromDays, MonthLength;
    if m < 1 || m > 12 || d < 1 || d > 31 { return None; }
    var days := DaysSinceEpoch(y, m, d);
    if days.None? { return None; }
    CivilOfNumber(Date(y, m, d));
    r := Some(days.value * 86_400);
  }

  /** So the 31st of February is taken for a day in March. */
  lemma FebruaryThirtyFirst(y: int)
    ensures CivilFromDays(DayNumber(Date(y, 2, 31))) == Date(y, 3, if Leap(y) then 2 else 3)
  {
    var t := Date(y, 3, if Leap(y) then 2 else 3);
    CivilOfNumber(t);
    DayNumberIs(t);
    DayNumberIs(Date(y, 2, 31));
    YearLength(y);
    hide DayNumber, MarchStart, CivilFromDays, Leap;
  }

  // ----- seconds -----

  datatype Moment = Moment(date: Date, hour: int, minute: int, second: int)

  const I64_MAX: int := 0x7FFF_FFFF_FFFF_FFFF

  predicate InI64(x: int) { -I64_MAX - 1 <= x <= I64_MAX }

  /** Seconds since the epoch as a moment. */
  function Split(seconds: int): Moment {
    var ofDay := seconds % 86_400;
    Moment(CivilFromDays(seconds / 86_400), ofDay / 3_600, ofDay % 3_600 / 60, ofDay % 60)
  }

  /** Arithmetic on years is not checked and can leave the range of 64 bits. */
  datatype Recomposed = Seconds(value: nat) | Rejected | Overflow

  /** The day limit, with the remainder that keeps the dividend's sign. */
  function MaxDay(year: int, month: int): int {
    if month in {4, 6, 9, 11} then 30
    else if month != 2 then 31
    else if (TruncRem(year, 4) == 0 && TruncRem(year, 100) != 0) || TruncRem(year, 400) == 0 then 29
    else 28
  }

  lemma Divides(a: int)
    ensures TruncRem(a, 4) == 0 <==> a % 4 == 0
    ensures TruncRem(a, 100) == 0 <==> a % 100 == 0
    ensures TruncRem(a, 400) == 0 <==> a % 400 == 0
  {
  }

  lemma MaxDayIs(year: int, month: int)
    ensures MaxDay(year, month) == MonthLength(year, month)
  {
    hide TruncRem;
    Divides(year);
  }

  predicate ClockInRange(f: Moment) {
    && 1 <= f.date.month <= 12 && 1 <= f.date.day <= 31
    && 0 <= f.hour <= 23 && 0 <= f.minute <= 59 && 0 <= f.second <= 59
  }

  /** The year arithmetic in front of the day check, and the rest of it. */
  predicate YearFits(t: Date) {
    var adjusted := t.year - if t.month <= 2 then 1 else 0;
    InI64(adjusted) && (adjusted < 0 ==> InI64(adjusted - 399))
  }

  predicate NumberFits(t: Date) {
    var era := EraOfYear(t.year - if t.month <= 2 then 1 else 0);
    InI64(era * 146_097) && InI64(DayNumber(t) + 719_468) && InI64(DayNumber(t))
  }

  /** The moment as seconds since the epoch. */
  function Recompose(f: Moment): Recomposed {
    if !ClockInRange(f) then Rejected
    else if !YearFits(f.date) then Overflow
    else if f.date.day > MaxDay(f.date.year, f.date.month) then Rejected
    else if !NumberFits(f.date) then Overflow
    else
      var base := DayNumber(f.date) * 86_400;
      var total := base + f.hour * 3_600 + f.minute * 60 + f.second;
      if !InI64(base) || !InI64(total) || total < 0 then Rejected else Seconds(total)
  }

  lemma EraBounds(t: Date)
    requires ValidDate(t)
    ensures var y := t.year - if t.month <= 2 then 1 else 0; var era := EraOfYear(y);
            0 <= DayNumber(t) + 719_468 - era * 146_097 < 146_097 && 0 <= y - era * 400 < 400
  {
    var era, c, q, r, doy := DateParts(t);
    NumberOfParts(era, c, q, r, doy);
    DayOfCivil(MarchYear(era, c, q, r), doy);
    EraOfYearIs(MarchYear(era, c, q, r), era, 100 * c + 4 * q + r);
  }

  lemma SplitRecomposed(f: Moment, seconds: nat)
    requires Recompose(f) == Seconds(seconds)
    ensures Split(seconds) == f
  {
    hide CivilFromDays, DayNumber, MaxDay, EraOfYear, Leap, YearFits, NumberFits, InI64;
    MaxDayIs(f.date.year, f.date.month);
    CivilOfNumber(f.date);
    var ofDay := f.hour * 3_600 + f.minute * 60 + f.second;
    assert seconds == DayNumber(f.date) * 86_400 + ofDay && 0 <= ofDay < 86_400;
    assert seconds / 86_400 == DayNumber(f.date) && seconds % 86_400 == ofDay;
  }

  lemma RecomposedSplit(f: Moment, seconds: nat)
    requires seconds <= I64_MAX && Split(seconds) == f
    ensures Recompose(f) == Seconds(seconds)
  {
    hide CivilFromDays, DayNumber, MaxDay, EraOfYear, Leap;
    MaxDayIs(f.date.year, f.date.month);
    NumberOfCivil(seconds / 86_400);
    EraBounds(f.date);
    assert f.date.day <= 31;
    assert ClockInRange(f) && YearFits(f.date) && NumberFits(f.date);
    var ofDay := seconds % 86_400;
    assert f.hour * 3_600 + f.minute * 60 + f.second == ofDay;
  }

  /** Within the range of 64 bits the two undo each other, in both directions: a moment becomes a
      number of seconds exactly when that number is split into the moment. */
  lemma RecomposeExact(f: Moment, seconds: nat)
    requires seconds <= I64_MAX
    ensures Recompose(f) == Seconds(seconds) <==> Split(seconds) == f
  {
    if Recompose(f) == Seconds(seconds) { SplitRecomposed(f, seconds); }
    if Split(seconds) == f { RecomposedSplit(f, seconds); }
  }

  /** The earliest and the latest date whose day number, era base included, fits 64 bits. */
  const FIRST_DATE := Date(-25_252_734_927_764_585, 6, 7)
  const LAST_DATE := Date(25_252_734_927_766_554, 9, 25)

  lemma FirstDate()
    ensures ValidDate(FIRST_DATE) && DayNumber(FIRST_DATE) == -I64_MAX - 1
  {
    EraOfYearIs(FIRST_DATE.year, -63_131_837_319_412, 215);
    hide EraOfYear;
  }

  lemma LastDate()
    ensures ValidDate(LAST_DATE) && DayNumber(LAST_DATE) == I64_MAX - 719_468
  {
    EraOfYearIs(LAST_DATE.year, 63_131_837_319_416, 154);
    hide EraOfYear;
  }

  /** Since day numbers grow with dates, the range of 64 bits is a range of dates. */
  lemma FittingDates(t: Date)
    requires ValidDate(t)
    ensures NumberFits(t) <==> !Before(t, FIRST_DATE) && !Before(LAST_DATE, t)
  {
    EraBounds(t);
    FirstDate();
    LastDate();
    Increasing(t, FIRST_DATE);
    Increasing(LAST_DATE, t);
    hide DayNumber, EraOfYear, Leap, Before;
  }

  /** The arithmetic overflows exactly for clock values in range with a year within 399 of the
      smallest one, whatever the day, or a date of the calendar before the first or after the last
      one that fits. */
  lemma OverflowExact(f: Moment)
    requires InI64(f.date.year)
    ensures Recompose(f) == Overflow <==>
              ClockInRange(f)
              && (f.date.year - (if f.date.month <= 2 then 1 else 0) < -I64_MAX + 398
                  || (ValidDate(f.date) && (Before(f.date, FIRST_DATE) || Before(LAST_DATE, f.date))))
  {
    hide DayNumber, MaxDay, EraOfYear, Leap, Before, NumberFits;
    MaxDayIs(f.date.year, f.date.month);
    if ValidDate(f.date) { FittingDates(f.date); }
  }

  /** New Year of the year 26 000 000 000 000 000 is such a date. */
  lemma OverflowingSelector()
    ensures Recompose(Moment(Date(26_000_000_000_000_000, 1, 1), 0, 0, 0)) == Overflow
  {
    OverflowExact(Moment(Date(26_000_000_000_000_000, 1, 1), 0, 0, 0));
    hide Recompose;
  }

  /** So all years that a second count of 64 bits can reach, and many more, are safe. */
  lemma RecomposeFits(f: Moment)
    requires -25_000_000_000_000_000 <= f.date.year <= 25_000_000_000_000_000
    ensures Recompose(f) != Overflow
  {
    OverflowExact(f);
    hide Recompose;
  }
}
