/** Proleptic Gregorian calendar arithmetic over unbounded day counts. */
module Calendar {

  datatype Date = Date(year: int, month: int, day: int)

  // ---- The calendar itself, by its rules -------------------------------------------------

  predicate IsLeap(year: int) {
    year % 4 == 0 && (year % 100 != 0 || year % 400 == 0)
  }

  function DaysInMonth(year: int, month: int): int {
    if month == 2 then (if IsLeap(year) then 29 else 28)
    else if month == 4 || month == 6 || month == 9 || month == 11 then 30
    else 31
  }

  predicate IsDate(date: Date) {
    && 1 <= date.month <= 12
    && 1 <= date.day <= DaysInMonth(date.year, date.month)
  }

  /** The calendar day after `date`. */
  function Next(date: Date): Date {
    if date.day < DaysInMonth(date.year, date.month) then date.(day := date.day + 1)
    else if date.month < 12 then Date(date.year, date.month + 1, 1)
    else Date(date.year + 1, 1, 1)
  }

  // ---- The day-count algorithm -----------------------------------------------------------

  /** Integer division truncating toward zero, for a positive divisor. */
  function TruncatedDiv(a: int, b: int): int
    requires b > 0
  {
    if a >= 0 then a / b else -(-a / b)
  }

  /** The date `days` days after 1970-01-01, the year before its narrowing cast. */
  function CivilFromDays(days: int): Date {
    var z := days + 719_468;
    var era := TruncatedDiv(if z >= 0 then z else z - 146_096, 146_097);
    var doe := z - era * 146_097;
    var yoe := YearOfEra(doe);
    var year := yoe + era * 400;
    var doy := doe - (365 * yoe + yoe / 4 - yoe / 100);
    MonthAndDay(year, doy)
  }

  function YearOfEra(doe: int): int {
    (doe - doe / 1460 + doe / 36_524 - doe / 146_096) / 365
  }

  function MonthAndDay(year: int, doy: int): Date {
    var mp := (5 * doy + 2) / 153;
    var day := doy - (153 * mp + 2) / 5 + 1;
    var month := mp + (if mp < 10 then 3 else -9);
    Date(if month <= 2 then year + 1 else year, month, day)
  }

  // ---- The inverse day count -------------------------------------------------------------

  /** Days from 1 March of year 0 to 1 March of `year`. */
  function MarchDays(year: int): int {
    365 * year + year / 4 - year / 100 + year / 400
  }

  /** Days from 1 March to the first of the month `mp` months after March. */
  function MonthStart(mp: int): int {
    (153 * mp + 2) / 5
  }

  /** The March-based year of a date, and its day within that year. */
  function MarchYear(date: Date): int {
    if date.month <= 2 then date.year - 1 else date.year
  }

  function MarchMonth(date: Date): int {
    if date.month <= 2 then date.month + 9 else date.month - 3
  }

  function MarchDay(date: Date): int {
    MonthStart(MarchMonth(date)) + date.day - 1
  }

  /** Days from 1970-01-01 to `date`. */
  function DaysFromCivil(date: Date): int {
    MarchDays(MarchYear(date)) + MarchDay(date) - 719_468
  }

  lemma MonthStarts(mp: int)
    requires 0 <= mp <= 11
    ensures MonthStart(mp) == [0, 31, 61, 92, 122, 153, 184, 214, 245, 275, 306, 337][mp]
  {
    assert mp == 0 || mp == 1 || mp == 2 || mp == 3 || mp == 4 || mp == 5 || mp == 6
        || mp == 7 || mp == 8 || mp == 9 || mp == 10 || mp == 11;
  }

  lemma EraIsFloor(z: int)
    ensures TruncatedDiv(if z >= 0 then z else z - 146_096, 146_097) == z / 146_097
  {
  }

  /** Every day of a 400-year era splits into centuries, olympiads, years and days. */
  lemma SplitEra(doe: int) returns (c: int, q: int, y: int, doy: int)
    requires 0 <= doe < 146_097
    ensures 0 <= c <= 3 && 0 <= q <= 24 && 0 <= y <= 3 && 0 <= doy <= 365
    ensures doe == 36_524 * c + 1461 * q + 365 * y + doy
    ensures doy == 365 ==> y == 3 && (q == 24 ==> c == 3)
  {
    c := if doe / 36_524 > 3 then 3 else doe / 36_524;
    var r := doe - 36_524 * c;
    q := r / 1461;
    var s := r - 1461 * q;
    y := if s / 365 > 3 then 3 else s / 365;
    doy := s - 365 * y;
  }

  /** The year-of-era formula finds the year containing the day. */
  lemma YearOfEraIs(doe: int, c: int, q: int, y: int, doy: int)
    requires 0 <= c <= 3 && 0 <= q <= 24 && 0 <= y <= 3 && 0 <= doy <= 365
    requires doe == 36_524 * c + 1461 * q + 365 * y + doy
    requires doy == 365 ==> y == 3 && (q == 24 ==> c == 3)
    ensures YearOfEra(doe) == 100 * c + 4 * q + y
  {
    var yoe := 100 * c + 4 * q + y;
    var n := doe - doe / 1460 + doe / 36_524 - doe / 146_096;
    assert doe / 36_524 == c || (doe / 36_524 == c + 1 && c == 3 && doe == 146_096);
    assert doe / 1460 == 25 * c + q || doe / 1460 == 25 * c + q + 1;
    assert 365 * yoe <= n < 365 * yoe + 365;
  }

  /** Where the algorithm lands for a day already split into era, year and day of year. */
  lemma CivilOf(days: int, era: int, doe: int, c: int, q: int, y: int, doy: int)
    requires days + 719_468 == 146_097 * era + doe && 0 <= doe < 146_097
    requires 0 <= c <= 3 && 0 <= q <= 24 && 0 <= y <= 3 && 0 <= doy <= 365
    requires doe == 36_524 * c + 1461 * q + 365 * y + doy
    requires doy == 365 ==> y == 3 && (q == 24 ==> c == 3)
    ensures CivilFromDays(days) == MonthAndDay(400 * era + 100 * c + 4 * q + y, doy)
  {
    hide MonthAndDay, YearOfEra;
    var z := days + 719_468;
    EraIsFloor(z);
    FloorOf(z, 146_097, era, doe);
    YearOfEraIs(doe, c, q, y, doy);
    var yoe := 100 * c + 4 * q + y;
    FloorOf(yoe, 4, 25 * c + q, y);
    FloorOf(yoe, 100, c, 4 * q + y);
  }

  lemma FloorOf(a: int, k: int, quotient: int, remainder: int)
    requires k == 4 || k == 100 || k == 400 || k == 146_097
    requires a == k * quotient + remainder && 0 <= remainder < k
    ensures a / k == quotient && a % k == remainder
  {
  }

  /** MarchDays of a year split the same way. */
  lemma MarchDaysOf(era: int, c: int, q: int, y: int)
    requires 0 <= c <= 3 && 0 <= q <= 24 && 0 <= y <= 3
    ensures MarchDays(400 * era + 100 * c + 4 * q + y)
            == 146_097 * era + 36_524 * c + 1461 * q + 365 * y
  {
    var year := 400 * era + 100 * c + 4 * q + y;
    FloorOf(year, 4, 100 * era + 25 * c + q, y);
    FloorOf(year, 100, 4 * era + c, 4 * q + y);
    FloorOf(year, 400, era, 100 * c + 4 * q + y);
  }

  /** The month found from the day of a March-based year contains that day. */
  lemma MonthOfYearDay(doy: int)
    requires 0 <= doy <= 365
    ensures var mp := (5 * doy + 2) / 153;
            0 <= mp <= 11 && MonthStart(mp) <= doy && (mp < 11 ==> doy < MonthStart(mp + 1))
  {
    var mp := (5 * doy + 2) / 153;
    assert 153 * mp <= 5 * doy + 2 < 153 * mp + 153;
  }

  /** A day of a March-based year is a real date, and the day count returns it. */
  lemma MonthAndDayIsDate(year: int, doy: int)
    requires 0 <= doy <= 365 && (doy == 365 ==> IsLeap(year + 1))
    ensures IsDate(MonthAndDay(year, doy))
    ensures DaysFromCivil(MonthAndDay(year, doy)) == MarchDays(year) + doy - 719_468
  {
    var mp := (5 * doy + 2) / 153;
    MonthOfYearDay(doy);
    MonthStarts(mp);
    if mp < 11 { MonthStarts(mp + 1); }
  }

  /** Every integer day count is a real calendar date, and the day count recovers it. */
  lemma {:induction false} CivilFromDaysIsDate(days: int)
    ensures IsDate(CivilFromDays(days))
    ensures DaysFromCivil(CivilFromDays(days)) == days
  {
    hide *;
    var era := (days + 719_468) / 146_097;
    var doe := (days + 719_468) % 146_097;
    var c, q, y, doy := SplitEra(doe);
    CivilOf(days, era, doe, c, q, y, doy);
    if doy == 365 { LeapAfter(era, c, q); }
    MonthAndDayIsDate(400 * era + 100 * c + 4 * q + y, doy);
    MarchDaysOf(era, c, q, y);
  }

  /** The year after a four-year group is a leap year unless it closes a century. */
  lemma LeapAfter(era: int, c: int, q: int)
    requires 0 <= c <= 3 && 0 <= q <= 24 && (q == 24 ==> c == 3)
    ensures IsLeap(400 * era + 100 * c + 4 * q + 4)
  {
    var year := 400 * era + 100 * c + 4 * q + 4;
    FloorOf(year, 4, 100 * era + 25 * c + q + 1, 0);
    if q == 24 { FloorOf(year, 400, era + 1, 0); }
    else { FloorOf(year, 100, 4 * era + c, 4 * q + 4); }
  }

  /** Every calendar date is reached: the algorithm inverts the day count. */
  lemma {:induction false} CivilInvertsDayCount(date: Date)
    requires IsDate(date)
    ensures CivilFromDays(DaysFromCivil(date)) == date
  {
    var n := DaysFromCivil(date);
    CivilFromDaysIsDate(n);
    DayCountInjective(CivilFromDays(n), date);
  }

  /** The months before February fill the gap between their starts. */
  lemma MonthLength(date: Date)
    requires IsDate(date) && MarchMonth(date) < 11
    ensures MonthStart(MarchMonth(date) + 1) == MonthStart(MarchMonth(date)) + DaysInMonth(date.year, date.month)
  {
    hide IsLeap;
    MonthStarts(MarchMonth(date));
    MonthStarts(MarchMonth(date) + 1);
  }

  lemma NextInMonth(date: Date)
    requires IsDate(date) && date.day < DaysInMonth(date.year, date.month)
    ensures IsDate(Next(date)) && DaysFromCivil(Next(date)) == DaysFromCivil(date) + 1
  {
    hide IsLeap, MarchDays, MonthStart;
  }

  lemma NextAcrossMonths(date: Date)
    requires IsDate(date) && date.day == DaysInMonth(date.year, date.month) && MarchMonth(date) < 11
    ensures IsDate(Next(date)) && DaysFromCivil(Next(date)) == DaysFromCivil(date) + 1
  {
    hide IsLeap, MarchDays, MonthStart;
    MonthLength(date);
  }

  lemma NextAcrossFebruary(date: Date)
    requires IsDate(date) && date.day == DaysInMonth(date.year, date.month) && MarchMonth(date) == 11
    ensures IsDate(Next(date)) && DaysFromCivil(Next(date)) == DaysFromCivil(date) + 1
  {
    hide IsLeap, MarchDays, MonthStart;
    MonthStarts(11);
    MonthStarts(0);
    MarchYearLength(date.year - 1);
  }

  /** The day count steps by one from each date to the next. */
  lemma {:induction false} NextIsOneDayLater(date: Date)
    requires IsDate(date)
    ensures IsDate(Next(date)) && DaysFromCivil(Next(date)) == DaysFromCivil(date) + 1
  {
    hide DaysFromCivil, Next, DaysInMonth;
    if date.day < DaysInMonth(date.year, date.month) { NextInMonth(date); }
    else if MarchMonth(date) < 11 { NextAcrossMonths(date); }
    else { NextAcrossFebruary(date); }
  }

  /** Division by a positive divisor steps exactly at its multiples. */
  lemma DivStep(a: int, k: int)
    requires k == 4 || k == 100 || k == 400
    ensures (a + 1) / k - a / k == if (a + 1) % k == 0 then 1 else 0
  {
  }

  lemma LeapDivisors(year: int)
    ensures year % 100 == 0 ==> year % 4 == 0
    ensures year % 400 == 0 ==> year % 100 == 0
  {
    HundredsAreFours(year / 100);
    FourHundredsAreHundreds(year / 400);
  }

  lemma HundredsAreFours(q: int)
    ensures 100 * q % 4 == 0
  {
    assert 100 * q == 4 * (25 * q);
  }

  lemma FourHundredsAreHundreds(q: int)
    ensures 400 * q % 100 == 0
  {
    assert 400 * q == 100 * (4 * q);
  }

  /** A March-based year holds the leap day of the February that ends it. */
  lemma MarchYearLength(year: int)
    ensures MarchDays(year + 1) - MarchDays(year) == if IsLeap(year + 1) then 366 else 365
  {
    DivStep(year, 4);
    DivStep(year, 100);
    DivStep(year, 400);
    LeapDivisors(year + 1);
  }

  lemma MarchDaysMonotone(a: int, b: int)
    requires a < b
    ensures MarchDays(a) + 365 <= MarchDays(b)
    decreases b - a
  {
    MarchYearLength(b - 1);
    if a < b - 1 { MarchDaysMonotone(a, b - 1); }
  }

  lemma MarchDayInYear(date: Date)
    requires IsDate(date)
    ensures 0 <= MarchDay(date) < MarchDays(MarchYear(date) + 1) - MarchDays(MarchYear(date))
    ensures MarchMonth(date) < 11 ==> MarchDay(date) < MonthStart(MarchMonth(date) + 1)
  {
    MarchYearLength(MarchYear(date));
    MonthStarts(MarchMonth(date));
    if MarchMonth(date) < 11 { MonthStarts(MarchMonth(date) + 1); }
  }

  lemma MonthStartMonotone(a: int, b: int)
    requires 0 <= a <= b <= 11
    ensures MonthStart(a) <= MonthStart(b)
  {
  }

  lemma SameYearInjective(a: Date, b: Date)
    requires IsDate(a) && IsDate(b) && MarchYear(a) == MarchYear(b) && MarchDay(a) == MarchDay(b)
    ensures a == b
  {
    MarchDayInYear(a);
    MarchDayInYear(b);
    if MarchMonth(a) < MarchMonth(b) { MonthStartMonotone(MarchMonth(a) + 1, MarchMonth(b)); }
    if MarchMonth(b) < MarchMonth(a) { MonthStartMonotone(MarchMonth(b) + 1, MarchMonth(a)); }
  }

  lemma EarlierYearEarlierDay(a: Date, b: Date)
    requires IsDate(a) && IsDate(b) && MarchYear(a) < MarchYear(b)
    ensures DaysFromCivil(a) < DaysFromCivil(b)
  {
    MarchDayInYear(a);
    MarchDayInYear(b);
    if MarchYear(a) + 1 < MarchYear(b) { MarchDaysMonotone(MarchYear(a) + 1, MarchYear(b)); }
  }

  /** Distinct dates have distinct day counts. */
  lemma DayCountInjective(a: Date, b: Date)
    requires IsDate(a) && IsDate(b) && DaysFromCivil(a) == DaysFromCivil(b)
    ensures a == b
  {
    if MarchYear(a) < MarchYear(b) { EarlierYearEarlierDay(a, b); }
    if MarchYear(b) < MarchYear(a) { EarlierYearEarlierDay(b, a); }
    SameYearInjective(a, b);
  }

  /** Day zero is the epoch. */
  lemma EpochIsDayZero()
    ensures CivilFromDays(0) == Date(1970, 1, 1)
  {
    hide CivilFromDays, DaysFromCivil;
    EpochCount();
    CivilInvertsDayCount(Date(1970, 1, 1));
  }

  lemma EpochCount()
    ensures DaysFromCivil(Date(1970, 1, 1)) == 0
  {
    assert MarchDays(1969) == 719_162;
    assert MonthStart(10) == 306;
  }

  /** Each following day is the calendar successor. */
  lemma {:induction false} CivilFromDaysFollowsTheCalendar(days: int)
    ensures CivilFromDays(days + 1) == Next(CivilFromDays(days))
  {
    hide *;
    CivilFromDaysIsDate(days);
    NextIsOneDayLater(CivilFromDays(days));
    CivilInvertsDayCount(Next(CivilFromDays(days)));
  }
}
