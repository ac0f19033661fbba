/**
 * APRS timestamps: `encode_timestamp` (src/encode.rs) and the inference of the missing calendar
 * parts in `parse_timestamp` (src/timestamp.rs). The clock is a parameter.
 */
module Timestamp {
  import opened Text
  import opened Chars
  import opened Calendar

  const DAY_SECONDS := 86_400

  datatype Format = DayHourMinute | HourMinuteSecond

  datatype AprsTimestamp = AprsTimestamp(year: int, month: int, day: int,
                                         hour: int, minute: int, second: int, utc: bool)

  datatype Error = InvalidTimestamp | UnknownSuffix | OutOfRange

  // ---- Encoding --------------------------------------------------------------------------

  /** `n` with a leading zero when it has one digit. */
  function TwoDigits(n: int): (s: string)
    requires 0 <= n <= 99
    ensures |s| == 2
  {
    [DigitChar(n / 10), DigitChar(n % 10)]
  }

  function DayOf(seconds: int): int { seconds / DAY_SECONDS }

  function TimeOf(seconds: int): (t: int)
    ensures 0 <= t < DAY_SECONDS
  {
    seconds % DAY_SECONDS
  }

  function EncodeTimestamp(seconds: int, format: Format): (s: string)
    ensures |s| == 7
  {
    var daytime := TimeOf(seconds);
    CivilFromDaysIsDate(DayOf(seconds));
    var day := CivilFromDays(DayOf(seconds)).day;
    var hour, minute, second := daytime / 3_600, daytime % 3_600 / 60, daytime % 60;
    match format
    case DayHourMinute => TwoDigits(day) + TwoDigits(hour) + TwoDigits(minute) + "z"
    case HourMinuteSecond => TwoDigits(hour) + TwoDigits(minute) + TwoDigits(second) + "h"
  }

  // ---- Decoding --------------------------------------------------------------------------

  /** The UTC calendar reading of an instant. */
  function CurrentUtc(seconds: int): AprsTimestamp {
    var daytime := TimeOf(seconds);
    var date := CivilFromDays(DayOf(seconds));
    AprsTimestamp(date.year, date.month, date.day,
                  daytime / 3600, daytime % 3600 / 60, daytime % 60, true)
  }

  function Number(s: string): int
    requires |s| == 2 && IsDigitChar(s[0]) && IsDigitChar(s[1])
  {
    10 * (s[0] - '0') as int + (s[1] - '0') as int
  }

  /** The hours and minutes of the text with the calendar parts of `now`, moved back a month if needed. */
  function ParseTimestamp(raw: string, now: AprsTimestamp): Result<AprsTimestamp, Error> {
    if |raw| != 7 || exists k :: 0 <= k < 6 && !IsDigitChar(raw[k]) then Err(InvalidTimestamp)
    else
      var a, b, c := Number(raw[0..2]), Number(raw[2..4]), Number(raw[4..6]);
      if raw[6] != 'h' && raw[6] != 'z' && raw[6] != '/' then Err(UnknownSuffix)
      else
        var result := if raw[6] == 'h' then now.(hour := a, minute := b, second := c)
                      else now.(day := a, hour := b, minute := c, second := 0, utc := raw[6] == 'z');
        if result.hour > 23 || result.minute > 59 || result.second > 59 || result.day == 0 then Err(OutOfRange)
        else if raw[6] != 'h' && result.day > now.day + 1 then
          Ok(if result.month == 1 then result.(month := 12, year := result.year - 1)
             else result.(month := result.month - 1))
        else Ok(result)
  }

  // ---- Proofs ----------------------------------------------------------------------------

  lemma TwoDigitsNumber(n: int)
    requires 0 <= n <= 99
    ensures IsDigitChar(TwoDigits(n)[0]) && IsDigitChar(TwoDigits(n)[1])
    ensures Number(TwoDigits(n)) == n
  {
  }

  /** Three two-digit fields and a suffix read back as the three numbers. */
  lemma FieldsOf(a: int, b: int, c: int, suffix: char)
    requires 0 <= a <= 99 && 0 <= b <= 99 && 0 <= c <= 99
    ensures var raw := TwoDigits(a) + TwoDigits(b) + TwoDigits(c) + [suffix];
            && |raw| == 7 && raw[6] == suffix && (forall k :: 0 <= k < 6 ==> IsDigitChar(raw[k]))
            && Number(raw[0..2]) == a && Number(raw[2..4]) == b && Number(raw[4..6]) == c
  {
    hide TwoDigits, Number;
    var raw := TwoDigits(a) + TwoDigits(b) + TwoDigits(c) + [suffix];
    TwoDigitsNumber(a);
    TwoDigitsNumber(b);
    TwoDigitsNumber(c);
    assert raw[0..2] == TwoDigits(a) && raw[2..4] == TwoDigits(b) && raw[4..6] == TwoDigits(c);
  }

  predicate SameMonth(a: AprsTimestamp, b: AprsTimestamp) {
    a.year == b.year && a.month == b.month
  }

  /** `a` lies in the month just before the month of `b`. */
  predicate MonthBefore(a: AprsTimestamp, b: AprsTimestamp) {
    if b.month == 1 then a.year == b.year - 1 && a.month == 12
    else a.year == b.year && a.month == b.month - 1
  }

  lemma ClockRange(seconds: int)
    ensures var t := CurrentUtc(seconds);
            && 0 <= t.hour <= 23 && 0 <= t.minute <= 59 && 0 <= t.second <= 59
            && IsDate(Date(t.year, t.month, t.day))
  {
    hide CivilFromDays, IsDate;
    CivilFromDaysIsDate(DayOf(seconds));
  }

  /** Decoding `DDHHMMz` puts the day in the current month, or in the month before when it is too late. */
  lemma DecodeDayHourMinute(t: int, now: int)
    ensures var at, clock := CurrentUtc(t), CurrentUtc(now);
            ParseTimestamp(EncodeTimestamp(t, DayHourMinute), clock) ==
            Ok(if at.day <= clock.day + 1
               then at.(second := 0, year := clock.year, month := clock.month)
               else if clock.month == 1 then at.(second := 0, year := clock.year - 1, month := 12)
               else at.(second := 0, year := clock.year, month := clock.month - 1))
  {
    hide CivilFromDays, Number, TwoDigits;
    var at := CurrentUtc(t);
    ClockRange(t);
    FieldsOf(at.day, at.hour, at.minute, 'z');
  }

  /** Exactly when the year, month and day of an instant come back, for every instant and clock. */
  lemma RecoveryExactly(t: int, now: int)
    ensures var at, clock := CurrentUtc(t), CurrentUtc(now);
            ParseTimestamp(EncodeTimestamp(t, DayHourMinute), clock) == Ok(at.(second := 0))
            <==> (if at.day <= clock.day + 1 then SameMonth(at, clock) else MonthBefore(at, clock))
  {
    hide CurrentUtc, ParseTimestamp, EncodeTimestamp;
    DecodeDayHourMinute(t, now);
  }

  /** The date `k` days on stays in the month, or runs into the next one. */
  lemma DaysLater(day: int, k: nat)
    requires k <= 28
    ensures var d := CivilFromDays(day);
            var length := DaysInMonth(d.year, d.month);
            CivilFromDays(day + k) ==
            if d.day + k <= length then d.(day := d.day + k)
            else Date(if d.month == 12 then d.year + 1 else d.year,
                      if d.month == 12 then 1 else d.month + 1, d.day + k - length)
  {
    hide CivilFromDays, DaysFromCivil;
    var d := CivilFromDays(day);
    CivilFromDaysIsDate(day);
    var length := DaysInMonth(d.year, d.month);
    if d.day + k <= length {
      var later := d.(day := d.day + k);
      SameMonthDays(d, later);
      CivilInvertsDayCount(later);
    } else {
      var last := d.(day := length);
      var first := Next(last);
      var later := first.(day := d.day + k - length);
      SameMonthDays(d, last);
      NextIsOneDayLater(last);
      SameMonthDays(first, later);
      CivilInvertsDayCount(later);
    }
  }

  lemma SameMonthDays(a: Date, b: Date)
    requires a.year == b.year && a.month == b.month
    ensures DaysFromCivil(b) - DaysFromCivil(a) == b.day - a.day
  {
  }

  /** Days between a date and a date of the following month. */
  lemma MonthBeforeDays(a: Date, b: Date)
    requires IsDate(a) && IsDate(b)
    requires b.year == (if a.month == 12 then a.year + 1 else a.year)
    requires b.month == (if a.month == 12 then 1 else a.month + 1)
    ensures DaysFromCivil(b) - DaysFromCivil(a) == DaysInMonth(a.year, a.month) - a.day + b.day
  {
    hide DaysFromCivil;
    var last := a.(day := DaysInMonth(a.year, a.month));
    SameMonthDays(a, last);
    NextIsOneDayLater(last);
    SameMonthDays(Next(last), b);
  }

  /**
   * For an instant that is not on a later day than the clock: the date comes back exactly when the
   * instant is in the clock's month, or in the month before and at most its length minus two days old.
   */
  lemma PastRecovery(t: int, now: int)
    requires DayOf(t) <= DayOf(now)
    ensures var at, clock := CurrentUtc(t), CurrentUtc(now);
            ParseTimestamp(EncodeTimestamp(t, DayHourMinute), clock) == Ok(at.(second := 0))
            <==> (SameMonth(at, clock)
                  || (MonthBefore(at, clock)
                      && DayOf(now) - DayOf(t) <= DaysInMonth(at.year, at.month) - 2))
  {
    hide CivilFromDays, ParseTimestamp, EncodeTimestamp, DaysFromCivil;
    var at, clock := CurrentUtc(t), CurrentUtc(now);
    var a, b := CivilFromDays(DayOf(t)), CivilFromDays(DayOf(now));
    RecoveryExactly(t, now);
    CivilFromDaysIsDate(DayOf(t));
    CivilFromDaysIsDate(DayOf(now));
    if SameMonth(at, clock) { SameMonthDays(a, b); }
    if MonthBefore(at, clock) { MonthBeforeDays(a, b); }
  }

  /** Up to 26 days back the date always comes back, across month and year ends. */
  lemma RecoveryWindow(t: int, now: int)
    requires 0 <= DayOf(now) - DayOf(t) <= 26
    ensures ParseTimestamp(EncodeTimestamp(t, DayHourMinute), CurrentUtc(now))
            == Ok(CurrentUtc(t).(second := 0))
  {
    hide CivilFromDays, ParseTimestamp, EncodeTimestamp;
    DaysLater(DayOf(t), DayOf(now) - DayOf(t));
    CivilFromDaysIsDate(DayOf(t));
    PastRecovery(t, now);
  }

  /** 27 days are too many: 28 February 2023 read on 27 March 2023. */
  lemma WindowIsTight() returns (t: int, now: int)
    ensures DayOf(now) - DayOf(t) == 27
    ensures ParseTimestamp(EncodeTimestamp(t, DayHourMinute), CurrentUtc(now))
            != Ok(CurrentUtc(t).(second := 0))
  {
    hide CivilFromDays, ParseTimestamp, EncodeTimestamp, DaysFromCivil;
    var a, b := Date(2023, 2, 28), Date(2023, 3, 27);
    MonthBeforeDays(a, b);
    CivilInvertsDayCount(a);
    CivilInvertsDayCount(b);
    t, now := DaysFromCivil(a) * DAY_SECONDS, DaysFromCivil(b) * DAY_SECONDS;
    assert DayOf(t) == DaysFromCivil(a) && DayOf(now) == DaysFromCivil(b);
    PastRecovery(t, now);
  }

  /** `HHMMSSh` has no date: an instant comes back whole exactly on its own day. */
  lemma TimeOfDayRecovery(t: int, now: int)
    ensures ParseTimestamp(EncodeTimestamp(t, HourMinuteSecond), CurrentUtc(now)) == Ok(CurrentUtc(t))
            <==> DayOf(t) == DayOf(now)
  {
    hide CivilFromDays, Number, TwoDigits, DaysFromCivil;
    var at := CurrentUtc(t);
    ClockRange(t);
    ClockRange(now);
    FieldsOf(at.hour, at.minute, at.second, 'h');
    CivilFromDaysIsDate(DayOf(t));
    CivilFromDaysIsDate(DayOf(now));
  }

  // ---- Which texts are read --------------------------------------------------------------

  /** The three numbers of a text of six digits. */
  predicate SaysNumbers(text: string, a: int, b: int, c: int) {
    && |text| == 6 && (forall k :: 0 <= k < 6 ==> '0' <= text[k] <= '9')
    && a == 10 * (text[0] as int - 48) + (text[1] as int - 48)
    && b == 10 * (text[2] as int - 48) + (text[3] as int - 48)
    && c == 10 * (text[4] as int - 48) + (text[5] as int - 48)
  }

  /** A time of day is read into the day of the clock exactly when it is one. */
  lemma TimeOfDayExactly(text: string, a: int, b: int, c: int, now: AprsTimestamp)
    requires SaysNumbers(text, a, b, c) && now.day != 0
    ensures ParseTimestamp(text + "h", now) ==
            if a <= 23 && b <= 59 && c <= 59 then Ok(now.(hour := a, minute := b, second := c)) else Err(OutOfRange)
  {
    var raw := text + "h";
    assert forall k :: 0 <= k < 6 ==> raw[k] == text[k];
  }

  /**
   * Day, hour and minute are read, as UTC or as local time, exactly when they are in range; the day may be
   * any number but 0, and a day later than tomorrow is one of the month before.
   */
  lemma DayOfMonthExactly(text: string, a: int, b: int, c: int, suffix: char, now: AprsTimestamp)
    requires SaysNumbers(text, a, b, c) && (suffix == 'z' || suffix == '/')
    ensures var at := now.(day := a, hour := b, minute := c, second := 0, utc := suffix == 'z');
            ParseTimestamp(text + [suffix], now) ==
            if a == 0 || b > 23 || c > 59 then Err(OutOfRange)
            else if a <= now.day + 1 then Ok(at)
            else Ok(if now.month == 1 then at.(month := 12, year := now.year - 1) else at.(month := now.month - 1))
  {
    var raw := text + [suffix];
    assert forall k :: 0 <= k < 6 ==> raw[k] == text[k];
  }

  /** Any other text is refused. */
  lemma OtherTextsAreRefused(raw: string, now: AprsTimestamp)
    requires ParseTimestamp(raw, now).Ok?
    ensures |raw| == 7 && raw[6] in {'h', 'z', '/'} && forall k :: 0 <= k < 6 ==> '0' <= raw[k] <= '9'
  {
  }
}
