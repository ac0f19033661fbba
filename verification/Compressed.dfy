/**
 * Compressed positions: the compressed branch of `encode_position` and `append_base91_4`
 * (src/encode.rs), `base91` and `parse_compressed` (src/position.rs).
 *
 * The logarithmic speed, altitude and range scales stay as their integer exponents.
 */
module Compressed {
  import opened Text
  import opened Chars
  import opened Telemetry
  import opened Uncompressed

  datatype CompressedError = TooShort | InvalidByte

  // ---- Encoding --------------------------------------------------------------------------

  const DIVISORS: seq<int> := [753_571, 8_281, 91, 1]

  function Base91Digit(value: nat, divisor: int): char
    requires divisor > 0
  {
    (value / divisor % 91 + 33) as char
  }

  function Base91Text(value: nat): (s: string)
    ensures |s| == 4 && forall k :: 0 <= k < 4 ==> IsBase91Char(s[k])
  {
    [Base91Digit(value, 753_571), Base91Digit(value, 8_281), Base91Digit(value, 91), Base91Digit(value, 1)]
  }

  method AppendBase91(output: string, value: nat) returns (r: string)
    ensures r == output + Base91Text(value)
  {
    r := output;
    for i := 0 to |DIVISORS|
      invariant r == output + Base91Text(value)[..i]
    {
      r := r + [Base91Digit(value, DIVISORS[i])];
    }
  }

  const LATITUDE_SCALE := 380_926.0
  const LONGITUDE_SCALE := 190_463.0

  function LatitudeValue(latitude: real): int { (LATITUDE_SCALE * (90.0 - latitude)).Floor }

  function LongitudeValue(longitude: real): int { (LONGITUDE_SCALE * (180.0 + longitude)).Floor }

  /** Course in steps of four degrees, north as zero. */
  function CourseValue(course: real): (n: int)
    requires 0.0 < course <= 360.0
    ensures 0 <= n <= 89
  {
    var n := ((course + 2.0) / 4.0).Floor;
    if n > 89 then 0 else n
  }

  /** The course and the exponent of the speed, when the encoder has both. */
  datatype Motion = Motion(course: real, speedExponent: nat)

  predicate IsMotion(m: Motion) { 0.0 < m.course <= 360.0 && m.speedExponent <= 89 }

  function MotionText(motion: Option<Motion>): string
    requires motion.Some? ==> IsMotion(motion.value)
  {
    match motion
    case None => "  A"
    case Some(m) => [(CourseValue(m.course) + 33) as char, (m.speedExponent + 33) as char, 'A']
  }

  /** Digits of the symbol table travel as letters. */
  function TableText(table: char): char {
    if IsDigitChar(table) then ('a' as int + (table as int - '0' as int)) as char else table
  }

  predicate IsSymbolCode(c: char) { '!' <= c <= '{' || c == '}' }


  function CompressedText(latitude: real, longitude: real, table: char, code: char, motion: Option<Motion>): string
    requires InRange(latitude, longitude)
    requires motion.Some? ==> IsMotion(motion.value)
  {
    ValuesInRange(latitude, longitude);
    [TableText(table)] + Base91Text(LatitudeValue(latitude)) + Base91Text(LongitudeValue(longitude))
    + [code] + MotionText(motion)
  }

  // ---- Decoding --------------------------------------------------------------------------

  function Base91(s: string): Option<nat> {
    if s == "" then Some(0)
    else
      match Base91(s[..|s| - 1])
      case None => None
      case Some(value) =>
        var c := s[|s| - 1];
        if IsBase91Char(c) then Some(91 * value + (c as int - 33)) else None
  }

  /** What the compression bytes carry. */
  datatype Extension =
    | Nothing
    | AltitudeExponent(n: int)
    | CourseSpeed(course: int, speedExponent: int)
    | RangeExponent(n: int)

  datatype CompressedPosition = CompressedPosition(latitude: real, longitude: real, table: char, code: char,
                                                   extension: Extension, comment: string)

  function ParseExtension(c: char, s: char, t: char): Extension {
    var course, speed, kind := c as int - 33, s as int - 33, t as int - 33;
    if course < 0 || speed < 0 then Nothing
    else if kind / 8 % 4 == 2 then AltitudeExponent(course * 91 + speed)
    else if course <= 89 then CourseSpeed(if course == 0 then 360 else course * 4, speed)
    else if course == 90 then RangeExponent(speed)
    else Nothing
  }

  function ParseCompressed(body: string): Result<CompressedPosition, CompressedError> {
    if |body| < 13 then Err(TooShort)
    else if exists k :: 1 <= k <= 12 && !IsBase91Char(body[k]) && body[k] != ' ' then Err(InvalidByte)
    else
      match (Base91(body[1..5]), Base91(body[5..9]))
      case (Some(latitude), Some(longitude)) =>
        Ok(CompressedPosition(
             90.0 - latitude as real / LATITUDE_SCALE,
             -180.0 + longitude as real / LONGITUDE_SCALE,
             if 'a' <= body[0] <= 'j' then ('0' as int + (body[0] as int - 'a' as int)) as char else body[0],
             body[9], ParseExtension(body[10], body[11], body[12]), body[13..]))
      case _ => Err(InvalidByte)
  }

  // ---- Proofs ----------------------------------------------------------------------------

  const LIMIT := 68_574_961  // 91 to the fourth

  /** Scaled coordinates are natural numbers that fit four base-91 digits. */
  lemma ValuesInRange(latitude: real, longitude: real)
    requires InRange(latitude, longitude)
    ensures 0 <= LatitudeValue(latitude) < LIMIT
    ensures 0 <= LongitudeValue(longitude) < LIMIT
  {
    assert 0.0 < LATITUDE_SCALE * (90.0 - latitude) < 68_566_680.0;
    assert 0.0 < LONGITUDE_SCALE * (180.0 + longitude) < 68_566_680.0;
  }

  /** The four digits restore every value below 91 to the fourth. */
  lemma Base91RoundTrip(value: nat)
    requires value < LIMIT
    ensures Base91(Base91Text(value)) == Some(value)
  {
    var s := Base91Text(value);
    assert s[..3][..2] == s[..2] && s[..2][..1] == s[..1] && s[..1][..0] == "";
    Split91(value);
    assert Base91(s[..1]) == Some(value / 753_571);
    assert Base91(s[..2]) == Some(value / 8_281);
    assert Base91(s[..3]) == Some(value / 91);
  }

  lemma Split91(value: nat)
    requires value < LIMIT
    ensures value / 753_571 < 91
    ensures value / 8_281 == 91 * (value / 753_571) + value / 8_281 % 91
    ensures value / 91 == 91 * (value / 8_281) + value / 91 % 91
    ensures value == 91 * (value / 91) + value % 91
  {
    assert value / 91 / 91 == value / 8_281;
    assert value / 8_281 / 91 == value / 753_571;
  }

  predicate IsMotionExtension(motion: Option<Motion>, e: Extension)
    requires motion.Some? ==> IsMotion(motion.value)
  {
    match motion
    case None => e == Nothing
    case Some(m) => e.CourseSpeed? && e.speedExponent == m.speedExponent && WithinTwoDegrees(m.course, e.course)
  }

  /** Angles at most two degrees apart around the circle. */
  predicate WithinTwoDegrees(a: real, b: int) {
    || -2.0 <= a - b as real <= 2.0
    || -2.0 <= a + 360.0 - b as real <= 2.0
    || -2.0 <= a - 360.0 - b as real <= 2.0
  }

  lemma CourseIsNear(course: real)
    requires 0.0 < course <= 360.0
    ensures var n := CourseValue(course); WithinTwoDegrees(course, if n == 0 then 360 else n * 4)
  {
    var n := ((course + 2.0) / 4.0).Floor;
    assert n as real <= (course + 2.0) / 4.0 < n as real + 1.0;
    assert 4.0 * n as real <= course + 2.0 < 4.0 * n as real + 4.0;
  }

  lemma MotionDecodes(motion: Option<Motion>)
    requires motion.Some? ==> IsMotion(motion.value)
    ensures var s := MotionText(motion);
            && |s| == 3 && IsMotionExtension(motion, ParseExtension(s[0], s[1], s[2]))
            && forall k :: 0 <= k < 3 ==> IsBase91Char(s[k]) || s[k] == ' '
  {
    match motion
    case None =>
    case Some(m) => CourseIsNear(m.course);
  }

  /**
   * An encoded compressed position decodes exactly when its symbol code is not `}`; the coordinates
   * come back rounded one way by less than a unit, the course within two degrees, and the symbol
   * table unless it is one of the letters that stand for digits.
   */
  lemma CompressedDecodes(latitude: real, longitude: real, table: char, code: char,
                          motion: Option<Motion>, rest: string)
    requires InRange(latitude, longitude) && IsSymbolTable(table) && IsSymbolCode(code)
    requires motion.Some? ==> IsMotion(motion.value)
    ensures var parsed := ParseCompressed(CompressedText(latitude, longitude, table, code, motion) + rest);
            && (parsed.Ok? <==> code != '}')
            && (parsed.Ok? ==>
                  var p := parsed.value;
                  && 0.0 <= p.latitude - latitude < 1.0 / LATITUDE_SCALE
                  && 0.0 <= longitude - p.longitude < 1.0 / LONGITUDE_SCALE
                  && (p.table == table <==> !('a' <= table <= 'j'))
                  && p.code == code && p.comment == rest
                  && IsMotionExtension(motion, p.extension))
  {
    hide Base91Text, MotionText, Base91, ParseExtension, IsMotionExtension, LatitudeValue, LongitudeValue, IsMotion,
      IsSymbolTable;
    ValuesInRange(latitude, longitude);
    var lat, lon := LatitudeValue(latitude), LongitudeValue(longitude);
    var a, b, m := Base91Text(lat), Base91Text(lon), MotionText(motion);
    MotionDecodes(motion);
    Base91RoundTrip(lat);
    Base91RoundTrip(lon);
    var body := CompressedText(latitude, longitude, table, code, motion) + rest;
    assert body[1..5] == a && body[5..9] == b && body[13..] == rest;
    assert body[9] == code && body[10] == m[0] && body[11] == m[1] && body[12] == m[2];
    assert forall k :: 1 <= k < 5 ==> body[k] == a[k - 1];
    assert forall k :: 5 <= k < 9 ==> body[k] == b[k - 5];
    ScaledDown(latitude, longitude);
    TableSurvives(table);
  }

  lemma TableSurvives(table: char)
    requires IsSymbolTable(table)
    ensures var c := TableText(table);
            (if 'a' <= c <= 'j' then ('0' as int + (c as int - 'a' as int)) as char else c) == table
            <==> !('a' <= table <= 'j')
  {
  }

  lemma ScaledDown(latitude: real, longitude: real)
    ensures 0.0 <= 90.0 - LatitudeValue(latitude) as real / LATITUDE_SCALE - latitude < 1.0 / LATITUDE_SCALE
    ensures 0.0 <= longitude - (-180.0 + LongitudeValue(longitude) as real / LONGITUDE_SCALE) < 1.0 / LONGITUDE_SCALE
  {
    var x, y := LATITUDE_SCALE * (90.0 - latitude), LONGITUDE_SCALE * (180.0 + longitude);
    assert x.Floor as real <= x < x.Floor as real + 1.0;
    assert y.Floor as real <= y < y.Floor as real + 1.0;
  }

  // ---- What the compression bytes carry --------------------------------------------------

  /**
   * By type byte and first digit: an altitude when the source bits say GGA, otherwise course and speed up to
   * 89 steps, a range behind `{`, and nothing behind a space.
   */
  lemma ExtensionsExactly(first: int, second: int, kind: int)
    requires 0 <= first <= 90 && 0 <= second <= 90 && 0 <= kind <= 90
    ensures var e := ParseExtension((first + 33) as char, (second + 33) as char, (kind + 33) as char);
            e == if 16 <= kind % 32 <= 23 then AltitudeExponent(91 * first + second)
                 else if first == 0 then CourseSpeed(360, second)
                 else if first < 90 then CourseSpeed(4 * first, second)
                 else RangeExponent(second)
    ensures ParseExtension(' ', (second + 33) as char, (kind + 33) as char) == Nothing
    ensures ParseExtension((first + 33) as char, ' ', (kind + 33) as char) == Nothing
  {
  }

  /** Which texts are compressed positions at all. */
  lemma CompressedExactly(body: string)
    ensures ParseCompressed(body).Ok? <==>
            && |body| >= 13 && (forall k :: 1 <= k <= 8 ==> 33 <= body[k] as int <= 123)
            && (forall k :: 9 <= k <= 12 ==> 33 <= body[k] as int <= 123 || body[k] == ' ')
  {
    if |body| >= 13 {
      FourDigits(body[1..5]);
      FourDigits(body[5..9]);
      assert forall k :: 1 <= k <= 4 ==> body[k] == body[1..5][k - 1];
      assert forall k :: 5 <= k <= 8 ==> body[k] == body[5..9][k - 5];
    }
  }

  lemma FourDigits(s: string)
    requires |s| == 4
    ensures Base91(s).Some? <==> forall k :: 0 <= k < 4 ==> IsBase91Char(s[k])
  {
    assert s[..3][..2] == s[..2] && s[..2][..1] == s[..1] && s[..1][..0] == "";
    assert Base91(s[..1]).Some? <==> IsBase91Char(s[0]);
    assert Base91(s[..2]).Some? <==> Base91(s[..1]).Some? && IsBase91Char(s[1]);
    assert Base91(s[..3]).Some? <==> Base91(s[..2]).Some? && IsBase91Char(s[2]);
  }
}
