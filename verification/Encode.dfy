/**
 * Whole information fields: `encode_position` and `encode_object` (src/encode.rs) against the parser.
 *
 * Speeds are in knots and altitudes in feet, as they go on the wire; the logarithmic scale of
 * compressed speeds is a parameter.
 */
module Encode {
  import opened Text
  import opened Chars
  import opened Telemetry
  import opened Numbers
  import opened Uncompressed
  import opened Comment
  import opened Packet
  import opened PacketProofs
  import Cx = Compressed
  import Ts = Timestamp
  import Calendar
  import Msg = Message
  import Wx = Weather
  import Wr = WeatherReading

  datatype EncodeError = BadCoordinates | BadSymbol | TooAmbiguous | NotCompressible | BadTimestamp | BadName

  datatype Options = Options(ambiguity: nat, compressed: bool, dao: bool, timestamp: Option<string>,
                             messaging: bool, comment: string)

  datatype Station = Station(latitude: real, longitude: real, knots: Option<real>, course: Option<real>,
                             feet: Option<real>, symbol: string)

  // ---- Numbers as text -------------------------------------------------------------------

  /** Nearest integer, halves to the even one. */
  function RoundEven(x: real): (n: int)
    requires x >= 0.0
    ensures n >= 0 && n as real - 0.5 <= x <= n as real + 0.5
    ensures x == n as real - 0.5 || x == n as real + 0.5 ==> n % 2 == 0
  {
    var n := x.Floor;
    var rest := x - n as real;
    if rest < 0.5 || (rest == 0.5 && n % 2 == 0) then n else n + 1
  }

  function Decimal(n: nat): (s: string)
    ensures s != "" && AllDigits(s)
  {
    if n < 10 then [DigitChar(n)] else Decimal(n / 10) + [DigitChar(n % 10)]
  }

  /** The number with zeros in front up to `width` digits, or all its digits when it has more. */
  function Padded(n: nat, width: nat): string {
    if n < Pow10(width) then Digits(n, width) else Decimal(n)
  }

  /** Course and speed, when both are known and neither is negative. */
  function MotionText(s: Station): string {
    if s.knots.Some? && s.course.Some? && s.knots.value >= 0.0 && s.course.value >= 0.0 then
      var course := if s.course.value > 360.0 then 0.0 else s.course.value;
      var knots := if s.knots.value < 999.0 then s.knots.value else 999.0;
      Padded(RoundEven(course), 3) + "/" + Padded(RoundEven(knots), 3)
    else ""
  }

  function FeetText(feet: real): string {
    if feet >= 0.0 then Padded(RoundEven(feet), 6) else "-" + Padded(RoundEven(-feet), 5)
  }

  function AltitudeText(feet: Option<real>): string {
    if feet.Some? then "/A=" + FeetText(feet.value) else ""
  }

  function MotionOf(s: Station, scale: real -> int): (m: Option<Cx.Motion>)
    ensures m.Some? ==> Cx.IsMotion(m.value)
  {
    if s.knots.Some? && s.course.Some? && s.knots.value >= 0.0 && 0.0 < s.course.value <= 360.0 then
      var exponent := scale(s.knots.value);
      Some(Cx.Motion(s.course.value, if exponent < 0 then 0 else if exponent > 89 then 89 else exponent))
    else None
  }

  // ---- Encoding --------------------------------------------------------------------------

  function SymbolOf(s: Station): string { if s.symbol == "" then "//" else s.symbol }

  function CheckPosition(s: Station, o: Options): Option<EncodeError> {
    var symbol := SymbolOf(s);
    if !InRange(s.latitude, s.longitude) || |symbol| != 2 then Some(BadCoordinates)
    else if !IsSymbolTable(symbol[0]) || !Cx.IsSymbolCode(symbol[1]) then Some(BadSymbol)
    else if o.ambiguity > 4 then Some(TooAmbiguous)
    else if o.compressed && (o.ambiguity != 0 || o.dao) then Some(NotCompressible)
    else None
  }

  /** All checks but the timestamp's are passed. */
  predicate IsEncodable(s: Station, o: Options) {
    CheckPosition(s, o).None?
  }

  function Table(s: Station): char
    requires |SymbolOf(s)| == 2
  {
    SymbolOf(s)[0]
  }

  function Code(s: Station): char
    requires |SymbolOf(s)| == 2
  {
    SymbolOf(s)[1]
  }

  predicate UsesDao(o: Options) { o.dao && o.ambiguity == 0 }

  /** What follows the fixed part of an uncompressed position. */
  function Tail(s: Station, o: Options): string {
    MotionText(s) + AltitudeText(s.feet) + o.comment + if UsesDao(o) then DaoText(s.latitude, s.longitude) else ""
  }

  /** The position without the identifier and timestamp in front of it. */
  function PositionField(s: Station, o: Options, scale: real -> int): string
    requires IsEncodable(s, o)
  {
    if o.compressed then
      Cx.CompressedText(s.latitude, s.longitude, Table(s), Code(s), MotionOf(s, scale))
      + (AltitudeText(s.feet) + o.comment)
    else
      PositionText(s.latitude, s.longitude, UsesDao(o), o.ambiguity, Table(s), Code(s)) + Tail(s, o)
  }

  predicate IsTimestampText(t: string) { |t| == 7 && forall c :: c in t ==> c < 128 as char }

  function Identifier(o: Options): char {
    if o.timestamp.Some? then (if o.messaging then '@' else '/') else (if o.messaging then '=' else '!')
  }

  function EncodePosition(s: Station, o: Options, scale: real -> int): Result<string, EncodeError> {
    var problem := CheckPosition(s, o);
    if problem.Some? then Err(problem.value)
    else if o.timestamp.Some? && !IsTimestampText(o.timestamp.value) then Err(BadTimestamp)
    else
      Ok([Identifier(o)] + (if o.timestamp.Some? then o.timestamp.value else "") + PositionField(s, o, scale))
  }

  /** The encoder's own steps, appending to one buffer. */
  method MakePosition(s: Station, o: Options, scale: real -> int) returns (r: Result<string, EncodeError>)
    ensures r == EncodePosition(s, o, scale)
  {
    hide Cx.Base91Text, Cx.LatitudeValue, Cx.LongitudeValue, Cx.MotionText, EncodedCoordinate, BlankDigits, MotionText,
      AltitudeText, Cx.IsMotion, Cx.TableText;
    var problem := CheckPosition(s, o);
    if problem.Some? { return Err(problem.value); }
    var result := [Identifier(o)];
    if o.timestamp.Some? {
      if !IsTimestampText(o.timestamp.value) { return Err(BadTimestamp); }
      result := result + o.timestamp.value;
    }
    assert result == [Identifier(o)] + (if o.timestamp.Some? then o.timestamp.value else "");
    if o.compressed {
      var motion := MotionOf(s, scale);
      Cx.ValuesInRange(s.latitude, s.longitude);
      var text := [Cx.TableText(Table(s))];
      text := Cx.AppendBase91(text, Cx.LatitudeValue(s.latitude));
      text := Cx.AppendBase91(text, Cx.LongitudeValue(s.longitude));
      text := text + [Code(s)];
      text := text + Cx.MotionText(motion);
      assert text == Cx.CompressedText(s.latitude, s.longitude, Table(s), Code(s), motion);
      text := text + (AltitudeText(s.feet) + o.comment);
      assert text == PositionField(s, o, scale);
      return Ok(result + text);
    }
    var dao := UsesDao(o);
    var lat, latDao := EncodedCoordinate(s.latitude, 2, dao).0, EncodedCoordinate(s.latitude, 2, dao).1;
    var lon, lonDao := EncodedCoordinate(s.longitude, 3, dao).0, EncodedCoordinate(s.longitude, 3, dao).1;
    lat := ApplyAmbiguity(lat, o.ambiguity);
    lon := ApplyAmbiguity(lon, o.ambiguity);
    lat := lat + [if s.latitude < 0.0 then 'S' else 'N'];
    lon := lon + [if s.longitude < 0.0 then 'W' else 'E'];
    var text := lat + [Table(s)] + lon + [Code(s)];
    assert text == PositionText(s.latitude, s.longitude, dao, o.ambiguity, Table(s), Code(s));
    var tail := MotionText(s) + AltitudeText(s.feet) + o.comment;
    tail := tail + if dao then DaoText(s.latitude, s.longitude) else "";
    text := text + tail;
    assert text == PositionField(s, o, scale);
    return Ok(result + text);
  }

  // ---- Numbers read back -----------------------------------------------------------------

  /** An altitude of up to six characters. */
  predicate FitsAltitude(feet: real) { |FeetText(feet)| == 6 }

  lemma {:induction false} DecimalIsLong(n: nat, width: nat)
    requires n >= Pow10(width)
    ensures |Decimal(n)| > width
  {
    if width > 0 {
      Pow10Grows(width - 1);
      assert Pow10(width) == 10 * Pow10(width - 1);
      assert n >= 10 && n / 10 >= Pow10(width - 1);
      DecimalIsLong(n / 10, width - 1);
    }
  }

  lemma {:induction false} Pow10Grows(n: nat)
    ensures Pow10(n + 1) == 10 * Pow10(n) && Pow10(n) >= 1
  {
    if n > 0 { Pow10Grows(n - 1); }
  }

  lemma PaddedIsDigits(n: nat, width: nat)
    ensures AllDigits(Padded(n, width)) && |Padded(n, width)| >= width
    ensures |Padded(n, width)| == width <==> n < Pow10(width)
  {
    if n >= Pow10(width) {
      DecimalIsLong(n, width);
    } else {
      assert Padded(n, width) == Digits(n, width);
    }
  }

  /** Whether an altitude fits is known from its size alone. */
  lemma FitsExactly(feet: real)
    ensures FitsAltitude(feet) <==> if feet >= 0.0 then RoundEven(feet) <= 999_999 else RoundEven(-feet) <= 99_999
  {
    hide Padded, RoundEven;
    assert Pow10(6) == 1_000_000 && Pow10(5) == 100_000;
    if feet >= 0.0 { PaddedIsDigits(RoundEven(feet), 6); } else { PaddedIsDigits(RoundEven(-feet), 5); }
  }

  /** The first six characters after `/A=` always read as an altitude. */
  lemma FeetReads(feet: real)
    ensures |FeetText(feet)| >= 6 && IsAltitude(FeetText(feet)[..6])
  {
    hide Padded, RoundEven;
    if feet >= 0.0 {
      PaddedIsDigits(RoundEven(feet), 6);
    } else {
      var digits := Padded(RoundEven(-feet), 5);
      PaddedIsDigits(RoundEven(-feet), 5);
      assert forall k :: 1 <= k < 6 ==> FeetText(feet)[k] == digits[k - 1];
    }
  }

  lemma AltitudeAtFront(feet: real, comment: string)
    ensures |FeetText(feet)| >= 6
    ensures var s := "/A=" + FeetText(feet) + comment;
            TakeAltitude(s) == (Some(FeetText(feet)[..6]), FeetText(feet)[6..] + comment)
  {
    hide FeetText, IsAltitude;
    FeetReads(feet);
    var text := FeetText(feet);
    var s := "/A=" + text + comment;
    assert s[..3] == "/A=";
    assert FindAltitude(s) == 0;
    assert s[3..9] == text[..6];
    assert s[..0] + s[9..] == text[6..] + comment;
  }

  /** Three digits, a slash and three digits are a course and a speed, and no other extension. */
  lemma MotionAtFront(course: string, speed: string, comment: string)
    requires |course| == |speed| == 3 && AllDigits(course) && AllDigits(speed)
    ensures var s := course + "/" + speed + comment;
            TakePhg(s) == (None, s) && TakeRange(s) == (None, s) && TakeCourse(s) == (Some((course, speed)), comment)
  {
    hide IsFloat;
    var s := course + "/" + speed + comment;
    assert IsDigitChar(s[0]);
    assert !("PHG" <= s) && !("RNG" <= s);
    assert s[..3] == course && s[3] == '/' && s[4..7] == speed && s[7..] == comment;
    assert forall k :: 0 <= k < 3 ==> s[k] == course[k];
    assert forall k :: 4 <= k < 7 ==> s[k] == speed[k - 4];
  }

  /** An altitude in front is no other extension. */
  lemma NoMotionAtFront(feet: real, comment: string)
    ensures var s := "/A=" + FeetText(feet) + comment;
            TakePhg(s) == (None, s) && TakeRange(s) == (None, s) && TakeCourse(s) == (None, s)
  {
    hide IsFloat, FeetText;
    FeetReads(feet);
    var s := "/A=" + FeetText(feet) + comment;
    assert s[0] == '/' && s[1] == 'A' && s[3] == FeetText(feet)[..6][0];
    assert !("PHG" <= s) && !("RNG" <= s);
  }

  predicate HasMotion(s: Station) {
    s.knots.Some? && s.course.Some? && s.knots.value >= 0.0 && s.course.value >= 0.0
  }

  /** Course and speed on the wire, in degrees and knots. */
  function WireCourse(s: Station): nat
    requires HasMotion(s)
  {
    RoundEven(if s.course.value > 360.0 then 0.0 else s.course.value)
  }

  function WireSpeed(s: Station): nat
    requires HasMotion(s)
  {
    RoundEven(if s.knots.value < 999.0 then s.knots.value else 999.0)
  }

  lemma MotionIsSixDigits(s: Station)
    requires HasMotion(s)
    ensures 0 <= WireCourse(s) <= 360 && 0 <= WireSpeed(s) <= 999
    ensures MotionText(s) == Digits(WireCourse(s), 3) + "/" + Digits(WireSpeed(s), 3)
  {
    hide Digits;
    assert Pow10(3) == 1000;
  }

  function CourseIn(comment: string): (Option<(string, string)>, string) {
    TakeCourse(TakeRange(TakePhg(comment).1).1)
  }

  function AltitudeIn(comment: string): Option<string> {
    TakeAltitude(CourseIn(comment).1).0
  }

  /** The extensions the encoder wrote, as the comment parser finds them. */
  lemma ExtensionsAreRead(s: Station, rest: string)
    ensures var comment := MotionText(s) + AltitudeText(s.feet) + rest;
            && (HasMotion(s) ==> CourseIn(comment).0 == Some((Digits(WireCourse(s), 3), Digits(WireSpeed(s), 3))))
            && (s.feet.Some? ==> |FeetText(s.feet.value)| >= 6
                                 && AltitudeIn(comment) == Some(FeetText(s.feet.value)[..6]))
  {
    hide TakePhg, TakeRange, TakeCourse, TakeAltitude, MotionText, FeetText, WireCourse, WireSpeed, Digits;
    var after := AltitudeText(s.feet) + rest;
    var comment := MotionText(s) + AltitudeText(s.feet) + rest;
    if HasMotion(s) {
      var course, speed := Digits(WireCourse(s), 3), Digits(WireSpeed(s), 3);
      MotionIsSixDigits(s);
      MotionAtFront(course, speed, after);
      assert comment == course + "/" + speed + after;
      assert CourseIn(comment) == (Some((course, speed)), after);
    } else {
      NoMotionText(s);
      assert comment == after;
      if s.feet.Some? { NoMotionAtFront(s.feet.value, rest); }
    }
    if s.feet.Some? { AltitudeAtFront(s.feet.value, rest); }
  }

  lemma NoMotionText(s: Station)
    requires !HasMotion(s)
    ensures MotionText(s) == ""
  {
  }

  /** Telemetry and DAO come last and leave the earlier extensions alone. */
  lemma LaterStepsKeep(p: Position)
    requires p.code != '_'
    ensures ParsePositionComment(p).course == CourseIn(p.comment).0
    ensures ParsePositionComment(p).altitude == AltitudeIn(p.comment)
  {
    hide TakePhg, TakeRange, TakeCourse, TakeAltitude, StripInlineTelemetry, ParseInlineTelemetry, LastDao, DaoValue,
      FinalComment;
  }

  // ---- Positions read back ---------------------------------------------------------------

  function Signed(a: Angle): real { if a.negative then -a.magnitude else a.magnitude }

  /** Half the width of the cell an ambiguous coordinate stands for, in minutes. */
  function HalfCell(ambiguity: nat): real {
    if ambiguity == 0 then 0.0 else if ambiguity == 1 then 0.05 else if ambiguity == 2 then 0.5
    else if ambiguity == 3 then 5.0 else 30.0
  }

  /**
   * How far off a decoded coordinate may be, in minutes. A comment may hold a DAO extension of its own,
   * which is worth up to 0.01 minute.
   */
  function Tolerance(s: Station, o: Options): real
    requires IsEncodable(s, o)
  {
    if o.compressed then 0.0104
    else if o.dao && o.ambiguity == 0 && Code(s) != '_' then 0.0002
    else 0.02 + HalfCell(o.ambiguity)
  }

  predicate IsNear(a: Angle, value: real, tolerance: real) { MinutesApart(Signed(a), value) <= tolerance }

  /** What a state shows of a station that was encoded. */
  predicate ShowsStation(g: Fields, s: Station, o: Options, scale: real -> int)
    requires IsEncodable(s, o)
  {
    && HasPosition(g)
    && g.format == Some(if o.compressed then CompressedFormat else UncompressedFormat)
    && g.code == Some(Code(s))
    && (g.table == Some(Table(s)) <==> !(o.compressed && 'a' <= Table(s) <= 'j'))
    && (!o.compressed ==> g.ambiguity == Some(o.ambiguity))
    && IsNear(g.latitude.value, s.latitude, Tolerance(s, o))
    && IsNear(g.longitude.value, s.longitude, Tolerance(s, o))
    && (Code(s) != '_' ==> ShowsAltitude(g, s))
    && if o.compressed then ShowsLogarithmic(g, s, o, scale)
       else if Code(s) == '_' then ShowsWind(g, s) else ShowsMotion(g, s)
  }

  predicate Shows(f: Fields, g: Fields, s: Station, o: Options, scale: real -> int)
    requires IsEncodable(s, o)
  {
    Positioned(f, g) && ShowsStation(g, s, o, scale)
  }

  /** An altitude on the wire, in feet. */
  function WireFeet(feet: real): int {
    if feet >= 0.0 then RoundEven(feet) else -RoundEven(-feet)
  }

  /** The number a reading was written as. */
  function WrittenValue(r: Option<Reading>): Option<real> {
    if r.Some? && r.value.Written? then FloatValue(r.value.text) else None
  }

  /** Six characters of an altitude are read; they are the altitude exactly when it fits them. */
  predicate ShowsAltitude(g: Fields, s: Station) {
    s.feet.Some? ==>
      && |FeetText(s.feet.value)| >= 6
      && g.altitude == Some(Written(FeetText(s.feet.value)[..6]))
      && (WrittenValue(g.altitude) == Some(WireFeet(s.feet.value) as real) <==> FitsAltitude(s.feet.value))
  }

  /** Course and speed of an uncompressed position come back: the course in degrees, the speed as written. */
  predicate ShowsMotion(g: Fields, s: Station) {
    HasMotion(s) ==> && g.course == Some(Number(WireCourse(s)))
                     && g.speed == Some(Written(Digits(WireSpeed(s), 3)))
                     && KnotsOf(g.speed.value) == Some(WireSpeed(s) as real)
  }

  /** Under the weather station's symbol the same text is read as the wind, its knots as miles per hour. */
  predicate ShowsWind(g: Fields, s: Station) {
    HasMotion(s) ==> && g.weather.Some?
                     && g.weather.value.windDirection == Some(WireCourse(s))
                     && g.weather.value.windSpeed == Some(WireSpeed(s))
  }

  /** The speed an exponent stands for, in knots. */
  function LogarithmicKnots(m: Cx.Motion): real { Pow108(m.speedExponent) - 1.0 }

  /** The course within the two degrees of the format, and the very speed. */
  predicate IsMotionShown(g: Fields, m: Cx.Motion) {
    && g.course.Some? && g.course.value.Number? && Cx.WithinTwoDegrees(m.course, g.course.value.number)
    && g.speed.Some? && KnotsOf(g.speed.value) == Some(LogarithmicKnots(m))
  }

  /** The course and speed in front of a comment, which overwrite those of a compressed position. */
  function CommentMotion(s: Station, o: Options): Option<(string, string)>
    requires |SymbolOf(s)| == 2
  {
    if Code(s) == '_' then None else CourseIn(AltitudeText(s.feet) + o.comment).0
  }

  /** The texts happen to say the same course and speed. */
  predicate SaysMotion(text: (string, string), m: Cx.Motion) {
    Cx.WithinTwoDegrees(m.course, CourseNumber(text.0)) && FloatValue(text.1) == Some(LogarithmicKnots(m))
  }

  /**
   * Course and speed of a compressed position come back exactly when no course stands in front of its
   * comment, or one that says the same; otherwise those of the comment are shown.
   */
  predicate ShowsLogarithmic(g: Fields, s: Station, o: Options, scale: real -> int)
    requires |SymbolOf(s)| == 2
  {
    var motion, said := MotionOf(s, scale), CommentMotion(s, o);
    && (motion.Some? ==>
          (IsMotionShown(g, motion.value) <==> said.None? || SaysMotion(said.value, motion.value)))
    && (said.Some? ==> g.course == Some(Number(CourseNumber(said.value.0))) && g.speed == SpeedReading(said.value.1))
  }

  function SpeedReading(text: string): Option<Reading> {
    if IsFloat(text) then Some(Written(text)) else None
  }

  lemma NearAfterComment(a: Angle, b: Angle, value: real, off: real)
    requires IsMovedAway(a, b) && IsNear(a, value, off)
    ensures IsNear(b, value, off + 0.01)
  {
    assert (Signed(b) - value) * 60.0 == (Signed(a) - value) * 60.0 + (Signed(b) - Signed(a)) * 60.0;
  }

  /** The sign kept apart costs nothing: it is the sign of the value. */
  lemma SameSide(a: Angle, value: real, off: real)
    requires a.negative == (value < 0.0) && MinutesApart(a.magnitude, Abs(value)) <= off
    ensures IsNear(a, value, off)
  {
  }

  lemma WrittenIsNear(value: real, dao: bool, k: nat)
    requires k <= 4
    ensures IsNear(Angle(Whole(value) as real + Middle(Hundredths(value, dao), k) as real / 6000.0, value < 0.0),
                   value, 0.01 + HalfCell(k))
  {
    hide Hundredths, Whole, Middle;
    var m := Hundredths(value, dao);
    HundredthsAreNear(value, dao);
    MiddleIsNear(m, k);
    var magnitude := Whole(value) as real + Middle(m, k) as real / 6000.0;
    assert (magnitude - Abs(value)) * 60.0 == m as real / 100.0 - Minutes(value) + (Middle(m, k) - m) as real / 100.0;
    SameSide(Angle(magnitude, value < 0.0), value, 0.01 + HalfCell(k));
  }

  /** An uncompressed position starts with a digit of its latitude. */
  lemma DigitInFront(s: Station, o: Options, rest: string)
    requires |SymbolOf(s)| == 2 && o.ambiguity <= 4
    ensures var text := PositionText(s.latitude, s.longitude, UsesDao(o), o.ambiguity, Table(s), Code(s)) + rest;
            text != "" && IsDigitChar(text[0])
  {
    hide CoordinateText, Digits, Hundredths, MinuteChars, Whole;
    CoordinateTextIs(s.latitude, 2, UsesDao(o), o.ambiguity, 'N', 'S');
    assert LatitudeText(s.latitude, UsesDao(o), o.ambiguity)[0] == Digits(Whole(s.latitude), 2)[0];
  }

  /** Every uncompressed position that can be encoded is parsed, whatever its comment says. */
  lemma UncompressedShows(f: Fields, s: Station, o: Options, scale: real -> int)
    requires IsEncodable(s, o) && !o.compressed
    ensures var out := PositionOutcome(f, PositionField(s, o, scale)); out.error.None? && Shows(f, out.fields, s, o, scale)
  {
    hide ParseUncompressed, PositionText, Tail, WithComment, Whole, Middle, Hundredths, HalfCell, IsNear, Positioned,
      ShowsAltitude, ShowsMotion, ShowsWind, IsEncodable, InRange;
    EncodableParts(s, o);
    var dao := UsesDao(o);
    var text := PositionField(s, o, scale);
    PositionDecodes(s.latitude, s.longitude, dao, o.ambiguity, Table(s), Code(s), Tail(s, o));
    var p := ParseUncompressed(text).value;
    DigitInFront(s, o, Tail(s, o));
    var g := WithPosition(f, p);
    CommentPositions(g, p);
    PositionsArePositioned(f, text);
    TablesStay(g, p);
    WrittenIsNear(s.latitude, dao, o.ambiguity);
    WrittenIsNear(s.longitude, dao, o.ambiguity);
    CommentShows(g, p, s, o);
  }

  lemma EncodableParts(s: Station, o: Options)
    requires IsEncodable(s, o)
    ensures |SymbolOf(s)| == 2
    ensures InRange(s.latitude, s.longitude) && IsSymbolTable(Table(s)) && Cx.IsSymbolCode(Code(s))
    ensures o.ambiguity <= 4 && (o.compressed ==> o.ambiguity == 0 && !o.dao)
  {
  }

  lemma TablesStay(f: Fields, p: Position)
    ensures var g := WithComment(f, p);
            g.table == f.table && g.code == f.code && g.format == f.format && g.ambiguity == f.ambiguity
  {
    hide Wx.WeatherOf, ParseInlineTelemetry, ParsePositionComment, TextOrNone, IsFloat;
  }

  /** The comment of an uncompressed position leaves it within its tolerance and shows what was written. */
  lemma CommentShows(f: Fields, p: Position, s: Station, o: Options)
    requires IsEncodable(s, o) && !o.compressed
    requires f.latitude == Some(p.latitude) && f.longitude == Some(p.longitude)
    requires ParseUncompressed(PositionText(s.latitude, s.longitude, UsesDao(o), o.ambiguity, Table(s), Code(s)) + Tail(s, o))
             == Ok(p)
    requires p.code == Code(s) && p.comment == Tail(s, o)
    requires IsNear(p.latitude, s.latitude, 0.01 + HalfCell(o.ambiguity))
    requires IsNear(p.longitude, s.longitude, 0.01 + HalfCell(o.ambiguity))
    ensures var g := WithComment(f, p);
            && g.latitude.Some? && g.longitude.Some?
            && IsNear(g.latitude.value, s.latitude, Tolerance(s, o))
            && IsNear(g.longitude.value, s.longitude, Tolerance(s, o))
            && if Code(s) == '_' then ShowsWind(g, s) else ShowsAltitude(g, s) && ShowsMotion(g, s)
  {
    hide ParseUncompressed, PositionText, ParsePositionComment, Wx.WeatherOf, IsNear, HalfCell, ParseInlineTelemetry,
      TextOrNone, Tail, IsEncodable, InRange, ShowsAltitude, ShowsMotion, ShowsWind, IsFloat,
      CourseNumber;
    if p.code == '_' {
      NearIsMonotone(p.latitude, s.latitude, 0.01 + HalfCell(o.ambiguity), 0.02 + HalfCell(o.ambiguity));
      NearIsMonotone(p.longitude, s.longitude, 0.01 + HalfCell(o.ambiguity), 0.02 + HalfCell(o.ambiguity));
      WindShows(f, p, s, o);
    } else {
      TailShows(f, p, s, o);
      if UsesDao(o) {
        DaoShows(p, s, o);
      } else {
        CommentMovesLittle(p);
        var r := ParsePositionComment(p);
        NearAfterComment(p.latitude, r.latitude, s.latitude, 0.01 + HalfCell(o.ambiguity));
        NearAfterComment(p.longitude, r.longitude, s.longitude, 0.01 + HalfCell(o.ambiguity));
      }
    }
  }

  lemma NearIsMonotone(a: Angle, value: real, off: real, more: real)
    requires IsNear(a, value, off) && off <= more
    ensures IsNear(a, value, more)
  {
  }

  lemma DaoShows(p: Position, s: Station, o: Options)
    requires IsEncodable(s, o) && UsesDao(o) && Code(s) != '_' && p.code == Code(s)
    requires ParseUncompressed(PositionText(s.latitude, s.longitude, true, 0, Table(s), Code(s)) + Tail(s, o)) == Ok(p)
    ensures var r := ParsePositionComment(p);
            IsNear(r.latitude, s.latitude, 0.0002) && IsNear(r.longitude, s.longitude, 0.0002)
  {
    hide ParseUncompressed, PositionText, ParsePositionComment, IsNear, IsEncodable, InRange, MotionText, AltitudeText,
      DaoText;
    EncodableParts(s, o);
    var comment := MotionText(s) + AltitudeText(s.feet) + o.comment;
    DaoPrecision(s.latitude, s.longitude, Table(s), Code(s), comment);
    var r := ParsePositionComment(p);
    SameSide(r.latitude, s.latitude, 0.0002);
    SameSide(r.longitude, s.longitude, 0.0002);
  }

  lemma TailShows(f: Fields, p: Position, s: Station, o: Options)
    requires p.code != '_' && p.comment == Tail(s, o)
    ensures var g := WithReport(f, ParsePositionComment(p)); ShowsAltitude(g, s) && ShowsMotion(g, s)
  {
    hide ParsePositionComment, CourseIn, AltitudeIn, MotionText, FeetText, AltitudeText, DaoText, WireCourse, WireSpeed,
      CourseNumber, FloatValue, WireFeet, FitsAltitude;
    var rest := o.comment + if UsesDao(o) then DaoText(s.latitude, s.longitude) else "";
    assert Tail(s, o) == MotionText(s) + AltitudeText(s.feet) + rest;
    ExtensionsAreRead(s, rest);
    LaterStepsKeep(p);
    if HasMotion(s) {
      MotionIsSixDigits(s);
      ThreeDigitsAreFloat(WireSpeed(s));
      CourseIsRead(WireCourse(s));
    }
    if s.feet.Some? { SixCharactersAreEnough(s.feet.value); }
  }

  lemma WindShows(f: Fields, p: Position, s: Station, o: Options)
    requires p.comment == Tail(s, o)
    ensures ShowsWind(WithWeather(f, p.comment), s)
  {
    hide Wx.WeatherOf, ParseInlineTelemetry, TextOrNone, MotionText, AltitudeText, DaoText, Digits, WireCourse, WireSpeed;
    if HasMotion(s) {
      var rest := AltitudeText(s.feet) + o.comment + if UsesDao(o) then DaoText(s.latitude, s.longitude) else "";
      assert Tail(s, o) == MotionText(s) + rest;
      MotionIsSixDigits(s);
      Wr.WindPrefixIsRead(WireCourse(s), WireSpeed(s), rest);
    }
  }

  lemma CourseIsRead(n: nat)
    requires n <= 360
    ensures CourseNumber(Digits(n, 3)) == n
  {
    assert Pow10(3) == 1000;
    NumberOfDigits(n, 3);
  }

  lemma ThreeDigitsAreFloat(n: nat)
    requires n <= 999
    ensures IsFloat(Digits(n, 3)) && FloatValue(Digits(n, 3)) == Some(n as real)
  {
    assert Pow10(3) == 1000;
    NumberOfDigits(n, 3);
    DigitsAreFloat(Digits(n, 3));
  }

  /** A compressed position is parsed exactly when its symbol code is not `}`. */
  lemma CompressedShows(f: Fields, s: Station, o: Options, scale: real -> int)
    requires IsEncodable(s, o) && o.compressed
    ensures var out := PositionOutcome(f, PositionField(s, o, scale));
            && (out.error.None? <==> Code(s) != '}')
            && (out.error.None? ==> Shows(f, out.fields, s, o, scale))
  {
    hide Cx.ParseCompressed, Cx.CompressedText, WithComment, IsNear, Positioned, IsEncodable, InRange, MotionOf,
      AltitudeText, UncompressedOutcome, Cx.IsMotionExtension, Cx.IsMotion, ShowsAltitude, ShowsLogarithmic;
    EncodableParts(s, o);
    var rest := AltitudeText(s.feet) + o.comment;
    var text := PositionField(s, o, scale);
    LetterInFront(s, MotionOf(s, scale), rest);
    Cx.CompressedDecodes(s.latitude, s.longitude, Table(s), Code(s), MotionOf(s, scale), rest);
    if Code(s) != '}' {
      var p := Cx.ParseCompressed(text).value;
      PositionsArePositioned(f, text);
      var g := WithCompressed(f, p);
      TablesStay(g, Plain(p));
      CompressedIsNear(p.latitude, s.latitude);
      CompressedIsNear(p.longitude, s.longitude);
      CompressedComment(g, p, s, o);
      CompressedKeepsMotion(f, p, s, o, scale);
    }
  }

  lemma LetterInFront(s: Station, motion: Option<Cx.Motion>, rest: string)
    requires |SymbolOf(s)| == 2 && IsSymbolTable(Table(s)) && InRange(s.latitude, s.longitude)
    requires motion.Some? ==> Cx.IsMotion(motion.value)
    ensures var text := Cx.CompressedText(s.latitude, s.longitude, Table(s), Code(s), motion) + rest;
            text != "" && !IsDigitChar(text[0]) && text[0] != ' '
  {
    hide Cx.Base91Text, Cx.MotionText;
  }

  lemma CompressedIsNear(decoded: real, value: real)
    requires -1.0 / 190_463.0 < decoded - value < 1.0 / 190_463.0
    ensures IsNear(SignedAngle(decoded), value, 0.0004)
  {
    assert Signed(SignedAngle(decoded)) == decoded;
  }

  lemma CompressedComment(f: Fields, p: Cx.CompressedPosition, s: Station, o: Options)
    requires IsEncodable(s, o) && o.compressed
    requires f.latitude == Some(SignedAngle(p.latitude)) && f.longitude == Some(SignedAngle(p.longitude))
    requires IsNear(SignedAngle(p.latitude), s.latitude, 0.0004) && IsNear(SignedAngle(p.longitude), s.longitude, 0.0004)
    ensures var g := WithComment(f, Plain(p));
            && g.latitude.Some? && g.longitude.Some?
            && IsNear(g.latitude.value, s.latitude, Tolerance(s, o))
            && IsNear(g.longitude.value, s.longitude, Tolerance(s, o))
  {
    hide ParsePositionComment, Wx.WeatherOf, IsNear, ParseInlineTelemetry, TextOrNone, IsEncodable, SignedAngle, IsFloat,
      CourseNumber;
    var q := Plain(p);
    if q.code == '_' {
      NearIsMonotone(q.latitude, s.latitude, 0.0004, 0.0104);
      NearIsMonotone(q.longitude, s.longitude, 0.0004, 0.0104);
    } else {
      CommentMovesLittle(q);
      var r := ParsePositionComment(q);
      NearAfterComment(q.latitude, r.latitude, s.latitude, 0.0004);
      NearAfterComment(q.longitude, r.longitude, s.longitude, 0.0004);
    }
  }

  lemma ExtensionShows(f: Fields, e: Cx.Extension, m: Cx.Motion)
    requires Cx.IsMotion(m) && Cx.IsMotionExtension(Some(m), e)
    ensures IsMotionShown(WithExtension(f, e), m)
  {
  }

  /** Motion and altitude of a compressed position, through the comment behind it. */
  lemma CompressedKeepsMotion(f: Fields, p: Cx.CompressedPosition, s: Station, o: Options, scale: real -> int)
    requires IsEncodable(s, o) && p.code == Code(s) && p.comment == AltitudeText(s.feet) + o.comment
    requires Cx.IsMotionExtension(MotionOf(s, scale), p.extension)
    ensures var g := WithComment(WithCompressed(f, p), Plain(p));
            (Code(s) != '_' ==> ShowsAltitude(g, s)) && ShowsLogarithmic(g, s, o, scale)
  {
    hide ParsePositionComment, Wx.WeatherOf, ParseInlineTelemetry, TextOrNone, IsEncodable, SignedAngle, IsFloat,
      CourseNumber, CourseIn, AltitudeIn, AltitudeText, FeetText, Cx.IsMotionExtension, WithExtension, MotionOf,
      Cx.IsMotion, Cx.WithinTwoDegrees, FloatValue, WireFeet, LogarithmicKnots, FitsAltitude, IsMotionShown, SaysMotion;
    EncodableParts(s, o);
    var q, h := Plain(p), WithCompressed(f, p);
    var g := WithComment(h, q);
    var motion := MotionOf(s, scale);
    if motion.Some? {
      ExtensionShows(f.(format := Some(CompressedFormat),
                        latitude := Some(SignedAngle(p.latitude)), longitude := Some(SignedAngle(p.longitude)),
                        resolution := Some(COMPRESSED_RESOLUTION), table := Some(p.table), code := Some(p.code)),
                     p.extension, motion.value);
      MotionStays(h, g, motion.value);
    }
    if q.code != '_' {
      LaterStepsKeep(q);
      if s.feet.Some? {
        AltitudeIsRead(s.feet.value, o.comment);
        AltitudeTextIs(s);
        SixCharactersAreEnough(s.feet.value);
      }
      if motion.Some? && CommentMotion(s, o).Some? { OverwrittenMotion(g, motion.value, CommentMotion(s, o).value); }
    }
  }

  lemma MotionStays(f: Fields, g: Fields, m: Cx.Motion)
    requires IsMotionShown(f, m)
    ensures g.course == f.course && g.speed == f.speed ==> IsMotionShown(g, m)
  {
    hide LogarithmicKnots, KnotsOf, Cx.WithinTwoDegrees;
  }

  lemma OverwrittenMotion(g: Fields, m: Cx.Motion, said: (string, string))
    requires g.course == Some(Number(CourseNumber(said.0))) && g.speed == SpeedReading(said.1)
    ensures IsMotionShown(g, m) <==> SaysMotion(said, m)
  {
    hide LogarithmicKnots, CourseNumber, Cx.WithinTwoDegrees, IsNumber, IsNamedFloat;
  }

  lemma {:induction false} NumberOfDecimal(n: nat)
    ensures NumberOf(Decimal(n)) == n
  {
    if n >= 10 {
      NumberOfDecimal(n / 10);
      var s := Decimal(n);
      assert s[..|s| - 1] == Decimal(n / 10);
    } else {
      assert Decimal(n)[..0] == "";
    }
  }

  lemma NumberOfPadded(n: nat, width: nat)
    ensures AllDigits(Padded(n, width)) && NumberOf(Padded(n, width)) == n
  {
    PaddedIsDigits(n, width);
    if n < Pow10(width) { NumberOfDigits(n, width); } else { NumberOfDecimal(n); }
  }

  lemma DigitsRead(digits: string)
    requires AllDigits(digits) && digits != ""
    ensures FloatValue(digits) == Some(NumberOf(digits) as real)
    ensures FloatValue("-" + digits) == Some(-(NumberOf(digits) as real))
  {
    hide NumberOf;
    DigitsAreFloat(digits);
    assert DropSign("-" + digits) == digits;
    AllLeading(digits);
    assert digits[..|digits|] == digits;
  }

  /** Six characters say the altitude exactly when there are no more of them. */
  lemma SixCharactersAreEnough(feet: real)
    ensures |FeetText(feet)| >= 6
    ensures FloatValue(FeetText(feet)[..6]) == Some(WireFeet(feet) as real) <==> FitsAltitude(feet)
  {
    hide Padded, RoundEven, FloatValue, NumberOf;
    var text := FeetText(feet);
    var n, width := RoundEven(if feet >= 0.0 then feet else -feet), if feet >= 0.0 then 6 else 5;
    var digits := Padded(n, width);
    NumberOfPadded(n, width);
    PaddedIsDigits(n, width);
    var front := digits[..width];
    NumberIsBounded(front);
    DigitsRead(front);
    if feet >= 0.0 {
      assert text[..6] == front;
    } else {
      assert text[..6] == "-" + front;
    }
    if |digits| == width { assert front == digits; }
  }

  lemma AltitudeTextIs(s: Station)
    requires s.feet.Some?
    ensures AltitudeText(s.feet) == "/A=" + FeetText(s.feet.value)
  {
  }

  lemma AltitudeIsRead(feet: real, comment: string)
    ensures |FeetText(feet)| >= 6
    ensures AltitudeIn("/A=" + FeetText(feet) + comment) == Some(FeetText(feet)[..6])
  {
    hide TakePhg, TakeRange, TakeCourse, TakeAltitude, FeetText;
    NoMotionAtFront(feet, comment);
    AltitudeAtFront(feet, comment);
  }

  lemma FieldShows(f: Fields, s: Station, o: Options, scale: real -> int)
    requires IsEncodable(s, o)
    ensures var out := PositionOutcome(f, PositionField(s, o, scale));
            && (out.error.None? <==> !(o.compressed && Code(s) == '}'))
            && (out.error.None? ==> Shows(f, out.fields, s, o, scale))
  {
    hide Shows, PositionOutcome, PositionField, IsEncodable;
    if o.compressed { CompressedShows(f, s, o, scale); } else { UncompressedShows(f, s, o, scale); }
  }

  // ---- Whole information fields ----------------------------------------------------------

  /** A position field is never empty, and never starts like a logger's weather report. */
  lemma FieldFront(s: Station, o: Options, scale: real -> int)
    requires IsEncodable(s, o)
    ensures |PositionField(s, o, scale)| >= 13
    ensures PositionField(s, o, scale)[0] != '!'
  {
    hide PositionText, Cx.CompressedText, Tail, IsEncodable, ParseUncompressed, AltitudeText, MotionOf, Cx.IsMotion,
      InRange;
    EncodableParts(s, o);
    if o.compressed {
      TextIsLong(s, MotionOf(s, scale));
    } else {
      PositionDecodes(s.latitude, s.longitude, UsesDao(o), o.ambiguity, Table(s), Code(s), Tail(s, o));
      ParsedLength(PositionField(s, o, scale));
      DigitInFront(s, o, Tail(s, o));
    }
  }

  lemma TextIsLong(s: Station, motion: Option<Cx.Motion>)
    requires |SymbolOf(s)| == 2 && IsSymbolTable(Table(s)) && InRange(s.latitude, s.longitude)
    requires motion.Some? ==> Cx.IsMotion(motion.value)
    ensures var text := Cx.CompressedText(s.latitude, s.longitude, Table(s), Code(s), motion);
            |text| == 13 && text[0] != '!'
  {
    hide Cx.Base91Text;
  }

  lemma ParsedLength(text: string)
    requires ParseUncompressed(text).Ok?
    ensures |text| >= 19
  {
  }

  /** The state a position is read into: what stands in front of it. */
  function PositionStart(leaves: Leaves, o: Options): Fields {
    var f := BLANK.(packetType := Some(Location), messaging := Some(o.messaging));
    match o.timestamp
    case None => f
    case Some(t) => f.(rawTimestamp := Some(t), timestamp := TimestampOf(leaves.now, t))
  }

  /** The dispatch hands an encoded position to the position parser. */
  lemma BodyOfPosition(leaves: Leaves, acceptBrokenMicE: bool, destination: string,
                       s: Station, o: Options, scale: real -> int)
    requires CanEncode(s, o)
    ensures EncodePosition(s, o, scale).Ok? && EncodePosition(s, o, scale).value != ""
    ensures BodyOutcome(leaves, acceptBrokenMicE, BLANK, destination, EncodePosition(s, o, scale).value)
            == PositionOutcome(PositionStart(leaves, o), PositionField(s, o, scale))
  {
    hide PositionOutcome, PositionField, IsEncodable, TimestampOf;
    EncodesExactly(s, o, scale);
    FieldFront(s, o, scale);
    FieldBodies(leaves, acceptBrokenMicE, destination, o, PositionField(s, o, scale));
  }

  lemma FieldBodies(leaves: Leaves, acceptBrokenMicE: bool, destination: string, o: Options, field: string)
    requires field != "" && field[0] != '!' && (o.timestamp.Some? ==> |o.timestamp.value| == 7)
    ensures var body := [Identifier(o)] + (if o.timestamp.Some? then o.timestamp.value else "") + field;
            BodyOutcome(leaves, acceptBrokenMicE, BLANK, destination, body)
            == PositionOutcome(PositionStart(leaves, o), field)
  {
    hide PositionOutcome, TimestampOf;
    var body := [Identifier(o)] + (if o.timestamp.Some? then o.timestamp.value else "") + field;
    if o.timestamp.Some? {
      assert body[1..8] == o.timestamp.value && body[8..] == field;
    } else {
      assert body == [Identifier(o)] + field;
      assert body[1..] == field && body[1] == field[0];
    }
  }

  /**
   * Every encoded position is parsed back, except the compressed ones with symbol code `}`: with its
   * messaging flag, its timestamp text, its symbol and its position, as a weather report exactly when
   * the symbol is the weather station's.
   */
  lemma EncodedPositionsParse(leaves: Leaves, acceptBrokenMicE: bool, destination: string,
                              s: Station, o: Options, scale: real -> int)
    requires CanEncode(s, o)
    ensures EncodePosition(s, o, scale).Ok? && EncodePosition(s, o, scale).value != ""
    ensures var out := BodyOutcome(leaves, acceptBrokenMicE, BLANK, destination, EncodePosition(s, o, scale).value);
            && (out.error.None? <==> !(o.compressed && Code(s) == '}'))
            && (out.error.None? ==>
                  var g := out.fields;
                  && ShowsStation(g, s, o, scale)
                  && g.packetType == Some(if Code(s) == '_' then WeatherType else Location)
                  && g.messaging == Some(o.messaging)
                  && g.rawTimestamp == o.timestamp
                  && g.timestamp == if o.timestamp.Some? then TimestampOf(leaves.now, o.timestamp.value) else None)
  {
    hide BodyOutcome, PositionOutcome, PositionField, IsEncodable, ShowsStation, TimestampOf, EncodePosition;
    BodyOfPosition(leaves, acceptBrokenMicE, destination, s, o, scale);
    FieldShows(PositionStart(leaves, o), s, o, scale);
    var out := BodyOutcome(leaves, acceptBrokenMicE, BLANK, destination, EncodePosition(s, o, scale).value);
    if out.error.None? { ShowsCode(out.fields, s, o, scale); }
  }

  /** What the encoder accepts. */
  predicate CanEncode(s: Station, o: Options) {
    IsEncodable(s, o) && (o.timestamp.Some? ==> IsTimestampText(o.timestamp.value))
  }

  lemma EncodesExactly(s: Station, o: Options, scale: real -> int)
    ensures EncodePosition(s, o, scale).Ok? <==> CanEncode(s, o)
  {
    hide PositionField;
  }

  lemma ShowsCode(g: Fields, s: Station, o: Options, scale: real -> int)
    requires IsEncodable(s, o) && ShowsStation(g, s, o, scale)
    ensures g.code == Some(Code(s))
  {
  }

  // ---- Objects ---------------------------------------------------------------------------

  predicate IsObjectName(name: string) {
    1 <= |name| <= 9 && forall c :: c in name ==> ' ' <= c <= '~'
  }

  function EncodeObject(name: string, alive: bool, seconds: int, s: Station, o: Options, scale: real -> int)
      : Result<string, EncodeError>
  {
    if !IsObjectName(name) then Err(BadName)
    else
      match EncodePosition(s, o.(timestamp := None, messaging := false), scale)
      case Err(e) => Err(e)
      case Ok(position) =>
        Ok(";" + Msg.Pad(name, 9) + [if alive then '*' else '_']
           + Ts.EncodeTimestamp(seconds, Ts.DayHourMinute) + position[1..])
  }

  lemma PaddedName(name: string)
    ensures TrimEnd(Msg.Pad(name, 9)) == TrimEnd(name)
  {
    var r := Msg.Pad(name, 9);
    assert r == name + r[|name|..];
    TrimEndSpaces(name, r[|name|..]);
  }

  /** The minute that reads as the marker of permanent objects: 11:11 on an 11th. */
  predicate IsPermanentMinute(seconds: int) {
    var at := Ts.CurrentUtc(seconds);
    at.day == 11 && at.hour == 11 && at.minute == 11
  }

  lemma PermanentMinute(seconds: int)
    ensures Ts.EncodeTimestamp(seconds, Ts.DayHourMinute) == PERMANENT <==> IsPermanentMinute(seconds)
  {
    hide Calendar.CivilFromDays;
    Ts.ClockRange(seconds);
    var at := Ts.CurrentUtc(seconds);
    ElevenText(at.day);
    ElevenText(at.hour);
    ElevenText(at.minute);
    var text := Ts.EncodeTimestamp(seconds, Ts.DayHourMinute);
    assert text == Ts.TwoDigits(at.day) + Ts.TwoDigits(at.hour) + Ts.TwoDigits(at.minute) + "z";
    assert text[..2] == Ts.TwoDigits(at.day) && text[2..4] == Ts.TwoDigits(at.hour) && text[4..6] == Ts.TwoDigits(at.minute);
  }

  lemma ElevenText(n: int)
    requires 0 <= n <= 99
    ensures Ts.TwoDigits(n) == "11" <==> n == 11
  {
  }

  /**
   * Every encoded object is parsed back, except the compressed ones with symbol code `}`: its name
   * without trailing white space, its state and its station. Its time comes back on any clock up to 26
   * days ahead, unless it is 11:11 on an 11th, which reads as no time at all.
   */
  lemma EncodedObjectsParse(leaves: Leaves, acceptBrokenMicE: bool, destination: string, name: string, alive: bool,
                            seconds: int, now: int, s: Station, o: Options, scale: real -> int)
    requires IsObjectName(name) && IsEncodable(s, o.(timestamp := None, messaging := false))
    ensures EncodeObject(name, alive, seconds, s, o, scale).Ok?
    ensures EncodeObject(name, alive, seconds, s, o, scale).value != ""
    ensures var out := BodyOutcome(leaves.(now := Ts.CurrentUtc(now)), acceptBrokenMicE, BLANK, destination,
                                   EncodeObject(name, alive, seconds, s, o, scale).value);
            && (out.error.None? <==> !(o.compressed && Code(s) == '}'))
            && (out.error.None? ==>
                  var g := out.fields;
                  && ShowsStation(g, s, o.(timestamp := None, messaging := false), scale)
                  && g.packetType == Some(Object)
                  && g.objectName == Some(TrimEnd(name)) && g.alive == Some(alive)
                  && g.rawTimestamp == Some(Ts.EncodeTimestamp(seconds, Ts.DayHourMinute))
                  && (0 <= Ts.DayOf(now) - Ts.DayOf(seconds) <= 26 ==>
                        g.timestamp == if IsPermanentMinute(seconds) then None
                                       else Some(Ts.CurrentUtc(seconds).(second := 0))))
  {
    hide BodyOutcome, PositionOutcome, PositionField, IsEncodable, Ts.EncodeTimestamp, Ts.CurrentUtc, TrimEnd, Msg.Pad,
      IsPermanentMinute, IsObjectName, ShowsStation, Ts.ParseTimestamp;
    var p := o.(timestamp := None, messaging := false);
    EncodesExactly(s, p, scale);
    var field, raw := PositionField(s, p, scale), Ts.EncodeTimestamp(seconds, Ts.DayHourMinute);
    var body := EncodeObject(name, alive, seconds, s, o, scale).value;
    FieldFront(s, p, scale);
    assert EncodePosition(s, p, scale).value[1..] == field;
    assert |Msg.Pad(name, 9)| == 9 by { NameFits(name); }
    assert body == ";" + Msg.Pad(name, 9) + [if alive then '*' else '_'] + raw + field;
    assert body[1..10] == Msg.Pad(name, 9) && body[11..18] == raw && body[18..] == field;
    var clock := leaves.(now := Ts.CurrentUtc(now));
    ObjectBodies(clock, acceptBrokenMicE, destination, body);
    PaddedName(name);
    PermanentMinute(seconds);
    var named := BLANK.(packetType := Some(Object), objectName := Some(TrimEnd(name)), alive := Some(alive),
                        rawTimestamp := Some(raw),
                        timestamp := if raw == PERMANENT then None else TimestampOf(clock.now, raw));
    FieldShows(named, s, p, scale);
    if 0 <= Ts.DayOf(now) - Ts.DayOf(seconds) <= 26 { Ts.RecoveryWindow(seconds, now); }
    TypeIsApart(PositionOutcome(named, field).fields, s, p, scale);
  }

  lemma ObjectBodies(leaves: Leaves, acceptBrokenMicE: bool, destination: string, body: string)
    requires body != "" && body[0] == ';'
    ensures BodyOutcome(leaves, acceptBrokenMicE, BLANK, destination, body) == ObjectOutcome(leaves, BLANK, body)
  {
    hide ObjectOutcome;
  }

  lemma NameFits(name: string)
    requires IsObjectName(name)
    ensures |name| <= 9
  {
  }

  /** The packet type is no part of the station shown. */
  lemma TypeIsApart(g: Fields, s: Station, o: Options, scale: real -> int)
    requires IsEncodable(s, o)
    ensures ShowsStation(g.(packetType := Some(Object)), s, o, scale) == ShowsStation(g, s, o, scale)
  {
    hide IsEncodable, IsNear, WireCourse, WireSpeed, FeetText;
  }

  // ---- What is encoded -------------------------------------------------------------------

  predicate IsSymbol(symbol: string) {
    symbol == "" || (|symbol| == 2
                     && (symbol[0] in {'/', '\\'} || 'A' <= symbol[0] <= 'Z' || 'a' <= symbol[0] <= 'z' || '0' <= symbol[0] <= '9')
                     && (33 <= symbol[1] as int <= 123 || symbol[1] == '}'))
  }

  /** Exactly which positions are encoded, and the symbol they are given. */
  lemma EncodesPositionExactly(s: Station, o: Options, scale: real -> int)
    ensures EncodePosition(s, o, scale).Ok? <==>
            && -89.99999 <= s.latitude <= 89.99999 && -179.99999 <= s.longitude <= 179.99999
            && IsSymbol(s.symbol) && o.ambiguity <= 4 && (o.compressed ==> o.ambiguity == 0 && !o.dao)
            && (o.timestamp.Some? ==> |o.timestamp.value| == 7
                                      && forall k :: 0 <= k < 7 ==> o.timestamp.value[k] as int < 128)
    ensures EncodePosition(s, o, scale).Ok? ==>
              && |SymbolOf(s)| == 2
              && [Table(s), Code(s)] == if s.symbol == "" then "//" else s.symbol
  {
    hide PositionField;
    EncodesExactly(s, o, scale);
    if o.timestamp.Some? && IsTimestampText(o.timestamp.value) {
      assert forall k :: 0 <= k < 7 ==> o.timestamp.value[k] in o.timestamp.value;
    }
  }

  /** Objects have a name of one to nine printable characters; their messaging flag and timestamp option count for nothing. */
  lemma EncodesObjectExactly(name: string, alive: bool, seconds: int, s: Station, o: Options, scale: real -> int)
    ensures EncodeObject(name, alive, seconds, s, o, scale).Ok? <==>
            && 1 <= |name| <= 9 && (forall k :: 0 <= k < |name| ==> 32 <= name[k] as int <= 126)
            && -89.99999 <= s.latitude <= 89.99999 && -179.99999 <= s.longitude <= 179.99999
            && IsSymbol(s.symbol) && o.ambiguity <= 4 && (o.compressed ==> o.ambiguity == 0 && !o.dao)
  {
    hide EncodePosition, IsSymbol;
    var p := o.(timestamp := None, messaging := false);
    EncodesPositionExactly(s, p, scale);
    assert IsObjectName(name) <==> 1 <= |name| <= 9 && (forall k :: 0 <= k < |name| ==> 32 <= name[k] as int <= 126)
      by { NamesExactly(name); }
    if EncodePosition(s, p, scale).Ok? { NotEmpty(s, p, scale); }
  }

  lemma NamesExactly(name: string)
    ensures IsObjectName(name) <==> 1 <= |name| <= 9 && (forall k :: 0 <= k < |name| ==> 32 <= name[k] as int <= 126)
  {
    if IsObjectName(name) { assert forall k :: 0 <= k < |name| ==> name[k] in name; }
  }

  lemma NotEmpty(s: Station, o: Options, scale: real -> int)
    requires EncodePosition(s, o, scale).Ok?
    ensures EncodePosition(s, o, scale).value != ""
  {
    hide PositionField;
  }

  /** A compressed motion is sent for a speed and a course above zero, its exponent kept between 0 and 89. */
  lemma MotionExactly(s: Station, scale: real -> int)
    ensures var motion := MotionOf(s, scale);
            && (motion.Some? <==> s.knots.Some? && s.course.Some? && s.knots.value >= 0.0 && 0.0 < s.course.value <= 360.0)
            && (motion.Some? ==>
                  var x, e := scale(s.knots.value), motion.value.speedExponent;
                  && motion.value.course == s.course.value && e <= 89
                  && (x == e || (x < 0 && e == 0) || (x > 89 && e == 89)))
  {
  }

  // ---- Messages --------------------------------------------------------------------------

  /** An encoded message of a surviving shape becomes that message, and a metadata message by its text alone. */
  lemma EncodedMessagesParse(leaves: Leaves, acceptBrokenMicE: bool, destination: string, m: Msg.Message)
    requires Msg.EncodeMessage(m).Ok? && Msg.Survives(m)
    ensures var body := Msg.EncodeMessage(m).value;
            && body != ""
            && BodyOutcome(leaves, acceptBrokenMicE, BLANK, destination, body) ==
               Done(BLANK.(message := Some(m),
                           packetType := Some(if Msg.IsTelemetryText(m.text) then TelemetryMessage else MessageType)))
  {
    hide Msg.ParseMessage, Msg.Survives, Msg.IsTelemetryText, Msg.Pad, Msg.Content;
    Msg.RoundTripExactly(m);
  }

  /** The encoder puts no bound on altitudes: above 999,999 feet the wrong height is read, and a digit stays behind. */
  lemma AltitudesAboveAMillionFeet(comment: string) returns (feet: real)
    ensures !FitsAltitude(feet)
    ensures TakeAltitude("/A=" + FeetText(feet) + comment) == (Some("100000"), "0" + comment)
  {
    feet := 1_000_000.0;
    assert RoundEven(feet) == 1_000_000;
    Million();
    var text := FeetText(feet);
    assert text == "1000000" && text[..6] == "100000" && text[6..] == "0";
    AltitudeAtFront(feet, comment);
    FitsExactly(feet);
  }

  lemma Million()
    ensures Padded(1_000_000, 6) == "1000000"
  {
    assert Pow10(6) == 1_000_000;
    assert Decimal(1) == "1";
    assert Decimal(10) == "10";
    assert Decimal(100) == "100";
    assert Decimal(1_000) == "1000";
    assert Decimal(10_000) == "10000";
    assert Decimal(100_000) == "100000";
    assert Decimal(1_000_000) == "1000000";
  }

  // ---- Weather reports -------------------------------------------------------------------

  /** A position of which a weather report is all that follows. */
  predicate CarriesReport(s: Station, o: Options, r: Wr.Readings, comment: string) {
    && CanEncode(s, o) && Code(s) == '_' && Wr.AreReadings(r)
    && (o.compressed || (!HasMotion(s) && !UsesDao(o))) && s.feet.None?
    && o.comment == Wr.ReportText(r, comment)
  }

  lemma WeatherIsRead(f: Fields, s: Station, o: Options, scale: real -> int)
    requires CanEncode(s, o) && Code(s) == '_' && (o.compressed || (!HasMotion(s) && !UsesDao(o))) && s.feet.None?
    ensures var out := PositionOutcome(f, PositionField(s, o, scale));
            && out.error.None? && out.fields.packetType == Some(WeatherType)
            && out.fields.weather == Some(Wx.WeatherOf(o.comment).0)
  {
    hide Wx.WeatherOf, ParseUncompressed, Cx.ParseCompressed, PositionText, Cx.CompressedText, IsEncodable, InRange,
      ParseInlineTelemetry, TextOrNone, MotionText, DaoText, MotionOf, Cx.IsMotionExtension, Cx.IsMotion, Whole, Middle,
      Hundredths, Resolution, Cx.WithinTwoDegrees, SignedAngle, WithExtension;
    EncodableParts(s, o);
    var text := PositionField(s, o, scale);
    if o.compressed {
      var rest := AltitudeText(s.feet) + o.comment;
      assert rest == o.comment;
      LetterInFront(s, MotionOf(s, scale), rest);
      Cx.CompressedDecodes(s.latitude, s.longitude, Table(s), Code(s), MotionOf(s, scale), rest);
    } else {
      NoMotionText(s);
      assert Tail(s, o) == o.comment;
      PositionDecodes(s.latitude, s.longitude, UsesDao(o), o.ambiguity, Table(s), Code(s), Tail(s, o));
      DigitInFront(s, o, Tail(s, o));
    }
  }

  /** A standard weather report behind an encoded position is read through the whole body parser, under any comment. */
  lemma WeatherReportsParse(leaves: Leaves, acceptBrokenMicE: bool, destination: string, s: Station, o: Options,
                            scale: real -> int, r: Wr.Readings, comment: string)
    requires CarriesReport(s, o, r, comment)
    ensures EncodePosition(s, o, scale).Ok? && EncodePosition(s, o, scale).value != ""
    ensures var out := BodyOutcome(leaves, acceptBrokenMicE, BLANK, destination, EncodePosition(s, o, scale).value);
            && out.error.None? && out.fields.packetType == Some(WeatherType)
            && out.fields.weather.Some? && Wr.Shows(out.fields.weather.value, r)
  {
    hide BodyOutcome, PositionOutcome, PositionField, Wx.WeatherOf, Wr.ReportText, Wr.Shows, Wr.AreReadings, IsEncodable,
      TimestampOf, EncodePosition, Wr.CommentScan, Wr.PositionlessText;
    EncodesExactly(s, o, scale);
    BodyOfPosition(leaves, acceptBrokenMicE, destination, s, o, scale);
    WeatherIsRead(PositionStart(leaves, o), s, o, scale);
    Wr.StandardReport(r, comment);
  }

  lemma WeatherBodies(leaves: Leaves, acceptBrokenMicE: bool, destination: string, body: string)
    requires |body| >= 9 && body[0] == '_'
    ensures BodyOutcome(leaves, acceptBrokenMicE, BLANK, destination, body) == WeatherOutcome(BLANK, body[9..])
  {
    hide WeatherOutcome;
  }

  /** A standard report without a position, behind any eight characters of time. */
  lemma PositionlessReportsParse(leaves: Leaves, acceptBrokenMicE: bool, destination: string, time: string,
                                 r: Wr.Readings, comment: string)
    requires |time| == 8 && Wr.AreReadings(r)
    ensures var out := BodyOutcome(leaves, acceptBrokenMicE, BLANK, destination,
                                   "_" + time + Wr.PositionlessText(r, comment));
            && out.error.None? && out.fields.packetType == Some(WeatherType)
            && out.fields.weather.Some? && Wr.Shows(out.fields.weather.value, r)
  {
    hide BodyOutcome, Wx.WeatherOf, Wr.ReportText, Wr.Shows, Wr.AreReadings, Wr.CommentScan, Wr.PositionlessText,
      TextOrNone;
    var data := Wr.PositionlessText(r, comment);
    var body := "_" + time + data;
    assert body[0] == '_' && body[9..] == data;
    WeatherBodies(leaves, acceptBrokenMicE, destination, body);
    Wr.StandardReport(r, comment);
  }

  lemma LogarithmicShown(g: Fields, s: Station, o: Options, scale: real -> int)
    requires IsEncodable(s, o) && o.compressed && ShowsStation(g, s, o, scale)
    ensures |SymbolOf(s)| == 2 && ShowsLogarithmic(g, s, o, scale)
  {
  }

  /** A comment that takes over: 90 degrees are sent, and 123 are read. */
  lemma CommentTakesOver(leaves: Leaves, destination: string, scale: real -> int) returns (s: Station, o: Options)
    ensures CanEncode(s, o) && MotionOf(s, scale).Some? && s.course == Some(90.0)
    ensures EncodePosition(s, o, scale).Ok? && EncodePosition(s, o, scale).value != ""
    ensures var out := BodyOutcome(leaves, false, BLANK, destination, EncodePosition(s, o, scale).value);
            && out.error.None? && !IsMotionShown(out.fields, MotionOf(s, scale).value)
            && out.fields.course == Some(Number(123)) && out.fields.speed == Some(Written("456"))
  {
    hide BodyOutcome, CourseIn, ShowsStation, IsMotionShown, FloatValue;
    s := Station(0.0, 0.0, Some(10.0), Some(90.0), None, "");
    o := Options(0, true, false, None, false, "123/456");
    assert SymbolOf(s) == "//";
    assert IsEncodable(s, o);
    EncodedPositionsParse(leaves, false, destination, s, o, scale);
    LogarithmicShown(BodyOutcome(leaves, false, BLANK, destination, EncodePosition(s, o, scale).value).fields, s, o, scale);
    assert AltitudeText(s.feet) + o.comment == "123" + "/" + "456" + "";
    assert CommentMotion(s, o) == Some(("123", "456")) by { CourseInFront("123", "456"); }
    CourseOf123();
  }

  /** The number of a course text of three characters. */
  function CourseSaid(text: string): (n: int)
  {
    if |text| == 3 && forall k :: 0 <= k < 3 ==> '0' <= text[k] <= '9' then
      var n := 100 * (text[0] as int - 48) + 10 * (text[1] as int - 48) + (text[2] as int - 48);
      if n <= 360 then n else 0
    else 0
  }

  lemma CourseIsSaid(text: string)
    requires |text| == 3
    ensures CourseNumber(text) == CourseSaid(text)
  {
    if AllDigits(text) {
      assert text[..2][..1] == text[..1] && text[..1][..0] == "";
      assert NumberOf(text[..1]) == text[0] as int - 48;
      assert NumberOf(text[..2]) == 10 * (text[0] as int - 48) + (text[1] as int - 48);
    }
  }

  lemma DigitBehind(n: nat, d: nat, width: nat)
    requires d <= 9
    ensures Digits(10 * n + d, width + 1) == Digits(n, width) + [DigitChar(d)]
  {
    assert (10 * n + d) / 10 == n && (10 * n + d) % 10 == d;
  }

  lemma DigitsOf(a: nat, b: nat, c: nat)
    requires a <= 9 && b <= 9 && c <= 9
    ensures Digits(10 * (10 * a + b) + c, 3) == [DigitChar(a), DigitChar(b), DigitChar(c)]
  {
    hide Digits, DigitChar;
    DigitBehind(0, a, 0);
    DigitBehind(a, b, 1);
    DigitBehind(10 * a + b, c, 2);
  }

  lemma CourseOf123()
    ensures CourseNumber("123") == 123 && SpeedReading("456") == Some(Written("456"))
  {
    hide CourseNumber, IsFloat;
    DigitsOf(1, 2, 3);
    CourseIsRead(123);
    DigitsAreFloat("456");
  }

  /** A comment that says the same: 88 degrees and no speed, sent and written alike. */
  lemma SameMotionIsShown(leaves: Leaves, destination: string, scale: real -> int) returns (s: Station, o: Options)
    requires scale(0.0) <= 0
    ensures CanEncode(s, o) && MotionOf(s, scale).Some? && CommentMotion(s, o).Some?
    ensures EncodePosition(s, o, scale).Ok? && EncodePosition(s, o, scale).value != ""
    ensures var out := BodyOutcome(leaves, false, BLANK, destination, EncodePosition(s, o, scale).value);
            out.error.None? && IsMotionShown(out.fields, MotionOf(s, scale).value)
  {
    hide BodyOutcome, ShowsStation, IsMotionShown, CanEncode, EncodePosition, MotionOf, CommentMotion, SaysMotion,
      ShowsLogarithmic;
    s := Station(0.0, 0.0, Some(0.0), Some(88.0), None, "");
    o := Options(0, true, false, None, false, "088/000");
    StandsStill(s, o, scale);
    EncodedPositionsParse(leaves, false, destination, s, o, scale);
    var g := BodyOutcome(leaves, false, BLANK, destination, EncodePosition(s, o, scale).value).fields;
    LogarithmicShown(g, s, o, scale);
    SaidIsShown(g, s, o, scale);
  }

  lemma StandsStill(s: Station, o: Options, scale: real -> int)
    requires scale(0.0) <= 0
    requires s == Station(0.0, 0.0, Some(0.0), Some(88.0), None, "") && o == Options(0, true, false, None, false, "088/000")
    ensures CanEncode(s, o) && IsEncodable(s, o) && Code(s) != '}' && MotionOf(s, scale).Some?
    ensures CommentMotion(s, o).Some? && SaysMotion(CommentMotion(s, o).value, MotionOf(s, scale).value)
  {
    hide CourseIn, FloatValue, CourseNumber;
    assert SymbolOf(s) == "//";
    assert AltitudeText(s.feet) + o.comment == "088" + "/" + "000" + "";
    assert CommentMotion(s, o) == Some(("088", "000")) by { CourseInFront("088", "000"); }
    CourseOf088();
  }

  lemma SaidIsShown(g: Fields, s: Station, o: Options, scale: real -> int)
    requires |SymbolOf(s)| == 2 && ShowsLogarithmic(g, s, o, scale) && MotionOf(s, scale).Some?
    requires CommentMotion(s, o).Some? && SaysMotion(CommentMotion(s, o).value, MotionOf(s, scale).value)
    ensures IsMotionShown(g, MotionOf(s, scale).value)
  {
    hide IsMotionShown, SaysMotion, MotionOf, CommentMotion;
  }

  lemma CourseOf088()
    ensures CourseNumber("088") == 88 && FloatValue("000") == Some(0.0)
  {
    hide CourseNumber, FloatValue;
    DigitsOf(0, 8, 8);
    CourseIsRead(88);
    DigitsOf(0, 0, 0);
    ThreeDigitsAreFloat(0);
  }

  lemma CourseInFront(course: string, speed: string)
    requires |course| == |speed| == 3 && AllDigits(course) && AllDigits(speed)
    ensures CourseIn(course + "/" + speed + "").0 == Some((course, speed))
  {
    hide TakePhg, TakeRange, TakeCourse;
    MotionAtFront(course, speed, "");
  }
}
