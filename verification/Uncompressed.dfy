/**
 * Uncompressed positions: `encoded_coordinate` and `apply_ambiguity` (src/encode.rs), `coordinate`
 * and `parse_uncompressed` (src/position.rs).
 *
 * Angles are exact reals with a separate sign, because the decoder relies on the sign of zero.
 */
module Uncompressed {
  import opened Text
  import opened Chars
  import opened Numbers

  /** Decimal degrees as the decoder holds them: magnitude and sign bit. */
  datatype Angle = Angle(magnitude: real, negative: bool)

  datatype Error = Short | Malformed | BadAmbiguity | BadSymbolTable

  // ---- Encoding --------------------------------------------------------------------------

  /** Nearest integer, halves upward, of a value that is not negative. */
  function Round(x: real): (n: int)
    requires x >= 0.0
    ensures n >= 0 && n as real - 0.5 <= x < n as real + 0.5
  {
    (x + 0.5).Floor
  }

  function Whole(value: real): (n: int)
    ensures n >= 0 && n as real <= Abs(value) < n as real + 1.0
  {
    Abs(value).Floor
  }

  function Minutes(value: real): (m: real)
    ensures 0.0 <= m < 60.0
  {
    (Abs(value) - Whole(value) as real) * 60.0
  }

  /** Minutes in units of 0.0001, rounded to 0.01 unless the DAO digits are wanted. */
  function Scaled(value: real, dao: bool): (n: int)
    ensures 0 <= n <= 599_999
  {
    var scaled := if dao then Round(Minutes(value) * 10_000.0) else Round(Minutes(value) * 100.0) * 100;
    if scaled < 599_999 then scaled else 599_999
  }

  /** The coordinate without its hemisphere, and the two digits past its last one. */
  function EncodedCoordinate(value: real, degrees: nat, dao: bool): (string, int) {
    var scaled := Scaled(value, dao);
    var digits := Digits(scaled, 6);
    (Digits(Whole(value), degrees) + digits[..2] + "." + digits[2..4], scaled % 100)
  }

  /** `s` with its last `n` digits replaced by spaces. */
  function BlankDigits(s: string, n: nat): (r: string)
    ensures |r| == |s|
  {
    if s == "" || n == 0 then s
    else if IsDigitChar(s[|s| - 1]) then BlankDigits(s[..|s| - 1], n - 1) + " "
    else BlankDigits(s[..|s| - 1], n) + [s[|s| - 1]]
  }

  method ApplyAmbiguity(coordinate: string, ambiguity: nat) returns (r: string)
    ensures r == BlankDigits(coordinate, ambiguity)
  {
    var bytes := coordinate;
    var left := ambiguity;
    var index := |bytes|;
    assert bytes[..index] == coordinate && bytes[index..] == "";
    while index > 0
      invariant 0 <= index <= |bytes| == |coordinate|
      invariant bytes[..index] == coordinate[..index]
      invariant BlankDigits(coordinate[..index], left) + bytes[index..] == BlankDigits(coordinate, ambiguity)
    {
      index := index - 1;
      ghost var front, last := coordinate[..index + 1], coordinate[index];
      assert front[..index] == coordinate[..index] && front[index] == last;
      ghost var after := bytes[index + 1..];
      if left > 0 && IsDigitChar(bytes[index]) {
        bytes := bytes[index := ' '];
        left := left - 1;
        assert bytes[index..] == " " + after;
      } else {
        assert bytes[index..] == [last] + after;
        if left == 0 { assert BlankDigits(front, 0) == coordinate[..index] + [last]; }
      }
    }
    return bytes;
  }

  /** One coordinate as it goes on the wire, hemisphere included. */
  function CoordinateText(value: real, degrees: nat, dao: bool, ambiguity: nat,
                          positive: char, negative: char): string
  {
    BlankDigits(EncodedCoordinate(value, degrees, dao).0, ambiguity)
    + [if value < 0.0 then negative else positive]
  }

  function LatitudeText(latitude: real, dao: bool, ambiguity: nat): string {
    CoordinateText(latitude, 2, dao, ambiguity, 'N', 'S')
  }

  function LongitudeText(longitude: real, dao: bool, ambiguity: nat): string {
    CoordinateText(longitude, 3, dao, ambiguity, 'E', 'W')
  }

  // ---- Decoding --------------------------------------------------------------------------

  predicate IsMinuteChar(c: char) { IsDigitChar(c) || c == ' ' }

  function TrailingSpaces(s: string): (n: nat)
    ensures n <= |s|
    ensures n < |s| ==> s[|s| - 1 - n] != ' '
    ensures forall k :: |s| - n <= k < |s| ==> s[k] == ' '
  {
    if s != "" && s[|s| - 1] == ' ' then 1 + TrailingSpaces(s[..|s| - 1]) else 0
  }

  /** The minute digits with the ambiguous ones set to the middle of their range. */
  function Centered(compact: string, ambiguity: nat): (r: string)
    requires |compact| == 4 && ambiguity <= 4
    ensures |r| == 4
  {
    if ambiguity == 0 then compact
    else if ambiguity == 1 then compact[..3] + "5"
    else if ambiguity == 2 then compact[..2] + "50"
    else if ambiguity == 3 then compact[..1] + "500"
    else "3000"
  }

  /** A value as an angle, turned around in the negative hemisphere. */
  function Directed(value: real, flipped: bool): Angle {
    Angle(Abs(value), (value < 0.0) != flipped)
  }

  /** Degrees from the text of one coordinate, and how many digits of it were blank. */
  function Coordinate(value: string, degreeDigits: nat, positive: char, negative: char,
                      forced: Option<nat>): Result<(Angle, nat), Error>
  {
    var expected := degreeDigits + 6;
    if |value| != expected || value[degreeDigits + 2] != '.' then Err(Malformed)
    else
      var hemisphere := UpperChar(value[expected - 1]);
      var degrees := FloatValue(value[..degreeDigits]);
      var limit := if degreeDigits == 2 then 89.0 else 179.0;
      var minutes := value[degreeDigits..expected - 1];
      if hemisphere != positive && hemisphere != negative then Err(Malformed)
      else if degrees.None? || degrees.value > limit then Err(Malformed)
      else if !(('0' <= minutes[0] <= '7') || minutes[0] == ' ') || !IsMinuteChar(minutes[1])
           || !IsMinuteChar(minutes[3]) || !IsMinuteChar(minutes[4]) then Err(Malformed)
      else
        var compact := [minutes[0], minutes[1], minutes[3], minutes[4]];
        var natural := TrailingSpaces(compact);
        if ' ' in compact[..4 - natural] then Err(BadAmbiguity)
        else
          var ambiguity := if forced.Some? then forced.value else natural;
          var significant := if ambiguity <= 4 then 4 - ambiguity else 0;
          if ' ' in compact[..significant] || ambiguity > 4 then Err(BadAmbiguity)
          else
            var centered := Centered(compact, ambiguity);
            CenteredDigits(compact, ambiguity);
            Ok((Directed(degrees.value + NumberOf(centered) as real / 6000.0, hemisphere == negative), ambiguity))
  }

  lemma CenteredDigits(compact: string, ambiguity: nat)
    requires |compact| == 4 && ambiguity <= 4
    requires forall k :: 0 <= k < 4 ==> IsMinuteChar(compact[k])
    requires ' ' !in compact[..4 - ambiguity]
    ensures AllDigits(Centered(compact, ambiguity))
  {
    var front := compact[..4 - ambiguity];
    assert forall k :: 0 <= k < |front| ==> front[k] in front && front[k] == compact[k];
  }

  /** A decoded position report, before its comment is read. */
  datatype Position = Position(latitude: Angle, longitude: Angle, ambiguity: nat, resolution: real,
                               table: char, code: char, comment: string)

  /** Reported resolution in metres. */
  function Resolution(ambiguity: nat): real {
    if ambiguity == 0 then 18.52
    else if ambiguity == 1 then 185.2
    else if ambiguity == 2 then 1_852.0
    else if ambiguity == 3 then 18_520.0
    else 111_120.0
  }

  predicate IsSymbolTable(c: char) {
    c == '/' || c == '\\' || IsAlphanumericChar(c)
  }

  function ParseUncompressed(body: string): Result<Position, Error> {
    if |body| < 19 then Err(Short)
    else
      match Coordinate(body[..8], 2, 'N', 'S', None)
      case Err(e) => Err(e)
      case Ok((latitude, ambiguity)) =>
        match Coordinate(body[9..18], 3, 'E', 'W', Some(ambiguity))
        case Err(e) => Err(e)
        case Ok((longitude, _)) =>
          if !IsSymbolTable(body[8]) then Err(BadSymbolTable)
          else Ok(Position(latitude, longitude, ambiguity, Resolution(ambiguity), body[8], body[18], body[19..]))
  }

  // ---- What the digits of an encoded coordinate are --------------------------------------

  /** Minutes in hundredths as they are written. */
  function Hundredths(value: real, dao: bool): (m: int)
    ensures 0 <= m <= 5999
  {
    Scaled(value, dao) / 100
  }

  /** The four minute digits with the last `k` blank. */
  function MinuteChars(m: int, k: nat): (s: string)
    requires 0 <= m <= 7999 && k <= 4
    ensures |s| == 4
  {
    [if k < 4 then DigitChar(m / 1000) else ' ',
     if k < 3 then DigitChar(m / 100 % 10) else ' ',
     if k < 2 then DigitChar(m / 10 % 10) else ' ',
     if k < 1 then DigitChar(m % 10) else ' ']
  }

  /** Hundredths of a minute that blanked digits decode to. */
  function Middle(m: int, k: nat): (r: int) {
    if k == 0 then m
    else if k == 1 then m / 10 * 10 + 5
    else if k == 2 then m / 100 * 100 + 50
    else if k == 3 then m / 1000 * 1000 + 500
    else 3000
  }

  lemma SixDigits(n: nat)
    requires n <= 599_999
    ensures var m := n / 100;
            var d := Digits(n, 6);
            && d[..2] == [DigitChar(m / 1000), DigitChar(m / 100 % 10)]
            && d[2..4] == [DigitChar(m / 10 % 10), DigitChar(m % 10)]
  {
    var m := n / 100;
    assert n / 10 / 10 == m;
    assert m / 10 / 10 == m / 100 && m / 10 / 10 / 10 == m / 1000 && m / 1000 < 10;
    assert m / 1000 % 10 == m / 1000;
    var d5, d4, d3, d2, d1 := Digits(n / 10, 5), Digits(m, 4), Digits(m / 10, 3), Digits(m / 100, 2), Digits(m / 1000, 1);
    assert Digits(n, 6) == d5 + [DigitChar(n % 10)];
    assert d5 == d4 + [DigitChar(n / 10 % 10)];
    assert d4 == d3 + [DigitChar(m % 10)];
    assert d3 == d2 + [DigitChar(m / 10 % 10)];
    assert d2 == d1 + [DigitChar(m / 100 % 10)];
    assert d1 == [DigitChar(m / 1000)];
  }

  /** Blanking digits leaves `degrees`, the point, and the other minute digits alone. */
  lemma BlankMinutes(degrees: string, m: int, k: nat)
    requires 0 <= m <= 7999 && k <= 4
    ensures var c, d := MinuteChars(m, 0), MinuteChars(m, k);
            BlankDigits(degrees + [c[0], c[1], '.', c[2], c[3]], k) == degrees + [d[0], d[1], '.', d[2], d[3]]
  {
    var c := MinuteChars(m, 0);
    BlankFive(degrees, c[0], c[1], c[2], c[3], k);
  }

  lemma BlankFive(s: string, a: char, b: char, c: char, d: char, k: nat)
    requires IsDigitChar(a) && IsDigitChar(b) && IsDigitChar(c) && IsDigitChar(d) && k <= 4
    ensures BlankDigits(s + [a, b, '.', c, d], k) ==
            s + [if k < 4 then a else ' ', if k < 3 then b else ' ', '.',
                 if k < 2 then c else ' ', if k < 1 then d else ' ']
  {
    hide BlankDigits;
    var s1, s2, s3, s4 := s + [a], s + [a, b], s + [a, b, '.'], s + [a, b, '.', c];
    BlankLast(s4, d, k);
    assert s + [a, b, '.', c, d] == s4 + [d];
    var k1 := if k > 0 then k - 1 else 0;
    BlankLast(s3, c, k1);
    assert s4 == s3 + [c];
    var k2 := if k1 > 0 then k1 - 1 else 0;
    BlankLast(s2, '.', k2);
    assert s3 == s2 + ['.'];
    BlankLast(s1, b, k2);
    assert s2 == s1 + [b];
    var k3 := if k2 > 0 then k2 - 1 else 0;
    BlankLast(s, a, k3);
    BlankLast(s, 'x', 0);
  }

  lemma BlankLast(s: string, c: char, k: nat)
    ensures BlankDigits(s, 0) == s
    ensures BlankDigits(s + [c], k) ==
            if k > 0 && IsDigitChar(c) then BlankDigits(s, k - 1) + " " else BlankDigits(s, k) + [c]
  {
    assert (s + [c])[..|s|] == s;
  }

  lemma {:induction false} CoordinateTextIs(value: real, degrees: nat, dao: bool, k: nat, positive: char, negative: char)
    requires k <= 4
    ensures var m := Hundredths(value, dao);
            var d := MinuteChars(m, k);
            CoordinateText(value, degrees, dao, k, positive, negative) ==
            Digits(Whole(value), degrees) + [d[0], d[1], '.', d[2], d[3]]
            + [if value < 0.0 then negative else positive]
  {
    hide BlankDigits, Scaled, MinuteChars, Digits;
    var scaled := Scaled(value, dao);
    var m := Hundredths(value, dao);
    SixDigits(scaled);
    BlankMinutes(Digits(Whole(value), degrees), m, k);
    MinuteCharsZero(m);
    var c, d := MinuteChars(m, 0), Digits(scaled, 6);
    assert Digits(Whole(value), degrees) + d[..2] + "." + d[2..4]
        == Digits(Whole(value), degrees) + [c[0], c[1], '.', c[2], c[3]];
  }

  lemma MinuteCharsZero(m: int)
    requires 0 <= m <= 7999
    ensures MinuteChars(m, 0) ==
            [DigitChar(m / 1000), DigitChar(m / 100 % 10), DigitChar(m / 10 % 10), DigitChar(m % 10)]
  {
  }

  lemma {:induction false} TrailingSpacesIs(s: string, k: nat)
    requires k <= |s| && forall i :: |s| - k <= i < |s| ==> s[i] == ' '
    requires k < |s| ==> s[|s| - 1 - k] != ' '
    ensures TrailingSpaces(s) == k
  {
    if k > 0 { TrailingSpacesIs(s[..|s| - 1], k - 1); }
  }

  lemma MinuteCharsTrailing(m: int, k: nat)
    requires 0 <= m <= 7999 && k <= 4
    ensures var s := MinuteChars(m, k);
            && TrailingSpaces(s) == k && ' ' !in s[..4 - k]
            && ('0' <= s[0] <= '7' || s[0] == ' ') && (forall i :: 0 <= i < 4 ==> IsMinuteChar(s[i]))
  {
    var s := MinuteChars(m, k);
    assert forall i :: 0 <= i < 4 - k ==> IsDigitChar(s[i]);
    assert forall i :: 4 - k <= i < 4 ==> s[i] == ' ';
    TrailingSpacesIs(s, k);
  }

  lemma NumberOfFour(s: string)
    requires |s| == 4 && AllDigits(s)
    ensures NumberOf(s) == 1000 * DigitValue(s[0]) + 100 * DigitValue(s[1]) + 10 * DigitValue(s[2]) + DigitValue(s[3])
  {
    assert s[..3][..2] == s[..2] && s[..2][..1] == s[..1] && s[..1][..0] == "";
    assert NumberOf(s[..1]) == DigitValue(s[0]);
    assert NumberOf(s[..2]) == 10 * NumberOf(s[..1]) + DigitValue(s[1]);
    assert NumberOf(s[..3]) == 10 * NumberOf(s[..2]) + DigitValue(s[2]);
  }

  /** Digits that are blank, or count as blank, stand for the middle of their range. */
  lemma CenteredNumber(m: int, k: nat, ambiguity: nat)
    requires 0 <= m <= 7999 && k <= ambiguity <= 4
    ensures AllDigits(Centered(MinuteChars(m, k), ambiguity))
    ensures NumberOf(Centered(MinuteChars(m, k), ambiguity)) == Middle(m, ambiguity)
  {
    hide NumberOf, Middle, MinuteChars, Centered, DigitValue;
    CenteredChars(m, k, ambiguity);
    var c := Centered(MinuteChars(m, k), ambiguity);
    NumberOfFour(c);
    CharValue(m / 1000); CharValue(m / 100 % 10); CharValue(m / 10 % 10); CharValue(m % 10);
    CharValue(0); CharValue(3); CharValue(5);
    MiddleParts(m, ambiguity);
  }

  lemma CharValue(n: int)
    requires 0 <= n <= 9
    ensures IsDigitChar(DigitChar(n)) && DigitValue(DigitChar(n)) == n
  {
  }

  lemma CenteredChars(m: int, k: nat, ambiguity: nat)
    requires 0 <= m <= 7999 && k <= ambiguity <= 4
    ensures Centered(MinuteChars(m, k), ambiguity) ==
            [DigitChar(if ambiguity < 4 then m / 1000 else 3),
             DigitChar(if ambiguity < 3 then m / 100 % 10 else if ambiguity == 3 then 5 else 0),
             DigitChar(if ambiguity < 2 then m / 10 % 10 else if ambiguity == 2 then 5 else 0),
             DigitChar(if ambiguity < 1 then m % 10 else if ambiguity == 1 then 5 else 0)]
  {
  }

  lemma MiddleParts(m: int, k: nat)
    requires 0 <= m <= 7999 && k <= 4
    ensures Middle(m, k) ==
            1000 * (if k < 4 then m / 1000 else 3)
            + 100 * (if k < 3 then m / 100 % 10 else if k == 3 then 5 else 0)
            + 10 * (if k < 2 then m / 10 % 10 else if k == 2 then 5 else 0)
            + (if k < 1 then m % 10 else if k == 1 then 5 else 0)
  {
    DecimalParts(m);
  }

  lemma DecimalParts(m: int)
    requires m >= 0
    ensures m / 100 == 10 * (m / 1000) + m / 100 % 10
    ensures m / 10 == 10 * (m / 100) + m / 10 % 10
  {
    assert m / 10 / 10 == m / 100 && m / 100 / 10 == m / 1000;
  }

  // ---- Encoding and decoding ------------------------------------------------------------

  /** Degrees, minutes with their last `k` digits blank, and a hemisphere. */
  function WrittenText(degrees: nat, digits: nat, m: int, k: nat, hemisphere: char): string
    requires 0 <= m <= 7999 && k <= 4
  {
    var d := MinuteChars(m, k); Digits(degrees, digits) + [d[0], d[1], '.', d[2], d[3]] + [hemisphere]
  }

  /**
   * A written coordinate is read exactly when its degrees are within the limit of the axis and it has no more
   * blank digits than it is said to have; it reads as the middle of its cell, in either case of its letter.
   */
  lemma CoordinateExactly(degrees: nat, digits: nat, m: int, k: nat, hemisphere: char,
                          positive: char, negative: char, forced: Option<nat>)
    requires (digits == 2 && degrees <= 99) || (digits == 3 && degrees <= 999)
    requires 0 <= m <= 7999 && k <= 4 && positive != negative
    ensures var ambiguity := if forced.Some? then forced.value else k;
            Coordinate(WrittenText(degrees, digits, m, k, hemisphere), digits, positive, negative, forced) ==
            if UpperChar(hemisphere) != positive && UpperChar(hemisphere) != negative then Err(Malformed)
            else if degrees > (if digits == 2 then 89 else 179) then Err(Malformed)
            else if ambiguity < k || ambiguity > 4 then Err(BadAmbiguity)
            else Ok((Angle(degrees as real + Middle(m, ambiguity) as real / 6000.0, UpperChar(hemisphere) == negative),
                     ambiguity))
  {
    hide MinuteChars, Digits, Middle, Centered, TrailingSpaces, NumberOf, AllDigits, IsMinuteChar, FloatValue, IsFloat,
      UpperChar;
    var c, degreeText := MinuteChars(m, k), Digits(degrees, digits);
    assert Pow10(2) == 100 && Pow10(3) == 1000;
    NumberOfDigits(degrees, digits);
    DigitsAreFloat(degreeText);
    MinuteCharsTrailing(m, k);
    var ambiguity := if forced.Some? then forced.value else k;
    if k <= ambiguity <= 4 { CenteredNumber(m, k, ambiguity); }
    CoordinateParts(degreeText, c, hemisphere);
    SignificantDigits(m, k, if ambiguity <= 4 then 4 - ambiguity else 0);
  }

  lemma SignificantDigits(m: int, k: nat, n: nat)
    requires 0 <= m <= 7999 && k <= 4 && n <= 4
    ensures ' ' in MinuteChars(m, k)[..n] <==> n > 4 - k
  {
    var c := MinuteChars(m, k);
    if n > 4 - k { assert c[..n][4 - k] == ' '; }
  }

  /** What an encoded coordinate decodes to, for every value and ambiguity. */
  lemma CoordinateDecodes(value: real, degrees: nat, dao: bool, k: nat,
                          positive: char, negative: char, forced: Option<nat>)
    requires (degrees == 2 && Whole(value) <= 89) || (degrees == 3 && Whole(value) <= 179)
    requires k <= 4 && IsUpperChar(positive) && IsUpperChar(negative) && positive != negative
    requires forced == None || forced == Some(k)
    ensures Coordinate(CoordinateText(value, degrees, dao, k, positive, negative),
                       degrees, positive, negative, forced)
            == Ok((Angle(Whole(value) as real + Middle(Hundredths(value, dao), k) as real / 6000.0,
                         value < 0.0), k))
  {
    hide CoordinateText, MinuteChars, Digits, Middle, Hundredths, Whole, Coordinate;
    CoordinateTextIs(value, degrees, dao, k, positive, negative);
    CoordinateExactly(Whole(value), degrees, Hundredths(value, dao), k, if value < 0.0 then negative else positive,
                      positive, negative, forced);
  }

  /** Where the parts of a coordinate stand in its text. */
  lemma CoordinateParts(degreeText: string, c: string, hemisphere: char)
    requires |c| == 4
    ensures var text := degreeText + [c[0], c[1], '.', c[2], c[3]] + [hemisphere];
            var n := |degreeText|;
            var minutes := text[n..n + 5];
            && |text| == n + 6 && text[n + 2] == '.' && text[n + 5] == hemisphere && text[..n] == degreeText
            && [minutes[0], minutes[1], minutes[3], minutes[4]] == c
  {
    var text := degreeText + [c[0], c[1], '.', c[2], c[3]] + [hemisphere];
    assert text[|degreeText|..|degreeText| + 5] == [c[0], c[1], '.', c[2], c[3]];
  }

  predicate InRange(latitude: real, longitude: real) {
    -89.99999 <= latitude <= 89.99999 && -179.99999 <= longitude <= 179.99999
  }

  /** The part of a position report from its latitude to its symbol code. */
  function PositionText(latitude: real, longitude: real, dao: bool, k: nat, table: char, code: char): string {
    LatitudeText(latitude, dao, k) + [table] + LongitudeText(longitude, dao, k) + [code]
  }

  /** Every encodable position decodes, whatever follows it. */
  lemma PositionDecodes(latitude: real, longitude: real, dao: bool, k: nat, table: char, code: char, rest: string)
    requires InRange(latitude, longitude) && k <= 4 && IsSymbolTable(table)
    ensures ParseUncompressed(PositionText(latitude, longitude, dao, k, table, code) + rest) ==
            Ok(Position(
                 Angle(Whole(latitude) as real + Middle(Hundredths(latitude, dao), k) as real / 6000.0, latitude < 0.0),
                 Angle(Whole(longitude) as real + Middle(Hundredths(longitude, dao), k) as real / 6000.0, longitude < 0.0),
                 k, Resolution(k), table, code, rest))
  {
    hide CoordinateText, Coordinate, Whole, Middle, Hundredths, Resolution;
    var lat, lon := LatitudeText(latitude, dao, k), LongitudeText(longitude, dao, k);
    WholeInRange(latitude, 89);
    WholeInRange(longitude, 179);
    CoordinateTextIs(latitude, 2, dao, k, 'N', 'S');
    CoordinateTextIs(longitude, 3, dao, k, 'E', 'W');
    CoordinateDecodes(latitude, 2, dao, k, 'N', 'S', None);
    CoordinateDecodes(longitude, 3, dao, k, 'E', 'W', Some(k));
    var body := PositionText(latitude, longitude, dao, k, table, code) + rest;
    assert body[..8] == lat && body[9..18] == lon && body[19..] == rest;
  }

  lemma WholeInRange(value: real, limit: int)
    requires Abs(value) < limit as real + 1.0
    ensures Whole(value) <= limit
  {
  }

  /** The middle of a blanked range is within half the range of any value in it. */
  lemma MiddleIsNear(m: int, k: nat)
    requires 0 <= m <= 5999 && k <= 4
    ensures var d := Middle(m, k) - m;
            var half := if k == 0 then 0 else if k == 1 then 5 else if k == 2 then 50 else if k == 3 then 500 else 3000;
            -half <= d <= half
  {
  }

  /** Written minutes are within 0.01 minute of the value, the clamp below 60 included. */
  lemma HundredthsAreNear(value: real, dao: bool)
    ensures -0.01 <= Minutes(value) - Hundredths(value, dao) as real / 100.0 <= 0.01
  {
    var minutes, scaled := Minutes(value), Scaled(value, dao);
    var m := Hundredths(value, dao);
    assert 100 * m <= scaled < 100 * m + 100;
    assert (100 * m) as real <= scaled as real < (100 * m + 100) as real;
    if dao {
      var r := Round(minutes * 10_000.0);
      if r < 599_999 { assert scaled == r; } else { assert scaled == 599_999 && m == 5999; }
    } else {
      var r := Round(minutes * 100.0);
      if r <= 5999 { assert scaled == 100 * r && m == r; } else { assert m == 5999; }
    }
  }

  /** Minutes by which two magnitudes differ. */
  function MinutesApart(a: real, b: real): real {
    Abs((a - b) * 60.0)
  }

  /**
   * Decoding an encoded position: with no ambiguity within 0.01 minute of the input, and with
   * ambiguity within half the reported resolution (a minute is 1852 metres) of that.
   */
  lemma AmbiguityIsBounded(latitude: real, longitude: real, k: nat, table: char, code: char, rest: string)
    requires InRange(latitude, longitude) && k <= 4 && IsSymbolTable(table)
    ensures var exact := ParseUncompressed(PositionText(latitude, longitude, false, 0, table, code) + rest);
            var blurred := ParseUncompressed(PositionText(latitude, longitude, false, k, table, code) + rest);
            && exact.Ok? && blurred.Ok? && blurred.value.ambiguity == k
            && exact.value.latitude.negative == blurred.value.latitude.negative == (latitude < 0.0)
            && exact.value.longitude.negative == blurred.value.longitude.negative == (longitude < 0.0)
            && MinutesApart(exact.value.latitude.magnitude, Abs(latitude)) <= 0.01
            && MinutesApart(exact.value.longitude.magnitude, Abs(longitude)) <= 0.01
            && MinutesApart(blurred.value.latitude.magnitude, exact.value.latitude.magnitude)
               <= blurred.value.resolution / 1852.0 / 2.0
            && MinutesApart(blurred.value.longitude.magnitude, exact.value.longitude.magnitude)
               <= blurred.value.resolution / 1852.0 / 2.0
  {
    hide ParseUncompressed, PositionText, Hundredths, Whole, Middle;
    PositionDecodes(latitude, longitude, false, 0, table, code, rest);
    PositionDecodes(latitude, longitude, false, k, table, code, rest);
    AxisIsBounded(latitude, k);
    AxisIsBounded(longitude, k);
  }

  lemma AxisIsBounded(value: real, k: nat)
    requires k <= 4
    ensures var m := Hundredths(value, false);
            var exact := Whole(value) as real + Middle(m, 0) as real / 6000.0;
            var blurred := Whole(value) as real + Middle(m, k) as real / 6000.0;
            && MinutesApart(exact, Abs(value)) <= 0.01
            && MinutesApart(blurred, exact) <= Resolution(k) / 1852.0 / 2.0
  {
    hide Hundredths, Whole, Middle;
    var m := Hundredths(value, false);
    HundredthsAreNear(value, false);
    MiddleIsNear(m, k);
    MiddleIsNear(m, 0);
    var exact := Whole(value) as real + Middle(m, 0) as real / 6000.0;
    assert (exact - Abs(value)) * 60.0 == m as real / 100.0 - Minutes(value);
    var blurred := Whole(value) as real + Middle(m, k) as real / 6000.0;
    assert (blurred - exact) * 60.0 == (Middle(m, k) - Middle(m, 0)) as real / 100.0;
  }

  // ---- Which texts are positions ---------------------------------------------------------

  /** The minutes of an accepted coordinate are written digits with the last ones blank. */
  lemma AcceptedMinutes(value: string, digits: nat, positive: char, negative: char, forced: Option<nat>)
      returns (m: int, k: nat)
    requires Coordinate(value, digits, positive, negative, forced).Ok?
    ensures |value| == digits + 6 && 0 <= m <= 7999 && k <= 4
    ensures var d := MinuteChars(m, k); value[digits..digits + 5] == [d[0], d[1], '.', d[2], d[3]]
  {
    hide FloatValue, Centered, TrailingSpaces;
    var minutes := value[digits..digits + 5];
    assert value[digits..digits + 6 - 1] == minutes;
    var c := [minutes[0], minutes[1], minutes[3], minutes[4]];
    k := TrailingSpaces(c);
    assert ' ' !in c[..4 - k];
    assert forall i :: 0 <= i < 4 - k ==> c[..4 - k][i] == c[i];
    assert forall i :: 0 <= i < 4 - k ==> IsDigitChar(c[i]);
    m := MinutesOf(c, k);
    assert minutes[2] == value[digits + 2] == '.';
  }

  lemma MinutesOf(c: string, k: nat) returns (m: int)
    requires |c| == 4 && k <= 4 && (k < 4 ==> c[0] <= '7')
    requires forall i :: 0 <= i < 4 ==> if i < 4 - k then IsDigitChar(c[i]) else c[i] == ' '
    ensures 0 <= m <= 7999 && MinuteChars(m, k) == c
  {
    var d0 := if k < 4 then DigitValue(c[0]) else 0;
    var d1 := if k < 3 then DigitValue(c[1]) else 0;
    var d2 := if k < 2 then DigitValue(c[2]) else 0;
    var d3 := if k < 1 then DigitValue(c[3]) else 0;
    m := FourDigits(d0, d1, d2, d3);
  }

  lemma FourDigits(d0: int, d1: int, d2: int, d3: int) returns (m: int)
    requires 0 <= d0 <= 7 && 0 <= d1 <= 9 && 0 <= d2 <= 9 && 0 <= d3 <= 9
    ensures 0 <= m <= 7999 && m / 1000 == d0 && m / 100 % 10 == d1 && m / 10 % 10 == d2 && m % 10 == d3
  {
    m := d0 * 1000 + d1 * 100 + d2 * 10 + d3;
    assert m / 100 == 10 * d0 + d1 && m / 10 == 10 * (10 * d0 + d1) + d2;
  }

  /** A written position is accepted exactly when both coordinates and the symbol table are. */
  lemma PositionExactly(latitude: nat, m: int, k: nat, ns: char, longitude: nat, n: int, j: nat, ew: char,
                        table: char, code: char, rest: string)
    requires latitude <= 99 && longitude <= 999 && 0 <= m <= 7999 && 0 <= n <= 7999 && k <= 4 && j <= 4
    ensures var parsed := ParseUncompressed(WrittenText(latitude, 2, m, k, ns) + [table]
                                            + WrittenText(longitude, 3, n, j, ew) + [code] + rest);
            && (parsed.Ok? <==>
                  && latitude <= 89 && longitude <= 179 && j <= k
                  && ns in {'N', 'S', 'n', 's'} && ew in {'E', 'W', 'e', 'w'}
                  && (table in {'/', '\\'} || 'A' <= table <= 'Z' || 'a' <= table <= 'z' || '0' <= table <= '9'))
            && (parsed.Ok? ==>
                  parsed.value == Position(Angle(latitude as real + Middle(m, k) as real / 6000.0, ns == 'S' || ns == 's'),
                                           Angle(longitude as real + Middle(n, k) as real / 6000.0, ew == 'W' || ew == 'w'),
                                           k, Resolution(k), table, code, rest))
  {
    hide Coordinate, WrittenText, Middle, Resolution;
    var lat, lon := WrittenText(latitude, 2, m, k, ns), WrittenText(longitude, 3, n, j, ew);
    assert |lat| == 8 && |lon| == 9 by { WrittenLengths(latitude, m, k, ns, longitude, n, j, ew); }
    CoordinateExactly(latitude, 2, m, k, ns, 'N', 'S', None);
    CoordinateExactly(longitude, 3, n, j, ew, 'E', 'W', Some(k));
    var body := lat + [table] + lon + [code] + rest;
    assert body[..8] == lat && body[9..18] == lon && body[19..] == rest && body[8] == table && body[18] == code;
  }

  lemma WrittenLengths(latitude: nat, m: int, k: nat, ns: char, longitude: nat, n: int, j: nat, ew: char)
    requires 0 <= m <= 7999 && 0 <= n <= 7999 && k <= 4 && j <= 4
    ensures |WrittenText(latitude, 2, m, k, ns)| == 8 && |WrittenText(longitude, 3, n, j, ew)| == 9
  {
    hide MinuteChars;
  }

  /** The resolution is the width of the cell in metres: hundredths of a minute, ten times as wide with each blank digit. */
  lemma ResolutionExactly(k: nat)
    requires k <= 4
    ensures Resolution(k) == 1852.0 * (if k == 4 then 60.0 else Pow10(k) as real / 100.0)
  {
    assert Pow10(0) == 1 && Pow10(1) == 10 && Pow10(2) == 100 && Pow10(3) == 1000;
  }
}
