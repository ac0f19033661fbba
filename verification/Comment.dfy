/**
 * Extensions in the comment of a position report: `parse_position_comment` and `parse_dao`
 * (src/position.rs), and the DAO extension of `encode_position` (src/encode.rs).
 */
module Comment {
  import opened Text
  import opened Chars
  import opened Numbers
  import opened Uncompressed
  import opened Telemetry

  // ---- The extensions, in the order they are taken ---------------------------------------

  /** Power, height and gain, with the rate digit of PHGR when a slash closes it. */
  function TakePhg(comment: string): (Option<string>, string) {
    match StripPrefix(comment, "PHG")
    case None => (None, comment)
    case Some(data) =>
      if |data| >= 4 && IsDigitChar(data[0]) && IsDigitChar(data[2]) && IsDigitChar(data[3]) then
        var length := if |data| >= 6 && IsAlphanumericChar(data[4]) && data[5] == '/' then 5 else 4;
        (Some(data[..length]), data[length..])
      else (None, comment)
  }

  function TakeRange(comment: string): (Option<string>, string) {
    match StripPrefix(comment, "RNG")
    case None => (None, comment)
    case Some(data) =>
      if |data| >= 4 && IsFloat(data[..4]) then (Some(data[..4]), data[4..]) else (None, comment)
  }

  predicate IsFieldChar(c: char) { IsDigitChar(c) || c == '.' || c == ' ' }

  /** The `ccc/sss` course and speed texts. */
  function TakeCourse(comment: string): (Option<(string, string)>, string) {
    if |comment| >= 7 && comment[3] == '/'
       && (forall k :: 0 <= k < 3 ==> IsFieldChar(comment[k]))
       && (forall k :: 4 <= k < 7 ==> IsFieldChar(comment[k]))
    then (Some((comment[..3], comment[4..7])), comment[7..])
    else (None, comment)
  }

  predicate MarksAltitude(s: string, k: int) { 0 <= k && k + 3 <= |s| && s[k..k + 3] == "/A=" }

  lemma MarksInTail(s: string)
    requires s != ""
    ensures forall k :: k > 0 ==> (MarksAltitude(s, k) <==> MarksAltitude(s[1..], k - 1))
  {
    forall k | k > 0 ensures MarksAltitude(s, k) <==> MarksAltitude(s[1..], k - 1) {
      if k + 3 <= |s| { SliceOfSuffix(s, 1, k - 1, k + 2); }
    }
  }

  /** The position of the first `/A=`, or the length when there is none. */
  function FindAltitude(comment: string): (i: nat)
    ensures i <= |comment| && (i < |comment| ==> MarksAltitude(comment, i))
    ensures forall k :: k < i ==> !MarksAltitude(comment, k)
  {
    if comment == "" then 0
    else if MarksAltitude(comment, 0) then 0
    else
      MarksInTail(comment);
      var i := FindAltitude(comment[1..]);
      if i < |comment| - 1 then i + 1 else |comment|
  }

  predicate IsAltitude(s: string) {
    |s| == 6 && (IsDigitChar(s[0]) || s[0] == '-') && forall k :: 1 <= k < 6 ==> IsDigitChar(s[k])
  }

  function TakeAltitude(comment: string): (Option<string>, string) {
    var i := FindAltitude(comment);
    if i < |comment| && |comment| >= i + 9 && IsAltitude(comment[i + 3..i + 9])
    then (Some(comment[i + 3..i + 9]), comment[..i] + comment[i + 9..])
    else (None, comment)
  }

  // ---- DAO -------------------------------------------------------------------------------

  /** Minutes to add to latitude and longitude, and the resolution they give. */
  datatype Adjustment = Adjustment(latitude: real, longitude: real, resolution: real)

  function DaoValue(s: string): Option<(char, Option<Adjustment>)>
    requires |s| == 5
  {
    if s[0] != '!' || s[4] != '!' then None
    else if IsUpperChar(s[1]) && IsDigitChar(s[2]) && IsDigitChar(s[3]) then
      Some((s[1], Some(Adjustment(DigitValue(s[2]) as real * 0.001, DigitValue(s[3]) as real * 0.001, 1.852))))
    else if IsLowerChar(s[1]) && IsBase91Char(s[2]) && IsBase91Char(s[3]) then
      Some((s[1], Some(Adjustment((s[2] as int - 33) as real / 91.0 * 0.01,
                                  (s[3] as int - 33) as real / 91.0 * 0.01, 0.1852))))
    else if IsBase91Char(s[1]) && s[2] == ' ' && s[3] == ' ' then Some((s[1], None))
    else None
  }

  predicate DaoAt(comment: string, k: int) {
    0 <= k && k + 5 <= |comment| && DaoValue(comment[k..k + 5]).Some?
  }

  lemma DaoInPrefix(comment: string)
    requires comment != ""
    ensures forall k :: DaoAt(comment[..|comment| - 1], k) <==> DaoAt(comment, k) && k != |comment| - 5
  {
    hide DaoValue;
    var shorter := comment[..|comment| - 1];
    forall k ensures DaoAt(shorter, k) <==> DaoAt(comment, k) && k != |comment| - 5 {
      if 0 <= k && k + 5 <= |shorter| { SliceOfPrefix(comment, |comment| - 1, k, k + 5); }
    }
  }

  /** The last place a DAO extension starts, or -1. */
  function LastDao(comment: string): (i: int)
    ensures i >= -1
    ensures i >= 0 ==> DaoAt(comment, i)
    ensures forall k :: i < k ==> !DaoAt(comment, k)
    decreases |comment|
  {
    if |comment| < 5 then -1
    else if DaoAt(comment, |comment| - 5) then |comment| - 5
    else
      DaoInPrefix(comment);
      LastDao(comment[..|comment| - 1])
  }

  /** A position with the extensions of its comment. */
  datatype PositionReport = PositionReport(latitude: Angle, longitude: Angle, resolution: real, ambiguity: nat,
                           table: char, code: char,
                           phg: Option<string>, range: Option<string>, course: Option<(string, string)>,
                           altitude: Option<string>, telemetry: Option<Telemetry>,
                           datum: Option<char>, comment: Option<string>)

  function MoveAway(a: Angle, minutes: real): Angle {
    a.(magnitude := a.magnitude + minutes / 60.0)
  }

  function TrimSlashes(s: string): string {
    if s != "" && s[0] == '/' then TrimSlashes(s[1..]) else s
  }

  function FinalComment(comment: string): Option<string> {
    var text := TrimSlashes(Trim(comment));
    if text == "" then None else Some(text)
  }

  function ParseDao(report: PositionReport, original: string): PositionReport {
    var comment := StripInlineTelemetry(original);
    var i := LastDao(comment);
    if i < 0 then report.(comment := FinalComment(comment))
    else
      var left := comment[..i] + comment[i + 5..];
      var (datum, adjustment) := DaoValue(comment[i..i + 5]).value;
      var named := report.(datum := Some(UpperChar(datum)), comment := FinalComment(left));
      match adjustment
      case None => named
      case Some(a) =>
        named.(resolution := a.resolution,
               latitude := MoveAway(report.latitude, a.latitude),
               longitude := MoveAway(report.longitude, a.longitude))
  }

  /** `parse_position_comment` for a symbol other than the weather station's. */
  function ParsePositionComment(p: Position): PositionReport
    requires p.code != '_'
  {
    var (phg, c1) := TakePhg(p.comment);
    var (range, c2) := TakeRange(c1);
    var (course, c3) := TakeCourse(c2);
    var (altitude, c4) := TakeAltitude(c3);
    var (telemetry, c5) := ParseInlineTelemetry(c4);
    ParseDao(PositionReport(p.latitude, p.longitude, p.resolution, p.ambiguity, p.table, p.code,
                    phg, range, course, altitude, telemetry, None, None), c5)
  }

  // ---- The DAO extension of an encoded position ------------------------------------------

  /** A base-91 digit for two decimal digits past the hundredths. */
  function DaoDigit(digits: int): (n: int)
    requires 0 <= digits <= 99
    ensures 0 <= n <= 90
    ensures n as real - 0.5 <= digits as real / 1.1 <= n as real + 0.5
  {
    (digits as real / 1.1 + 0.5).Floor
  }

  function DaoChar(value: real): (c: char)
    ensures IsBase91Char(c)
  {
    (DaoDigit(EncodedCoordinate(value, 0, true).1) + 33) as char
  }

  function DaoText(latitude: real, longitude: real): string {
    ['!', 'w', DaoChar(latitude), DaoChar(longitude), '!']
  }

  // ---- No extension reaches into a DAO at the end ----------------------------------------

  predicate IsDaoTail(tail: string) {
    |tail| == 5 && tail[0] == '!' && tail[1] == 'w' && IsBase91Char(tail[2]) && IsBase91Char(tail[3]) && tail[4] == '!'
  }

  predicate EndsWith(s: string, tail: string) {
    |s| >= |tail| && s[|s| - |tail|..] == tail
  }

  lemma DropFront(s: string, n: nat, tail: string)
    requires EndsWith(s, tail) && n + |tail| <= |s|
    ensures EndsWith(s[n..], tail)
  {
    assert s[n..][|s| - n - |tail|..] == s[|s| - |tail|..];
  }

  lemma CutMiddle(s: string, i: nat, j: nat, tail: string)
    requires EndsWith(s, tail) && i <= j && j + |tail| <= |s|
    ensures EndsWith(s[..i] + s[j..], tail)
  {
    var r := s[..i] + s[j..];
    assert r[|r| - |tail|..] == s[|s| - |tail|..];
  }

  lemma TailChars(s: string, tail: string)
    requires EndsWith(s, tail) && IsDaoTail(tail)
    ensures |s| >= 5
    ensures var n := |s| - 5;
            s[n] == '!' && s[n + 1] == 'w' && IsBase91Char(s[n + 2]) && IsBase91Char(s[n + 3]) && s[n + 4] == '!'
  {
    var n := |s| - 5;
    assert s[n..][0] == s[n] && s[n..][1] == s[n + 1] && s[n..][2] == s[n + 2] && s[n..][3] == s[n + 3] && s[n..][4] == s[n + 4];
  }

  lemma PhgKeepsTail(s: string, tail: string)
    requires EndsWith(s, tail) && IsDaoTail(tail)
    ensures EndsWith(TakePhg(s).1, tail)
  {
    TailChars(s, tail);
    var (phg, rest) := TakePhg(s);
    if phg.Some? {
      var data := s[3..];
      assert forall k :: 0 <= k < |data| ==> data[k] == s[k + 3];
      assert rest == s[|s| - |rest|..];
      DropFront(s, |s| - |rest|, tail);
    }
  }

  lemma ExponentHasNoBang(s: string)
    requires IsInteger(DropSign(s))
    ensures '!' !in s
  {
    var t := DropSign(s);
    assert forall k :: 0 <= k < |t| ==> t[k] != '!';
    assert s == t || s == [s[0]] + t;
  }

  lemma NumberHasNoBang(s: string)
    requires IsNumber(s)
    ensures '!' !in s
  {
    hide IsMantissa, IsInteger, DropSign;
    var k := ExponentMark(s);
    MantissaHasNoBang(s[..k]);
    if k == |s| {
      assert s == s[..k];
    } else {
      ExponentHasNoBang(s[k + 1..]);
      assert s == s[..k] + [s[k]] + s[k + 1..];
    }
  }

  lemma NamedHasNoBang(s: string)
    requires IsNamedFloat(s)
    ensures '!' !in s
  {
    var upper := seq(|s|, k requires 0 <= k < |s| => UpperChar(s[k]));
    assert '!' !in upper;
    assert forall k :: 0 <= k < |s| ==> upper[k] == UpperChar(s[k]);
  }

  /** A text the float parser accepts holds no exclamation mark. */
  lemma FloatHasNoBang(s: string)
    requires IsFloat(s)
    ensures '!' !in s
  {
    hide IsNumber, IsNamedFloat;
    var t := DropSign(s);
    if IsNumber(t) { NumberHasNoBang(t); } else { NamedHasNoBang(t); }
    assert s == t || s == [s[0]] + t;
  }

  lemma MantissaHasNoBang(s: string)
    requires IsMantissa(s)
    ensures '!' !in s
  {
    var n := LeadingDigits(s);
    if n < |s| { assert s == s[..n] + ['.'] + s[n + 1..]; }
  }

  lemma RangeKeepsTail(s: string, tail: string)
    requires EndsWith(s, tail) && IsDaoTail(tail)
    ensures EndsWith(TakeRange(s).1, tail)
  {
    hide IsFloat;
    TailChars(s, tail);
    var (range, rest) := TakeRange(s);
    if range.Some? {
      var field := s[3..][..4];
      FloatHasNoBang(field);
      assert forall k :: 0 <= k < 4 ==> field[k] == s[k + 3];
      var n := |s| - 5;
      assert s[0] == 'R' && s[1] == 'N' && s[2] == 'G';
      assert n >= 3;
      assert forall k :: 3 <= k < 7 ==> s[k] == field[k - 3] != '!';
      assert n >= 7;
      assert rest == s[7..];
      DropFront(s, 7, tail);
    }
  }

  lemma CourseKeepsTail(s: string, tail: string)
    requires EndsWith(s, tail) && IsDaoTail(tail)
    ensures EndsWith(TakeCourse(s).1, tail)
  {
    TailChars(s, tail);
    var n := |s| - 5;
    if TakeCourse(s).0.Some? {
      assert forall k :: 0 <= k < 7 ==> s[k] != '!';
      assert n >= 7;
      DropFront(s, 7, tail);
    }
  }

  lemma AltitudeChars(s: string, i: nat)
    requires i + 9 <= |s| && s[i..i + 3] == "/A=" && IsAltitude(s[i + 3..i + 9])
    ensures forall k :: i <= k < i + 9 ==> s[k] != '!'
  {
    var mark, field := s[i..i + 3], s[i + 3..i + 9];
    forall k | i <= k < i + 9 ensures s[k] != '!' {
      if k < i + 3 { assert s[k] == mark[k - i]; } else { assert s[k] == field[k - i - 3]; }
    }
  }

  lemma AltitudeKeepsTail(s: string, tail: string)
    requires EndsWith(s, tail) && IsDaoTail(tail)
    ensures EndsWith(TakeAltitude(s).1, tail)
  {
    hide FindAltitude, IsAltitude, EndsWith;
    TailChars(s, tail);
    var n := |s| - 5;
    if TakeAltitude(s).0.Some? {
      var i := FindAltitude(s);
      AltitudeChars(s, i);
      assert s[n] == '!' && s[n + 4] == '!';
      CutMiddle(s, i, i + 9, tail);
    }
  }

  lemma PipeBeforeTail(s: string, tail: string, k: nat)
    requires EndsWith(s, tail) && IsDaoTail(tail) && k < |s| && s[k] == '|'
    ensures k + 1 + 5 <= |s|
  {
    hide EndsWith, IsDaoTail;
    TailChars(s, tail);
  }

  lemma PairBeforeTail(s: string, tail: string, pair: (nat, nat))
    requires EndsWith(s, tail) && IsDaoTail(tail) && LastPair(s) == Some(pair)
    ensures pair.1 + 1 + 5 <= |s|
  {
    hide IsPayload, LastPair, EndsWith, IsDaoTail;
    PipeBeforeTail(s, tail, pair.1);
  }

  lemma TrimKeepsTail(s: string, tail: string)
    requires EndsWith(s, tail) && IsDaoTail(tail)
    ensures EndsWith(Trim(s), tail)
  {
    TailChars(s, tail);
    assert TrimEnd(s) == s;
    TrimStartIsSuffix(s);
    var t := TrimStart(s);
    TrimStartStops(s, |s| - 5);
    DropFront(s, |s| - |t|, tail);
  }

  /** Trimming in front stops at a character that is not white space. */
  lemma {:induction false} TrimStartStops(s: string, k: nat)
    requires k < |s| && !IsSpace(s[k])
    ensures |s| - |TrimStart(s)| <= k
  {
    if IsSpace(s[0]) { TrimStartStops(s[1..], k - 1); }
  }

  lemma TelemetryKeepsTail(s: string, tail: string)
    requires EndsWith(s, tail) && IsDaoTail(tail)
    ensures EndsWith(StripInlineTelemetry(s), tail)
    ensures EndsWith(ParseInlineTelemetry(s).1, tail)
  {
    hide LastPair, Trim, DecodePayload, EndsWith;
    match LastPair(s)
    case None =>
    case Some(pair) =>
      PairBeforeTail(s, tail, pair);
      CutMiddle(s, pair.0, pair.1 + 1, tail);
      TrimKeepsTail(Without(s, pair), tail);
  }

  lemma TailIsDao(tail: string)
    requires IsDaoTail(tail)
    ensures DaoValue(tail) == Some(('w', Some(Adjustment((tail[2] as int - 33) as real / 91.0 * 0.01,
                                                         (tail[3] as int - 33) as real / 91.0 * 0.01, 0.1852))))
  {
  }

  /** The appended extension is the one selected, whatever the comment before it holds. */
  lemma LastDaoIsTail(s: string, tail: string)
    requires EndsWith(s, tail) && IsDaoTail(tail)
    ensures |s| >= 5 && LastDao(s) == |s| - 5
    ensures DaoValue(s[|s| - 5..]) ==
            Some(('w', Some(Adjustment((tail[2] as int - 33) as real / 91.0 * 0.01,
                                       (tail[3] as int - 33) as real / 91.0 * 0.01, 0.1852))))
  {
    hide LastDao, DaoValue;
    TailIsDao(tail);
    assert s[|s| - 5..|s| - 5 + 5] == tail;
    assert DaoAt(s, |s| - 5);
  }

  lemma CommentEndingInDao(p: Position, tail: string)
    requires p.code != '_' && EndsWith(p.comment, tail) && IsDaoTail(tail)
    ensures var r := ParsePositionComment(p);
            && r.datum == Some('W') && r.resolution == 0.1852
            && r.latitude == MoveAway(p.latitude, (tail[2] as int - 33) as real / 91.0 * 0.01)
            && r.longitude == MoveAway(p.longitude, (tail[3] as int - 33) as real / 91.0 * 0.01)
  {
    hide TakePhg, TakeRange, TakeCourse, TakeAltitude, ParseInlineTelemetry, StripInlineTelemetry,
      LastDao, DaoValue, EndsWith, FinalComment;
    var c1 := TakePhg(p.comment).1;
    PhgKeepsTail(p.comment, tail);
    var c2 := TakeRange(c1).1;
    RangeKeepsTail(c1, tail);
    var c3 := TakeCourse(c2).1;
    CourseKeepsTail(c2, tail);
    var c4 := TakeAltitude(c3).1;
    AltitudeKeepsTail(c3, tail);
    var c5 := ParseInlineTelemetry(c4).1;
    TelemetryKeepsTail(c4, tail);
    var comment := StripInlineTelemetry(c5);
    TelemetryKeepsTail(c5, tail);
    LastDaoIsTail(comment, tail);
    var i := LastDao(comment);
    assert comment[i..i + 5] == comment[i..];
  }

  /** The decoded extension restores the value to 0.0002 minute, the clamp below 60 included. */
  lemma DaoIsNear(value: real)
    ensures var n := (DaoChar(value) as int - 33) as real / 91.0 * 0.01;
            var m := Hundredths(value, true) as real / 100.0;
            -0.0002 <= m + n - Minutes(value) <= 0.0002
  {
    var scaled := Scaled(value, true);
    var digits := scaled % 100;
    var n := DaoDigit(digits);
    assert scaled == 100 * Hundredths(value, true) + digits;
    ScaledIsNear(value);
    var d := digits as real;
    assert n as real / 91.0 * 0.01 - d * 0.0001 == 0.01 / 91.0 * (n as real - d * 0.91);
    assert -0.5 <= n as real - d / 1.1 <= 0.5;
    assert d / 1.1 - d * 0.91 == d * (1.0 / 1.1 - 0.91);
  }

  lemma ScaledIsNear(value: real)
    ensures -0.0001 <= Scaled(value, true) as real / 10_000.0 - Minutes(value) <= 0.0001
  {
    var r := Round(Minutes(value) * 10_000.0);
    if r < 599_999 { assert Scaled(value, true) == r; } else { assert Scaled(value, true) == 599_999; }
  }

  /** What a position encoded with DAO decodes to, for any comment before the extension. */
  lemma DaoPrecision(latitude: real, longitude: real, table: char, code: char, comment: string)
    requires InRange(latitude, longitude) && IsSymbolTable(table) && code != '_'
    ensures var body := PositionText(latitude, longitude, true, 0, table, code)
                        + (comment + DaoText(latitude, longitude));
            var parsed := ParseUncompressed(body);
            && parsed.Ok? && parsed.value.code == code
            && var r := ParsePositionComment(parsed.value);
            && r.datum == Some('W') && r.resolution == 0.1852
            && r.latitude.negative == (latitude < 0.0) && r.longitude.negative == (longitude < 0.0)
            && MinutesApart(r.latitude.magnitude, Abs(latitude)) <= 0.0002
            && MinutesApart(r.longitude.magnitude, Abs(longitude)) <= 0.0002
  {
    hide ParseUncompressed, PositionText, ParsePositionComment, Hundredths, Whole, DaoChar;
    var rest := comment + DaoText(latitude, longitude);
    PositionDecodes(latitude, longitude, true, 0, table, code, rest);
    var p := ParseUncompressed(PositionText(latitude, longitude, true, 0, table, code) + rest).value;
    assert EndsWith(p.comment, DaoText(latitude, longitude));
    CommentEndingInDao(p, DaoText(latitude, longitude));
    AxisPrecision(latitude);
    AxisPrecision(longitude);
  }

  lemma AxisPrecision(value: real)
    ensures var a := Angle(Whole(value) as real + Middle(Hundredths(value, true), 0) as real / 6000.0, value < 0.0);
            MinutesApart(MoveAway(a, (DaoChar(value) as int - 33) as real / 91.0 * 0.01).magnitude, Abs(value)) <= 0.0002
  {
    hide Hundredths, Whole, DaoChar;
    DaoIsNear(value);
    var n := (DaoChar(value) as int - 33) as real / 91.0 * 0.01;
    var m := Hundredths(value, true) as real / 100.0;
    var magnitude := Whole(value) as real + Hundredths(value, true) as real / 6000.0 + n / 60.0;
    assert (magnitude - Abs(value)) * 60.0 == m + n - Minutes(value);
  }

  // ---- How far a comment moves a position ------------------------------------------------

  /** `after` is `before`, or a little further from zero. */
  predicate IsMovedAway(before: Angle, after: Angle) {
    after.negative == before.negative && 0.0 <= after.magnitude - before.magnitude <= 0.01 / 60.0
  }

  /** A DAO extension moves a coordinate away from zero, by at most 0.01 minute. */
  lemma DaoMovesLittle(report: PositionReport, comment: string)
    ensures var r := ParseDao(report, comment);
            IsMovedAway(report.latitude, r.latitude) && IsMovedAway(report.longitude, r.longitude)
  {
    hide StripInlineTelemetry, LastDao, FinalComment, DaoValue;
    var text := StripInlineTelemetry(comment);
    var i := LastDao(text);
    if i >= 0 && DaoValue(text[i..i + 5]).value.1.Some? { DaoIsSmall(text[i..i + 5]); }
  }

  lemma CommentMovesLittle(p: Position)
    requires p.code != '_'
    ensures var r := ParsePositionComment(p);
            IsMovedAway(p.latitude, r.latitude) && IsMovedAway(p.longitude, r.longitude)
  {
    hide TakePhg, TakeRange, TakeCourse, TakeAltitude, ParseInlineTelemetry, ParseDao, IsMovedAway;
    var (phg, c1) := TakePhg(p.comment);
    var (range, c2) := TakeRange(c1);
    var (course, c3) := TakeCourse(c2);
    var (altitude, c4) := TakeAltitude(c3);
    var (telemetry, c5) := ParseInlineTelemetry(c4);
    DaoMovesLittle(PositionReport(p.latitude, p.longitude, p.resolution, p.ambiguity, p.table, p.code,
                                  phg, range, course, altitude, telemetry, None, None), c5);
  }

  lemma DaoIsSmall(text: string)
    requires |text| == 5 && DaoValue(text).Some? && DaoValue(text).value.1.Some?
    ensures var a := DaoValue(text).value.1.value; 0.0 <= a.latitude <= 0.01 && 0.0 <= a.longitude <= 0.01
  {
  }

  // ---- What each step takes --------------------------------------------------------------

  predicate IsDigitOrLetter(c: char) { 'A' <= c <= 'Z' || 'a' <= c <= 'z' || '0' <= c <= '9' }

  /** Power, gain and direction digits, whatever the character of the height; a fifth character counts before a slash. */
  lemma PhgExactly(data: string, rest: string)
    requires |data| == 4
    ensures TakePhg("PHG" + data + rest) ==
            if !('0' <= data[0] <= '9' && '0' <= data[2] <= '9' && '0' <= data[3] <= '9') then (None, "PHG" + data + rest)
            else if |rest| >= 2 && IsDigitOrLetter(rest[0]) && rest[1] == '/' then (Some(data + rest[..1]), rest[1..])
            else (Some(data), rest)
  {
    var c := "PHG" + data + rest;
    var behind := c[3..];
    assert behind == data + rest;
    assert behind[..4] == data && behind[4..] == rest;
    if |rest| >= 1 { assert behind[..5] == data + rest[..1] && behind[5..] == rest[1..]; }
  }

  lemma NoPhg(comment: string)
    requires !("PHG" <= comment)
    ensures TakePhg(comment) == (None, comment)
  {
  }

  lemma RangeExactly(data: string, rest: string)
    requires |data| == 4
    ensures TakeRange("RNG" + data + rest) == if IsFloat(data) then (Some(data), rest) else (None, "RNG" + data + rest)
  {
    hide IsFloat;
    var c := "RNG" + data + rest;
    assert c[3..] == data + rest;
    assert c[3..][..4] == data && c[3..][4..] == rest;
  }

  lemma NoRange(comment: string)
    requires !("RNG" <= comment)
    ensures TakeRange(comment) == (None, comment)
  {
  }

  /** Digits, points and spaces alone. */
  predicate IsFieldText(s: string) {
    forall k :: 0 <= k < |s| ==> '0' <= s[k] <= '9' || s[k] == '.' || s[k] == ' '
  }

  lemma CourseExactly(course: string, separator: char, speed: string, rest: string)
    requires |course| == |speed| == 3
    ensures var c := course + [separator] + speed + rest;
            TakeCourse(c) == if separator == '/' && IsFieldText(course) && IsFieldText(speed) then (Some((course, speed)), rest)
                             else (None, c)
  {
    var c := course + [separator] + speed + rest;
    assert c[..3] == course && c[3] == separator && c[4..7] == speed && c[7..] == rest;
    assert forall k :: 0 <= k < 3 ==> c[k] == course[k];
    assert forall k :: 4 <= k < 7 ==> c[k] == speed[k - 4];
  }

  ghost predicate HasNoAltitudeMark(s: string) {
    forall k :: !MarksAltitude(s, k)
  }

  predicate IsAltitudeText(s: string) {
    |s| == 6 && ('0' <= s[0] <= '9' || s[0] == '-') && forall k :: 1 <= k < 6 ==> '0' <= s[k] <= '9'
  }

  lemma MarksInFront(s: string, n: nat)
    requires n <= |s|
    ensures forall k :: k + 3 <= n ==> (MarksAltitude(s, k) <==> MarksAltitude(s[..n], k))
  {
    forall k | k + 3 <= n ensures MarksAltitude(s, k) <==> MarksAltitude(s[..n], k) {
      if k >= 0 { SliceOfPrefix(s, n, k, k + 3); }
    }
  }

  lemma MarkIsThere(before: string, after: string)
    ensures MarksAltitude(before + "/A=" + after, |before|)
  {
    var c := before + "/A=" + after;
    assert c[|before|..|before| + 3] == "/A=";
  }

  lemma FirstAltitude(before: string, after: string)
    requires HasNoAltitudeMark(before + "/A")
    ensures FindAltitude(before + "/A=" + after) == |before|
  {
    hide FindAltitude;
    var c := before + "/A=" + after;
    assert MarksAltitude(c, |before|) by { MarkIsThere(before, after); }
    assert c[..|before| + 2] == before + "/A";
    MarksInFront(c, |before| + 2);
  }

  /** The first `/A=` is an altitude if six characters of one follow, and otherwise there is none. */
  lemma AltitudeExactly(before: string, after: string)
    requires HasNoAltitudeMark(before + "/A")
    ensures var c := before + "/A=" + after;
            TakeAltitude(c) ==
            if |after| >= 6 && IsAltitudeText(after[..6]) then (Some(after[..6]), before + after[6..]) else (None, c)
  {
    hide FindAltitude, HasNoAltitudeMark;
    var c, n := before + "/A=" + after, |before|;
    FirstAltitude(before, after);
    if |after| >= 6 { assert c[n + 3..n + 9] == after[..6] && c[..n] == before && c[n + 9..] == after[6..]; }
  }

  lemma NoAltitudeMark(comment: string)
    requires HasNoAltitudeMark(comment)
    ensures TakeAltitude(comment) == (None, comment)
  {
  }

  // ---- All steps in a row ----------------------------------------------------------------

  /** The extensions in front of a comment, each as it is written behind its mark. */
  datatype Front = Front(phg: Option<string>, range: Option<string>, course: Option<(string, string)>)

  function CourseFront(e: Front): string {
    if e.course.Some? then e.course.value.0 + "/" + e.course.value.1 else ""
  }

  function RangeFront(e: Front): string {
    if e.range.Some? then "RNG" + e.range.value else ""
  }

  function PhgFront(e: Front): string {
    if e.phg.Some? then "PHG" + e.phg.value else ""
  }

  predicate StartsWithCourse(s: string) {
    |s| >= 7 && s[3] == '/' && IsFieldText(s[..3]) && IsFieldText(s[4..7])
  }

  /** The texts are extensions, and what is absent does not start by accident where it is looked for. */
  predicate IsFront(e: Front, rest: string) {
    && (if e.course.Some? then |e.course.value.0| == |e.course.value.1| == 3
                               && IsFieldText(e.course.value.0) && IsFieldText(e.course.value.1)
        else !StartsWithCourse(rest))
    && (if e.range.Some? then |e.range.value| == 4 && IsFloat(e.range.value) else !("RNG" <= CourseFront(e) + rest))
    && (if e.phg.Some? then
          var s, behind := e.phg.value, RangeFront(e) + (CourseFront(e) + rest);
          && |s| == 4 && '0' <= s[0] <= '9' && '0' <= s[2] <= '9' && '0' <= s[3] <= '9'
          && !(|behind| >= 2 && IsDigitOrLetter(behind[0]) && behind[1] == '/')
        else !("PHG" <= RangeFront(e) + (CourseFront(e) + rest)))
  }

  lemma CourseIsTaken(e: Front, rest: string)
    requires IsFront(e, rest)
    ensures TakeCourse(CourseFront(e) + rest) == (e.course, rest)
  {
    hide IsFloat;
    if e.course.Some? {
      CourseExactly(e.course.value.0, '/', e.course.value.1, rest);
    } else if |rest| >= 7 {
      assert CourseFront(e) + rest == rest;
      var c, x, s := rest[..3], rest[3], rest[4..7];
      assert rest == c + [x] + s + rest[7..];
      CourseExactly(c, x, s, rest[7..]);
    } else {
      assert CourseFront(e) + rest == rest;
    }
  }

  /** Each step takes its extension and leaves the rest to the next one. */
  lemma FrontIsTaken(e: Front, rest: string)
    requires IsFront(e, rest)
    ensures var c2 := CourseFront(e) + rest;
            var c1 := RangeFront(e) + c2;
            && TakePhg(PhgFront(e) + c1) == (e.phg, c1) && TakeRange(c1) == (e.range, c2) && TakeCourse(c2) == (e.course, rest)
  {
    hide IsFloat, TakePhg, TakeRange, TakeCourse, IsFieldText, StartsWithCourse;
    var c2 := CourseFront(e) + rest;
    var c1 := RangeFront(e) + c2;
    CourseIsTaken(e, rest);
    if e.range.Some? { RangeExactly(e.range.value, c2); } else { assert c1 == c2; NoRange(c2); }
    if e.phg.Some? { PhgExactly(e.phg.value, c1); } else { assert PhgFront(e) + c1 == c1; NoPhg(c1); }
  }

  const NO_FRONT := Front(None, None, None)

  /** No extension in front, and no altitude anywhere. */
  ghost predicate IsPlain(comment: string) {
    IsFront(NO_FRONT, comment) && HasNoAltitudeMark(comment)
  }

  lemma PlainSteps(comment: string)
    requires IsPlain(comment)
    ensures TakePhg(comment) == (None, comment) && TakeRange(comment) == (None, comment)
    ensures TakeCourse(comment) == (None, comment) && TakeAltitude(comment) == (None, comment)
  {
    hide IsFront, HasNoAltitudeMark, TakeAltitude;
    FrontIsTaken(NO_FRONT, comment);
    assert PhgFront(NO_FRONT) + (RangeFront(NO_FRONT) + (CourseFront(NO_FRONT) + comment)) == comment;
    assert RangeFront(NO_FRONT) + (CourseFront(NO_FRONT) + comment) == comment;
    assert CourseFront(NO_FRONT) + comment == comment;
    NoAltitudeMark(comment);
  }

  /** Extensions in front and an altitude anywhere are taken, and the comment is parsed as if they were not there. */
  lemma ExtensionsAreTaken(p: Position, e: Front, before: string, altitude: string, after: string)
    requires p.code != '_' && IsAltitudeText(altitude) && HasNoAltitudeMark(before + "/A")
    requires IsFront(e, before + "/A=" + altitude + after) && IsPlain(before + after)
    ensures var comment := PhgFront(e) + (RangeFront(e) + (CourseFront(e) + (before + "/A=" + altitude + after)));
            ParsePositionComment(p.(comment := comment)) ==
            ParsePositionComment(p.(comment := before + after))
              .(phg := e.phg, range := e.range, course := e.course, altitude := Some(altitude))
  {
    hide TakePhg, TakeRange, TakeCourse, TakeAltitude, ParseInlineTelemetry, StripInlineTelemetry, LastDao, DaoValue,
      FinalComment, IsFront, HasNoAltitudeMark, IsPlain, IsAltitudeText;
    var rest := before + "/A=" + altitude + after;
    FrontIsTaken(e, rest);
    AltitudeIsTaken(before, altitude, after);
    PlainSteps(before + after);
  }

  lemma AltitudeIsTaken(before: string, altitude: string, after: string)
    requires IsAltitudeText(altitude) && HasNoAltitudeMark(before + "/A")
    ensures TakeAltitude(before + "/A=" + altitude + after) == (Some(altitude), before + after)
  {
    hide TakeAltitude, HasNoAltitudeMark;
    AltitudeExactly(before, altitude + after);
    assert (altitude + after)[..6] == altitude && (altitude + after)[6..] == after;
    assert before + "/A=" + altitude + after == before + "/A=" + (altitude + after);
  }

  /** Telemetry between pipes is taken, and what is left is parsed as if it were not there. */
  lemma TelemetryIsTaken(p: Position, before: string, payload: string, after: string)
    requires p.code != '_' && IsPayload(payload) && LastPair("|" + after) == None
    requires IsPlain(before + "|" + payload + "|" + after)
    requires IsPlain(Trim(before + after)) && LastPair(Trim(before + after)) == None
    ensures ParsePositionComment(p.(comment := before + "|" + payload + "|" + after)) ==
            ParsePositionComment(p.(comment := Trim(before + after))).(telemetry := Some(DecodePayload(payload)))
  {
    hide TakePhg, TakeRange, TakeCourse, TakeAltitude, LastPair, LastDao, DaoValue, DecodePayload, StripInlineTelemetry,
      FinalComment, IsPlain, Trim;
    PlainSteps(before + "|" + payload + "|" + after);
    PlainSteps(Trim(before + after));
    PayloadInComment(before, payload, after);
  }

  /** The three characters between the exclamation marks of an extension. */
  datatype Dao = Dao(datum: char, x: char, y: char)

  function DaoMark(d: Dao): string { ['!', d.datum, d.x, d.y, '!'] }

  /** The datum an extension names, and the minutes it adds. */
  predicate SaysDao(d: Dao, datum: char, moved: Option<Adjustment>) {
    if 'A' <= d.datum <= 'Z' && '0' <= d.x <= '9' && '0' <= d.y <= '9' then
      && datum == d.datum
      && moved == Some(Adjustment((d.x as int - 48) as real / 1000.0, (d.y as int - 48) as real / 1000.0, 1.852))
    else if 'a' <= d.datum <= 'z' && '!' <= d.x <= '{' && '!' <= d.y <= '{' then
      && datum == d.datum - 32 as char
      && moved == Some(Adjustment((d.x as int - 33) as real / 9100.0, (d.y as int - 33) as real / 9100.0, 0.1852))
    else
      && '!' <= d.datum <= '{' && d.x == d.y == ' ' && moved == None
      && datum == if 'a' <= d.datum <= 'z' then d.datum - 32 as char else d.datum
  }

  lemma DaoExactly(d: Dao, datum: char, moved: Option<Adjustment>)
    ensures SaysDao(d, datum, moved) <==>
            var value := DaoValue(DaoMark(d));
            value.Some? && UpperChar(value.value.0) == datum && value.value.1 == moved
  {
  }

  /** No telemetry, and the extension is the last one, and the only one. */
  ghost predicate HasOnlyDao(before: string, d: Dao, after: string) {
    && LastPair(before + DaoMark(d) + after) == None && LastPair(before + after) == None
    && (forall k :: |before| < k ==> !DaoAt(before + DaoMark(d) + after, k)) && LastDao(before + after) < 0
  }

  /** A report with what an extension says. */
  function WithDao(r: PositionReport, datum: char, moved: Option<Adjustment>): PositionReport {
    var named := r.(datum := Some(datum));
    if moved == None then named
    else named.(resolution := moved.value.resolution, latitude := MoveAway(r.latitude, moved.value.latitude),
                longitude := MoveAway(r.longitude, moved.value.longitude))
  }

  lemma DaoIsFound(report: PositionReport, before: string, d: Dao, after: string, datum: char, moved: Option<Adjustment>)
    requires SaysDao(d, datum, moved) && HasOnlyDao(before, d, after)
    ensures ParseDao(report, before + DaoMark(d) + after) == WithDao(ParseDao(report, before + after), datum, moved)
  {
    hide LastPair, LastDao, DaoValue, FinalComment, SaysDao;
    var comment, n := before + DaoMark(d) + after, |before|;
    assert comment[n..n + 5] == DaoMark(d) && comment[..n] == before && comment[n + 5..] == after;
    DaoExactly(d, datum, moved);
    assert DaoAt(comment, n);
    assert LastDao(comment) == n;
  }

  /** A DAO extension that none follows is taken, and moves the position by what it says. */
  lemma DaoIsTaken(p: Position, before: string, d: Dao, after: string, datum: char, moved: Option<Adjustment>)
    requires p.code != '_' && SaysDao(d, datum, moved) && HasOnlyDao(before, d, after)
    requires IsPlain(before + DaoMark(d) + after) && IsPlain(before + after)
    ensures ParsePositionComment(p.(comment := before + DaoMark(d) + after)) ==
            WithDao(ParsePositionComment(p.(comment := before + after)), datum, moved)
  {
    hide TakePhg, TakeRange, TakeCourse, TakeAltitude, LastPair, ParseDao, IsPlain, SaysDao, WithDao, DaoMark;
    PlainSteps(before + DaoMark(d) + after);
    PlainSteps(before + after);
    DaoIsFound(PositionReport(p.latitude, p.longitude, p.resolution, p.ambiguity, p.table, p.code,
                              None, None, None, None, None, None, None), before, d, after, datum, moved);
  }

  predicate AllSlashes(s: string) { forall k :: 0 <= k < |s| ==> s[k] == '/' }

  lemma {:induction false} SlashesAreTrimmed(slashes: string, text: string)
    requires AllSlashes(slashes) && (text != "" ==> text[0] != '/')
    ensures TrimSlashes(slashes + text) == text
  {
    var s := slashes + text;
    if slashes == "" {
      assert s == text;
    } else {
      assert s[1..] == slashes[1..] + text;
      SlashesAreTrimmed(slashes[1..], text);
    }
  }

  /** Of what is left, the white space around it and the slashes in front are dropped. */
  lemma FinalCommentExactly(blanks: string, slashes: string, text: string, moreBlanks: string)
    requires AllSpace(blanks) && AllSpace(moreBlanks) && AllSlashes(slashes) && (text != "" ==> text[0] != '/')
    requires IsTrimmed(slashes + text)
    ensures FinalComment(blanks + (slashes + text) + moreBlanks) == if text == "" then None else Some(text)
  {
    hide Trim, TrimSlashes;
    TrimExactly(blanks, slashes + text, moreBlanks);
    SlashesAreTrimmed(slashes, text);
  }

  // ---- Which comments are kept -----------------------------------------------------------

  predicate StartsWithPhg(c: string) {
    |c| >= 7 && c[..3] == "PHG" && '0' <= c[3] <= '9' && '0' <= c[5] <= '9' && '0' <= c[6] <= '9'
  }

  predicate StartsWithRange(c: string) {
    |c| >= 7 && c[..3] == "RNG" && IsFloat(c[3..7])
  }

  /** The first `/A=` is followed by an altitude. */
  ghost predicate HasAltitude(c: string) {
    exists k :: MarksAltitude(c, k) && (forall j :: j < k ==> !MarksAltitude(c, j))
                && k + 9 <= |c| && IsAltitudeText(c[k + 3..k + 9])
  }

  /** No extension and no telemetry is in the comment, and its ends are not trimmed. */
  ghost predicate IsKept(c: string) {
    && c != "" && c[0] != '/' && IsTrimmed(c)
    && !StartsWithPhg(c) && !StartsWithRange(c) && !StartsWithCourse(c) && !HasAltitude(c)
    && (forall first, last :: !IsPair(c, first, last)) && (forall k :: !DaoAt(c, k))
  }

  lemma FrontSteps(c: string)
    ensures TakePhg(c).0.Some? <==> StartsWithPhg(c)
    ensures TakeRange(c).0.Some? <==> StartsWithRange(c)
    ensures TakeCourse(c).0.Some? <==> StartsWithCourse(c)
  {
    hide IsFloat;
    if |c| >= 3 {
      assert "PHG" <= c <==> c[..3] == "PHG";
      assert "RNG" <= c <==> c[..3] == "RNG";
    }
    if |c| >= 7 {
      assert c[3..][..4] == c[3..7];
      assert forall k :: 0 <= k < 3 ==> c[..3][k] == c[k];
      assert forall k :: 4 <= k < 7 ==> c[4..7][k - 4] == c[k];
    }
  }

  lemma AltitudeStep(c: string)
    ensures TakeAltitude(c).0.Some? <==> HasAltitude(c)
  {
    hide MarksAltitude, FindAltitude;
    var i := FindAltitude(c);
    if i == |c| { MarksFit(c); }
  }

  lemma MarksFit(c: string)
    ensures forall k :: MarksAltitude(c, k) ==> 0 <= k < |c|
  {
  }

  lemma TrimmedStays(c: string)
    ensures Trim(c) == c <==> IsTrimmed(c)
  {
    hide TrimEnd, TrimStart;
    if IsTrimmed(c) {
      TrimExactly("", c, "");
      assert "" + c + "" == c;
    } else {
      SpacesExactly(c[0]);
      SpacesExactly(c[|c| - 1]);
      if Trim(c) == c { TrimmedEnds(c); }
    }
  }

  lemma TrimmedEnds(c: string)
    requires Trim(c) == c && c != ""
    ensures !IsSpace(c[0]) && !IsSpace(c[|c| - 1])
  {
    hide TrimEnd, TrimStart;
    var e := TrimEnd(c);
    TrimStartIsSuffix(e);
    assert |e| == |c|;
  }

  /** The conditions are those of the parser's steps. */
  lemma KeptSteps(c: string)
    ensures IsKept(c) <==>
            && c != "" && c[0] != '/' && Trim(c) == c
            && TakePhg(c).0.None? && TakeRange(c).0.None? && TakeCourse(c).0.None? && TakeAltitude(c).0.None?
            && LastPair(c).None? && LastDao(c) < 0
  {
    hide TakePhg, TakeRange, TakeCourse, TakeAltitude, Trim, LastPair, LastDao, IsPair, DaoAt, StartsWithPhg,
      StartsWithRange, StartsWithCourse, HasAltitude, IsTrimmed;
    FrontSteps(c);
    AltitudeStep(c);
    TrimmedStays(c);
    LastPairIsLast(c);
    if LastDao(c) < 0 { assert forall k :: DaoAt(c, k) ==> k >= 0 by { DaoFits(c); } }
  }

  lemma DaoFits(c: string)
    ensures forall k :: DaoAt(c, k) ==> 0 <= k
  {
    hide DaoValue;
  }

  /** A step that finds nothing leaves the comment, and one that finds something shortens it. */
  lemma StepsShorten(c: string)
    ensures if TakePhg(c).0.None? then TakePhg(c).1 == c else |TakePhg(c).1| < |c|
    ensures if TakeRange(c).0.None? then TakeRange(c).1 == c else |TakeRange(c).1| < |c|
    ensures if TakeCourse(c).0.None? then TakeCourse(c).1 == c else |TakeCourse(c).1| < |c|
    ensures if TakeAltitude(c).0.None? then TakeAltitude(c).1 == c else |TakeAltitude(c).1| < |c|
  {
    hide IsFloat, FindAltitude, IsAltitude;
  }

  lemma TrimShortens(c: string)
    ensures |Trim(c)| <= |c| && (Trim(c) == c || |Trim(c)| < |c|)
  {
    hide TrimEnd, TrimStart;
    var e := TrimEnd(c);
    assert |e| < |c| || e == c;
    TrimStartIsSuffix(e);
    var t := TrimStart(e);
    if |t| == |e| { assert e[0..] == e; }
  }

  lemma TelemetryShortens(c: string)
    ensures var (telemetry, left) := ParseInlineTelemetry(c);
            (telemetry.None? <==> LastPair(c).None?) && if telemetry.None? then left == c else |left| < |c|
    ensures if LastPair(c).None? then StripInlineTelemetry(c) == c else |StripInlineTelemetry(c)| < |c|
  {
    hide LastPair, DecodePayload, Trim;
    match LastPair(c)
    case None =>
    case Some(pair) => TrimShortens(Without(c, pair));
  }

  lemma {:induction false} SlashesShorten(c: string)
    ensures |TrimSlashes(c)| <= |c| && (TrimSlashes(c) == c <==> c == "" || c[0] != '/')
  {
    if c != "" && c[0] == '/' { SlashesShorten(c[1..]); }
  }

  lemma FinalCommentIs(c: string)
    ensures var r := FinalComment(c);
            if c != "" && c[0] != '/' && Trim(c) == c then r == Some(c) else r.None? || |r.value| < |c|
  {
    hide Trim, TrimSlashes;
    TrimShortens(c);
    SlashesShorten(Trim(c));
    SlashesAreFewer(Trim(c));
  }

  lemma SlashesAreFewer(c: string)
    ensures c != "" && c[0] == '/' ==> |TrimSlashes(c)| < |c|
    ensures c == "" ==> TrimSlashes(c) == ""
  {
    if c != "" && c[0] == '/' { SlashesShorten(c[1..]); }
  }

  lemma DaoCommentIs(report: PositionReport, c: string)
    ensures var r := ParseDao(report, c).comment;
            if c != "" && c[0] != '/' && Trim(c) == c && LastPair(c).None? && LastDao(c) < 0 then r == Some(c)
            else r.None? || |r.value| < |c|
  {
    hide Trim, FinalComment, LastDao, LastPair, DaoValue, StripInlineTelemetry;
    TelemetryShortens(c);
    var comment := StripInlineTelemetry(c);
    var i := LastDao(comment);
    FinalCommentIs(if i < 0 then comment else comment[..i] + comment[i + 5..]);
  }

  /** The comment of a position is left whole exactly when it is kept; otherwise it is shorter, or gone. */
  lemma CommentStaysExactly(p: Position)
    requires p.code != '_'
    ensures var c, r := p.comment, ParsePositionComment(p).comment;
            if IsKept(c) then r == Some(c) else r.None? || |r.value| < |c|
  {
    hide TakePhg, TakeRange, TakeCourse, TakeAltitude, ParseInlineTelemetry, ParseDao, Trim, LastPair, LastDao, IsKept;
    KeptSteps(p.comment);
    var (phg, c1) := TakePhg(p.comment);
    StepsShorten(p.comment);
    var (range, c2) := TakeRange(c1);
    StepsShorten(c1);
    var (course, c3) := TakeCourse(c2);
    StepsShorten(c2);
    var (altitude, c4) := TakeAltitude(c3);
    StepsShorten(c3);
    var (telemetry, c5) := ParseInlineTelemetry(c4);
    TelemetryShortens(c4);
    DaoCommentIs(PositionReport(p.latitude, p.longitude, p.resolution, p.ambiguity, p.table, p.code,
                                phg, range, course, altitude, telemetry, None, None), c5);
  }
}
