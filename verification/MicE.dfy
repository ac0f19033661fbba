/**
 * Mic-E positions: the decoder `parse_mice` (src/packet/parser.rs) against the encoding of the APRS
 * Protocol Reference 1.0.1, chapter 10, written here as a specification.
 *
 * Coordinates are in hundredths of a minute (6000 to the degree), magnitude and sign apart.
 */
module MicE {
  import opened Text
  import opened Chars
  import opened Uncompressed

  datatype MicEError = DestinationInvalid | InformationShort | InformationInvalid | SymbolTableInvalid

  /** The decoded fields; a repaired report has neither speed nor course. */
  datatype MicEReport = MicEReport(latitude: int, north: bool, longitude: int, west: bool, ambiguity: nat,
                                   messageBits: string, speed: Option<int>, course: Option<int>,
                                   table: char, code: char, mangled: bool, comment: string)

  // ---- Decoding --------------------------------------------------------------------------

  /** Quotient and remainder of a division by ten that truncates toward zero. */
  function Quotient10(n: int): int { if n >= 0 then n / 10 else -(-n / 10) }

  function Remainder10(n: int): int { n - 10 * Quotient10(n) }

  function AsU16(n: int): int { n % 65_536 }

  /** The latitude digit of a destination character, if it has one, and its message bit. */
  function DestinationDigit(c: char): Option<(Option<int>, char)> {
    if IsDigitChar(c) then Some((Some(c as int - '0' as int), '0'))
    else if 'A' <= c <= 'J' then Some((Some(c as int - 'A' as int), '2'))
    else if c == 'K' then Some((None, '2'))
    else if c == 'L' then Some((None, '0'))
    else if 'P' <= c <= 'Y' then Some((Some(c as int - 'P' as int), '1'))
    else if c == 'Z' then Some((None, '1'))
    else None
  }

  predicate IsHigh(c: char) { 'P' <= c <= 'Z' }

  function FirstNone(digits: seq<Option<int>>): (i: nat)
    ensures i <= |digits|
    ensures forall k :: 0 <= k < i ==> digits[k].Some?
    ensures i < |digits| ==> digits[i] == None
  {
    if digits == [] || digits[0] == None then 0 else 1 + FirstNone(digits[1..])
  }

  /** Digit `i` once the blank ones, from `first`, stand for the middle of their range. */
  function CenteredDigit(digits: seq<Option<int>>, first: nat, i: nat): int
    requires |digits| == 6 && i < 6
    requires forall k :: 0 <= k < first && k < 6 ==> digits[k].Some?
  {
    if i < first then digits[i].value
    else if i == first then (if 6 - first >= 4 then 3 else 5)
    else 0
  }

  function LongitudeDegrees(byte0: int, offset: int): int {
    var degrees := byte0 - 28 + offset;
    if 180 <= degrees <= 189 then degrees - 80
    else if 190 <= degrees <= 199 then degrees - 190
    else degrees
  }

  function LongitudeMinutes(byte1: int): int {
    if byte1 - 28 >= 60 then byte1 - 88 else byte1 - 28
  }

  /** Hundredths of a minute with `ambiguity` digits replaced by the middle of their range. */
  function CenteredMinutes(minutes: int, hundredths: int, ambiguity: nat): int {
    if ambiguity == 4 then 3000
    else if ambiguity == 3 then (minutes / 10 * 10 + 5) * 100
    else if ambiguity == 2 then minutes * 100 + 50
    else if ambiguity == 1 then minutes * 100 + (hundredths / 10 * 10 + 5)
    else minutes * 100 + hundredths
  }

  /** The body after its identifier, with the space a collapsed field lost put back. */
  function Repaired(information: string, repair: bool): (string, bool) {
    if repair && |information| >= 7 && information[4] == ' '
    then (information[..5] + " " + information[5..], true)
    else (information, false)
  }

  function Latitude(digits: seq<Option<int>>, first: nat): int
    requires |digits| == 6
    requires forall k :: 0 <= k < first && k < 6 ==> digits[k].Some?
  {
    (CenteredDigit(digits, first, 0) * 10 + CenteredDigit(digits, first, 1)) * 6000
    + (CenteredDigit(digits, first, 2) * 10 + CenteredDigit(digits, first, 3)) * 100
    + CenteredDigit(digits, first, 4) * 10 + CenteredDigit(digits, first, 5)
  }

  function Speed(information: string): int
    requires |information| >= 8
  {
    var sp, dc := information[3] as int - 28, information[4] as int - 28;
    var speed := sp * 10 + Quotient10(dc);
    if speed >= 800 then speed - 800 else speed
  }

  function Course(information: string): int
    requires |information| >= 8
  {
    var dc, se := information[4] as int - 28, information[5] as int - 28;
    var course := Remainder10(dc) * 100 + se;
    if course >= 400 then course - 400 else course
  }

  function ParseMicE(destination: string, body: string, repair: bool): Result<MicEReport, MicEError>
    requires body != ""
  {
    var call := destination[..IndexOf(destination, '-')];
    if |call| < 6 then Err(DestinationInvalid)
    else
      var (information, mangled) := Repaired(body[1..], repair);
      if |information| < 8 then Err(InformationShort)
      else if exists k :: 0 <= k < 6 && DestinationDigit(call[k]).None? then Err(DestinationInvalid)
      else
        var digits := seq(6, k requires 0 <= k < 6 => DestinationDigit(call[k]).value.0);
        var message := seq(3, k requires 0 <= k < 3 => DestinationDigit(call[k]).value.1);
        var first := FirstNone(digits);
        var ambiguity := 6 - first;
        if exists k :: first <= k < 6 && digits[k].Some? then Err(DestinationInvalid)
        else if ambiguity > 4 then Err(DestinationInvalid)
        else
          var north, west := IsHigh(call[3]), IsHigh(call[5]);
          var offset := if IsHigh(call[4]) then 100 else 0;
          var degrees := LongitudeDegrees(information[0] as int, offset);
          var minutes := LongitudeMinutes(information[1] as int);
          var hundredths := information[2] as int - 28;
          if degrees < 0 || minutes < 0 || hundredths < 0 then Err(InformationInvalid)
          else if !IsSymbolTable(information[7]) then Err(SymbolTableInvalid)
          else
            Ok(MicEReport(Latitude(digits, first), north,
                          degrees * 6000 + CenteredMinutes(minutes, hundredths, ambiguity), west,
                          ambiguity, message,
                          if mangled then None else Some(Speed(information)),
                          if mangled then None else Some(AsU16(Course(information))),
                          information[7], information[6], mangled, information[8..]))
  }

  // ---- The encoding of chapter 10 --------------------------------------------------------

  datatype MessageBit = Off | Standard | Custom

  datatype Station = Station(latDegrees: nat, latMinutes: nat, latHundredths: nat, north: bool,
                             lonDegrees: nat, lonMinutes: nat, lonHundredths: nat, west: bool,
                             ambiguity: nat, message: seq<MessageBit>,
                             speed: nat, course: nat, table: char, code: char)

  /** The free choices a transmitter has for the same report. */
  datatype Wire = Wire(directDegrees: bool, directMinutes: bool, speedOffset: bool, courseOffset: bool)

  predicate IsStation(s: Station) {
    && s.latDegrees <= 90 && s.latMinutes <= 59 && s.latHundredths <= 99
    && s.lonDegrees <= 179 && s.lonMinutes <= 59 && s.lonHundredths <= 99
    && s.ambiguity <= 4 && |s.message| == 3
    && s.speed <= 799 && s.course <= 360 && IsSymbolTable(s.table)
  }

  /** The +800 form of the speed byte stays ASCII only below 200 knots. */
  predicate IsWire(s: Station, w: Wire) {
    w.speedOffset ==> s.speed < 200
  }

  /** A destination character: a digit or a blank, with one of three message bits. */
  function DestinationChar(digit: int, blank: bool, bit: MessageBit): char
    requires 0 <= digit <= 9
  {
    match bit
    case Off => if blank then 'L' else ('0' as int + digit) as char
    case Standard => if blank then 'Z' else ('P' as int + digit) as char
    case Custom => if blank then 'K' else ('A' as int + digit) as char
  }

  function Bit(high: bool): MessageBit { if high then Standard else Off }

  function LatitudeDigit(s: Station, i: nat): (d: int)
    requires IsStation(s) && i < 6
    ensures 0 <= d <= 9
  {
    [s.latDegrees / 10, s.latDegrees % 10, s.latMinutes / 10, s.latMinutes % 10,
     s.latHundredths / 10, s.latHundredths % 10][i]
  }

  function DestinationBit(s: Station, w: Wire, i: nat): MessageBit
    requires IsStation(s) && i < 6
  {
    if i < 3 then s.message[i]
    else if i == 3 then Bit(s.north)
    else if i == 4 then Bit(OffsetBit(s, w))
    else Bit(s.west)
  }

  /** The longitude offset is used from 100 degrees, and for the indirect form of 0 to 9 degrees. */
  predicate OffsetBit(s: Station, w: Wire) {
    s.lonDegrees >= 100 || (s.lonDegrees <= 9 && !w.directDegrees)
  }

  function Destination(s: Station, w: Wire): (d: string)
    requires IsStation(s)
    ensures |d| == 6
  {
    seq(6, i requires 0 <= i < 6 => DestinationChar(LatitudeDigit(s, i), i >= 6 - s.ambiguity, DestinationBit(s, w, i)))
  }

  function DegreesByte(s: Station, w: Wire): int {
    if s.lonDegrees <= 9 then (if w.directDegrees then s.lonDegrees + 28 else s.lonDegrees + 118)
    else if s.lonDegrees <= 99 then s.lonDegrees + 28
    else if s.lonDegrees <= 109 then (if w.directDegrees then s.lonDegrees - 72 else s.lonDegrees + 8)
    else s.lonDegrees - 72
  }

  function MinutesByte(s: Station, w: Wire): int {
    if s.lonMinutes <= 9 && !w.directMinutes then s.lonMinutes + 88 else s.lonMinutes + 28
  }

  function Information(s: Station, w: Wire): (b: string)
    requires IsStation(s) && IsWire(s, w)
    ensures |b| == 8
  {
    [DegreesByte(s, w) as char, MinutesByte(s, w) as char, (s.lonHundredths + 28) as char,
     (s.speed / 10 + 28 + (if w.speedOffset then 80 else 0)) as char,
     (s.speed % 10 * 10 + s.course / 100 + (if w.courseOffset then 4 else 0) + 28) as char,
     (s.course % 100 + 28) as char, s.code, s.table]
  }

  function MessageText(message: seq<MessageBit>): string {
    seq(|message|, i requires 0 <= i < |message| =>
      match message[i] case Off => '0' case Standard => '1' case Custom => '2')
  }

  // ---- Proofs ----------------------------------------------------------------------------

  lemma DestinationCharDecodes(digit: int, blank: bool, bit: MessageBit)
    requires 0 <= digit <= 9
    ensures var c := DestinationChar(digit, blank, bit);
            && DestinationDigit(c) == Some((if blank then None else Some(digit),
                                            match bit case Off => '0' case Standard => '1' case Custom => '2'))
            && (bit != Custom ==> (IsHigh(c) <==> bit == Standard))
            && c != '-'
  {
  }

  lemma {:induction false} FirstNoneIs(digits: seq<Option<int>>, n: nat)
    requires n <= |digits|
    requires forall k :: 0 <= k < n ==> digits[k].Some?
    requires n < |digits| ==> digits[n] == None
    ensures FirstNone(digits) == n
  {
    if n > 0 { FirstNoneIs(digits[1..], n - 1); }
  }

  lemma LatitudeIs(s: Station, digits: seq<Option<int>>)
    requires IsStation(s) && |digits| == 6
    requires forall k :: 0 <= k < 6 ==> digits[k] == if k >= 6 - s.ambiguity then None else Some(LatitudeDigit(s, k))
    ensures FirstNone(digits) == 6 - s.ambiguity
    ensures Latitude(digits, 6 - s.ambiguity)
            == s.latDegrees * 6000 + Middle(s.latMinutes * 100 + s.latHundredths, s.ambiguity)
  {
    FirstNoneIs(digits, 6 - s.ambiguity);
    MiddleOfParts(s.latMinutes, s.latHundredths, s.ambiguity);
    assert s.latDegrees == s.latDegrees / 10 * 10 + s.latDegrees % 10;
  }

  /** The middle of a blanked range, in minutes and hundredths. */
  lemma MiddleOfParts(minutes: nat, hundredths: nat, k: nat)
    requires minutes <= 59 && hundredths <= 99 && k <= 4
    ensures Middle(minutes * 100 + hundredths, k) == CenteredMinutes(minutes, hundredths, k)
    ensures Middle(minutes * 100 + hundredths, k) ==
            (if k < 4 then minutes / 10 * 10 else 30) * 100
            + (if k < 3 then minutes % 10 else if k == 3 then 5 else 0) * 100
            + (if k < 2 then hundredths / 10 * 10 else if k == 2 then 50 else 0)
            + (if k < 1 then hundredths % 10 else if k == 1 then 5 else 0)
  {
    var m := minutes * 100 + hundredths;
    assert m / 100 == minutes && m / 1000 == minutes / 10;
    assert m / 10 == minutes * 10 + hundredths / 10;
  }

  lemma LongitudeIs(s: Station, w: Wire)
    requires IsStation(s)
    ensures 0 <= DegreesByte(s, w) < 128 && 0 <= MinutesByte(s, w) < 128
    ensures LongitudeDegrees(DegreesByte(s, w), if OffsetBit(s, w) then 100 else 0) == s.lonDegrees
    ensures LongitudeMinutes(MinutesByte(s, w)) == s.lonMinutes
  {
  }

  lemma MotionIs(s: Station, w: Wire, information: string)
    requires IsStation(s) && IsWire(s, w)
    requires |information| >= 8 && information[..8] == Information(s, w)
    ensures Speed(information) == s.speed && Course(information) == s.course
  {
    var b := Information(s, w);
    assert information[3] == b[3] && information[4] == b[4] && information[5] == b[5];
    var dc := s.speed % 10 * 10 + s.course / 100 + (if w.courseOffset then 4 else 0);
    assert Quotient10(dc) == s.speed % 10;
    assert Remainder10(dc) == s.course / 100 + (if w.courseOffset then 4 else 0);
  }

  /** What every wire form of a station decodes to. */
  function Decoded(s: Station, comment: string): MicEReport
    requires IsStation(s)
  {
    MicEReport(s.latDegrees * 6000 + Middle(s.latMinutes * 100 + s.latHundredths, s.ambiguity), s.north,
               s.lonDegrees * 6000 + Middle(s.lonMinutes * 100 + s.lonHundredths, s.ambiguity), s.west,
               s.ambiguity, MessageText(s.message), Some(s.speed), Some(s.course), s.table, s.code, false, comment)
  }

  lemma DestinationDecodes(s: Station, w: Wire)
    requires IsStation(s)
    ensures var d := Destination(s, w);
            && '-' !in d
            && (forall k :: 0 <= k < 6 ==> DestinationDigit(d[k]).Some?)
            && (forall k :: 0 <= k < 6 ==>
                  DestinationDigit(d[k]).value.0 == if k >= 6 - s.ambiguity then None else Some(LatitudeDigit(s, k)))
            && (forall k :: 0 <= k < 3 ==> DestinationDigit(d[k]).value.1 == MessageText(s.message)[k])
            && IsHigh(d[3]) == s.north && IsHigh(d[4]) == OffsetBit(s, w) && IsHigh(d[5]) == s.west
  {
    hide DestinationChar, DestinationDigit, LatitudeDigit, OffsetBit;
    var d := Destination(s, w);
    forall k | 0 <= k < 6
      ensures DestinationDigit(d[k]) == Some((if k >= 6 - s.ambiguity then None else Some(LatitudeDigit(s, k)),
                                              match DestinationBit(s, w, k) case Off => '0' case Standard => '1' case Custom => '2'))
           && d[k] != '-' && (DestinationBit(s, w, k) != Custom ==> (IsHigh(d[k]) <==> DestinationBit(s, w, k) == Standard))
    {
      DestinationCharDecodes(LatitudeDigit(s, k), k >= 6 - s.ambiguity, DestinationBit(s, w, k));
    }
  }

  /** The decoder inverts the encoding: every wire form gives the same values. */
  lemma MicEDecodes(s: Station, w: Wire, identifier: char, comment: string)
    requires IsStation(s) && IsWire(s, w)
    ensures ParseMicE(Destination(s, w), [identifier] + Information(s, w) + comment, false) == Ok(Decoded(s, comment))
  {
    hide Destination, DestinationDigit, LatitudeDigit, IsHigh, DegreesByte, MinutesByte, LongitudeDegrees,
      LongitudeMinutes, OffsetBit, Latitude, Speed, Course, CenteredMinutes, Middle, MessageText, IsSymbolTable,
      FirstNone, IndexOf;
    var d := Destination(s, w);
    DestinationDecodes(s, w);
    assert d[..IndexOf(d, '-')] == d;
    var body := [identifier] + Information(s, w) + comment;
    var information := body[1..];
    assert information == Information(s, w) + comment;
    assert information[..8] == Information(s, w) && information[8..] == comment;
    LongitudeIs(s, w);
    MotionIs(s, w, information);
    var digits := seq(6, k requires 0 <= k < 6 => DestinationDigit(d[k]).value.0);
    LatitudeIs(s, digits);
    var message := seq(3, k requires 0 <= k < 3 => DestinationDigit(d[k]).value.1);
    assert message == MessageText(s.message) by { MessageTextLength(s.message); }
    MiddleOfParts(s.lonMinutes, s.lonHundredths, s.ambiguity);
    InformationBytes(s, w);
  }

  lemma MessageTextLength(message: seq<MessageBit>)
    ensures |MessageText(message)| == |message|
  {
  }

  lemma InformationBytes(s: Station, w: Wire)
    requires IsStation(s) && IsWire(s, w)
    ensures var b := Information(s, w);
            && b[0] as int == DegreesByte(s, w) && b[1] as int == MinutesByte(s, w)
            && b[2] as int == s.lonHundredths + 28 && b[6] == s.code && b[7] == s.table
            && forall k :: 0 <= k < 6 ==> b[k] as int < 128
  {
  }

  /** Half of the range `k` blanked digits leave open, in hundredths of a minute. */
  function HalfCell(k: nat): int {
    if k == 0 then 0 else if k == 1 then 5 else if k == 2 then 50 else if k == 3 then 500 else 3000
  }

  /** Without ambiguity the coordinates are exact, and with it within half a cell. */
  lemma DecodedIsNear(s: Station, comment: string)
    requires IsStation(s)
    ensures var r := Decoded(s, comment);
            var half := HalfCell(s.ambiguity);
            && -half <= r.latitude - (s.latDegrees * 6000 + s.latMinutes * 100 + s.latHundredths) <= half
            && -half <= r.longitude - (s.lonDegrees * 6000 + s.lonMinutes * 100 + s.lonHundredths) <= half
  {
    MiddleIsNear(s.latMinutes * 100 + s.latHundredths, s.ambiguity);
    MiddleIsNear(s.lonMinutes * 100 + s.lonHundredths, s.ambiguity);
  }

  /**
   * Repair: a report whose fifth information byte is a space and which lost the next one decodes,
   * on the second attempt, like the intact report but for speed and course.
   */
  lemma RepairRestores(destination: string, identifier: char, front: string, back: string)
    requires |front| == 5 && front[4] == ' ' && |back| >= 2
    requires ParseMicE(destination, [identifier] + front + " " + back, false).Ok?
    ensures ParseMicE(destination, [identifier] + front + back, true) ==
            Ok(ParseMicE(destination, [identifier] + front + " " + back, false).value
                 .(mangled := true, speed := None, course := None))
  {
    hide DestinationDigit, IsHigh, LongitudeDegrees, LongitudeMinutes, Latitude, Speed, Course, CenteredMinutes,
      IsSymbolTable, FirstNone, IndexOf;
    var damaged, intact := [identifier] + front + back, [identifier] + front + " " + back;
    assert damaged[1..] == front + back && intact[1..] == front + " " + back;
    assert (front + back)[..5] == front && (front + back)[5..] == back;
    assert Repaired(damaged[1..], true) == (intact[1..], true);
  }

  /** Division truncates toward zero, and the course wraps around sixteen bits. */
  lemma DivisionTruncates(n: int)
    ensures n == 10 * Quotient10(n) + Remainder10(n) && -9 <= Remainder10(n) <= 9
    ensures if n >= 0 then Remainder10(n) >= 0 else Remainder10(n) <= 0
    ensures 0 <= AsU16(n) <= 65_535 && exists k :: AsU16(n) == n + 65_536 * k
  {
    assert AsU16(n) == n + 65_536 * -(n / 65_536);
  }

  // ---- Which texts are reports -----------------------------------------------------------

  predicate SaysDigit(c: char) { '0' <= c <= '9' || 'A' <= c <= 'J' || 'P' <= c <= 'Y' }

  /** Six characters with latitude digits, of which up to four at the end are blank. */
  predicate IsLatitudeCall(call: string, digits: nat) {
    && 2 <= digits <= 6 <= |call|
    && forall k :: 0 <= k < 6 ==> if k < digits then SaysDigit(call[k]) else call[k] in {'K', 'L', 'Z'}
  }

  lemma DigitsExactly(call: string)
    requires |call| >= 6
    ensures (exists n :: IsLatitudeCall(call, n)) <==>
            && (forall k :: 0 <= k < 6 ==> DestinationDigit(call[k]).Some?)
            && var digits := seq(6, k requires 0 <= k < 6 => DestinationDigit(call[k]).value.0);
            var first := FirstNone(digits);
            first >= 2 && forall k :: first <= k < 6 ==> digits[k].None?
  {
    if exists n :: IsLatitudeCall(call, n) {
      var n :| IsLatitudeCall(call, n);
      assert forall k :: 0 <= k < 6 ==> DestinationDigit(call[k]).Some?;
      var digits := seq(6, k requires 0 <= k < 6 => DestinationDigit(call[k]).value.0);
      FirstNoneIs(digits, n);
    }
    if forall k :: 0 <= k < 6 ==> DestinationDigit(call[k]).Some? {
      var digits := seq(6, k requires 0 <= k < 6 => DestinationDigit(call[k]).value.0);
      var first := FirstNone(digits);
      if first >= 2 && forall k :: first <= k < 6 ==> digits[k].None? {
        assert forall k :: 0 <= k < 6 ==> (digits[k].Some? <==> SaysDigit(call[k]));
        assert IsLatitudeCall(call, first);
      }
    }
  }

  /** Exactly which destinations and bodies are Mic-E reports. */
  lemma MicEExactly(destination: string, body: string)
    requires body != ""
    ensures ParseMicE(destination, body, false).Ok? <==>
            var call := destination[..IndexOf(destination, '-')];
            && |call| >= 6 && |body| >= 9 && (exists n :: IsLatitudeCall(call, n))
            && (28 <= body[1] as int || 'P' <= call[4] <= 'Z') && 28 <= body[2] as int && 28 <= body[3] as int
            && (body[8] in {'/', '\\'} || 'A' <= body[8] <= 'Z' || 'a' <= body[8] <= 'z' || '0' <= body[8] <= '9')
  {
    hide Latitude, Speed, Course, CenteredMinutes, IndexOf, FirstNone, DestinationDigit, IsLatitudeCall;
    var call := destination[..IndexOf(destination, '-')];
    if |call| >= 6 {
      DigitsExactly(call);
      if |body| >= 9 { assert forall k :: 0 <= k < 8 ==> body[1..][k] == body[k + 1]; }
    }
  }
}
