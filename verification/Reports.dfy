/**
 * Information fields no encoder of the library writes: Mic-E reports, items, status reports and
 * capabilities, from their wire form to the parser's fields.
 */
module Reports {
  import opened Text
  import opened Chars
  import opened Telemetry
  import opened Numbers
  import opened Uncompressed
  import opened Comment
  import opened SortedMap
  import opened Packet
  import opened PacketProofs
  import opened Encode
  import Cx = Compressed
  import Message
  import Mx = MicE
  import Ts = Timestamp
  import Wx = Weather
  import Wr = WeatherReading

  // ---- Mic-E -----------------------------------------------------------------------------

  /** A coordinate in hundredths of a minute, its comment's DAO extension included. */
  predicate IsAround(a: Angle, negative: bool, hundredths: int, cell: int) {
    a.negative == negative && (hundredths - cell) as real <= a.magnitude * 6000.0 <= (hundredths + cell + 1) as real
  }

  /** A report in any wire form, under any comment, shows the station that sent it. */
  lemma MicEBodiesParse(leaves: Leaves, acceptBrokenMicE: bool, s: Mx.Station, w: Mx.Wire, identifier: char,
                        comment: string)
    requires Mx.IsStation(s) && Mx.IsWire(s, w) && identifier in {'\'', '`'}
    ensures var body := [identifier] + Mx.Information(s, w) + comment;
            var out := BodyOutcome(leaves, acceptBrokenMicE, BLANK, Mx.Destination(s, w), body);
            var g := out.fields;
            && out.error.None?
            && g.packetType == Some(Location) && g.format == Some(MicEFormat) && !g.mangled
            && g.speed == Some(Number(s.speed)) && g.course == Some(Number(s.course))
            && g.table == Some(s.table) && g.code == Some(s.code)
            && g.messageBits == Some(Mx.MessageText(s.message)) && g.ambiguity == Some(s.ambiguity)
            && HasPosition(g)
            && IsAround(g.latitude.value, !s.north,
                        s.latDegrees * 6000 + s.latMinutes * 100 + s.latHundredths, Mx.HalfCell(s.ambiguity))
            && IsAround(g.longitude.value, s.west,
                        s.lonDegrees * 6000 + s.lonMinutes * 100 + s.lonHundredths, Mx.HalfCell(s.ambiguity))
  {
    hide Mx.ParseMicE, Mx.Information, Mx.Destination, Mx.IsStation, Mx.IsWire, Mx.HalfCell, WithMicE, IsAround,
      Mx.Decoded, HasPosition;
    var body := [identifier] + Mx.Information(s, w) + comment;
    assert body[0] == identifier;
    Mx.MicEDecodes(s, w, identifier, comment);
    MicEShows(s, comment);
  }

  lemma MicEShows(s: Mx.Station, comment: string)
    requires Mx.IsStation(s)
    ensures var g := WithMicE(BLANK, Mx.Decoded(s, comment));
            && g.packetType == Some(Location) && g.format == Some(MicEFormat) && !g.mangled
            && g.speed == Some(Number(s.speed)) && g.course == Some(Number(s.course))
            && g.table == Some(s.table) && g.code == Some(s.code)
            && g.messageBits == Some(Mx.MessageText(s.message)) && g.ambiguity == Some(s.ambiguity)
            && HasPosition(g)
            && IsAround(g.latitude.value, !s.north,
                        s.latDegrees * 6000 + s.latMinutes * 100 + s.latHundredths, Mx.HalfCell(s.ambiguity))
            && IsAround(g.longitude.value, s.west,
                        s.lonDegrees * 6000 + s.lonMinutes * 100 + s.lonHundredths, Mx.HalfCell(s.ambiguity))
  {
    hide ParseDao, ParseInlineTelemetry, TakeMicEAltitude, TakeMicETelemetry, Mx.HalfCell, Middle, Mx.IsStation,
      Mx.MessageText, IsMovedAway, IsAround, Resolution, HundredthsAngle;
    var r := Mx.Decoded(s, comment);
    var f := WithMicEPosition(BLANK, r);
    var (telemetry, c1) := ParseInlineTelemetry(comment);
    var (altitude, c2) := TakeMicEAltitude(c1);
    var (oldTelemetry, c3) := TakeMicETelemetry(c2);
    DaoMovesLittle(PositionReport(f.latitude.value, f.longitude.value, f.resolution.value, f.ambiguity.value,
                                  f.table.value, f.code.value, None, None, None, None, None, None, None), c3);
    Mx.DecodedIsNear(s, comment);
    var g := WithMicE(BLANK, r);
    AroundHundredths(r.latitude, !s.north, g.latitude.value,
                     s.latDegrees * 6000 + s.latMinutes * 100 + s.latHundredths, Mx.HalfCell(s.ambiguity));
    AroundHundredths(r.longitude, s.west, g.longitude.value,
                     s.lonDegrees * 6000 + s.lonMinutes * 100 + s.lonHundredths, Mx.HalfCell(s.ambiguity));
  }

  lemma AroundHundredths(decoded: int, negative: bool, a: Angle, hundredths: int, cell: int)
    requires IsMovedAway(HundredthsAngle(decoded, negative), a) && -cell <= decoded - hundredths <= cell
    ensures IsAround(a, negative, hundredths, cell)
  {
    assert HundredthsAngle(decoded, negative).magnitude * 6000.0 == decoded as real;
  }

  /** Altitude of the APRS Protocol Reference 1.0.1, chapter 10: three base-91 digits and a brace. */
  function MicEAltitudeText(metres: int): (s: string)
    requires -10_000 <= metres <= 743_570
    ensures |s| == 4
  {
    var n := metres + 10_000;
    [(n / 8281 + 33) as char, (n / 91 % 91 + 33) as char, (n % 91 + 33) as char, '}']
  }

  /** Three characters in front of the first brace are an altitude exactly when they are base-91 digits. */
  lemma MicEAltitudeExactly(before: string, digits: string, after: string)
    requires |digits| == 3 && '}' !in before && '}' !in digits
    ensures var s := before + digits + "}" + after;
            var (altitude, left) := TakeMicEAltitude(s);
            if forall k :: 0 <= k < 3 ==> '!' <= digits[k] <= '{' then
              left == before + after
              && altitude == Some(8281 * (digits[0] as int - 33) + 91 * (digits[1] as int - 33) + (digits[2] as int - 33) - 10_000)
            else altitude == None && left == s
  {
    hide IndexOf;
    var s := before + digits + "}" + after;
    var n := |before|;
    assert s == before + digits + ['}'] + after;
    IndexOfAt(before + digits, '}', after);
    assert s[n..n + 3] == digits && s[..n] + s[n + 4..] == before + after;
    ThreeDigits(digits);
  }

  lemma ThreeDigits(s: string)
    requires |s| == 3
    ensures Cx.Base91(s) ==
            if forall k :: 0 <= k < 3 ==> '!' <= s[k] <= '{'
            then Some(8281 * (s[0] as int - 33) + 91 * (s[1] as int - 33) + (s[2] as int - 33)) else None
  {
    assert s[..2][..1] == s[..1] && s[..1][..0] == "";
    assert Cx.Base91(s[..1]) == if '!' <= s[0] <= '{' then Some(s[0] as int - 33) else None;
    assert Cx.Base91(s[..2]) == if '!' <= s[0] <= '{' && '!' <= s[1] <= '{'
                                then Some(91 * (s[0] as int - 33) + (s[1] as int - 33)) else None;
  }

  /** Without three characters in front of the first brace there is none. */
  lemma NoMicEAltitude(before: string, after: string)
    requires '}' !in before
    ensures TakeMicEAltitude(before) == (None, before)
    ensures |before| < 3 ==> TakeMicEAltitude(before + "}" + after) == (None, before + "}" + after)
  {
    IndexOfAt(before, '}', after);
  }

  /** The altitude is read anywhere in a comment without an earlier brace, and taken out of it alone. */
  lemma MicEAltitudeReads(before: string, metres: int, rest: string)
    requires -10_000 <= metres <= 743_570 && '}' !in before
    ensures TakeMicEAltitude(before + MicEAltitudeText(metres) + rest) == (Some(metres), before + rest)
  {
    var n, digits := metres + 10_000, MicEAltitudeText(metres)[..3];
    assert MicEAltitudeText(metres) == digits + "}";
    assert n / 91 == 91 * (n / 8281) + n / 91 % 91;
    MicEAltitudeExactly(before, digits, rest);
    assert before + MicEAltitudeText(metres) + rest == before + digits + "}" + rest;
  }

  /** A hexadecimal digit in either case. */
  predicate SaysHex(c: char, n: nat) {
    if n < 10 then c as int == '0' as int + n else n < 16 && c as int in {'a' as int + n - 10, 'A' as int + n - 10}
  }

  predicate SaysByte(s: string, n: nat) {
    |s| == 2 && n < 256 && SaysHex(s[0], n / 16) && SaysHex(s[1], n % 16)
  }

  lemma HexPairs(rest: string, i: nat, n: nat)
    requires 2 * i + 2 <= |rest| && SaysByte(rest[2 * i..2 * i + 2], n)
    ensures IsHexDigit(rest[2 * i]) && IsHexDigit(rest[2 * i + 1])
    ensures 16 * HexDigit(rest[2 * i]) + HexDigit(rest[2 * i + 1]) == n
  {
    var s := rest[2 * i..2 * i + 2];
    assert s[0] == rest[2 * i] && s[1] == rest[2 * i + 1];
  }

  lemma ByteLengths(a: string, b: string, c: string, d: string, e: string, n: seq<nat>)
    requires |n| == 5
    requires SaysByte(a, n[0]) && SaysByte(b, n[1]) && SaysByte(c, n[2]) && SaysByte(d, n[3]) && SaysByte(e, n[4])
    ensures |a| == |b| == |c| == |d| == |e| == 2
  {
  }

  /** Five channels behind an apostrophe. */
  lemma FiveChannelsAreRead(a: string, b: string, c: string, d: string, e: string, n: seq<nat>, after: string)
    requires |n| == 5
    requires SaysByte(a, n[0]) && SaysByte(b, n[1]) && SaysByte(c, n[2]) && SaysByte(d, n[3]) && SaysByte(e, n[4])
    ensures TakeMicETelemetry("'" + (a + b + c + d + e + after)) ==
            (Some(Telemetry(None, [Some(n[0]), Some(n[1]), Some(n[2]), Some(n[3]), Some(n[4])], None)), TrimStart(after))
  {
    hide TrimStart, IsHexDigit, HexDigit, SaysHex, SaysByte;
    var rest := a + b + c + d + e + after;
    assert |a| == |b| == |c| == |d| == |e| == 2 by { ByteLengths(a, b, c, d, e, n); }
    assert ("'" + rest)[1..] == rest;
    assert rest[0..2] == a && rest[2..4] == b && rest[4..6] == c && rest[6..8] == d && rest[8..10] == e && rest[10..] == after;
    HexPairs(rest, 0, n[0]); HexPairs(rest, 1, n[1]); HexPairs(rest, 2, n[2]); HexPairs(rest, 3, n[3]);
    HexPairs(rest, 4, n[4]);
  }

  lemma HexBehind(front: string, after: string)
    requires |front| == 4
    ensures StartsWithHex(front + after, 10) ==> StartsWithHex(after, 6)
  {
    assert forall k :: 0 <= k < |after| ==> after[k] == (front + after)[k + 4];
  }

  /** Two channels, the first and the third, where no six more digits follow; the second is zero. */
  lemma TwoChannelsAreRead(a: string, b: string, m: nat, n: nat, after: string)
    requires SaysByte(a, m) && SaysByte(b, n) && !StartsWithHex(after, 6)
    ensures TakeMicETelemetry("'" + (a + b + after)) ==
            (Some(Telemetry(None, [Some(m), Some(0), Some(n), None, None], None)), TrimStart(after))
  {
    hide TrimStart, IsHexDigit, HexDigit, SaysHex;
    var rest := a + b + after;
    assert ("'" + rest)[1..] == rest;
    assert rest[0..2] == a && rest[2..4] == b && rest[4..] == after;
    HexPairs(rest, 0, m); HexPairs(rest, 1, n);
    HexBehind(a + b, after);
  }

  /** Altitude characters hold no pipe and no space in front, so telemetry elsewhere leaves them alone. */
  lemma TelemetryLeavesAltitude(metres: int, rest: string)
    requires -10_000 <= metres <= 743_570
    ensures var c1 := ParseInlineTelemetry(MicEAltitudeText(metres) + rest).1;
            MicEAltitudeText(metres) <= c1
  {
    hide LastPair, DecodePayload, TrimEnd, IsPayload, MicEAltitudeText;
    var text := MicEAltitudeText(metres);
    AltitudeChars(metres);
    var comment := text + rest;
    match LastPair(comment)
    case None =>
    case Some(pair) =>
      assert comment[pair.0] == '|' && forall k :: 0 <= k < 4 ==> comment[k] == text[k];
      var left := comment[4..pair.0] + comment[pair.1 + 1..];
      assert Without(comment, pair) == text + left;
      assert text + left == text[..3] + ['}'] + left;
      TrimEndAfter(text[..3], '}', left);
      assert TrimEnd(text + left) == text + TrimEnd(left);
  }

  lemma AltitudeChars(metres: int)
    requires -10_000 <= metres <= 743_570
    ensures var text := MicEAltitudeText(metres);
            text[3] == '}' && !IsSpace(text[0]) && forall k :: 0 <= k < 4 ==> text[k] != '|'
  {
  }

  /** An altitude in front of the comment of a Mic-E report comes back through the whole body parser. */
  lemma MicEAltitudesParse(leaves: Leaves, acceptBrokenMicE: bool, s: Mx.Station, w: Mx.Wire, identifier: char,
                           metres: int, rest: string)
    requires Mx.IsStation(s) && Mx.IsWire(s, w) && identifier in {'\'', '`'} && -10_000 <= metres <= 743_570
    ensures var body := [identifier] + Mx.Information(s, w) + (MicEAltitudeText(metres) + rest);
            var out := BodyOutcome(leaves, acceptBrokenMicE, BLANK, Mx.Destination(s, w), body);
            out.error.None? && out.fields.altitude == Some(Number(metres))
  {
    hide Mx.ParseMicE, Mx.Information, Mx.Destination, Mx.IsStation, Mx.IsWire, WithMicE, MicEAltitudeText, Mx.Decoded;
    var comment := MicEAltitudeText(metres) + rest;
    var body := [identifier] + Mx.Information(s, w) + comment;
    assert body[0] == identifier;
    Mx.MicEDecodes(s, w, identifier, comment);
    AltitudeIsKept(s, metres, rest);
  }

  lemma AltitudeIsKept(s: Mx.Station, metres: int, rest: string)
    requires Mx.IsStation(s) && -10_000 <= metres <= 743_570
    ensures WithMicE(BLANK, Mx.Decoded(s, MicEAltitudeText(metres) + rest)).altitude == Some(Number(metres))
  {
    hide ParseDao, ParseInlineTelemetry, TakeMicEAltitude, TakeMicETelemetry, MicEAltitudeText, Middle, Mx.IsStation,
      Mx.MessageText, Resolution, HundredthsAngle;
    var text := MicEAltitudeText(metres);
    TelemetryLeavesAltitude(metres, rest);
    var c1 := ParseInlineTelemetry(text + rest).1;
    assert c1 == text + c1[4..];
    assert "" + text + c1[4..] == c1;
    MicEAltitudeReads("", metres, c1[4..]);
  }

  /**
   * With repair, a report that lost a space after a space, and cannot be read without it, shows what the intact
   * one shows, but for its speed and course, and marked as repaired.
   */
  lemma RepairedReportsParse(leaves: Leaves, destination: string, identifier: char, front: string, back: string)
    requires identifier in {'\'', '`'} && |front| == 5 && front[4] == ' ' && |back| >= 2
    requires Mx.ParseMicE(destination, [identifier] + front + " " + back, false).Ok?
    requires Mx.ParseMicE(destination, [identifier] + front + back, false).Err?
    ensures var intact := BodyOutcome(leaves, false, BLANK, destination, [identifier] + front + " " + back);
            && intact.error.None?
            && BodyOutcome(leaves, true, BLANK, destination, [identifier] + front + back)
               == Done(intact.fields.(mangled := true, speed := None, course := None))
            && BodyOutcome(leaves, false, BLANK, destination, [identifier] + front + back).error.Some?
  {
    hide Mx.ParseMicE, ParseDao, ParseInlineTelemetry, TakeMicEAltitude, TakeMicETelemetry, Resolution, HundredthsAngle;
    Mx.RepairRestores(destination, identifier, front, back);
    var intact, damaged := [identifier] + front + " " + back, [identifier] + front + back;
    assert intact[0] == identifier && damaged[0] == identifier;
    MangledIsRepaired(destination, intact, false);
    NothingToRepair(destination, intact);
  }

  // ---- The comment of a Mic-E report -----------------------------------------------------

  /** A position that is known, with nothing yet of what a comment may add. */
  predicate IsBare(f: Fields) {
    && HasPosition(f) && f.ambiguity.Some? && f.resolution.Some? && f.table.Some? && f.code.Some?
    && f.telemetry == None && f.altitude == None && f.datum == None
  }

  /** No telemetry of either kind, no altitude and no DAO extension. */
  ghost predicate IsMicEPlain(c: string) {
    LastPair(c) == None && '}' !in c && (c == "" || c[0] != '\'') && LastDao(c) < 0 && IsTrimmed(c)
  }

  lemma PlainMicEComment(f: Fields, c: string)
    requires IsBare(f) && IsMicEPlain(c)
    ensures ParseInlineTelemetry(c) == (None, c) && TakeMicEAltitude(c) == (None, c) && TakeMicETelemetry(c) == (None, c)
    ensures WithMicEComment(f, c) == f.(comment := FinalComment(c))
  {
    hide LastPair, LastDao, FinalComment, IsTrimmed, DaoValue;
    NoMicEAltitude(c, "");
  }

  /** The comment of a Mic-E report is kept but for slashes in front. */
  lemma MicECommentIsKept(f: Fields, slashes: string, c: string)
    requires IsBare(f) && IsMicEPlain(slashes + c) && AllSlashes(slashes) && (c != "" ==> c[0] != '/')
    ensures WithMicEComment(f, slashes + c) == f.(comment := if c == "" then None else Some(c))
  {
    hide WithMicEComment, FinalComment, LastPair, LastDao, TakeMicEAltitude, TakeMicETelemetry, IsTrimmed;
    PlainMicEComment(f, slashes + c);
    FinalCommentExactly("", slashes, c, "");
    assert "" + (slashes + c) + "" == slashes + c;
  }

  /** Telemetry between pipes is taken out of the comment of a Mic-E report. */
  lemma MicEPipesAreTaken(f: Fields, before: string, payload: string, after: string)
    requires IsBare(f) && IsPayload(payload) && LastPair("|" + after) == None && IsMicEPlain(Trim(before + after))
    ensures WithMicEComment(f, before + "|" + payload + "|" + after) ==
            WithMicEComment(f, Trim(before + after)).(telemetry := Some(DecodePayload(payload)))
  {
    hide LastPair, LastDao, FinalComment, IsTrimmed, DecodePayload, Trim, TakeMicEAltitude, TakeMicETelemetry, ParseDao,
      IsMicEPlain;
    PayloadInComment(before, payload, after);
    PlainMicEComment(f, Trim(before + after));
  }

  lemma ChannelsAreTaken(f: Fields, channels: string, values: seq<Option<int>>, blanks: string, c: string)
    requires IsBare(f) && IsMicEPlain(c) && AllSpace(blanks)
    requires TakeMicETelemetry("'" + channels + (blanks + c)) == (Some(Telemetry(None, values, None)), TrimStart(blanks + c))
    requires '}' !in channels && LastPair("'" + channels + (blanks + c)) == None
    ensures WithMicEComment(f, "'" + channels + (blanks + c)) ==
            WithMicEComment(f, c).(telemetry := Some(Telemetry(None, values, None)))
  {
    hide LastPair, LastDao, FinalComment, IsTrimmed, TakeMicETelemetry, ParseDao, TrimStart;
    var comment := "'" + channels + (blanks + c);
    NoBrace(blanks);
    NoMicEAltitude(comment, "");
    TrimExactly(blanks, c, "");
    PlainMicEComment(f, c);
  }

  /** So are five old channels in front of it, and the white space behind them. */
  lemma MicEChannelsAreTaken(f: Fields, a: string, b: string, c: string, d: string, e: string, n: seq<nat>,
                             blanks: string, text: string)
    requires IsBare(f) && IsMicEPlain(text) && AllSpace(blanks) && |n| == 5
    requires SaysByte(a, n[0]) && SaysByte(b, n[1]) && SaysByte(c, n[2]) && SaysByte(d, n[3]) && SaysByte(e, n[4])
    requires LastPair("'" + (a + b + c + d + e) + (blanks + text)) == None
    ensures WithMicEComment(f, "'" + (a + b + c + d + e) + (blanks + text)) ==
            WithMicEComment(f, text)
              .(telemetry := Some(Telemetry(None, [Some(n[0]), Some(n[1]), Some(n[2]), Some(n[3]), Some(n[4])], None)))
  {
    hide SaysByte, IsMicEPlain, LastPair, AllSpace, WithMicEComment, TakeMicETelemetry, IsBare;
    var channels := a + b + c + d + e;
    FiveChannelsAreRead(a, b, c, d, e, n, blanks + text);
    assert "'" + (channels + (blanks + text)) == "'" + channels + (blanks + text);
    HexHasNoBrace(a, n[0]); HexHasNoBrace(b, n[1]); HexHasNoBrace(c, n[2]); HexHasNoBrace(d, n[3]); HexHasNoBrace(e, n[4]);
    ChannelsAreTaken(f, channels, [Some(n[0]), Some(n[1]), Some(n[2]), Some(n[3]), Some(n[4])], blanks, text);
  }

  lemma HexHasNoBrace(s: string, n: nat)
    requires SaysByte(s, n)
    ensures '}' !in s
  {
  }

  lemma NoBrace(blanks: string)
    requires AllSpace(blanks)
    ensures '}' !in blanks
  {
  }

  /** An altitude is taken out of the middle. */
  lemma MicEAltitudeIsTaken(f: Fields, before: string, metres: int, after: string)
    requires IsBare(f) && -10_000 <= metres <= 743_570 && IsMicEPlain(before + after)
    requires LastPair(before + MicEAltitudeText(metres) + after) == None
    ensures WithMicEComment(f, before + MicEAltitudeText(metres) + after) ==
            WithMicEComment(f, before + after).(altitude := Some(Number(metres)))
  {
    hide LastPair, LastDao, FinalComment, IsTrimmed, TakeMicEAltitude, TakeMicETelemetry, ParseDao, MicEAltitudeText;
    assert '}' !in before by { assert forall x :: x in before ==> x in before + after; }
    MicEAltitudeReads(before, metres, after);
    PlainMicEComment(f, before + after);
  }

  /** A DAO extension moves the position and names its datum. */
  lemma MicEDaoIsTaken(f: Fields, before: string, d: Dao, after: string, datum: char, moved: Option<Adjustment>)
    requires IsBare(f) && SaysDao(d, datum, moved) && HasOnlyDao(before, d, after) && IsMicEPlain(before + after)
    requires '}' !in DaoMark(d)
    ensures var g := WithMicEComment(f, before + after).(datum := Some(datum));
            WithMicEComment(f, before + DaoMark(d) + after) ==
            if moved == None then g
            else g.(resolution := Some(moved.value.resolution),
                    latitude := Some(MoveAway(f.latitude.value, moved.value.latitude)),
                    longitude := Some(MoveAway(f.longitude.value, moved.value.longitude)))
  {
    hide LastPair, LastDao, FinalComment, IsTrimmed, ParseDao, SaysDao, DaoMark, MoveAway, DaoAt, TakeMicETelemetry;
    var comment := before + DaoMark(d) + after;
    assert forall x :: x in before + after <==> x in before || x in after;
    NoMicEAltitude(comment, "");
    assert TakeMicETelemetry(comment) == (None, comment) by { NoApostrophe(before, d, after); }
    PlainMicEComment(f, before + after);
    var report := PositionReport(f.latitude.value, f.longitude.value, f.resolution.value, f.ambiguity.value,
                                 f.table.value, f.code.value, None, None, None, None, None, None, None);
    DaoIsFound(report, before, d, after, datum, moved);
    PlainDao(report, before + after);
  }

  lemma NoApostrophe(before: string, d: Dao, after: string)
    requires before + after == "" || (before + after)[0] != '\''
    ensures var comment := before + DaoMark(d) + after; TakeMicETelemetry(comment) == (None, comment)
  {
    var comment := before + DaoMark(d) + after;
    if before == "" { assert comment[0] == '!'; } else { assert comment[0] == before[0] == (before + after)[0]; }
  }

  lemma PlainDao(report: PositionReport, c: string)
    requires LastPair(c) == None && LastDao(c) < 0
    ensures ParseDao(report, c) == report.(comment := FinalComment(c))
  {
    hide LastPair, LastDao, FinalComment, DaoValue;
  }

  // ---- NMEA ------------------------------------------------------------------------------

  /** A coordinate as a GPS receiver sends it: degrees, two minute digits and a decimal fraction. */
  function NmeaText(degrees: nat, minutes: nat, fraction: nat, degreeDigits: nat, decimals: nat): string {
    Digits(degrees, degreeDigits) + Digits(minutes, 2) + "." + Digits(fraction, decimals)
  }

  lemma NmeaTextIsTrimmed(text: string)
    requires text != "" && IsDigitChar(text[0]) && IsDigitChar(text[|text| - 1])
    ensures Trim(text) == text
  {
  }

  /** A coordinate reads as what it says exactly when it lies within the limit of its axis. */
  lemma NmeaCoordinateReads(degrees: nat, minutes: nat, fraction: nat, degreeDigits: nat, decimals: nat, side: string)
    requires 1 <= degreeDigits <= 3 && degrees < Pow10(degreeDigits) && minutes <= 59
    requires decimals >= 1 && fraction < Pow10(decimals) && side in {"N", "S", "E", "W"}
    ensures var scale := Pow10(decimals) as real;
            var magnitude := degrees as real + (minutes as real + fraction as real / scale) / 60.0;
            NmeaCoordinate(NmeaText(degrees, minutes, fraction, degreeDigits, decimals), side) ==
            if magnitude > (if side in {"N", "S"} then 89.999999 else 179.999999) then None
            else Some((Angle(magnitude, side in {"S", "W"}), 1852.0 / scale))
  {
    hide NmeaCoordinate, NmeaText;
    NmeaTextReads(degrees, minutes, fraction, degreeDigits, decimals, side);
    FractionIsBelowOne(fraction, Pow10(decimals));
  }

  lemma FractionIsBelowOne(fraction: nat, scale: nat)
    requires fraction < scale
    ensures 0.0 <= fraction as real / scale as real < 1.0
  {
  }

  /** Degrees are the digits before the last two of the whole part. */
  lemma NmeaTextReads(degrees: nat, minutes: nat, fraction: nat, degreeDigits: nat, decimals: nat, side: string)
    requires 1 <= degreeDigits <= 3 && degrees < Pow10(degreeDigits) && minutes <= 59
    requires decimals >= 1 && fraction < Pow10(decimals) && side in {"N", "S", "E", "W"}
    ensures NmeaCoordinate(NmeaText(degrees, minutes, fraction, degreeDigits, decimals), side)
            == NmeaAngle(degrees, minutes, fraction, decimals, side)
  {
    hide Digits, Trim, NumberOf, SplitOnce, NmeaAngle;
    assert Pow10(2) == 100;
    var d, m, f := Digits(degrees, degreeDigits), Digits(minutes, 2), Digits(fraction, decimals);
    NumberOfDigits(degrees, degreeDigits);
    NumberOfDigits(minutes, 2);
    NumberOfDigits(fraction, decimals);
    var whole, text := d + m, NmeaText(degrees, minutes, fraction, degreeDigits, decimals);
    assert text == whole + ['.'] + f;
    assert whole[..degreeDigits] == d && whole[degreeDigits..] == m;
    SplitOnceAt(whole, '.', f);
    assert text[|text| - 1] == f[|f| - 1] && text[0] == d[0];
    NmeaTextIsTrimmed(text);
    SideIsPlain(side);
  }

  lemma SideIsPlain(side: string)
    requires side in {"N", "S", "E", "W"}
    ensures Trim(side) == side && Message.UpperText(side) == side
  {
  }

  /** Fields of a sentence: no separator in them, and the last one not cut short by trimming. */
  predicate AreFields(parts: seq<string>) {
    && |parts| >= 1 && (forall p :: p in parts ==> ',' !in p && '*' !in p) && IsTrimmed(Join(parts, ','))
    && "$GP" <= Join(parts, ',')
  }

  function NmeaStart(leaves: Leaves, destination: string): Fields {
    var (table, code) := leaves.symbolOf(destination);
    BLANK.(packetType := Some(Location), format := Some(NmeaFormat), table := Some(table), code := Some(code))
  }

  lemma {:induction false} JoinHasNoStar(parts: seq<string>)
    requires forall p :: p in parts ==> '*' !in p
    ensures '*' !in JoinTail(parts, ',')
  {
    if parts != [] {
      assert parts[0] in parts;
      JoinHasNoStar(parts[1..]);
    }
  }

  lemma NmeaBodies(leaves: Leaves, acceptBrokenMicE: bool, destination: string, body: string)
    requires |body| >= 3 && body[..3] == "$GP"
    ensures BodyOutcome(leaves, acceptBrokenMicE, BLANK, destination, body) == NmeaOutcome(leaves, BLANK, destination, body)
  {
    hide NmeaOutcome;
    assert body[0] == '$' && body[2] == 'P';
  }

  lemma SentenceText(parts: seq<string>)
    requires AreFields(parts)
    ensures var content := Join(parts, ',');
            |content| >= 3 && content[..3] == "$GP" && '*' !in content && Split(content, ',') == parts
  {
    hide Split, JoinTail, IsTrimmed;
    SplitJoin(parts, ',');
    JoinHasNoStar(parts[1..]);
    assert parts[0] in parts;
  }

  /** A sentence without a checksum reaches the parser of its kind, field by field. */
  lemma SentenceIsSplit(leaves: Leaves, acceptBrokenMicE: bool, destination: string, parts: seq<string>)
    requires AreFields(parts)
    ensures Join(parts, ',') != ""
    ensures BodyOutcome(leaves, acceptBrokenMicE, BLANK, destination, Join(parts, ','))
            == NmeaSentence(NmeaStart(leaves, destination), parts)
  {
    hide BodyOutcome, NmeaSentence, Trim, Split, Join, IsTrimmed;
    var body := Join(parts, ',');
    SentenceText(parts);
    TrimmedStays(body);
    NmeaBodies(leaves, acceptBrokenMicE, destination, body);
  }

  /** Position, speed, course and time of an RMC sentence, accepted exactly when it is active and has a position. */
  lemma RmcParse(leaves: Leaves, acceptBrokenMicE: bool, destination: string, parts: seq<string>)
    requires AreFields(parts) && |parts| >= 10 && parts[0] == "$GPRMC"
    ensures var out := BodyOutcome(leaves, acceptBrokenMicE, BLANK, destination, Join(parts, ','));
            var latitude, longitude := NmeaCoordinate(parts[3], parts[4]), NmeaCoordinate(parts[5], parts[6]);
            if parts[2] == "A" && latitude.Some? && longitude.Some? then
              out == Done(NmeaStart(leaves, destination)
                            .(latitude := Some(latitude.value.0), longitude := Some(longitude.value.0),
                              resolution := Some(RealMax(latitude.value.1, longitude.value.1)),
                              speed := if IsFloat(parts[7]) then Some(Written(parts[7])) else None,
                              course := Some(Written(parts[8])), rawTimestamp := Some(parts[9] + " " + parts[1])))
            else out.error.Some?
  {
    hide BodyOutcome, NmeaCoordinate, IsFloat, Join;
    SentenceIsSplit(leaves, acceptBrokenMicE, destination, parts);
  }

  function RealMax(a: real, b: real): real { if a < b then b else a }

  /** Position and altitude of a GGA sentence, accepted exactly when its fix is not 0 and it has a position. */
  lemma GgaParse(leaves: Leaves, acceptBrokenMicE: bool, destination: string, parts: seq<string>)
    requires AreFields(parts) && |parts| >= 11 && parts[0] == "$GPGGA"
    ensures var out := BodyOutcome(leaves, acceptBrokenMicE, BLANK, destination, Join(parts, ','));
            var latitude, longitude := NmeaCoordinate(parts[2], parts[3]), NmeaCoordinate(parts[4], parts[5]);
            if parts[6] != "0" && latitude.Some? && longitude.Some? then
              out == Done(NmeaStart(leaves, destination)
                            .(latitude := Some(latitude.value.0), longitude := Some(longitude.value.0),
                              resolution := Some(RealMax(latitude.value.1, longitude.value.1)),
                              altitude := if IsFloat(parts[9]) then Some(Written(parts[9])) else None))
            else out.error.Some?
  {
    hide BodyOutcome, NmeaCoordinate, IsFloat, Join;
    SentenceIsSplit(leaves, acceptBrokenMicE, destination, parts);
  }

  /** The position of a GLL sentence. */
  lemma GllParse(leaves: Leaves, acceptBrokenMicE: bool, destination: string, parts: seq<string>)
    requires AreFields(parts) && |parts| >= 5 && parts[0] == "$GPGLL"
    ensures var out := BodyOutcome(leaves, acceptBrokenMicE, BLANK, destination, Join(parts, ','));
            var latitude, longitude := NmeaCoordinate(parts[1], parts[2]), NmeaCoordinate(parts[3], parts[4]);
            if latitude.Some? && longitude.Some? then
              out == Done(NmeaStart(leaves, destination)
                            .(latitude := Some(latitude.value.0), longitude := Some(longitude.value.0),
                              resolution := Some(RealMax(latitude.value.1, longitude.value.1))))
            else out.error.Some?
  {
    hide BodyOutcome, NmeaCoordinate, IsFloat, Join;
    SentenceIsSplit(leaves, acceptBrokenMicE, destination, parts);
  }

  /** Other sentences, and ones that are too short, are refused. */
  lemma OtherSentencesAreRefused(leaves: Leaves, acceptBrokenMicE: bool, destination: string, parts: seq<string>)
    requires AreFields(parts)
    requires |parts| < (if parts[0] == "$GPRMC" then 10 else if parts[0] == "$GPGGA" then 11
                        else if parts[0] == "$GPGLL" then 5 else |parts| + 1)
    ensures BodyOutcome(leaves, acceptBrokenMicE, BLANK, destination, Join(parts, ',')).error.Some?
  {
    hide BodyOutcome, NmeaCoordinate, IsFloat, Join;
    SentenceIsSplit(leaves, acceptBrokenMicE, destination, parts);
  }

  /** A checksum of two characters must match; it is then noted, and the sentence read without it. */
  lemma ChecksumIsChecked(leaves: Leaves, acceptBrokenMicE: bool, destination: string, parts: seq<string>, checksum: string)
    requires AreFields(parts) && |checksum| == 2 && IsTrimmed(Join(parts, ',') + "*" + checksum)
    ensures var content := Join(parts, ',');
            && content != ""
            && BodyOutcome(leaves, acceptBrokenMicE, BLANK, destination, content + "*" + checksum) ==
               if leaves.checksumMatches(content[1..], checksum)
               then NmeaSentence(NmeaStart(leaves, destination).(nmeaChecksumOk := Some(true)), parts)
               else Failed(NmeaInvalid, BLANK)
  {
    hide BodyOutcome, NmeaSentence, Trim, Split, Join, IsTrimmed, IndexOf;
    var content := Join(parts, ',');
    var body := content + "*" + checksum;
    SentenceText(parts);
    TrimmedStays(body);
    assert body[..3] == content[..3];
    NmeaBodies(leaves, acceptBrokenMicE, destination, body);
    assert body == content + ['*'] + checksum;
    SplitOnceAt(content, '*', checksum);
  }

  // ---- Items -----------------------------------------------------------------------------

  predicate IsItemName(name: string) {
    |name| <= 9 && '!' !in name && '_' !in name
  }

  function ItemText(name: string, alive: bool, position: string): string {
    ")" + name + (if alive then "!" else "_") + position
  }

  lemma {:induction false} ItemNameEndIs(body: string, from: nat, end: nat)
    requires from <= end < |body| && end <= 10 && (body[end] == '!' || body[end] == '_')
    requires forall k :: from <= k < end ==> body[k] != '!' && body[k] != '_'
    ensures ItemNameEnd(body, from) == Some(end)
    decreases end - from
  {
    if from < end { ItemNameEndIs(body, from + 1, end); }
  }

  /** An item with an encoded position shows its name, its state and its station, and is an item whatever its symbol. */
  lemma ItemsParse(leaves: Leaves, acceptBrokenMicE: bool, destination: string, name: string, alive: bool,
                   s: Station, o: Options, scale: real -> int)
    requires IsItemName(name) && IsEncodable(s, o)
    ensures var out := BodyOutcome(leaves, acceptBrokenMicE, BLANK, destination,
                                   ItemText(name, alive, PositionField(s, o, scale)));
            && (out.error.None? <==> !(o.compressed && Code(s) == '}'))
            && (out.error.None? ==>
                  var g := out.fields;
                  && ShowsStation(g, s, o, scale)
                  && g.packetType == Some(Item) && g.itemName == Some(name) && g.alive == Some(alive))
  {
    hide PositionOutcome, PositionField, IsEncodable, ShowsStation, ItemNameEnd;
    var field := PositionField(s, o, scale);
    var body := ItemText(name, alive, field);
    var end := |name| + 1;
    FieldFront(s, o, scale);
    assert body[0] == ')' && body[1..end] == name && body[end] == (if alive then '!' else '_') && body[end + 1..] == field;
    assert forall k :: 1 <= k < end ==> body[k] == name[k - 1];
    ItemNameEndIs(body, 1, end);
    var named := BLANK.(packetType := Some(Item), itemName := Some(name), alive := Some(alive));
    FieldShows(named, s, o, scale);
    ItemTypeIsApart(PositionOutcome(named, field).fields, s, o, scale);
  }

  lemma ItemTypeIsApart(g: Fields, s: Station, o: Options, scale: real -> int)
    requires IsEncodable(s, o)
    ensures ShowsStation(g.(packetType := Some(Item)), s, o, scale) == ShowsStation(g, s, o, scale)
  {
    hide IsEncodable, IsNear, WireCourse, WireSpeed, FeetText;
  }

  // ---- Status reports --------------------------------------------------------------------

  /** A status report with a timestamp: both come back on any clock up to 26 days ahead. */
  lemma TimedStatus(leaves: Leaves, acceptBrokenMicE: bool, destination: string, seconds: int, now: int, text: string)
    requires leaves.now == Ts.CurrentUtc(now) && 0 <= Ts.DayOf(now) - Ts.DayOf(seconds) <= 26
    ensures var raw := Ts.EncodeTimestamp(seconds, Ts.DayHourMinute);
            BodyOutcome(leaves, acceptBrokenMicE, BLANK, destination, ">" + raw + text) ==
            Done(BLANK.(packetType := Some(Status), status := Some(text), rawTimestamp := Some(raw),
                        timestamp := Some(Ts.CurrentUtc(seconds).(second := 0))))
  {
    hide Ts.EncodeTimestamp, Ts.CurrentUtc, Ts.ParseTimestamp;
    var raw := Ts.EncodeTimestamp(seconds, Ts.DayHourMinute);
    var body := ">" + raw + text;
    assert body[1..] == raw + text && (raw + text)[..7] == raw && (raw + text)[7..] == text;
    EndsInZulu(seconds);
    assert body[1..][6] == raw[6];
    Ts.RecoveryWindow(seconds, now);
    StatusBodies(leaves, acceptBrokenMicE, destination, body);
  }

  lemma StatusBodies(leaves: Leaves, acceptBrokenMicE: bool, destination: string, body: string)
    requires body != "" && body[0] == '>'
    ensures BodyOutcome(leaves, acceptBrokenMicE, BLANK, destination, body) == StatusOutcome(leaves, BLANK, body)
  {
    hide StatusOutcome;
  }

  lemma EndsInZulu(seconds: int)
    ensures Ts.EncodeTimestamp(seconds, Ts.DayHourMinute)[6] == 'z'
  {
  }

  // ---- Capabilities ----------------------------------------------------------------------

  /** A capability as it is written, with or without a value. */
  datatype Capability = Capability(name: string, value: Option<string>)

  function CapabilityText(c: Capability): string {
    c.name + if c.value.Some? then "=" + c.value.value else ""
  }

  predicate IsCapability(c: Capability) {
    && c.name != "" && '=' !in c.name && ',' !in CapabilityText(c)
    && Trim(CapabilityText(c)) == CapabilityText(c)
  }

  function CapabilityTexts(capabilities: seq<Capability>): (parts: seq<string>)
    ensures |parts| == |capabilities|
    ensures forall k :: 0 <= k < |parts| ==> parts[k] == CapabilityText(capabilities[k])
  {
    seq(|capabilities|, k requires 0 <= k < |capabilities| => CapabilityText(capabilities[k]))
  }

  /** The value of the last capability of a name, empty when it was written without one. */
  function LastValue(capabilities: seq<Capability>, name: string): Option<string>
    decreases |capabilities|
  {
    if capabilities == [] then None
    else
      var c := capabilities[|capabilities| - 1];
      if c.name == name then Some(if c.value.Some? then c.value.value else "")
      else LastValue(capabilities[..|capabilities| - 1], name)
  }

  lemma WithCapabilityIs(known: Entries, c: Capability)
    requires IsCapability(c)
    ensures WithCapability(known, CapabilityText(c)) == Insert(known, c.name, if c.value.Some? then c.value.value else "")
  {
    hide Trim, Insert, SplitOnce;
    var text := CapabilityText(c);
    if c.value.Some? {
      assert text == c.name + ['='] + c.value.value;
      SplitOnceAt(c.name, '=', c.value.value);
    } else {
      assert text == c.name;
    }
  }

  /** White space around a capability does not count, and a part of nothing else is none. */
  lemma CapabilityExactly(known: Entries, before: string, c: Capability, after: string)
    requires IsCapability(c) && AllSpace(before) && AllSpace(after)
    ensures WithCapability(known, before + CapabilityText(c) + after) ==
            Insert(known, c.name, if c.value.Some? then c.value.value else "")
    ensures WithCapability(known, before) == known
  {
    hide Trim, Insert, SplitOnce, CapabilityText, IsCapability;
    WithCapabilityIs(known, c);
    CapabilityIsTrimmed(c);
    TrimExactly(before, CapabilityText(c), after);
    TrimExactly(before, "", "");
    assert before + "" + "" == before;
  }

  lemma CapabilityIsTrimmed(c: Capability)
    requires IsCapability(c)
    ensures IsTrimmed(CapabilityText(c)) && Trim(CapabilityText(c)) == CapabilityText(c)
  {
    hide Trim;
    TrimmedStays(CapabilityText(c));
  }

  lemma {:induction false} PartsAppend(known: Entries, parts: seq<string>, last: string)
    ensures CapabilitiesOf(known, parts + [last]) == WithCapability(CapabilitiesOf(known, parts), last)
    decreases |parts|
  {
    hide WithCapability;
    var all := parts + [last];
    if parts == [] {
      assert all[1..] == [];
    } else {
      assert all[1..] == parts[1..] + [last];
      PartsAppend(WithCapability(known, parts[0]), parts[1..], last);
    }
  }

  /** Every name has the value it was given last, and no other name is there. */
  lemma {:induction false} CapabilityPartsAreRead(capabilities: seq<Capability>, name: string)
    requires forall c :: c in capabilities ==> IsCapability(c)
    ensures Lookup(CapabilitiesOf([], CapabilityTexts(capabilities)), name) == LastValue(capabilities, name)
    decreases |capabilities|
  {
    hide IsCapability, WithCapability, Insert, CapabilityText;
    if capabilities != [] {
      var n := |capabilities| - 1;
      var front, c := capabilities[..n], capabilities[n];
      assert c in capabilities;
      assert CapabilityTexts(capabilities) == CapabilityTexts(front) + [CapabilityText(c)];
      PartsAppend([], CapabilityTexts(front), CapabilityText(c));
      var known := CapabilitiesOf([], CapabilityTexts(front));
      WithCapabilityIs(known, c);
      InsertThenLookup(known, c.name, if c.value.Some? then c.value.value else "", name);
      CapabilityPartsAreRead(front, name);
    }
  }

  /** Capabilities written with commas between them are all read, in the order of their names, and the last of a name wins. */
  lemma CapabilitiesParse(leaves: Leaves, acceptBrokenMicE: bool, destination: string, capabilities: seq<Capability>)
    requires capabilities != [] && forall c :: c in capabilities ==> IsCapability(c)
    ensures var out := BodyOutcome(leaves, acceptBrokenMicE, BLANK, destination,
                                   "<" + Join(CapabilityTexts(capabilities), ','));
            var read := out.fields.capabilities;
            && out == Done(BLANK.(packetType := Some(Capabilities), capabilities := read))
            && IsSorted(read)
            && forall name :: Lookup(read, name) == LastValue(capabilities, name)
  {
    hide CapabilitiesOf, Join, Split, CapabilityTexts, LastValue, Lookup, IsSorted, IsCapability;
    var parts := CapabilityTexts(capabilities);
    var body := "<" + Join(parts, ',');
    assert body[0] == '<' && body[1..] == Join(parts, ',');
    forall p | p in parts ensures ',' !in p {
      var k :| 0 <= k < |parts| && parts[k] == p;
      assert capabilities[k] in capabilities;
      NoCommaIn(capabilities[k]);
    }
    SplitJoin(parts, ',');
    CapabilityBodies(leaves, acceptBrokenMicE, destination, body);
    NothingIsSorted();
    CapabilitiesAreSorted([], parts);
    forall name ensures Lookup(CapabilitiesOf([], parts), name) == LastValue(capabilities, name) {
      CapabilityPartsAreRead(capabilities, name);
    }
  }

  lemma NoCommaIn(c: Capability)
    requires IsCapability(c)
    ensures ',' !in CapabilityText(c)
  {
  }

  lemma CapabilityBodies(leaves: Leaves, acceptBrokenMicE: bool, destination: string, body: string)
    requires body != "" && body[0] == '<'
    ensures BodyOutcome(leaves, acceptBrokenMicE, BLANK, destination, body) == CapabilitiesOutcome(BLANK, body)
  {
    hide CapabilitiesOutcome;
  }

  // ---- Bodies without a type of their own ------------------------------------------------

  /** A body that starts like none of the data types. */
  predicate IsUntyped(body: string) {
    && body != "" && body[0] !in {'!', '=', '/', '@', '\'', '`', ':', ';', ')', '>', '<', '$', '_'}
    && !("T#" <= body) && !("{{" <= body)
  }

  /**
   * Such a body is a beacon for four destinations, and otherwise a position behind the first exclamation mark,
   * which may stand up to forty characters in.
   */
  lemma UntypedBodiesParse(leaves: Leaves, acceptBrokenMicE: bool, destination: string, before: string, position: string)
    requires IsUntyped(before) && '!' !in before
    ensures BodyOutcome(leaves, acceptBrokenMicE, BLANK, destination, before + "!" + position) ==
            if destination in {"ID", "BEACON", "UIDIGI", "CQ"} then Done(BLANK.(packetType := Some(Beacon)))
            else if |before| < 40 then
              PositionOutcome(BLANK.(packetType := Some(Location), messaging := Some(false)), position)
            else Failed(TypeNotSupported, BLANK)
    ensures BodyOutcome(leaves, acceptBrokenMicE, BLANK, destination, before) ==
            if destination in {"ID", "BEACON", "UIDIGI", "CQ"} then Done(BLANK.(packetType := Some(Beacon)))
            else Failed(TypeNotSupported, BLANK)
  {
    hide PositionOutcome;
    var body := before + "!" + position;
    assert body == before + ['!'] + position;
    IndexOfAt(before, '!', position);
    assert body[0] == before[0] && body[|before| + 1..] == position;
    assert !("T#" <= body) && !("{{" <= body) by { SameFront(before, position); }
  }

  lemma SameFront(before: string, position: string)
    requires before != ""
    ensures "T#" <= before + "!" + position ==> "T#" <= before
    ensures "{{" <= before + "!" + position ==> "{{" <= before
  {
    var body := before + "!" + position;
    if |before| == 1 { assert body[1] == '!'; } else { assert body[..2] == before[..2]; }
  }

  /** Weather loggers. */
  lemma LoggersParse(leaves: Leaves, acceptBrokenMicE: bool, destination: string, data: string)
    ensures BodyOutcome(leaves, acceptBrokenMicE, BLANK, destination, "!!" + data) ==
            match leaves.ultimeter(data, true)
            case None => Failed(WeatherInvalid, BLANK.(messaging := Some(false)))
            case Some(w) => Done(BLANK.(messaging := Some(false), packetType := Some(WeatherType), weather := Some(w)))
    ensures BodyOutcome(leaves, acceptBrokenMicE, BLANK, destination, "$ULTW" + data) ==
            match leaves.ultimeter(data, false)
            case None => Failed(WeatherInvalid, BLANK)
            case Some(w) => Done(BLANK.(packetType := Some(WeatherType), weather := Some(w)))
  {
    assert ("!!" + data)[2..] == data && ("$ULTW" + data)[5..] == data;
  }

  /** Telemetry reports and experimental packets. */
  lemma OtherTypesParse(leaves: Leaves, acceptBrokenMicE: bool, destination: string, data: string)
    ensures BodyOutcome(leaves, acceptBrokenMicE, BLANK, destination, "T#" + data) ==
            match leaves.report("T#" + data)
            case None => Failed(TelemetryInvalid, BLANK)
            case Some(t) => Done(BLANK.(packetType := Some(TelemetryType), telemetry := Some(t)))
    ensures BodyOutcome(leaves, acceptBrokenMicE, BLANK, destination, "{{" + data) == Failed(ExperimentalUnsupported, BLANK)
  {
  }

  /** Bodies that are too short, or lack the mark of an object or item, are refused. */
  lemma MalformedBodiesAreRefused(leaves: Leaves, acceptBrokenMicE: bool, destination: string, body: string)
    requires body != ""
    requires (body[0] in {'/', '@'} && |body| < 8) || (body[0] == '_' && |body| < 9)
             || (body[0] == ';' && (|body| < 31 || body[10] !in {'*', '_'}))
             || (body[0] == ')' && forall k :: 1 <= k <= 10 && k < |body| ==> body[k] !in {'!', '_'})
             || (body[0] == ')' && |body| < 15)
             || body in {"!", "="}
    ensures BodyOutcome(leaves, acceptBrokenMicE, BLANK, destination, body).error.Some?
  {
    hide UncompressedOutcome, CompressedOutcome;
  }

  // ---- The extensions of a comment -------------------------------------------------------

  /** A position as any station may write it, with nothing behind its symbol. */
  datatype Spot = Spot(latitude: nat, latitudeMinutes: int, south: bool, longitude: nat, longitudeMinutes: int, west: bool,
                       table: char, code: char)

  predicate IsSpot(s: Spot) {
    && s.latitude <= 89 && 0 <= s.latitudeMinutes <= 7999 && s.longitude <= 179 && 0 <= s.longitudeMinutes <= 7999
    && IsSymbolTable(s.table) && s.code != '_'
  }

  function SpotText(s: Spot): string
    requires IsSpot(s)
  {
    WrittenText(s.latitude, 2, s.latitudeMinutes, 0, if s.south then 'S' else 'N') + [s.table]
    + WrittenText(s.longitude, 3, s.longitudeMinutes, 0, if s.west then 'W' else 'E') + [s.code]
  }

  /** The state after a position with a comment of which nothing is left. */
  function SpotFields(s: Spot, f: Fields): Fields
    requires IsSpot(s)
  {
    f.(format := Some(UncompressedFormat),
       latitude := Some(Angle(s.latitude as real + s.latitudeMinutes as real / 6000.0, s.south)),
       longitude := Some(Angle(s.longitude as real + s.longitudeMinutes as real / 6000.0, s.west)),
       ambiguity := Some(0), resolution := Some(18.52), table := Some(s.table), code := Some(s.code))
  }

  /**
   * The extensions of a comment as fields: power, range, course, speed and altitude in any combination are
   * shown as written, a course that is no number from 1 to 360 as 0.
   */
  lemma ExtensionsParse(f: Fields, s: Spot, e: Front, altitude: string)
    requires IsSpot(s) && IsAltitudeText(altitude) && IsFront(e, "/A=" + altitude)
    ensures var text := PhgFront(e) + (RangeFront(e) + (CourseFront(e) + ("/A=" + altitude)));
            PositionOutcome(f, SpotText(s) + text) ==
            Done(SpotFields(s, f)
                   .(phg := if e.phg.Some? then e.phg else f.phg,
                     range := if e.range.Some? then Some(Written(e.range.value)) else f.range,
                     course := if e.course.Some? then Some(Number(CourseSaid(e.course.value.0))) else f.course,
                     speed := if e.course.None? then f.speed
                              else if IsFloat(e.course.value.1) then Some(Written(e.course.value.1)) else None,
                     altitude := Some(Written(altitude)), comment := None))
  {
    hide ParseUncompressed, ParsePositionComment, IsFront, IsAltitudeText, IsFloat, WrittenText, CourseNumber;
    var text := PhgFront(e) + (RangeFront(e) + (CourseFront(e) + ("/A=" + altitude)));
    SpotIsRead(s, text);
    var p := ParseUncompressed(SpotText(s) + text).value;
    assert HasNoAltitudeMark("" + "/A") && IsPlain("" + "") && "" + "" == "" by { NothingIsPlain(); }
    assert "" + "/A=" + altitude + "" == "/A=" + altitude;
    ExtensionsAreTaken(p, e, "", altitude, "");
    EmptyComment(p.(comment := ""));
    assert (SpotText(s) + text)[0] == SpotText(s)[0];
    if e.course.Some? {
      assert |e.course.value.0| == 3 by { CourseHasThree(e, "/A=" + altitude); }
      CourseIsSaid(e.course.value.0);
    }
  }

  lemma CourseHasThree(e: Front, rest: string)
    requires IsFront(e, rest) && e.course.Some?
    ensures |e.course.value.0| == 3
  {
  }

  /** Telemetry between pipes is shown, and everything else is as it would be without it. */
  lemma TelemetryParse(f: Fields, s: Spot, before: string, payload: string, after: string)
    requires IsSpot(s) && IsPayload(payload) && LastPair("|" + after) == None
    requires IsPlain(before + "|" + payload + "|" + after)
    requires IsPlain(Trim(before + after)) && LastPair(Trim(before + after)) == None
    ensures PositionOutcome(f, SpotText(s) + (before + "|" + payload + "|" + after)) ==
            Done(PositionOutcome(f, SpotText(s) + Trim(before + after)).fields.(telemetry := Some(DecodePayload(payload))))
  {
    hide ParseUncompressed, ParsePositionComment, IsPlain, IsFloat, WrittenText, CourseNumber, DecodePayload, Trim, LastPair;
    var text, left := before + "|" + payload + "|" + after, Trim(before + after);
    SpotIsRead(s, text);
    SpotIsRead(s, left);
    var p := ParseUncompressed(SpotText(s) + text).value;
    TelemetryIsTaken(p, before, payload, after);
    PlainHasNoTelemetry(p.(comment := left));
    assert (SpotText(s) + text)[0] == SpotText(s)[0] && (SpotText(s) + left)[0] == SpotText(s)[0];
  }

  lemma PlainHasNoTelemetry(p: Position)
    requires p.code != '_' && IsPlain(p.comment) && LastPair(p.comment) == None
    ensures ParsePositionComment(p).telemetry == None
  {
    hide IsPlain, TakePhg, TakeRange, TakeCourse, TakeAltitude, LastPair, StripInlineTelemetry, LastDao, DaoValue, FinalComment;
    PlainSteps(p.comment);
  }

  /** A DAO extension moves the position and names its datum, and everything else is as it would be without it. */
  lemma DaoParse(f: Fields, s: Spot, before: string, d: Dao, after: string, datum: char, moved: Option<Adjustment>)
    requires IsSpot(s) && SaysDao(d, datum, moved) && HasOnlyDao(before, d, after)
    requires IsPlain(before + DaoMark(d) + after) && IsPlain(before + after)
    ensures var g := PositionOutcome(f, SpotText(s) + (before + after)).fields.(datum := Some(datum));
            var at := SpotFields(s, f);
            PositionOutcome(f, SpotText(s) + (before + DaoMark(d) + after)) ==
            Done(if moved == None then g
                 else g.(resolution := Some(moved.value.resolution),
                         latitude := Some(MoveAway(at.latitude.value, moved.value.latitude)),
                         longitude := Some(MoveAway(at.longitude.value, moved.value.longitude))))
  {
    hide ParseUncompressed, ParsePositionComment, IsPlain, IsFloat, WrittenText, CourseNumber, LastPair, LastDao, SaysDao,
      DaoAt, DaoMark, MoveAway;
    var text, left := before + DaoMark(d) + after, before + after;
    SpotIsRead(s, text);
    SpotIsRead(s, left);
    var p := ParseUncompressed(SpotText(s) + text).value;
    DaoIsTaken(p, before, d, after, datum, moved);
    PlainStaysInPlace(p.(comment := left));
    assert (SpotText(s) + text)[0] == SpotText(s)[0] && (SpotText(s) + left)[0] == SpotText(s)[0];
  }

  lemma PlainStaysInPlace(p: Position)
    requires p.code != '_' && LastPair(p.comment) == None && LastDao(p.comment) < 0 && IsPlain(p.comment)
    ensures var r := ParsePositionComment(p); r.latitude == p.latitude && r.longitude == p.longitude
  {
    hide IsPlain, TakePhg, TakeRange, TakeCourse, TakeAltitude, LastPair, LastDao, DaoValue, FinalComment;
    PlainSteps(p.comment);
  }

  /** Telemetry in the comment of a weather report is shown, and the comment without it. */
  lemma WeatherTelemetryParse(f: Fields, r: Wr.Readings, before: string, payload: string, after: string)
    requires Wr.AreReadings(r) && Wr.HasNoFieldLetters(before) && Wr.HasNoFieldLetters(after)
    requires '|' !in before && IsPayload(payload) && LastPair("|" + after) == None
    requires Wr.IsPlainText(before + "|" + payload + "|" + after) && IsTrimmed(before + after)
    ensures WithWeather(f, Wr.ReportText(r, before + "|" + payload + "|" + after)) ==
            f.(packetType := Some(WeatherType), weather := Some(Wr.WeatherRead(r)), telemetry := Some(DecodePayload(payload)),
               comment := if before + after == "" then None else Some(before + after))
  {
    hide Wx.WeatherOf, Wr.ReportText, Wr.WeatherRead, Wr.AreReadings, Wr.IsPlainText, LastPair, DecodePayload, Trim, IsTrimmed;
    Wr.TelemetryIsLeft(r, before, payload, after);
    PayloadInComment(before, payload, after);
    TrimmedStays(before + after);
  }

  /** A comment in which nothing starts a field comes back behind a weather report with or without a position. */
  lemma WeatherCommentsParse(f: Fields, r: Wr.Readings, comment: string)
    requires Wr.AreReadings(r) && Wr.HasNoFieldLetters(comment) && Wr.IsPlainText(comment) && LastPair(comment) == None
    ensures var g := f.(packetType := Some(WeatherType), weather := Some(Wr.WeatherRead(r)));
            && WithWeather(f, Wr.ReportText(r, comment)) == g.(comment := if comment == "" then None else Some(comment))
            && WeatherOutcome(f, Wr.PositionlessText(r, comment)) ==
               Done(if comment == "" then g else g.(comment := Some(comment)))
  {
    hide Wx.WeatherOf, Wr.ReportText, Wr.PositionlessText, Wr.WeatherRead, Wr.AreReadings, Wr.HasNoFieldLetters, LastPair,
      Trim, IsTrimmed, Wx.FinishText, Wr.CommentScan;
    Wr.PlainCommentIsLeft(r, comment);
    Wr.PlainFinish(comment, Wr.WeatherRead(r));
    Wr.StandardReport(r, comment);
    TrimmedStays(comment);
  }

  lemma NothingIsPlain()
    ensures HasNoAltitudeMark("" + "/A") && IsPlain("" + "") && "" + "" == ""
  {
    hide IsFloat;
  }

  lemma EmptyComment(p: Position)
    requires p.code != '_' && p.comment == ""
    ensures ParsePositionComment(p) == PositionReport(p.latitude, p.longitude, p.resolution, p.ambiguity, p.table, p.code,
                                                      None, None, None, None, None, None, None)
  {
  }

  lemma SpotIsRead(s: Spot, text: string)
    requires IsSpot(s)
    ensures ParseUncompressed(SpotText(s) + text) ==
            Ok(Position(Angle(s.latitude as real + s.latitudeMinutes as real / 6000.0, s.south),
                        Angle(s.longitude as real + s.longitudeMinutes as real / 6000.0, s.west),
                        0, 18.52, s.table, s.code, text))
    ensures IsDigitChar(SpotText(s)[0])
  {
    hide ParseUncompressed, MinuteChars, Digits;
    PositionExactly(s.latitude, s.latitudeMinutes, 0, if s.south then 'S' else 'N',
                    s.longitude, s.longitudeMinutes, 0, if s.west then 'W' else 'E', s.table, s.code, text);
    assert SpotText(s)[0] == Digits(s.latitude, 2)[0];
  }

  function BareText(table: char, latitude: nat, longitude: nat, code: char, first: int, second: int, kind: int): string
    requires 0 <= first <= 90 && 0 <= second <= 90 && 0 <= kind <= 90
  {
    [table] + Cx.Base91Text(latitude) + Cx.Base91Text(longitude)
    + [code, (first + 33) as char, (second + 33) as char, (kind + 33) as char]
  }

  lemma BareTextIsRead(table: char, latitude: nat, longitude: nat, code: char, first: int, second: int, kind: int)
    requires latitude < Cx.LIMIT && longitude < Cx.LIMIT && IsBase91Char(code)
    requires 0 <= first <= 90 && 0 <= second <= 90 && 0 <= kind <= 90
    ensures Cx.ParseCompressed(BareText(table, latitude, longitude, code, first, second, kind)) ==
            Ok(Cx.CompressedPosition(90.0 - latitude as real / 380_926.0, -180.0 + longitude as real / 190_463.0,
                                     if 'a' <= table <= 'j' then table - 49 as char else table, code,
                                     Cx.ParseExtension((first + 33) as char, (second + 33) as char, (kind + 33) as char), ""))
  {
    hide Cx.Base91Text, Cx.Base91, Cx.ParseExtension;
    var a, b := Cx.Base91Text(latitude), Cx.Base91Text(longitude);
    var text := BareText(table, latitude, longitude, code, first, second, kind);
    Cx.Base91RoundTrip(latitude);
    Cx.Base91RoundTrip(longitude);
    assert text[1..5] == a && text[5..9] == b && text[13..] == "";
    assert text[9] == code && text[10] == (first + 33) as char;
    assert text[11] == (second + 33) as char && text[12] == (kind + 33) as char;
    assert forall k :: 1 <= k < 5 ==> text[k] == a[k - 1];
    assert forall k :: 5 <= k < 9 ==> text[k] == b[k - 5];
  }

  /**
   * Every compressed position without a comment: its coordinates from the two base-91 numbers, and one of
   * altitude, course with speed, and range from the compression bytes.
   */
  lemma CompressedParse(f: Fields, table: char, latitude: nat, longitude: nat, code: char,
                        first: int, second: int, kind: int)
    requires latitude < Cx.LIMIT && longitude < Cx.LIMIT && IsBase91Char(code) && code != '_'
    requires table != ' ' && !IsDigitChar(table) && 0 <= first <= 90 && 0 <= second <= 90 && 0 <= kind <= 90
    ensures var lat, lon := 90.0 - latitude as real / 380_926.0, -180.0 + longitude as real / 190_463.0;
            var g := f.(format := Some(CompressedFormat), resolution := Some(0.291), code := Some(code),
                        latitude := Some(Angle(Abs(lat), lat < 0.0)), longitude := Some(Angle(Abs(lon), lon < 0.0)),
                        table := Some(if 'a' <= table <= 'j' then table - 49 as char else table), comment := None);
            PositionOutcome(f, BareText(table, latitude, longitude, code, first, second, kind)) ==
            Done(if 16 <= kind % 32 <= 23 then g.(altitude := Some(Exponent(91 * first + second)))
                 else if first == 90 then g.(range := Some(Exponent(second)))
                 else g.(course := Some(Number(if first == 0 then 360 else 4 * first)), speed := Some(Exponent(second))))
  {
    hide Cx.ParseExtension, Cx.ParseCompressed, ParsePositionComment, BareText;
    var text := BareText(table, latitude, longitude, code, first, second, kind);
    BareTextIsRead(table, latitude, longitude, code, first, second, kind);
    Cx.ExtensionsExactly(first, second, kind);
    assert text != "" && text[0] == table by { TableInFront(table, latitude, longitude, code, first, second, kind); }
    EmptyComment(Plain(Cx.ParseCompressed(text).value));
  }

  lemma TableInFront(table: char, latitude: nat, longitude: nat, code: char, first: int, second: int, kind: int)
    requires 0 <= first <= 90 && 0 <= second <= 90 && 0 <= kind <= 90
    ensures var text := BareText(table, latitude, longitude, code, first, second, kind); text != "" && text[0] == table
  {
  }
}
