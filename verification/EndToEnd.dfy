/** From raw packets to the answers of the accessors: which texts come back as they were sent. */
module EndToEnd {
  import opened Text
  import opened Chars
  import opened Numbers
  import opened Utf8
  import opened View
  import opened Telemetry
  import opened Uncompressed
  import opened Comment
  import opened Packet
  import opened PacketProofs
  import opened Sanitize
  import opened Encode
  import Msg = Message
  import Ts = Timestamp
  import Calendar
  import Reports
  import Wr = WeatherReading
  import Wx = Weather

  // ---- Packets by their parts ------------------------------------------------------------

  function RawPacket(header: seq<byte>, rawBody: seq<byte>): seq<byte> {
    header + [COLON] + rawBody
  }

  /** A header that is read, and a body that is there. */
  predicate IsPacket(leaves: Leaves, header: seq<byte>, rawBody: seq<byte>) {
    COLON !in header && leaves.destinationOf(ViewOf(header)).Some? && rawBody != []
  }

  lemma RawPacketSplits(header: seq<byte>, rawBody: seq<byte>)
    requires COLON !in header && rawBody != []
    ensures var raw := RawPacket(header, rawBody);
            && SplitPacket(ViewOf(raw)) == Some((ViewOf(header), ViewOf(rawBody)))
            && raw[|raw| - |rawBody|..] == rawBody
  {
    hide ViewOf;
    var raw := RawPacket(header, rawBody);
    ViewOfSlices(header, [COLON] + rawBody);
    ViewOfSlices([COLON], rawBody);
    assert raw == header + ([COLON] + rawBody);
    assert ViewOf([COLON]) == ":" by { ColonView(); }
    assert ViewOf(raw) == ViewOf(header) + [':'] + ViewOf(rawBody);
    assert ':' !in ViewOf(header) by { NoColon(header); }
    SplitOnceAt(ViewOf(header), ':', ViewOf(rawBody));
  }

  lemma ColonView()
    ensures ViewOf([COLON]) == ":"
  {
  }

  lemma NoColon(header: seq<byte>)
    requires COLON !in header
    ensures ':' !in ViewOf(header)
  {
    var view := ViewOf(header);
    forall k | 0 <= k < |view| ensures view[k] != ':' {
      assert header[k] in header;
    }
  }

  /** A packet whose body parses is delivered, and its accessors answer with the published fields. */
  lemma Delivered(leaves: Leaves, acceptBrokenMicE: bool, header: seq<byte>, rawBody: seq<byte>, f: Fields)
    requires IsPacket(leaves, header, rawBody)
    requires BodyOutcome(leaves, acceptBrokenMicE, BLANK, leaves.destinationOf(ViewOf(header)).value, ViewOf(rawBody))
             == Done(f)
    ensures var r := ParsedPacket(leaves, acceptBrokenMicE, RawPacket(header, rawBody));
            r.Ok? && Seen(r.value) == Answers(Published(f, ViewOf(rawBody), rawBody))
  {
    hide BodyOutcome, PacketIn, Seen, Published, SplitPacket, ViewOf, SanitizeText, AreFieldsClean;
    RawPacketSplits(header, rawBody);
    NothingElseIsLost(leaves, acceptBrokenMicE, leaves.destinationOf(ViewOf(header)).value, ViewOf(rawBody), rawBody);
  }

  lemma Refused(leaves: Leaves, acceptBrokenMicE: bool, header: seq<byte>, rawBody: seq<byte>)
    requires IsPacket(leaves, header, rawBody)
    requires BodyOutcome(leaves, acceptBrokenMicE, BLANK, leaves.destinationOf(ViewOf(header)).value, ViewOf(rawBody))
             .error.Some?
    ensures ParsedPacket(leaves, acceptBrokenMicE, RawPacket(header, rawBody)).Err?
  {
    hide BodyOutcome, PacketIn, Published, SplitPacket, ViewOf, SanitizeText;
    RawPacketSplits(header, rawBody);
  }

  // ---- ASCII -----------------------------------------------------------------------------

  predicate IsAsciiText(s: string) {
    forall c :: c in s ==> c < 128 as char
  }

  function ByteOf(c: char): (b: byte)
    requires c < 128 as char
    ensures IsAscii(b) && b as char == c
  {
    c as int
  }

  function BytesOf(s: string): (bytes: seq<byte>)
    requires IsAsciiText(s)
    ensures |bytes| == |s| && forall k :: 0 <= k < |s| ==> IsAscii(bytes[k]) && bytes[k] as char == s[k]
  {
    seq(|s|, k requires 0 <= k < |s| => assert s[k] in s; ByteOf(s[k]))
  }

  lemma BytesOfAscii(s: string)
    requires IsAsciiText(s)
    ensures AllAscii(BytesOf(s)) && ViewOf(BytesOf(s)) == s && CharsOf(BytesOf(s)) == s
  {
    var bytes := BytesOf(s);
    assert forall k :: 0 <= k < |s| ==> ViewOf(bytes)[k] == s[k] && CharsOf(bytes)[k] == s[k];
  }

  /** ASCII texts are never changed by restoration. */
  lemma AsciiIsNotRestored(value: string, rawBody: seq<byte>)
    requires AllAscii(rawBody)
    ensures Restore(value, ViewOf(rawBody), rawBody) == value
  {
    hide Restore, IsUtf8, ViewOf, CharsOf;
    RestoreIsSlice(value, rawBody);
    var restored := Restore(value, ViewOf(rawBody), rawBody);
    if exists i: nat :: IsRestoredFrom(restored, value, rawBody, i) {
      var i: nat :| IsRestoredFrom(restored, value, rawBody, i);
      AsciiView(rawBody[i..i + |value|]);
    }
  }

  /** A text at the end of a body is published as it was sent exactly when it is valid UTF-8 and clean. */
  lemma TailComesBack(front: seq<byte>, text: seq<byte>)
    requires NON_ASCII !in ViewOf(front)
    ensures SanitizeText(Restore(ViewOf(text), ViewOf(front + text), front + text)) == CharsOf(text)
            <==> IsUtf8(text) && IsClean(CharsOf(text))
  {
    hide Restore, IsUtf8, IsClean;
    TailIsRestored(front, text);
    if IsUtf8(text) {
      SanitizedIsClean(CharsOf(text));
    } else {
      ViewDiffers(text);
      var k :| 0 <= k < |text| && text[k] >= 128;
      assert SanitizeText(ViewOf(text))[k] == '?' && CharsOf(text)[k] == text[k] as char;
    }
  }

  /** The same for comments, which lose their control characters too. */
  lemma TailCommentComesBack(front: seq<byte>, text: seq<byte>)
    requires NON_ASCII !in ViewOf(front)
    ensures SanitizeComment(Restore(ViewOf(text), ViewOf(front + text), front + text)) == CharsOf(text)
            <==> IsUtf8(text) && IsCleanComment(CharsOf(text))
  {
    hide Restore, IsUtf8, IsCleanComment;
    TailIsRestored(front, text);
    if IsUtf8(text) {
      SanitizedCommentIsClean(CharsOf(text));
    } else {
      ViewDiffers(text);
      var k :| 0 <= k < |text| && text[k] >= 128;
      var r := SanitizeComment(ViewOf(text));
      SanitizedIsAscii(text);
      assert CharsOf(text)[k] in CharsOf(text);
    }
  }

  lemma SanitizedIsAscii(text: seq<byte>)
    ensures forall c :: c in SanitizeComment(ViewOf(text)) ==> c < 128 as char
  {
    hide Retained;
    var kept := Retained(ViewOf(text));
    var r := SanitizeText(kept);
    forall c | c in r ensures c < 128 as char {
      var k :| 0 <= k < |r| && r[k] == c;
      assert kept[k] in kept && kept[k] in ViewOf(text);
    }
  }

  // ---- Status reports --------------------------------------------------------------------

  const GREATER: seq<byte> := ['>' as int]

  /** The seventh byte ends a timestamp. */
  predicate StartsWithTime(text: seq<byte>) {
    |text| >= 7 && (text[6] == 'z' as int || text[6] == '/' as int)
  }

  /** A status text comes back from the raw packet exactly when it is clean UTF-8 and starts with no timestamp. */
  lemma StatusComesBack(leaves: Leaves, acceptBrokenMicE: bool, header: seq<byte>, text: seq<byte>)
    requires IsPacket(leaves, header, GREATER + text)
    ensures var r := ParsedPacket(leaves, acceptBrokenMicE, RawPacket(header, GREATER + text));
            && r.Ok?
            && (Seen(r.value).status == Some(CharsOf(text)) && Seen(r.value).rawTimestamp == None
                <==> IsUtf8(text) && IsClean(CharsOf(text)) && !StartsWithTime(text))
  {
    hide BodyOutcome, ParsedPacket, IsUtf8, IsClean, Restore, Seen, TimestampOf, SanitizeText, CharsOf;
    var body := GREATER + text;
    var f := StatusFields(leaves, ViewOf(text));
    StatusIs(leaves, acceptBrokenMicE, leaves.destinationOf(ViewOf(header)).value, text);
    Delivered(leaves, acceptBrokenMicE, header, body, f);
    TailComesBack(GREATER, text);
    PublishedStatus(f, ViewOf(body), body);
  }

  function StatusFields(leaves: Leaves, text: string): Fields {
    StatusOutcome(leaves, BLANK, ">" + text).fields
  }

  lemma StatusIs(leaves: Leaves, acceptBrokenMicE: bool, destination: string, text: seq<byte>)
    ensures NON_ASCII !in ViewOf(GREATER)
    ensures var f := StatusFields(leaves, ViewOf(text));
            && BodyOutcome(leaves, acceptBrokenMicE, BLANK, destination, ViewOf(GREATER + text)) == Done(f)
            && (if StartsWithTime(text) then f.rawTimestamp.Some? && f.status.Some?
                else f == BLANK.(packetType := Some(Status), status := Some(ViewOf(text))))
  {
    hide TimestampOf, BodyOutcome;
    var body := ViewOf(GREATER + text);
    assert body == ">" + ViewOf(text);
    assert body[1..] == ViewOf(text);
    Reports.StatusBodies(leaves, acceptBrokenMicE, destination, body);
  }

  lemma PublishedStatus(f: Fields, parserBody: string, rawBody: seq<byte>)
    requires f.status.Some?
    ensures var g := Published(f, parserBody, rawBody);
            && g.status == Some(SanitizeText(Restore(f.status.value, parserBody, rawBody)))
            && (g.rawTimestamp == None <==> f.rawTimestamp == None)
            && Answers(g).status == g.status && Answers(g).rawTimestamp == g.rawTimestamp
  {
    hide Restore, SanitizeText, SanitizeComment, SanitizeMessage, SanitizeEntries;
  }

  lemma TimestampChars(seconds: int)
    ensures forall c :: c in Ts.EncodeTimestamp(seconds, Ts.DayHourMinute) ==> IsDigitChar(c) || c == 'z'
  {
    hide Ts.CurrentUtc, Calendar.CivilFromDays;
    Ts.ClockRange(seconds);
  }

  /** What stands in front of the text of a status report with a timestamp. */
  function StatusFront(seconds: int): string {
    ">" + Ts.EncodeTimestamp(seconds, Ts.DayHourMinute)
  }

  lemma StatusFrontIsPlain(seconds: int)
    ensures IsAsciiText(StatusFront(seconds)) && NON_ASCII !in StatusFront(seconds)
    ensures IsClean(Ts.EncodeTimestamp(seconds, Ts.DayHourMinute))
    ensures StatusFront(seconds) == ">" + Ts.EncodeTimestamp(seconds, Ts.DayHourMinute)
  {
    hide Ts.EncodeTimestamp;
    TimestampChars(seconds);
  }

  function StatusFrontBytes(seconds: int): seq<byte> {
    StatusFrontIsPlain(seconds);
    BytesOf(StatusFront(seconds))
  }

  /** Behind a timestamp, a status text comes back exactly when it is clean UTF-8, and the time always does for 26 days. */
  lemma TimedStatusComesBack(leaves: Leaves, acceptBrokenMicE: bool, header: seq<byte>, seconds: int, now: int,
                             text: seq<byte>)
    requires IsPacket(leaves, header, StatusFrontBytes(seconds) + text)
    requires 0 <= Ts.DayOf(now) - Ts.DayOf(seconds) <= 26
    ensures var r := ParsedPacket(leaves.(now := Ts.CurrentUtc(now)), acceptBrokenMicE,
                                  RawPacket(header, StatusFrontBytes(seconds) + text));
            && r.Ok?
            && Seen(r.value).rawTimestamp == Some(Ts.EncodeTimestamp(seconds, Ts.DayHourMinute))
            && Seen(r.value).timestamp == Some(Ts.CurrentUtc(seconds).(second := 0))
            && (Seen(r.value).status == Some(CharsOf(text)) <==> IsUtf8(text) && IsClean(CharsOf(text)))
  {
    hide BodyOutcome, ParsedPacket, IsUtf8, IsClean, Restore, Seen, SanitizeText, CharsOf, Ts.EncodeTimestamp,
      Ts.CurrentUtc, IsAsciiText, BytesOf, ViewOf, StatusFront;
    var clock := leaves.(now := Ts.CurrentUtc(now));
    var raw := Ts.EncodeTimestamp(seconds, Ts.DayHourMinute);
    var front := StatusFrontBytes(seconds);
    var body := front + text;
    StatusFrontIsPlain(seconds);
    BytesOfAscii(StatusFront(seconds));
    ViewOfSlices(front, text);
    assert ViewOf(body) == ">" + raw + ViewOf(text);
    Reports.TimedStatus(clock, acceptBrokenMicE, leaves.destinationOf(ViewOf(header)).value, seconds, now, ViewOf(text));
    var f := BLANK.(packetType := Some(Status), status := Some(ViewOf(text)), rawTimestamp := Some(raw),
                    timestamp := Some(Ts.CurrentUtc(seconds).(second := 0)));
    Delivered(clock, acceptBrokenMicE, header, body, f);
    TailComesBack(front, text);
    PublishedStatus(f, ViewOf(body), body);
    SanitizedIsClean(raw);
    PublishedTime(f, ViewOf(body), body);
  }

  lemma PublishedTime(f: Fields, parserBody: string, rawBody: seq<byte>)
    ensures var g := Answers(Published(f, parserBody, rawBody));
            g.rawTimestamp == SanitizeOption(f.rawTimestamp) && g.timestamp == f.timestamp
  {
    hide Restore, SanitizeText, SanitizeComment, SanitizeMessage, SanitizeEntries;
  }

  // ---- Position comments -----------------------------------------------------------------

  /** A comment without the characters that open an extension, and trimmed, is kept. */
  lemma PlainIsKept(c: string)
    requires c != "" && '|' !in c && '!' !in c && '/' !in c
    requires !("PHG" <= c) && !("RNG" <= c) && IsTrimmed(c)
    ensures IsKept(c)
  {
    hide DaoValue, IsFloat, IsTrimmed, IsPayload;
    forall k ensures !DaoAt(c, k) {
      if DaoAt(c, k) { DaoHasBang(c, k); }
    }
    forall k ensures !MarksAltitude(c, k) {
      if MarksAltitude(c, k) { MarkHasSlash(c, k); }
    }
    assert c[0] != '/';
  }

  lemma MarkHasSlash(c: string, k: int)
    requires MarksAltitude(c, k)
    ensures '/' in c
  {
    assert c[k..k + 3][0] == c[k];
  }

  lemma DaoHasBang(c: string, i: int)
    requires DaoAt(c, i)
    ensures '!' in c
  {
    assert c[i..i + 5][0] == c[i];
  }

  lemma PositionChars(s: Station, o: Options)
    requires IsEncodable(s, o)
    ensures var text := PositionText(s.latitude, s.longitude, UsesDao(o), o.ambiguity, Table(s), Code(s));
            IsAsciiText(text) && NON_ASCII !in text
  {
    hide CoordinateText, Digits, Hundredths, MinuteChars, Whole, IsEncodable, InRange;
    EncodableParts(s, o);
    CoordinateChars(s.latitude, 2, UsesDao(o), o.ambiguity, 'N', 'S');
    CoordinateChars(s.longitude, 3, UsesDao(o), o.ambiguity, 'E', 'W');
  }

  lemma CoordinateChars(value: real, degrees: nat, dao: bool, k: nat, positive: char, negative: char)
    requires k <= 4 && IsUpperChar(positive) && IsUpperChar(negative)
    ensures forall c :: c in CoordinateText(value, degrees, dao, k, positive, negative) ==> c < 127 as char
  {
    hide CoordinateText, Digits, Hundredths, Whole;
    CoordinateTextIs(value, degrees, dao, k, positive, negative);
    var d := Digits(Whole(value), degrees);
    assert forall c :: c in d ==> c < 127 as char;
  }

  /** The fixed part of a position, with the timestamp in front of it. */
  function PositionFront(s: Station, o: Options): string
    requires IsEncodable(s, o)
  {
    [Identifier(o)] + (if o.timestamp.Some? then o.timestamp.value else "")
    + PositionText(s.latitude, s.longitude, UsesDao(o), o.ambiguity, Table(s), Code(s))
  }

  /** An uncompressed position under a symbol other than the weather station's. */
  predicate HasComment(s: Station, o: Options) {
    && CanEncode(s, o) && !o.compressed && Code(s) != '_'
    && (o.timestamp.Some? ==> NON_ASCII !in o.timestamp.value)
  }

  /** Whatever stands behind the fixed part is the comment, and is parsed as one. */
  lemma CommentIsRead(leaves: Leaves, acceptBrokenMicE: bool, destination: string, s: Station, o: Options, text: string)
    requires HasComment(s, o)
    ensures var body := PositionFront(s, o) + text;
            && body != ""
            && var out := BodyOutcome(leaves, acceptBrokenMicE, BLANK, destination, body);
            && out.error.None?
            && if IsKept(text) then out.fields.comment == Some(text)
               else out.fields.comment.None? || |out.fields.comment.value| < |text|
  {
    hide BodyOutcome, ParseUncompressed, PositionText, ParsePositionComment, IsEncodable, IsKept, Whole, Middle,
      Hundredths, Resolution, CourseNumber, IsFloat, InRange, TimestampOf;
    EncodableParts(s, o);
    var field := PositionText(s.latitude, s.longitude, UsesDao(o), o.ambiguity, Table(s), Code(s)) + text;
    DigitInFront(s, o, text);
    FieldBodies(leaves, acceptBrokenMicE, destination, o, field);
    assert PositionFront(s, o) + text == [Identifier(o)] + (if o.timestamp.Some? then o.timestamp.value else "") + field;
    PositionDecodes(s.latitude, s.longitude, UsesDao(o), o.ambiguity, Table(s), Code(s), text);
    CommentStaysExactly(ParseUncompressed(field).value);
  }

  lemma PublishedComment(f: Fields, parserBody: string, rawBody: seq<byte>)
    ensures var comment := Answers(Published(f, parserBody, rawBody)).comment;
            && (f.comment.None? ==> comment.None?)
            && (f.comment.Some? ==>
                  && comment == Some(SanitizeComment(Restore(f.comment.value, parserBody, rawBody)))
                  && |comment.value| <= |f.comment.value|)
  {
    hide Restore, SanitizeText, SanitizeComment, SanitizeMessage, SanitizeEntries;
    if f.comment.Some? { SanitizedIsShorter(Restore(f.comment.value, parserBody, rawBody)); }
  }

  lemma SanitizedIsShorter(s: string)
    ensures |SanitizeComment(s)| <= |s|
  {
  }

  lemma FrontIsPlain(s: Station, o: Options)
    requires HasComment(s, o)
    ensures IsAsciiText(PositionFront(s, o)) && NON_ASCII !in PositionFront(s, o)
  {
    hide PositionText, IsEncodable;
    PositionChars(s, o);
  }

  function PositionFrontBytes(s: Station, o: Options): seq<byte>
    requires HasComment(s, o)
  {
    FrontIsPlain(s, o);
    BytesOf(PositionFront(s, o))
  }

  /**
   * The text behind the fixed part of a position comes back from the raw packet exactly when it is UTF-8
   * without control characters in which no extension is found and no end is trimmed. A text of which only
   * the encoding or the control characters are wrong comes back sanitised.
   */
  lemma CommentComesBack(leaves: Leaves, acceptBrokenMicE: bool, header: seq<byte>, s: Station, o: Options,
                         text: seq<byte>)
    requires HasComment(s, o) && IsPacket(leaves, header, PositionFrontBytes(s, o) + text)
    ensures var r := ParsedPacket(leaves, acceptBrokenMicE, RawPacket(header, PositionFrontBytes(s, o) + text));
            && r.Ok?
            && (IsKept(ViewOf(text)) ==>
                  Seen(r.value).comment == Some(SanitizeComment(if IsUtf8(text) then CharsOf(text) else ViewOf(text))))
            && (Seen(r.value).comment == Some(CharsOf(text))
                <==> IsUtf8(text) && IsCleanComment(CharsOf(text)) && IsKept(ViewOf(text)))
  {
    hide BodyOutcome, ParsedPacket, IsUtf8, IsCleanComment, Restore, Seen, SanitizeComment, CharsOf, ViewOf, BytesOf,
      IsAsciiText, PositionFront, IsEncodable, IsKept;
    var front := PositionFrontBytes(s, o);
    var body := front + text;
    FrontIsPlain(s, o);
    BytesOfAscii(PositionFront(s, o));
    ViewOfSlices(front, text);
    var destination := leaves.destinationOf(ViewOf(header)).value;
    CommentIsRead(leaves, acceptBrokenMicE, destination, s, o, ViewOf(text));
    var f := BodyOutcome(leaves, acceptBrokenMicE, BLANK, destination, ViewOf(body)).fields;
    Delivered(leaves, acceptBrokenMicE, header, body, f);
    PublishedComment(f, ViewOf(body), body);
    TailIsRestored(front, text);
    TailCommentComesBack(front, text);
  }

  lemma RetainedStep(s: string)
    requires s != ""
    ensures Retained(s) == if s[0] != NON_ASCII && IsControl(s[0]) then Retained(s[1..]) else [s[0]] + Retained(s[1..])
  {
  }

  /** Control characters leave nothing behind. */
  lemma {:induction false} ControlIsDropped(a: string, c: char, b: string)
    requires IsCleanComment(a) && IsControl(c) && c != NON_ASCII
    ensures Retained(a + [c] + b) == a + Retained(b)
  {
    hide Retained, IsControl;
    var s := a + [c] + b;
    RetainedStep(s);
    if a == "" {
      assert s[1..] == b;
    } else {
      assert a[0] in a && forall x :: x in a[1..] ==> x in a;
      assert s[1..] == a[1..] + [c] + b;
      ControlIsDropped(a[1..], c, b);
      assert a == [a[0]] + a[1..];
    }
  }

  /** A comment with two control characters that the parser still has and the packet has not. */
  lemma ControlsAreLost(leaves: Leaves, acceptBrokenMicE: bool, header: seq<byte>)
      returns (body: string)
    requires COLON !in header && leaves.destinationOf(ViewOf(header)).Some?
    ensures body != "" && IsAsciiText(body)
    ensures var out := BodyOutcome(leaves, acceptBrokenMicE, BLANK, leaves.destinationOf(ViewOf(header)).value, body);
            out.error.None? && out.fields.comment == Some("Test" + [0 as char] + "comment" + [3 as char])
    ensures var r := ParsedPacket(leaves, acceptBrokenMicE, RawPacket(header, BytesOf(body)));
            r.Ok? && Seen(r.value).comment == Some("Testcomment")
  {
    hide BodyOutcome, ParsedPacket, IsUtf8, Restore, Seen, CharsOf, ViewOf, BytesOf, IsAsciiText, PositionFront, Retained,
      SanitizeText, IsKept;
    var zero, three := 0 as char, 3 as char;
    var comment := "Test" + [zero] + "comment" + [three];
    var s := Station(51.0, 3.0, None, None, None, "/-");
    var o := Options(0, false, false, None, false, "");
    assert SymbolOf(s) == "/-" && IsEncodable(s, o);
    PlainWitness(comment);
    FrontIsPlain(s, o);
    assert IsAsciiText(comment) by { WitnessIsAscii(comment); }
    var text := BytesOf(comment);
    BytesOfAscii(comment);
    body := PositionFront(s, o) + comment;
    AsciiParts(PositionFront(s, o), comment);
    CommentIsRead(leaves, acceptBrokenMicE, leaves.destinationOf(ViewOf(header)).value, s, o, comment);
    AsciiIsUtf8(text);
    CommentComesBack(leaves, acceptBrokenMicE, header, s, o, text);
    assert SanitizeComment(comment) == "Testcomment" by { WitnessIsCleaned(); }
  }

  lemma AsciiParts(a: string, b: string)
    requires IsAsciiText(a) && IsAsciiText(b)
    ensures IsAsciiText(a + b) && BytesOf(a + b) == BytesOf(a) + BytesOf(b)
  {
  }

  lemma WitnessIsAscii(comment: string)
    requires comment == "Test" + [0 as char] + "comment" + [3 as char]
    ensures IsAsciiText(comment)
  {
  }

  lemma PlainWitness(comment: string)
    requires comment == "Test" + [0 as char] + "comment" + [3 as char]
    ensures IsKept(comment)
  {
    assert comment[0] == 'T' && comment[|comment| - 1] == 3 as char;
    PlainIsKept(comment);
  }

  lemma WitnessIsCleaned()
    ensures SanitizeComment("Test" + [0 as char] + "comment" + [3 as char]) == "Testcomment"
  {
    hide Retained;
    var rest := "comment" + [3 as char];
    assert "Test" + [0 as char] + "comment" + [3 as char] == "Test" + [0 as char] + rest;
    ControlIsDropped("Test", 0 as char, rest);
    assert rest == "comment" + [3 as char] + "";
    ControlIsDropped("comment", 3 as char, "");
    assert Retained("") == "" by { CleanIsRetained(""); }
    assert "Test" + ("comment" + "") == "Testcomment";
    SanitizedIsClean("Testcomment");
  }

  // ---- Messages --------------------------------------------------------------------------

  lemma CleanSlice(s: string, i: nat, j: nat)
    requires IsClean(s) && i <= j <= |s|
    ensures IsClean(s[i..j])
  {
    assert forall k :: i <= k < j ==> s[k] in s;
  }

  lemma CleanTrimEnd(s: string)
    requires IsClean(s)
    ensures IsClean(TrimEnd(s))
  {
    hide TrimEnd, IsClean;
    var r := TrimEnd(s);
    assert r == s[0..|r|];
    CleanSlice(s, 0, |r|);
  }

  lemma CleanTrim(s: string)
    requires IsClean(s)
    ensures IsClean(Trim(s))
  {
    hide TrimEnd, TrimStart, IsClean;
    CleanTrimEnd(s);
    var e := TrimEnd(s);
    var n := |e| - |TrimStart(e)|;
    TrimStartIsSuffix(e);
    CleanSlice(e, n, |e|);
    assert e[n..] == e[n..|e|];
  }

  lemma CleanParts(a: string, b: string)
    ensures IsClean(a + b) <==> IsClean(a) && IsClean(b)
  {
    assert forall c :: c in a + b <==> c in a || c in b;
  }

  lemma CleanAround(a: string, x: char, b: string)
    requires IsClean(a + [x] + b)
    ensures IsClean(a) && IsClean(b)
  {
    CleanParts(a + [x], b);
    CleanParts(a, [x]);
  }

  lemma CleanResponse(content: string, prefix: string)
    requires IsClean(content)
    ensures IsCleanOption(Msg.ResponseId(content, prefix))
  {
    hide IsClean, TrimEnd, Msg.IsResponseId;
    if prefix <= content {
      CleanSlice(content, |prefix|, |content|);
      assert content[|prefix|..] == content[|prefix|..|content|];
      CleanTrimEnd(content[|prefix|..]);
    }
  }

  /** A clean content field is read as a clean message. */
  lemma CleanContent(destination: string, content: string)
    requires IsClean(destination) && IsClean(content)
    ensures IsCleanMessage(Msg.ParseContent(destination, content))
  {
    hide IsClean, TrimEnd, RSplitOnce, SplitOnce, Msg.ResponseId;
    NothingIsCleanText();
    CleanResponse(content, "ack");
    CleanResponse(content, "rej");
    match RSplitOnce(content, '{')
    case None =>
    case Some((text, tail)) =>
      CleanAround(text, '{', tail);
      CleanTrimEnd(tail);
      var id := TrimEnd(tail);
      match SplitOnce(id, '}')
      case None =>
      case Some((front, ack)) => CleanAround(front, '}', ack);
  }

  lemma NothingIsCleanText()
    ensures IsClean("")
  {
  }

  lemma CleanBody(body: string)
    requires IsClean(body) && Msg.ParseMessage(body).Ok?
    ensures IsCleanMessage(Msg.ParseMessage(body).value)
  {
    hide IsClean, Msg.ParseContent, Trim, IsCleanMessage;
    CleanSlice(body, 1, 10);
    CleanTrim(body[1..10]);
    CleanSlice(body, 11, |body|);
    assert body[11..] == body[11..|body|];
    CleanContent(Trim(body[1..10]), body[11..]);
  }

  lemma {:induction false} CleanPad(s: string, width: nat)
    requires IsClean(s)
    ensures IsClean(Msg.Pad(s, width))
    decreases width - |s|
  {
    if |s| < width {
      CleanParts(s, " ");
      CleanPad(s + " ", width);
    }
  }

  /** A clean message is written as a clean body. */
  lemma CleanEncoding(m: Msg.Message)
    requires IsCleanMessage(m) && Msg.EncodeMessage(m).Ok?
    ensures IsClean(Msg.EncodeMessage(m).value)
  {
    hide IsClean, Msg.Pad, Msg.HasNewline, Msg.IsId;
    assert IsClean(":") && IsClean("rej") && IsClean("ack") && IsClean("{") && IsClean("}") by { MarksAreClean(); }
    CleanPad(m.destination, 9);
    var content := Msg.Content(m).value;
    assert IsClean(content) by {
      if m.rejectionId.Some? { CleanParts("rej", m.rejectionId.value); }
      if m.acknowledgementId.Some? { CleanParts("ack", m.acknowledgementId.value); }
      if m.id.Some? {
        CleanParts(m.text, "{");
        CleanParts(m.text + "{", m.id.value);
        if m.acknowledgementId.Some? {
          CleanParts(m.id.value, "}");
          CleanParts(m.id.value + "}", m.acknowledgementId.value);
          CleanParts(m.text + "{", m.id.value + "}" + m.acknowledgementId.value);
        }
      }
    }
    var padded := Msg.Pad(m.destination, 9);
    CleanParts(":", padded);
    CleanParts(":" + padded, ":");
    CleanParts(":" + padded + ":", content);
  }

  lemma MarksAreClean()
    ensures IsClean(":") && IsClean("rej") && IsClean("ack") && IsClean("{") && IsClean("}")
  {
  }

  lemma MessageBodies(leaves: Leaves, acceptBrokenMicE: bool, destination: string, body: string)
    requires body != "" && body[0] == ':'
    ensures BodyOutcome(leaves, acceptBrokenMicE, BLANK, destination, body) == MessageOutcome(BLANK, body)
  {
    hide MessageOutcome;
  }

  lemma PublishedMessage(f: Fields, rawBody: seq<byte>)
    requires f.message.Some? && AllAscii(rawBody)
    ensures Answers(Published(f, ViewOf(rawBody), rawBody)).message == Some(SanitizeMessage(f.message.value))
  {
    hide Restore, ViewOf, SanitizeText, SanitizeComment, SanitizeMessage, SanitizeOption, SanitizeEntries;
    AsciiIsNotRestored(f.message.value.text, rawBody);
  }

  /** Sanitising does not make up for a message that was read differently. */
  lemma SanitizedMessageDiffers(m: Msg.Message, body: string)
    requires Msg.EncodeMessage(m) == Ok(body) && Msg.ParseMessage(body).Ok?
    ensures SanitizeMessage(Msg.ParseMessage(body).value) == m
            <==> Msg.ParseMessage(body).value == m && IsCleanMessage(m)
  {
    hide Msg.EncodeMessage, Msg.ParseMessage, SanitizeMessage, IsCleanMessage, IsClean;
    SanitizedMessageIsClean(Msg.ParseMessage(body).value);
    if IsCleanMessage(m) {
      CleanEncoding(m);
      CleanBody(body);
    }
  }

  /**
   * An encoded ASCII message comes back from the raw packet exactly when it has a surviving shape and
   * holds no placeholder character.
   */
  lemma MessageComesBack(leaves: Leaves, acceptBrokenMicE: bool, header: seq<byte>, m: Msg.Message, body: string)
    requires Msg.EncodeMessage(m) == Ok(body) && IsAsciiText(body) && IsPacket(leaves, header, BytesOf(body))
    ensures var r := ParsedPacket(leaves, acceptBrokenMicE, RawPacket(header, BytesOf(body)));
            r.Ok? && Seen(r.value).message == Some(m) <==> Msg.Survives(m) && IsCleanMessage(m)
  {
    hide BodyOutcome, ParsedPacket, Msg.EncodeMessage, Msg.ParseMessage, Msg.Survives, Msg.IsTelemetryText, Seen,
      SanitizeMessage, IsCleanMessage, Published, Answers, BytesOf, IsAsciiText;
    var raw, destination := BytesOf(body), leaves.destinationOf(ViewOf(header)).value;
    BytesOfAscii(body);
    StartsWithColon(m);
    MessageBodies(leaves, acceptBrokenMicE, destination, body);
    Msg.RoundTripExactly(m);
    if Msg.ParseMessage(body).Ok? {
      var f := MessageOutcome(BLANK, body).fields;
      Delivered(leaves, acceptBrokenMicE, header, raw, f);
      PublishedMessage(f, raw);
      SanitizedMessageDiffers(m, body);
    } else {
      Refused(leaves, acceptBrokenMicE, header, raw);
    }
  }

  lemma StartsWithColon(m: Msg.Message)
    requires Msg.EncodeMessage(m).Ok?
    ensures Msg.EncodeMessage(m).value != "" && Msg.EncodeMessage(m).value[0] == ':'
  {
  }

  lemma PlainMessageIsRead(leaves: Leaves, acceptBrokenMicE: bool, destination: string, front: string, text: string)
    requires |front| == 11 && front[0] == ':' && front[10] == ':' && text != ""
    requires '{' !in text && !Msg.LooksLikeResponse(text)
    ensures var out := BodyOutcome(leaves, acceptBrokenMicE, BLANK, destination, front + text);
            out == Done(out.fields) && out.fields.message == Some(Msg.Message(Trim(front[1..10]), text, None, None, None))
  {
    hide Msg.ParseContent, Msg.IsTelemetryText, Trim, Msg.LooksLikeResponse;
    var body := front + text;
    assert body[0] == ':' && body[1..10] == front[1..10] && body[11..] == text && body[10] == ':';
    MessageBodies(leaves, acceptBrokenMicE, destination, body);
    Msg.ParsePlain(Trim(front[1..10]), text);
  }

  lemma PublishedText(f: Fields, parserBody: string, rawBody: seq<byte>)
    requires f.message.Some?
    ensures var message := Answers(Published(f, parserBody, rawBody)).message;
            message.Some? && message.value.text == SanitizeText(Restore(f.message.value.text, parserBody, rawBody))
  {
    hide Restore, SanitizeText, SanitizeComment, SanitizeOption, SanitizeEntries;
  }

  /** The text of a message without a number comes back from the raw packet exactly when it is clean UTF-8. */
  lemma MessageTextComesBack(leaves: Leaves, acceptBrokenMicE: bool, header: seq<byte>, front: seq<byte>, text: seq<byte>)
    requires IsPacket(leaves, header, front + text) && NON_ASCII !in ViewOf(front) && text != []
    requires |front| == 11 && ViewOf(front)[0] == ':' && ViewOf(front)[10] == ':'
    requires '{' !in ViewOf(text) && !Msg.LooksLikeResponse(ViewOf(text))
    ensures var r := ParsedPacket(leaves, acceptBrokenMicE, RawPacket(header, front + text));
            && r.Ok? && Seen(r.value).message.Some?
            && (Seen(r.value).message.value.text == CharsOf(text) <==> IsUtf8(text) && IsClean(CharsOf(text)))
  {
    hide BodyOutcome, ParsedPacket, IsUtf8, IsClean, Restore, Seen, SanitizeText, CharsOf, ViewOf, Msg.LooksLikeResponse,
      Trim, Published, Answers;
    var body := front + text;
    ViewOfSlices(front, text);
    var destination := leaves.destinationOf(ViewOf(header)).value;
    PlainMessageIsRead(leaves, acceptBrokenMicE, destination, ViewOf(front), ViewOf(text));
    var f := BodyOutcome(leaves, acceptBrokenMicE, BLANK, destination, ViewOf(body)).fields;
    Delivered(leaves, acceptBrokenMicE, header, body, f);
    PublishedText(f, ViewOf(body), body);
    TailComesBack(front, text);
  }

  // ---- Capabilities ----------------------------------------------------------------------

  /** Capabilities that were read are published as they are exactly when they are clean. */
  lemma CapabilitiesComeBack(leaves: Leaves, acceptBrokenMicE: bool, header: seq<byte>, rawBody: seq<byte>)
    requires IsPacket(leaves, header, rawBody) && ViewOf(rawBody)[0] == '<'
    ensures var r := ParsedPacket(leaves, acceptBrokenMicE, RawPacket(header, rawBody));
            var read := CapabilitiesOutcome(BLANK, ViewOf(rawBody)).fields.capabilities;
            r.Ok? && (Seen(r.value).capabilities == read <==> AreClean(read))
  {
    hide BodyOutcome, ParsedPacket, Seen, Published, Answers, ViewOf, CapabilitiesOf, AreClean, Split, SanitizeEntries;
    var body := ViewOf(rawBody);
    var f := CapabilitiesOutcome(BLANK, body).fields;
    Reports.CapabilityBodies(leaves, acceptBrokenMicE, leaves.destinationOf(ViewOf(header)).value, body);
    Delivered(leaves, acceptBrokenMicE, header, rawBody, f);
    NothingIsSorted();
    CapabilitiesAreSorted([], Split(body[1..], ','));
    EntriesStayExactly(f.capabilities);
    PublishedCapabilities(f, body, rawBody);
  }

  lemma PublishedCapabilities(f: Fields, parserBody: string, rawBody: seq<byte>)
    ensures Answers(Published(f, parserBody, rawBody)).capabilities == SanitizeEntries([], f.capabilities)
  {
    hide Restore, SanitizeText, SanitizeComment, SanitizeMessage, SanitizeOption, SanitizeEntries;
  }

  // ---- Stations --------------------------------------------------------------------------

  /** Nothing a station is shown by is touched on the way out. */
  lemma StationIsPublished(f: Fields, parserBody: string, rawBody: seq<byte>, s: Station, o: Options, scale: real -> int)
    requires IsEncodable(s, o)
    ensures ShowsStation(Answers(Published(f, parserBody, rawBody)), s, o, scale) == ShowsStation(f, s, o, scale)
  {
    hide IsEncodable, IsNear, ShowsAltitude, ShowsMotion, ShowsWind, ShowsLogarithmic, Restore, SanitizeText, SanitizeComment,
      SanitizeMessage, SanitizeOption, SanitizeEntries;
    var g := Answers(Published(f, parserBody, rawBody));
    SameFigures(f, parserBody, rawBody);
    SameMotion(f, g, s, o, scale);
  }

  predicate HasSameFigures(f: Fields, g: Fields) {
    && g.latitude == f.latitude && g.longitude == f.longitude && g.format == f.format && g.ambiguity == f.ambiguity
    && g.table == f.table && g.code == f.code && g.course == f.course && g.speed == f.speed && g.altitude == f.altitude
    && (g.weather.Some? <==> f.weather.Some?)
    && (g.weather.Some? ==> g.weather.value == f.weather.value.(software := g.weather.value.software))
  }

  lemma SameFigures(f: Fields, parserBody: string, rawBody: seq<byte>)
    ensures HasSameFigures(f, Answers(Published(f, parserBody, rawBody)))
  {
    hide Restore, SanitizeText, SanitizeComment, SanitizeMessage, SanitizeOption, SanitizeEntries;
  }

  lemma SameMotion(f: Fields, g: Fields, s: Station, o: Options, scale: real -> int)
    requires IsEncodable(s, o) && HasSameFigures(f, g)
    ensures ShowsAltitude(g, s) == ShowsAltitude(f, s) && ShowsMotion(g, s) == ShowsMotion(f, s)
    ensures ShowsWind(g, s) == ShowsWind(f, s)
    ensures ShowsLogarithmic(g, s, o, scale) == ShowsLogarithmic(f, s, o, scale)
  {
    hide IsEncodable, FeetText, WireCourse, WireSpeed, MotionOf, CommentMotion;
  }

  /** The answers to a packet whose body is an encoded position show the station that was encoded. */
  lemma PositionComesBack(leaves: Leaves, acceptBrokenMicE: bool, header: seq<byte>, rawBody: seq<byte>,
                          s: Station, o: Options, scale: real -> int)
    requires CanEncode(s, o) && IsPacket(leaves, header, rawBody)
    requires EncodePosition(s, o, scale) == Ok(ViewOf(rawBody))
    ensures var r := ParsedPacket(leaves, acceptBrokenMicE, RawPacket(header, rawBody));
            && (r.Ok? <==> !(o.compressed && Code(s) == '}'))
            && (r.Ok? ==> && ShowsStation(Seen(r.value), s, o, scale)
                          && Seen(r.value).packetType == Some(if Code(s) == '_' then WeatherType else Location)
                          && Seen(r.value).messaging == Some(o.messaging)
                          && Seen(r.value).rawTimestamp == SanitizeOption(o.timestamp)
                          && Seen(r.value).timestamp ==
                             if o.timestamp.Some? then TimestampOf(leaves.now, o.timestamp.value) else None)
  {
    hide BodyOutcome, ParsedPacket, Seen, Published, Answers, ViewOf, ShowsStation, EncodePosition,
      IsEncodable, TimestampOf, SanitizeOption;
    var destination := leaves.destinationOf(ViewOf(header)).value;
    EncodedPositionsParse(leaves, acceptBrokenMicE, destination, s, o, scale);
    var out := BodyOutcome(leaves, acceptBrokenMicE, BLANK, destination, ViewOf(rawBody));
    if out.error.None? {
      Delivered(leaves, acceptBrokenMicE, header, rawBody, out.fields);
      StationIsPublished(out.fields, ViewOf(rawBody), rawBody, s, o, scale);
      FlagsArePublished(out.fields, ViewOf(rawBody), rawBody);
      PublishedTime(out.fields, ViewOf(rawBody), rawBody);
    } else {
      Refused(leaves, acceptBrokenMicE, header, rawBody);
    }
  }

  lemma SameFlag(flag: Option<bool>)
    requires flag.Some?
    ensures Some(flag == Some(true)) == flag
  {
    var value := flag.value;
    if value { assert flag == Some(true); } else { assert flag == Some(false); }
  }

  lemma FlagsArePublished(f: Fields, parserBody: string, rawBody: seq<byte>)
    ensures var g := Answers(Published(f, parserBody, rawBody));
            && g.packetType == f.packetType && g.alive == f.alive && g.timestamp == f.timestamp
            && (f.messaging.Some? ==> g.messaging == f.messaging)
            && g.objectName == SanitizeOption(f.objectName)
  {
    hide Restore, SanitizeText, SanitizeComment, SanitizeMessage, SanitizeOption, SanitizeEntries;
    if f.messaging.Some? { SameFlag(f.messaging); }
  }

  lemma ObjectNamesAreClean(name: string)
    requires IsObjectName(name)
    ensures SanitizeOption(Some(TrimEnd(name))) == Some(TrimEnd(name))
  {
    hide TrimEnd;
    var r := TrimEnd(name);
    assert IsClean(name);
    CleanTrimEnd(name);
    SanitizedIsClean(r);
  }

  /** The answers to a packet whose body is an encoded object: its name, its state, its station and its time. */
  lemma ObjectComesBack(leaves: Leaves, acceptBrokenMicE: bool, header: seq<byte>, rawBody: seq<byte>, name: string,
                        alive: bool, seconds: int, now: int, s: Station, o: Options, scale: real -> int)
    requires IsObjectName(name) && IsEncodable(s, o.(timestamp := None, messaging := false))
    requires IsPacket(leaves, header, rawBody)
    ensures var r := ParsedPacket(leaves.(now := Ts.CurrentUtc(now)), acceptBrokenMicE, RawPacket(header, rawBody));
            EncodeObject(name, alive, seconds, s, o, scale) == Ok(ViewOf(rawBody)) ==>
            && (r.Ok? <==> !(o.compressed && Code(s) == '}'))
            && (r.Ok? ==>
                  var g := Seen(r.value);
                  && ShowsStation(g, s, o.(timestamp := None, messaging := false), scale)
                  && g.packetType == Some(Object) && g.objectName == Some(TrimEnd(name)) && g.alive == Some(alive)
                  && (0 <= Ts.DayOf(now) - Ts.DayOf(seconds) <= 26 ==>
                        g.timestamp == if IsPermanentMinute(seconds) then None
                                       else Some(Ts.CurrentUtc(seconds).(second := 0))))
  {
    hide BodyOutcome, ParsedPacket, Seen, Published, Answers, ViewOf, ShowsStation, EncodeObject, IsEncodable,
      IsObjectName, TrimEnd, Ts.CurrentUtc, Ts.EncodeTimestamp, IsPermanentMinute, SanitizeOption;
    if EncodeObject(name, alive, seconds, s, o, scale) != Ok(ViewOf(rawBody)) { return; }
    var clock := leaves.(now := Ts.CurrentUtc(now));
    var destination := leaves.destinationOf(ViewOf(header)).value;
    EncodedObjectsParse(leaves, acceptBrokenMicE, destination, name, alive, seconds, now, s, o, scale);
    var out := BodyOutcome(clock, acceptBrokenMicE, BLANK, destination, ViewOf(rawBody));
    if out.error.None? {
      Delivered(clock, acceptBrokenMicE, header, rawBody, out.fields);
      StationIsPublished(out.fields, ViewOf(rawBody), rawBody, s, o.(timestamp := None, messaging := false), scale);
      FlagsArePublished(out.fields, ViewOf(rawBody), rawBody);
      ObjectNamesAreClean(name);
    } else {
      Refused(clock, acceptBrokenMicE, header, rawBody);
    }
  }

  /** A standard weather report behind an encoded position comes back reading by reading, under every comment. */
  lemma WeatherComesBack(leaves: Leaves, acceptBrokenMicE: bool, header: seq<byte>, rawBody: seq<byte>,
                         s: Station, o: Options, scale: real -> int, r: Wr.Readings, comment: string)
    requires CarriesReport(s, o, r, comment) && IsPacket(leaves, header, rawBody)
    requires EncodePosition(s, o, scale) == Ok(ViewOf(rawBody))
    ensures var p := ParsedPacket(leaves, acceptBrokenMicE, RawPacket(header, rawBody));
            p.Ok? && Seen(p.value).weather.Some? && Wr.Shows(Seen(p.value).weather.value, r)
  {
    hide BodyOutcome, ParsedPacket, Seen, Published, Answers, ViewOf, EncodePosition, CarriesReport, Wr.Shows;
    var destination := leaves.destinationOf(ViewOf(header)).value;
    WeatherReportsParse(leaves, acceptBrokenMicE, destination, s, o, scale, r, comment);
    var f := BodyOutcome(leaves, acceptBrokenMicE, BLANK, destination, ViewOf(rawBody)).fields;
    Delivered(leaves, acceptBrokenMicE, header, rawBody, f);
    SameFigures(f, ViewOf(rawBody), rawBody);
    SameReadings(f.weather.value, Answers(Published(f, ViewOf(rawBody), rawBody)).weather.value, r);
  }

  lemma SameReadings(w: Wx.Weather, v: Wx.Weather, r: Wr.Readings)
    requires v == w.(software := v.software)
    ensures Wr.Shows(v, r) == Wr.Shows(w, r)
  {
  }
}
