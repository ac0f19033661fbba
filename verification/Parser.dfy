/**
 * The parser as the source runs it: a state that the body parsers write to (src/packet/parser.rs,
 * src/position.rs) and that is then published as a typed packet (src/packet/types.rs).
 */
module Parser {
  import opened Text
  import opened Chars
  import opened Telemetry
  import opened Numbers
  import opened Uncompressed
  import opened Comment
  import opened SortedMap
  import opened View
  import opened Packet
  import opened PacketProofs
  import opened Sanitize
  import Cx = Compressed
  import Mx = MicE
  import Msg = Message
  import Wx = Weather

  /** The state the body parsers write to, one field of the record after the other. */
  class ParseState {
    const destination: string
    var body: string
    var fields: Fields

    constructor (destination: string, body: string)
      ensures fields == BLANK && this.destination == destination && this.body == body
    {
      this.destination, this.body, fields := destination, body, BLANK;
    }

    // -- Position bodies --

    method ParseWeatherComment(data: string)
      modifies `fields
      ensures fields == WithWeather(old(fields), data)
    {
      hide Wx.WeatherOf, ParseInlineTelemetry, TextOrNone;
      var found, c1 := Wx.WeatherFromComment(data);
      var (inline, c2) := ParseInlineTelemetry(c1);
      if inline.Some? { fields := fields.(telemetry := inline); }
      fields := fields.(packetType := Some(WeatherType));
      fields := fields.(weather := Some(found));
      fields := fields.(comment := TextOrNone(c2));
    }

    method ParsePositionExtensions(p: Position)
      requires p.code != '_'
      modifies `fields
      ensures fields == WithReport(old(fields), ParsePositionComment(p))
      ensures HasPosition(fields) && SameIdentity(old(fields), fields)
      ensures IsMovedAway(p.latitude, fields.latitude.value) && IsMovedAway(p.longitude, fields.longitude.value)
    {
      hide ParsePositionComment, IsFloat, IsMovedAway, CourseNumber;
      CommentMovesLittle(p);
      var r := ParsePositionComment(p);
      fields := fields.(phg := OrKept(r.phg, fields.phg));
      fields := fields.(range := if r.range.Some? then Some(Written(r.range.value)) else fields.range);
      if r.course.Some? {
        var (course, speed) := r.course.value;
        fields := fields.(course := Some(Number(CourseNumber(course))));
        fields := fields.(speed := if IsFloat(speed) then Some(Written(speed)) else None);
      }
      fields := fields.(altitude := if r.altitude.Some? then Some(Written(r.altitude.value)) else fields.altitude);
      fields := fields.(telemetry := OrKept(r.telemetry, fields.telemetry));
      fields := fields.(datum := OrKept(r.datum, fields.datum));
      fields := fields.(resolution := Some(r.resolution),
                        latitude := Some(r.latitude), longitude := Some(r.longitude));
      fields := fields.(comment := r.comment);
    }

    method ParseUncompressedPosition(text: string) returns (error: Option<ParseError>)
      modifies `fields
      ensures Outcome(error, fields) == UncompressedOutcome(old(fields), text)
      ensures error.None? ==> Positioned(old(fields), fields)
    {
      hide ParsePositionComment, ParseUncompressed, WithWeather, WithReport, Positioned, SameIdentity, IsMovedAway;
      if UncompressedOutcome(fields, text).error.None? { UncompressedIsPositioned(fields, text); }
      match ParseUncompressed(text) {
        case Err(e) => return Some(BadPosition(e));
        case Ok(p) =>
          fields := fields.(format := Some(UncompressedFormat));
          fields := fields.(latitude := Some(p.latitude));
          fields := fields.(longitude := Some(p.longitude));
          fields := fields.(ambiguity := Some(p.ambiguity));
          fields := fields.(resolution := Some(p.resolution));
          fields := fields.(table := Some(p.table));
          fields := fields.(code := Some(p.code));
          if p.code == '_' { ParseWeatherComment(p.comment); } else { ParsePositionExtensions(p); }
          return None;
      }
    }

    method ParseCompressedPosition(text: string) returns (error: Option<ParseError>)
      modifies `fields
      ensures Outcome(error, fields) == CompressedOutcome(old(fields), text)
      ensures error.None? ==> Positioned(old(fields), fields)
    {
      hide ParsePositionComment, Cx.ParseCompressed, WithWeather, WithReport, SignedAngle, Positioned, SameIdentity,
        IsMovedAway;
      if CompressedOutcome(fields, text).error.None? { CompressedIsPositioned(fields, text); }
      match Cx.ParseCompressed(text) {
        case Err(e) => return Some(BadCompressed(e));
        case Ok(p) =>
          fields := fields.(format := Some(CompressedFormat));
          fields := fields.(latitude := Some(SignedAngle(p.latitude)));
          fields := fields.(longitude := Some(SignedAngle(p.longitude)));
          fields := fields.(resolution := Some(COMPRESSED_RESOLUTION));
          fields := fields.(table := Some(p.table));
          fields := fields.(code := Some(p.code));
          match p.extension {
            case Nothing =>
            case AltitudeExponent(n) => fields := fields.(altitude := Some(Exponent(n)));
            case CourseSpeed(c, s) =>
              fields := fields.(course := Some(Number(c)));
              fields := fields.(speed := Some(Exponent(s)));
            case RangeExponent(n) => fields := fields.(range := Some(Exponent(n)));
          }
          if p.code == '_' { ParseWeatherComment(p.comment); } else { ParsePositionExtensions(Plain(p)); }
          return None;
      }
    }

    method ParsePosition(text: string) returns (error: Option<ParseError>)
      modifies `fields
      ensures Outcome(error, fields) == PositionOutcome(old(fields), text)
      ensures error.None? ==> Positioned(old(fields), fields)
    {
      hide UncompressedOutcome, CompressedOutcome, Positioned;
      if text == "" { return Some(PositionShort); }
      if IsDigitChar(text[0]) || text[0] == ' ' {
        error := ParseUncompressedPosition(text);
      } else {
        error := ParseCompressedPosition(text);
      }
    }

    method ReadMicEComment(text: string)
      requires HasPosition(fields) && fields.ambiguity.Some? && fields.resolution.Some?
      requires fields.table.Some? && fields.code.Some?
      modifies `fields
      ensures fields == WithMicEComment(old(fields), text)
    {
      hide ParseDao, ParseInlineTelemetry, TakeMicEAltitude, TakeMicETelemetry;
      var (inline, c1) := ParseInlineTelemetry(text);
      fields := fields.(telemetry := OrKept(inline, fields.telemetry));
      var (metres, c2) := TakeMicEAltitude(c1);
      if metres.Some? { fields := fields.(altitude := Some(Number(metres.value))); }
      var (channels, c3) := TakeMicETelemetry(c2);
      fields := fields.(telemetry := OrKept(channels, fields.telemetry));
      var f := fields;
      var report := ParseDao(PositionReport(f.latitude.value, f.longitude.value, f.resolution.value,
                                            f.ambiguity.value, f.table.value, f.code.value,
                                            None, None, None, None, None, None, None), c3);
      fields := fields.(datum := OrKept(report.datum, fields.datum));
      fields := fields.(latitude := Some(report.latitude), longitude := Some(report.longitude));
      fields := fields.(resolution := Some(report.resolution));
      fields := fields.(comment := report.comment);
    }

    /** A first attempt that fails leaves nothing behind. */
    method ParseMicE(repair: bool) returns (error: Option<ParseError>)
      requires body != ""
      modifies `fields
      ensures Outcome(error, fields) == MicEOutcome(old(fields), destination, body, repair)
      ensures error.Some? && !repair ==> fields == old(fields)
    {
      hide Mx.ParseMicE, WithMicEComment, Repairs, HundredthsAngle, Resolution;
      NothingToRepair(destination, body);
      if Repairs(destination, body, repair) { fields := fields.(mangled := true); }
      match Mx.ParseMicE(destination, body, repair) {
        case Err(e) => return Some(BadMicE(e));
        case Ok(r) =>
          MangledIsRepaired(destination, body, repair);
          fields := fields.(packetType := Some(Location));
          fields := fields.(format := Some(MicEFormat));
          fields := fields.(latitude := Some(HundredthsAngle(r.latitude, !r.north)));
          fields := fields.(longitude := Some(HundredthsAngle(r.longitude, r.west)));
          fields := fields.(ambiguity := Some(r.ambiguity));
          fields := fields.(resolution := Some(Resolution(r.ambiguity)));
          var known := !fields.mangled;
          fields := fields.(speed := if known && r.speed.Some? then Some(Number(r.speed.value)) else None);
          fields := fields.(course := if known && r.course.Some? then Some(Number(r.course.value)) else None);
          fields := fields.(code := Some(r.code));
          fields := fields.(table := Some(r.table));
          fields := fields.(messageBits := Some(r.messageBits));
          ReadMicEComment(r.comment);
          return None;
      }
    }

    // -- The other bodies --

    method ParseNmea(leaves: Leaves) returns (error: Option<ParseError>)
      modifies `fields
      ensures Outcome(error, fields) == NmeaOutcome(leaves, old(fields), destination, body)
    {
      hide NmeaFix, IsFloat, Trim, Split;
      var sentence := Trim(body);
      if !("$GP" <= sentence) { return Some(NmeaInvalid); }
      if '*' in sentence {
        var (content, checksum) := SplitOnce(sentence, '*').value;
        if |checksum| == 2 {
          if |content| < 1 || !leaves.checksumMatches(content[1..], checksum) { return Some(NmeaInvalid); }
          fields := fields.(nmeaChecksumOk := Some(true));
        }
        sentence := content;
      }
      var parts := Split(sentence, ',');
      fields := fields.(packetType := Some(Location));
      fields := fields.(format := Some(NmeaFormat));
      var (table, code) := leaves.symbolOf(destination);
      fields := fields.(table := Some(table));
      fields := fields.(code := Some(code));
      error := ParseSentence(parts);
    }

    method ParseSentence(parts: seq<string>) returns (error: Option<ParseError>)
      requires |parts| >= 1
      modifies `fields
      ensures Outcome(error, fields) == NmeaSentence(old(fields), parts)
      ensures error.None? ==> IsFixed(old(fields), fields)
    {
      hide NmeaCoordinate, NmeaFix, IsFloat, IsFixed;
      SentencesAreFixed(fields, parts);
      if parts[0] == "$GPRMC" {
        if |parts| < 10 { return Some(NmeaShort); }
        if parts[2] != "A" { return Some(NmeaNoFix); }
        error := NmeaCoordinates(parts[3], parts[4], parts[5], parts[6]);
        if error.Some? { return; }
        fields := fields.(speed := if IsFloat(parts[7]) then Some(Written(parts[7])) else None);
        fields := fields.(course := Some(Written(parts[8])));
        fields := fields.(rawTimestamp := Some(parts[9] + " " + parts[1]));
      } else if parts[0] == "$GPGGA" {
        if |parts| < 11 { return Some(NmeaShort); }
        if parts[6] == "0" { return Some(NmeaNoFix); }
        error := NmeaCoordinates(parts[2], parts[3], parts[4], parts[5]);
        if error.Some? { return; }
        fields := fields.(altitude := if IsFloat(parts[9]) then Some(Written(parts[9])) else None);
      } else if parts[0] == "$GPGLL" {
        if |parts| < 5 { return Some(NmeaShort); }
        error := NmeaCoordinates(parts[1], parts[2], parts[3], parts[4]);
      } else {
        return Some(NmeaInvalid);
      }
    }

    method NmeaCoordinates(latitude: string, ns: string, longitude: string, ew: string)
        returns (error: Option<ParseError>)
      modifies `fields
      ensures Outcome(error, fields) == NmeaFix(old(fields), latitude, ns, longitude, ew)
    {
      hide NmeaCoordinate;
      var lat := NmeaCoordinate(latitude, ns);
      if lat.None? { return Some(NmeaInvalid); }
      var lon := NmeaCoordinate(longitude, ew);
      if lon.None? { return Some(NmeaInvalid); }
      fields := fields.(latitude := Some(lat.value.0));
      fields := fields.(longitude := Some(lon.value.0));
      fields := fields.(resolution := Some(if lat.value.1 < lon.value.1 then lon.value.1 else lat.value.1));
      return None;
    }

    method ParseUltimeter(leaves: Leaves, data: string, logging: bool) returns (error: Option<ParseError>)
      modifies `fields
      ensures Outcome(error, fields) == UltimeterOutcome(leaves, old(fields), data, logging)
    {
      var found := leaves.ultimeter(data, logging);
      if found.None? { return Some(WeatherInvalid); }
      fields := fields.(packetType := Some(WeatherType));
      fields := fields.(weather := found);
      return None;
    }

    method ParseTelemetry(leaves: Leaves) returns (error: Option<ParseError>)
      modifies `fields
      ensures Outcome(error, fields) == TelemetryOutcome(leaves, old(fields), body)
    {
      var found := leaves.report(body);
      if found.None? { return Some(TelemetryInvalid); }
      fields := fields.(packetType := Some(TelemetryType));
      fields := fields.(telemetry := found);
      return None;
    }

    method ParseWeather(data: string) returns (error: Option<ParseError>)
      modifies `fields
      ensures Outcome(error, fields) == WeatherOutcome(old(fields), data)
    {
      hide Wx.WeatherOf, Trim;
      fields := fields.(packetType := Some(WeatherType));
      var found, remainder := Wx.WeatherFromComment(data);
      fields := fields.(weather := Some(found));
      if Trim(remainder) != "" { fields := fields.(comment := Some(Trim(remainder))); }
      return None;
    }

    method ParseMessage() returns (error: Option<ParseError>)
      modifies `fields
      ensures Outcome(error, fields) == MessageOutcome(old(fields), body)
    {
      hide Msg.ParseMessage, Msg.IsTelemetryText;
      match Msg.ParseMessage(body) {
        case Err(e) => return Some(BadMessage(e));
        case Ok(m) =>
          fields := fields.(packetType := Some(if Msg.IsTelemetryText(m.text) then TelemetryMessage else MessageType));
          fields := fields.(message := Some(m));
          return None;
      }
    }

    method ParseObject(leaves: Leaves) returns (error: Option<ParseError>)
      modifies `fields
      ensures Outcome(error, fields) == ObjectOutcome(leaves, old(fields), body)
      ensures old(fields) == BLANK && error.None? ==> IsWhole(fields)
    {
      hide PositionOutcome, TimestampOf, TrimEnd, IsWhole, Positioned;
      ObjectsAreWhole(leaves, body);
      if |body| < 31 { return Some(ObjectShort); }
      fields := fields.(packetType := Some(Object));
      fields := fields.(objectName := Some(TrimEnd(body[1..10])));
      if body[10] != '*' && body[10] != '_' { return Some(ObjectInvalid); }
      fields := fields.(alive := Some(body[10] == '*'));
      var raw := body[11..18];
      fields := fields.(rawTimestamp := Some(raw));
      fields := fields.(timestamp := if raw == PERMANENT then None else TimestampOf(leaves.now, raw));
      error := ParsePosition(body[18..]);
      if error.None? { fields := fields.(packetType := Some(Object)); }
    }

    method ParseItem() returns (error: Option<ParseError>)
      requires body != ""
      modifies `fields
      ensures Outcome(error, fields) == ItemOutcome(old(fields), body)
    {
      hide PositionOutcome, Positioned;
      var end := 1;
      while end < |body| && end <= 10 && body[end] != '!' && body[end] != '_'
        invariant 1 <= end <= |body| && end <= 11
        invariant ItemNameEnd(body, 1) == ItemNameEnd(body, end)
      {
        end := end + 1;
      }
      if end == |body| || end == 11 { return Some(ItemInvalid); }
      if |body| - end - 1 < 13 { return Some(ItemShort); }
      fields := fields.(packetType := Some(Item));
      fields := fields.(itemName := Some(body[1..end]));
      fields := fields.(alive := Some(body[end] == '!'));
      error := ParsePosition(body[end + 1..]);
      if error.None? { fields := fields.(packetType := Some(Item)); }
    }

    method ParseStatus(leaves: Leaves) returns (error: Option<ParseError>)
      requires body != ""
      modifies `fields
      ensures Outcome(error, fields) == StatusOutcome(leaves, old(fields), body)
    {
      hide TimestampOf;
      fields := fields.(packetType := Some(Status));
      var status := body[1..];
      if |status| >= 7 && (status[6] == 'z' || status[6] == '/') {
        fields := fields.(rawTimestamp := Some(status[..7]));
        fields := fields.(timestamp := TimestampOf(leaves.now, status[..7]));
        fields := fields.(status := Some(status[7..]));
      } else {
        fields := fields.(status := Some(status));
      }
      return None;
    }

    method ParseCapabilities() returns (error: Option<ParseError>)
      requires body != ""
      modifies `fields
      ensures Outcome(error, fields) == CapabilitiesOutcome(old(fields), body)
    {
      hide WithCapability, Split;
      fields := fields.(packetType := Some(Capabilities));
      var parts := Split(body[1..], ',');
      var known := fields.capabilities;
      for i := 0 to |parts|
        invariant CapabilitiesOf(known, parts[i..]) == CapabilitiesOf(fields.capabilities, parts)
        invariant fields == old(fields).(packetType := Some(Capabilities))
      {
        assert parts[i..][1..] == parts[i + 1..];
        known := WithCapability(known, parts[i]);
      }
      fields := fields.(capabilities := known);
      return None;
    }

    method ParseOther() returns (error: Option<ParseError>)
      requires body != ""
      modifies `fields
      ensures Outcome(error, fields) == OtherOutcome(old(fields), destination, body)
    {
      hide PositionOutcome;
      if destination in BEACON_DESTINATIONS {
        fields := fields.(packetType := Some(Beacon));
        return None;
      }
      var index := IndexOf(body, '!');
      if index < |body| && index <= 39 {
        fields := fields.(packetType := Some(Location));
        fields := fields.(messaging := Some(false));
        error := ParsePosition(body[index + 1..]);
      } else {
        return Some(TypeNotSupported);
      }
    }

    method ParsePlainPosition() returns (error: Option<ParseError>)
      requires body != "" && body[0] in {'!', '='} && !("!!" <= body)
      modifies `fields
      ensures Outcome(error, fields) ==
              PositionOutcome(old(fields).(packetType := Some(Location), messaging := Some(body[0] == '=')), body[1..])
    {
      hide PositionOutcome;
      fields := fields.(packetType := Some(Location));
      fields := fields.(messaging := Some(body[0] == '='));
      error := ParsePosition(body[1..]);
    }

    method ParseTimedPosition(leaves: Leaves) returns (error: Option<ParseError>)
      requires |body| >= 8
      modifies `fields
      ensures Outcome(error, fields) ==
              PositionOutcome(old(fields).(packetType := Some(Location), messaging := Some(body[0] == '@'),
                                           rawTimestamp := Some(body[1..8]),
                                           timestamp := TimestampOf(leaves.now, body[1..8])), body[8..])
    {
      hide PositionOutcome, TimestampOf;
      fields := fields.(packetType := Some(Location));
      fields := fields.(messaging := Some(body[0] == '@'));
      fields := fields.(rawTimestamp := Some(body[1..8]));
      fields := fields.(timestamp := TimestampOf(leaves.now, body[1..8]));
      error := ParsePosition(body[8..]);
    }

    method ParseBodyInner(leaves: Leaves, acceptBrokenMicE: bool) returns (error: Option<ParseError>)
      requires body != ""
      modifies `fields
      ensures Outcome(error, fields) == BodyOutcome(leaves, acceptBrokenMicE, old(fields), destination, body)
    {
      hide PositionOutcome, MicEOutcome, UltimeterOutcome, MessageOutcome, ObjectOutcome, ItemOutcome, StatusOutcome,
        CapabilitiesOutcome, NmeaOutcome, TelemetryOutcome, WeatherOutcome, OtherOutcome, TimestampOf, IsWhole, Positioned;
      var identifier := body[0];
      if "!!" <= body {
        fields := fields.(messaging := Some(false));
        error := ParseUltimeter(leaves, body[2..], true);
      } else if identifier == '!' || identifier == '=' {
        error := ParsePlainPosition();
      } else if identifier == '/' || identifier == '@' {
        if |body| < 8 { return Some(PositionShort); }
        error := ParseTimedPosition(leaves);
      } else if identifier == '\'' || identifier == '`' {
        error := ParseMicE(false);
        if error.Some? && acceptBrokenMicE { error := ParseMicE(true); }
      } else if identifier == ':' {
        error := ParseMessage();
      } else if identifier == ';' {
        error := ParseObject(leaves);
      } else if identifier == ')' {
        error := ParseItem();
      } else if identifier == '>' {
        error := ParseStatus(leaves);
      } else if identifier == '<' {
        error := ParseCapabilities();
      } else if "$ULTW" <= body {
        error := ParseUltimeter(leaves, body[5..], false);
      } else if identifier == '$' {
        error := ParseNmea(leaves);
      } else if "T#" <= body {
        error := ParseTelemetry(leaves);
      } else if identifier == '_' {
        if |body| < 9 { return Some(WeatherInvalid); }
        error := ParseWeather(body[9..]);
      } else if "{{" <= body {
        return Some(ExperimentalUnsupported);
      } else {
        error := ParseOther();
      }
    }

    /** A body that parses on a new state leaves it whole: typed, and with nothing its type has no place for. */
    method ParseBody(leaves: Leaves, acceptBrokenMicE: bool) returns (error: Option<ParseError>)
      requires body != "" && fields == BLANK
      modifies `fields
      ensures Outcome(error, fields) == BodyOutcome(leaves, acceptBrokenMicE, BLANK, destination, body)
      ensures error.None? ==> IsWhole(fields)
    {
      hide BodyOutcome, IsWhole;
      error := ParseBodyInner(leaves, acceptBrokenMicE);
      if error.None? { ParsedBodiesAreWhole(leaves, acceptBrokenMicE, destination, body); }
    }

    // -- Conversion --

    method TakePosition() returns (position: FullPosition)
      requires HasPosition(fields)
      modifies `fields
      ensures position == PositionIn(old(fields))
      ensures fields == old(fields).(rawTimestamp := None, phg := None, messageBits := None, weather := None,
                                     telemetry := None, comment := None)
    {
      var f := fields;
      position := FullPosition(f.format, f.latitude.value, f.longitude.value, f.ambiguity, f.resolution, f.table,
                               f.code, f.speed, f.course, f.altitude, f.range, f.rawTimestamp, f.timestamp,
                               f.nmeaChecksumOk, f.datum, f.phg, f.messageBits, f.mangled, f.weather, f.telemetry,
                               f.comment);
      fields := f.(rawTimestamp := None, phg := None, messageBits := None, weather := None,
                   telemetry := None, comment := None);
    }

    method IntoPacketRef() returns (packet: PacketBody)
      requires IsTyped(fields)
      modifies `fields
      ensures packet == PacketIn(old(fields), body)
    {
      var f := fields;
      match f.packetType.value {
        case Location =>
          var position := TakePosition();
          packet := LocationBody(position, f.messaging.Some? && f.messaging.value);
        case Object =>
          fields := fields.(objectName := None);
          var position := TakePosition();
          packet := ObjectBody(f.objectName.value, f.alive.value, position);
        case Item =>
          fields := fields.(itemName := None);
          var position := TakePosition();
          packet := ItemBody(f.itemName.value, f.alive.value, position);
        case MessageType => packet := MessageBody(f.message.value);
        case TelemetryMessage => packet := TelemetryMessageBody(f.message.value);
        case Status => packet := StatusBody(f.status.value, f.rawTimestamp, f.timestamp);
        case Capabilities => packet := CapabilitiesBody(f.capabilities);
        case Beacon => packet := BeaconBody(body);
        case WeatherType =>
          fields := fields.(weather := None);
          var at: Option<FullPosition> := None;
          if fields.latitude.Some? {
            var position := TakePosition();
            at := Some(position);
          }
          packet := WeatherBody(f.weather.value, at, f.messaging, fields.telemetry, fields.comment);
        case TelemetryType => packet := TelemetryBody(f.telemetry.value);
      }
    }

    // -- Publication --

    /** `restore_utf8_text_fields`. */
    method RestoreTexts(rawBody: seq<byte>)
      modifies `fields
      ensures fields == Restored(old(fields), body, rawBody)
      ensures IsWhole(old(fields)) ==> IsWhole(fields)
      ensures body == ViewOf(rawBody) ==> IsRefined(old(fields), fields, rawBody)
    {
      hide Restore, IsWhole, IsRefined, ViewOf;
      if IsWhole(fields) { RestoredIsWhole(fields, body, rawBody); }
      RestoredIsRefined(fields, rawBody);
      if fields.status.Some? {
        fields := fields.(status := Some(Restore(fields.status.value, body, rawBody)));
      }
      if fields.comment.Some? {
        fields := fields.(comment := Some(Restore(fields.comment.value, body, rawBody)));
      }
      if fields.message.Some? {
        var message := fields.message.value;
        fields := fields.(message := Some(message.(text := Restore(message.text, body, rawBody))));
      }
    }

    /** `sanitize_parser_placeholders`. */
    method SanitizePlaceholders()
      modifies `body, `fields
      ensures body == SanitizeText(old(body)) && fields == Sanitized(old(fields))
      ensures IsWhole(old(fields)) ==> IsWhole(fields)
      ensures IsSorted(old(fields).capabilities) ==>
                AreFieldsClean(fields) && (fields == old(fields) <==> AreFieldsClean(old(fields)))
    {
      hide SanitizeText, SanitizeComment, SanitizeMessage, SanitizeOption, SanitizeEntries, IsWhole, IsSorted,
        AreFieldsClean;
      if IsWhole(fields) { SanitizedIsWhole(fields); }
      if IsSorted(fields.capabilities) { SanitizedExactly(fields); }
      body := SanitizeText(body);
      fields := fields.(rawTimestamp := SanitizeOption(fields.rawTimestamp));
      fields := fields.(objectName := SanitizeOption(fields.objectName));
      fields := fields.(itemName := SanitizeOption(fields.itemName));
      fields := fields.(status := SanitizeOption(fields.status));
      fields := fields.(phg := SanitizeOption(fields.phg));
      fields := fields.(messageBits := SanitizeOption(fields.messageBits));
      assert fields == SanitizeTexts(old(fields));
      SanitizeParsedParts();
    }

    method SanitizeParsedParts()
      modifies `fields
      ensures fields == SanitizeParts(old(fields))
    {
      hide SanitizeText, SanitizeComment, SanitizeMessage, SanitizeOption, SanitizeEntries;
      var f := fields;
      fields := fields.(comment := if f.comment.Some? then Some(SanitizeComment(f.comment.value)) else None);
      fields := fields.(message := if f.message.Some? then Some(SanitizeMessage(f.message.value)) else None);
      if f.telemetry.Some? {
        fields := fields.(telemetry := Some(f.telemetry.value.(bits := SanitizeOption(f.telemetry.value.bits))));
      }
      if f.weather.Some? {
        fields := fields.(weather := Some(f.weather.value.(software := SanitizeOption(f.weather.value.software))));
      }
      var entries := SanitizeLoop(f.capabilities);
      fields := fields.(capabilities := entries);
    }

    static method SanitizeLoop(entries: Entries) returns (r: Entries)
      ensures r == SanitizeEntries([], entries)
    {
      hide SanitizeText, Insert;
      r := [];
      assert entries[0..] == entries;
      for i := 0 to |entries|
        invariant SanitizeEntries(r, entries[i..]) == SanitizeEntries([], entries)
      {
        assert entries[i..][1..] == entries[i + 1..];
        r := Insert(r, SanitizeText(entries[i].0), SanitizeText(entries[i].1));
      }
    }
  }

  /** From a raw packet to the typed packet; no `expect` on the way can fail, and no slice. */
  method ParsePacket(leaves: Leaves, acceptBrokenMicE: bool, raw: seq<byte>) returns (r: Result<PacketBody, ParseError>)
    ensures r == ParsedPacket(leaves, acceptBrokenMicE, raw)
  {
    hide BodyOutcome, PacketIn, Published, IsTyped, IsWhole, SanitizeText, Sanitized, Restored, SplitPacket, ViewOf;
    var split := SplitPacket(ViewOf(raw));
    if split.None? { return Err(PacketNoBody); }
    var (header, body) := split.value;
    var destination := leaves.destinationOf(header);
    if destination.None? { return Err(BadHeader); }
    RawBodyByLength(raw);
    var rawBody := raw[|raw| - |body|..];
    BodyIsThere(raw);
    var state := new ParseState(destination.value, body);
    var error := state.ParseBody(leaves, acceptBrokenMicE);
    if error.Some? { return Err(error.value); }
    PublishedIsWhole(leaves, acceptBrokenMicE, destination.value, body, rawBody);
    state.RestoreTexts(rawBody);
    state.SanitizePlaceholders();
    assert state.fields == Published(BodyOutcome(leaves, acceptBrokenMicE, BLANK, destination.value, body).fields, body, rawBody)
      by { PublishedIs(BodyOutcome(leaves, acceptBrokenMicE, BLANK, destination.value, body).fields, body, rawBody); }
    var packet := state.IntoPacketRef();
    return Ok(packet);
  }

  lemma BodyIsThere(raw: seq<byte>)
    ensures SplitPacket(ViewOf(raw)).Some? ==> SplitPacket(ViewOf(raw)).value.1 != ""
  {
  }

  lemma PublishedIs(f: Fields, body: string, rawBody: seq<byte>)
    ensures Published(f, body, rawBody) == Sanitized(Restored(f, body, rawBody))
  {
  }
}
