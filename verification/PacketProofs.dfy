/** A parsed body always converts to a typed packet, and the typed packet shows all that was parsed. */
module PacketProofs {
  import opened Text
  import opened Chars
  import opened Telemetry
  import opened Numbers
  import opened Uncompressed
  import opened Comment
  import opened SortedMap
  import opened Packet
  import Cx = Compressed
  import Mx = MicE
  import Msg = Message
  import Wx = Weather

  // ---- The accessors ---------------------------------------------------------------------

  function PositionOf(p: PacketBody): Option<FullPosition> {
    match p
    case LocationBody(position, _) => Some(position)
    case ObjectBody(_, _, position) => Some(position)
    case ItemBody(_, _, position) => Some(position)
    case WeatherBody(_, reportedAt, _, _, _) => reportedAt
    case _ => None
  }

  function TypeOf(p: PacketBody): PacketType {
    match p
    case LocationBody(_, _) => Location
    case ObjectBody(_, _, _) => Object
    case ItemBody(_, _, _) => Item
    case MessageBody(_) => MessageType
    case TelemetryMessageBody(_) => TelemetryMessage
    case StatusBody(_, _, _) => Status
    case CapabilitiesBody(_) => Capabilities
    case BeaconBody(_) => Beacon
    case WeatherBody(_, _, _, _, _) => WeatherType
    case TelemetryBody(_) => TelemetryType
  }

  /** The part of a state that a position shows. */
  function SeenAt(position: Option<FullPosition>): Fields {
    match position
    case None => BLANK
    case Some(p) =>
      BLANK.(format := p.format, latitude := Some(p.latitude), longitude := Some(p.longitude),
             ambiguity := p.ambiguity, resolution := p.resolution, table := p.table, code := p.code,
             speed := p.speed, course := p.course, altitude := p.altitude, range := p.range,
             rawTimestamp := p.rawTimestamp, timestamp := p.timestamp, nmeaChecksumOk := p.nmeaChecksumOk,
             datum := p.datum, phg := p.phg, messageBits := p.messageBits, mangled := p.mangled,
             weather := p.weather, telemetry := p.telemetry, comment := p.comment)
  }

  /** What the accessors of a packet answer, one field for each accessor. */
  function Seen(p: PacketBody): Fields {
    var at := SeenAt(PositionOf(p)).(packetType := Some(TypeOf(p)));
    match p
    case LocationBody(_, messaging) => at.(messaging := Some(messaging))
    case ObjectBody(name, alive, _) => at.(objectName := Some(name), alive := Some(alive))
    case ItemBody(name, alive, _) => at.(itemName := Some(name), alive := Some(alive))
    case MessageBody(message) => at.(message := Some(message))
    case TelemetryMessageBody(message) => at.(message := Some(message))
    case StatusBody(text, raw, timestamp) => at.(status := Some(text), rawTimestamp := raw, timestamp := timestamp)
    case CapabilitiesBody(capabilities) => at.(capabilities := capabilities)
    case BeaconBody(_) => at
    case WeatherBody(weather, _, messaging, telemetry, comment) =>
      at.(weather := Some(weather), messaging := messaging,
          telemetry := OrKept(telemetry, at.telemetry), comment := OrKept(comment, at.comment))
    case TelemetryBody(telemetry) => at.(telemetry := Some(telemetry))
  }

  // ---- What each parser leaves -----------------------------------------------------------

  /** Nothing is set that a position does not hold, names and messaging apart. */
  predicate HasOnlyPosition(f: Fields) {
    f.message.None? && f.status.None? && f.capabilities == []
  }

  /** Typed, and with nothing set that the packet type has no place for. */
  predicate IsWhole(f: Fields) {
    IsTyped(f) &&
    match f.packetType.value
    case Location => HasOnlyPosition(f) && f.objectName.None? && f.itemName.None? && f.alive.None?
    case Object => HasOnlyPosition(f) && f.itemName.None? && f.messaging.None?
    case Item => HasOnlyPosition(f) && f.objectName.None? && f.messaging.None?
    case MessageType => f == BLANK.(packetType := Some(MessageType), message := f.message)
    case TelemetryMessage => f == BLANK.(packetType := Some(TelemetryMessage), message := f.message)
    case Status => f == BLANK.(packetType := Some(Status), status := f.status,
                               rawTimestamp := f.rawTimestamp, timestamp := f.timestamp)
    case Capabilities =>
      IsSorted(f.capabilities) && f == BLANK.(packetType := Some(Capabilities), capabilities := f.capabilities)
    case Beacon => f == BLANK.(packetType := Some(Beacon))
    case WeatherType =>
      if HasPosition(f) then HasOnlyPosition(f) && f.objectName.None? && f.itemName.None? && f.alive.None?
      else f == BLANK.(packetType := Some(WeatherType), weather := f.weather, messaging := f.messaging,
                       telemetry := f.telemetry, comment := f.comment)
    case TelemetryType => f == BLANK.(packetType := Some(TelemetryType), telemetry := f.telemetry)
  }

  predicate SameIdentity(f: Fields, g: Fields) {
    && f.message == g.message && f.status == g.status && f.capabilities == g.capabilities
    && f.objectName == g.objectName && f.itemName == g.itemName && f.alive == g.alive
    && f.messaging == g.messaging && f.rawTimestamp == g.rawTimestamp && f.timestamp == g.timestamp
  }

  /** The state `g` has gained a position, and may have become a weather report by it. */
  predicate Positioned(f: Fields, g: Fields) {
    && HasPosition(g) && SameIdentity(f, g)
    && if g.code == Some('_') then g.packetType == Some(WeatherType) && g.weather.Some?
       else g.packetType == f.packetType && g.weather == f.weather
  }

  lemma CommentPositions(f: Fields, p: Position)
    requires HasPosition(f) && f.code == Some(p.code)
    ensures Positioned(f, WithComment(f, p))
  {
    hide Wx.WeatherOf, ParseInlineTelemetry, ParsePositionComment, TextOrNone, IsFloat;
  }

  /** Setting the position first makes no difference. */
  lemma PositionedFrom(f: Fields, g: Fields, h: Fields)
    requires SameIdentity(f, g) && f.packetType == g.packetType && f.weather == g.weather && Positioned(g, h)
    ensures Positioned(f, h)
  {
  }

  lemma UncompressedIsPositioned(f: Fields, text: string)
    requires UncompressedOutcome(f, text).error.None?
    ensures Positioned(f, UncompressedOutcome(f, text).fields)
  {
    hide WithComment, ParseUncompressed, Positioned, Coordinate;
    var p := ParseUncompressed(text).value;
    CommentPositions(WithPosition(f, p), p);
    PositionedFrom(f, WithPosition(f, p), WithComment(WithPosition(f, p), p));
  }

  lemma ExtensionKeeps(f: Fields, e: Cx.Extension)
    ensures var g := WithExtension(f, e);
            && SameIdentity(f, g) && f.packetType == g.packetType && f.weather == g.weather
            && f.latitude == g.latitude && f.longitude == g.longitude && f.code == g.code
  {
  }

  lemma CompressedKeeps(f: Fields, p: Cx.CompressedPosition)
    ensures var g := WithCompressed(f, p);
            && SameIdentity(f, g) && f.packetType == g.packetType && f.weather == g.weather
            && HasPosition(g) && g.code == Some(p.code)
  {
    hide SignedAngle, WithExtension;
    ExtensionKeeps(f.(format := Some(CompressedFormat),
                      latitude := Some(SignedAngle(p.latitude)), longitude := Some(SignedAngle(p.longitude)),
                      resolution := Some(COMPRESSED_RESOLUTION), table := Some(p.table), code := Some(p.code)),
                   p.extension);
  }

  lemma CompressedIsPositioned(f: Fields, text: string)
    requires CompressedOutcome(f, text).error.None?
    ensures Positioned(f, CompressedOutcome(f, text).fields)
  {
    hide WithComment, Cx.ParseCompressed, Positioned, WithCompressed, SignedAngle, SameIdentity, HasPosition;
    var p := Cx.ParseCompressed(text).value;
    CompressedKeeps(f, p);
    CommentPositions(WithCompressed(f, p), Plain(p));
    PositionedFrom(f, WithCompressed(f, p), WithComment(WithCompressed(f, p), Plain(p)));
  }

  lemma PositionsArePositioned(f: Fields, text: string)
    ensures var out := PositionOutcome(f, text); out.error.None? ==> Positioned(f, out.fields)
  {
    hide UncompressedOutcome, CompressedOutcome, Positioned;
    if PositionOutcome(f, text).error.None? {
      if IsDigitChar(text[0]) || text[0] == ' ' {
        UncompressedIsPositioned(f, text);
      } else {
        CompressedIsPositioned(f, text);
      }
    }
  }

  lemma MicEIsLocation(f: Fields, destination: string, body: string, repair: bool)
    requires body != "" && MicEOutcome(f, destination, body, repair).error.None?
    ensures var g := MicEOutcome(f, destination, body, repair).fields;
            HasPosition(g) && SameIdentity(f, g) && g.packetType == Some(Location) && g.weather == f.weather
  {
    hide Mx.ParseMicE, ParseDao, ParseInlineTelemetry, TakeMicEAltitude, TakeMicETelemetry;
  }

  predicate IsFixed(f: Fields, g: Fields) {
    && HasPosition(g) && g.packetType == f.packetType
    && SameIdentity(f, g.(rawTimestamp := f.rawTimestamp)) && g.weather == f.weather
  }

  lemma SentencesAreFixed(f: Fields, parts: seq<string>)
    requires |parts| >= 1
    ensures var out := NmeaSentence(f, parts); out.error.None? ==> IsFixed(f, out.fields)
  {
    hide NmeaCoordinate, IsFloat;
  }

  lemma NmeaIsLocation(leaves: Leaves, f: Fields, destination: string, body: string)
    requires NmeaOutcome(leaves, f, destination, body).error.None?
    ensures IsFixed(f.(packetType := Some(Location)), NmeaOutcome(leaves, f, destination, body).fields)
  {
    hide NmeaSentence, Trim, Split, IndexOf;
    var sentence := Trim(body);
    var (content, checksum) := if '*' in sentence then SplitOnce(sentence, '*').value else (sentence, "");
    var (table, code) := leaves.symbolOf(destination);
    SentencesAreFixed(f.(nmeaChecksumOk := if '*' in sentence && |checksum| == 2 then Some(true) else f.nmeaChecksumOk,
                         packetType := Some(Location), format := Some(NmeaFormat),
                         table := Some(table), code := Some(code)),
                      Split(content, ','));
  }

  lemma NamedIsWhole(positioned: Outcome, kind: PacketType)
    requires positioned.error.None? && (kind == Object || kind == Item)
    requires var f := positioned.fields;
             HasPosition(f) && HasOnlyPosition(f) && f.messaging.None? && f.alive.Some?
    requires var f := positioned.fields;
             if kind == Object then f.objectName.Some? && f.itemName.None? else f.itemName.Some? && f.objectName.None?
    ensures IsWhole(NamedOutcome(positioned, kind).fields)
  {
  }

  lemma ObjectsAreWhole(leaves: Leaves, body: string)
    ensures var out := ObjectOutcome(leaves, BLANK, body); out.error.None? ==> IsWhole(out.fields)
  {
    hide PositionOutcome, TimestampOf, TrimEnd, IsWhole;
    if ObjectOutcome(leaves, BLANK, body).error.None? {
      var raw := body[11..18];
      var named := BLANK.(packetType := Some(Object), objectName := Some(TrimEnd(body[1..10])),
                          alive := Some(body[10] == '*'), rawTimestamp := Some(raw),
                          timestamp := if raw == PERMANENT then None else TimestampOf(leaves.now, raw));
      PositionsArePositioned(named, body[18..]);
      NamedIsWhole(PositionOutcome(named, body[18..]), Object);
    }
  }

  lemma ItemsAreWhole(body: string)
    ensures var out := ItemOutcome(BLANK, body); out.error.None? ==> IsWhole(out.fields)
  {
    hide PositionOutcome, IsWhole;
    if ItemOutcome(BLANK, body).error.None? {
      var end := ItemNameEnd(body, 1).value;
      var named := BLANK.(packetType := Some(Item), itemName := Some(body[1..end]), alive := Some(body[end] == '!'));
      PositionsArePositioned(named, body[end + 1..]);
      NamedIsWhole(PositionOutcome(named, body[end + 1..]), Item);
    }
  }

  lemma LocationsAreWhole(f: Fields, text: string)
    requires f.packetType == Some(Location) && HasOnlyPosition(f)
    requires f.objectName.None? && f.itemName.None? && f.alive.None?
    requires PositionOutcome(f, text).error.None?
    ensures IsWhole(PositionOutcome(f, text).fields)
  {
    hide PositionOutcome;
    PositionsArePositioned(f, text);
  }

  lemma NothingIsSorted()
    ensures IsSorted([])
  {
  }

  lemma {:induction false} CapabilitiesAreSorted(known: Entries, parts: seq<string>)
    requires IsSorted(known)
    ensures IsSorted(CapabilitiesOf(known, parts))
    decreases |parts|
  {
    hide Trim, SplitOnce, IsSorted, Insert;
    if parts != [] {
      var capability := Trim(parts[0]);
      if capability != "" {
        match SplitOnce(capability, '=')
        case None => InsertKeepsSorted(known, capability, "");
        case Some((name, value)) => InsertKeepsSorted(known, name, value);
      }
      CapabilitiesAreSorted(WithCapability(known, parts[0]), parts[1..]);
    }
  }

  lemma SmallBodiesAreWhole(leaves: Leaves, body: string, data: string, logging: bool, messaging: Option<bool>)
    requires body != ""
    ensures var o := MessageOutcome(BLANK, body); o.error.None? ==> IsWhole(o.fields)
    ensures IsWhole(StatusOutcome(leaves, BLANK, body).fields)
    ensures IsWhole(CapabilitiesOutcome(BLANK, body).fields)
    ensures var o := TelemetryOutcome(leaves, BLANK, body); o.error.None? ==> IsWhole(o.fields)
    ensures IsWhole(WeatherOutcome(BLANK, data).fields)
    ensures var o := UltimeterOutcome(leaves, BLANK.(messaging := messaging), data, logging);
            o.error.None? ==> IsWhole(o.fields)
  {
    hide Msg.ParseMessage, Msg.IsTelemetryText, TimestampOf, CapabilitiesOf, Wx.WeatherOf, TextOrNone, Split, IsSorted;
    assert IsSorted([]) by { NothingIsSorted(); }
    CapabilitiesAreSorted([], Split(body[1..], ','));
  }

  lemma OthersAreWhole(destination: string, body: string)
    requires body != "" && OtherOutcome(BLANK, destination, body).error.None?
    ensures IsWhole(OtherOutcome(BLANK, destination, body).fields)
  {
    hide PositionOutcome;
    if destination !in BEACON_DESTINATIONS {
      LocationsAreWhole(BLANK.(packetType := Some(Location), messaging := Some(false)), body[IndexOf(body, '!') + 1..]);
    }
  }

  // ---- The typing invariant --------------------------------------------------------------

  /** Every body that parses leaves all that its packet type needs, and nothing it has no place for. */
  lemma ParsedBodiesAreWhole(leaves: Leaves, acceptBrokenMicE: bool, destination: string, body: string)
    requires body != "" && BodyOutcome(leaves, acceptBrokenMicE, BLANK, destination, body).error.None?
    ensures IsWhole(BodyOutcome(leaves, acceptBrokenMicE, BLANK, destination, body).fields)
  {
    hide PositionOutcome, MicEOutcome, UltimeterOutcome, MessageOutcome, ObjectOutcome, ItemOutcome, StatusOutcome,
      CapabilitiesOutcome, NmeaOutcome, TelemetryOutcome, WeatherOutcome, OtherOutcome, TimestampOf, IsWhole;
    var identifier := body[0];
    if "!!" <= body {
      SmallBodiesAreWhole(leaves, body, body[2..], true, Some(false));
    } else if identifier == '!' || identifier == '=' {
      LocationsAreWhole(BLANK.(packetType := Some(Location), messaging := Some(identifier == '=')), body[1..]);
    } else if identifier == '/' || identifier == '@' {
      LocationsAreWhole(BLANK.(packetType := Some(Location), messaging := Some(identifier == '@'),
                               rawTimestamp := Some(body[1..8]), timestamp := TimestampOf(leaves.now, body[1..8])),
                        body[8..]);
    } else if identifier == '\'' || identifier == '`' {
      MicEsAreWhole(destination, body, false);
      MicEsAreWhole(destination, body, true);
    } else if identifier == ';' {
      ObjectsAreWhole(leaves, body);
    } else if identifier == ')' {
      ItemsAreWhole(body);
    } else if "$ULTW" <= body {
      SmallBodiesAreWhole(leaves, body, body[5..], false, None);
    } else if identifier == '$' {
      NmeasAreWhole(leaves, destination, body);
    } else if identifier in {':', '>', '<'} || "T#" <= body {
      SmallBodiesAreWhole(leaves, body, "", false, None);
    } else if identifier == '_' {
      SmallBodiesAreWhole(leaves, body, body[9..], false, None);
    } else {
      OthersAreWhole(destination, body);
    }
  }

  lemma MicEsAreWhole(destination: string, body: string, repair: bool)
    requires body != ""
    ensures var o := MicEOutcome(BLANK, destination, body, repair); o.error.None? ==> IsWhole(o.fields)
  {
    hide MicEOutcome;
    if MicEOutcome(BLANK, destination, body, repair).error.None? { MicEIsLocation(BLANK, destination, body, repair); }
  }

  lemma NmeasAreWhole(leaves: Leaves, destination: string, body: string)
    requires NmeaOutcome(leaves, BLANK, destination, body).error.None?
    ensures IsWhole(NmeaOutcome(leaves, BLANK, destination, body).fields)
  {
    hide NmeaOutcome;
    NmeaIsLocation(leaves, BLANK, destination, body);
  }

  /** The accessors of the typed packet answer with every field of the state, and nothing else. */
  lemma WholeStatesAreSeen(f: Fields, body: string)
    requires IsWhole(f)
    ensures Seen(PacketIn(f, body)) ==
            if f.packetType == Some(Location) then f.(messaging := Some(f.messaging == Some(true))) else f
  {
  }

  lemma WholeIsTyped(f: Fields)
    requires IsWhole(f)
    ensures IsTyped(f)
  {
  }

  /** Repair is tried on a clean state, and marks what it repairs. */
  lemma RepairStartsClean(leaves: Leaves, destination: string, body: string)
    requires body != "" && body[0] in {'\'', '`'}
    requires MicEOutcome(BLANK, destination, body, false).error.Some?
    ensures MicEOutcome(BLANK, destination, body, false).fields == BLANK
    ensures BodyOutcome(leaves, false, BLANK, destination, body).error.Some?
    ensures var repaired := BodyOutcome(leaves, true, BLANK, destination, body);
            repaired.error.None? ==> repaired.fields.mangled && repaired.fields.speed.None? && repaired.fields.course.None?
  {
    hide WithMicEComment, Mx.Latitude, Mx.DestinationDigit, Mx.FirstNone;
    if MicEOutcome(BLANK, destination, body, true).error.None? {
      MicESpeed(destination, body);
    }
  }

  lemma MicESpeed(destination: string, body: string)
    requires body != "" && Mx.ParseMicE(destination, body, true).Ok?
    ensures var o := MicEOutcome(BLANK, destination, body, true);
            && o.fields.mangled == Mx.ParseMicE(destination, body, true).value.mangled
            && (o.fields.mangled ==> o.fields.speed.None? && o.fields.course.None?)
  {
    hide Mx.ParseMicE, ParseDao, ParseInlineTelemetry, TakeMicEAltitude, TakeMicETelemetry;
  }
}
