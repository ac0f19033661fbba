/**
 * The information field of a packet: what each body parser (src/packet/parser.rs, src/position.rs) makes
 * of the parser's fields, and the typed packet they are converted to (src/packet/types.rs).
 *
 * Every `expect` of the source is a `.value` here, and every slice a slice, so that verification
 * shows that none of them can fail.
 */
module Packet {
  import opened Text
  import opened Chars
  import opened Telemetry
  import opened Numbers
  import opened Uncompressed
  import opened Comment
  import opened SortedMap
  import Cx = Compressed
  import Mx = MicE
  import Msg = Message
  import Ts = Timestamp
  import Wx = Weather

  datatype PacketType =
    | Location | Object | Item | MessageType | TelemetryMessage | Status | Capabilities | Beacon
    | WeatherType | TelemetryType

  datatype Format = UncompressedFormat | CompressedFormat | MicEFormat | NmeaFormat

  datatype ParseError =
    | BadPosition(position: Uncompressed.Error)
    | BadCompressed(compressed: Cx.CompressedError)
    | BadMicE(mice: Mx.MicEError)
    | BadMessage(message: Msg.Error)
    | PositionShort | ObjectShort | ObjectInvalid | ItemInvalid | ItemShort
    | NmeaInvalid | NmeaShort | NmeaNoFix | TelemetryInvalid | WeatherInvalid
    | ExperimentalUnsupported | TypeNotSupported | PacketNoBody | BadHeader

  /** A speed, course, altitude or range before conversion: a text, a number or a logarithm. */
  datatype Reading = Written(text: string) | Number(number: int) | Exponent(exponent: int)

  function Pow108(n: nat): real {
    if n == 0 then 1.0 else 1.08 * Pow108(n - 1)
  }

  /** A speed in knots, when the text of it is a number. */
  function KnotsOf(speed: Reading): Option<real> {
    match speed
    case Written(text) => FloatValue(text)
    case Number(n) => Some(n as real)
    case Exponent(n) => if n >= 0 then Some(Pow108(n) - 1.0) else None
  }

  /** Everything the body parsers can find. */
  datatype Fields = Fields(packetType: Option<PacketType>, format: Option<Format>,
                           latitude: Option<Angle>, longitude: Option<Angle>,
                           ambiguity: Option<nat>, resolution: Option<real>,
                           table: Option<char>, code: Option<char>,
                           speed: Option<Reading>, course: Option<Reading>,
                           altitude: Option<Reading>, range: Option<Reading>,
                           messaging: Option<bool>,
                           rawTimestamp: Option<string>, timestamp: Option<Ts.AprsTimestamp>,
                           objectName: Option<string>, itemName: Option<string>, alive: Option<bool>,
                           message: Option<Msg.Message>, status: Option<string>,
                           capabilities: Entries,
                           telemetry: Option<Telemetry>, weather: Option<Wx.Weather>,
                           nmeaChecksumOk: Option<bool>, datum: Option<char>, phg: Option<string>,
                           messageBits: Option<string>, mangled: bool, comment: Option<string>)

  const BLANK := Fields(None, None, None, None, None, None, None, None, None, None, None, None, None, None, None,
                        None, None, None, None, None, [], None, None, None, None, None, None, false, None)

  /** The clock, and the decoders of headers and straight-line formats, which may answer anything. */
  datatype Leaves = Leaves(now: Ts.AprsTimestamp,
                           destinationOf: string -> Option<string>,
                           checksumMatches: (string, string) -> bool,
                           symbolOf: string -> (char, char),
                           ultimeter: (string, bool) -> Option<Wx.Weather>,
                           report: string -> Option<Telemetry>)

  /** How a body parser ends, and the fields it leaves. */
  datatype Outcome = Outcome(error: Option<ParseError>, fields: Fields)

  predicate HasPosition(f: Fields) { f.latitude.Some? && f.longitude.Some? }

  /** Neither coordinate is ever known without the other. */
  predicate IsPaired(f: Fields) { f.latitude.Some? <==> f.longitude.Some? }

  function Done(f: Fields): Outcome { Outcome(None, f) }

  function Failed(error: ParseError, f: Fields): Outcome { Outcome(Some(error), f) }

  function OrKept<T>(found: Option<T>, kept: Option<T>): Option<T> {
    if found.Some? then found else kept
  }

  function TextOrNone(s: string): Option<string> {
    if Trim(s) == "" then None else Some(Trim(s))
  }

  function TimestampOf(now: Ts.AprsTimestamp, raw: string): Option<Ts.AprsTimestamp> {
    match Ts.ParseTimestamp(raw, now)
    case Ok(t) => Some(t)
    case Err(_) => None
  }

  // ---- Positions -------------------------------------------------------------------------

  /** A course in degrees, and 0 for a text that is not a number from 1 to 360. */
  function CourseNumber(text: string): (n: int)
    ensures 0 <= n <= 360
  {
    if text != "" && AllDigits(text) && 1 <= NumberOf(text) <= 360 then NumberOf(text) else 0
  }

  function WithReport(f: Fields, r: PositionReport): Fields {
    f.(latitude := Some(r.latitude), longitude := Some(r.longitude), resolution := Some(r.resolution),
       phg := OrKept(r.phg, f.phg),
       range := if r.range.Some? then Some(Written(r.range.value)) else f.range,
       course := if r.course.Some? then Some(Number(CourseNumber(r.course.value.0))) else f.course,
       speed := if r.course.None? then f.speed
                else if IsFloat(r.course.value.1) then Some(Written(r.course.value.1)) else None,
       altitude := if r.altitude.Some? then Some(Written(r.altitude.value)) else f.altitude,
       telemetry := OrKept(r.telemetry, f.telemetry),
       datum := OrKept(r.datum, f.datum), comment := r.comment)
  }

  /** A report under the weather station's symbol. */
  function WithWeather(f: Fields, data: string): Fields {
    var (weather, c1) := Wx.WeatherOf(data);
    var (telemetry, c2) := ParseInlineTelemetry(c1);
    f.(packetType := Some(WeatherType), weather := Some(weather),
       telemetry := OrKept(telemetry, f.telemetry), comment := TextOrNone(c2))
  }

  function WithComment(f: Fields, p: Position): Fields {
    if p.code == '_' then WithWeather(f, p.comment) else WithReport(f, ParsePositionComment(p))
  }

  function WithPosition(f: Fields, p: Position): Fields {
    f.(format := Some(UncompressedFormat), latitude := Some(p.latitude), longitude := Some(p.longitude),
       ambiguity := Some(p.ambiguity), resolution := Some(p.resolution), table := Some(p.table), code := Some(p.code))
  }

  function SignedAngle(value: real): Angle { Angle(Abs(value), value < 0.0) }

  const COMPRESSED_RESOLUTION := 0.291

  function WithExtension(f: Fields, e: Cx.Extension): Fields {
    match e
    case Nothing => f
    case AltitudeExponent(n) => f.(altitude := Some(Exponent(n)))
    case CourseSpeed(course, speed) => f.(course := Some(Number(course)), speed := Some(Exponent(speed)))
    case RangeExponent(n) => f.(range := Some(Exponent(n)))
  }

  function WithCompressed(f: Fields, p: Cx.CompressedPosition): Fields {
    WithExtension(f.(format := Some(CompressedFormat),
                     latitude := Some(SignedAngle(p.latitude)), longitude := Some(SignedAngle(p.longitude)),
                     resolution := Some(COMPRESSED_RESOLUTION), table := Some(p.table), code := Some(p.code)),
                  p.extension)
  }

  /** The decoded compressed position as the comment parser sees it. */
  function Plain(p: Cx.CompressedPosition): Position {
    Position(SignedAngle(p.latitude), SignedAngle(p.longitude), 0, COMPRESSED_RESOLUTION, p.table, p.code, p.comment)
  }

  function UncompressedOutcome(f: Fields, body: string): Outcome {
    match ParseUncompressed(body)
    case Err(e) => Failed(BadPosition(e), f)
    case Ok(p) => Done(WithComment(WithPosition(f, p), p))
  }

  function CompressedOutcome(f: Fields, body: string): Outcome {
    match Cx.ParseCompressed(body)
    case Err(e) => Failed(BadCompressed(e), f)
    case Ok(p) => Done(WithComment(WithCompressed(f, p), Plain(p)))
  }

  function PositionOutcome(f: Fields, body: string): Outcome {
    if body == "" then Failed(PositionShort, f)
    else if IsDigitChar(body[0]) || body[0] == ' ' then UncompressedOutcome(f, body)
    else CompressedOutcome(f, body)
  }

  // ---- Mic-E -----------------------------------------------------------------------------

  /** Altitude in metres above 10 km below the sea, as three base-91 digits before the first `}`. */
  function TakeMicEAltitude(comment: string): (Option<int>, string) {
    var i := IndexOf(comment, '}');
    if i == |comment| || i < 3 then (None, comment)
    else
      match Cx.Base91(comment[i - 3..i])
      case None => (None, comment)
      case Some(value) => (Some(value - 10_000), comment[..i - 3] + comment[i + 1..])
  }

  predicate IsHexDigit(c: char) { IsDigitChar(c) || 'a' <= c <= 'f' || 'A' <= c <= 'F' }

  predicate StartsWithHex(s: string, n: nat) {
    |s| >= n && forall k :: 0 <= k < n ==> IsHexDigit(s[k])
  }

  function HexDigit(c: char): (n: nat)
    requires IsHexDigit(c)
    ensures n <= 15
  {
    if IsDigitChar(c) then c as int - '0' as int
    else if IsLowerChar(c) then c as int - 'a' as int + 10
    else c as int - 'A' as int + 10
  }

  function HexPair(s: string, i: nat): int
    requires StartsWithHex(s, 2 * i + 2)
  {
    16 * HexDigit(s[2 * i]) + HexDigit(s[2 * i + 1])
  }

  /** The telemetry of old Mic-E units: two or five hexadecimal channels after an apostrophe. */
  function TakeMicETelemetry(comment: string): (Option<Telemetry>, string) {
    match StripPrefix(comment, "'")
    case None => (None, comment)
    case Some(rest) =>
      if StartsWithHex(rest, 10) then
        (Some(Telemetry(None, [Some(HexPair(rest, 0)), Some(HexPair(rest, 1)), Some(HexPair(rest, 2)),
                                         Some(HexPair(rest, 3)), Some(HexPair(rest, 4))], None)),
         TrimStart(rest[10..]))
      else if StartsWithHex(rest, 4) then
        (Some(Telemetry(None, [Some(HexPair(rest, 0)), Some(0), Some(HexPair(rest, 1)), None, None], None)),
         TrimStart(rest[4..]))
      else (None, comment)
  }

  function HundredthsAngle(hundredths: int, negative: bool): Angle {
    Angle(hundredths as real / 6000.0, negative)
  }

  function WithMicEPosition(f: Fields, r: Mx.MicEReport): Fields {
    var mangled := f.mangled || r.mangled;
    f.(packetType := Some(Location), format := Some(MicEFormat), mangled := mangled,
       latitude := Some(HundredthsAngle(r.latitude, !r.north)),
       longitude := Some(HundredthsAngle(r.longitude, r.west)),
       ambiguity := Some(r.ambiguity), resolution := Some(Resolution(r.ambiguity)),
       speed := if mangled || r.speed.None? then None else Some(Number(r.speed.value)),
       course := if mangled || r.course.None? then None else Some(Number(r.course.value)),
       table := Some(r.table), code := Some(r.code), messageBits := Some(r.messageBits))
  }

  /** The comment of a Mic-E report: inline telemetry, altitude, old telemetry and last the DAO extension. */
  function WithMicEComment(f: Fields, comment: string): Fields
    requires HasPosition(f) && f.ambiguity.Some? && f.resolution.Some? && f.table.Some? && f.code.Some?
  {
    var (telemetry, c1) := ParseInlineTelemetry(comment);
    var (altitude, c2) := TakeMicEAltitude(c1);
    var (oldTelemetry, c3) := TakeMicETelemetry(c2);
    var report := ParseDao(PositionReport(f.latitude.value, f.longitude.value, f.resolution.value, f.ambiguity.value,
                                          f.table.value, f.code.value, None, None, None, None, None, None, None), c3);
    f.(latitude := Some(report.latitude), longitude := Some(report.longitude), resolution := Some(report.resolution),
       telemetry := OrKept(oldTelemetry, OrKept(telemetry, f.telemetry)),
       altitude := if altitude.Some? then Some(Number(altitude.value)) else f.altitude,
       datum := OrKept(report.datum, f.datum), comment := report.comment)
  }

  function WithMicE(f: Fields, r: Mx.MicEReport): Fields {
    WithMicEComment(WithMicEPosition(f, r), r.comment)
  }

  /** Whether this attempt puts a lost space back, which marks the report even when it then fails. */
  predicate Repairs(destination: string, body: string, repair: bool)
    requires body != ""
  {
    IndexOf(destination, '-') >= 6 && Mx.Repaired(body[1..], repair).1
  }

  function MicEOutcome(f: Fields, destination: string, body: string, repair: bool): Outcome
    requires body != ""
  {
    match Mx.ParseMicE(destination, body, repair)
    case Err(e) => Failed(BadMicE(e), f.(mangled := f.mangled || Repairs(destination, body, repair)))
    case Ok(r) => Done(WithMicE(f, r))
  }

  // ---- NMEA ------------------------------------------------------------------------------

  /** The angle of whole degrees and decimal minutes within the limit of its axis, and its resolution. */
  function NmeaAngle(degrees: nat, minutes: nat, fraction: nat, decimals: nat, side: string): Option<(Angle, real)> {
    var scale := Pow10(decimals) as real;
    var exactMinutes := minutes as real + fraction as real / scale;
    var magnitude := degrees as real + exactMinutes / 60.0;
    var limit := if side in {"N", "S"} then 89.999999 else 179.999999;
    if exactMinutes >= 60.0 || side !in {"N", "S", "E", "W"} || magnitude > limit then None
    else Some((Angle(magnitude, side in {"S", "W"}), 1852.0 / scale))
  }

  function NmeaCoordinate(text: string, side: string): Option<(Angle, real)> {
    var value, hemisphere := Trim(text), Msg.UpperText(Trim(side));
    match SplitOnce(value, '.')
    case None => None
    case Some((whole, fraction)) =>
      if !(3 <= |whole| <= 5) || fraction == "" || !AllDigits(whole) || !AllDigits(fraction) then None
      else
        var n := |whole| - 2;
        NmeaAngle(NumberOf(whole[..n]), NumberOf(whole[n..]), NumberOf(fraction), |fraction|, hemisphere)
  }

  function NmeaFix(f: Fields, latitude: string, ns: string, longitude: string, ew: string): Outcome {
    match (NmeaCoordinate(latitude, ns), NmeaCoordinate(longitude, ew))
    case (Some((lat, r1)), Some((lon, r2))) =>
      Done(f.(latitude := Some(lat), longitude := Some(lon), resolution := Some(if r1 < r2 then r2 else r1)))
    case _ => Failed(NmeaInvalid, f)
  }

  /** The fields of one sentence, each used only when the sentence is long enough to have it. */
  function NmeaSentence(f: Fields, fields: seq<string>): Outcome
    requires |fields| >= 1
  {
    if fields[0] == "$GPRMC" then
      if |fields| < 10 then Failed(NmeaShort, f)
      else if fields[2] != "A" then Failed(NmeaNoFix, f)
      else
        var fix := NmeaFix(f, fields[3], fields[4], fields[5], fields[6]);
        if fix.error.Some? then fix
        else Done(fix.fields.(speed := if IsFloat(fields[7]) then Some(Written(fields[7])) else None,
                              course := Some(Written(fields[8])),
                              rawTimestamp := Some(fields[9] + " " + fields[1])))
    else if fields[0] == "$GPGGA" then
      if |fields| < 11 then Failed(NmeaShort, f)
      else if fields[6] == "0" then Failed(NmeaNoFix, f)
      else
        var fix := NmeaFix(f, fields[2], fields[3], fields[4], fields[5]);
        if fix.error.Some? then fix
        else Done(fix.fields.(altitude := if IsFloat(fields[9]) then Some(Written(fields[9])) else None))
    else if fields[0] == "$GPGLL" then
      if |fields| < 5 then Failed(NmeaShort, f) else NmeaFix(f, fields[1], fields[2], fields[3], fields[4])
    else Failed(NmeaInvalid, f)
  }

  function NmeaOutcome(leaves: Leaves, f: Fields, destination: string, body: string): Outcome {
    var sentence := Trim(body);
    if !("$GP" <= sentence) then Failed(NmeaInvalid, f)
    else
      var (content, checksum) := if '*' in sentence then SplitOnce(sentence, '*').value else (sentence, "");
      if '*' in sentence && |checksum| == 2
         && !(1 <= |content| && leaves.checksumMatches(content[1..], checksum)) then Failed(NmeaInvalid, f)
      else
        var (table, code) := leaves.symbolOf(destination);
        NmeaSentence(f.(nmeaChecksumOk := if '*' in sentence && |checksum| == 2 then Some(true) else f.nmeaChecksumOk,
                        packetType := Some(Location), format := Some(NmeaFormat),
                        table := Some(table), code := Some(code)),
                     Split(content, ','))
  }

  // ---- The other bodies ------------------------------------------------------------------

  function UltimeterOutcome(leaves: Leaves, f: Fields, data: string, logging: bool): Outcome {
    match leaves.ultimeter(data, logging)
    case None => Failed(WeatherInvalid, f)
    case Some(weather) => Done(f.(packetType := Some(WeatherType), weather := Some(weather)))
  }

  function TelemetryOutcome(leaves: Leaves, f: Fields, body: string): Outcome {
    match leaves.report(body)
    case None => Failed(TelemetryInvalid, f)
    case Some(t) => Done(f.(packetType := Some(TelemetryType), telemetry := Some(t)))
  }

  function WeatherOutcome(f: Fields, data: string): Outcome {
    var (weather, comment) := Wx.WeatherOf(data);
    Done(f.(packetType := Some(WeatherType), weather := Some(weather), comment := OrKept(TextOrNone(comment), f.comment)))
  }

  function MessageOutcome(f: Fields, body: string): Outcome {
    match Msg.ParseMessage(body)
    case Err(e) => Failed(BadMessage(e), f)
    case Ok(m) =>
      Done(f.(packetType := Some(if Msg.IsTelemetryText(m.text) then TelemetryMessage else MessageType),
              message := Some(m)))
  }

  /** A position under a name keeps its own packet type, whatever the symbol made of it. */
  function NamedOutcome(positioned: Outcome, kind: PacketType): Outcome {
    if positioned.error.Some? then positioned else Done(positioned.fields.(packetType := Some(kind)))
  }

  const PERMANENT := "111111z"

  function ObjectOutcome(leaves: Leaves, f: Fields, body: string): Outcome {
    if |body| < 31 then Failed(ObjectShort, f)
    else
      var named := f.(packetType := Some(Object), objectName := Some(TrimEnd(body[1..10])));
      if body[10] != '*' && body[10] != '_' then Failed(ObjectInvalid, named)
      else
        var raw := body[11..18];
        NamedOutcome(PositionOutcome(named.(alive := Some(body[10] == '*'), rawTimestamp := Some(raw),
                                            timestamp := if raw == PERMANENT then None else TimestampOf(leaves.now, raw)),
                                     body[18..]),
                     Object)
  }

  /** Where the name of an item ends: at the first `!` or `_` of the ten characters it may take. */
  function ItemNameEnd(body: string, from: nat): (end: Option<nat>)
    ensures end.Some? ==> from <= end.value < |body| && end.value <= 10
    decreases 11 - from
  {
    if from >= |body| || from > 10 then None
    else if body[from] == '!' || body[from] == '_' then Some(from)
    else ItemNameEnd(body, from + 1)
  }

  function ItemOutcome(f: Fields, body: string): Outcome {
    match ItemNameEnd(body, 1)
    case None => Failed(ItemInvalid, f)
    case Some(end) =>
      if |body| - end - 1 < 13 then Failed(ItemShort, f)
      else
        NamedOutcome(PositionOutcome(f.(packetType := Some(Item), itemName := Some(body[1..end]),
                                        alive := Some(body[end] == '!')), body[end + 1..]),
                     Item)
  }

  function StatusOutcome(leaves: Leaves, f: Fields, body: string): Outcome
    requires body != ""
  {
    var status := body[1..];
    var g := f.(packetType := Some(Status));
    if |status| >= 7 && (status[6] == 'z' || status[6] == '/') then
      Done(g.(rawTimestamp := Some(status[..7]), timestamp := TimestampOf(leaves.now, status[..7]),
              status := Some(status[7..])))
    else Done(g.(status := Some(status)))
  }

  function WithCapability(known: Entries, part: string): Entries {
    var capability := Trim(part);
    if capability == "" then known
    else
      match SplitOnce(capability, '=')
      case None => Insert(known, capability, "")
      case Some((name, value)) => Insert(known, name, value)
  }

  function CapabilitiesOf(known: Entries, parts: seq<string>): Entries
    decreases |parts|
  {
    if parts == [] then known else CapabilitiesOf(WithCapability(known, parts[0]), parts[1..])
  }

  function CapabilitiesOutcome(f: Fields, body: string): Outcome
    requires body != ""
  {
    Done(f.(packetType := Some(Capabilities), capabilities := CapabilitiesOf(f.capabilities, Split(body[1..], ','))))
  }

  const BEACON_DESTINATIONS := {"ID", "BEACON", "UIDIGI", "CQ"}

  /** A body without a data type of its own: a beacon, or a position after an early `!`. */
  function OtherOutcome(f: Fields, destination: string, body: string): Outcome {
    if destination in BEACON_DESTINATIONS then Done(f.(packetType := Some(Beacon)))
    else
      var index := IndexOf(body, '!');
      if index < |body| && index <= 39 then
        PositionOutcome(f.(packetType := Some(Location), messaging := Some(false)), body[index + 1..])
      else Failed(TypeNotSupported, f)
  }

  function BodyOutcome(leaves: Leaves, acceptBrokenMicE: bool, f: Fields, destination: string, body: string): Outcome
    requires body != ""
  {
    var identifier := body[0];
    if identifier == '!' || identifier == '=' then
      if "!!" <= body then UltimeterOutcome(leaves, f.(messaging := Some(false)), body[2..], true)
      else PositionOutcome(f.(packetType := Some(Location), messaging := Some(identifier == '=')), body[1..])
    else if identifier == '/' || identifier == '@' then
      if |body| < 8 then Failed(PositionShort, f)
      else
        PositionOutcome(f.(packetType := Some(Location), messaging := Some(identifier == '@'),
                           rawTimestamp := Some(body[1..8]), timestamp := TimestampOf(leaves.now, body[1..8])),
                        body[8..])
    else if identifier == '\'' || identifier == '`' then
      var first := MicEOutcome(f, destination, body, false);
      if first.error.Some? && acceptBrokenMicE then MicEOutcome(f, destination, body, true) else first
    else if identifier == ':' then MessageOutcome(f, body)
    else if identifier == ';' then ObjectOutcome(leaves, f, body)
    else if identifier == ')' then ItemOutcome(f, body)
    else if identifier == '>' then StatusOutcome(leaves, f, body)
    else if identifier == '<' then CapabilitiesOutcome(f, body)
    else if "$ULTW" <= body then UltimeterOutcome(leaves, f, body[5..], false)
    else if identifier == '$' then NmeaOutcome(leaves, f, destination, body)
    else if "T#" <= body then TelemetryOutcome(leaves, f, body)
    else if identifier == '_' then
      if |body| < 9 then Failed(WeatherInvalid, f) else WeatherOutcome(f, body[9..])
    else if "{{" <= body then Failed(ExperimentalUnsupported, f)
    else OtherOutcome(f, destination, body)
  }

  // ---- The typed packet ------------------------------------------------------------------

  /** A position report with everything that goes with it. */
  datatype FullPosition = FullPosition(format: Option<Format>, latitude: Angle, longitude: Angle,
                                       ambiguity: Option<nat>, resolution: Option<real>,
                                       table: Option<char>, code: Option<char>,
                                       speed: Option<Reading>, course: Option<Reading>,
                                       altitude: Option<Reading>, range: Option<Reading>,
                                       rawTimestamp: Option<string>, timestamp: Option<Ts.AprsTimestamp>,
                                       nmeaChecksumOk: Option<bool>, datum: Option<char>, phg: Option<string>,
                                       messageBits: Option<string>, mangled: bool,
                                       weather: Option<Wx.Weather>, telemetry: Option<Telemetry>,
                                       comment: Option<string>)

  datatype PacketBody =
    | LocationBody(position: FullPosition, messaging: bool)
    | ObjectBody(name: string, alive: bool, position: FullPosition)
    | ItemBody(name: string, alive: bool, position: FullPosition)
    | MessageBody(message: Msg.Message)
    | TelemetryMessageBody(message: Msg.Message)
    | StatusBody(text: string, rawTimestamp: Option<string>, timestamp: Option<Ts.AprsTimestamp>)
    | CapabilitiesBody(capabilities: Entries)
    | BeaconBody(data: string)
    | WeatherBody(weather: Wx.Weather, reportedAt: Option<FullPosition>, messagingKnown: Option<bool>,
                  telemetry: Option<Telemetry>, comment: Option<string>)
    | TelemetryBody(telemetryReport: Telemetry)

  /** What the conversion demands: a packet type, and all that this type cannot do without. */
  predicate IsTyped(f: Fields) {
    f.packetType.Some? &&
    match f.packetType.value
    case Location => HasPosition(f)
    case Object => HasPosition(f) && f.objectName.Some? && f.alive.Some?
    case Item => HasPosition(f) && f.itemName.Some? && f.alive.Some?
    case MessageType => f.message.Some?
    case TelemetryMessage => f.message.Some?
    case Status => f.status.Some?
    case Capabilities => true
    case Beacon => true
    case WeatherType => f.weather.Some? && IsPaired(f)
    case TelemetryType => f.telemetry.Some?
  }

  function PositionIn(f: Fields): FullPosition
    requires HasPosition(f)
  {
    FullPosition(f.format, f.latitude.value, f.longitude.value, f.ambiguity, f.resolution, f.table, f.code,
                 f.speed, f.course, f.altitude, f.range, f.rawTimestamp, f.timestamp, f.nmeaChecksumOk,
                 f.datum, f.phg, f.messageBits, f.mangled, f.weather, f.telemetry, f.comment)
  }

  /** The typed packet of a state: a positioned weather report keeps telemetry and comment with its position. */
  function PacketIn(f: Fields, body: string): PacketBody
    requires IsTyped(f)
  {
    match f.packetType.value
    case Location => LocationBody(PositionIn(f), f.messaging == Some(true))
    case Object => ObjectBody(f.objectName.value, f.alive.value, PositionIn(f))
    case Item => ItemBody(f.itemName.value, f.alive.value, PositionIn(f))
    case MessageType => MessageBody(f.message.value)
    case TelemetryMessage => TelemetryMessageBody(f.message.value)
    case Status => StatusBody(f.status.value, f.rawTimestamp, f.timestamp)
    case Capabilities => CapabilitiesBody(f.capabilities)
    case Beacon => BeaconBody(body)
    case WeatherType =>
      if HasPosition(f) then
        WeatherBody(f.weather.value, Some(PositionIn(f.(weather := None))), f.messaging, None, None)
      else WeatherBody(f.weather.value, None, f.messaging, f.telemetry, f.comment)
    case TelemetryType => TelemetryBody(f.telemetry.value)
  }

  lemma MangledIsRepaired(destination: string, body: string, repair: bool)
    requires body != "" && Mx.ParseMicE(destination, body, repair).Ok?
    ensures Mx.ParseMicE(destination, body, repair).value.mangled == Repairs(destination, body, repair)
  {
  }

  lemma NothingToRepair(destination: string, body: string)
    requires body != ""
    ensures !Repairs(destination, body, false)
  {
  }
}
