/**
 * The weather scanner `weather_from_comment` (src/position.rs).
 *
 * The scanner walks over a buffer and cuts what it recognises out of it; what it only passes over
 * stays. Measurements are the numbers as sent, before conversion to metric units.
 */
module Weather {
  import opened Text
  import opened Chars
  import opened Telemetry
  import opened Numbers
  import opened Comment

  datatype Weather = Weather(windDirection: Option<int>, windSpeed: Option<int>, windGust: Option<int>,
                             temperature: Option<int>, rain1h: Option<int>, rain24h: Option<int>,
                             rainSinceMidnight: Option<int>, snow24h: Option<int>, humidity: Option<int>,
                             pressure: Option<int>, luminosity: Option<int>, waterLevel: Option<int>,
                             radiation: Option<int>, batteryVoltage: Option<int>, software: Option<string>)

  const NO_WEATHER := Weather(None, None, None, None, None, None, None, None, None, None, None, None, None, None, None)

  // ---- Numbers ---------------------------------------------------------------------------

  const I32_MAX := 2_147_483_647

  predicate IsBlank(c: char) { c == '.' || c == ' ' }

  predicate AllBlank(s: string) { forall c :: c in s ==> IsBlank(c) }

  function LeadingBlanks(s: string): (n: nat)
    ensures n <= |s| && forall k :: 0 <= k < n ==> IsBlank(s[k])
    ensures n < |s| ==> !IsBlank(s[n])
  {
    if s != "" && IsBlank(s[0]) then 1 + LeadingBlanks(s[1..]) else 0
  }

  /** Leading digits, points and spaces. */
  function LeadingFieldChars(s: string): (n: nat)
    ensures n <= |s| && forall k :: 0 <= k < n ==> IsFieldChar(s[k])
    ensures n < |s| ==> !IsFieldChar(s[n])
  {
    if s != "" && IsFieldChar(s[0]) then 1 + LeadingFieldChars(s[1..]) else 0
  }

  /** A number that is not negative and fits 32 bits signed, spaces around it allowed. */
  function WeatherNumber(field: string): Option<int> {
    var text := Trim(field);
    if AllBlank(field) || text == "" || !AllDigits(text) || NumberOf(text) > I32_MAX then None
    else Some(NumberOf(text))
  }

  /** `str::parse::<i32>` of the trimmed text. */
  function SignedNumber(field: string): Option<int> {
    var text := Trim(field);
    var digits := DropSign(text);
    if digits == "" || !AllDigits(digits) then None
    else
      var value: int := if text[0] == '-' then -(NumberOf(digits) as int) else NumberOf(digits);
      if -I32_MAX - 1 <= value <= I32_MAX then Some(value) else None
  }

  // ---- The scanner's state ---------------------------------------------------------------

  /** `preserved` holds placeholders cut from inside the comment, with the place to put each back. */
  datatype Scan = Scan(remaining: string, cursor: nat, sequenceCursor: Option<nat>, seen: set<char>,
                       preserved: seq<(nat, string)>, voltage: bool, rainCounter: bool,
                       separatorCapacity: nat, weather: Weather)

  predicate ArePlaced(preserved: seq<(nat, string)>, limit: nat) {
    forall p :: p in preserved ==> p.0 <= limit
  }

  predicate IsScan(s: Scan) {
    s.cursor <= |s.remaining| && ArePlaced(s.preserved, s.cursor)
  }

  /** Why a piece of the buffer is cut. */
  datatype Kind =
    | Field(identifier: char, value: int)
    | Placeholder(identifier: char)
    | Voltage
    | RainCounter
    | RainPlaceholder
    | BlankTemperature

  datatype Action = Skip(to: nat) | Cut(width: nat, kind: Kind)

  /** The decision moves on within the `left` characters after the cursor. */
  predicate Advances(a: Action, cursor: nat, left: nat) {
    match a
    case Skip(to) => cursor < to <= cursor + left
    case Cut(width, _) => 2 <= width <= left
  }

  // ---- One decision ----------------------------------------------------------------------

  /** Usual width of a field, and whether it may be negative. */
  function FieldWidth(identifier: char): Option<(nat, bool)> {
    if identifier in {'c', 's', 'g', 'r', 'p', 'P', 'L', 'l', 'X', 'V'} then Some((3, false))
    else if identifier == 't' then Some((3, true))
    else if identifier == 'h' then Some((2, false))
    else if identifier == 'b' then Some((5, false))
    else if identifier == 'F' then Some((4, true))
    else None
  }

  function CharAt(s: string, i: nat): Option<char> {
    if i < |s| then Some(s[i]) else None
  }

  predicate IsLetterAt(s: string, i: nat) {
    i < |s| && IsAlphabeticChar(s[i])
  }

  predicate AfterLetter(s: Scan) {
    0 < s.cursor <= |s.remaining| && IsAlphabeticChar(s.remaining[s.cursor - 1])
  }

  /** A letter after the digits that does not start another weather field. */
  predicate RunsIntoWord(candidate: string, i: nat, others: set<char>) {
    i < |candidate| && IsAlphabeticChar(candidate[i]) && candidate[i] !in others
  }

  const AFTER_SNOW := {'c', 'g', 't', 'r', 'p', 'P', 'h', 'b', 'L', 'l', 'F', 'X', 'V'}
  const AFTER_GUST := {'c', 's', 't', 'r', 'p', 'P', 'h', 'b', 'L', 'l', 'F', 'X', 'V'}

  /** A letter that only looks like a weather field: part of a word, or out of its place. */
  predicate IsLookalike(s: Scan, candidate: string, signWidth: nat, digits: nat)
    requires candidate != ""
  {
    var identifier := candidate[0];
    var afterDigits := 1 + signWidth + digits;
    || (identifier == 'h' && digits == 1 && AfterLetter(s) && IsLetterAt(candidate, 2) && s.seen == {})
    || (identifier in {'F', 'X', 'V'} && s.sequenceCursor != Some(s.cursor) && s.cursor != 0)
    || (identifier == 's' && digits != 0 && s.seen == {}
        && (AfterLetter(s) || RunsIntoWord(candidate, afterDigits, AFTER_SNOW)))
    || (identifier in {'L', 'l'} && digits != 0 && s.cursor != 0 && s.seen == {}
        && (digits < 3 || AfterLetter(s)))
    || (identifier == 'c' && digits != 0 && AfterLetter(s))
    || (identifier == 'g' && digits != 0
        && (AfterLetter(s) || RunsIntoWord(candidate, afterDigits, AFTER_GUST)))
    || (identifier == 's' && s.cursor != 0
        && var end := 1 + LeadingBlanks(candidate[1..]);
           CharAt(candidate, end) == Some('V') && end + 1 < |candidate| && IsDigitChar(candidate[end + 1]))
  }

  function NumericWidth(identifier: char, digits: nat): nat {
    if identifier == 'g' then digits
    else if identifier == 't' then (if digits < 4 then digits else 4)
    else if identifier in {'r', 'p', 'P', 'h', 'L', 'l', 's'} then (if digits < 3 then digits else 3)
    else if identifier == 'b' && 4 <= digits <= 5 then digits
    else 0
  }

  function FieldNumber(identifier: char, field: string): Option<int> {
    if identifier in {'t', 'F'} then SignedNumber(field) else WeatherNumber(field)
  }

  /** Read the field at the front of `candidate`, if there is one. */
  function ClassifyValue(cursor: nat, candidate: string, signWidth: nat, digits: nat): (a: Action)
    requires candidate != "" && FieldWidth(candidate[0]).Some?
    ensures Advances(a, cursor, |candidate|)
  {
    var identifier := candidate[0];
    var numericWidth := NumericWidth(identifier, digits);
    var placeholders := LeadingBlanks(candidate[1..]);
    var placeholderWidth := if placeholders < 5 then placeholders else 5;
    var width := if numericWidth != 0 then signWidth + numericWidth
                 else if placeholderWidth != 0 then placeholderWidth
                 else FieldWidth(identifier).value.0;
    if |candidate| < width + 1 then Skip(cursor + 1)
    else
      var field := candidate[1..width + 1];
      match FieldNumber(identifier, field)
      case Some(value) => Cut(width + 1, Field(identifier, value))
      case None => if AllBlank(field) then Cut(width + 1, Placeholder(identifier)) else Skip(cursor + 1)
  }

  /** The decision at a field letter not yet used. */
  function ClassifyField(s: Scan, candidate: string): (a: Action)
    requires candidate != "" && FieldWidth(candidate[0]).Some?
    ensures Advances(a, s.cursor, |candidate|)
  {
    var identifier := candidate[0];
    var signed := FieldWidth(identifier).value.1;
    var signWidth := if signed && CharAt(candidate, 1) == Some('-') then 1 else 0;
    var digits := LeadingDigits(candidate[1 + signWidth..]);
    var initialWidth := LeadingFieldChars(candidate[1 + signWidth..]);
    if identifier == 't' && s.sequenceCursor == Some(s.cursor) && initialWidth > digits
       && exists k :: 1 + signWidth <= k < 1 + signWidth + initialWidth && IsDigitChar(candidate[k])
    then Cut(1 + signWidth + initialWidth, BlankTemperature)
    else if IsLookalike(s, candidate, signWidth, digits) then Skip(s.cursor + 1)
    else ClassifyValue(s.cursor, candidate, signWidth, digits)
  }

  /** The decision at a legacy token, if it is one. */
  function ClassifyLegacy(s: Scan, candidate: string): (a: Option<Action>)
    requires candidate != ""
    ensures a.Some? ==> Advances(a.value, s.cursor, |candidate|)
  {
    if candidate[0] == 'v' && !s.voltage then
      var signWidth := if CharAt(candidate, 1) == Some('+') || CharAt(candidate, 1) == Some('-') then 1 else 0;
      var digits := LeadingDigits(candidate[1 + signWidth..]);
      if digits != 0 then Some(Cut(1 + signWidth + digits, Voltage)) else None
    else if candidate[0] == '#' && !s.rainCounter then
      var digits := LeadingDigits(candidate[1..]);
      if digits != 0 then Some(Cut(1 + digits, RainCounter))
      else
        var placeholders := LeadingBlanks(candidate[1..]);
        var width := if placeholders < 5 then placeholders else 5;
        if s.cursor == 0 && width != 0 then Some(Cut(1 + width, RainPlaceholder)) else None
    else None
  }

  function Classify(s: Scan): (a: Action)
    requires s.cursor < |s.remaining|
    ensures Advances(a, s.cursor, |s.remaining| - s.cursor)
  {
    var candidate := s.remaining[s.cursor..];
    var telemetry := if candidate[0] == '|' then TelemetryEnd(s.remaining, s.cursor) else None;
    if telemetry.Some? then Skip(telemetry.value)
    else
      match ClassifyLegacy(s, candidate)
      case Some(action) => action
      case None =>
        if FieldWidth(candidate[0]).None? || candidate[0] in s.seen then Skip(s.cursor + 1)
        else ClassifyField(s, candidate)
  }

  // ---- What a decision does --------------------------------------------------------------

  function FirstOf(known: Option<int>, value: int): Option<int> {
    if known.None? then Some(value) else known
  }

  function Record(w: Weather, seen: set<char>, identifier: char, value: int): Weather {
    if identifier == 'c' then w.(windDirection := FirstOf(w.windDirection, value))
    else if identifier == 's' && 'c' in seen then w.(windSpeed := FirstOf(w.windSpeed, value))
    else if identifier == 's' then w.(snow24h := FirstOf(w.snow24h, value))
    else if identifier == 'g' then w.(windGust := FirstOf(w.windGust, value))
    else if identifier == 't' then w.(temperature := FirstOf(w.temperature, value))
    else if identifier == 'r' then w.(rain1h := FirstOf(w.rain1h, value))
    else if identifier == 'p' then w.(rain24h := FirstOf(w.rain24h, value))
    else if identifier == 'P' then w.(rainSinceMidnight := FirstOf(w.rainSinceMidnight, value))
    else if identifier == 'h' && w.humidity.None? then
      var humidity := if value == 0 then 100 else value;
      w.(humidity := if 1 <= humidity <= 100 then Some(humidity) else None)
    else if identifier == 'b' then w.(pressure := FirstOf(w.pressure, value))
    else if identifier == 'L' then w.(luminosity := FirstOf(w.luminosity, value))
    else if identifier == 'l' then w.(luminosity := FirstOf(w.luminosity, value + 1000))
    else if identifier == 'F' then w.(waterLevel := FirstOf(w.waterLevel, value))
    else if identifier == 'X' then w.(radiation := FirstOf(w.radiation, value))
    else if identifier == 'V' then w.(batteryVoltage := FirstOf(w.batteryVoltage, value))
    else w
  }

  /** `L` and `l` are one measurement. */
  function Used(identifier: char): set<char> {
    if identifier in {'L', 'l'} then {'L', 'l'} else {identifier}
  }

  /** How many more blanks a separator of five still takes after `width` of them. */
  function BlanksLeft(width: nat): nat { if width < 5 then 5 - width else 0 }

  function Apply(s: Scan, a: Action): (r: Scan)
    requires s.cursor < |s.remaining| && Advances(a, s.cursor, |s.remaining| - s.cursor)
    ensures |r.remaining| - r.cursor < |s.remaining| - s.cursor
    ensures IsScan(s) ==> IsScan(r)
  {
    match a
    case Skip(to) => s.(cursor := to)
    case Cut(width, kind) =>
      var cut := s.(remaining := s.remaining[..s.cursor] + s.remaining[s.cursor + width..]);
      match kind
      case Voltage => cut.(voltage := true)
      case RainCounter => cut.(rainCounter := true)
      case RainPlaceholder => cut.(separatorCapacity := BlanksLeft(width - 1))
      case BlankTemperature => cut.(sequenceCursor := Some(s.cursor))
      case Field(identifier, value) =>
        cut.(weather := Record(s.weather, s.seen, identifier, value), seen := s.seen + Used(identifier),
             sequenceCursor := Some(s.cursor))
      case Placeholder(identifier) =>
        if s.cursor != 0 then
          cut.(preserved := s.preserved + [(s.cursor, s.remaining[s.cursor..s.cursor + width])],
               sequenceCursor := Some(s.cursor))
        else
          cut.(separatorCapacity := if identifier in {'r', 'P', 'p', 'h', 'b', 'l', 'L', 's'}
                                    then BlanksLeft(width - 1) else s.separatorCapacity,
               sequenceCursor := Some(s.cursor))
  }

  // ---- The whole scan --------------------------------------------------------------------

  /** Decide and act until the buffer is used up. */
  function Run(s: Scan): (r: Scan)
    requires IsScan(s)
    ensures IsScan(r) && r.cursor == |r.remaining|
    decreases |s.remaining| - s.cursor
  {
    if s.cursor < |s.remaining| then Run(Apply(s, Classify(s))) else s
  }

  /** The report without its underscore and wind prefix, and the state to scan it from. */
  function Start(data: string): (s: Scan)
    ensures IsScan(s) && s.cursor == 0 && s.seen == {} && s.preserved == []
  {
    var report := if data != "" && data[0] == '_' then data[1..] else data;
    var blank := Scan(report, 0, None, {}, [], false, false, 0, NO_WEATHER);
    if |report| >= 7 && report[3] == '/' then
      blank.(remaining := report[7..], sequenceCursor := Some(0),
             weather := NO_WEATHER.(windDirection := WeatherNumber(report[..3]),
                                    windSpeed := WeatherNumber(report[4..7])))
    else if |report| >= 8 && report[0] == 'c' && report[4] == 's' then
      blank.(remaining := report[8..], sequenceCursor := Some(0),
             weather := NO_WEATHER.(windDirection := WeatherNumber(report[1..4]),
                                    windSpeed := WeatherNumber(report[5..8])))
    else blank
  }

  function Insert(text: string, p: (nat, string)): string
    requires p.0 <= |text|
  {
    text[..p.0] + p.1 + text[p.0..]
  }

  /** The preserved placeholders put back, the last one first. */
  function Reinsert(text: string, preserved: seq<(nat, string)>): string
    requires ArePlaced(preserved, |text|)
    decreases |preserved|
  {
    if preserved == [] then text
    else
      var last := preserved[|preserved| - 1];
      assert last in preserved;
      Reinsert(Insert(text, last), preserved[..|preserved| - 1])
  }

  predicate IsAsciiWhitespace(c: char) { IsSpace(c) && c != 11 as char }

  /** The first run of white space as one space. */
  function CollapseFirst(s: string): string {
    if s == "" then ""
    else if IsAsciiWhitespace(s[0]) then " " + DropWhitespace(s)
    else [s[0]] + CollapseFirst(s[1..])
  }

  function DropWhitespace(s: string): string {
    if s != "" && IsAsciiWhitespace(s[0]) then DropWhitespace(s[1..]) else s
  }

  predicate IsSoftware(s: string) {
    3 <= |s| <= 5 && forall c :: c in s ==> IsAlphanumericChar(c) || c == '-' || c == '_'
  }

  /** The comment cut and trimmed, and the weather with the software named by it, if it is a name. */
  function FinishText(text: string, separatorCapacity: nat, weather: Weather): (Weather, string) {
    var capacity := if separatorCapacity < |text| then separatorCapacity else |text|;
    var separator := LeadingBlanks(text[..capacity]);
    var comment := CollapseFirst(Trim(text[separator..]));
    if IsSoftware(comment) then (weather.(software := Some(comment)), "") else (weather, comment)
  }

  function Finish(s: Scan): (Weather, string)
    requires IsScan(s) && s.cursor == |s.remaining|
  {
    FinishText(Reinsert(s.remaining, s.preserved), s.separatorCapacity, s.weather)
  }

  function WeatherOf(data: string): (Weather, string) {
    Finish(Run(Start(data)))
  }

  method WeatherFromComment(data: string) returns (weather: Weather, comment: string)
    ensures (weather, comment) == WeatherOf(data)
  {
    hide Classify, Run, FinishText, Start, Record;
    var start := Start(data);
    var remaining := start.remaining;
    var cursor, sequenceCursor := 0, start.sequenceCursor;
    var seen: set<char>, preserved: seq<(nat, string)> := {}, [];
    var voltage, rainCounter, separatorCapacity := start.voltage, start.rainCounter, start.separatorCapacity;
    weather := start.weather;
    while cursor < |remaining|
      invariant IsScan(Scan(remaining, cursor, sequenceCursor, seen, preserved, voltage, rainCounter,
                            separatorCapacity, weather))
      invariant Run(Scan(remaining, cursor, sequenceCursor, seen, preserved, voltage, rainCounter,
                         separatorCapacity, weather)) == Run(start)
      decreases |remaining| - cursor
    {
      var before := Scan(remaining, cursor, sequenceCursor, seen, preserved, voltage, rainCounter,
                         separatorCapacity, weather);
      RunStep(before);
      match Classify(before) {
        case Skip(to) => cursor := to;
        case Cut(width, kind) =>
          var piece := remaining[cursor..cursor + width];
          remaining := remaining[..cursor] + remaining[cursor + width..];
          match kind {
            case Voltage => voltage := true;
            case RainCounter => rainCounter := true;
            case RainPlaceholder => separatorCapacity := BlanksLeft(width - 1);
            case BlankTemperature => sequenceCursor := Some(cursor);
            case Field(identifier, value) =>
              weather := Record(weather, seen, identifier, value);
              seen := seen + Used(identifier);
              sequenceCursor := Some(cursor);
            case Placeholder(identifier) =>
              if cursor != 0 {
                preserved := preserved + [(cursor, piece)];
              } else if identifier in {'r', 'P', 'p', 'h', 'b', 'l', 'L', 's'} {
                separatorCapacity := BlanksLeft(width - 1);
              }
              sequenceCursor := Some(cursor);
          }
      }
      assert Scan(remaining, cursor, sequenceCursor, seen, preserved, voltage, rainCounter,
                  separatorCapacity, weather) == Apply(before, Classify(before));
    }
    ghost var end := Scan(remaining, cursor, sequenceCursor, seen, preserved, voltage, rainCounter,
                          separatorCapacity, weather);
    RunStep(end);
    weather, comment := FinishLoop(remaining, preserved, separatorCapacity, weather);
  }

  lemma RunStep(s: Scan)
    requires IsScan(s)
    ensures Run(s) == if s.cursor < |s.remaining| then Run(Apply(s, Classify(s))) else s
  {
  }

  method FinishLoop(remaining: string, preserved: seq<(nat, string)>, separatorCapacity: nat, w: Weather)
      returns (weather: Weather, comment: string)
    requires ArePlaced(preserved, |remaining|)
    ensures (weather, comment) == FinishText(Reinsert(remaining, preserved), separatorCapacity, w)
  {
    hide FinishText;
    var text := remaining;
    var i := |preserved|;
    assert preserved[..i] == preserved;
    while i > 0
      invariant 0 <= i <= |preserved| && ArePlaced(preserved[..i], |text|)
      invariant Reinsert(text, preserved[..i]) == Reinsert(remaining, preserved)
    {
      i := i - 1;
      assert preserved[..i + 1][..i] == preserved[..i];
      assert preserved[i] in preserved[..i + 1];
      text := Insert(text, preserved[i]);
    }
    var result := FinishText(text, separatorCapacity, w);
    return result.0, result.1;
  }
}
