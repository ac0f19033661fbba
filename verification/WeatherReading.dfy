/** Where the measurements of a weather report come from, and what a standard report reads as. */
module WeatherReading {
  import opened Text
  import opened Chars
  import opened Telemetry
  import opened Numbers
  import opened Comment
  import opened Weather
  import opened WeatherProofs
  import opened WeatherFields

  // ---- Each measurement is the number of the piece cut for it ----------------------------

  /** The number of the first piece cut for `identifier`. */
  function NumberFor(pieces: seq<Piece>, identifier: char): Option<int> {
    if pieces == [] then None
    else if pieces[0].kind.Field? && pieces[0].kind.identifier == identifier then Some(pieces[0].kind.value)
    else NumberFor(pieces[1..], identifier)
  }

  /** The number of the first snow or speed piece that comes before any direction piece, or after one. */
  function NumberOfS(pieces: seq<Piece>, afterDirection: bool, wanted: bool): Option<int> {
    if pieces == [] then None
    else
      var kind := pieces[0].kind;
      if kind.Field? && kind.identifier == 's' && afterDirection == wanted then Some(kind.value)
      else NumberOfS(pieces[1..], afterDirection || (kind.Field? && kind.identifier == 'c'), wanted)
  }

  /** `l` counts a thousand more than `L`. */
  function LuminosityFor(pieces: seq<Piece>): Option<int> {
    if pieces == [] then None
    else
      var kind := pieces[0].kind;
      if kind.Field? && kind.identifier == 'L' then Some(kind.value)
      else if kind.Field? && kind.identifier == 'l' then Some(kind.value + 1000)
      else LuminosityFor(pieces[1..])
  }

  function PercentOf(value: int): Option<int> {
    var humidity := if value == 0 then 100 else value;
    if 1 <= humidity <= 100 then Some(humidity) else None
  }

  /** The first humidity that is a percentage, with 0 for 100. */
  function HumidityFor(pieces: seq<Piece>): Option<int> {
    if pieces == [] then None
    else
      var kind := pieces[0].kind;
      if kind.Field? && kind.identifier == 'h' && PercentOf(kind.value).Some? then PercentOf(kind.value)
      else HumidityFor(pieces[1..])
  }

  function OrElse(known: Option<int>, other: Option<int>): Option<int> {
    if known.Some? then known else other
  }

  predicate IsWindReadFrom(final: Weather, w: Weather, pieces: seq<Piece>, afterDirection: bool) {
    && final.windDirection == OrElse(w.windDirection, NumberFor(pieces, 'c'))
    && final.windSpeed == OrElse(w.windSpeed, NumberOfS(pieces, afterDirection, true))
    && final.snow24h == OrElse(w.snow24h, NumberOfS(pieces, afterDirection, false))
    && final.windGust == OrElse(w.windGust, NumberFor(pieces, 'g'))
    && final.temperature == OrElse(w.temperature, NumberFor(pieces, 't'))
  }

  predicate IsRainReadFrom(final: Weather, w: Weather, pieces: seq<Piece>) {
    && final.rain1h == OrElse(w.rain1h, NumberFor(pieces, 'r'))
    && final.rain24h == OrElse(w.rain24h, NumberFor(pieces, 'p'))
    && final.rainSinceMidnight == OrElse(w.rainSinceMidnight, NumberFor(pieces, 'P'))
    && final.pressure == OrElse(w.pressure, NumberFor(pieces, 'b'))
  }

  predicate IsRestReadFrom(final: Weather, w: Weather, pieces: seq<Piece>) {
    && final.humidity == OrElse(w.humidity, HumidityFor(pieces))
    && final.luminosity == OrElse(w.luminosity, LuminosityFor(pieces))
    && final.waterLevel == OrElse(w.waterLevel, NumberFor(pieces, 'F'))
    && final.radiation == OrElse(w.radiation, NumberFor(pieces, 'X'))
    && final.batteryVoltage == OrElse(w.batteryVoltage, NumberFor(pieces, 'V'))
    && final.software == w.software
  }

  /** `w` completed from the pieces still to be cut. */
  predicate IsReadFrom(final: Weather, w: Weather, pieces: seq<Piece>, afterDirection: bool) {
    && IsWindReadFrom(final, w, pieces, afterDirection)
    && IsRainReadFrom(final, w, pieces)
    && IsRestReadFrom(final, w, pieces)
  }

  function ValueIf(condition: bool, piece: Piece, other: Option<int>): Option<int>
    requires piece.kind.Field?
  {
    if condition then Some(piece.kind.value) else other
  }

  lemma ConsNumber(piece: Piece, rest: seq<Piece>, identifier: char)
    requires piece.kind.Field?
    ensures NumberFor([piece] + rest, identifier)
            == ValueIf(piece.kind.identifier == identifier, piece, NumberFor(rest, identifier))
  {
    assert ([piece] + rest)[1..] == rest;
  }

  lemma ConsNumberOfS(piece: Piece, rest: seq<Piece>, after: bool, wanted: bool)
    requires piece.kind.Field?
    ensures NumberOfS([piece] + rest, after, wanted)
            == ValueIf(piece.kind.identifier == 's' && after == wanted, piece,
                       NumberOfS(rest, after || piece.kind.identifier == 'c', wanted))
  {
    assert ([piece] + rest)[1..] == rest;
  }

  lemma ConsLuminosity(piece: Piece, rest: seq<Piece>)
    requires piece.kind.Field?
    ensures LuminosityFor([piece] + rest)
            == if piece.kind.identifier == 'l' then Some(piece.kind.value + 1000)
               else ValueIf(piece.kind.identifier == 'L', piece, LuminosityFor(rest))
  {
    assert ([piece] + rest)[1..] == rest;
  }

  /** A number recorded is the field's own value from then on, unless one was known. */
  function After(hit: bool, known: Option<int>, value: int): Option<int> {
    if hit && known.None? then Some(value) else known
  }

  lemma RecordWind(w: Weather, seen: set<char>, id: char, v: int)
    ensures var r := Record(w, seen, id, v);
            && r.windDirection == After(id == 'c', w.windDirection, v)
            && r.windSpeed == After(id == 's' && 'c' in seen, w.windSpeed, v)
            && r.snow24h == After(id == 's' && 'c' !in seen, w.snow24h, v)
            && r.windGust == After(id == 'g', w.windGust, v)
            && r.temperature == After(id == 't', w.temperature, v)
  {
  }

  lemma RecordRain(w: Weather, seen: set<char>, id: char, v: int)
    ensures var r := Record(w, seen, id, v);
            && r.rain1h == After(id == 'r', w.rain1h, v)
            && r.rain24h == After(id == 'p', w.rain24h, v)
            && r.rainSinceMidnight == After(id == 'P', w.rainSinceMidnight, v)
            && r.pressure == After(id == 'b', w.pressure, v)
  {
  }

  lemma RecordRest(w: Weather, seen: set<char>, id: char, v: int)
    ensures var r := Record(w, seen, id, v);
            && r.humidity == (if id == 'h' && w.humidity.None? then PercentOf(v) else w.humidity)
            && r.luminosity == After(id == 'L' || id == 'l', w.luminosity, if id == 'l' then v + 1000 else v)
            && r.waterLevel == After(id == 'F', w.waterLevel, v)
            && r.radiation == After(id == 'X', w.radiation, v)
            && r.batteryVoltage == After(id == 'V', w.batteryVoltage, v)
            && r.software == w.software
  {
  }

  /** One step of reading a measurement: what was cut first wins, and is known from then on. */
  lemma StepReads(piece: Piece, rest: seq<Piece>, id: char, known: Option<int>, final: Option<int>)
    requires piece.kind.Field?
    requires final == OrElse(After(piece.kind.identifier == id, known, piece.kind.value), NumberFor(rest, id))
    ensures final == OrElse(known, NumberFor([piece] + rest, id))
  {
    hide NumberFor;
    ConsNumber(piece, rest, id);
  }

  lemma WindReads(final: Weather, w: Weather, seen: set<char>, piece: Piece, rest: seq<Piece>)
    requires piece.kind.Field?
    requires var id := piece.kind.identifier;
             IsWindReadFrom(final, Record(w, seen, id, piece.kind.value), rest, 'c' in seen + Used(id))
    ensures IsWindReadFrom(final, w, [piece] + rest, 'c' in seen)
  {
    hide NumberFor, NumberOfS, Record, OrElse;
    var id, after := piece.kind.identifier, 'c' in seen;
    RecordWind(w, seen, id, piece.kind.value);
    assert 'c' in seen + Used(id) <==> after || id == 'c';
    StepReads(piece, rest, 'c', w.windDirection, final.windDirection);
    StepReads(piece, rest, 'g', w.windGust, final.windGust);
    StepReads(piece, rest, 't', w.temperature, final.temperature);
    StepOfS(piece, rest, after, true, w.windSpeed, final.windSpeed);
    StepOfS(piece, rest, after, false, w.snow24h, final.snow24h);
  }

  lemma StepOfS(piece: Piece, rest: seq<Piece>, after: bool, wanted: bool, known: Option<int>, final: Option<int>)
    requires piece.kind.Field?
    requires final == OrElse(After(piece.kind.identifier == 's' && after == wanted, known, piece.kind.value),
                             NumberOfS(rest, after || piece.kind.identifier == 'c', wanted))
    ensures final == OrElse(known, NumberOfS([piece] + rest, after, wanted))
  {
    hide NumberOfS;
    ConsNumberOfS(piece, rest, after, wanted);
  }

  lemma RainReads(final: Weather, w: Weather, seen: set<char>, piece: Piece, rest: seq<Piece>)
    requires piece.kind.Field?
    requires IsRainReadFrom(final, Record(w, seen, piece.kind.identifier, piece.kind.value), rest)
    ensures IsRainReadFrom(final, w, [piece] + rest)
  {
    hide NumberFor, Record, OrElse;
    RecordRain(w, seen, piece.kind.identifier, piece.kind.value);
    StepReads(piece, rest, 'r', w.rain1h, final.rain1h);
    StepReads(piece, rest, 'p', w.rain24h, final.rain24h);
    StepReads(piece, rest, 'P', w.rainSinceMidnight, final.rainSinceMidnight);
    StepReads(piece, rest, 'b', w.pressure, final.pressure);
  }

  lemma LuminosityReads(piece: Piece, rest: seq<Piece>, known: Option<int>, final: Option<int>)
    requires piece.kind.Field?
    requires var id, v := piece.kind.identifier, piece.kind.value;
             final == OrElse(After(id == 'L' || id == 'l', known, if id == 'l' then v + 1000 else v), LuminosityFor(rest))
    ensures final == OrElse(known, LuminosityFor([piece] + rest))
  {
    hide LuminosityFor;
    ConsLuminosity(piece, rest);
  }

  lemma HumidityReads(piece: Piece, rest: seq<Piece>, known: Option<int>, final: Option<int>)
    requires piece.kind.Field?
    requires var id, v := piece.kind.identifier, piece.kind.value;
             final == OrElse(if id == 'h' && known.None? then PercentOf(v) else known, HumidityFor(rest))
    ensures final == OrElse(known, HumidityFor([piece] + rest))
  {
    assert ([piece] + rest)[1..] == rest;
  }

  lemma RestReads(final: Weather, w: Weather, seen: set<char>, piece: Piece, rest: seq<Piece>)
    requires piece.kind.Field?
    requires IsRestReadFrom(final, Record(w, seen, piece.kind.identifier, piece.kind.value), rest)
    ensures IsRestReadFrom(final, w, [piece] + rest)
  {
    hide NumberFor, LuminosityFor, HumidityFor, PercentOf, Record, OrElse;
    RecordRest(w, seen, piece.kind.identifier, piece.kind.value);
    HumidityReads(piece, rest, w.humidity, final.humidity);
    LuminosityReads(piece, rest, w.luminosity, final.luminosity);
    StepReads(piece, rest, 'F', w.waterLevel, final.waterLevel);
    StepReads(piece, rest, 'X', w.radiation, final.radiation);
    StepReads(piece, rest, 'V', w.batteryVoltage, final.batteryVoltage);
  }

  lemma FieldReads(final: Weather, w: Weather, seen: set<char>, piece: Piece, rest: seq<Piece>)
    requires piece.kind.Field?
    requires var id := piece.kind.identifier;
             IsReadFrom(final, Record(w, seen, id, piece.kind.value), rest, 'c' in seen + Used(id))
    ensures IsReadFrom(final, w, [piece] + rest, 'c' in seen)
  {
    hide IsWindReadFrom, IsRainReadFrom, IsRestReadFrom, Record;
    WindReads(final, w, seen, piece, rest);
    RainReads(final, w, seen, piece, rest);
    RestReads(final, w, seen, piece, rest);
  }

  lemma OtherReads(final: Weather, w: Weather, piece: Piece, rest: seq<Piece>, afterDirection: bool)
    requires !piece.kind.Field? && IsReadFrom(final, w, rest, afterDirection)
    ensures IsReadFrom(final, w, [piece] + rest, afterDirection)
  {
    var pieces := [piece] + rest;
    assert pieces[1..] == rest;
  }

  lemma ApplyWeather(s: Scan, a: Action)
    requires s.cursor < |s.remaining| && Advances(a, s.cursor, |s.remaining| - s.cursor)
    ensures Apply(s, a).weather ==
            if a.Cut? && a.kind.Field? then Record(s.weather, s.seen, a.kind.identifier, a.kind.value) else s.weather
  {
    hide Record;
  }

  lemma {:induction false} RunReads(s: Scan, total: nat)
    requires IsScan(s) && Place(s, total) >= 0
    ensures IsReadFrom(Run(s).weather, s.weather, Lost(s, total), 'c' in s.seen)
    decreases |s.remaining| - s.cursor
  {
    hide Classify, Apply, Record, IsReadFrom, Used, FieldWidth;
    if s.cursor == |s.remaining| {
      NothingToRead(s.weather, 'c' in s.seen);
    } else {
      var a := Classify(s);
      var next := Apply(s, a);
      RunReads(next, total);
      FieldKinds(s);
      ApplyWeather(s, a);
      ApplySpends(s, a);
      var later := Lost(next, total);
      if IsLost(s, a) {
        var piece := Piece(Place(s, total), Place(s, total) + a.width, a.kind);
        if a.kind.Field? { FieldReads(Run(next).weather, s.weather, s.seen, piece, later); }
        else { OtherReads(Run(next).weather, s.weather, piece, later, 'c' in s.seen); }
      }
    }
  }

  lemma NothingToRead(w: Weather, afterDirection: bool)
    ensures IsReadFrom(w, w, [], afterDirection)
  {
  }

  /** Every measurement is the wind prefix's or the number of the piece cut for it. */
  lemma MeasurementsComeFromPieces(data: string)
    ensures var start := Start(data);
            IsReadFrom(Run(start).weather, start.weather, Lost(start, |start.remaining|), false)
  {
    hide Start, Run, IsReadFrom;
    RunReads(Start(data), |Start(data).remaining|);
  }

  /** A field piece is its letter and the text of its number. */
  lemma {:induction false} FieldPiecesReadTheirText(s: Scan, text: string, i: nat)
    requires IsScan(s) && IsSuffix(s, text) && i < |Lost(s, |text|)| && Lost(s, |text|)[i].kind.Field?
    ensures var p := Lost(s, |text|)[i];
            && p.start + 1 <= p.end <= |text| && text[p.start] == p.kind.identifier
            && FieldNumber(p.kind.identifier, text[p.start + 1..p.end]) == Some(p.kind.value)
    decreases |s.remaining| - s.cursor
  {
    hide Classify, Apply, FieldNumber, FieldWidth;
    var a := Classify(s);
    ApplyKeeps(s, text);
    if IsLost(s, a) && i == 0 {
      FieldKinds(s);
      var p, unread := Place(s, |text|), s.remaining[s.cursor..];
      SliceOfSuffix(s.remaining, s.cursor, 1, a.width);
      SliceOfSuffix(text, p, 1, a.width);
      assert text[p] == text[p..][0] == unread[0];
    } else {
      FieldPiecesReadTheirText(Apply(s, a), text, if IsLost(s, a) then i - 1 else i);
    }
  }

  // ---- A standard report -----------------------------------------------------------------

  /** The measurements of a complete report, as numbers on the wire. */
  datatype Readings = Readings(direction: nat, speed: nat, gust: nat, temperature: int, rain1h: nat, rain24h: nat,
                               rainSinceMidnight: nat, humidity: nat, pressure: nat)

  predicate AreReadings(r: Readings) {
    && r.direction <= 999 && r.speed <= 999 && r.gust <= 999 && -99 <= r.temperature <= 999
    && r.rain1h <= 999 && r.rain24h <= 999 && r.rainSinceMidnight <= 999
    && 1 <= r.humidity <= 100 && r.pressure <= 99_999
  }

  function TemperatureText(t: int): string
    requires -99 <= t <= 999
  {
    if t < 0 then "-" + Digits(-t, 2) else Digits(t, 3)
  }

  function FieldText(identifier: char, field: string, rest: string): string {
    [identifier] + field + rest
  }

  /** The fields after the wind, in the order of the APRS Protocol Reference 1.0.1, chapter 12. */
  function FieldsText(r: Readings, comment: string): string
    requires AreReadings(r)
  {
    FieldText('g', Digits(r.gust, 3),
    FieldText('t', TemperatureText(r.temperature),
    FieldText('r', Digits(r.rain1h, 3),
    FieldText('p', Digits(r.rain24h, 3),
    FieldText('P', Digits(r.rainSinceMidnight, 3),
    FieldText('h', Digits(r.humidity, 2),
    FieldText('b', Digits(r.pressure, 5), comment)))))))
  }

  function ReportText(r: Readings, comment: string): string
    requires AreReadings(r)
  {
    Digits(r.direction, 3) + "/" + Digits(r.speed, 3) + FieldsText(r, comment)
  }

  function WeatherRead(r: Readings): Weather {
    NO_WEATHER.(windDirection := Some(r.direction), windSpeed := Some(r.speed), windGust := Some(r.gust),
                temperature := Some(r.temperature), rain1h := Some(r.rain1h), rain24h := Some(r.rain24h),
                rainSinceMidnight := Some(r.rainSinceMidnight), humidity := Some(r.humidity),
                pressure := Some(r.pressure))
  }

  const STANDARD_FIELDS := {'g', 't', 'r', 'p', 'P', 'h', 'b'}

  lemma TrimDigits(s: string)
    requires AllDigits(s)
    ensures TrimEnd(s) == s && Trim(s) == s
  {
  }

  /** Another field follows, or after the last one anything at all. */
  predicate Follows(identifier: char, rest: string) {
    identifier == 'b' || (rest != "" && rest[0] in STANDARD_FIELDS && rest[0] != 'g')
  }

  function StandardWidth(identifier: char): nat {
    if identifier == 'h' then 2 else if identifier == 'b' then 5 else 3
  }

  lemma {:induction false} MoreDigits(s: string) returns (digits: string, rest: string)
    ensures s == digits + rest && AllDigits(digits) && !StartsWithDigit(rest)
  {
    digits, rest := "", s;
    if StartsWithDigit(s) {
      digits, rest := MoreDigits(s[1..]);
      digits := [s[0]] + digits;
    }
  }

  lemma UsualNumber(identifier: char, digits: string, more: string, behind: string)
    requires identifier in STANDARD_FIELDS && AllDigits(digits) && AllDigits(more) && |digits| == StandardWidth(identifier)
    requires identifier != 'b' ==> more == ""
    ensures AllDigits(digits + more) && NumberTaken(identifier, digits + more, behind) == Some((|digits|, NumberOf(digits)))
  {
    hide NumberOf;
    SmallNumber(digits);
    assert (digits + more)[..|digits|] == digits;
  }

  lemma NoWordInFront(s: Scan, identifier: char, digits: nat, rest: string)
    requires identifier in STANDARD_FIELDS && Follows(identifier, rest)
    ensures !IsPartOfWord(s, "", identifier, digits, rest)
    ensures identifier != 'b' ==> !StartsWithDigit(rest) && !StartsWithBlank(rest)
  {
  }

  /** At the front of the buffer a field of its usual width is read and cut; a pressure is its first five digits. */
  lemma FieldAtFront(identifier: char, digits: string, rest: string, seen: set<char>, w: Weather)
    requires identifier in STANDARD_FIELDS && identifier !in seen
    requires AllDigits(digits) && |digits| == StandardWidth(identifier) && Follows(identifier, rest)
    ensures Run(AtFront(FieldText(identifier, digits, rest), seen, w))
            == Run(AtFront(rest, seen + {identifier}, Record(w, seen, identifier, NumberOf(digits))))
  {
    hide Run, Record, NumberOf, NumberTaken, IsPartOfWord, Follows, AllDigits;
    var s := AtFront(FieldText(identifier, digits, rest), seen, w);
    var more, behind := "", rest;
    NoWordInFront(s, identifier, |digits|, rest);
    assert AllDigits("") by { NoDigits(); }
    if identifier == 'b' {
      more, behind := MoreDigits(rest);
      NoWordInFront(s, 'b', |digits + more|, behind) by { AfterPressure(behind); }
    }
    UsualNumber(identifier, digits, more, behind);
    assert digits + rest == digits + more + behind;
    assert (digits + more + behind)[|digits|..] == rest;
    assert s.remaining == "" + ([identifier] + (digits + more) + behind);
    FieldIsRead(s, "", identifier, digits + more, behind);
    assert "" + rest == rest;
  }

  lemma NoDigits()
    ensures AllDigits("")
  {
  }

  lemma AfterPressure(rest: string)
    ensures Follows('b', rest)
  {
  }

  /** A negative temperature: the sign and two digits. */
  lemma ColdAtFront(digits: string, rest: string, seen: set<char>, w: Weather)
    requires 't' !in seen && AllDigits(digits) && |digits| == 2 && Follows('t', rest)
    ensures Run(AtFront(FieldText('t', "-" + digits, rest), seen, w))
            == Run(AtFront(rest, seen + {'t'}, Record(w, seen, 't', -(NumberOf(digits) as int))))
  {
    hide Run, Record, NumberOf, Classify;
    var s := AtFront(FieldText('t', "-" + digits, rest), seen, w);
    assert s.remaining == "" + (['t', '-'] + digits + rest) == "" + (['t'] + ("-" + digits) + rest);
    NegativeExactly(s, "", 't', digits, rest);
    assert digits[..2] == digits;
    FieldIsCut(s, "", 't', "-" + digits, -(NumberOf(digits) as int), rest);
    assert "" + rest == rest;
  }

  lemma StandardNumber(n: nat, width: nat)
    requires (width == 2 && n <= 99) || (width == 3 && n <= 999) || (width == 5 && n <= 99_999)
    ensures AllDigits(Digits(n, width)) && NumberOf(Digits(n, width)) == n
  {
    assert Pow10(2) == 100 && Pow10(3) == 1000 && Pow10(5) == 100_000;
    NumberOfDigits(n, width);
  }

  lemma HumidityDigits(h: nat)
    requires 1 <= h <= 100
    ensures AllDigits(Digits(h, 2)) && NumberOf(Digits(h, 2)) == h % 100
  {
    hide Digits, NumberOf, AllDigits;
    if h < 100 {
      StandardNumber(h, 2);
    } else {
      HundredIsZero();
      StandardNumber(0, 2);
    }
  }

  lemma HundredIsZero()
    ensures Digits(100, 2) == Digits(0, 2)
  {
    assert Digits(10, 1) == Digits(1, 0) + [DigitChar(0)];
    assert Digits(0, 1) == Digits(0, 0) + [DigitChar(0)];
  }

  /** A field of three digits at the front. */
  lemma ReadAtFront(identifier: char, n: nat, rest: string, seen: set<char>, w: Weather)
    requires identifier in STANDARD_FIELDS - {'h', 'b'} && identifier !in seen && n <= 999
    requires Follows(identifier, rest)
    ensures Run(AtFront(FieldText(identifier, Digits(n, 3), rest), seen, w))
            == Run(AtFront(rest, seen + {identifier}, Record(w, seen, identifier, n)))
  {
    hide Run, Record, Digits, FieldText;
    StandardNumber(n, 3);
    FieldAtFront(identifier, Digits(n, 3), rest, seen, w);
  }

  lemma TemperatureAtFront(t: int, rest: string, seen: set<char>, w: Weather)
    requires 't' !in seen && -99 <= t <= 999 && Follows('t', rest)
    ensures Run(AtFront(FieldText('t', TemperatureText(t), rest), seen, w))
            == Run(AtFront(rest, seen + {'t'}, Record(w, seen, 't', t)))
  {
    hide Run, Record, Digits, FieldText;
    if t < 0 {
      StandardNumber(-t, 2);
      ColdAtFront(Digits(-t, 2), rest, seen, w);
    } else {
      ReadAtFront('t', t, rest, seen, w);
    }
  }

  /** The last two fields, humidity with 100 as 00. */
  lemma LastFieldsAreRead(r: Readings, comment: string, seen: set<char>, w: Weather)
    requires AreReadings(r)
    requires 'h' !in seen && 'b' !in seen && w.humidity == None && w.pressure == None
    ensures Run(AtFront(FieldText('h', Digits(r.humidity, 2), FieldText('b', Digits(r.pressure, 5), comment)), seen, w))
            == Run(AtFront(comment, seen + {'h'} + {'b'},
                           w.(humidity := Some(r.humidity), pressure := Some(r.pressure))))
  {
    hide Run, Digits, NumberOf, AllDigits;
    HumidityDigits(r.humidity);
    FieldAtFront('h', Digits(r.humidity, 2), FieldText('b', Digits(r.pressure, 5), comment), seen, w);
    StandardNumber(r.pressure, 5);
    FieldAtFront('b', Digits(r.pressure, 5), comment, seen + {'h'}, w.(humidity := Some(r.humidity)));
  }

  lemma FollowsField(identifier: char, next: char, field: string, rest: string)
    requires next in STANDARD_FIELDS && next != 'g'
    ensures Follows(identifier, FieldText(next, field, rest))
  {
  }

  /** The fields of a standard report are read first, each for what it says, whatever comment follows. */
  lemma FieldsAreRead(r: Readings, comment: string, w: Weather)
    requires AreReadings(r)
    requires w == NO_WEATHER.(windDirection := Some(r.direction), windSpeed := Some(r.speed))
    ensures Run(AtFront(FieldsText(r, comment), {}, w)) == Run(AtFront(comment, STANDARD_FIELDS, WeatherRead(r)))
  {
    hide Run, Digits, TemperatureText, FieldText, Follows, AtFront;
    var c5 := FieldText('h', Digits(r.humidity, 2), FieldText('b', Digits(r.pressure, 5), comment));
    var c4 := FieldText('P', Digits(r.rainSinceMidnight, 3), c5);
    var c3 := FieldText('p', Digits(r.rain24h, 3), c4);
    var c2 := FieldText('r', Digits(r.rain1h, 3), c3);
    var c1 := FieldText('t', TemperatureText(r.temperature), c2);
    var w1 := w.(windGust := Some(r.gust));
    var w2 := w1.(temperature := Some(r.temperature));
    var w3 := w2.(rain1h := Some(r.rain1h));
    var w4 := w3.(rain24h := Some(r.rain24h));
    var w5 := w4.(rainSinceMidnight := Some(r.rainSinceMidnight));
    FollowsField('P', 'h', Digits(r.humidity, 2), FieldText('b', Digits(r.pressure, 5), comment));
    FollowsField('p', 'P', Digits(r.rainSinceMidnight, 3), c5);
    FollowsField('r', 'p', Digits(r.rain24h, 3), c4);
    FollowsField('t', 'r', Digits(r.rain1h, 3), c3);
    FollowsField('g', 't', TemperatureText(r.temperature), c2);
    ReadAtFront('g', r.gust, c1, {}, w);
    TemperatureAtFront(r.temperature, c2, {} + {'g'}, w1);
    ReadAtFront('r', r.rain1h, c3, {} + {'g'} + {'t'}, w2);
    ReadAtFront('p', r.rain24h, c4, {} + {'g'} + {'t'} + {'r'}, w3);
    ReadAtFront('P', r.rainSinceMidnight, c5, {} + {'g'} + {'t'} + {'r'} + {'p'}, w4);
    LastFieldsAreRead(r, comment, {} + {'g'} + {'t'} + {'r'} + {'p'} + {'P'}, w5);
    assert {} + {'g'} + {'t'} + {'r'} + {'p'} + {'P'} + {'h'} + {'b'} == STANDARD_FIELDS;
  }

  lemma WeatherNumberOfDigits(n: nat)
    requires n <= 999
    ensures WeatherNumber(Digits(n, 3)) == Some(n)
    ensures IsDigitChar(Digits(n, 3)[0])
  {
    hide NumberOf, Digits, Trim;
    var d := Digits(n, 3);
    StandardNumber(n, 3);
    TrimDigits(d);
    assert d[0] in d && IsDigitChar(d[0]);
  }

  lemma WindIsRead(r: Readings, comment: string)
    requires AreReadings(r)
    ensures Start(ReportText(r, comment)) ==
            AtFront(FieldsText(r, comment), {}, NO_WEATHER.(windDirection := Some(r.direction), windSpeed := Some(r.speed)))
  {
    hide WeatherNumber, Digits, FieldsText;
    var d, v := Digits(r.direction, 3), Digits(r.speed, 3);
    var report := ReportText(r, comment);
    assert report[..3] == d && report[3] == '/' && report[4..7] == v && report[7..] == FieldsText(r, comment);
    WeatherNumberOfDigits(r.direction);
    WeatherNumberOfDigits(r.speed);
    assert report[0] == d[0];
  }

  /** A weather record with the readings of a report, whatever else is in it. */
  predicate Shows(w: Weather, r: Readings) {
    && w.windDirection == Some(r.direction) && w.windSpeed == Some(r.speed) && w.windGust == Some(r.gust)
    && w.temperature == Some(r.temperature) && w.rain1h == Some(r.rain1h) && w.rain24h == Some(r.rain24h)
    && w.rainSinceMidnight == Some(r.rainSinceMidnight) && w.humidity == Some(r.humidity)
    && w.pressure == Some(r.pressure)
  }

  /** What is known is not read again. */
  lemma KnownReadingsStay(final: Weather, pieces: seq<Piece>, r: Readings, afterDirection: bool)
    requires IsReadFrom(final, WeatherRead(r), pieces, afterDirection)
    ensures final.humidity == Some(r.humidity) && Shows(final, r)
  {
    hide NumberFor, NumberOfS, LuminosityFor, HumidityFor;
  }

  /** The scan of the comment behind a report. */
  function CommentScan(r: Readings, comment: string): Scan {
    AtFront(comment, STANDARD_FIELDS, WeatherRead(r))
  }

  /** The report without a position in front of it: its wind prefix has letters. */
  function PositionlessText(r: Readings, comment: string): string
    requires AreReadings(r)
  {
    "c" + Digits(r.direction, 3) + "s" + Digits(r.speed, 3) + FieldsText(r, comment)
  }

  lemma LetteredWindIsRead(r: Readings, comment: string)
    requires AreReadings(r)
    ensures Start(PositionlessText(r, comment)) ==
            AtFront(FieldsText(r, comment), {}, NO_WEATHER.(windDirection := Some(r.direction), windSpeed := Some(r.speed)))
  {
    hide WeatherNumber, Digits, FieldsText;
    var d, v := Digits(r.direction, 3), Digits(r.speed, 3);
    var report := PositionlessText(r, comment);
    assert report[0] == 'c' && report[1..4] == d && report[4] == 's' && report[5..8] == v && report[8..] == FieldsText(r, comment);
    WeatherNumberOfDigits(r.direction);
    WeatherNumberOfDigits(r.speed);
    assert report[3] == d[2] && IsDigitChar(d[2]);
  }

  lemma ReportIsRead(r: Readings, comment: string)
    requires AreReadings(r)
    ensures Run(Start(ReportText(r, comment))) == Run(CommentScan(r, comment))
    ensures Run(Start(PositionlessText(r, comment))) == Run(CommentScan(r, comment))
  {
    hide Start, FieldsText, ReportText, PositionlessText, Run;
    WindIsRead(r, comment);
    LetteredWindIsRead(r, comment);
    FieldsAreRead(r, comment, NO_WEATHER.(windDirection := Some(r.direction), windSpeed := Some(r.speed)));
  }

  /** The scan of the comment alone: what it keeps, and what it cannot change. */
  lemma CommentIsScanned(r: Readings, comment: string)
    ensures var s := CommentScan(r, comment);
            var end := Run(s);
            && ArePieces(Lost(s, |comment|), 0, |comment|)
            && Reinsert(end.remaining, end.preserved) == Delete(comment, Lost(s, |comment|), 0)
            && Shows(end.weather, r)
  {
    hide Run, Lost, IsReadFrom, Reinsert, Delete, ArePieces, Kept, IsSuffix, Place, IsScan, Shows, WeatherRead;
    var s := CommentScan(r, comment);
    FrontKeepsNothing(comment, WeatherRead(r));
    RunConserves(s, comment);
    RunReads(s, |comment|);
    KnownReadingsStay(Run(s).weather, Lost(s, |comment|), r, false);
  }

  lemma FrontKeepsNothing(comment: string, w: Weather)
    ensures var s := AtFront(comment, STANDARD_FIELDS, w);
            IsScan(s) && IsSuffix(s, comment) && Kept(s) == "" && Place(s, |comment|) == 0
            && s.weather == w && 'c' !in s.seen
  {
  }

  /**
   * A standard report, with or without a position in front, reads as its nine measurements under every
   * comment; what the comment becomes is the comment without the pieces the scanner cuts from it.
   */
  lemma StandardReport(r: Readings, comment: string)
    requires AreReadings(r)
    ensures WeatherOf(PositionlessText(r, comment)) == WeatherOf(ReportText(r, comment))
    ensures Shows(WeatherOf(ReportText(r, comment)).0, r)
    ensures var s := CommentScan(r, comment);
            && ArePieces(Lost(s, |comment|), 0, |comment|)
            && WeatherOf(ReportText(r, comment))
               == FinishText(Delete(comment, Lost(s, |comment|), 0), Run(s).separatorCapacity, Run(s).weather)
  {
    hide Start, FieldsText, ReportText, PositionlessText, Run, Reinsert, Lost, AreReadings, Delete, LeadingBlanks,
      CollapseFirst, Trim;
    ReportIsRead(r, comment);
    CommentIsScanned(r, comment);
  }

  // ---- More fields behind a standard report ----------------------------------------------

  /** A field or token of its own: the characters that start it, and what it adds to a scan. */
  function StartsOf(x: char): set<char> {
    if x == 'L' || x == 'l' then {'L', 'l'} else {x}
  }

  function WithMeasure(w: Weather, x: char, n: int): Weather {
    match x
    case 'L' => w.(luminosity := Some(n))
    case 'l' => w.(luminosity := Some(n + 1000))
    case 's' => w.(snow24h := Some(n))
    case 'F' => w.(waterLevel := Some(n))
    case 'X' => w.(radiation := Some(n))
    case 'V' => w.(batteryVoltage := Some(n))
    case _ => w
  }

  const EXTRA_FIELDS := {'L', 'l', 's', 'F', 'X', 'V'}

  function WithExtra(s: Scan, x: char, n: int): Scan {
    if x == 'v' then s.(voltage := true)
    else if x == '#' then s.(rainCounter := true)
    else s.(seen := s.seen + StartsOf(x), weather := WithMeasure(s.weather, x, n))
  }

  /** The rest of the scan has nothing that starts the same field. */
  predicate IsFreeOf(s: Scan, x: char) {
    forall k :: s.cursor <= k < |s.remaining| ==> s.remaining[k] !in StartsOf(x)
  }

  lemma SameDecision(s: Scan, x: char, n: int)
    requires IsScan(s) && s.cursor < |s.remaining| && s.seen != {} && x in EXTRA_FIELDS + {'v', '#'}
    requires s.remaining[s.cursor] !in StartsOf(x)
    ensures Classify(WithExtra(s, x, n)) == Classify(s)
  {
    hide TelemetryEnd, ClassifyField, ClassifyLegacy, WithMeasure;
    var t, candidate := WithExtra(s, x, n), s.remaining[s.cursor..];
    assert candidate[0] == s.remaining[s.cursor];
    SameToken(s, candidate, x, n);
    if FieldWidth(candidate[0]).Some? { SameField(s, t, candidate); }
  }

  lemma SameToken(s: Scan, candidate: string, x: char, n: int)
    requires candidate != "" && candidate[0] !in StartsOf(x)
    ensures ClassifyLegacy(WithExtra(s, x, n), candidate) == ClassifyLegacy(s, candidate)
  {
    hide LeadingDigits, LeadingBlanks, WithMeasure;
  }

  lemma SameField(s: Scan, t: Scan, candidate: string)
    requires t == s.(seen := t.seen, weather := t.weather, voltage := t.voltage, rainCounter := t.rainCounter)
    requires s.seen != {} && t.seen != {} && candidate != "" && FieldWidth(candidate[0]).Some?
    ensures ClassifyField(t, candidate) == ClassifyField(s, candidate)
  {
    hide ClassifyValue, LeadingDigits, LeadingFieldChars, LeadingBlanks;
  }

  lemma SameEffect(s: Scan, a: Action, x: char, n: int)
    requires IsScan(s) && s.cursor < |s.remaining| && Advances(a, s.cursor, |s.remaining| - s.cursor)
    requires x in EXTRA_FIELDS + {'v', '#'} && s.remaining[s.cursor] !in StartsOf(x)
    requires a.Cut? && a.kind.Field? ==> a.kind.identifier == s.remaining[s.cursor]
    ensures Apply(WithExtra(s, x, n), a) == WithExtra(Apply(s, a), x, n)
  {
    hide Record, WithMeasure, StartsOf, Used, Apply;
    if a.Cut? && a.kind.Field? {
      SameFieldEffect(s, a, x, n);
    } else {
      SameOtherEffect(s, a, x, n);
    }
  }

  lemma SameOtherEffect(s: Scan, a: Action, x: char, n: int)
    requires s.cursor < |s.remaining| && Advances(a, s.cursor, |s.remaining| - s.cursor)
    requires !(a.Cut? && a.kind.Field?)
    ensures Apply(WithExtra(s, x, n), a) == WithExtra(Apply(s, a), x, n)
  {
    hide WithMeasure, StartsOf, Apply;
    AppliedToOthers(s, WithExtra(s, x, n), a);
    AppliedToOthers(s, s, a);
  }

  /** What is not a field changes neither measurements nor used letters, and depends on neither. */
  lemma AppliedToOthers(s: Scan, t: Scan, a: Action)
    requires s.cursor < |s.remaining| && Advances(a, s.cursor, |s.remaining| - s.cursor)
    requires !(a.Cut? && a.kind.Field?)
    requires t == s.(seen := t.seen, weather := t.weather, voltage := t.voltage, rainCounter := t.rainCounter)
    ensures Apply(t, a) ==
            Apply(s, a).(seen := t.seen, weather := t.weather, voltage := t.voltage || (a.Cut? && a.kind.Voltage?),
                         rainCounter := t.rainCounter || (a.Cut? && a.kind.RainCounter?))
  {
    if a.Cut? && a.kind.Placeholder? && s.cursor != 0 { assert Apply(t, a).preserved == Apply(s, a).preserved; }
  }

  lemma SameFieldEffect(s: Scan, a: Action, x: char, n: int)
    requires s.cursor < |s.remaining| && Advances(a, s.cursor, |s.remaining| - s.cursor)
    requires a.Cut? && a.kind.Field? && x in EXTRA_FIELDS + {'v', '#'} && a.kind.identifier !in StartsOf(x)
    ensures Apply(WithExtra(s, x, n), a) == WithExtra(Apply(s, a), x, n)
  {
    hide Record, WithMeasure, StartsOf, Used;
    if x in EXTRA_FIELDS {
      SameRecord(s.weather, s.seen, a.kind.identifier, a.kind.value, x, n);
      assert s.seen + StartsOf(x) + Used(a.kind.identifier) == s.seen + Used(a.kind.identifier) + StartsOf(x);
    }
  }

  lemma SameRecord(w: Weather, seen: set<char>, id: char, v: int, x: char, n: int)
    requires x in EXTRA_FIELDS && id !in StartsOf(x)
    ensures Record(WithMeasure(w, x, n), seen + StartsOf(x), id, v) == WithMeasure(Record(w, seen, id, v), x, n)
  {
  }

  lemma FreeLater(s: Scan, x: char, a: Action)
    requires IsScan(s) && s.cursor < |s.remaining| && Advances(a, s.cursor, |s.remaining| - s.cursor) && IsFreeOf(s, x)
    ensures IsFreeOf(Apply(s, a), x)
  {
    hide Record, StartsOf;
    var r := Apply(s, a);
    if a.Cut? {
      forall k | r.cursor <= k < |r.remaining| ensures r.remaining[k] !in StartsOf(x) {
        assert r.remaining[k] == s.remaining[k + a.width];
      }
    }
  }

  lemma SeenGrows(s: Scan, a: Action)
    requires s.cursor < |s.remaining| && Advances(a, s.cursor, |s.remaining| - s.cursor) && s.seen != {}
    ensures Apply(s, a).seen != {}
  {
    hide Record;
    var c :| c in s.seen;
    assert c in Apply(s, a).seen;
  }

  /** A scan with one field more goes on alike when nothing else could have been that field. */
  lemma {:induction false} RunsAlike(s: Scan, x: char, n: int)
    requires IsScan(s) && s.seen != {} && x in EXTRA_FIELDS + {'v', '#'} && IsFreeOf(s, x)
    ensures Run(WithExtra(s, x, n)) == WithExtra(Run(s), x, n)
    decreases |s.remaining| - s.cursor
  {
    hide Classify, Apply, Record, StartsOf, WithMeasure;
    RunStep(s);
    RunStep(WithExtra(s, x, n));
    if s.cursor < |s.remaining| {
      var a := Classify(s);
      SameDecision(s, x, n);
      FieldKinds(s);
      SameEffect(s, a, x, n);
      FreeLater(s, x, a);
      SeenGrows(s, a);
      RunsAlike(Apply(s, a), x, n);
    }
  }

  function ExtraWidth(x: char): nat { if x == 'F' then 4 else 3 }

  predicate IsFreeText(rest: string, x: char) {
    forall k :: 0 <= k < |rest| ==> rest[k] !in StartsOf(x)
  }

  lemma ExtraNumber(x: char, n: nat)
    requires x in EXTRA_FIELDS && n < Pow10(ExtraWidth(x))
    ensures var d := Digits(n, ExtraWidth(x)); AllDigits(d) && NumberOf(d) == n
  {
    NumberOfDigits(n, ExtraWidth(x));
  }

  lemma ExtraAtFront(r: Readings, x: char, digits: string, rest: string)
    requires x in EXTRA_FIELDS && AllDigits(digits) && |digits| == ExtraWidth(x) && !StartsWithDigit(rest)
    ensures Run(CommentScan(r, [x] + digits + rest)) == Run(WithExtra(CommentScan(r, rest), x, NumberOf(digits)))
  {
    hide Run, NumberOf, NumberTaken, IsPartOfWord, AllDigits, WeatherRead, Record, WithMeasure;
    var s := CommentScan(r, [x] + digits + rest);
    assert s.remaining == "" + ([x] + digits + rest);
    ExtraTaken(s, x, digits, rest);
    FieldIsRead(s, "", x, digits, rest);
    assert (digits + rest)[|digits|..] == rest && "" + rest == rest;
    ExtraIsRecorded(r, x, NumberOf(digits));
    assert AfterField(s, "", x, NumberOf(digits), rest) == WithExtra(CommentScan(r, rest), x, NumberOf(digits));
  }

  lemma ExtraIsRecorded(r: Readings, x: char, n: int)
    requires x in EXTRA_FIELDS
    ensures Record(WeatherRead(r), STANDARD_FIELDS, x, n) == WithMeasure(WeatherRead(r), x, n)
  {
  }

  lemma ExtraTaken(s: Scan, x: char, digits: string, rest: string)
    requires x in EXTRA_FIELDS && AllDigits(digits) && |digits| == ExtraWidth(x) && 'g' in s.seen && s.sequenceCursor == Some(0)
    ensures NumberTaken(x, digits, rest) == Some((|digits|, NumberOf(digits)))
    ensures !IsPartOfWord(s, "", x, |digits|, rest)
  {
    hide NumberOf;
    SmallNumber(digits);
    assert digits[..|digits|] == digits;
  }

  /** Finishing does not look at the measurements. */
  lemma SameFinish(s: Scan, x: char, n: int)
    requires IsScan(s) && s.cursor == |s.remaining|
    ensures Finish(WithExtra(s, x, n)) ==
            (if x in {'v', '#'} then Finish(s).0 else WithMeasure(Finish(s).0, x, n), Finish(s).1)
  {
    hide Reinsert, LeadingBlanks, CollapseFirst, Trim, IsSoftware;
  }

  lemma ExtraIsRead(r: Readings, front: string, x: char, n: int, rest: string)
    requires AreReadings(r) && x in EXTRA_FIELDS + {'v', '#'} && IsFreeText(rest, x)
    requires Run(CommentScan(r, front + rest)) == Run(WithExtra(CommentScan(r, rest), x, n))
    ensures var alone := WeatherOf(ReportText(r, rest));
            WeatherOf(ReportText(r, front + rest)) ==
            (if x in {'v', '#'} then alone.0 else WithMeasure(alone.0, x, n), alone.1)
  {
    hide Run, Start, ReportText, PositionlessText, FieldsText, Finish, WithExtra, StartsOf, AreReadings, WeatherRead;
    ReportIsRead(r, front + rest);
    ReportIsRead(r, rest);
    var s := CommentScan(r, rest);
    assert 'g' in s.seen;
    RunsAlike(s, x, n);
    SameFinish(Run(s), x, n);
  }

  /**
   * Luminosity, snow, water level, radiation and voltage behind a standard report are read whole, and the rest
   * is what it is without them, unless it holds the same letter once more.
   */
  lemma ExtraFieldIsRead(r: Readings, x: char, n: nat, rest: string)
    requires AreReadings(r) && x in EXTRA_FIELDS && n < Pow10(ExtraWidth(x))
    requires !StartsWithDigit(rest) && IsFreeText(rest, x)
    ensures var alone := WeatherOf(ReportText(r, rest));
            WeatherOf(ReportText(r, [x] + Digits(n, ExtraWidth(x)) + rest)) == (WithMeasure(alone.0, x, n), alone.1)
  {
    hide Run, WeatherOf, ReportText, Digits, NumberOf, IsFreeText, AreReadings, CommentScan;
    ExtraNumber(x, n);
    ExtraAtFront(r, x, Digits(n, ExtraWidth(x)), rest);
    ExtraIsRead(r, [x] + Digits(n, ExtraWidth(x)), x, n, rest);
  }

  /** An old voltage or a raw rain counter behind a standard report disappears, and nothing else does. */
  lemma ExtraTokenIsCut(r: Readings, sign: string, digits: string, rest: string)
    requires AreReadings(r) && |sign| <= 1 && (sign != "" ==> IsSign(sign[0]))
    requires AllDigits(digits) && digits != "" && !StartsWithDigit(rest)
    ensures IsFreeText(rest, 'v') ==> WeatherOf(ReportText(r, "v" + sign + digits + rest)) == WeatherOf(ReportText(r, rest))
    ensures IsFreeText(rest, '#') ==> WeatherOf(ReportText(r, "#" + digits + rest)) == WeatherOf(ReportText(r, rest))
  {
    hide WeatherOf, ReportText, IsFreeText, AreReadings;
    if IsFreeText(rest, 'v') {
      VoltageAtFront(r, sign, digits, rest);
      ExtraIsRead(r, "v" + sign + digits, 'v', 0, rest);
    }
    if IsFreeText(rest, '#') {
      CounterAtFront(r, digits, rest);
      ExtraIsRead(r, "#" + digits, '#', 0, rest);
    }
  }

  lemma VoltageAtFront(r: Readings, sign: string, digits: string, rest: string)
    requires |sign| <= 1 && (sign != "" ==> IsSign(sign[0])) && AllDigits(digits) && digits != "" && !StartsWithDigit(rest)
    ensures Run(CommentScan(r, "v" + sign + digits + rest)) == Run(WithExtra(CommentScan(r, rest), 'v', 0))
  {
    hide Run, Classify, WeatherRead, WithMeasure, StartsOf, AllDigits, StartsWithDigit, IsSign, AfterToken;
    var s, token := CommentScan(r, "v" + sign + digits + rest), "v" + sign + digits;
    VoltageText(sign, digits, rest);
    VoltageExactly(s, "", sign, digits, rest);
    TokenIsCut(s, "", token, Voltage, rest);
    VoltageUsed(r, token, rest);
  }

  lemma VoltageText(sign: string, digits: string, rest: string)
    ensures var token := "v" + sign + digits; token + rest == "" + (token + rest) == "" + (['v'] + (sign + digits + rest))
  {
  }

  lemma VoltageUsed(r: Readings, token: string, rest: string)
    ensures AfterToken(CommentScan(r, token + rest), "", Voltage, |token|, rest) == WithExtra(CommentScan(r, rest), 'v', 0)
  {
    assert "" + rest == rest;
  }

  lemma {:induction false} MoreBlanks(s: string) returns (blanks: string, rest: string)
    ensures s == blanks + rest && AreBlanks(blanks) && !StartsWithBlank(rest)
  {
    blanks, rest := "", s;
    if StartsWithBlank(s) {
      blanks, rest := MoreBlanks(s[1..]);
      blanks := [s[0]] + blanks;
    }
  }

  lemma CounterAtFront(r: Readings, digits: string, rest: string)
    requires AllDigits(digits) && digits != "" && !StartsWithDigit(rest)
    ensures Run(CommentScan(r, "#" + digits + rest)) == Run(WithExtra(CommentScan(r, rest), '#', 0))
  {
    hide Run, Classify, WeatherRead;
    var s, token := CommentScan(r, "#" + digits + rest), "#" + digits;
    var blanks, behind := MoreBlanks(rest);
    assert s.remaining == "" + (token + rest) && "" + rest == rest;
    assert token + rest == ['#'] + (digits + (blanks + behind));
    assert blanks == "" ==> behind == rest;
    RainCounterExactly(s, "", digits, blanks, behind);
    TokenIsCut(s, "", token, RainCounter, rest);
  }

  /** Letters that could still start something behind a standard report. */
  const LEFT_LETTERS := {'c', 's', 'L', 'l', 'F', 'X', 'V', 'v', '#'}

  predicate HasNoFieldLetters(comment: string) {
    forall x :: x in comment ==> x !in LEFT_LETTERS
  }

  lemma NothingHere(s: Scan)
    requires s.cursor < |s.remaining| && STANDARD_FIELDS <= s.seen && s.remaining[s.cursor] !in LEFT_LETTERS
    ensures Classify(s).Skip?
  {
    hide TelemetryEnd, ClassifyField;
    var candidate := s.remaining[s.cursor..];
    assert candidate[0] == s.remaining[s.cursor];
  }

  lemma {:induction false} NothingIsCut(s: Scan, total: nat)
    requires IsScan(s) && Place(s, total) >= 0 && STANDARD_FIELDS <= s.seen
    requires forall k :: s.cursor <= k < |s.remaining| ==> s.remaining[k] !in LEFT_LETTERS
    ensures Lost(s, total) == [] && Run(s) == s.(cursor := |s.remaining|)
    decreases |s.remaining| - s.cursor
  {
    hide Classify;
    if s.cursor < |s.remaining| {
      NothingHere(s);
      NothingIsCut(Apply(s, Classify(s)), total);
    }
  }

  /** A comment without those letters is left whole, trimmed and its first white space collapsed. */
  lemma PlainCommentIsLeft(r: Readings, comment: string)
    requires AreReadings(r) && HasNoFieldLetters(comment)
    ensures WeatherOf(ReportText(r, comment)) == FinishText(comment, 0, WeatherRead(r))
    ensures WeatherOf(ReportText(r, "")) == (WeatherRead(r), "")
  {
    hide Start, FieldsText, ReportText, PositionlessText, Run, Lost, AreReadings, LeadingBlanks, CollapseFirst, Trim,
      FinishText, WeatherOf;
    OneComment(r, comment);
    OneComment(r, "");
    assert FinishText("", 0, WeatherRead(r)) == (WeatherRead(r), "") by { EmptyComment(WeatherRead(r)); }
  }

  /** Nothing to trim, to close up or to take for a name. */
  predicate IsPlainText(s: string) {
    IsTrimmed(s) && HasNoGap(s) && !IsName(s)
  }

  lemma PlainFinish(s: string, w: Weather)
    requires IsPlainText(s)
    ensures FinishText(s, 0, w) == (w, s)
  {
    hide FinishText, IsTrimmed, HasNoGap, IsName;
    assert s + "" + "" == s && "" + s + "" == s && "" + ("" + s + "") == s;
    FinishExactly("", "", s, "", "", "", 0, w);
  }

  /** Characters that start nothing are passed over one by one. */
  lemma {:induction false} PlainIsPassed(s: Scan, n: nat)
    requires IsScan(s) && STANDARD_FIELDS <= s.seen && s.cursor <= n <= |s.remaining|
    requires forall k :: s.cursor <= k < n ==> s.remaining[k] !in LEFT_LETTERS && s.remaining[k] != '|'
    ensures IsScan(s.(cursor := n)) && Run(s) == Run(s.(cursor := n))
    decreases n - s.cursor
  {
    hide Run, Classify;
    if s.cursor < n {
      var x := s.remaining[s.cursor];
      var front, rest := s.remaining[..s.cursor], s.remaining[s.cursor + 1..];
      assert s.remaining == front + ([x] + rest);
      OthersArePassed(s, front, x, rest);
      RunStep(s);
      PlainIsPassed(s.(cursor := s.cursor + 1), n);
    } else {
      assert s.(cursor := n) == s;
    }
  }

  lemma TelemetryIsScanned(r: Readings, before: string, payload: string, after: string)
    requires HasNoFieldLetters(before) && HasNoFieldLetters(after) && '|' !in before && IsPayload(payload)
    ensures var s := CommentScan(r, before + "|" + payload + "|" + after); Run(s) == s.(cursor := |s.remaining|)
  {
    hide Run, WeatherRead, IsPayload, HasNoFieldLetters;
    var tail := "|" + payload + "|" + after;
    var s := CommentScan(r, before + "|" + payload + "|" + after);
    assert s.remaining == before + tail;
    FrontIsPassed(s, before, tail);
    TailIsScanned(s.(cursor := |before|), before, payload, after);
  }

  lemma FrontIsPassed(s: Scan, before: string, tail: string)
    requires StandsAt(s, "", before + tail) && STANDARD_FIELDS <= s.seen && s.preserved == []
    requires HasNoFieldLetters(before) && '|' !in before
    ensures Run(s) == Run(s.(cursor := |before|)) && StandsAt(s.(cursor := |before|), before, tail)
  {
    hide Run;
    assert s.remaining == before + tail;
    assert forall k :: 0 <= k < |before| ==> s.remaining[k] == before[k] && before[k] in before;
    PlainIsPassed(s, |before|);
  }

  lemma TailIsScanned(s: Scan, before: string, payload: string, after: string)
    requires StandsAt(s, before, "|" + payload + "|" + after) && STANDARD_FIELDS <= s.seen && s.preserved == []
    requires HasNoFieldLetters(after) && IsPayload(payload)
    ensures Run(s) == s.(cursor := |s.remaining|)
  {
    hide Run, Classify, IsPayload, Lost;
    var tail, m := "|" + payload + "|" + after, |before| + |payload| + 2;
    TelemetryIsPassed(s, before, payload, after);
    TailIsPassed(s, before, tail, |payload| + 2);
    assert tail[|payload| + 2..] == after;
    assert forall k :: m <= k < |s.remaining| ==> s.remaining[k] == after[k - m] && after[k - m] in after;
    NothingIsCut(s.(cursor := m), |s.remaining|);
  }

  /** Telemetry between pipes stays in the comment of a standard report, whatever letters it holds. */
  lemma TelemetryIsLeft(r: Readings, before: string, payload: string, after: string)
    requires AreReadings(r) && HasNoFieldLetters(before) && HasNoFieldLetters(after) && '|' !in before && IsPayload(payload)
    requires IsPlainText(before + "|" + payload + "|" + after)
    ensures var text := before + "|" + payload + "|" + after; WeatherOf(ReportText(r, text)) == (WeatherRead(r), text)
  {
    hide Run, Start, ReportText, PositionlessText, FieldsText, WeatherRead, FinishText, IsPlainText, IsPayload, AreReadings;
    var text := before + "|" + payload + "|" + after;
    ReportIsRead(r, text);
    TelemetryIsScanned(r, before, payload, after);
    PlainFinish(text, WeatherRead(r));
  }

  lemma OneComment(r: Readings, comment: string)
    requires AreReadings(r) && HasNoFieldLetters(comment)
    ensures WeatherOf(ReportText(r, comment)) == FinishText(comment, 0, WeatherRead(r))
  {
    hide Start, FieldsText, ReportText, PositionlessText, Run, Lost, AreReadings, FinishText, WeatherOf;
    StandardReport(r, comment);
    var s := CommentScan(r, comment);
    assert forall k :: 0 <= k < |comment| ==> comment[k] in comment;
    NothingIsCut(s, |comment|);
    assert comment[0..] == comment;
  }

  lemma EmptyComment(w: Weather)
    ensures FinishText("", 0, w) == (w, "")
  {
  }

  /** The wind in front of any weather text is read, and nothing behind it changes that. */
  lemma WindPrefixIsRead(direction: nat, speed: nat, rest: string)
    requires direction <= 999 && speed <= 999
    ensures var w := WeatherOf(Digits(direction, 3) + "/" + Digits(speed, 3) + rest).0;
            w.windDirection == Some(direction) && w.windSpeed == Some(speed)
  {
    hide Start, Run, IsRainReadFrom, IsRestReadFrom, Lost, Reinsert, LeadingBlanks, CollapseFirst, Trim, Digits,
      NumberFor, NumberOfS;
    var data := Digits(direction, 3) + "/" + Digits(speed, 3) + rest;
    PrefixIsRead(direction, speed, rest);
    var start := Start(data);
    RunReads(start, |start.remaining|);
  }

  lemma PrefixIsRead(direction: nat, speed: nat, rest: string)
    requires direction <= 999 && speed <= 999
    ensures var w := Start(Digits(direction, 3) + "/" + Digits(speed, 3) + rest).weather;
            w.windDirection == Some(direction) && w.windSpeed == Some(speed)
  {
    hide WeatherNumber, Digits;
    var d, v := Digits(direction, 3), Digits(speed, 3);
    var report := d + "/" + v + rest;
    assert report[..3] == d && report[3] == '/' && report[4..7] == v;
    WeatherNumberOfDigits(direction);
    WeatherNumberOfDigits(speed);
    assert report[0] == d[0];
  }
}
