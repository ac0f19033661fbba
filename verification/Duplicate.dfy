/** The key used for APRS duplicate detection (`aprs_duplicate_parts` in src/frame.rs). */
module Duplicate {
  import opened Text
  import opened Utf8

  const COLON: byte := ':' as int
  const COMMA: byte := ',' as int
  const DASH: byte := '-' as int
  const GREATER: byte := '>' as int
  const BRACE: byte := '}' as int
  const ZERO: byte := '0' as int

  /** Source with SSID, destination base call, and payload. */
  datatype Key = Key(source: seq<byte>, destination: seq<byte>, payload: seq<byte>)

  // ---- The algorithm ---------------------------------------------------------------------

  predicate IsWhitespace(b: byte) {
    b == ' ' as int || b == 9 || b == 10 || b == 12 || b == 13
  }

  function TrimEnd(s: seq<byte>): seq<byte> {
    if s != [] && IsWhitespace(s[|s| - 1]) then TrimEnd(s[..|s| - 1]) else s
  }

  function UpperByte(b: byte): byte {
    if IsLower(b) then b - 32 else b
  }

  function Upper(s: seq<byte>): (r: seq<byte>)
    ensures |r| == |s| && forall k :: 0 <= k < |s| ==> r[k] == UpperByte(s[k])
  {
    seq(|s|, k requires 0 <= k < |s| => UpperByte(s[k]))
  }

  predicate IsCallBase(s: seq<byte>) {
    1 <= |s| <= 6 && forall b :: b in s ==> IsAlphanumeric(b)
  }

  /** A call of the source field: an alphanumeric base and suffix. */
  predicate IsSource(call: seq<byte>) {
    match SplitOnce(call, DASH)
    case None => IsCallBase(call)
    case Some((base, suffix)) =>
      IsCallBase(base) && 1 <= |suffix| <= 2 && forall b :: b in suffix ==> IsAlphanumeric(b)
  }

  /** A call of the destination field: the suffix must be numeric. */
  predicate IsDestination(call: seq<byte>) {
    match SplitOnce(call, DASH)
    case None => IsCallBase(call)
    case Some((base, suffix)) =>
      IsCallBase(base) && 1 <= |suffix| <= 2 && forall b :: b in suffix ==> IsDigit(b)
  }

  /** The text before the first `x`, or all of it. */
  function Before(s: seq<byte>, x: byte): seq<byte> {
    s[..IndexOf(s, x)]
  }

  /** The packet inside every third-party wrapper. */
  function Innermost(packet: seq<byte>): (r: Option<(seq<byte>, seq<byte>)>)
    decreases |packet|
  {
    match SplitOnce(packet, COLON)
    case None => None
    case Some((header, body)) =>
      if body != [] && body[0] == BRACE && header != [] then Innermost(body[1..])
      else Some((header, body))
  }

  function SourceKey(source: seq<byte>): seq<byte> {
    if DASH in source then Upper(source) else Upper(source) + [DASH, ZERO]
  }

  function DestinationKey(destination: seq<byte>): seq<byte> {
    Upper(Before(destination, DASH))
  }

  function KeyOf(header: seq<byte>, body: seq<byte>): Option<Key> {
    if !IsUtf8(header) then None
    else
      match SplitOnce(header, GREATER)
      case None => None
      case Some((source, route)) =>
        var destination := Before(route, COMMA);
        if COMMA in route && route[|route| - 1] == COMMA then None
        else if !IsSource(source) || !IsDestination(destination) then None
        else Some(Key(SourceKey(source), DestinationKey(destination), TrimEnd(body)))
  }

  function DuplicateKey(packet: seq<byte>): Option<Key> {
    match Innermost(packet)
    case None => None
    case Some((header, body)) => KeyOf(header, body)
  }

  method AprsDuplicateParts(packet: seq<byte>) returns (r: Option<Key>)
    ensures r == DuplicateKey(packet)
  {
    hide KeyOf;
    var current := packet;
    while true
      invariant Innermost(current) == Innermost(packet)
      decreases |current|
    {
      var split := SplitOnce(current, COLON);
      if split == None {
        return None;
      }
      var (header, body) := split.value;
      if body != [] && body[0] == BRACE && header != [] {
        current := body[1..];
      } else {
        break;
      }
    }
    var (header, body) := SplitOnce(current, COLON).value;
    r := KeyLoop(header, body);
  }

  method KeyLoop(header: seq<byte>, body: seq<byte>) returns (r: Option<Key>)
    ensures r == KeyOf(header, body)
  {
    hide IsUtf8, SourceKey, DestinationKey, IsSource, IsDestination, TrimEnd, Before;
    if !IsUtf8(header) {
      return None;
    }
    var fields := SplitOnce(header, GREATER);
    if fields == None {
      return None;
    }
    var (source, route) := fields.value;
    var destination := Before(route, COMMA);
    if COMMA in route && route[|route| - 1] == COMMA {
      return None;
    }
    if !IsSource(source) || !IsDestination(destination) {
      return None;
    }
    var payload := TrimLoop(body);
    return Some(Key(SourceKey(source), DestinationKey(destination), payload));
  }

  method TrimLoop(body: seq<byte>) returns (payload: seq<byte>)
    ensures payload == TrimEnd(body)
  {
    var end := |body|;
    assert body[..end] == body;
    while end > 0 && IsWhitespace(body[end - 1])
      invariant 0 <= end <= |body|
      invariant TrimEnd(body[..end]) == TrimEnd(body)
    {
      assert body[..end][..end - 1] == body[..end - 1];
      end := end - 1;
    }
    return body[..end];
  }

  // ---- What the key is -------------------------------------------------------------------

  /** A TNC2 packet that is not a third-party wrapper, by its parts. */
  datatype Report = Report(source: seq<byte>, destination: seq<byte>, path: seq<byte>, payload: seq<byte>)

  /** A digipeater path: absent, or a comma and text that does not end in a comma. */
  predicate IsPath(path: seq<byte>) {
    && ':' as int !in path && IsUtf8(path)
    && (path != [] ==> path[0] == ',' as int && path[|path| - 1] != ',' as int)
  }

  predicate IsReport(r: Report) {
    && IsSource(r.source) && IsDestination(r.destination) && IsPath(r.path)
    && (r.payload != [] ==> r.payload[0] != '}' as int)
  }

  function HeaderText(r: Report): seq<byte> {
    r.source + ['>' as int] + (r.destination + r.path)
  }

  function ReportText(r: Report): seq<byte> {
    HeaderText(r) + [':' as int] + r.payload
  }

  predicate IsWrapper(header: seq<byte>) {
    header != [] && ':' as int !in header
  }

  /** A packet inside third-party wrappers with the given headers, outermost first. */
  function Wrapped(headers: seq<seq<byte>>, packet: seq<byte>): seq<byte> {
    if headers == [] then packet
    else headers[0] + [':' as int] + (['}' as int] + Wrapped(headers[1..], packet))
  }

  function ReportKey(r: Report): Key {
    Key(SourceKey(r.source), DestinationKey(r.destination), TrimEnd(r.payload))
  }

  lemma CallBytes(call: seq<byte>)
    requires IsSource(call) || IsDestination(call)
    ensures call != []
    ensures forall b :: b in call ==> IsAlphanumeric(b) || b == DASH
  {
  }

  /** Any number of wrappers is invisible. */
  lemma {:induction false} WrappersAreInvisible(headers: seq<seq<byte>>, packet: seq<byte>)
    requires forall h :: h in headers ==> IsWrapper(h)
    ensures DuplicateKey(Wrapped(headers, packet)) == DuplicateKey(packet)
    ensures Innermost(Wrapped(headers, packet)) == Innermost(packet)
  {
    hide KeyOf;
    if headers != [] {
      var inner := Wrapped(headers[1..], packet);
      assert headers[0] in headers;
      SplitOnceAt(headers[0], COLON, [BRACE] + inner);
      assert ([BRACE] + inner)[1..] == inner;
      WrappersAreInvisible(headers[1..], packet);
    }
  }

  lemma RouteParts(destination: seq<byte>, path: seq<byte>)
    requires IsDestination(destination) && IsPath(path)
    ensures var route := destination + path;
            && Before(route, COMMA) == destination
            && !(COMMA in route && route[|route| - 1] == COMMA)
  {
    hide IsDestination, IsUtf8;
    CallBytes(destination);
    var route := destination + path;
    if path == [] {
      assert route == destination;
      assert COMMA !in destination;
    } else {
      assert path == [COMMA] + path[1..];
      SplitOnceAt(destination, COMMA, path[1..]);
      assert route == destination + [COMMA] + path[1..];
      assert route[..IndexOf(route, COMMA)] == destination;
      assert route[|route| - 1] == path[|path| - 1];
    }
  }

  lemma HeaderParts(r: Report)
    requires IsReport(r)
    ensures COLON !in HeaderText(r) && HeaderText(r) != [] && IsUtf8(HeaderText(r))
    ensures SplitOnce(HeaderText(r), GREATER) == Some((r.source, r.destination + r.path))
  {
    hide IsSource, IsDestination, IsUtf8;
    CallBytes(r.source);
    CallBytes(r.destination);
    FrontIsAscii(r.source, r.destination);
    SplitOnceAt(r.source, GREATER, r.destination + r.path);
    var front := r.source + [GREATER] + r.destination;
    assert HeaderText(r) == front + r.path;
    AsciiPrefix(front, r.path);
  }

  /** Every report, however wrapped, has a key, and the key is read off its parts. */
  lemma ReportHasKey(headers: seq<seq<byte>>, r: Report)
    requires IsReport(r) && forall h :: h in headers ==> IsWrapper(h)
    ensures DuplicateKey(Wrapped(headers, ReportText(r))) == Some(ReportKey(r))
  {
    hide IsSource, IsDestination, IsUtf8, HeaderText, SourceKey, DestinationKey, TrimEnd, Wrapped, Before,
      SplitOnce, IsPath;
    WrappersAreInvisible(headers, ReportText(r));
    HeaderParts(r);
    RouteParts(r.destination, r.path);
    SplitOnceAt(HeaderText(r), COLON, r.payload);
  }

  lemma PathOfRoute(route: seq<byte>)
    requires !(COMMA in route && route[|route| - 1] == COMMA)
    ensures var destination := Before(route, COMMA);
            var path := route[|destination|..];
            && route == destination + path
            && (path != [] ==> path[0] == COMMA && path[|path| - 1] != COMMA)
  {
    var path := route[|Before(route, COMMA)|..];
    if path != [] {
      assert path[0] == route[IndexOf(route, COMMA)] == COMMA;
      assert path[|path| - 1] == route[|route| - 1];
    }
  }

  lemma FrontIsAscii(source: seq<byte>, destination: seq<byte>)
    requires IsSource(source) && IsDestination(destination)
    ensures AllAscii(source + [GREATER] + destination)
  {
    hide IsSource, IsDestination;
    CallBytes(source);
    CallBytes(destination);
  }

  lemma HeaderIsReport(header: seq<byte>, body: seq<byte>) returns (r: Report)
    requires COLON !in header && KeyOf(header, body).Some?
    requires body != [] ==> body[0] != BRACE
    ensures IsReport(r) && header == HeaderText(r) && body == r.payload
  {
    hide IsSource, IsDestination, IsUtf8, Before, TrimEnd, SourceKey, DestinationKey, AllAscii;
    var (source, route) := SplitOnce(header, GREATER).value;
    var destination := Before(route, COMMA);
    PathOfRoute(route);
    var path := route[|destination|..];
    r := Report(source, destination, path, body);
    FrontIsAscii(source, destination);
    Assoc(source + [GREATER], destination, path);
    AsciiPrefix(source + [GREATER] + destination, path);
    assert COLON !in path by { assert forall b :: b in path ==> b in header; }
  }

  /** A packet with a key is a wrapped report: nothing else is accepted. */
  lemma {:induction false} KeyedPacketsAreReports(packet: seq<byte>)
      returns (headers: seq<seq<byte>>, r: Report)
    requires DuplicateKey(packet).Some?
    ensures IsReport(r) && forall h :: h in headers ==> IsWrapper(h)
    ensures packet == Wrapped(headers, ReportText(r))
    decreases |packet|
  {
    hide KeyOf, IsReport, HeaderText, IndexOf, SplitOnce;
    var (header, body) := SplitOnce(packet, COLON).value;
    if body != [] && body[0] == BRACE && header != [] {
      var inner: seq<seq<byte>>;
      inner, r := KeyedPacketsAreReports(body[1..]);
      headers := [header] + inner;
      assert headers[1..] == inner;
      assert body == [BRACE] + body[1..];
    } else {
      headers := [];
      if header == [] { NoKeyWithoutHeader(body); }
      r := HeaderIsReport(header, body);
    }
  }

  lemma NoKeyWithoutHeader(body: seq<byte>)
    ensures KeyOf([], body) == None
  {
    assert GREATER !in (var empty: seq<byte> := []; empty);
  }

  lemma {:induction false} TrimEndAppend(s: seq<byte>, w: seq<byte>)
    requires forall b :: b in w ==> IsWhitespace(b)
    ensures TrimEnd(s + w) == TrimEnd(s)
  {
    if w == [] {
      assert s + w == s;
    } else {
      assert w[|w| - 1] in w;
      assert (s + w)[..|s + w| - 1] == s + w[..|w| - 1];
      TrimEndAppend(s, w[..|w| - 1]);
    }
  }

  lemma {:induction false} InnermostAppend(packet: seq<byte>, w: seq<byte>)
    requires forall b :: b in w ==> IsWhitespace(b)
    ensures Innermost(packet + w) ==
            match Innermost(packet)
            case None => None
            case Some((header, body)) => Some((header, body + w))
    decreases |packet|
  {
    hide SplitOnce;
    match SplitOnce(packet, COLON)
    case None =>
      assert COLON !in packet + w;
      assert SplitOnce(packet + w, COLON) == None;
    case Some((header, body)) =>
      Assoc(header + [COLON], body, w);
      SplitOnceAt(header, COLON, body + w);
      if body == [] && w != [] { assert w[0] in w; }
      if body != [] && body[0] == BRACE && header != [] {
        assert (body + w)[1..] == body[1..] + w;
        InnermostAppend(body[1..], w);
      }
  }

  /** Trailing whitespace never matters, whatever the packet. */
  lemma TrailingWhitespace(packet: seq<byte>, w: seq<byte>)
    requires forall b :: b in w ==> IsWhitespace(b)
    ensures DuplicateKey(packet + w) == DuplicateKey(packet)
  {
    hide Innermost, IsUtf8, IsSource, IsDestination, SourceKey, DestinationKey, Before;
    InnermostAppend(packet, w);
    if Innermost(packet).Some? { TrimEndAppend(Innermost(packet).value.1, w); }
  }

  lemma UpperAlphanumeric(s: seq<byte>)
    requires forall b :: b in s ==> IsAlphanumeric(b)
    ensures forall b :: b in Upper(s) ==> IsAlphanumeric(b)
    ensures Upper(Upper(s)) == Upper(s)
  {
    var upper := Upper(s);
    forall k | 0 <= k < |upper| ensures IsAlphanumeric(upper[k]) && UpperByte(upper[k]) == upper[k] {
      assert s[k] in s;
    }
  }

  lemma UpperConcat(a: seq<byte>, b: byte, c: seq<byte>)
    ensures Upper(a + [b] + c) == Upper(a) + [UpperByte(b)] + Upper(c)
  {
  }

  lemma UpperKeepsShape(call: seq<byte>)
    requires IsSource(call)
    ensures IsSource(Upper(call)) && Upper(Upper(call)) == Upper(call)
    ensures DASH in call <==> DASH in Upper(call)
  {
    hide Upper, IndexOf;
    match SplitOnce(call, DASH)
    case None =>
      UpperAlphanumeric(call);
    case Some((base, suffix)) =>
      UpperAlphanumeric(base);
      UpperAlphanumeric(suffix);
      UpperConcat(base, DASH, suffix);
      UpperConcat(Upper(base), DASH, Upper(suffix));
      SplitOnceAt(Upper(base), DASH, Upper(suffix));
  }

  /**
   * The variations that leave a report the same for duplicate detection: letter case, `-0` for no
   * SSID, the destination's SSID, the digipeater path.
   */
  lemma SameReportVariants(r: Report, ssid: seq<byte>, path: seq<byte>)
    requires IsReport(r) && IsPath(path)
    requires 1 <= |ssid| <= 2 && forall b :: b in ssid ==> IsDigit(b)
    ensures DuplicateKey(ReportText(r.(source := Upper(r.source)))) == DuplicateKey(ReportText(r))
    ensures DASH !in r.source ==>
              DuplicateKey(ReportText(r.(source := r.source + [DASH, ZERO]))) == DuplicateKey(ReportText(r))
    ensures var base := Before(r.destination, DASH);
            && DuplicateKey(ReportText(r.(destination := base))) == DuplicateKey(ReportText(r))
            && DuplicateKey(ReportText(r.(destination := base + [DASH] + ssid))) == DuplicateKey(ReportText(r))
            && DuplicateKey(ReportText(r.(destination := Upper(base)))) == DuplicateKey(ReportText(r))
    ensures DuplicateKey(ReportText(r.(path := path))) == DuplicateKey(ReportText(r))
  {
    var base := Before(r.destination, DASH);
    UpperKeepsShape(r.source);
    Keyed(r);
    Keyed(r.(source := Upper(r.source)));
    Keyed(r.(path := path));
    if DASH !in r.source { ExplicitZero(r); }
    DestinationVariants(r.destination, ssid);
    Keyed(r.(destination := base));
    Keyed(r.(destination := base + [DASH] + ssid));
    Keyed(r.(destination := Upper(base)));
  }

  lemma Keyed(r: Report)
    requires IsReport(r)
    ensures DuplicateKey(ReportText(r)) == Some(ReportKey(r))
  {
    ReportHasKey([], r);
  }

  lemma ExplicitZero(r: Report)
    requires IsReport(r) && DASH !in r.source
    ensures DuplicateKey(ReportText(r.(source := r.source + [DASH, ZERO]))) == Some(ReportKey(r))
  {
    hide IsDestination, IsPath, DuplicateKey, ReportText, DestinationKey;
    var source := r.source + [DASH, ZERO];
    ZeroSource(r.source);
    Keyed(r.(source := source));
  }

  lemma ZeroSource(source: seq<byte>)
    requires IsSource(source) && DASH !in source
    ensures IsSource(source + [DASH, ZERO]) && SourceKey(source + [DASH, ZERO]) == SourceKey(source)
  {
    hide Upper;
    var zero := source + [DASH, ZERO];
    assert zero == source + [DASH] + [ZERO];
    SplitOnceAt(source, DASH, [ZERO]);
    assert zero[|source|] == DASH;
    assert Upper(zero) == Upper(source) + [DASH, ZERO];
  }

  lemma DestinationVariants(destination: seq<byte>, ssid: seq<byte>)
    requires IsDestination(destination)
    requires 1 <= |ssid| <= 2 && forall b :: b in ssid ==> IsDigit(b)
    ensures var base := Before(destination, DASH);
            && IsDestination(base) && DestinationKey(base) == DestinationKey(destination)
            && IsDestination(base + [DASH] + ssid)
            && DestinationKey(base + [DASH] + ssid) == DestinationKey(destination)
            && IsDestination(Upper(base)) && DestinationKey(Upper(base)) == DestinationKey(destination)
  {
    var base := Before(destination, DASH);
    assert IsCallBase(base);
    assert DASH !in base;
    assert Before(base, DASH) == base;
    SplitOnceAt(base, DASH, ssid);
    var upper := Upper(base);
    assert forall b :: b in upper ==> IsAlphanumeric(b);
    assert DASH !in upper && Before(upper, DASH) == upper;
    assert Upper(upper) == upper;
  }

  // ---- When two reports are the same -----------------------------------------------------

  /** The same byte, or the same letter in its other case. */
  predicate IsSameByte(a: byte, b: byte) {
    a == b || ('A' as int <= a <= 'Z' as int && b == a + 32) || ('A' as int <= b <= 'Z' as int && a == b + 32)
  }

  predicate IsSameText(a: seq<byte>, b: seq<byte>) {
    |a| == |b| && forall k :: 0 <= k < |a| ==> IsSameByte(a[k], b[k])
  }

  /** The source with its SSID written out. */
  function WithSsid(source: seq<byte>): seq<byte> {
    if '-' as int in source then source else source + ['-' as int, '0' as int]
  }

  function BaseOf(call: seq<byte>): seq<byte> {
    call[..IndexOf(call, '-' as int)]
  }

  predicate AllBlank(s: seq<byte>) {
    forall k :: 0 <= k < |s| ==> s[k] in {9, 10, 12, 13, 32}
  }

  /** The same payload but for white space at the end. */
  ghost predicate IsSamePayload(a: seq<byte>, b: seq<byte>) {
    exists n: nat :: n <= |a| && n <= |b| && a[..n] == b[..n] && AllBlank(a[n..]) && AllBlank(b[n..])
  }

  lemma UpperTellsApart(a: seq<byte>, b: seq<byte>)
    ensures Upper(a) == Upper(b) <==> IsSameText(a, b)
  {
    if Upper(a) == Upper(b) {
      forall k | 0 <= k < |a| ensures IsSameByte(a[k], b[k]) {
        assert Upper(a)[k] == Upper(b)[k];
      }
    }
  }

  lemma SourceKeyIs(source: seq<byte>)
    ensures SourceKey(source) == Upper(WithSsid(source))
  {
    assert '-' as int !in source ==> Upper(source + ['-' as int, '0' as int]) == Upper(source) + ['-' as int, '0' as int];
  }

  lemma {:induction false} TrimEndIs(s: seq<byte>)
    ensures var t := TrimEnd(s); t <= s && AllBlank(s[|t|..])
  {
    if s != [] && IsWhitespace(s[|s| - 1]) {
      var front := s[..|s| - 1];
      TrimEndIs(front);
      var n := |TrimEnd(s)|;
      assert s[n..] == front[n..] + [s[|s| - 1]];
    }
  }

  lemma PayloadsTrimAlike(a: seq<byte>, b: seq<byte>)
    ensures TrimEnd(a) == TrimEnd(b) <==> IsSamePayload(a, b)
  {
    hide TrimEnd;
    TrimEndIs(a);
    TrimEndIs(b);
    if TrimEnd(a) == TrimEnd(b) {
      var n := |TrimEnd(a)|;
      assert a[..n] == b[..n];
    }
    if IsSamePayload(a, b) {
      var n: nat :| n <= |a| && n <= |b| && a[..n] == b[..n] && AllBlank(a[n..]) && AllBlank(b[n..]);
      BlanksAreTrimmed(a, n);
      BlanksAreTrimmed(b, n);
    }
  }

  lemma BlanksAreTrimmed(s: seq<byte>, n: nat)
    requires n <= |s| && AllBlank(s[n..])
    ensures TrimEnd(s) == TrimEnd(s[..n])
  {
    assert s == s[..n] + s[n..];
    TrimEndAppend(s[..n], s[n..]);
  }

  /** Two reports have one key exactly when source, destination base and payload are the same. */
  lemma SameKeyExactly(a: Report, b: Report)
    requires IsReport(a) && IsReport(b)
    ensures DuplicateKey(ReportText(a)) == DuplicateKey(ReportText(b))
            <==> && IsSameText(WithSsid(a.source), WithSsid(b.source))
                 && IsSameText(BaseOf(a.destination), BaseOf(b.destination))
                 && IsSamePayload(a.payload, b.payload)
  {
    hide IsReport, DuplicateKey, ReportText, IsSameText, IsSamePayload, Upper, TrimEnd, SourceKey, WithSsid;
    Keyed(a);
    Keyed(b);
    SourceKeyIs(a.source);
    SourceKeyIs(b.source);
    UpperTellsApart(WithSsid(a.source), WithSsid(b.source));
    UpperTellsApart(BaseOf(a.destination), BaseOf(b.destination));
    PayloadsTrimAlike(a.payload, b.payload);
  }

  predicate IsLetterOrDigit(b: byte) {
    '0' as int <= b <= '9' as int || 'A' as int <= b <= 'Z' as int || 'a' as int <= b <= 'z' as int
  }

  predicate AreLettersOrDigits(s: seq<byte>, from: nat, to: nat)
    requires to <= |s|
  {
    forall k :: from <= k < to ==> IsLetterOrDigit(s[k])
  }

  lemma BaseExactly(call: seq<byte>, n: nat)
    requires n <= |call|
    ensures IsCallBase(call[..n]) <==> 1 <= n <= 6 && AreLettersOrDigits(call, 0, n)
  {
    var base := call[..n];
    if IsCallBase(base) {
      forall k | 0 <= k < n ensures IsLetterOrDigit(call[k]) { assert base[k] in base; }
    }
    if AreLettersOrDigits(call, 0, n) {
      forall b | b in base ensures IsAlphanumeric(b) {
        var k :| 0 <= k < n && base[k] == b;
        assert IsLetterOrDigit(call[k]);
      }
    }
  }

  predicate AllAlphanumeric(s: seq<byte>) { forall b :: b in s ==> IsAlphanumeric(b) }

  predicate AllDigits(s: seq<byte>) { forall b :: b in s ==> IsDigit(b) }

  lemma SuffixExactly(suffix: seq<byte>)
    ensures AllAlphanumeric(suffix) <==> AreLettersOrDigits(suffix, 0, |suffix|)
    ensures AllDigits(suffix) <==> forall k :: 0 <= k < |suffix| ==> '0' as int <= suffix[k] <= '9' as int
  {
    if AllAlphanumeric(suffix) || AllDigits(suffix) {
      assert forall k :: 0 <= k < |suffix| ==> suffix[k] in suffix;
    }
    if AreLettersOrDigits(suffix, 0, |suffix|) {
      forall b | b in suffix ensures IsAlphanumeric(b) {
        var k :| 0 <= k < |suffix| && suffix[k] == b;
        assert IsLetterOrDigit(suffix[k]);
      }
    }
  }

  lemma CallParts(call: seq<byte>)
    ensures var n := IndexOf(call, '-' as int);
            && (IsSource(call) <==>
                  IsCallBase(call[..n]) && (n < |call| ==> 1 <= |call[n + 1..]| <= 2 && AllAlphanumeric(call[n + 1..])))
            && (IsDestination(call) <==>
                  IsCallBase(call[..n]) && (n < |call| ==> 1 <= |call[n + 1..]| <= 2 && AllDigits(call[n + 1..])))
  {
    hide IsCallBase, IsAlphanumeric, IsDigit;
    var n := IndexOf(call, '-' as int);
    if n == |call| { assert call[..n] == call; }
  }

  /** Which calls are accepted: up to six letters and digits, and behind a dash one or two, digits for a destination. */
  lemma CallsExactly(call: seq<byte>)
    ensures var n := IndexOf(call, '-' as int);
            var isBase := 1 <= n <= 6 && AreLettersOrDigits(call, 0, n);
            var suffix := if n < |call| then call[n + 1..] else [];
            && (IsSource(call) <==>
                  isBase && (n < |call| ==> 1 <= |suffix| <= 2 && AreLettersOrDigits(suffix, 0, |suffix|)))
            && (IsDestination(call) <==>
                  isBase && (n < |call| ==> && 1 <= |suffix| <= 2
                                            && forall k :: 0 <= k < |suffix| ==> '0' as int <= suffix[k] <= '9' as int))
  {
    hide IsCallBase, AreLettersOrDigits, AllAlphanumeric, AllDigits, IsDestination, IsSource;
    var n := IndexOf(call, '-' as int);
    CallParts(call);
    BaseExactly(call, n);
    if n < |call| { SuffixExactly(call[n + 1..]); }
  }
}
