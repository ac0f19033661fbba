/**
 * KISS frames, AX.25 address fields and TNC2 text (src/frame.rs).
 *
 * Shifts and masks of a byte are written with division and remainder: `b >> 1` is `b / 2`,
 * `b & 1` is `b % 2`, `b & 0x80 != 0` is `b >= 128`.
 */
module Frame {
  import opened Text

  const FEND: byte := 0xc0
  const FESC: byte := 0xdb
  const TFEND: byte := 0xdc
  const TFESC: byte := 0xdd

  const SPACE: byte := ' ' as int
  const COLON: byte := ':' as int
  const COMMA: byte := ',' as int
  const DASH: byte := '-' as int
  const STAR: byte := '*' as int
  const GREATER: byte := '>' as int
  const ZERO: byte := '0' as int

  // ---- Byte stuffing ---------------------------------------------------------------------

  /** Whether the escape at the front of `s` is one the receiver replaces. */
  predicate StartsEscape(s: seq<byte>) {
    |s| >= 2 && s[0] == FESC && (s[1] == TFEND || s[1] == TFESC)
  }

  function Unstuff(s: seq<byte>): seq<byte> {
    if s == [] then []
    else if StartsEscape(s) then [if s[1] == TFEND then FEND else FESC] + Unstuff(s[2..])
    else [s[0]] + Unstuff(s[1..])
  }

  function StuffByte(b: byte): seq<byte> {
    if b == FEND then [FESC, TFEND] else if b == FESC then [FESC, TFESC] else [b]
  }

  function Stuff(s: seq<byte>): seq<byte> {
    if s == [] then [] else StuffByte(s[0]) + Stuff(s[1..])
  }

  /** Stuffing hides every FEND and unstuffing undoes it. */
  lemma {:induction false} UnstuffStuff(s: seq<byte>)
    ensures FEND !in Stuff(s)
    ensures Unstuff(Stuff(s)) == s
  {
    if s != [] {
      UnstuffStuff(s[1..]);
      var t := Stuff(s);
      if s[0] == FEND || s[0] == FESC {
        assert t[2..] == Stuff(s[1..]);
      } else {
        assert t[1..] == Stuff(s[1..]);
      }
    }
  }

  // ---- Address fields --------------------------------------------------------------------

  /** One AX.25 address: base call, SSID, and the command or has-been-repeated bit. */
  datatype Address = Address(base: seq<byte>, ssid: nat, flag: bool)

  predicate IsCallByte(b: byte) { IsUpper(b) || IsDigit(b) }

  predicate IsBase(base: seq<byte>) {
    1 <= |base| <= 6 && forall b :: b in base ==> IsCallByte(b)
  }

  predicate IsAddress(a: Address) {
    IsBase(a.base) && a.ssid <= 15
  }

  /** `s` without its trailing spaces. */
  function TrimSpaces(s: seq<byte>): (r: seq<byte>)
    ensures r <= s
  {
    if s != [] && s[|s| - 1] == SPACE then TrimSpaces(s[..|s| - 1]) else s
  }

  function Halves(s: seq<byte>): (r: seq<byte>)
    ensures |r| == |s| && forall k :: 0 <= k < |s| ==> r[k] == s[k] / 2
  {
    seq(|s|, k requires 0 <= k < |s| => s[k] / 2)
  }

  function DecodeAddress(field: seq<byte>): (r: Option<Address>)
    requires |field| == 7
    ensures r.Some? ==> IsAddress(r.value)
  {
    var decoded := Halves(field[..6]);
    var base := TrimSpaces(decoded);
    if exists b :: b in decoded && !IsCallByte(b) && b != SPACE then None
    else if base == [] || exists b :: b in base && !IsCallByte(b) then None
    else Some(Address(base, field[6] / 2 % 16, field[6] >= 128))
  }

  predicate IsLastField(field: seq<byte>)
    requires |field| == 7
  {
    field[6] % 2 == 1
  }

  function Spaces(n: nat): (r: seq<byte>)
    ensures |r| == n && forall k :: 0 <= k < n ==> r[k] == SPACE
  {
    seq(n, _ => SPACE)
  }

  function Doubles(s: seq<byte>): (r: seq<byte>)
    requires forall k :: 0 <= k < |s| ==> s[k] < 128
    ensures |r| == |s| && forall k :: 0 <= k < |s| ==> r[k] == 2 * s[k]
  {
    seq(|s|, k requires 0 <= k < |s| => 2 * s[k])
  }

  function EncodeAddress(a: Address, last: bool): (r: seq<byte>)
    requires IsAddress(a)
    ensures |r| == 7
  {
    var padded := a.base + Spaces(6 - |a.base|);
    assert forall k :: 0 <= k < |a.base| ==> a.base[k] in a.base;
    Doubles(padded) + [0x60 + 2 * a.ssid + (if last then 1 else 0) + (if a.flag then 0x80 else 0)]
  }

  lemma {:induction false} TrimPadded(base: seq<byte>, n: nat)
    requires base == [] || base[|base| - 1] != SPACE
    ensures TrimSpaces(base + Spaces(n)) == base
  {
    var s := base + Spaces(n);
    if n == 0 {
      assert s == base;
    } else {
      assert s[|s| - 1] == Spaces(n)[n - 1] == SPACE;
      assert s[..|s| - 1] == base + Spaces(n - 1);
      TrimPadded(base, n - 1);
    }
  }

  lemma HalvedField(a: Address, last: bool)
    requires IsAddress(a)
    ensures Halves(EncodeAddress(a, last)[..6]) == a.base + Spaces(6 - |a.base|)
  {
    hide Spaces, TrimSpaces;
    var padded := a.base + Spaces(6 - |a.base|);
    var front := EncodeAddress(a, last)[..6];
    assert forall k :: 0 <= k < |a.base| ==> a.base[k] in a.base;
    assert front == Doubles(padded);
  }

  /** The seven-byte field carries the whole address. */
  lemma DecodeEncodeAddress(a: Address, last: bool)
    requires IsAddress(a)
    ensures DecodeAddress(EncodeAddress(a, last)) == Some(a)
    ensures IsLastField(EncodeAddress(a, last)) == last
  {
    hide TrimSpaces, Spaces, Halves, Doubles;
    HalvedField(a, last);
    var padded := a.base + Spaces(6 - |a.base|);
    assert forall b :: b in padded ==> b in a.base || b == SPACE;
    assert a.base[|a.base| - 1] in a.base;
    TrimPadded(a.base, 6 - |a.base|);
  }

  // ---- Address lists ---------------------------------------------------------------------

  const MAX_ADDRESSES := 10

  predicate AreAddresses(addresses: seq<Address>) {
    forall a :: a in addresses ==> IsAddress(a)
  }

  /**
   * The addresses at the front of `s`, up to the one whose extension bit is set, and what
   * follows them; `count` addresses were read already.
   */
  function ReadAddresses(s: seq<byte>, count: nat): (r: Option<(seq<Address>, seq<byte>)>)
    ensures r.Some? ==> |r.value.0| >= 1 && count + |r.value.0| <= MAX_ADDRESSES
    ensures r.Some? ==> AreAddresses(r.value.0)
    ensures r.Some? ==> |s| == 7 * |r.value.0| + |r.value.1|
  {
    if |s| < 7 || count >= MAX_ADDRESSES then None
    else
      match DecodeAddress(s[..7])
      case None => None
      case Some(a) =>
        if IsLastField(s[..7]) then Some(([a], s[7..]))
        else
          match ReadAddresses(s[7..], count + 1)
          case None => None
          case Some((rest, tail)) => Some(([a] + rest, tail))
  }

  function EncodeAddresses(addresses: seq<Address>): seq<byte>
    requires AreAddresses(addresses)
  {
    if addresses == [] then []
    else
      assert addresses[0] in addresses;
      EncodeAddress(addresses[0], |addresses| == 1) + EncodeAddresses(addresses[1..])
  }

  lemma {:induction false} ReadEncodeAddresses(addresses: seq<Address>, tail: seq<byte>, count: nat)
    requires AreAddresses(addresses)
    requires |addresses| >= 1 && count + |addresses| <= MAX_ADDRESSES
    ensures ReadAddresses(EncodeAddresses(addresses) + tail, count) == Some((addresses, tail))
    decreases |addresses|
  {
    hide EncodeAddress, DecodeAddress, IsAddress, IsLastField;
    assert addresses[0] in addresses;
    var last := |addresses| == 1;
    var field := EncodeAddress(addresses[0], last);
    var rest := EncodeAddresses(addresses[1..]);
    var s := EncodeAddresses(addresses) + tail;
    DecodeEncodeAddress(addresses[0], last);
    assert s == field + (rest + tail);
    assert s[..7] == field && s[7..] == rest + tail;
    if last {
      assert rest == [];
      assert addresses == [addresses[0]];
    } else {
      ReadEncodeAddresses(addresses[1..], tail, count + 1);
      assert addresses == [addresses[0]] + addresses[1..];
    }
  }

  lemma {:induction false} EncodedLength(addresses: seq<Address>)
    requires AreAddresses(addresses)
    ensures |EncodeAddresses(addresses)| == 7 * |addresses|
  {
    if addresses != [] {
      assert addresses[0] in addresses;
      EncodedLength(addresses[1..]);
    }
  }

  // ---- AX.25 UI frames -------------------------------------------------------------------

  /** Addresses in wire order (destination, source, digipeaters) and the information field. */
  datatype Packet = Packet(addresses: seq<Address>, payload: seq<byte>)

  const UI_CONTROL: byte := 0x03
  const NO_LAYER_3: byte := 0xf0

  predicate IsPacket(p: Packet) {
    2 <= |p.addresses| <= MAX_ADDRESSES && AreAddresses(p.addresses)
  }

  /** The packet in an unstuffed KISS data frame. */
  function DecodeFrame(u: seq<byte>): (r: Option<Packet>)
    ensures r.Some? ==> IsPacket(r.value)
  {
    if |u| < 16 || u[0] != 0 then None
    else
      match ReadAddresses(u[1..], 0)
      case None => None
      case Some((addresses, tail)) =>
        if |addresses| < 2 || |tail| < 2 then None
        else if tail[0] != UI_CONTROL || tail[1] != NO_LAYER_3 then None
        else Some(Packet(addresses, tail[2..]))
  }

  function EncodeFrame(p: Packet): seq<byte>
    requires IsPacket(p)
  {
    [0] + EncodeAddresses(p.addresses) + [UI_CONTROL, NO_LAYER_3] + p.payload
  }

  lemma DecodeEncodeFrame(p: Packet)
    requires IsPacket(p)
    ensures DecodeFrame(EncodeFrame(p)) == Some(p)
  {
    var u := EncodeFrame(p);
    var tail := [UI_CONTROL, NO_LAYER_3] + p.payload;
    assert u[1..] == EncodeAddresses(p.addresses) + tail;
    ReadEncodeAddresses(p.addresses, tail, 0);
    EncodedLength(p.addresses);
    assert tail[2..] == p.payload;
  }

  // ---- Call text -------------------------------------------------------------------------

  function SsidText(ssid: nat): seq<byte>
    requires ssid <= 15
  {
    if ssid < 10 then [ZERO + ssid] else [ZERO + 1, ZERO + (ssid - 10)]
  }

  function CallText(a: Address): seq<byte>
    requires IsAddress(a)
  {
    if a.ssid == 0 then a.base else a.base + [DASH] + SsidText(a.ssid)
  }

  /** The eight-bit number `s` denotes, if it is a decimal number that fits. */
  function ParseU8(s: seq<byte>): Option<byte> {
    if s == [] || exists b :: b in s && !IsDigit(b) then None
    else
      var v := DigitsValue(s);
      if v <= 255 then Some(v) else None
  }

  /** Base call and SSID of an upper-case `CALL` or `CALL-SSID`. */
  function Ax25Parts(call: seq<byte>): (r: Option<(seq<byte>, nat)>)
    ensures r.Some? ==> IsBase(r.value.0) && r.value.1 <= 15
  {
    var (base, suffix) := match SplitOnce(call, DASH)
      case None => (call, None)
      case Some((base, suffix)) => (base, Some(suffix));
    if !IsBase(base) then None
    else
      match suffix
      case None => Some((base, 0))
      case Some(digits) =>
        match ParseU8(digits)
        case None => None
        case Some(ssid) => if ssid <= 15 then Some((base, ssid)) else None
  }

  lemma SsidTextValue(ssid: nat)
    requires ssid <= 15
    ensures ParseU8(SsidText(ssid)) == Some(ssid)
    ensures forall b :: b in SsidText(ssid) ==> IsDigit(b)
  {
    var s := SsidText(ssid);
    if ssid >= 10 {
      assert s[..1] == [ZERO + 1];
      assert DigitsValue(s[..1]) == 1 by { assert s[..1][..0] == []; }
    } else {
      assert s[..|s| - 1] == [];
    }
    assert DigitsValue(s) == ssid;
  }

  lemma Ax25PartsOfCallText(a: Address)
    requires IsAddress(a)
    ensures Ax25Parts(CallText(a)) == Some((a.base, a.ssid))
    ensures forall b :: b in CallText(a) ==> IsCallByte(b) || b == DASH
  {
    SsidTextValue(a.ssid);
    if a.ssid != 0 { SplitOnceAt(a.base, DASH, SsidText(a.ssid)); }
  }

  // ---- TNC2 text -------------------------------------------------------------------------

  function StripStar(s: seq<byte>): (seq<byte>, bool) {
    if s != [] && s[|s| - 1] == STAR then (s[..|s| - 1], true) else (s, false)
  }

  function ParseDigipeater(raw: seq<byte>): (r: Option<Address>)
    ensures r.Some? ==> IsAddress(r.value)
  {
    var (call, repeated) := StripStar(raw);
    match Ax25Parts(call)
    case None => None
    case Some((base, ssid)) => Some(Address(base, ssid, repeated))
  }

  function ParseDigipeaters(raws: seq<seq<byte>>): (r: Option<seq<Address>>)
    ensures r.Some? ==> |r.value| == |raws| && AreAddresses(r.value)
  {
    if raws == [] then Some([])
    else
      match (ParseDigipeater(raws[0]), ParseDigipeaters(raws[1..]))
      case (Some(a), Some(rest)) => Some([a] + rest)
      case _ => None
  }

  /** Source, destination and digipeater texts of a TNC2 header. */
  function SplitHeader(header: seq<byte>): (r: Option<(seq<byte>, seq<seq<byte>>)>)
    ensures r.Some? ==> |r.value.1| >= 1
  {
    match SplitOnce(header, GREATER)
    case None => None
    case Some((source, route)) => Some((source, Split(route, COMMA)))
  }

  /** The packet a TNC2 frame describes; the destination carries the command bit. */
  function ParseTnc2(frame: seq<byte>): (r: Option<Packet>)
    ensures r.Some? ==> IsPacket(r.value)
  {
    match SplitOnce(frame, COLON)
    case None => None
    case Some((header, body)) =>
      if header == [] || body == [] then None
      else if exists b :: b in header && (!IsAscii(b) || IsLower(b)) then None
      else
        match SplitHeader(header)
        case None => None
        case Some((source, route)) =>
          if |route| > 9 then None
          else
            match (Ax25Parts(source), Ax25Parts(route[0]), ParseDigipeaters(route[1..]))
            case (Some((s, ss)), Some((d, ds)), Some(digis)) =>
              Some(Packet([Address(d, ds, true), Address(s, ss, false)] + digis, body))
            case _ => None
  }

  function DigipeaterText(a: Address): seq<byte>
    requires IsAddress(a)
  {
    CallText(a) + (if a.flag then [STAR] else [])
  }

  function DigipeaterTexts(digis: seq<Address>): (r: seq<seq<byte>>)
    requires AreAddresses(digis)
    ensures |r| == |digis|
  {
    if digis == [] then []
    else
      assert digis[0] in digis;
      [DigipeaterText(digis[0])] + DigipeaterTexts(digis[1..])
  }

  function RouteTexts(p: Packet): (r: seq<seq<byte>>)
    requires IsPacket(p)
    ensures |r| >= 1
  {
    assert p.addresses[0] in p.addresses;
    [CallText(p.addresses[0])] + DigipeaterTexts(p.addresses[2..])
  }

  function HeaderText(p: Packet): seq<byte>
    requires IsPacket(p)
  {
    assert p.addresses[1] in p.addresses;
    CallText(p.addresses[1]) + [GREATER] + Join(RouteTexts(p), COMMA)
  }

  /** The TNC2 text of a packet. */
  function Render(p: Packet): seq<byte>
    requires IsPacket(p)
  {
    HeaderText(p) + [COLON] + p.payload
  }

  // ---- Parsing undoes rendering ----------------------------------------------------------

  /** Text made of call bytes and the punctuation of a rendered header. */
  predicate IsHeaderText(s: seq<byte>) {
    forall b :: b in s ==> IsCallByte(b) || b == DASH || b == STAR || b == COMMA || b == GREATER
  }

  lemma DigipeaterChars(a: Address)
    requires IsAddress(a)
    ensures var t := DigipeaterText(a); COMMA !in t && GREATER !in t && IsHeaderText(t)
  {
    hide CallText, IsAddress;
    Ax25PartsOfCallText(a);
  }

  lemma StarOfCallText(a: Address)
    requires IsAddress(a)
    ensures StripStar(DigipeaterText(a)) == (CallText(a), a.flag)
  {
    hide CallText, IsAddress;
    Ax25PartsOfCallText(a);
    var call, text := CallText(a), DigipeaterText(a);
    if a.flag {
      assert text[..|text| - 1] == call;
    } else {
      assert text == call;
      if call != [] { assert call[|call| - 1] in call; }
    }
  }

  lemma DigipeaterTextParse(a: Address)
    requires IsAddress(a)
    ensures ParseDigipeater(DigipeaterText(a)) == Some(a)
    ensures var t := DigipeaterText(a); COMMA !in t && GREATER !in t && IsHeaderText(t)
  {
    hide CallText, DigipeaterText, Ax25Parts, StripStar, IsHeaderText, IsAddress;
    Ax25PartsOfCallText(a);
    DigipeaterChars(a);
    StarOfCallText(a);
  }

  lemma {:induction false} DigipeaterTextsParse(digis: seq<Address>)
    requires AreAddresses(digis)
    ensures ParseDigipeaters(DigipeaterTexts(digis)) == Some(digis)
    ensures forall t :: t in DigipeaterTexts(digis) ==> COMMA !in t && GREATER !in t && IsHeaderText(t)
  {
    hide ParseDigipeater, DigipeaterText, IsHeaderText;
    if digis != [] {
      assert digis[0] in digis;
      DigipeaterTextParse(digis[0]);
      DigipeaterTextsParse(digis[1..]);
      assert digis == [digis[0]] + digis[1..];
      assert DigipeaterTexts(digis)[1..] == DigipeaterTexts(digis[1..]);
    }
  }

  lemma {:induction false} JoinTailIsHeaderText(parts: seq<seq<byte>>)
    requires forall t :: t in parts ==> IsHeaderText(t)
    ensures IsHeaderText(JoinTail(parts, COMMA))
  {
    if parts != [] {
      assert parts[0] in parts;
      JoinTailIsHeaderText(parts[1..]);
    }
  }

  lemma RouteSplits(source: seq<byte>, route: seq<seq<byte>>)
    requires |route| >= 1 && GREATER !in source && forall t :: t in route ==> COMMA !in t
    ensures SplitHeader(source + [GREATER] + Join(route, COMMA)) == Some((source, route))
  {
    hide Split, SplitOnce;
    SplitOnceAt(source, GREATER, Join(route, COMMA));
    SplitJoin(route, COMMA);
  }

  lemma HeaderTextParts(p: Packet)
    requires IsPacket(p)
    ensures IsHeaderText(HeaderText(p)) && HeaderText(p) != []
    ensures RouteTexts(p)[0] == CallText(p.addresses[0])
    ensures RouteTexts(p)[1..] == DigipeaterTexts(p.addresses[2..])
    ensures SplitHeader(HeaderText(p)) == Some((CallText(p.addresses[1]), RouteTexts(p)))
  {
    hide CallText, Ax25Parts, DigipeaterTexts, Split, SplitOnce;
    var d, s := p.addresses[0], p.addresses[1];
    assert d in p.addresses && s in p.addresses;
    Ax25PartsOfCallText(d);
    Ax25PartsOfCallText(s);
    DigipeaterTextsParse(p.addresses[2..]);
    var route := RouteTexts(p);
    JoinTailIsHeaderText(route[1..]);
    RouteSplits(CallText(s), route);
  }

  /** The packet a rendered text describes: only the two command bits are fixed. */
  function WithCommandBits(p: Packet): Packet
    requires IsPacket(p)
  {
    var d, s := p.addresses[0], p.addresses[1];
    Packet([d.(flag := true), s.(flag := false)] + p.addresses[2..], p.payload)
  }

  lemma ParseRender(p: Packet)
    requires IsPacket(p) && p.payload != []
    ensures ParseTnc2(Render(p)) == Some(WithCommandBits(p))
  {
    hide HeaderText, SplitHeader, RouteTexts, CallText, Ax25Parts, ParseDigipeaters, DigipeaterTexts;
    var header := HeaderText(p);
    HeaderTextParts(p);
    SplitOnceAt(header, COLON, p.payload);
    assert p.addresses[0] in p.addresses && p.addresses[1] in p.addresses;
    Ax25PartsOfCallText(p.addresses[0]);
    Ax25PartsOfCallText(p.addresses[1]);
    DigipeaterTextsParse(p.addresses[2..]);
  }

  lemma RenderIgnoresCommandBits(p: Packet)
    requires IsPacket(p)
    ensures IsPacket(WithCommandBits(p))
    ensures Render(WithCommandBits(p)) == Render(p)
  {
    assert p.addresses[0] in p.addresses && p.addresses[1] in p.addresses;
    assert WithCommandBits(p).addresses[2..] == p.addresses[2..];
  }

  // ---- The canonical form ----------------------------------------------------------------

  function DropZeros(s: seq<byte>): seq<byte> {
    if s != [] && s[0] == ZERO then DropZeros(s[1..]) else s
  }

  /** A call without leading zeros in its SSID, and without an SSID of zero. */
  function CanonicalCall(call: seq<byte>): seq<byte> {
    match SplitOnce(call, DASH)
    case None => call
    case Some((base, suffix)) =>
      if DropZeros(suffix) == [] then base else base + [DASH] + DropZeros(suffix)
  }

  function CanonicalDigipeater(raw: seq<byte>): seq<byte> {
    var (call, repeated) := StripStar(raw);
    CanonicalCall(call) + (if repeated then [STAR] else [])
  }

  function CanonicalDigipeaters(raws: seq<seq<byte>>): (r: seq<seq<byte>>)
    ensures |r| == |raws|
  {
    if raws == [] then [] else [CanonicalDigipeater(raws[0])] + CanonicalDigipeaters(raws[1..])
  }

  /** A TNC2 frame with every call in canonical form and nothing else changed. */
  function Canonical(frame: seq<byte>): seq<byte> {
    match SplitOnce(frame, COLON)
    case None => frame
    case Some((header, body)) =>
      match SplitHeader(header)
      case None => frame
      case Some((source, route)) =>
        CanonicalCall(source) + [GREATER]
        + Join([CanonicalCall(route[0])] + CanonicalDigipeaters(route[1..]), COMMA)
        + [COLON] + body
  }

  predicate AreDigits(s: seq<byte>) {
    forall b :: b in s ==> IsDigit(b)
  }

  lemma {:induction false} LeadingZeroValue(s: seq<byte>)
    requires AreDigits(s)
    ensures AreDigits([ZERO] + s) && DigitsValue([ZERO] + s) == DigitsValue(s)
  {
    var t := [ZERO] + s;
    if s == [] {
      assert t[..0] == [];
    } else {
      assert t[..|t| - 1] == [ZERO] + s[..|s| - 1];
      LeadingZeroValue(s[..|s| - 1]);
    }
  }

  lemma {:induction false} DropZerosValue(s: seq<byte>)
    requires AreDigits(s)
    ensures AreDigits(DropZeros(s)) && DigitsValue(DropZeros(s)) == DigitsValue(s)
    ensures DropZeros(s) == [] || DropZeros(s)[0] != ZERO
  {
    if s != [] && s[0] == ZERO {
      DropZerosValue(s[1..]);
      LeadingZeroValue(s[1..]);
      assert s == [ZERO] + s[1..];
    }
  }

  /** A number without leading zeros is at least one, ten or a hundred by its length. */
  lemma {:induction false} LengthBoundsValue(s: seq<byte>)
    requires AreDigits(s) && s != [] && s[0] != ZERO
    ensures DigitsValue(s) >= 1
    ensures |s| >= 2 ==> DigitsValue(s) >= 10
    ensures |s| >= 3 ==> DigitsValue(s) >= 100
  {
    assert IsDigit(s[0]) && IsDigit(s[|s| - 1]) by { assert s[0] in s && s[|s| - 1] in s; }
    if |s| > 1 { LengthBoundsValue(s[..|s| - 1]); }
    else { assert s[..|s| - 1] == []; }
    assert DigitsValue(s) == 10 * DigitsValue(s[..|s| - 1]) + (s[|s| - 1] - ZERO);
  }

  /** Dropping zeros from an SSID writes it in its shortest decimal form. */
  lemma DropZerosIsSsidText(s: seq<byte>)
    requires AreDigits(s) && DigitsValue(s) <= 15
    ensures DropZeros(s) == if DigitsValue(s) == 0 then [] else SsidText(DigitsValue(s))
  {
    var t := DropZeros(s);
    DropZerosValue(s);
    if t != [] {
      LengthBoundsValue(t);
      assert t[0] in t && t[|t| - 1] in t;
      if |t| == 1 {
        assert t[..|t| - 1] == [];
      } else {
        assert t[..|t| - 1] == [t[0]];
        assert [t[0]][..0] == [];
        assert DigitsValue([t[0]]) == t[0] - ZERO;
        assert t == [t[0], t[1]];
      }
    }
  }

  lemma CallTextIsCanonical(call: seq<byte>, flag: bool)
    requires Ax25Parts(call).Some?
    ensures var parts := Ax25Parts(call).value;
            CallText(Address(parts.0, parts.1, flag)) == CanonicalCall(call)
  {
    match SplitOnce(call, DASH)
    case None =>
    case Some((base, suffix)) => DropZerosIsSsidText(suffix);
  }

  lemma {:induction false} DigipeaterTextsAreCanonical(raws: seq<seq<byte>>)
    requires ParseDigipeaters(raws).Some?
    ensures DigipeaterTexts(ParseDigipeaters(raws).value) == CanonicalDigipeaters(raws)
  {
    if raws != [] {
      var (call, repeated) := StripStar(raws[0]);
      CallTextIsCanonical(call, repeated);
      DigipeaterTextsAreCanonical(raws[1..]);
      var digis := ParseDigipeaters(raws).value;
      assert digis[1..] == ParseDigipeaters(raws[1..]).value;
    }
  }

  /** Reading a TNC2 frame and writing it back gives its canonical form. */
  lemma RenderParseIsCanonical(frame: seq<byte>)
    ensures ParseTnc2(frame).Some? ==> Render(ParseTnc2(frame).value) == Canonical(frame)
  {
    if ParseTnc2(frame).Some? {
      var p := ParseTnc2(frame).value;
      var (header, body) := SplitOnce(frame, COLON).value;
      var (source, route) := SplitHeader(header).value;
      CallTextIsCanonical(source, false);
      CallTextIsCanonical(route[0], true);
      DigipeaterTextsAreCanonical(route[1..]);
      assert p.addresses[2..] == ParseDigipeaters(route[1..]).value;
    }
  }

  // ---- The two conversions ---------------------------------------------------------------

  /** What `kiss_to_tnc2` computes from a frame body without its FEND bytes. */
  function Tnc2OfKiss(raw: seq<byte>): Option<seq<byte>> {
    match DecodeFrame(Unstuff(raw))
    case None => None
    case Some(p) => Some(Render(p))
  }

  /** What `tnc2_to_kiss` computes, FEND bytes included. */
  function KissOfTnc2(frame: seq<byte>): Option<seq<byte>> {
    match ParseTnc2(frame)
    case None => None
    case Some(p) => Some([FEND] + Stuff(EncodeFrame(p)) + [FEND])
  }

  /** The bytes between the delimiters of a KISS frame. */
  function Body(kiss: seq<byte>): seq<byte>
    requires |kiss| >= 2
  {
    kiss[1..|kiss| - 1]
  }

  /** TNC2 to KISS and back gives the canonical frame, payload byte for byte. */
  lemma KissRoundTrip(frame: seq<byte>)
    ensures match KissOfTnc2(frame)
            case None => true
            case Some(kiss) =>
              && |kiss| >= 2 && kiss[0] == FEND && kiss[|kiss| - 1] == FEND
              && FEND !in Body(kiss)
              && Tnc2OfKiss(Body(kiss)) == Some(Canonical(frame))
  {
    if KissOfTnc2(frame).Some? {
      var p, kiss := ParseTnc2(frame).value, KissOfTnc2(frame).value;
      assert Body(kiss) == Stuff(EncodeFrame(p));
      UnstuffStuff(EncodeFrame(p));
      DecodeEncodeFrame(p);
      RenderParseIsCanonical(frame);
    }
  }

  /** The canonical form is the same frame to the encoder, and is its own canonical form. */
  lemma CanonicalIsStable(frame: seq<byte>)
    requires KissOfTnc2(frame).Some?
    ensures KissOfTnc2(Canonical(frame)) == KissOfTnc2(frame)
    ensures Canonical(Canonical(frame)) == Canonical(frame)
  {
    var p := ParseTnc2(frame).value;
    RenderParseIsCanonical(frame);
    ParseRender(p);
    assert WithCommandBits(p) == p;
    RenderParseIsCanonical(Canonical(frame));
  }

  /** Any text decoded from a KISS frame is canonical, and encodes unless it has no payload. */
  lemma KissReverseFixpoint(raw: seq<byte>, text: seq<byte>)
    requires Tnc2OfKiss(raw) == Some(text)
    ensures KissOfTnc2(text).Some? <==> DecodeFrame(Unstuff(raw)).value.payload != []
    ensures KissOfTnc2(text).Some? ==>
              var kiss := KissOfTnc2(text).value;
              |kiss| >= 2 && Tnc2OfKiss(Body(kiss)) == Some(text)
  {
    var p := DecodeFrame(Unstuff(raw)).value;
    if p.payload == [] {
      HeaderTextParts(p);
      SplitOnceAt(HeaderText(p), COLON, []);
    } else {
      ParseRender(p);
      var q := WithCommandBits(p);
      RenderIgnoresCommandBits(p);
      var kiss := KissOfTnc2(text).value;
      assert Body(kiss) == Stuff(EncodeFrame(q));
      UnstuffStuff(EncodeFrame(q));
      DecodeEncodeFrame(q);
    }
  }

  // ---- Frames byte by byte ---------------------------------------------------------------

  predicate IsCallText(s: seq<byte>) {
    1 <= |s| <= 6 && forall k :: 0 <= k < |s| ==> 'A' as int <= s[k] <= 'Z' as int || '0' as int <= s[k] <= '9' as int
  }

  /** Seven bytes that say an address: shifted characters up to spaces, then SSID and mark; other bits may be anything. */
  predicate SaysAddress(field: seq<byte>, a: Address) {
    && |field| == 7 && IsCallText(a.base)
    && (forall k :: 0 <= k < |a.base| ==> field[k] / 2 == a.base[k])
    && (forall k :: |a.base| <= k < 6 ==> field[k] / 2 == 0x20)
    && a.ssid == field[6] / 2 % 16 && (a.flag <==> field[6] >= 0x80)
  }

  lemma CallTextIsBase(s: seq<byte>)
    ensures IsCallText(s) <==> IsBase(s)
  {
    if IsBase(s) { assert forall k :: 0 <= k < |s| ==> s[k] in s; }
  }

  lemma {:induction false} TrimmedSpaces(s: seq<byte>)
    ensures var t := TrimSpaces(s);
            (forall k :: |t| <= k < |s| ==> s[k] == SPACE) && (t != [] ==> t[|t| - 1] != SPACE)
  {
    if s != [] && s[|s| - 1] == SPACE { TrimmedSpaces(s[..|s| - 1]); }
  }

  /** The decoder reads a field as an address exactly when the field says it. */
  lemma AddressExactly(field: seq<byte>, a: Address)
    requires |field| == 7
    ensures DecodeAddress(field) == Some(a) <==> SaysAddress(field, a)
  {
    hide TrimSpaces, IsCallText;
    var decoded := Halves(field[..6]);
    var base := TrimSpaces(decoded);
    TrimmedSpaces(decoded);
    CallTextIsBase(a.base);
    CallTextIsBase(base);
    if SaysAddress(field, a) {
      assert decoded == a.base + Spaces(6 - |a.base|);
      assert a.base[|a.base| - 1] in a.base;
      TrimPadded(a.base, 6 - |a.base|);
      assert forall b :: b in decoded ==> b in a.base || b == SPACE;
    }
  }

  /** Field `i` says address `i`, and is marked exactly when it is the last. */
  predicate SaysField(s: seq<byte>, addresses: seq<Address>, i: nat) {
    && 7 * i + 7 <= |s| && i < |addresses|
    && SaysAddress(s[7 * i..7 * i + 7], addresses[i]) && (s[7 * i + 6] % 2 == 1 <==> i == |addresses| - 1)
  }

  /** Consecutive fields that say the addresses, of which the last alone has its extension bit set. */
  predicate SayAddresses(s: seq<byte>, addresses: seq<Address>) {
    7 * |addresses| <= |s| && forall i: nat :: i < |addresses| ==> SaysField(s, addresses, i)
  }

  lemma FieldLater(s: seq<byte>, addresses: seq<Address>, i: nat)
    requires |addresses| >= 1 && |s| >= 7
    ensures SaysField(s[7..], addresses[1..], i) <==> SaysField(s, addresses, i + 1)
  {
    hide SaysAddress;
    if 7 * i + 7 <= |s| - 7 { assert s[7..][7 * i..7 * i + 7] == s[7 * (i + 1)..7 * (i + 1) + 7]; }
  }

  lemma SayAddressesStep(s: seq<byte>, addresses: seq<Address>)
    requires |addresses| >= 1
    ensures SayAddresses(s, addresses) <==>
            && |s| >= 7 && SaysAddress(s[..7], addresses[0]) && (s[6] % 2 == 1 <==> |addresses| == 1)
            && SayAddresses(s[7..], addresses[1..])
  {
    hide SaysField;
    if |s| >= 7 {
      assert SaysField(s, addresses, 0) <==> SaysAddress(s[..7], addresses[0]) && (s[6] % 2 == 1 <==> |addresses| == 1)
        by { FirstField(s, addresses); }
      forall i: nat ensures SaysField(s[7..], addresses[1..], i) <==> SaysField(s, addresses, i + 1) {
        FieldLater(s, addresses, i);
      }
      if SaysField(s, addresses, 0) && SayAddresses(s[7..], addresses[1..]) {
        forall i: nat | i < |addresses| ensures SaysField(s, addresses, i) {
          if i > 0 { assert SaysField(s[7..], addresses[1..], i - 1); }
        }
      }
    }
  }

  lemma FirstField(s: seq<byte>, addresses: seq<Address>)
    requires |addresses| >= 1 && |s| >= 7
    ensures SaysField(s, addresses, 0) <==> SaysAddress(s[..7], addresses[0]) && (s[6] % 2 == 1 <==> |addresses| == 1)
  {
    hide SaysAddress;
    assert s[7 * 0..7 * 0 + 7] == s[..7];
  }

  lemma {:induction false} AddressesExactly(s: seq<byte>, count: nat, addresses: seq<Address>, tail: seq<byte>)
    ensures ReadAddresses(s, count) == Some((addresses, tail)) <==>
            && 1 <= |addresses| && count + |addresses| <= 10
            && SayAddresses(s, addresses) && tail == s[7 * |addresses|..]
    decreases |s|
  {
    hide SaysAddress, SayAddresses, DecodeAddress;
    if |addresses| >= 1 {
      SayAddressesStep(s, addresses);
      assert addresses == [addresses[0]] + addresses[1..];
      if |s| >= 7 {
        AddressExactly(s[..7], addresses[0]);
        NoFields(s[7..]);
        if |addresses| == 1 {
          assert addresses == [addresses[0]] && addresses[1..] == [];
          OneField(s, count, addresses[0], tail);
        } else {
          AddressesExactly(s[7..], count + 1, addresses[1..], tail);
          FieldsFit(s, addresses);
        }
      }
    }
  }

  lemma OneField(s: seq<byte>, count: nat, a: Address, tail: seq<byte>)
    requires |s| >= 7
    ensures ReadAddresses(s, count) == Some(([a], tail)) <==>
            count < 10 && DecodeAddress(s[..7]) == Some(a) && s[6] % 2 == 1 && tail == s[7..]
  {
    hide DecodeAddress;
    var r := ReadAddresses(s, count);
    if r.Some? && s[6] % 2 == 0 { assert |r.value.0| > 1; }
  }

  lemma FieldsFit(s: seq<byte>, addresses: seq<Address>)
    requires |s| >= 7 && |addresses| >= 1
    ensures SayAddresses(s, addresses) ==> 7 * |addresses| <= |s| && s[7..][7 * (|addresses| - 1)..] == s[7 * |addresses|..]
  {
  }

  lemma NoFields(s: seq<byte>)
    ensures SayAddresses(s, [])
  {
  }

  /** A frame is decoded to a packet exactly when its bytes say the packet. */
  lemma FrameExactly(u: seq<byte>, p: Packet)
    ensures DecodeFrame(u) == Some(p) <==>
            var n := |p.addresses|;
            && 2 <= n <= 10 && |u| >= 7 * n + 3
            && u[0] == 0 && SayAddresses(u[1..], p.addresses) && u[7 * n + 1..7 * n + 3] == [0x03, 0xf0]
            && p.payload == u[7 * n + 3..]
  {
    hide SayAddresses, ReadAddresses;
    var n := |p.addresses|;
    if |u| >= 1 {
      var s := u[1..];
      if ReadAddresses(s, 0).Some? { AddressesExactly(s, 0, ReadAddresses(s, 0).value.0, ReadAddresses(s, 0).value.1); }
      if |u| >= 7 * n + 3 {
        AddressesExactly(s, 0, p.addresses, s[7 * n..]);
        assert s[7 * n..][2..] == u[7 * n + 3..] && s[7 * n] == u[7 * n + 1] && s[7 * n + 1] == u[7 * n + 2];
      }
    }
  }

  /** The escapes of a KISS frame, with lone and foreign ones left as they are. */
  lemma EscapesAreUndone(b: byte, s: seq<byte>)
    ensures Unstuff([]) == []
    ensures b != 0xdb ==> Unstuff([b] + s) == [b] + Unstuff(s)
    ensures Unstuff([0xdb, 0xdc] + s) == [0xc0] + Unstuff(s)
    ensures Unstuff([0xdb, 0xdd] + s) == [0xdb] + Unstuff(s)
    ensures s == [] || (s[0] != 0xdc && s[0] != 0xdd) ==> Unstuff([0xdb] + s) == [0xdb] + Unstuff(s)
  {
    assert ([b] + s)[1..] == s;
    assert ([0xdb] + s)[1..] == s && ([0xdb, 0xdc] + s)[2..] == s && ([0xdb, 0xdd] + s)[2..] == s;
  }

  /** A text that says a call: the base alone, or with a dash and digits that are at most 15. */
  predicate SaysCall(text: seq<byte>, base: seq<byte>, ssid: nat) {
    && IsCallText(base) && ssid <= 15
    && if text == base then ssid == 0
       else && |text| >= |base| + 2 && text[..|base|] == base && text[|base|] == '-' as int
            && var digits := text[|base| + 1..];
            (forall b :: b in digits ==> IsDigit(b)) && DigitsValue(digits) == ssid
  }

  lemma CallExactly(text: seq<byte>, base: seq<byte>, ssid: nat)
    ensures Ax25Parts(text) == Some((base, ssid)) <==> SaysCall(text, base, ssid)
  {
    hide IsCallText, IndexOf, DigitsValue;
    CallTextIsBase(base);
    if IsBase(base) { assert '-' as int !in base; }
    if SaysCall(text, base, ssid) && text != base {
      assert text == base + ['-' as int] + text[|base| + 1..];
      SplitOnceAt(base, '-' as int, text[|base| + 1..]);
    }
  }

  predicate SaysDigipeater(text: seq<byte>, a: Address) {
    if text != [] && text[|text| - 1] == '*' as int then a.flag && SaysCall(text[..|text| - 1], a.base, a.ssid)
    else !a.flag && SaysCall(text, a.base, a.ssid)
  }

  predicate SayDigipeaters(texts: seq<seq<byte>>, digis: seq<Address>) {
    |texts| == |digis| && forall i :: 0 <= i < |texts| ==> SaysDigipeater(texts[i], digis[i])
  }

  lemma DigipeaterExactly(text: seq<byte>, a: Address)
    ensures ParseDigipeater(text) == Some(a) <==> SaysDigipeater(text, a)
  {
    hide Ax25Parts, SaysCall;
    CallExactly(StripStar(text).0, a.base, a.ssid);
  }

  lemma {:induction false} DigipeatersExactly(texts: seq<seq<byte>>, digis: seq<Address>)
    ensures ParseDigipeaters(texts) == Some(digis) <==> SayDigipeaters(texts, digis)
  {
    hide ParseDigipeater, SaysDigipeater;
    if texts != [] && digis != [] {
      DigipeaterExactly(texts[0], digis[0]);
      DigipeatersExactly(texts[1..], digis[1..]);
      assert digis == [digis[0]] + digis[1..];
      if SayDigipeaters(texts[1..], digis[1..]) && SaysDigipeater(texts[0], digis[0]) {
        forall i | 0 <= i < |texts| ensures SaysDigipeater(texts[i], digis[i]) {
          if i > 0 { assert SaysDigipeater(texts[1..][i - 1], digis[1..][i - 1]); }
        }
      }
    }
  }

  /** The texts of a TNC2 header and its body that say a packet; the destination carries the command bit. */
  predicate SaysPacket(source: seq<byte>, route: seq<seq<byte>>, body: seq<byte>, p: Packet)
    requires |route| >= 1
  {
    && |route| <= 9 && |p.addresses| == |route| + 1 && body != [] && p.payload == body
    && SaysCall(source, p.addresses[1].base, p.addresses[1].ssid) && !p.addresses[1].flag
    && SaysCall(route[0], p.addresses[0].base, p.addresses[0].ssid) && p.addresses[0].flag
    && SayDigipeaters(route[1..], p.addresses[2..])
  }

  /** The parts of a TNC2 frame: no separator inside them. */
  predicate AreParts(source: seq<byte>, route: seq<seq<byte>>) {
    && |route| >= 1 && GREATER !in source && (forall t :: t in route ==> COMMA !in t)
    && COLON !in source + [GREATER] + Join(route, COMMA)
  }

  function FrameText(source: seq<byte>, route: seq<seq<byte>>, body: seq<byte>): seq<byte>
    requires |route| >= 1
  {
    source + [GREATER] + Join(route, COMMA) + [COLON] + body
  }

  lemma CallIsHeaderText(text: seq<byte>, base: seq<byte>, ssid: nat)
    requires SaysCall(text, base, ssid)
    ensures IsHeaderText(text) && IsHeaderText(text + [STAR])
  {
    assert forall b :: b in base ==> IsCallByte(b) by { CallTextIsBase(base); }
    if text != base {
      assert text == base + ['-' as int] + text[|base| + 1..];
    }
  }

  lemma DigipeatersAreHeaderText(texts: seq<seq<byte>>, digis: seq<Address>)
    requires SayDigipeaters(texts, digis)
    ensures forall t :: t in texts ==> IsHeaderText(t)
  {
    hide SaysCall, IsHeaderText;
    forall t | t in texts ensures IsHeaderText(t) {
      var i :| 0 <= i < |texts| && texts[i] == t;
      assert SaysDigipeater(t, digis[i]);
      if t != [] && t[|t| - 1] == STAR {
        CallIsHeaderText(t[..|t| - 1], digis[i].base, digis[i].ssid);
        assert t == t[..|t| - 1] + [STAR];
      } else {
        CallIsHeaderText(t, digis[i].base, digis[i].ssid);
      }
    }
  }

  lemma SaidIsHeaderText(source: seq<byte>, route: seq<seq<byte>>, body: seq<byte>, p: Packet)
    requires |route| >= 1 && SaysPacket(source, route, body, p)
    ensures IsHeaderText(source + [GREATER] + Join(route, COMMA))
  {
    hide SaysCall, SayDigipeaters;
    CallIsHeaderText(source, p.addresses[1].base, p.addresses[1].ssid);
    CallIsHeaderText(route[0], p.addresses[0].base, p.addresses[0].ssid);
    DigipeatersAreHeaderText(route[1..], p.addresses[2..]);
    JoinTailIsHeaderText(route[1..]);
  }

  /** A TNC2 frame is read as a packet exactly when its parts say the packet. */
  lemma Tnc2Exactly(source: seq<byte>, route: seq<seq<byte>>, body: seq<byte>, p: Packet)
    requires AreParts(source, route)
    ensures ParseTnc2(FrameText(source, route, body)) == Some(p) <==> SaysPacket(source, route, body, p)
  {
    hide Ax25Parts, ParseDigipeaters, SaysCall, SayDigipeaters, SplitHeader, IndexOf;
    var header := source + [GREATER] + Join(route, COMMA);
    SplitOnceAt(header, COLON, body);
    RouteSplits(source, route);
    if SaysPacket(source, route, body, p) { SaidIsHeaderText(source, route, body, p); }
    if |p.addresses| >= 2 {
      var d, s := p.addresses[0], p.addresses[1];
      CallExactly(source, s.base, s.ssid);
      CallExactly(route[0], d.base, d.ssid);
      DigipeatersExactly(route[1..], p.addresses[2..]);
      assert p.addresses == [d, s] + p.addresses[2..];
    }
  }

  /** And every frame that is read has such parts. */
  lemma ReadFramesHaveParts(frame: seq<byte>) returns (source: seq<byte>, route: seq<seq<byte>>, body: seq<byte>)
    requires ParseTnc2(frame).Some?
    ensures AreParts(source, route) && frame == FrameText(source, route, body)
  {
    hide Ax25Parts, ParseDigipeaters, IndexOf, Split, Join;
    var (header, rest) := SplitOnce(frame, COLON).value;
    var (front, routeText) := SplitOnce(header, GREATER).value;
    JoinSplit(routeText, COMMA);
    PartsAreFree(routeText, COMMA);
    source, route, body := front, Split(routeText, COMMA), rest;
  }

  // ---- One frame on the wire -------------------------------------------------------------

  const APRS: seq<byte> := ['A' as int, 'P' as int, 'R' as int, 'S' as int]
  const N0CALL: seq<byte> := ['N' as int, '0' as int, 'C' as int, 'A' as int, 'L' as int, 'L' as int]
  const WIDE1: seq<byte> := ['W' as int, 'I' as int, 'D' as int, 'E' as int, '1' as int]

  const SAMPLE := Packet([Address(APRS, 0, true), Address(N0CALL, 7, false), Address(WIDE1, 1, true)], [0xc0, 'A' as int])

  /** `N0CALL-7>APRS,WIDE1-1*:`, a FEND and an `A`. */
  const SAMPLE_TEXT: seq<byte> :=
    N0CALL + ['-' as int, '7' as int, '>' as int] + APRS + [',' as int] + WIDE1
    + ['-' as int, '1' as int, '*' as int, ':' as int] + [0xc0, 'A' as int]

  const SAMPLE_FIELDS: seq<seq<byte>> :=
    [[0x82, 0xa0, 0xa4, 0xa6, 0x40, 0x40, 0xe0],
     [0x9c, 0x60, 0x86, 0x82, 0x98, 0x98, 0x6e],
     [0xae, 0x92, 0x88, 0x8a, 0x62, 0x40, 0xe3]]

  lemma SampleFields()
    ensures IsPacket(SAMPLE)
    ensures EncodeAddress(SAMPLE.addresses[0], false) == SAMPLE_FIELDS[0]
    ensures EncodeAddress(SAMPLE.addresses[1], false) == SAMPLE_FIELDS[1]
    ensures EncodeAddress(SAMPLE.addresses[2], true) == SAMPLE_FIELDS[2]
  {
  }

  lemma SampleIsEncoded()
    ensures IsPacket(SAMPLE)
    ensures EncodeFrame(SAMPLE) == [0x00] + SAMPLE_FIELDS[0] + SAMPLE_FIELDS[1] + SAMPLE_FIELDS[2] + [0x03, 0xf0, 0xc0, 0x41]
  {
    hide EncodeAddress;
    SampleFields();
    var a := SAMPLE.addresses;
    assert a[1..][1..] == [a[2]] && a[1..][1..][1..] == [];
    assert EncodeAddresses(a[1..][1..]) == SAMPLE_FIELDS[2];
    assert EncodeAddresses(a[1..]) == SAMPLE_FIELDS[1] + SAMPLE_FIELDS[2];
  }

  lemma SampleIsRendered()
    ensures IsPacket(SAMPLE) && Render(SAMPLE) == SAMPLE_TEXT
  {
    SampleFields();
    var a := SAMPLE.addresses;
    assert SsidText(7) == ['7' as int] && SsidText(1) == ['1' as int];
    assert CallText(a[1]) == N0CALL + ['-' as int, '7' as int];
    assert a[2..] == [a[2]] && a[2..][1..] == [];
    assert DigipeaterText(a[2]) == WIDE1 + ['-' as int, '1' as int, '*' as int];
    assert DigipeaterTexts(a[2..]) == [DigipeaterText(a[2])];
    var route := RouteTexts(SAMPLE);
    assert route == [APRS, DigipeaterText(a[2])];
    var used := route[1..];
    assert used == [DigipeaterText(a[2])] && |used[1..]| == 0;
    assert JoinTail(route[1..], COMMA) == [',' as int] + DigipeaterText(a[2]);
  }

  lemma {:induction false} PlainIsNotStuffed(plain: seq<byte>, rest: seq<byte>)
    requires 0xc0 !in plain && 0xdb !in plain
    ensures Stuff(plain + rest) == plain + Stuff(rest)
  {
    if plain == [] {
      assert plain + rest == rest;
    } else {
      assert plain[0] in plain;
      assert (plain + rest)[1..] == plain[1..] + rest;
      PlainIsNotStuffed(plain[1..], rest);
    }
  }

  lemma StuffedPayload()
    ensures Stuff([0xc0, 0x41]) == [0xdb, 0xdc, 0x41]
  {
    assert [0xc0, 0x41][1..] == [0x41] && [0x41][1..] == [];
    assert Stuff([0x41]) == [0x41];
  }

  /** One packet as text and as a KISS frame, byte for byte. */
  lemma SampleFrame()
    ensures var fields := SAMPLE_FIELDS[0] + SAMPLE_FIELDS[1] + SAMPLE_FIELDS[2];
            && KissOfTnc2(SAMPLE_TEXT) == Some([0xc0, 0x00] + fields + [0x03, 0xf0, 0xdb, 0xdc, 0x41, 0xc0])
            && Tnc2OfKiss([0x00] + fields + [0x03, 0xf0, 0xdb, 0xdc, 0x41]) == Some(SAMPLE_TEXT)
  {
    hide ParseTnc2, EncodeFrame, DecodeFrame, Render, Stuff, Unstuff;
    SampleIsRendered();
    SampleIsEncoded();
    ParseRender(SAMPLE);
    assert WithCommandBits(SAMPLE) == SAMPLE by { assert SAMPLE.addresses[2..] == [SAMPLE.addresses[2]]; }
    var front := [0x00] + SAMPLE_FIELDS[0] + SAMPLE_FIELDS[1] + SAMPLE_FIELDS[2] + [0x03, 0xf0];
    var u := EncodeFrame(SAMPLE);
    assert u == front + [0xc0, 0x41];
    PlainIsNotStuffed(front, [0xc0, 0x41]);
    StuffedPayload();
    var stuffed := front + [0xdb, 0xdc, 0x41];
    assert Stuff(u) == stuffed;
    UnstuffStuff(u);
    DecodeEncodeFrame(SAMPLE);
    var fields := SAMPLE_FIELDS[0] + SAMPLE_FIELDS[1] + SAMPLE_FIELDS[2];
    assert stuffed == [0x00] + fields + [0x03, 0xf0, 0xdb, 0xdc, 0x41];
    assert [FEND] + stuffed + [FEND] == [0xc0, 0x00] + fields + [0x03, 0xf0, 0xdb, 0xdc, 0x41, 0xc0];
  }

  // ---- The loops -------------------------------------------------------------------------

  method KissToTnc2(raw: seq<byte>) returns (r: Option<seq<byte>>)
    ensures r == Tnc2OfKiss(raw)
  {
    var unstuffed := UnstuffLoop(raw);
    if |unstuffed| < 16 || unstuffed[0] != 0 {
      return None;
    }
    var read := ReadLoop(unstuffed);
    if read == None {
      return None;
    }
    var (addresses, offset) := read.value;
    if |addresses| < 2 || |addresses| > 10 || offset + 2 > |unstuffed| {
      return None;
    }
    if unstuffed[offset] != UI_CONTROL || unstuffed[offset + 1] != NO_LAYER_3 {
      return None;
    }
    var text := RenderLoop(Packet(addresses, unstuffed[offset + 2..]));
    return Some(text);
  }

  method UnstuffLoop(raw: seq<byte>) returns (unstuffed: seq<byte>)
    ensures unstuffed == Unstuff(raw)
  {
    hide Unstuff;
    unstuffed := [];
    var index := 0;
    assert raw[0..] == raw;
    while index < |raw|
      invariant 0 <= index <= |raw|
      invariant unstuffed + Unstuff(raw[index..]) == Unstuff(raw)
    {
      UnstuffStep(raw, index);
      if raw[index] == FESC && index + 1 < |raw| {
        if raw[index + 1] == TFEND {
          Moved(unstuffed, Unstuff(raw[index..]), [FEND], Unstuff(raw[index + 2..]));
          unstuffed := unstuffed + [FEND];
          index := index + 2;
          continue;
        } else if raw[index + 1] == TFESC {
          Moved(unstuffed, Unstuff(raw[index..]), [FESC], Unstuff(raw[index + 2..]));
          unstuffed := unstuffed + [FESC];
          index := index + 2;
          continue;
        }
      }
      Moved(unstuffed, Unstuff(raw[index..]), [raw[index]], Unstuff(raw[index + 1..]));
      unstuffed := unstuffed + [raw[index]];
      index := index + 1;
    }
    UnstuffStep(raw, index);
  }

  lemma UnstuffStep(s: seq<byte>, i: nat)
    requires i <= |s|
    ensures Unstuff(s[i..]) ==
            if i == |s| then []
            else if s[i] == FESC && i + 1 < |s| && s[i + 1] == TFEND then [FEND] + Unstuff(s[i + 2..])
            else if s[i] == FESC && i + 1 < |s| && s[i + 1] == TFESC then [FESC] + Unstuff(s[i + 2..])
            else [s[i]] + Unstuff(s[i + 1..])
  {
    if i < |s| { assert s[i..][1..] == s[i + 1..]; }
    if i + 1 < |s| { assert s[i..][2..] == s[i + 2..]; }
  }

  /** The address fields of an unstuffed frame, and where they end. */
  method ReadLoop(u: seq<byte>) returns (r: Option<(seq<Address>, nat)>)
    requires |u| >= 1
    ensures r.Some? ==> r.value.1 <= |u|
    ensures ReadAddresses(u[1..], 0) ==
            match r { case None => None case Some((addresses, end)) => Some((addresses, u[end..])) }
  {
    hide DecodeAddress;
    var offset := 1;
    var addresses: seq<Address> := [];
    assert forall rest: seq<Address> :: addresses + rest == rest;
    while true
      invariant 1 <= offset <= |u|
      invariant ReadAddresses(u[1..], 0) ==
                match ReadAddresses(u[offset..], |addresses|)
                case None => None
                case Some((rest, tail)) => Some((addresses + rest, tail))
      decreases |u| - offset
    {
      if offset + 7 > |u| || |addresses| >= 10 {
        return None;
      }
      var field := u[offset..offset + 7];
      assert u[offset..][..7] == field && u[offset..][7..] == u[offset + 7..];
      var decoded := DecodeAddress(field);
      if decoded == None {
        return None;
      }
      var grown := addresses + [decoded.value];
      assert forall rest :: addresses + ([decoded.value] + rest) == grown + rest;
      addresses := grown;
      offset := offset + 7;
      if IsLastField(field) {
        return Some((addresses, offset));
      }
    }
  }

  method RenderLoop(p: Packet) returns (text: seq<byte>)
    requires IsPacket(p)
    ensures text == Render(p)
  {
    hide CallText;
    assert p.addresses[0] in p.addresses && p.addresses[1] in p.addresses;
    var digis := DigipeaterLoop(p.addresses[2..]);
    text := CallText(p.addresses[1]) + [GREATER] + CallText(p.addresses[0]) + digis + [COLON] + p.payload;
    ghost var route := RouteTexts(p);
    assert route[1..] == DigipeaterTexts(p.addresses[2..]);
  }

  /** The digipeaters, each after a comma and starred when it has been used. */
  method DigipeaterLoop(digis: seq<Address>) returns (text: seq<byte>)
    requires AreAddresses(digis)
    ensures text == RouteTail(digis)
  {
    hide CallText, RouteTail;
    text := [];
    var i := 0;
    assert digis[0..] == digis;
    while i < |digis|
      invariant 0 <= i <= |digis|
      invariant AreAddresses(digis[i..])
      invariant text + RouteTail(digis[i..]) == RouteTail(digis)
    {
      assert digis[i] in digis;
      ghost var piece := [COMMA] + DigipeaterText(digis[i]);
      RouteTailStep(digis, i);
      Moved(text, RouteTail(digis[i..]), piece, RouteTail(digis[i + 1..]));
      ghost var before := text;
      text := text + [COMMA] + CallText(digis[i]);
      if digis[i].flag {
        text := text + [STAR];
      }
      assert text == before + piece;
      i := i + 1;
    }
    RouteTailStep(digis, i);
  }

  /** The digipeaters' part of a header. */
  function RouteTail(digis: seq<Address>): seq<byte>
    requires AreAddresses(digis)
  {
    JoinTail(DigipeaterTexts(digis), COMMA)
  }

  lemma RouteTailStep(digis: seq<Address>, i: nat)
    requires AreAddresses(digis) && i <= |digis|
    ensures AreAddresses(digis[i..])
    ensures i == |digis| ==> RouteTail(digis[i..]) == []
    ensures i < |digis| ==>
              && IsAddress(digis[i]) && AreAddresses(digis[i + 1..])
              && RouteTail(digis[i..]) == ([COMMA] + DigipeaterText(digis[i])) + RouteTail(digis[i + 1..])
  {
    hide CallText, DigipeaterText;
    if i < |digis| {
      assert digis[i] in digis;
      assert digis[i..][1..] == digis[i + 1..];
      var texts := DigipeaterTexts(digis[i..]);
      assert texts[1..] == DigipeaterTexts(digis[i + 1..]);
    }
  }

  method Tnc2ToKiss(frame: seq<byte>) returns (r: Option<seq<byte>>)
    ensures r == KissOfTnc2(frame)
  {
    var parsed := ParseTnc2(frame);
    if parsed == None {
      return None;
    }
    var p := parsed.value;
    var ax25 := EncodeLoop(p.addresses);
    ax25 := ax25 + [UI_CONTROL, NO_LAYER_3] + p.payload;
    var stuffed := StuffLoop(ax25);
    return Some([FEND] + stuffed + [FEND]);
  }

  method EncodeLoop(addresses: seq<Address>) returns (ax25: seq<byte>)
    requires AreAddresses(addresses)
    ensures ax25 == [0] + EncodeAddresses(addresses)
  {
    hide EncodeAddress, EncodeAddresses;
    ax25 := [0];
    var i := 0;
    assert addresses[0..] == addresses;
    while i < |addresses|
      invariant 0 <= i <= |addresses|
      invariant AreAddresses(addresses[i..])
      invariant ax25 + EncodeAddresses(addresses[i..]) == [0] + EncodeAddresses(addresses)
    {
      EncodeStep(addresses, i);
      ghost var field := EncodeAddress(addresses[i], i + 1 == |addresses|);
      Moved(ax25, EncodeAddresses(addresses[i..]), field, EncodeAddresses(addresses[i + 1..]));
      ax25 := ax25 + EncodeAddress(addresses[i], i + 1 == |addresses|);
      i := i + 1;
    }
    EncodeStep(addresses, i);
  }

  lemma EncodeStep(addresses: seq<Address>, i: nat)
    requires AreAddresses(addresses) && i <= |addresses|
    ensures AreAddresses(addresses[i..])
    ensures i == |addresses| ==> EncodeAddresses(addresses[i..]) == []
    ensures i < |addresses| ==>
              && IsAddress(addresses[i]) && AreAddresses(addresses[i + 1..])
              && EncodeAddresses(addresses[i..])
                 == EncodeAddress(addresses[i], i + 1 == |addresses|) + EncodeAddresses(addresses[i + 1..])
  {
    hide EncodeAddress;
    if i < |addresses| {
      assert addresses[i] in addresses;
      assert addresses[i..][1..] == addresses[i + 1..];
    }
  }

  method StuffLoop(ax25: seq<byte>) returns (stuffed: seq<byte>)
    ensures stuffed == Stuff(ax25)
  {
    hide Stuff;
    stuffed := [];
    var i := 0;
    assert ax25[0..] == ax25;
    while i < |ax25|
      invariant 0 <= i <= |ax25|
      invariant stuffed + Stuff(ax25[i..]) == Stuff(ax25)
    {
      StuffStep(ax25, i);
      Moved(stuffed, Stuff(ax25[i..]), StuffByte(ax25[i]), Stuff(ax25[i + 1..]));
      if ax25[i] == FEND {
        stuffed := stuffed + [FESC, TFEND];
      } else if ax25[i] == FESC {
        stuffed := stuffed + [FESC, TFESC];
      } else {
        stuffed := stuffed + [ax25[i]];
      }
      i := i + 1;
    }
    StuffStep(ax25, i);
  }

  lemma StuffStep(s: seq<byte>, i: nat)
    requires i <= |s|
    ensures Stuff(s[i..]) == if i < |s| then StuffByte(s[i]) + Stuff(s[i + 1..]) else []
  {
    if i < |s| { assert s[i..][1..] == s[i + 1..]; }
  }
}
