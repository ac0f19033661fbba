/**
 * The ASCII view the parser works on (src/packet/view.rs) and the restoration of UTF-8 text from the
 * raw packet afterwards (`restore_utf8_text_fields` in src/packet/parser.rs).
 *
 * A text with UTF-8 in it is held as its encoded bytes, one character for each byte.
 */
module View {
  import opened Text
  import opened Utf8

  const NON_ASCII: char := 0x7f as char
  const EXCLUDED_FF: char := 0x1f as char
  const COLON: byte := ':' as int

  function ViewByte(b: byte): char {
    if IsAscii(b) then b as char else if b == 0xff then EXCLUDED_FF else NON_ASCII
  }

  /** Every raw byte as the parser sees it. */
  function ViewOf(raw: seq<byte>): (view: string)
    ensures |view| == |raw| && forall k :: 0 <= k < |raw| ==> view[k] == ViewByte(raw[k])
  {
    seq(|raw|, k requires 0 <= k < |raw| => ViewByte(raw[k]))
  }

  /** The bytes of a text, one character for each. */
  function CharsOf(bytes: seq<byte>): (text: string)
    ensures |text| == |bytes| && forall k :: 0 <= k < |bytes| ==> text[k] == bytes[k] as char
  {
    seq(|bytes|, k requires 0 <= k < |bytes| => bytes[k] as char)
  }

  predicate OccursAt(text: string, value: string, i: nat) {
    i + |value| <= |text| && text[i..i + |value|] == value
  }

  /** The first occurrence of `value` at `from` or later. */
  function Find(text: string, value: string, from: nat): (r: Option<nat>)
    requires from <= |text|
    ensures r.Some? ==> from <= r.value && OccursAt(text, value, r.value)
    ensures r.Some? ==> forall i :: from <= i < r.value ==> !OccursAt(text, value, i)
    ensures r == None ==> forall i :: from <= i ==> !OccursAt(text, value, i)
    decreases |text| - from
  {
    if OccursAt(text, value, from) then Some(from)
    else if from == |text| then None
    else Find(text, value, from + 1)
  }

  /** The text field with its raw bytes put back, where that is safe. */
  function Restore(value: string, parserBody: string, rawBody: seq<byte>): (r: string)
    ensures |r| == |value|
  {
    if NON_ASCII !in value then value
    else
      match Find(parserBody, value, 0)
      case None => value
      case Some(offset) =>
        if Find(parserBody, value, offset + |value|).Some? then value
        else if offset + |value| > |rawBody| then value
        else
          var raw := rawBody[offset..offset + |value|];
          if IsUtf8(raw) then CharsOf(raw) else value
  }

  /** Header and body of a packet view. */
  function SplitPacket(view: string): Option<(string, string)> {
    match SplitOnce(view, ':')
    case None => None
    case Some((header, body)) => if body == "" then None else Some((header, body))
  }

  lemma ViewOfSlice(raw: seq<byte>, i: nat, j: nat)
    requires i <= j <= |raw|
    ensures ViewOf(raw[i..j]) == ViewOf(raw)[i..j]
  {
  }

  /** The view hides no separator and invents none: the raw body is found by its length alone. */
  lemma RawBodyByLength(raw: seq<byte>)
    ensures match SplitPacket(ViewOf(raw))
            case None => SplitOnce(raw, COLON).None? || SplitOnce(raw, COLON).value.1 == []
            case Some((header, body)) =>
              && |body| <= |raw|
              && var rawBody := raw[|raw| - |body|..];
              && SplitOnce(raw, COLON) == Some((raw[..|header|], rawBody))
              && ViewOf(rawBody) == body && ViewOf(raw[..|header|]) == header
  {
    var view := ViewOf(raw);
    var i := IndexOf(view, ':');
    SameIndex(raw);
    if i < |view| {
      ViewOfSlice(raw, 0, i);
      ViewOfSlice(raw, i + 1, |raw|);
      assert raw[i + 1..] == raw[i + 1..|raw|] && view[i + 1..] == view[i + 1..|view|];
      assert raw[..i] == raw[0..i] && view[..i] == view[0..i];
    }
  }

  lemma SameIndex(raw: seq<byte>)
    ensures IndexOf(ViewOf(raw), ':') == IndexOf(raw, COLON)
  {
    var view := ViewOf(raw);
    var i, j := IndexOf(view, ':'), IndexOf(raw, COLON);
    assert i < |raw| ==> raw[i] == COLON;
    assert j < |raw| ==> view[j] == ':';
  }

  /** What the parser sees of each byte: ASCII as it is, and one placeholder for 0xff and one for the others. */
  lemma ViewExactly(raw: seq<byte>, k: nat)
    requires k < |raw|
    ensures ViewOf(raw)[k] as int == if raw[k] <= 127 then raw[k] else if raw[k] == 255 then 31 else 127
  {
  }

  // ---- What restoration can do -----------------------------------------------------------

  /** `restored` is the raw text at `i`, valid UTF-8 that looks like `value` to the parser. */
  predicate IsRestoredFrom(restored: string, value: string, rawBody: seq<byte>, i: nat) {
    && i + |value| <= |rawBody|
    && var raw := rawBody[i..i + |value|];
    restored == CharsOf(raw) && IsUtf8(raw) && ViewOf(raw) == value
  }

  lemma RestoreIsSlice(value: string, rawBody: seq<byte>)
    ensures var restored := Restore(value, ViewOf(rawBody), rawBody);
            restored == value
            || (NON_ASCII in value && exists i :: IsRestoredFrom(restored, value, rawBody, i))
  {
    hide IsUtf8, ViewOf, CharsOf;
    var body := ViewOf(rawBody);
    var restored := Restore(value, body, rawBody);
    if restored != value {
      var offset := Find(body, value, 0).value;
      ViewOfSlice(rawBody, offset, offset + |value|);
      assert IsRestoredFrom(restored, value, rawBody, offset);
    }
  }

  /** A field changes only into valid UTF-8 from the raw body that looks the same to the parser. */
  lemma RestorationRefines(raw: seq<byte>, value: string)
    requires SplitPacket(ViewOf(raw)).Some?
    ensures var body := SplitPacket(ViewOf(raw)).value.1;
            |body| <= |raw| &&
            var rawBody := raw[|raw| - |body|..];
            var restored := Restore(value, body, rawBody);
            && (NON_ASCII !in value ==> restored == value)
            && (restored != value ==> exists i :: IsRestoredFrom(restored, value, rawBody, i))
  {
    hide IsUtf8, ViewOf, SplitPacket, Restore, IsRestoredFrom;
    RawBodyByLength(raw);
    var body := SplitPacket(ViewOf(raw)).value.1;
    RestoreIsSlice(value, raw[|raw| - |body|..]);
    if NON_ASCII !in value { NothingToRestore(value, body, raw[|raw| - |body|..]); }
  }

  lemma NothingToRestore(value: string, parserBody: string, rawBody: seq<byte>)
    requires NON_ASCII !in value
    ensures Restore(value, parserBody, rawBody) == value
  {
  }

  /** No two occurrences of `value` fit side by side. */
  predicate NoSecond(text: string, value: string, first: nat) {
    forall i :: first + |value| <= i <= |text| ==> !OccursAt(text, value, i)
  }

  lemma OccursInside(text: string, value: string, i: nat)
    requires OccursAt(text, value, i)
    ensures i + |value| <= |text|
  {
  }

  lemma FindIs(text: string, value: string, from: nat, i: nat)
    requires from <= i <= |text| && OccursAt(text, value, i)
    requires forall k :: from <= k < i ==> !OccursAt(text, value, k)
    ensures Find(text, value, from) == Some(i)
  {
    hide OccursAt, Find;
    var r := Find(text, value, from);
    assert r.Some?;
    assert !(i < r.value);
  }

  /** Exactly when a field is replaced by raw bytes. */
  lemma RestoredExactly(value: string, rawBody: seq<byte>, offset: nat)
    requires NON_ASCII in value
    requires OccursAt(ViewOf(rawBody), value, offset)
    requires forall i :: 0 <= i < offset ==> !OccursAt(ViewOf(rawBody), value, i)
    ensures offset + |value| <= |rawBody|
    ensures var slice := rawBody[offset..offset + |value|];
            Restore(value, ViewOf(rawBody), rawBody) ==
            if NoSecond(ViewOf(rawBody), value, offset) && IsUtf8(slice) then CharsOf(slice) else value
  {
    hide IsUtf8, ViewOf, CharsOf, OccursAt;
    var body := ViewOf(rawBody);
    assert |body| == |rawBody| && offset + |value| <= |body| by { OccursInside(body, value, offset); }
    FindIs(body, value, 0, offset);
    var second := Find(body, value, offset + |value|);
    if second.Some? { OccursInside(body, value, second.value); }
  }

  // ---- Texts at the end of a body --------------------------------------------------------

  /** A text with a character that is not in front of it occurs nowhere earlier. */
  lemma OccursOnlyBehind(front: string, value: string, x: char, i: nat)
    requires x in value && x !in front && i < |front|
    ensures !OccursAt(front + value, value, i)
  {
    var text, j := front + value, IndexOf(value, x);
    assert forall k :: 0 <= k < |front| ==> text[k] == front[k] && front[k] in front;
    assert forall k :: 0 <= k < j ==> text[|front| + k] == value[k];
    if i + |value| <= |text| {
      assert text[i..i + |value|][j] == text[i + j] != x;
    }
  }

  lemma {:induction false} Utf8HasNoFF(s: seq<byte>)
    requires IsUtf8(s)
    ensures 0xff !in s
    decreases |s|
  {
    if s != [] {
      var n := CharLength(s);
      Utf8HasNoFF(s[n..]);
      assert s == s[..n] + s[n..];
      assert forall k :: 0 <= k < n ==> s[k] != 0xff;
    }
  }

  lemma AsciiIsUtf8(s: seq<byte>)
    requires AllAscii(s)
    ensures IsUtf8(s)
  {
    AsciiPrefix(s, []);
    assert s + [] == s;
  }

  lemma AsciiView(s: seq<byte>)
    requires AllAscii(s)
    ensures ViewOf(s) == CharsOf(s)
  {
    assert forall k :: 0 <= k < |s| ==> s[k] in s;
  }

  /** What the text at the end of a body becomes, if nothing in front of it looks like a foreign byte. */
  lemma TailIsRestored(front: seq<byte>, text: seq<byte>)
    requires NON_ASCII !in ViewOf(front)
    ensures Restore(ViewOf(text), ViewOf(front + text), front + text)
            == if IsUtf8(text) then CharsOf(text) else ViewOf(text)
  {
    hide ViewOf, CharsOf, IsUtf8, Restore;
    var body, value := front + text, ViewOf(text);
    assert ViewOf(body) == ViewOf(front) + value by { ViewOfSlices(front, text); }
    if NON_ASCII in value {
      forall i | 0 <= i < |front| ensures !OccursAt(ViewOf(body), value, i) {
        OccursOnlyBehind(ViewOf(front), value, NON_ASCII, i);
      }
      assert OccursAt(ViewOf(body), value, |front|);
      RestoredExactly(value, body, |front|);
      assert body[|front|..|front| + |value|] == text;
      assert NoSecond(ViewOf(body), value, |front|);
    } else {
      NothingToRestore(value, ViewOf(body), body);
      if IsUtf8(text) { PlainUtf8(text); }
    }
  }

  lemma ViewOfSlices(front: seq<byte>, text: seq<byte>)
    ensures ViewOf(front + text) == ViewOf(front) + ViewOf(text)
  {
  }

  lemma PlainUtf8(text: seq<byte>)
    requires IsUtf8(text) && NON_ASCII !in ViewOf(text)
    ensures ViewOf(text) == CharsOf(text)
  {
    hide IsUtf8;
    Utf8HasNoFF(text);
    var view := ViewOf(text);
    forall k | 0 <= k < |text| ensures view[k] == text[k] as char {
      assert view[k] in view && text[k] in text;
    }
  }

  /** The view of a text that is not UTF-8 is never the text itself. */
  lemma ViewDiffers(text: seq<byte>)
    requires !IsUtf8(text)
    ensures exists k :: 0 <= k < |text| && text[k] >= 128
  {
    hide IsUtf8;
    if forall k :: 0 <= k < |text| ==> text[k] < 128 {
      assert AllAscii(text);
      AsciiIsUtf8(text);
    }
  }

  // ---- Overlapping occurrences -----------------------------------------------------------

  lemma AccentedPair(x: byte, y: byte)
    requires IsContinuation(x) && IsContinuation(y)
    ensures IsUtf8([0xc3, x, 'a' as int, 0xc3, y])
  {
    var s: seq<byte> := [0xc3, x, 'a' as int, 0xc3, y];
    assert s[2..] == ['a' as int, 0xc3, y];
    assert s[2..][1..] == [0xc3, y];
    assert s[2..][1..][2..] == [];
    assert IsUtf8(s[2..][1..]);
    assert IsUtf8(s[2..]);
  }

  /**
   * A restored field need not occur only once: occurrences that overlap the first are not looked for.
   * Here the text occurs twice, over different raw bytes, and the first ones are taken.
   */
  lemma OverlapIsNotSeen() returns (value: string, rawBody: seq<byte>)
    ensures |rawBody| == 8 && rawBody[0..5] != rawBody[3..8]
    ensures OccursAt(ViewOf(rawBody), value, 0) && OccursAt(ViewOf(rawBody), value, 3)
    ensures Restore(value, ViewOf(rawBody), rawBody) == CharsOf(rawBody[0..5]) != value
  {
    hide IsUtf8, Restore;
    var a: byte := 'a' as int;
    rawBody := [0xc3, 0xa9, a, 0xc3, 0xa8, a, 0xc3, 0xaa];
    value := [NON_ASCII, NON_ASCII, 'a', NON_ASCII, NON_ASCII];
    var body := ViewOf(rawBody);
    assert body == [NON_ASCII, NON_ASCII, 'a', NON_ASCII, NON_ASCII, 'a', NON_ASCII, NON_ASCII];
    assert body[0..5] == value && body[3..8] == value;
    assert value[0] == NON_ASCII;
    assert rawBody[0..5] == [0xc3, 0xa9, a, 0xc3, 0xa8];
    assert rawBody[3..8][1] != rawBody[0..5][1];
    assert CharsOf(rawBody[0..5])[0] != value[0];
    AccentedPair(0xa9, 0xa8);
    RestoredExactly(value, rawBody, 0);
  }
}
