/** Well-formed UTF-8, as RFC 3629 section 4 defines it. */
module Utf8 {
  import opened Text

  predicate IsContinuation(b: byte) { 0x80 <= b <= 0xbf }

  /** The length of the character encoded at the front of `s`, or 0 when there is none. */
  function CharLength(s: seq<byte>): (n: nat)
    ensures n <= 4 && n <= |s|
  {
    if s == [] then 0
    else if s[0] < 0x80 then 1
    else if |s| < 2 then 0
    else if 0xc2 <= s[0] <= 0xdf && IsContinuation(s[1]) then 2
    else if |s| < 3 || !IsContinuation(s[2]) then 0
    else if s[0] == 0xe0 && 0xa0 <= s[1] <= 0xbf then 3
    else if (0xe1 <= s[0] <= 0xec || 0xee <= s[0] <= 0xef) && IsContinuation(s[1]) then 3
    else if s[0] == 0xed && 0x80 <= s[1] <= 0x9f then 3
    else if |s| < 4 || !IsContinuation(s[3]) then 0
    else if s[0] == 0xf0 && 0x90 <= s[1] <= 0xbf then 4
    else if 0xf1 <= s[0] <= 0xf3 && IsContinuation(s[1]) then 4
    else if s[0] == 0xf4 && 0x80 <= s[1] <= 0x8f then 4
    else 0
  }

  predicate IsUtf8(s: seq<byte>)
    decreases |s|
  {
    s == [] || (CharLength(s) > 0 && IsUtf8(s[CharLength(s)..]))
  }

  predicate AllAscii(s: seq<byte>) {
    forall b :: b in s ==> IsAscii(b)
  }

  /** ASCII text in front changes nothing. */
  lemma {:induction false} AsciiPrefix(a: seq<byte>, s: seq<byte>)
    requires AllAscii(a)
    ensures IsUtf8(a + s) == IsUtf8(s)
  {
    if a == [] {
      assert a + s == s;
    } else {
      assert a[0] in a;
      assert (a + s)[1..] == a[1..] + s;
      AsciiPrefix(a[1..], s);
    }
  }

  // ---- The encoding itself ---------------------------------------------------------------

  /** A Unicode scalar value: a code point that is no surrogate. */
  predicate IsScalar(n: int) {
    0 <= n < 0xd800 || 0xe000 <= n <= 0x10_ffff
  }

  /** Its bytes: the table of RFC 3629, section 3. */
  function Encoded(n: int): (s: seq<byte>)
    requires IsScalar(n)
    ensures 1 <= |s| <= 4
  {
    if n < 0x80 then [n]
    else if n < 0x800 then [0xc0 + n / 64, 0x80 + n % 64]
    else if n < 0x1_0000 then [0xe0 + n / 4096, 0x80 + n / 64 % 64, 0x80 + n % 64]
    else [0xf0 + n / 262_144, 0x80 + n / 4096 % 64, 0x80 + n / 64 % 64, 0x80 + n % 64]
  }

  function EncodedText(scalars: seq<int>): seq<byte>
    requires forall n :: n in scalars ==> IsScalar(n)
  {
    if scalars == [] then [] else Encoded(scalars[0]) + EncodedText(scalars[1..])
  }

  lemma ScalarIsRead(n: int, rest: seq<byte>)
    requires IsScalar(n)
    ensures CharLength(Encoded(n) + rest) == |Encoded(n)|
  {
  }

  lemma CharIsScalar(s: seq<byte>) returns (n: int)
    requires CharLength(s) > 0
    ensures IsScalar(n) && Encoded(n) == s[..CharLength(s)]
  {
    var k := CharLength(s);
    if k == 1 { n := s[0]; }
    else if k == 2 { n := PairScalar(s[0], s[1]); }
    else if k == 3 { n := TripleScalar(s[0], s[1], s[2]); }
    else { n := QuadrupleScalar(s[0], s[1], s[2], s[3]); }
  }

  lemma PairScalar(a: int, b: int) returns (n: int)
    requires 0xc2 <= a <= 0xdf && 0x80 <= b <= 0xbf
    ensures IsScalar(n) && Encoded(n) == [a, b]
  {
    n := (a - 0xc0) * 64 + (b - 0x80);
    assert n / 64 == a - 0xc0;
  }

  lemma TripleScalar(a: int, b: int, c: int) returns (n: int)
    requires 0xe0 <= a <= 0xef && 0x80 <= b <= 0xbf && 0x80 <= c <= 0xbf
    requires (a == 0xe0 ==> b >= 0xa0) && (a == 0xed ==> b < 0xa0)
    ensures IsScalar(n) && Encoded(n) == [a, b, c]
  {
    n := ((a - 0xe0) * 64 + (b - 0x80)) * 64 + (c - 0x80);
    assert n / 64 == (a - 0xe0) * 64 + (b - 0x80);
    assert n / 4096 == a - 0xe0;
  }

  lemma QuadrupleScalar(a: int, b: int, c: int, d: int) returns (n: int)
    requires 0xf0 <= a <= 0xf4 && 0x80 <= b <= 0xbf && 0x80 <= c <= 0xbf && 0x80 <= d <= 0xbf
    requires (a == 0xf0 ==> b >= 0x90) && (a == 0xf4 ==> b < 0x90)
    ensures IsScalar(n) && Encoded(n) == [a, b, c, d]
  {
    n := (((a - 0xf0) * 64 + (b - 0x80)) * 64 + (c - 0x80)) * 64 + (d - 0x80);
    assert n / 64 == ((a - 0xf0) * 64 + (b - 0x80)) * 64 + (c - 0x80);
    assert n / 4096 == (a - 0xf0) * 64 + (b - 0x80);
    assert n / 262_144 == a - 0xf0;
  }

  /** Every text of scalar values is accepted. */
  lemma {:induction false} EncodedIsUtf8(scalars: seq<int>)
    requires forall n :: n in scalars ==> IsScalar(n)
    ensures IsUtf8(EncodedText(scalars))
  {
    hide CharLength, Encoded;
    if scalars != [] {
      var s := EncodedText(scalars);
      ScalarIsRead(scalars[0], EncodedText(scalars[1..]));
      EncodedIsUtf8(scalars[1..]);
      assert s[|Encoded(scalars[0])|..] == EncodedText(scalars[1..]);
    }
  }

  /** And nothing else is. */
  lemma {:induction false} Utf8IsEncoded(s: seq<byte>) returns (scalars: seq<int>)
    requires IsUtf8(s)
    ensures (forall n :: n in scalars ==> IsScalar(n)) && EncodedText(scalars) == s
    decreases |s|
  {
    hide CharLength, Encoded, IsScalar;
    scalars := [];
    if s != [] {
      var n := CharIsScalar(s);
      var k := CharLength(s);
      var rest := Utf8IsEncoded(s[k..]);
      scalars := [n] + rest;
      assert scalars[1..] == rest && s == s[..k] + s[k..];
    }
  }
}
