/** ASCII text: the character classes, trims and searches the parser uses. */
module Chars {
  import opened Text

  predicate IsDigitChar(c: char) { '0' <= c <= '9' }

  function DigitChar(n: int): (c: char)
    requires 0 <= n <= 9
    ensures IsDigitChar(c)
  {
    '0' + n as char
  }

  predicate IsUpperChar(c: char) { 'A' <= c <= 'Z' }

  predicate IsLowerChar(c: char) { 'a' <= c <= 'z' }

  predicate IsAlphabeticChar(c: char) { IsUpperChar(c) || IsLowerChar(c) }

  predicate IsAlphanumericChar(c: char) { IsAlphabeticChar(c) || IsDigitChar(c) }

  function UpperChar(c: char): char {
    if IsLowerChar(c) then c - 32 as char else c
  }

  /** White space of `str::trim`, restricted to ASCII: tab to carriage return, and space. */
  predicate IsSpace(c: char) { c == ' ' || 9 as char <= c <= 13 as char }

  function TrimEnd(s: string): (r: string)
    ensures r <= s
    ensures r == s || (|r| < |s| && IsSpace(s[|s| - 1]))
    ensures r != "" ==> !IsSpace(r[|r| - 1])
  {
    if s != "" && IsSpace(s[|s| - 1]) then TrimEnd(s[..|s| - 1]) else s
  }

  function TrimStart(s: string): (r: string)
    ensures |r| <= |s|
    ensures r == s || IsSpace(s[0])
    ensures r != "" ==> !IsSpace(r[0])
  {
    if s != "" && IsSpace(s[0]) then
      TrimStart(s[1..])
    else s
  }

  lemma {:induction false} TrimStartIsSuffix(s: string)
    ensures TrimStart(s) == s[|s| - |TrimStart(s)|..]
  {
    if s != "" && IsSpace(s[0]) {
      TrimStartIsSuffix(s[1..]);
      var r := TrimStart(s);
      assert s[1..][|s| - 1 - |r|..] == s[|s| - |r|..];
    }
  }

  function Trim(s: string): string {
    TrimStart(TrimEnd(s))
  }

  lemma {:induction false} TrimEndSpaces(s: string, w: string)
    requires forall c :: c in w ==> IsSpace(c)
    ensures TrimEnd(s + w) == TrimEnd(s)
  {
    if w == "" {
      assert s + w == s;
    } else {
      assert w[|w| - 1] in w;
      assert (s + w)[..|s + w| - 1] == s + w[..|w| - 1];
      TrimEndSpaces(s, w[..|w| - 1]);
    }
  }

  /** Trimming stops at a character that is not white space. */
  lemma {:induction false} TrimEndAfter(a: string, c: char, b: string)
    requires !IsSpace(c)
    ensures TrimEnd(a + [c] + b) == a + [c] + TrimEnd(b)
  {
    var s := a + [c] + b;
    if b != "" && IsSpace(b[|b| - 1]) {
      assert s[..|s| - 1] == a + [c] + b[..|b| - 1];
      TrimEndAfter(a, c, b[..|b| - 1]);
    } else if b == "" {
      assert s[|s| - 1] == c;
      assert s == a + [c] + TrimEnd(b);
    } else {
      assert s[|s| - 1] == b[|b| - 1];
    }
  }

  /** The six characters that are trimmed. */
  predicate AllSpace(s: string) {
    forall k :: 0 <= k < |s| ==> s[k] as int in {9, 10, 11, 12, 13, 32}
  }

  lemma {:induction false} TrimStartSpaces(w: string, s: string)
    requires AllSpace(w)
    ensures TrimStart(w + s) == TrimStart(s)
  {
    if w == "" {
      assert w + s == s;
    } else {
      assert (w + s)[1..] == w[1..] + s;
      TrimStartSpaces(w[1..], s);
    }
  }

  /** No white space at either end. */
  predicate IsTrimmed(text: string) {
    text != "" ==> !AllSpace([text[0]]) && !AllSpace([text[|text| - 1]])
  }

  lemma SpacesExactly(c: char)
    ensures AllSpace([c]) <==> IsSpace(c)
  {
    assert [c][0] == c;
  }

  lemma TrimEndExactly(text: string, after: string)
    requires AllSpace(after) && IsTrimmed(text)
    ensures TrimEnd(text + after) == text
  {
    TrimEndSpaces(text, after);
    if text != "" { assert [text[|text| - 1]][0] == text[|text| - 1]; }
  }

  lemma TrimStartExactly(before: string, text: string)
    requires AllSpace(before) && IsTrimmed(text)
    ensures TrimStart(before + text) == text
  {
    TrimStartSpaces(before, text);
    if text != "" { assert [text[0]][0] == text[0]; }
  }

  /** Trimming takes the white space around a text and nothing else. */
  lemma TrimExactly(before: string, text: string, after: string)
    requires AllSpace(before) && AllSpace(after) && IsTrimmed(text)
    ensures Trim(before + text + after) == text
    ensures TrimEnd(text + after) == text && TrimStart(before + text) == text
  {
    hide TrimEnd, TrimStart, IsTrimmed;
    TrimEndExactly(text, after);
    TrimStartExactly(before, text);
    if text == "" {
      assert IsTrimmed("") by { Nothing(); }
      assert "" + (before + after) == before + text + after;
      TrimEndExactly("", before + after);
      TrimStartExactly("", "");
    } else {
      TrimEndSpaces(before + text, after);
      EndsTrimmed(before, text);
    }
  }

  lemma Nothing()
    ensures IsTrimmed("") && "" + "" == ""
  {
  }

  lemma EndsTrimmed(before: string, text: string)
    requires text != "" && IsTrimmed(text)
    ensures TrimEnd(before + text) == before + text
  {
    assert [text[|text| - 1]][0] == text[|text| - 1];
  }

  function StripPrefix(s: string, prefix: string): Option<string> {
    if prefix <= s then Some(s[|prefix|..]) else None
  }

  /** The position of the last `x`, or -1. */
  function LastIndexOf(s: string, x: char): (i: int)
    ensures -1 <= i < |s|
    ensures i >= 0 ==> s[i] == x
    ensures forall k :: i < k < |s| ==> s[k] != x
  {
    if s == "" then -1
    else if s[|s| - 1] == x then |s| - 1
    else LastIndexOf(s[..|s| - 1], x)
  }

  /** Split around the last `x`. */
  function RSplitOnce(s: string, x: char): (r: Option<(string, string)>)
    ensures r.Some? <==> x in s
    ensures r.Some? ==> s == r.value.0 + [x] + r.value.1 && x !in r.value.1
  {
    var i := LastIndexOf(s, x);
    if i >= 0 then Some((s[..i], s[i + 1..])) else None
  }

  lemma RSplitOnceAt(a: string, x: char, b: string)
    requires x !in b
    ensures RSplitOnce(a + [x] + b, x) == Some((a, b))
  {
    var s := a + [x] + b;
    assert s[|a|] == x;
    assert forall k :: |a| < k < |s| ==> s[k] == b[k - |a| - 1];
    assert s[..|a|] == a && s[|a| + 1..] == b;
  }
}
