/** Bytes, optional results and the sequence operations the codec shares. */
module Text {

  type byte = x: int | 0 <= x < 256

  datatype Option<+T> = None | Some(value: T)

  datatype Result<+T, +E> = Ok(value: T) | Err(error: E)

  // ---- Splitting -------------------------------------------------------------------------

  /** The position of the first `x` in `s`, or the length of `s` when there is none. */
  function IndexOf<T(==)>(s: seq<T>, x: T): (i: nat)
    ensures i <= |s|
    ensures i < |s| ==> s[i] == x
    ensures forall k :: 0 <= k < i ==> s[k] != x
  {
    if s == [] || s[0] == x then 0 else 1 + IndexOf(s[1..], x)
  }

  /** Split around the first `x`. */
  function SplitOnce<T(==)>(s: seq<T>, x: T): (r: Option<(seq<T>, seq<T>)>)
    ensures r.Some? <==> x in s
    ensures r.Some? ==> s == r.value.0 + [x] + r.value.1 && x !in r.value.0
  {
    var i := IndexOf(s, x);
    if i < |s| then Some((s[..i], s[i + 1..])) else None
  }

  lemma IndexOfAt<T>(a: seq<T>, x: T, b: seq<T>)
    requires x !in a
    ensures IndexOf(a + [x] + b, x) == |a|
  {
    var s := a + [x] + b;
    assert s[|a|] == x;
    assert forall k :: 0 <= k < |a| ==> s[k] == a[k];
  }

  lemma SplitOnceAt<T>(a: seq<T>, x: T, b: seq<T>)
    requires x !in a
    ensures SplitOnce(a + [x] + b, x) == Some((a, b))
  {
    IndexOfAt(a, x, b);
    var s := a + [x] + b;
    assert s[..|a|] == a && s[|a| + 1..] == b;
  }

  /** Split at every `x`; always at least one part. */
  function Split<T(==)>(s: seq<T>, x: T): (parts: seq<seq<T>>)
    ensures |parts| >= 1
    decreases |s|
  {
    var i := IndexOf(s, x);
    if i < |s| then [s[..i]] + Split(s[i + 1..], x) else [s]
  }

  /** Each part preceded by `x`. */
  function JoinTail<T>(parts: seq<seq<T>>, x: T): seq<T> {
    if parts == [] then [] else [x] + parts[0] + JoinTail(parts[1..], x)
  }

  /** The parts with `x` between them. */
  function Join<T>(parts: seq<seq<T>>, x: T): seq<T>
    requires |parts| >= 1
  {
    parts[0] + JoinTail(parts[1..], x)
  }

  lemma Assoc<T>(a: seq<T>, b: seq<T>, c: seq<T>)
    ensures (a + b) + c == a + (b + c)
  {
  }

  /** A loop that has moved `piece` from the front of what is left to its accumulator. */
  lemma Moved<T>(done: seq<T>, left: seq<T>, piece: seq<T>, rest: seq<T>)
    requires left == piece + rest
    ensures (done + piece) + rest == done + left
  {
  }

  lemma SliceOfPrefix<T>(s: seq<T>, n: nat, i: nat, j: nat)
    requires i <= j <= n <= |s|
    ensures s[..n][i..j] == s[i..j]
  {
  }

  lemma SliceOfSuffix<T>(s: seq<T>, n: nat, i: nat, j: nat)
    requires i <= j && n + j <= |s|
    ensures s[n..][i..j] == s[n + i..n + j]
  {
  }

  lemma JoinCons<T>(first: seq<T>, parts: seq<seq<T>>, x: T)
    requires |parts| >= 1
    ensures Join([first] + parts, x) == first + [x] + Join(parts, x)
  {
    var all := [first] + parts;
    assert all[1..] == parts;
    Assoc([x], parts[0], JoinTail(parts[1..], x));
    Assoc(first, [x], Join(parts, x));
  }

  lemma {:induction false} SplitJoin<T>(parts: seq<seq<T>>, x: T)
    requires |parts| >= 1
    requires forall p :: p in parts ==> x !in p
    ensures Split(Join(parts, x), x) == parts
    decreases |parts|
  {
    hide IndexOf;
    var s := Join(parts, x);
    assert parts[0] in parts;
    if |parts| == 1 {
      assert s == parts[0];
    } else {
      assert parts == [parts[0]] + parts[1..];
      JoinCons(parts[0], parts[1..], x);
      var rest := Join(parts[1..], x);
      IndexOfAt(parts[0], x, rest);
      assert s[..|parts[0]|] == parts[0] && s[|parts[0]| + 1..] == rest;
      SplitJoin(parts[1..], x);
    }
  }

  lemma SplitStep<T>(s: seq<T>, x: T)
    ensures var i := IndexOf(s, x); Split(s, x) == if i < |s| then [s[..i]] + Split(s[i + 1..], x) else [s]
  {
    hide IndexOf;
    var parts := Split(s, x);
  }

  /** Splitting loses nothing. */
  lemma {:induction false} JoinSplit<T>(s: seq<T>, x: T)
    ensures Join(Split(s, x), x) == s
    decreases |s|
  {
    hide IndexOf, Split, Join;
    var i := IndexOf(s, x);
    SplitStep(s, x);
    if i < |s| {
      JoinSplit(s[i + 1..], x);
      JoinCons(s[..i], Split(s[i + 1..], x), x);
    } else {
      JoinOne(s, x);
    }
  }

  lemma JoinOne<T>(s: seq<T>, x: T)
    ensures Join([s], x) == s
  {
  }

  /** No part of a split holds the separator. */
  lemma {:induction false} PartsAreFree<T>(s: seq<T>, x: T)
    ensures forall p :: p in Split(s, x) ==> x !in p
    decreases |s|
  {
    hide IndexOf, Split;
    var i := IndexOf(s, x);
    SplitStep(s, x);
    assert x !in s[..i];
    if i < |s| { PartsAreFree(s[i + 1..], x); } else { assert s[..i] == s; }
  }

  // ---- ASCII -----------------------------------------------------------------------------

  predicate IsAscii(b: byte) { b < 128 }

  predicate IsUpper(b: byte) { 'A' as int <= b <= 'Z' as int }

  predicate IsLower(b: byte) { 'a' as int <= b <= 'z' as int }

  predicate IsDigit(b: byte) { '0' as int <= b <= '9' as int }

  predicate IsAlphanumeric(b: byte) { IsUpper(b) || IsLower(b) || IsDigit(b) }

  /** The number a run of decimal digits denotes. */
  function DigitsValue(s: seq<byte>): nat
    requires forall b :: b in s ==> IsDigit(b)
  {
    if s == [] then 0
    else
      assert IsDigit(s[|s| - 1]) by { assert s[|s| - 1] in s; }
      10 * DigitsValue(s[..|s| - 1]) + (s[|s| - 1] - '0' as int)
  }
}
