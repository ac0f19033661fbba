/**
 * Inline base-91 telemetry between two pipes: `parse_base91_telemetry` (src/packet/parser.rs),
 * `strip_inline_telemetry` and `inline_telemetry_end` (src/position.rs).
 */
module Telemetry {
  import opened Text
  import opened Chars

  datatype Telemetry = Telemetry(sequence: Option<int>, values: seq<Option<int>>, bits: Option<string>)

  // ---- Where the telemetry is ------------------------------------------------------------

  predicate IsBase91Char(c: char) { '!' <= c <= '{' }

  predicate IsPayload(s: string) {
    4 <= |s| <= 14 && |s| % 2 == 0 && forall c :: c in s ==> IsBase91Char(c)
  }

  predicate IsPair(comment: string, first: int, last: int) {
    && 0 <= first < last < |comment|
    && comment[first] == '|' && comment[last] == '|'
    && IsPayload(comment[first + 1..last])
  }

  /** Whether `pair` is the valid pair that closes last, or there is none. */
  ghost predicate IsLastPair(comment: string, pair: Option<(nat, nat)>) {
    match pair
    case None => forall first, last :: !IsPair(comment, first, last)
    case Some((f, l)) =>
      && IsPair(comment, f, l)
      && forall first, last :: IsPair(comment, first, last) ==> last < l || (last == l && first == f)
  }

  /** A payload is two to seven pairs of base-91 digits. */
  lemma PayloadsExactly(s: string)
    ensures IsPayload(s) <==> |s| in {4, 6, 8, 10, 12, 14} && forall k :: 0 <= k < |s| ==> 33 <= s[k] as int <= 123
  {
    if IsPayload(s) { assert forall k :: 0 <= k < |s| ==> s[k] in s; }
  }

  /** One scan from the end over neighbouring pipes. */
  function LastPair(comment: string): (r: Option<(nat, nat)>)
    ensures r.Some? ==> IsPair(comment, r.value.0, r.value.1)
    decreases |comment|
  {
    var last := LastIndexOf(comment, '|');
    if last < 0 then None
    else
      var first := LastIndexOf(comment[..last], '|');
      if first < 0 then None
      else if IsPayload(comment[first + 1..last]) then Some((first, last))
      else LastPair(comment[..last])
  }

  /** The pipes of a pair are neighbours: a payload holds no pipe. */
  lemma PairsAreAdjacent(comment: string, first: int, last: int)
    requires IsPair(comment, first, last)
    ensures forall k :: first < k < last ==> comment[k] != '|'
  {
    var payload := comment[first + 1..last];
    forall k | first < k < last ensures comment[k] != '|' {
      assert comment[k] == payload[k - first - 1] && payload[k - first - 1] in payload;
    }
  }

  lemma PairInPrefix(comment: string, end: nat, first: int, last: int)
    requires end <= |comment|
    ensures IsPair(comment[..end], first, last) <==> IsPair(comment, first, last) && last < end
  {
    if 0 <= first < last < end {
      assert comment[..end][first + 1..last] == comment[first + 1..last];
    }
  }

  /** A pair closes at the last pipe or earlier, and at the last one it opens at its neighbour. */
  lemma PairsCloseBefore(comment: string, l: nat, f: int, first: int, last: int)
    requires l < |comment| && l == LastIndexOf(comment, '|') && f == LastIndexOf(comment[..l], '|')
    requires IsPair(comment, first, last)
    ensures last <= l && (last == l ==> first == f)
  {
    hide IsPayload, LastIndexOf;
    PairsAreAdjacent(comment, first, last);
    if last == l {
      assert comment[..l][first] == '|';
      assert forall k :: 0 <= k < l ==> comment[..l][k] == comment[k];
    }
  }

  /** The scan over neighbours finds the valid pair that closes last. */
  lemma {:induction false} LastPairIsLast(comment: string)
    ensures IsLastPair(comment, LastPair(comment))
    decreases |comment|
  {
    hide IsPayload, IsPair;
    var l := LastIndexOf(comment, '|');
    if l < 0 {
      forall first, last ensures !IsPair(comment, first, last) {
        PairHasPipes(comment, first, last);
      }
    } else {
      var f := LastIndexOf(comment[..l], '|');
      forall first, last | IsPair(comment, first, last) ensures last <= l && (last == l ==> first == f) {
        PairsCloseBefore(comment, l, f, first, last);
      }
      if f < 0 {
        forall first, last ensures !IsPair(comment, first, last) {
          PairHasPipes(comment, first, last);
        }
      } else if !IsPayload(comment[f + 1..l]) {
        LastPairIsLast(comment[..l]);
        assert !IsPair(comment, f, l) by { NoPayloadNoPair(comment, f, l); }
        forall first, last ensures IsPair(comment[..l], first, last) <==> IsPair(comment, first, last) && last < l {
          PairInPrefix(comment, l, first, last);
        }
      }
    }
  }

  lemma PairHasPipes(comment: string, first: int, last: int)
    ensures IsPair(comment, first, last) ==>
              0 <= first < last <= LastIndexOf(comment, '|') && first <= LastIndexOf(comment[..last], '|')
  {
    hide IsPayload;
    if IsPair(comment, first, last) { assert comment[..last][first] == '|'; }
  }

  lemma NoPayloadNoPair(comment: string, first: nat, last: nat)
    requires first < last < |comment| && !IsPayload(comment[first + 1..last])
    ensures !IsPair(comment, first, last)
  {
  }

  lemma LastPairUnique(comment: string, a: Option<(nat, nat)>, b: Option<(nat, nat)>)
    requires IsLastPair(comment, a) && IsLastPair(comment, b)
    ensures a == b
  {
  }

  // ---- The nested search -----------------------------------------------------------------

  method PipesOf(comment: string) returns (pipes: seq<nat>)
    ensures ArePipes(comment, pipes)
  {
    pipes := [];
    for index := 0 to |comment|
      invariant forall i, j :: 0 <= i < j < |pipes| ==> pipes[i] < pipes[j]
      invariant forall i :: 0 <= i < |pipes| ==> pipes[i] < index && comment[pipes[i]] == '|'
      invariant forall k :: 0 <= k < index && comment[k] == '|' ==> k in pipes
    {
      if comment[index] == '|' {
        pipes := pipes + [index];
      }
    }
  }

  /** Every closing pipe from the last, and for each every opening pipe before it from the nearest. */
  method SelectPair(comment: string) returns (pair: Option<(nat, nat)>)
    ensures pair == LastPair(comment)
  {
    hide IsPair, IsLastPair, ArePipes, NoneFrom, LastPair;
    var pipes := PipesOf(comment);
    NoneFromEnd(comment, pipes);
    LastPairIsLast(comment);
    var closing := |pipes|;
    while closing > 0
      invariant 0 <= closing <= |pipes|
      invariant NoneFrom(comment, pipes, closing)
    {
      closing := closing - 1;
      var opening := SelectOpening(comment, pipes, closing);
      if opening.Some? {
        pair := Some((pipes[opening.value], pipes[closing]));
        PairIsLast(comment, pipes, opening.value, closing);
        LastPairUnique(comment, pair, LastPair(comment));
        return;
      }
      NoneFromEarlier(comment, pipes, closing);
    }
    NoPairs(comment, pipes);
    LastPairUnique(comment, None, LastPair(comment));
    return None;
  }

  ghost predicate ArePipes(comment: string, pipes: seq<nat>) {
    && (forall i, j :: 0 <= i < j < |pipes| ==> pipes[i] < pipes[j])
    && (forall i :: 0 <= i < |pipes| ==> pipes[i] < |comment| && comment[pipes[i]] == '|')
    && (forall k :: 0 <= k < |comment| && comment[k] == '|' ==> k in pipes)
  }

  /** No pair closes at a pipe numbered `closing` or later. */
  ghost predicate NoneFrom(comment: string, pipes: seq<nat>, closing: nat) {
    forall i, j :: 0 <= i < j < |pipes| && closing <= j ==> !IsPair(comment, pipes[i], pipes[j])
  }

  lemma PipesAreIndices(comment: string, pipes: seq<nat>, closing: nat)
    requires ArePipes(comment, pipes) && closing < |pipes|
    ensures pipes[closing] < |comment|
    ensures forall i :: 0 <= i < closing ==> pipes[i] < pipes[closing]
  {
  }

  lemma NoneFromEnd(comment: string, pipes: seq<nat>)
    ensures NoneFrom(comment, pipes, |pipes|)
  {
  }

  lemma NoneFromEarlier(comment: string, pipes: seq<nat>, closing: nat)
    requires closing < |pipes| && NoneFrom(comment, pipes, closing + 1)
    requires forall i :: 0 <= i < closing ==> !IsPair(comment, pipes[i], pipes[closing])
    ensures NoneFrom(comment, pipes, closing)
  {
    hide IsPair;
  }

  method SelectOpening(comment: string, pipes: seq<nat>, closing: nat) returns (opening: Option<nat>)
    requires ArePipes(comment, pipes) && closing < |pipes|
    ensures opening.Some? ==> opening.value < closing && IsPair(comment, pipes[opening.value], pipes[closing])
    ensures opening == None ==> forall i :: 0 <= i < closing ==> !IsPair(comment, pipes[i], pipes[closing])
  {
    hide IsPayload;
    var index := closing;
    while index > 0
      invariant 0 <= index <= closing
      invariant forall i :: index <= i < closing ==> !IsPair(comment, pipes[i], pipes[closing])
    {
      index := index - 1;
      var first, last := pipes[index], pipes[closing];
      if IsPayload(comment[first + 1..last]) {
        return Some(index);
      }
    }
    return None;
  }

  lemma PairAmongPipes(comment: string, pipes: seq<nat>, first: int, last: int) returns (i: nat, j: nat)
    requires ArePipes(comment, pipes) && IsPair(comment, first, last)
    ensures i < j < |pipes| && pipes[i] == first && pipes[j] == last
  {
    hide IsPayload;
    assert first in pipes && last in pipes;
    i :| 0 <= i < |pipes| && pipes[i] == first;
    j :| 0 <= j < |pipes| && pipes[j] == last;
  }

  lemma NoPairs(comment: string, pipes: seq<nat>)
    requires ArePipes(comment, pipes) && NoneFrom(comment, pipes, 0)
    ensures IsLastPair(comment, None)
  {
    hide IsPair, ArePipes;
    forall first, last ensures !IsPair(comment, first, last) {
      if IsPair(comment, first, last) {
        var i, j := PairAmongPipes(comment, pipes, first, last);
      }
    }
  }

  lemma PairIsLast(comment: string, pipes: seq<nat>, opening: nat, closing: nat)
    requires ArePipes(comment, pipes) && opening < closing < |pipes|
    requires IsPair(comment, pipes[opening], pipes[closing]) && NoneFrom(comment, pipes, closing + 1)
    ensures IsLastPair(comment, Some((pipes[opening], pipes[closing])))
  {
    forall first, last | IsPair(comment, first, last)
      ensures last < pipes[closing] || (last == pipes[closing] && first == pipes[opening])
    {
      var i, j := PairAmongPipes(comment, pipes, first, last);
      assert j <= closing;
      if j < closing { assert pipes[j] < pipes[closing]; }
      else { SameOpening(comment, first, pipes[opening], last); }
    }
  }

  lemma SameOpening(comment: string, a: int, b: int, last: int)
    requires IsPair(comment, a, last) && IsPair(comment, b, last)
    ensures a == b
  {
    hide IsPayload;
    PairsAreAdjacent(comment, a, last);
    PairsAreAdjacent(comment, b, last);
  }

  /** The search of `inline_telemetry_end`: the first closing pipe with a payload before it. */
  method InlineTelemetryEnd(data: string, start: nat) returns (r: Option<nat>)
    requires start < |data| && data[start] == '|'
    ensures r == TelemetryEnd(data, start)
  {
    hide IsPayload;
    var next := start + 1 + IndexOf(data[start + 1..], '|');
    assert forall k :: start < k < next ==> data[k] == data[start + 1..][k - start - 1];
    for end := start + 1 to |data|
      invariant forall k :: start < k < end ==> !IsPair(data, start, k)
    {
      if data[end] == '|' && IsPayload(data[start + 1..end]) {
        PairsAreAdjacent(data, start, end);
        assert next == end;
        return Some(end + 1);
      }
    }
    assert next < |data| ==> !IsPair(data, start, next);
    return None;
  }

  /** Past the telemetry opened at `start`, if the very next pipe closes it. */
  function TelemetryEnd(data: string, start: nat): (r: Option<nat>)
    requires start < |data| && data[start] == '|'
    ensures r.Some? ==> start < r.value <= |data|
  {
    var next := start + 1 + IndexOf(data[start + 1..], '|');
    if next < |data| && IsPayload(data[start + 1..next]) then Some(next + 1) else None
  }

  // ---- What the telemetry says -----------------------------------------------------------

  function DecodePair(s: string): int
    requires |s| == 2
  {
    (s[0] as int - 33) * 91 + (s[1] as int - 33)
  }

  const POWERS: seq<int> := [1, 2, 4, 8, 16, 32, 64, 128]

  /** Bit `i` of `value & 0xff`, lowest first, as text. */
  function BitsText(value: int): string
    requires value >= 0
  {
    seq(8, i requires 0 <= i < 8 => if value / POWERS[i] % 2 == 1 then '1' else '0')
  }

  function Pair(data: string, index: nat): (pair: string)
    requires 2 * index + 2 <= |data|
    ensures |pair| == 2
  {
    data[2 * index..2 * index + 2]
  }

  function DecodePayload(data: string): Telemetry
    requires IsPayload(data)
  {
    var pairs := |data| / 2;
    assert forall k :: 0 <= k < |data| ==> data[k] in data;
    Telemetry(Some(DecodePair(Pair(data, 0))),
              seq(5, i requires 0 <= i < 5 => if i + 1 < pairs then Some(DecodePair(Pair(data, i + 1))) else None),
              if pairs == 7 then Some(BitsText(DecodePair(Pair(data, 6)))) else None)
  }

  /** The comment without the span of a pair. */
  function Without(comment: string, pair: (nat, nat)): string
    requires pair.0 < pair.1 < |comment|
  {
    comment[..pair.0] + comment[pair.1 + 1..]
  }

  /** `strip_inline_telemetry`. */
  function StripInlineTelemetry(comment: string): string {
    match LastPair(comment)
    case None => comment
    case Some(pair) => Without(comment, pair)
  }

  /** `parse_base91_telemetry`: the telemetry, if any, and the comment left. */
  function ParseInlineTelemetry(comment: string): (Option<Telemetry>, string) {
    match LastPair(comment)
    case None => (None, comment)
    case Some(pair) =>
      (Some(DecodePayload(comment[pair.0 + 1..pair.1])), Trim(Without(comment, pair)))
  }

  /** Both remove the same span, one of them trimming what is left. */
  lemma SameSpanRemoved(comment: string)
    ensures var (telemetry, left) := ParseInlineTelemetry(comment);
            left == if telemetry.Some? then Trim(StripInlineTelemetry(comment)) else StripInlineTelemetry(comment)
  {
  }

  /** The search of `strip_inline_telemetry`, which returns from inside both loops, and what it has in common with the decoder. */
  method StripLoop(comment: string) returns (r: string)
    ensures r == StripInlineTelemetry(comment)
    ensures var (telemetry, left) := ParseInlineTelemetry(comment);
            left == if telemetry.Some? then Trim(r) else r
  {
    hide IsPair, IsLastPair, ArePipes, NoneFrom, LastPair, DecodePayload, Trim;
    var pipes := PipesOf(comment);
    NoneFromEnd(comment, pipes);
    LastPairIsLast(comment);
    SameSpanRemoved(comment);
    for closing := |pipes| downto 0
      invariant NoneFrom(comment, pipes, closing)
    {
      var opening := SelectOpening(comment, pipes, closing);
      if opening.Some? {
        var first, last := pipes[opening.value], pipes[closing];
        PairIsLast(comment, pipes, opening.value, closing);
        LastPairUnique(comment, Some((first, last)), LastPair(comment));
        PipesAreIndices(comment, pipes, closing);
        return comment[..first] + comment[last + 1..];
      }
      NoneFromEarlier(comment, pipes, closing);
    }
    NoPairs(comment, pipes);
    LastPairUnique(comment, None, LastPair(comment));
    return comment;
  }

  // ---- Encoding (APRS base-91 comment telemetry) -----------------------------------------

  /** A report: sequence, one to five channels, and with all five perhaps eight flags. */
  datatype Report = Report(sequence: nat, channels: seq<nat>, flags: Option<seq<bool>>)

  const MAX_PAIR := 8280

  predicate IsReport(r: Report) {
    && r.sequence <= MAX_PAIR
    && 1 <= |r.channels| <= 5 && (forall v :: v in r.channels ==> v <= MAX_PAIR)
    && (r.flags.Some? ==> |r.channels| == 5 && |r.flags.value| == 8)
  }

  function EncodePair(v: nat): (s: string)
    requires v <= MAX_PAIR
    ensures |s| == 2 && IsBase91Char(s[0]) && IsBase91Char(s[1])
    ensures DecodePair(s) == v
  {
    [(v / 91 + 33) as char, (v % 91 + 33) as char]
  }

  function EncodePairs(values: seq<nat>): (s: string)
    requires forall v :: v in values ==> v <= MAX_PAIR
    ensures |s| == 2 * |values|
    ensures forall c :: c in s ==> IsBase91Char(c)
  {
    if values == [] then ""
    else
      assert values[0] in values && forall v :: v in values[1..] ==> v in values;
      EncodePair(values[0]) + EncodePairs(values[1..])
  }

  /** Flags as a number, the first flag in the lowest bit. */
  function FlagsValue(flags: seq<bool>): (v: nat) {
    if flags == [] then 0 else (if flags[0] then 1 else 0) + 2 * FlagsValue(flags[1..])
  }

  function Values(r: Report): seq<nat> {
    [r.sequence] + r.channels + (if r.flags.Some? then [FlagsValue(r.flags.value)] else [])
  }

  function FlagsText(flags: seq<bool>): string {
    seq(|flags|, i requires 0 <= i < |flags| => if flags[i] then '1' else '0')
  }

  lemma {:induction false} PairOfEncoded(values: seq<nat>, i: nat)
    requires forall v :: v in values ==> v <= MAX_PAIR
    requires i < |values|
    ensures DecodePair(Pair(EncodePairs(values), i)) == values[i]
  {
    assert values[0] in values && forall v :: v in values[1..] ==> v in values;
    var s := EncodePairs(values);
    if i == 0 {
      assert Pair(s, 0) == EncodePair(values[0]);
    } else {
      PairOfEncoded(values[1..], i - 1);
      assert Pair(s, i) == Pair(EncodePairs(values[1..]), i - 1);
    }
  }

  lemma FlagsBits(flags: seq<bool>)
    requires |flags| == 8
    ensures FlagsValue(flags) <= 255
    ensures BitsText(FlagsValue(flags)) == FlagsText(flags)
  {
    var v := FlagsValue(flags);
    FlagsBit(flags, 0); FlagsBit(flags, 1); FlagsBit(flags, 2); FlagsBit(flags, 3);
    FlagsBit(flags, 4); FlagsBit(flags, 5); FlagsBit(flags, 6); FlagsBit(flags, 7);
    FlagsBound(flags);
  }

  function Pow2(n: nat): nat {
    if n == 0 then 1 else 2 * Pow2(n - 1)
  }

  lemma {:induction false} FlagsBound(flags: seq<bool>)
    ensures FlagsValue(flags) < Pow2(|flags|)
  {
    if flags != [] { FlagsBound(flags[1..]); }
  }

  /** Bit `i` of the flags' value is flag `i`. */
  lemma {:induction false} FlagsBit(flags: seq<bool>, i: nat)
    requires i < |flags| && i < 8
    ensures FlagsValue(flags) / POWERS[i] % 2 == if flags[i] then 1 else 0
  {
    var rest := FlagsValue(flags[1..]);
    if i > 0 {
      FlagsBit(flags[1..], i - 1);
      assert POWERS[i] == 2 * POWERS[i - 1];
      HalveTwice(FlagsValue(flags), rest, POWERS[i - 1]);
    }
  }

  lemma HalveTwice(v: nat, rest: nat, p: int)
    requires p == 1 || p == 2 || p == 4 || p == 8 || p == 16 || p == 32 || p == 64
    requires v == 2 * rest || v == 2 * rest + 1
    ensures v / (2 * p) == rest / p
  {
  }

  /** Decoding the pairs of a report gives the report back. */
  lemma DecodeEncodedReport(r: Report)
    requires IsReport(r)
    ensures r.flags.Some? ==> FlagsValue(r.flags.value) <= 255
    ensures IsPayload(EncodePairs(Values(r)))
    ensures DecodePayload(EncodePairs(Values(r))) ==
            Telemetry(Some(r.sequence),
                      seq(5, i requires 0 <= i < 5 => if i < |r.channels| then Some(r.channels[i]) else None),
                      if r.flags.Some? then Some(FlagsText(r.flags.value)) else None)
  {
    hide BitsText, FlagsValue, FlagsText, DecodePair, EncodePair, Pair;
    if r.flags.Some? { FlagsBits(r.flags.value); }
    var values := Values(r);
    var data := EncodePairs(values);
    forall i | 0 <= i < |values| ensures DecodePair(Pair(data, i)) == values[i] {
      PairOfEncoded(values, i);
    }
    var decoded := DecodePayload(data);
    assert forall i :: 0 <= i < |r.channels| ==> values[i + 1] == r.channels[i];
    assert decoded.values == seq(5, i requires 0 <= i < 5 => if i < |r.channels| then Some(r.channels[i]) else None);
  }

  /** A report in a comment is found and decoded when nothing valid closes after it. */
  lemma DecodeInComment(before: string, r: Report, after: string)
    requires IsReport(r) && LastPair("|" + after) == None
    ensures r.flags.Some? ==> FlagsValue(r.flags.value) <= 255
    ensures var payload := EncodePairs(Values(r));
            && IsPayload(payload)
            && ParseInlineTelemetry(before + "|" + payload + "|" + after)
               == (Some(DecodePayload(payload)), Trim(before + after))
  {
    hide DecodePayload, FlagsValue, Trim, LastPair;
    DecodeEncodedReport(r);
    var payload := EncodePairs(Values(r));
    PayloadInComment(before, payload, after);
  }

  lemma PayloadInComment(before: string, payload: string, after: string)
    requires IsPayload(payload) && LastPair("|" + after) == None
    ensures ParseInlineTelemetry(before + "|" + payload + "|" + after)
            == (Some(DecodePayload(payload)), Trim(before + after))
  {
    hide DecodePayload, Trim, LastPair;
    PayloadIsLast(before, payload, after);
    var comment := before + "|" + payload + "|" + after;
    var f, l := |before|, |before| + 1 + |payload|;
    assert comment[f + 1..l] == payload;
    assert comment[..f] == before && comment[l + 1..] == after;
  }

  lemma PayloadIsLast(before: string, payload: string, after: string)
    requires IsPayload(payload) && LastPair("|" + after) == None
    ensures LastPair(before + "|" + payload + "|" + after) == Some((|before|, |before| + 1 + |payload|))
  {
    hide IsPayload, LastPair, IsPair;
    var comment := before + "|" + payload + "|" + after;
    var f, l := |before|, |before| + 1 + |payload|;
    assert comment[l..] == "|" + after && comment[f + 1..l] == payload;
    assert IsPair(comment, f, l) by { PairHere(comment, f, l); }
    LastPairIsLast("|" + after);
    LastPairIsLast(comment);
    forall first, last | IsPair(comment, first, last) ensures last < l || (last == l && first == f) {
      if last == l { SameOpening(comment, f, first, l); }
      PairInSuffix(comment, l, first, last);
    }
    LastPairUnique(comment, LastPair(comment), Some((f, l)));
  }

  lemma PairHere(comment: string, first: nat, last: nat)
    requires first < last < |comment| && comment[first] == '|' && comment[last] == '|'
    requires IsPayload(comment[first + 1..last])
    ensures IsPair(comment, first, last)
  {
  }

  lemma PairInSuffix(comment: string, l: nat, first: int, last: int)
    requires l < |comment| && comment[l] == '|' && IsPair(comment, first, last)
    ensures last <= l || IsPair(comment[l..], first - l, last - l)
  {
    hide IsPayload;
    PairsAreAdjacent(comment, first, last);
    if last > l {
      assert first >= l;
      assert comment[l..][first - l + 1..last - l] == comment[first + 1..last];
    }
  }

  // ---- Two reports in one comment --------------------------------------------------------

  lemma {:induction false} TrimStartBefore(a: string, c: char, b: string)
    requires !IsSpace(c)
    ensures TrimStart(a + [c] + b) == TrimStart(a) + [c] + b
  {
    var s := a + [c] + b;
    if a != "" && IsSpace(a[0]) {
      assert s[1..] == a[1..] + [c] + b;
      TrimStartBefore(a[1..], c, b);
    }
  }

  /** Trimming stops at the pipes. */
  lemma TrimAround(before: string, data: string, rest: string)
    ensures Trim(before + "|" + data + "|" + rest) == TrimStart(before) + "|" + data + "|" + TrimEnd(rest)
  {
    hide TrimStart, TrimEnd;
    var head, tail := before + "|" + data, data + "|" + TrimEnd(rest);
    assert before + "|" + data + "|" + rest == head + ['|'] + rest;
    TrimEndAfter(head, '|', rest);
    assert head + ['|'] + TrimEnd(rest) == before + ['|'] + tail;
    TrimStartBefore(before, '|', tail);
    assert TrimStart(before) + ['|'] + tail == TrimStart(before) + "|" + data + "|" + TrimEnd(rest);
  }

  lemma StripReport(before: string, payload: string, after: string)
    requires IsPayload(payload) && LastPair("|" + after) == None
    ensures StripInlineTelemetry(before + "|" + payload + "|" + after) == before + after
  {
    hide LastPair, IsPayload;
    PayloadIsLast(before, payload, after);
    var comment := before + "|" + payload + "|" + after;
    assert comment[..|before|] == before && comment[|before| + 1 + |payload| + 1..] == after;
  }

  /** Only the report that closes last is decoded; the strip that follows drops the other one unread. */
  lemma SecondReportIsDropped(before: string, first: string, middle: string, second: string, after: string)
    requires IsPayload(first) && IsPayload(second)
    requires LastPair("|" + after) == None && LastPair("|" + TrimEnd(middle + after)) == None
    ensures var comment := before + "|" + first + "|" + middle + "|" + second + "|" + after;
            var (telemetry, left) := ParseInlineTelemetry(comment);
            && telemetry == Some(DecodePayload(second))
            && StripInlineTelemetry(left) == TrimStart(before) + TrimEnd(middle + after)
  {
    hide LastPair, DecodePayload, TrimStart, TrimEnd, Trim, IsPayload, ParseInlineTelemetry, StripInlineTelemetry;
    PayloadInComment(before + "|" + first + "|" + middle, second, after);
    assert before + "|" + first + "|" + middle + after == before + "|" + first + "|" + (middle + after);
    TrimAround(before, first, middle + after);
    StripReport(TrimStart(before), first, TrimEnd(middle + after));
  }
}
