/**
 * The resumable, bounded line reader of the APRS-IS client (src/aprsis.rs).
 *
 * The socket is a script of what successive reads of it will do; when the script is used up the
 * peer has closed the connection. A read that times out or fails is an event of the script too.
 */
module LineReader {
  import opened Text
  import opened Utf8

  const MAX_APRS_IS_LINE_BYTES := 2_048
  const LF: byte := 10
  const CR: byte := 13
  const HASH: byte := '#' as int

  datatype Event = Chunk(bytes: seq<byte>) | Timeout | Failure

  /** What one call returns; the last two leave the line being read to the next call. */
  datatype Outcome =
    | Line(text: seq<byte>)
    | TooLong
    | NotUtf8
    | Closed
    | ClosedEarly
    | TimedOut
    | Failed
  {
    predicate Interrupted() { TimedOut? || Failed? }
    predicate AtEnd() { Closed? || ClosedEarly? }
  }

  // ---- The simple specification ----------------------------------------------------------

  function StripEnding(line: seq<byte>): seq<byte> {
    if line != [] && (line[|line| - 1] == CR || line[|line| - 1] == LF)
    then StripEnding(line[..|line| - 1])
    else line
  }

  /** The outcome of a complete line, terminator included. */
  function Deliver(line: seq<byte>): Outcome {
    if |line| > MAX_APRS_IS_LINE_BYTES then TooLong
    else if IsUtf8(StripEnding(line)) then Line(StripEnding(line))
    else NotUtf8
  }

  /** The next outcome of a byte stream that ends in a close, and the stream after it. */
  function Next(stream: seq<byte>): (r: (Outcome, seq<byte>))
    ensures !r.0.Interrupted()
    ensures if r.0.AtEnd() then r.1 == [] else |r.1| < |stream|
  {
    var i := IndexOf(stream, LF);
    if i < |stream| then (Deliver(stream[..i + 1]), stream[i + 1..])
    else if |stream| > MAX_APRS_IS_LINE_BYTES then (TooLong, [])
    else if stream == [] then (Closed, [])
    else (ClosedEarly, [])
  }

  lemma NextOfLine(line: seq<byte>, rest: seq<byte>)
    requires line != [] && line[|line| - 1] == LF && LF !in line[..|line| - 1]
    ensures Next(line + rest) == (Deliver(line), rest)
  {
    var front, stream := line[..|line| - 1], line + rest;
    assert stream == front + [LF] + rest;
    IndexOfAt(front, LF, rest);
    assert stream[..|line|] == line && stream[|line|..] == rest;
  }

  lemma NextOfTail(tail: seq<byte>)
    requires LF !in tail
    ensures Next(tail) == (if |tail| > MAX_APRS_IS_LINE_BYTES then TooLong
                           else if tail == [] then Closed else ClosedEarly, [])
    ensures |tail| > MAX_APRS_IS_LINE_BYTES ==> Deliver(tail) == TooLong
  {
  }

  /** All outcomes up to the close. */
  function Outcomes(stream: seq<byte>): seq<Outcome>
    decreases |stream|
  {
    var (outcome, rest) := Next(stream);
    if outcome.AtEnd() then [outcome] else [outcome] + Outcomes(rest)
  }

  function DeliverAll(lines: seq<seq<byte>>): seq<Outcome> {
    if lines == [] then [] else [Deliver(lines[0] + [LF])] + DeliverAll(lines[1..])
  }

  /** The outcomes of what follows the last line feed. */
  function DeliverTail(tail: seq<byte>): seq<Outcome> {
    if |tail| > MAX_APRS_IS_LINE_BYTES then [TooLong, Closed]
    else if tail == [] then [Closed]
    else [ClosedEarly]
  }

  /** Reading a stream to its close is splitting it at line feeds. */
  lemma {:induction false} OutcomesAreSplitLines(stream: seq<byte>)
    ensures var parts := Split(stream, LF);
            Outcomes(stream) == DeliverAll(parts[..|parts| - 1]) + DeliverTail(parts[|parts| - 1])
    decreases |stream|
  {
    hide Deliver, IndexOf, Split, DeliverTail;
    var parts := Split(stream, LF);
    SplitStep(stream, LF);
    var i := IndexOf(stream, LF);
    if i < |stream| {
      var rest := stream[i + 1..];
      var others := Split(rest, LF);
      OutcomesAreSplitLines(rest);
      assert stream[..i + 1] == stream[..i] + [LF];
      var lines := parts[..|parts| - 1];
      assert lines[1..] == others[..|others| - 1];
      NeverAtEnd(stream[..i] + [LF]);
      Assoc([Deliver(stream[..i] + [LF])], DeliverAll(lines[1..]), DeliverTail(others[|others| - 1]));
    } else {
      OutcomesOfTail(stream);
      assert parts[..0] == [];
    }
  }

  lemma OutcomesOfTail(tail: seq<byte>)
    requires IndexOf(tail, LF) == |tail|
    ensures Outcomes(tail) == DeliverTail(tail)
  {
    hide Deliver, IndexOf, Next;
    assert LF !in tail;
    NextOfTail(tail);
    NextOfTail([]);
    if |tail| > MAX_APRS_IS_LINE_BYTES { assert Outcomes(tail) == [TooLong] + Outcomes([]); }
  }

  lemma NeverAtEnd(line: seq<byte>)
    ensures !Deliver(line).AtEnd()
  {
  }

  // ---- What a line says ------------------------------------------------------------------

  lemma {:induction false} EndingIsStripped(text: seq<byte>, ending: seq<byte>)
    requires forall b :: b in ending ==> b == 13 || b == 10
    requires text == [] || (text[|text| - 1] != 13 && text[|text| - 1] != 10)
    ensures StripEnding(text + ending) == text
  {
    var line := text + ending;
    if ending == [] {
      assert line == text;
    } else {
      var shorter := ending[..|ending| - 1];
      assert ending[|ending| - 1] in ending && forall b :: b in shorter ==> b in ending;
      assert line[..|line| - 1] == text + shorter;
      EndingIsStripped(text, shorter);
    }
  }

  /** A complete line that fits is its text, without any carriage returns and line feeds at its end. */
  lemma LineIsDelivered(text: seq<byte>, ending: seq<byte>)
    requires forall b :: b in ending ==> b == 13 || b == 10
    requires text == [] || (text[|text| - 1] != 13 && text[|text| - 1] != 10)
    ensures Deliver(text + ending) ==
            if |text| + |ending| > 2048 then TooLong else if IsUtf8(text) then Line(text) else NotUtf8
  {
    hide StripEnding, IsUtf8;
    EndingIsStripped(text, ending);
  }

  /** The next line of a stream, ended by a line feed and any number of carriage returns before it. */
  lemma LineIsNext(text: seq<byte>, carriage: seq<byte>, rest: seq<byte>)
    requires 10 !in text && (text == [] || text[|text| - 1] != 13) && forall b :: b in carriage ==> b == 13
    ensures Next(text + carriage + [10] + rest) ==
            (if |text| + |carriage| >= 2048 then TooLong else if IsUtf8(text) then Line(text) else NotUtf8, rest)
  {
    hide Deliver, Next, IsUtf8;
    var front, line := text + carriage, text + carriage + [10];
    assert line[..|line| - 1] == front;
    NextOfLine(line, rest);
    Assoc(text, carriage, [10]);
    if text != [] { assert text[|text| - 1] in text; }
    LineIsDelivered(text, carriage + [10]);
  }

  /** What follows the last line feed. */
  lemma TailIsNext(tail: seq<byte>)
    requires 10 !in tail
    ensures Next(tail) == (if tail == [] then Closed else if |tail| <= 2048 then ClosedEarly else TooLong, [])
  {
    NextOfTail(tail);
  }

  /** Lines that start with `#` are passed over, and no others. */
  lemma CommentsArePassedOver(text: seq<byte>, rest: seq<byte>)
    requires 10 !in text && 13 !in text && |text| <= 2046 && IsUtf8(text)
    ensures NextPacket(text + [13, 10] + rest) ==
            if text != [] && text[0] == '#' as int then NextPacket(rest) else (Line(text), rest)
  {
    hide Next, IsUtf8;
    assert text + [13, 10] + rest == text + [13] + [10] + rest;
    LineIsNext(text, [13], rest);
  }

  predicate IsComment(outcome: Outcome) {
    outcome.Line? && outcome.text != [] && outcome.text[0] == HASH
  }

  /** The next outcome that is not a server comment. */
  function NextPacket(stream: seq<byte>): (Outcome, seq<byte>)
    decreases |stream|
  {
    var (outcome, rest) := Next(stream);
    if IsComment(outcome) then NextPacket(rest) else (outcome, rest)
  }

  // ---- The reader ------------------------------------------------------------------------

  predicate IsScript(script: seq<Event>) {
    forall e :: e in script && e.Chunk? ==> e.bytes != []
  }

  lemma ScriptTail(script: seq<Event>)
    requires IsScript(script) && script != []
    ensures IsScript(script[1..])
    ensures script[0].Chunk? ==> script[0].bytes != []
  {
    assert script[0] in script;
  }

  function Stream(script: seq<Event>): seq<byte> {
    if script == [] then []
    else (if script[0].Chunk? then script[0].bytes else []) + Stream(script[1..])
  }

  class AprsIsConnection {
    var buffered: seq<byte>      // received and not yet consumed
    var script: seq<Event>       // what the socket will still do
    var lineBuffer: seq<byte>
    var discardingOversizedLine: bool
    ghost var pending: seq<byte> // every byte consumed of the line being read

    /** The bounded buffer stands for every byte of the line so far. */
    ghost predicate Holds()
      reads this
    {
      && IsScript(script)
      && |lineBuffer| <= MAX_APRS_IS_LINE_BYTES
      && if discardingOversizedLine
         then lineBuffer == [] && |pending| > MAX_APRS_IS_LINE_BYTES
         else lineBuffer == pending
    }

    /** Between calls no complete line is pending. */
    ghost predicate Valid()
      reads this
    {
      Holds() && LF !in pending
    }

    /** The bytes no outcome has accounted for yet. */
    ghost function Unread(): seq<byte>
      reads this
    {
      pending + (buffered + Stream(script))
    }

    ghost function Work(): nat
      reads this
    {
      |script| + |Unread()|
    }

    constructor (script: seq<Event>)
      requires IsScript(script)
      ensures Valid() && Unread() == Stream(script)
    {
      this.script := script;
      buffered, lineBuffer, discardingOversizedLine, pending := [], [], false, [];
    }

    /** Wait for buffered bytes; none at all means the connection is closed. */
    method FillBuf() returns (interruption: Option<Outcome>)
      requires Valid()
      modifies `buffered, `script
      ensures Valid() && Unread() == old(Unread())
      ensures interruption.Some? ==> interruption.value.Interrupted() && Work() < old(Work())
      ensures interruption == None ==> Work() <= old(Work())
      ensures interruption == None && buffered == [] ==> script == []
    {
      hide IsScript;
      if buffered != [] || script == [] {
        return None;
      }
      ScriptTail(script);
      var event := script[0];
      script := script[1..];
      match event {
        case Chunk(bytes) =>
          buffered := bytes;
          return None;
        case Timeout => return Some(TimedOut);
        case Failure => return Some(Failed);
      }
    }

    /** Move bytes of the line from the socket's buffer to the bounded one. */
    method Consume(consumed: nat)
      requires Valid() && 1 <= consumed <= |buffered|
      modifies `buffered, `lineBuffer, `discardingOversizedLine, `pending
      ensures Holds() && Unread() == old(Unread())
      ensures pending == old(pending) + old(buffered)[..consumed]
      ensures buffered == old(buffered)[consumed..]
    {
      if !discardingOversizedLine {
        if |lineBuffer| + consumed <= MAX_APRS_IS_LINE_BYTES {
          lineBuffer := lineBuffer + buffered[..consumed];
        } else {
          lineBuffer := [];
          discardingOversizedLine := true;
        }
      }
      pending := pending + buffered[..consumed];
      buffered := buffered[consumed..];
      assert Unread() == old(Unread());
    }

    /** Hand over the line that ended, and start the next one. */
    method TakeLine() returns (r: Outcome)
      requires Holds()
      modifies `lineBuffer, `discardingOversizedLine, `pending
      ensures Valid() && pending == []
      ensures r == Deliver(old(pending))
    {
      ghost var line := pending;
      pending := [];
      if discardingOversizedLine {
        discardingOversizedLine := false;
        return TooLong;
      }
      var text := lineBuffer;
      lineBuffer := [];
      r := Finish(text);
    }

    /**
     * One call of `read_line`: an interruption loses nothing, and any other outcome is the next
     * one of the stream, whatever the chunks and the interruptions before it were.
     */
    method ReadLine() returns (r: Outcome)
      requires Valid()
      modifies this
      ensures Valid()
      ensures r.Interrupted() ==> Unread() == old(Unread())
      ensures !r.Interrupted() ==> (r, Unread()) == Next(old(Unread()))
      ensures !r.AtEnd() ==> Work() < old(Work())
    {
      hide Next, Deliver, IsScript;
      ghost var whole := Unread();
      while true
        invariant Valid() && Unread() == whole && Work() <= old(Work())
        decreases Work() - |pending|
      {
        var interruption := FillBuf();
        if interruption.Some? {
          return interruption.value;
        }
        var available := buffered;
        if available == [] {
          assert Stream(script) == [] && whole == pending;
          NextOfTail(pending);
          if discardingOversizedLine {
            break;
          }
          r := if lineBuffer == [] then Closed else ClosedEarly;
          lineBuffer := [];
          pending := [];
          assert Unread() == [];
          return;
        }
        var lf := IndexOf(available, LF);
        var consumed := if lf < |available| then lf + 1 else |available|;
        var complete := available[consumed - 1] == LF;
        Consume(consumed);
        if complete {
          NextOfLine(pending, buffered + Stream(script));
          break;
        }
      }
      r := TakeLine();
      assert Unread() == buffered + Stream(script);
    }

    /** Strip the terminator of a complete line and check its encoding. */
    method Finish(line: seq<byte>) returns (r: Outcome)
      requires |line| <= MAX_APRS_IS_LINE_BYTES
      ensures r == Deliver(line)
    {
      var text := line;
      while text != [] && (text[|text| - 1] == CR || text[|text| - 1] == LF)
        invariant StripEnding(text) == StripEnding(line)
        decreases |text|
      {
        text := text[..|text| - 1];
      }
      return if IsUtf8(text) then Line(text) else NotUtf8;
    }

    /** `read_packet`: the next outcome that is not a server comment. */
    method ReadPacket() returns (r: Outcome)
      requires Valid()
      modifies this
      ensures Valid()
      ensures r.Interrupted() ==> NextPacket(Unread()) == NextPacket(old(Unread()))
      ensures !r.Interrupted() ==> (r, Unread()) == NextPacket(old(Unread()))
    {
      while true
        invariant Valid() && NextPacket(Unread()) == NextPacket(old(Unread()))
        decreases Work()
      {
        r := ReadLine();
        if !IsComment(r) {
          return;
        }
      }
    }

    /** A caller that keeps reading until the close sees the simple specification, and no more. */
    method ReadUntilClosed() returns (outcomes: seq<Outcome>)
      requires Valid()
      modifies this
      ensures Valid() && Unread() == []
      ensures outcomes == Outcomes(old(Unread()))
    {
      hide Next;
      outcomes := [];
      while true
        invariant Valid() && outcomes + Outcomes(Unread()) == Outcomes(old(Unread()))
        decreases Work()
      {
        var r := ReadLine();
        if !r.Interrupted() {
          outcomes := outcomes + [r];
          if r.AtEnd() {
            return;
          }
        }
      }
    }
  }
}
