/** APRS messages: `encode_message` (src/encode.rs) and `parse_message` (src/packet/parser.rs). */
module Message {
  import opened Text
  import opened Chars

  datatype Message = Message(destination: string, text: string, id: Option<string>,
                             acknowledgementId: Option<string>, rejectionId: Option<string>)

  datatype Error =
    | NoDestination
    | DestinationTooLong
    | Newline
    | AckReject
    | IdInvalid
    | ReplyAck
    | Short
    | Invalid

  // ---- Encoding --------------------------------------------------------------------------

  predicate HasNewline(s: string) { '\r' in s || '\n' in s }

  predicate OptionHasNewline(s: Option<string>) { s.Some? && HasNewline(s.value) }

  predicate IsId(id: string) {
    1 <= |id| <= 5 && forall c :: c in id ==> IsAlphanumericChar(c)
  }

  function Pad(s: string, width: nat): (r: string)
    ensures |s| <= width ==> |r| == width
    ensures s <= r
    ensures forall k :: |s| <= k < |r| ==> r[k] == ' '
    decreases width - |s|
  {
    if |s| < width then Pad(s + " ", width) else s
  }

  function Content(m: Message): Result<string, Error> {
    if m.rejectionId.Some? then Ok("rej" + m.rejectionId.value)
    else if m.acknowledgementId.Some? && m.id.None? && m.text == "" then
      Ok("ack" + m.acknowledgementId.value)
    else
      match m.id
      case None => Ok(m.text)
      case Some(id) =>
        match m.acknowledgementId
        case None => Ok(m.text + "{" + id)
        case Some(ack) =>
          if |id| + |ack| + 1 > 5 then Err(ReplyAck) else Ok(m.text + "{" + (id + "}" + ack))
  }

  function EncodeMessage(m: Message): Result<string, Error> {
    if m.destination == "" then Err(NoDestination)
    else if |m.destination| > 9 then Err(DestinationTooLong)
    else if HasNewline(m.destination) || HasNewline(m.text) || OptionHasNewline(m.id)
         || OptionHasNewline(m.acknowledgementId) || OptionHasNewline(m.rejectionId) then Err(Newline)
    else if (m.acknowledgementId.Some? && m.rejectionId.Some?)
         || (m.text != "" && m.rejectionId.Some?) then Err(AckReject)
    else if m.id.Some? && !IsId(m.id.value) then Err(IdInvalid)
    else
      match Content(m)
      case Err(e) => Err(e)
      case Ok(content) => Ok(":" + Pad(m.destination, 9) + ":" + content)
  }

  // ---- Decoding --------------------------------------------------------------------------

  /** The identifier of an acknowledgement or rejection. */
  predicate IsResponseId(id: string) {
    1 <= |id| <= 5 && forall c :: c in id ==> IsAlphanumericChar(c) || c == '}'
  }

  function ResponseId(content: string, prefix: string): Option<string> {
    match StripPrefix(content, prefix)
    case None => None
    case Some(rest) => if IsResponseId(TrimEnd(rest)) then Some(TrimEnd(rest)) else None
  }

  function ParseContent(destination: string, content: string): Message {
    var plain := Message(destination, "", None, None, None);
    match ResponseId(content, "ack")
    case Some(id) => plain.(acknowledgementId := Some(id))
    case None =>
      match ResponseId(content, "rej")
      case Some(id) => plain.(rejectionId := Some(id))
      case None =>
        match RSplitOnce(content, '{')
        case None => plain.(text := content)
        case Some((text, tail)) =>
          var id := TrimEnd(tail);
          match SplitOnce(id, '}')
          case None => plain.(text := text, id := Some(id))
          case Some((messageId, ack)) =>
            plain.(text := text, id := Some(messageId),
                   acknowledgementId := if ack == "" then None else Some(ack))
  }

  function ParseMessage(body: string): Result<Message, Error> {
    if |body| < 12 then Err(Short)
    else if body[10] != ':' then Err(Invalid)
    else Ok(ParseContent(Trim(body[1..10]), body[11..]))
  }

  /** Whether the text marks a telemetry metadata message, whatever its letter case. */
  predicate IsTelemetryText(text: string) {
    |text| >= 5 && UpperText(text[..5]) in {"PARM.", "UNIT.", "EQNS.", "BITS."}
  }

  function UpperText(s: string): string {
    seq(|s|, k requires 0 <= k < |s| => UpperChar(s[k]))
  }

  // ---- Which messages survive ------------------------------------------------------------

  predicate IsReject(m: Message) {
    && m.text == "" && m.id.None? && m.acknowledgementId.None?
    && m.rejectionId.Some? && IsResponseId(m.rejectionId.value)
  }

  predicate IsAck(m: Message) {
    && m.text == "" && m.id.None? && m.rejectionId.None?
    && m.acknowledgementId.Some? && IsResponseId(m.acknowledgementId.value)
  }

  /** Text with an identifier, and perhaps a reply-ack the decoder can tell apart. */
  predicate IsNumbered(m: Message) {
    && m.id.Some? && m.rejectionId.None?
    && (m.acknowledgementId.Some? ==>
          var ack := m.acknowledgementId.value;
          ack != "" && '{' !in ack && !IsSpace(ack[|ack| - 1]))
  }

  predicate LooksLikeResponse(text: string) {
    |text| > 3 && (text[..3] == "ack" || text[..3] == "rej") && IsResponseId(TrimEnd(text[3..]))
  }

  predicate IsPlain(m: Message) {
    && m.id.None? && m.acknowledgementId.None? && m.rejectionId.None?
    && m.text != "" && '{' !in m.text && !LooksLikeResponse(m.text)
  }

  predicate Survives(m: Message) {
    && Trim(m.destination) == m.destination
    && (IsReject(m) || IsAck(m) || IsNumbered(m) || IsPlain(m))
  }

  // ---- Proofs ----------------------------------------------------------------------------

  lemma TrimPad(s: string, width: nat)
    ensures Trim(Pad(s, width)) == Trim(s)
  {
    var r := Pad(s, width);
    assert r == s + r[|s|..];
    TrimEndSpaces(s, r[|s|..]);
  }

  lemma ResponseIdTrim(id: string)
    requires IsResponseId(id)
    ensures TrimEnd(id) == id
  {
    assert id[|id| - 1] in id;
  }

  lemma ResponseOf(content: string)
    ensures LooksLikeResponse(content) <==>
            ResponseId(content, "ack").Some? || ResponseId(content, "rej").Some?
  {
    if |content| >= 3 {
      assert "ack" <= content <==> content[..3] == "ack";
      assert "rej" <= content <==> content[..3] == "rej";
    }
    if |content| == 3 { assert content[3..] == "" && TrimEnd(content[3..]) == ""; }
  }

  /** A brace keeps a text from being read as a response. */
  lemma BraceIsNoResponse(text: string, tail: string)
    ensures !LooksLikeResponse(text + "{" + tail)
  {
    var content := text + "{" + tail;
    if |content| > 3 && |text| >= 3 {
      assert content[3..] == text[3..] + "{" + tail;
      TrimEndAfter(text[3..], '{', tail);
      assert TrimEnd(content[3..])[|text| - 3] == '{';
      assert '{' in TrimEnd(content[3..]);
    } else if |content| > 3 {
      assert content[|text|] == '{';
      assert content[..3][|text|] == '{';
    }
  }

  lemma ParseReject(destination: string, rejection: string)
    ensures var m := ParseContent(destination, "rej" + rejection);
            if IsResponseId(TrimEnd(rejection))
            then m == Message(destination, "", None, None, Some(TrimEnd(rejection)))
            else m.rejectionId.None?
  {
    hide TrimEnd, IsResponseId, RSplitOnce;
    var content := "rej" + rejection;
    assert content[0] == 'r' && "rej" <= content && content[3..] == rejection;
  }

  lemma ParseAck(destination: string, ack: string)
    ensures var m := ParseContent(destination, "ack" + ack);
            if IsResponseId(TrimEnd(ack))
            then m == Message(destination, "", None, Some(TrimEnd(ack)), None)
            else ResponseId("ack" + ack, "ack").None? && m.rejectionId.None?
  {
    hide TrimEnd, IsResponseId, RSplitOnce;
    var content := "ack" + ack;
    assert content[0] == 'a' && "ack" <= content && content[3..] == ack;
  }

  /** Text, a brace and a tail free of braces decode to the text and the tail's parts. */
  lemma ParseNumbered(destination: string, text: string, id: string, ack: Option<string>)
    requires IsId(id) && (ack.Some? ==> '{' !in ack.value)
    ensures var tail := if ack.Some? then id + "}" + ack.value else id;
            ParseContent(destination, text + "{" + tail) ==
            Message(destination, text, Some(id),
                    if ack.Some? && TrimEnd(ack.value) != "" then Some(TrimEnd(ack.value)) else None, None)
  {
    var tail := if ack.Some? then id + "}" + ack.value else id;
    var content := text + "{" + tail;
    BraceIsNoResponse(text, tail);
    ResponseOf(content);
    assert '{' !in id && '}' !in id;
    assert '{' !in tail;
    RSplitOnceAt(text, '{', tail);
    if ack.Some? {
      TrimEndAfter(id, '}', ack.value);
      SplitOnceAt(id, '}', TrimEnd(ack.value));
    } else {
      assert id[|id| - 1] in id;
      assert TrimEnd(id) == id;
    }
  }

  /** A brace inside the reply-ack moves the split, so the text comes back longer. */
  lemma ParseBraceInTail(destination: string, text: string, tail: string)
    requires '{' in tail
    ensures |ParseContent(destination, text + "{" + tail).text| > |text|
  {
    var content := text + "{" + tail;
    BraceIsNoResponse(text, tail);
    ResponseOf(content);
    var (front, rest) := RSplitOnce(tail, '{').value;
    assert content == (text + "{" + front) + "{" + rest;
    RSplitOnceAt(text + "{" + front, '{', rest);
  }

  lemma ParsePlain(destination: string, text: string)
    ensures !LooksLikeResponse(text) && '{' !in text ==>
              ParseContent(destination, text) == Message(destination, text, None, None, None)
    ensures LooksLikeResponse(text) ==> ParseContent(destination, text).text == ""
    ensures !LooksLikeResponse(text) && '{' in text ==> ParseContent(destination, text).id.Some?
  {
    ResponseOf(text);
  }

  lemma DecodedParts(m: Message)
    requires EncodeMessage(m).Ok?
    ensures Content(m).Ok?
    ensures var content := Content(m).value;
            ParseMessage(EncodeMessage(m).value) ==
            if content == "" then Err(Short) else Ok(ParseContent(Trim(m.destination), content))
  {
    hide ParseContent, Content, TrimEnd, Trim;
    var content := Content(m).value;
    var padded := Pad(m.destination, 9);
    var body := ":" + padded + ":" + content;
    assert body[1..10] == padded && body[10] == ':' && body[11..] == content;
    TrimPad(m.destination, 9);
  }

  /** Decoding the content field gives the same fields exactly for the surviving shapes. */
  lemma ContentSurvives(m: Message)
    requires EncodeMessage(m).Ok?
    ensures var content := Content(m).value;
            (content != "" && ParseContent(m.destination, content) == m)
            <==> (IsReject(m) || IsAck(m) || IsNumbered(m) || IsPlain(m))
  {
    hide ParseContent, TrimEnd, LooksLikeResponse, IsResponseId, HasNewline;
    if m.rejectionId.Some? {
      var r := m.rejectionId.value;
      ParseReject(m.destination, r);
      if IsResponseId(r) { ResponseIdTrim(r); }
    } else if m.acknowledgementId.Some? && m.id.None? && m.text == "" {
      var a := m.acknowledgementId.value;
      ParseAck(m.destination, a);
      ParsePlain(m.destination, "ack" + a);
      ResponseOf("ack" + a);
      if IsResponseId(a) { ResponseIdTrim(a); }
    } else if m.id.Some? {
      NumberedSurvives(m);
    } else {
      ParsePlain(m.destination, m.text);
    }
  }

  lemma NumberedSurvives(m: Message)
    requires EncodeMessage(m).Ok? && m.id.Some? && m.rejectionId.None?
    ensures var content := Content(m).value;
            content != "" && (ParseContent(m.destination, content) == m <==> IsNumbered(m))
  {
    hide ParseContent, LooksLikeResponse, IsResponseId, HasNewline;
    var id := m.id.value;
    if m.acknowledgementId.Some? && '{' in m.acknowledgementId.value {
      ParseBraceInTail(m.destination, m.text, id + "}" + m.acknowledgementId.value);
    } else {
      ParseNumbered(m.destination, m.text, id, m.acknowledgementId);
    }
  }

  /** An encoded message decodes to itself exactly when it has a surviving shape. */
  lemma RoundTripExactly(m: Message)
    requires EncodeMessage(m).Ok?
    ensures ParseMessage(EncodeMessage(m).value) == Ok(m) <==> Survives(m)
  {
    hide ParseContent, Content, EncodeMessage, ParseMessage, IsReject, IsAck, IsNumbered, IsPlain, Trim;
    DecodedParts(m);
    ContentSurvives(m);
    DestinationOfContent(Trim(m.destination), Content(m).value);
  }

  lemma DestinationOfContent(destination: string, content: string)
    ensures ParseContent(destination, content).destination == destination
  {
  }

  /** A message that was decoded and can be encoded again decodes to itself. */
  lemma DecodedMessagesAreStable(body: string, m: Message)
    requires ParseMessage(body) == Ok(m) && EncodeMessage(m).Ok?
    ensures ParseMessage(EncodeMessage(m).value) == Ok(m)
  {
    hide EncodeMessage, ParseContent, Trim, IsReject, IsAck, IsNumbered, IsPlain;
    TrimIdempotent(body[1..10]);
    DecodedShape(Trim(body[1..10]), body[11..]);
    DestinationOfContent(Trim(body[1..10]), body[11..]);
    RoundTripExactly(m);
  }

  lemma TrimIdempotent(s: string)
    ensures Trim(Trim(s)) == Trim(s)
  {
    hide TrimEnd, TrimStart;
    var e := TrimEnd(s);
    var t := TrimStart(e);
    TrimStartIsSuffix(e);
    if t != "" { assert t[|t| - 1] == e[|e| - 1]; }
  }

  lemma DecodedShape(destination: string, content: string)
    requires content != ""
    ensures var m := ParseContent(destination, content);
            IsReject(m) || IsAck(m) || IsNumbered(m) || IsPlain(m)
  {
    hide TrimEnd, IsResponseId, RSplitOnce, SplitOnce;
    ResponseOf(content);
    if !LooksLikeResponse(content) && '{' in content {
      var (text, tail) := RSplitOnce(content, '{').value;
      var id := TrimEnd(tail);
      assert forall c :: c in id ==> c in tail;
      if '}' in id {
        var (front, ack) := SplitOnce(id, '}').value;
        assert forall c :: c in ack ==> c in id;
        if ack != "" { assert ack[|ack| - 1] == id[|id| - 1]; }
      }
    }
  }

  // ---- What is accepted ------------------------------------------------------------------

  predicate IsLetterOrDigit(c: char) { 'A' <= c <= 'Z' || 'a' <= c <= 'z' || '0' <= c <= '9' }

  predicate IsLine(s: string) { 10 as char !in s && 13 as char !in s }

  predicate IsLineOption(s: Option<string>) { s.Some? ==> IsLine(s.value) }

  predicate AreIdChars(id: string) { forall k :: 0 <= k < |id| ==> IsLetterOrDigit(id[k]) }

  lemma IdsExactly(id: string)
    ensures IsId(id) <==> 1 <= |id| <= 5 && AreIdChars(id)
    ensures IsResponseId(id) <==> 1 <= |id| <= 5 && forall k :: 0 <= k < |id| ==> IsLetterOrDigit(id[k]) || id[k] == '}'
  {
    if IsId(id) || IsResponseId(id) { assert forall k :: 0 <= k < |id| ==> id[k] in id; }
  }

  /** Exactly which messages are encoded. */
  lemma EncodesExactly(m: Message)
    ensures EncodeMessage(m).Ok? <==>
            && 1 <= |m.destination| <= 9
            && IsLine(m.destination) && IsLine(m.text)
            && IsLineOption(m.id) && IsLineOption(m.acknowledgementId) && IsLineOption(m.rejectionId)
            && (m.rejectionId.Some? ==> m.acknowledgementId.None? && m.text == "")
            && (m.id.Some? ==> 1 <= |m.id.value| <= 5 && AreIdChars(m.id.value))
            && (m.id.Some? && m.acknowledgementId.Some? ==> |m.id.value| + |m.acknowledgementId.value| <= 4)
  {
    hide IsId, AreIdChars;
    if m.id.Some? { IdsExactly(m.id.value); }
  }

  /** Exactly which bodies are read as messages: an addressee of nine characters, a colon and a text. */
  lemma ReadsExactly(identifier: char, addressee: string, separator: char, content: string)
    requires |addressee| == 9
    ensures ParseMessage([identifier] + addressee + [separator] + content).Ok? <==> separator == ':' && content != ""
    ensures forall body :: |body| < 11 ==> ParseMessage(body).Err?
  {
    var body := [identifier] + addressee + [separator] + content;
    assert body[10] == separator;
  }

  /** Two texts that differ at most in the case of their letters. */
  predicate SameLetters(a: string, b: string) {
    |a| == |b| && forall k :: 0 <= k < |a| ==>
      a[k] == b[k] || ('A' <= a[k] <= 'Z' && b[k] == a[k] + 32 as char) || ('A' <= b[k] <= 'Z' && a[k] == b[k] + 32 as char)
  }

  /** Telemetry metadata starts with one of four words and a point. */
  lemma TelemetryTextsExactly(text: string)
    ensures IsTelemetryText(text) <==>
            |text| >= 5 && exists word :: word in {"PARM.", "UNIT.", "EQNS.", "BITS."} && SameLetters(text[..5], word)
  {
    if |text| >= 5 {
      var front, upper := text[..5], UpperText(text[..5]);
      if IsTelemetryText(text) {
        forall k | 0 <= k < 5 ensures SameLetters([front[k]], [upper[k]]) { assert upper[k] == UpperChar(front[k]); }
        assert SameLetters(front, upper);
      }
      forall word | word in {"PARM.", "UNIT.", "EQNS.", "BITS."} && SameLetters(front, word) ensures upper == word {
        assert forall k :: 0 <= k < 5 ==> upper[k] == word[k];
      }
    }
  }
}
