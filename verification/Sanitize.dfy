/**
 * From the parser's fields to the published packet: UTF-8 texts restored, then the placeholder bytes of
 * the view replaced and control characters taken out of comments (`sanitize_parser_placeholders` in
 * src/packet/parser.rs).
 */
module Sanitize {
  import opened Text
  import opened SortedMap
  import opened View
  import opened Packet
  import opened PacketProofs
  import Msg = Message

  // ---- Texts -----------------------------------------------------------------------------

  predicate IsPlaceholder(c: char) { c == NON_ASCII || c == EXCLUDED_FF }

  predicate IsControl(c: char) { c < 32 as char || c == 127 as char }

  /** Every placeholder as a question mark. */
  function SanitizeText(s: string): (r: string)
    ensures |r| == |s|
    ensures forall k :: 0 <= k < |s| ==> r[k] == if IsPlaceholder(s[k]) then '?' else s[k]
  {
    seq(|s|, k requires 0 <= k < |s| => if IsPlaceholder(s[k]) then '?' else s[k])
  }

  /** A comment without control characters, placeholders of foreign bytes excepted. */
  function Retained(s: string): (r: string)
    ensures |r| <= |s|
    ensures forall c :: c in r ==> c in s && (c == NON_ASCII || !IsControl(c))
  {
    if s == "" then ""
    else if s[0] == EXCLUDED_FF || (s[0] != NON_ASCII && IsControl(s[0])) then Retained(s[1..])
    else [s[0]] + Retained(s[1..])
  }

  function SanitizeComment(s: string): string {
    SanitizeText(Retained(s))
  }

  predicate IsClean(s: string) {
    forall c :: c in s ==> !IsPlaceholder(c)
  }

  predicate IsCleanComment(s: string) {
    forall c :: c in s ==> !IsControl(c)
  }

  lemma SanitizedIsClean(s: string)
    ensures IsClean(SanitizeText(s))
    ensures SanitizeText(s) == s <==> IsClean(s)
  {
    var r := SanitizeText(s);
    if IsClean(s) {
      assert forall k :: 0 <= k < |s| ==> s[k] in s;
      assert r == s;
    }
  }

  lemma {:induction false} CleanIsRetained(s: string)
    requires IsCleanComment(s)
    ensures Retained(s) == s
  {
    if s != "" {
      assert s[0] in s && forall c :: c in s[1..] ==> c in s;
      CleanIsRetained(s[1..]);
    }
  }

  lemma SanitizedCommentIsClean(s: string)
    ensures IsCleanComment(SanitizeComment(s))
    ensures SanitizeComment(s) == s <==> IsCleanComment(s)
  {
    hide Retained;
    var kept := Retained(s);
    var r := SanitizeText(kept);
    forall c | c in r ensures !IsControl(c) {
      var k :| 0 <= k < |r| && r[k] == c;
      assert kept[k] in kept;
    }
    if IsCleanComment(s) {
      CleanIsRetained(s);
      SanitizedIsClean(s);
      assert IsClean(s);
    }
  }

  /** Both placeholders become question marks, and no other character changes. */
  lemma TextExactly(s: string, k: nat)
    requires k < |s|
    ensures SanitizeText(s)[k] == if s[k] as int == 127 || s[k] as int == 31 then '?' else s[k]
  {
  }

  /** What a character of a comment becomes: control characters disappear, and a foreign byte is a question mark. */
  function ShownInComment(c: char): string {
    if c as int == 127 then "?" else if (c as int) < 32 then "" else [c]
  }

  lemma RetainedOne(c: char, rest: string)
    ensures SanitizeComment([c] + rest) == ShownInComment(c) + SanitizeComment(rest)
  {
    hide SanitizeText;
    assert ([c] + rest)[1..] == rest;
    TextOne(c, Retained(rest));
  }

  lemma TextOne(c: char, rest: string)
    ensures SanitizeText([c] + rest) == (if IsPlaceholder(c) then "?" else [c]) + SanitizeText(rest)
  {
  }

  /** Each character of a comment is shown by itself, in order. */
  lemma {:induction false} CommentExactly(before: string, c: char, after: string)
    ensures SanitizeComment(before + [c] + after) == SanitizeComment(before) + ShownInComment(c) + SanitizeComment(after)
    ensures SanitizeComment("") == ""
  {
    hide SanitizeComment, ShownInComment;
    assert SanitizeComment("") == "" by { EmptyStays(); }
    var s := before + [c] + after;
    if before == "" {
      assert s == [c] + after;
      RetainedOne(c, after);
    } else {
      assert s == [before[0]] + (before[1..] + [c] + after) && before == [before[0]] + before[1..];
      RetainedOne(before[0], before[1..] + [c] + after);
      RetainedOne(before[0], before[1..]);
      CommentExactly(before[1..], c, after);
    }
  }

  lemma EmptyStays()
    ensures SanitizeComment("") == ""
  {
  }

  function SanitizeOption(s: Option<string>): Option<string> {
    if s.Some? then Some(SanitizeText(s.value)) else None
  }

  predicate IsCleanOption(s: Option<string>) { s.Some? ==> IsClean(s.value) }

  lemma SanitizedOptionIsClean(s: Option<string>)
    ensures IsCleanOption(SanitizeOption(s))
    ensures SanitizeOption(s) == s <==> IsCleanOption(s)
  {
    hide SanitizeText, IsClean;
    if s.Some? { SanitizedIsClean(s.value); }
  }

  // ---- Capabilities ----------------------------------------------------------------------

  /** The entries collected again under their sanitised names, in the order of the old ones. */
  function SanitizeEntries(done: Entries, entries: Entries): Entries
    decreases |entries|
  {
    if entries == [] then done
    else SanitizeEntries(Insert(done, SanitizeText(entries[0].0), SanitizeText(entries[0].1)), entries[1..])
  }

  predicate AreClean(entries: Entries) {
    forall e :: e in entries ==> IsClean(e.0) && IsClean(e.1)
  }

  lemma {:induction false} SanitizedEntriesAreClean(done: Entries, entries: Entries)
    requires AreClean(done)
    ensures AreClean(SanitizeEntries(done, entries))
    decreases |entries|
  {
    hide IsClean, SanitizeText, Insert;
    if entries != [] {
      var (name, value) := (SanitizeText(entries[0].0), SanitizeText(entries[0].1));
      SanitizedIsClean(entries[0].0);
      SanitizedIsClean(entries[0].1);
      InsertedEntries(done, name, value);
      SanitizedEntriesAreClean(Insert(done, name, value), entries[1..]);
    }
  }

  lemma {:induction false} SanitizedEntriesAreSorted(done: Entries, entries: Entries)
    requires IsSorted(done)
    ensures IsSorted(SanitizeEntries(done, entries))
    decreases |entries|
  {
    hide IsSorted, SanitizeText, Insert;
    if entries != [] {
      var name, value := SanitizeText(entries[0].0), SanitizeText(entries[0].1);
      InsertKeepsSorted(done, name, value);
      SanitizedEntriesAreSorted(Insert(done, name, value), entries[1..]);
    }
  }

  lemma {:induction false} CleanEntriesStay(done: Entries, entries: Entries)
    requires IsSorted(done + entries) && AreClean(entries)
    ensures SanitizeEntries(done, entries) == done + entries
    decreases |entries|
  {
    hide IsSorted, IsClean, SanitizeText, Insert, Before;
    if entries == [] {
      assert done + entries == done;
    } else {
      var first := entries[0];
      assert first in entries;
      SanitizedIsClean(first.0);
      SanitizedIsClean(first.1);
      SortedParts(done, entries);
      InsertLast(done, first.0, first.1);
      assert done + [first] + entries[1..] == done + entries;
      CleanEntriesStay(done + [first], entries[1..]);
    }
  }

  /** The value of the last entry whose sanitised name is `name`. */
  function LastSanitized(entries: Entries, name: string): Option<string> {
    if entries == [] then None
    else
      var later := LastSanitized(entries[1..], name);
      if later.Some? then later
      else if SanitizeText(entries[0].0) == name then Some(SanitizeText(entries[0].1)) else None
  }

  lemma {:induction false} SanitizedLookup(done: Entries, entries: Entries, name: string)
    ensures Lookup(SanitizeEntries(done, entries), name) ==
            if LastSanitized(entries, name).Some? then LastSanitized(entries, name) else Lookup(done, name)
    decreases |entries|
  {
    hide SanitizeText, Insert, Lookup;
    if entries != [] {
      var first, value := SanitizeText(entries[0].0), SanitizeText(entries[0].1);
      InsertThenLookup(done, first, value, name);
      SanitizedLookup(Insert(done, first, value), entries[1..], name);
    }
  }

  /** Of names that become the same the last one's value is left; all stay as they are exactly when they are clean. */
  lemma EntriesStayExactly(entries: Entries)
    requires IsSorted(entries)
    ensures AreClean(SanitizeEntries([], entries)) && IsSorted(SanitizeEntries([], entries))
    ensures SanitizeEntries([], entries) == entries <==> AreClean(entries)
    ensures forall name :: Lookup(SanitizeEntries([], entries), name) == LastSanitized(entries, name)
  {
    hide IsSorted, AreClean, SanitizeEntries, LastSanitized;
    forall name ensures Lookup(SanitizeEntries([], entries), name) == LastSanitized(entries, name) {
      SanitizedLookup([], entries, name);
    }
    assert [] + entries == entries;
    assert IsSorted([]) by { NothingIsSorted(); }
    assert AreClean([]) by { NothingIsClean(); }
    SanitizedEntriesAreClean([], entries);
    SanitizedEntriesAreSorted([], entries);
    if AreClean(entries) { CleanEntriesStay([], entries); }
  }

  lemma NothingIsClean()
    ensures AreClean([])
  {
  }

  // ---- All fields ------------------------------------------------------------------------

  function SanitizeMessage(m: Msg.Message): Msg.Message {
    Msg.Message(SanitizeText(m.destination), SanitizeText(m.text), SanitizeOption(m.id),
                SanitizeOption(m.acknowledgementId), SanitizeOption(m.rejectionId))
  }

  predicate IsCleanMessage(m: Msg.Message) {
    && IsClean(m.destination) && IsClean(m.text) && IsCleanOption(m.id)
    && IsCleanOption(m.acknowledgementId) && IsCleanOption(m.rejectionId)
  }

  lemma SanitizedMessageIsClean(m: Msg.Message)
    ensures IsCleanMessage(SanitizeMessage(m))
    ensures SanitizeMessage(m) == m <==> IsCleanMessage(m)
  {
    hide SanitizeText, SanitizeOption, IsClean, IsCleanOption;
    SanitizedIsClean(m.destination);
    SanitizedIsClean(m.text);
    SanitizedOptionIsClean(m.id);
    SanitizedOptionIsClean(m.acknowledgementId);
    SanitizedOptionIsClean(m.rejectionId);
  }

  /** The texts of a state that are published as they are, but for placeholders. */
  function SanitizeTexts(f: Fields): Fields {
    f.(rawTimestamp := SanitizeOption(f.rawTimestamp), objectName := SanitizeOption(f.objectName),
       itemName := SanitizeOption(f.itemName), status := SanitizeOption(f.status), phg := SanitizeOption(f.phg),
       messageBits := SanitizeOption(f.messageBits))
  }

  function SanitizeParts(f: Fields): Fields {
    f.(comment := if f.comment.Some? then Some(SanitizeComment(f.comment.value)) else None,
       message := if f.message.Some? then Some(SanitizeMessage(f.message.value)) else None,
       telemetry := if f.telemetry.Some? then Some(f.telemetry.value.(bits := SanitizeOption(f.telemetry.value.bits)))
                    else None,
       weather := if f.weather.Some? then Some(f.weather.value.(software := SanitizeOption(f.weather.value.software)))
                  else None,
       capabilities := SanitizeEntries([], f.capabilities))
  }

  function Sanitized(f: Fields): Fields {
    SanitizeParts(SanitizeTexts(f))
  }

  predicate AreTextsClean(f: Fields) {
    && IsCleanOption(f.rawTimestamp) && IsCleanOption(f.objectName) && IsCleanOption(f.itemName)
    && IsCleanOption(f.status) && IsCleanOption(f.phg) && IsCleanOption(f.messageBits)
  }

  predicate ArePartsClean(f: Fields) {
    && (f.comment.Some? ==> IsCleanComment(f.comment.value))
    && (f.message.Some? ==> IsCleanMessage(f.message.value))
    && (f.telemetry.Some? ==> IsCleanOption(f.telemetry.value.bits))
    && (f.weather.Some? ==> IsCleanOption(f.weather.value.software))
    && AreClean(f.capabilities)
  }

  /** No comment holds a control character, and no other public text a placeholder. */
  predicate AreFieldsClean(f: Fields) {
    AreTextsClean(f) && ArePartsClean(f)
  }

  lemma TextsStayExactly(f: Fields)
    ensures AreTextsClean(SanitizeTexts(f))
    ensures SanitizeTexts(f) == f <==> AreTextsClean(f)
  {
    hide SanitizeOption, IsCleanOption;
    SanitizedOptionIsClean(f.rawTimestamp);
    SanitizedOptionIsClean(f.objectName);
    SanitizedOptionIsClean(f.itemName);
    SanitizedOptionIsClean(f.status);
    SanitizedOptionIsClean(f.phg);
    SanitizedOptionIsClean(f.messageBits);
  }

  lemma PartsStayExactly(f: Fields)
    requires IsSorted(f.capabilities)
    ensures ArePartsClean(SanitizeParts(f))
    ensures SanitizeParts(f) == f <==> ArePartsClean(f)
  {
    hide SanitizeOption, IsCleanOption, SanitizeComment, IsCleanComment, SanitizeMessage, IsCleanMessage,
      SanitizeEntries, AreClean, IsSorted;
    if f.comment.Some? { SanitizedCommentIsClean(f.comment.value); }
    if f.message.Some? { SanitizedMessageIsClean(f.message.value); }
    if f.telemetry.Some? { SanitizedOptionIsClean(f.telemetry.value.bits); }
    if f.weather.Some? { SanitizedOptionIsClean(f.weather.value.software); }
    EntriesStayExactly(f.capabilities);
  }

  /** Texts and parts are different fields. */
  lemma TextsAndParts(f: Fields)
    ensures AreTextsClean(SanitizeParts(f)) == AreTextsClean(f)
    ensures ArePartsClean(SanitizeTexts(f)) == ArePartsClean(f)
    ensures Sanitized(f) == f <==> SanitizeTexts(f) == f && SanitizeParts(f) == f
    ensures SanitizeTexts(f).capabilities == f.capabilities
  {
    hide SanitizeOption, IsCleanOption, SanitizeComment, IsCleanComment, SanitizeMessage, IsCleanMessage,
      SanitizeEntries, AreClean;
  }

  /** Sanitising leaves clean fields, and leaves fields alone exactly when they are clean. */
  lemma SanitizedExactly(f: Fields)
    requires IsSorted(f.capabilities)
    ensures AreFieldsClean(Sanitized(f))
    ensures Sanitized(f) == f <==> AreFieldsClean(f)
  {
    hide SanitizeTexts, SanitizeParts, AreTextsClean, ArePartsClean, IsSorted;
    TextsAndParts(f);
    TextsStayExactly(f);
    PartsStayExactly(f);
    TextsAndParts(SanitizeTexts(f));
    PartsStayExactly(SanitizeTexts(f));
  }

  lemma TextsKeepWhole(f: Fields)
    requires IsWhole(f)
    ensures IsWhole(SanitizeTexts(f))
  {
    hide SanitizeText, IsSorted;
  }

  lemma CapabilitiesKeepWhole(f: Fields)
    requires IsWhole(f) && f.packetType == Some(Capabilities)
    ensures IsWhole(SanitizeParts(f))
  {
    hide SanitizeOption, SanitizeComment, SanitizeMessage, SanitizeEntries, IsSorted;
    EntriesStayExactly(f.capabilities);
  }

  lemma PartsKeepWhole(f: Fields)
    requires IsWhole(f)
    ensures IsWhole(SanitizeParts(f))
  {
    hide SanitizeOption, SanitizeComment, SanitizeMessage, SanitizeEntries, IsSorted;
    if f.packetType == Some(Capabilities) { CapabilitiesKeepWhole(f); } else { NoEntries(); }
  }

  /** Sanitising keeps a whole state whole. */
  lemma SanitizedIsWhole(f: Fields)
    requires IsWhole(f)
    ensures IsWhole(Sanitized(f))
  {
    hide IsWhole, SanitizeTexts, SanitizeParts;
    TextsKeepWhole(f);
    PartsKeepWhole(SanitizeTexts(f));
  }

  lemma NoEntries()
    ensures SanitizeEntries([], []) == []
  {
  }

  // ---- Restoration -----------------------------------------------------------------------

  /** Status, comment and message text with their UTF-8 put back. */
  function Restored(f: Fields, parserBody: string, rawBody: seq<byte>): Fields {
    f.(status := if f.status.Some? then Some(Restore(f.status.value, parserBody, rawBody)) else None,
       comment := if f.comment.Some? then Some(Restore(f.comment.value, parserBody, rawBody)) else None,
       message := if f.message.Some? then
                    Some(f.message.value.(text := Restore(f.message.value.text, parserBody, rawBody)))
                  else None)
  }

  lemma RestoredIsWhole(f: Fields, parserBody: string, rawBody: seq<byte>)
    requires IsWhole(f)
    ensures IsWhole(Restored(f, parserBody, rawBody))
  {
    hide Restore, IsSorted;
  }

  /** A text that is as it was, or valid UTF-8 of the raw body that looks the same to the parser. */
  ghost predicate IsRefinedText(before: string, after: string, rawBody: seq<byte>) {
    after == before || exists i: nat :: IsRestoredFrom(after, before, rawBody, i)
  }

  /** Status, comment and message text are refined, and nothing else has changed. */
  ghost predicate IsRefined(f: Fields, g: Fields, rawBody: seq<byte>) {
    && f == g.(status := f.status, comment := f.comment, message := f.message)
    && (g.status.Some? <==> f.status.Some?) && (g.comment.Some? <==> f.comment.Some?)
    && (g.message.Some? <==> f.message.Some?)
    && (f.status.Some? ==> IsRefinedText(f.status.value, g.status.value, rawBody))
    && (f.comment.Some? ==> IsRefinedText(f.comment.value, g.comment.value, rawBody))
    && (f.message.Some? ==> && f.message.value == g.message.value.(text := f.message.value.text)
                            && IsRefinedText(f.message.value.text, g.message.value.text, rawBody))
  }

  lemma RestoredIsRefined(f: Fields, rawBody: seq<byte>)
    ensures IsRefined(f, Restored(f, ViewOf(rawBody), rawBody), rawBody)
  {
    hide Restore, IsRestoredFrom, ViewOf;
    if f.status.Some? { RestoreIsSlice(f.status.value, rawBody); }
    if f.comment.Some? { RestoreIsSlice(f.comment.value, rawBody); }
    if f.message.Some? { RestoreIsSlice(f.message.value.text, rawBody); }
  }

  lemma CleanIsNotRestored(s: string, parserBody: string, rawBody: seq<byte>)
    requires IsClean(s) || IsCleanComment(s)
    ensures Restore(s, parserBody, rawBody) == s
  {
    hide Restore;
    NothingToRestore(s, parserBody, rawBody);
  }

  /** What is published of the parser's fields. */
  function Published(f: Fields, parserBody: string, rawBody: seq<byte>): Fields {
    Sanitized(Restored(f, parserBody, rawBody))
  }

  lemma CleanFieldsAreNotRestored(f: Fields, parserBody: string, rawBody: seq<byte>)
    requires AreFieldsClean(f)
    ensures Restored(f, parserBody, rawBody) == f
  {
    hide Restore, IsClean, IsCleanComment;
    if f.status.Some? { CleanIsNotRestored(f.status.value, parserBody, rawBody); }
    if f.comment.Some? { CleanIsNotRestored(f.comment.value, parserBody, rawBody); }
    if f.message.Some? { CleanIsNotRestored(f.message.value.text, parserBody, rawBody); }
  }

  /** The parser's fields are published as they are exactly when they are clean. */
  lemma PublishedExactly(f: Fields, parserBody: string, rawBody: seq<byte>)
    requires IsSorted(f.capabilities)
    ensures AreFieldsClean(Published(f, parserBody, rawBody))
    ensures Published(f, parserBody, rawBody) == f <==> AreFieldsClean(f)
  {
    hide Sanitized, AreFieldsClean, Restored, IsSorted;
    assert Restored(f, parserBody, rawBody).capabilities == f.capabilities by { SameCapabilities(f, parserBody, rawBody); }
    SanitizedExactly(Restored(f, parserBody, rawBody));
    if AreFieldsClean(f) { CleanFieldsAreNotRestored(f, parserBody, rawBody); }
  }

  lemma SameCapabilities(f: Fields, parserBody: string, rawBody: seq<byte>)
    ensures Restored(f, parserBody, rawBody).capabilities == f.capabilities
  {
    hide Restore;
  }

  // ---- From raw bytes to the packet ------------------------------------------------------

  /** The typed packet of a raw packet, its header read by `leaves.destinationOf`. */
  function ParsedPacket(leaves: Leaves, acceptBrokenMicE: bool, raw: seq<byte>): Result<PacketBody, ParseError> {
    match SplitPacket(ViewOf(raw))
    case None => Err(PacketNoBody)
    case Some((header, body)) =>
      match leaves.destinationOf(header)
      case None => Err(BadHeader)
      case Some(destination) =>
        var o := BodyOutcome(leaves, acceptBrokenMicE, BLANK, destination, body);
        if o.error.Some? then Err(o.error.value)
        else
          RawBodyByLength(raw);
          PublishedIsWhole(leaves, acceptBrokenMicE, destination, body, raw[|raw| - |body|..]);
          Ok(PacketIn(Published(o.fields, body, raw[|raw| - |body|..]), SanitizeText(body)))
  }

  lemma PublishedIsWhole(leaves: Leaves, acceptBrokenMicE: bool, destination: string, body: string, rawBody: seq<byte>)
    requires body != "" && BodyOutcome(leaves, acceptBrokenMicE, BLANK, destination, body).error.None?
    ensures var f := Published(BodyOutcome(leaves, acceptBrokenMicE, BLANK, destination, body).fields, body, rawBody);
            IsWhole(f) && IsTyped(f)
  {
    hide BodyOutcome, IsWhole, IsTyped, Sanitized, Restored;
    var f := BodyOutcome(leaves, acceptBrokenMicE, BLANK, destination, body).fields;
    ParsedBodiesAreWhole(leaves, acceptBrokenMicE, destination, body);
    RestoredIsWhole(f, body, rawBody);
    SanitizedIsWhole(Restored(f, body, rawBody));
    WholeIsTyped(Published(f, body, rawBody));
  }

  /** The answers of the accessors: the fields, where a location whose messaging flag is unset has none. */
  function Answers(f: Fields): Fields {
    if f.packetType == Some(Location) then f.(messaging := Some(f.messaging == Some(true))) else f
  }

  /**
   * No body that parses is refused afterwards; the accessors answer with the published fields, and
   * with the parser's own fields exactly when those are clean.
   */
  lemma NothingElseIsLost(leaves: Leaves, acceptBrokenMicE: bool, destination: string, body: string, rawBody: seq<byte>)
    requires body != "" && BodyOutcome(leaves, acceptBrokenMicE, BLANK, destination, body).error.None?
    ensures var f := BodyOutcome(leaves, acceptBrokenMicE, BLANK, destination, body).fields;
            var published := Published(f, body, rawBody);
            && IsTyped(published)
            && Seen(PacketIn(published, SanitizeText(body))) == Answers(published)
            && (Seen(PacketIn(published, SanitizeText(body))) == Answers(f) <==> AreFieldsClean(f))
  {
    hide BodyOutcome, PacketIn, Seen, IsTyped, IsWhole, Sanitized, Restored, AreFieldsClean, SanitizeText, IsSorted, Published;
    var f := BodyOutcome(leaves, acceptBrokenMicE, BLANK, destination, body).fields;
    var published := Published(f, body, rawBody);
    ParsedBodiesAreWhole(leaves, acceptBrokenMicE, destination, body);
    PublishedIsWhole(leaves, acceptBrokenMicE, destination, body, rawBody);
    WholeStatesAreSeen(published, SanitizeText(body));
    assert IsSorted(f.capabilities) by { WholeIsSorted(f); }
    PublishedExactly(f, body, rawBody);
    SameFlags(f, body, rawBody);
    AnswersTellApart(f, published);
  }

  lemma WholeIsSorted(f: Fields)
    requires IsWhole(f)
    ensures IsSorted(f.capabilities)
  {
  }

  lemma SameFlags(f: Fields, body: string, rawBody: seq<byte>)
    ensures Published(f, body, rawBody).packetType == f.packetType && Published(f, body, rawBody).messaging == f.messaging
  {
    hide Restore, SanitizeOption, SanitizeComment, SanitizeMessage, SanitizeEntries;
  }

  lemma AnswersTellApart(f: Fields, g: Fields)
    requires f.packetType == g.packetType && f.messaging == g.messaging
    ensures Answers(f) == Answers(g) <==> f == g
  {
  }
}
