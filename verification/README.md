# Verified model of the frap APRS codec

`frap` parses, encodes and frames packets of the Automatic Packet Reporting System. This project
models its hard logic in Dafny and proves what the encoders, decoders, the in-place weather scanner
and the stateful readers keep, for every input. Text is `string`, raw frames are sequences of bytes.

| file | what it models |
|---|---|
| `Text.dfy`, `Chars.dfy`, `Numbers.dfy`, `Utf8.dfy` | sequences, ASCII characters, decimal and floating point texts, UTF-8 validity |
| `Calendar.dfy`, `Timestamp.dfy` | days to dates and back; timestamps without month and year, read against a clock |
| `Frame.dfy`, `Duplicate.dfy` | KISS, AX.25 and TNC2 framing; the key of duplicate detection |
| `LineReader.dfy` | the bounded, resumable line reader of the APRS-IS client |
| `Message.dfy`, `Telemetry.dfy` | messages; base-91 telemetry inside comments |
| `Uncompressed.dfy`, `Compressed.dfy`, `Comment.dfy`, `MicE.dfy` | the position formats and the extensions in their comments |
| `Weather.dfy`, `WeatherProofs.dfy`, `WeatherFields.dfy`, `WeatherReading.dfy` | the weather scanner, what it deletes, what it takes for a field, and what it reads |
| `View.dfy` | the ASCII view of raw bytes and the restoration of UTF-8 text |
| `SortedMap.dfy`, `Packet.dfy`, `PacketProofs.dfy` | all body parsers as functions on the parser's fields, the typed packet and its accessors |
| `Sanitize.dfy` | what is published of the fields: restored UTF-8, no placeholders, no control characters in comments |
| `Parser.dfy` | the parser state as an object, from raw bytes to the typed packet |
| `Encode.dfy`, `Reports.dfy` | whole information fields, written and parsed back |
| `EndToEnd.dfy` | raw packets against the accessors of the typed packet |

Loops and state changes of the source are methods; each is proved equal to a specification function,
and the lemmas are about those functions. `dafny verify dfyconfig.toml` checks everything.

## Main results

- Day counts and calendar dates are inverse to each other over all integers, and timestamps of the last
  26 days always recover their month and year; the exact condition is proved as well.
- KISS frames and TNC2 text undo each other up to an explicit canonical form of the call signs; exactly
  which bytes and which texts are packets is spelled out, bit by bit and character by character.
- Two reports have one key of duplicate detection exactly when source, destination base and payload are
  the same.
- The weather scanner deletes disjoint pieces and keeps everything else in order, cuts at most one piece
  per measurement, and every measurement is the number of its piece. From any state of the scan it is said
  exactly which characters are a field, a placeholder or part of a word.
- Reading lines is splitting the byte stream at line feeds, for every chunking and every timeout; a line
  is its text without the carriage returns and line feeds at its end.
- Every extension of a comment is taken wherever it stands, and what is left is parsed as if it had not
  been there.
- Encoded messages come back exactly for four shapes; encoded positions, objects and Mic-E reports come
  back within proved bounds, through the whole parser and under any comment.
- Every body that parses converts to a typed packet. Its accessors answer with every published field,
  and with the parser's own fields exactly when those hold no control character in a comment and no
  placeholder in another text.
- From the raw packet: status texts, timed or not, the text behind a position and messages come back
  exactly as sent under conditions that can be checked before sending, each proved as an if-and-only-if;
  encoded positions, objects and standard weather reports are shown by the accessors.

## Model

| member | source | states |
|---|---|---|
| `Calendar.CivilFromDaysIsDate` | src/encode.rs:394-406 | every integer day gives a real proleptic Gregorian date, whose own day count is that day |
| `Calendar.CivilInvertsDayCount` | src/timestamp.rs:99-111 | every real date is reached: the algorithm inverts the day count in the other direction too |
| `Calendar.NextIsOneDayLater` | src/encode.rs:394-406 | the independent day count steps by one from each date to its calendar successor, across month, year and leap-year ends |
| `Calendar.CivilFromDaysFollowsTheCalendar` | src/timestamp.rs:99-111 | day d + 1 is the calendar successor of day d, for every integer d |
| `Calendar.EpochIsDayZero` | src/encode.rs:394-406 | day zero is 1 January 1970 |
| `Calendar.DayCountInjective` | src/encode.rs:394-406 | different dates never share a day count |
| `Timestamp.DecodeDayHourMinute` | src/timestamp.rs:28-78 | a written day, hour and minute is read into the clock's month, or the month before when the day is too late, across January |
| `Timestamp.RecoveryExactly` | src/timestamp.rs:28-78 | for every instant and clock, exactly when the date comes back |
| `Timestamp.PastRecovery` | src/timestamp.rs:28-78 | for past instants: in the clock's month, or in the month before and no older than its length minus two days |
| `Timestamp.RecoveryWindow` | src/timestamp.rs:28-78 | up to 26 days back the full date and time always come back |
| `Timestamp.WindowIsTight` | src/timestamp.rs:28-78 | an instant 27 days back that does not come back |
| `Timestamp.TimeOfDayRecovery` | src/encode.rs:70-90 | an hour-minute-second text gives back the instant exactly on its own day |
| `Timestamp.DayOfMonthExactly` | src/timestamp.rs:28-78 | for all digits, with `z` and with `/`: accepted exactly when day, hour and minute are in range, in UTC or not by the suffix; what date they give |
| `Timestamp.TimeOfDayExactly` | src/timestamp.rs:28-78 | for all digits with `h`: accepted exactly when hour, minute and second are in range, on the day of the clock |
| `Timestamp.OtherTextsAreRefused` | src/timestamp.rs:28-34 | nothing but six digits and one of the three suffixes is accepted |
| `Frame.UnstuffStuff` | src/frame.rs:14-34 | undoing the KISS escapes of any bytes gives the bytes back, and the escaped bytes hold no FEND |
| `Frame.DecodeEncodeAddress` | src/frame.rs:251-256 | a shifted seven-byte address field decodes to the same call, SSID and mark, and its extension bit says whether it is the last |
| `Frame.ReadEncodeAddresses` | src/frame.rs:39-66 | the address loop reads back up to ten written fields and stops exactly behind the last |
| `Frame.AddressExactly` | src/frame.rs:39-66 | a seven-byte field is read as an address exactly when its bits say it, whatever the bits that carry nothing |
| `Frame.DecodeEncodeFrame` | src/frame.rs:39-93 | a written UI frame decodes to the same addresses and payload |
| `Frame.FrameExactly` | src/frame.rs:36-93 | bytes decode to a packet exactly when they are a zero, two to ten such fields of which the last alone is marked, 03 and F0, and its payload |
| `Frame.Ax25PartsOfCallText` | src/frame.rs:229-249 | the text of a call with its SSID splits back into the two |
| `Frame.CallExactly` | src/frame.rs:229-249 | a text is a call exactly when it is its base, or its base, a dash and digits of at most 15 |
| `Frame.ParseRender` | src/frame.rs:99-140 | rendered TNC2 text parses back to the same packet, up to the two command bits |
| `Frame.RenderParseIsCanonical` | src/frame.rs:99-140 | parsing a TNC2 frame and rendering it drops leading SSID zeros and `-0`, and changes nothing else |
| `Frame.Tnc2Exactly` | src/frame.rs:99-140 | a text with these parts is read as a packet exactly when each part says its address, with one to nine destinations and digipeaters |
| `Frame.ReadFramesHaveParts` | src/frame.rs:99-140 | every text that is read has such parts |
| `Frame.SampleFrame` | src/frame.rs:99-155 | one packet byte for byte in both forms |
| `Frame.KissRoundTrip` | src/frame.rs:99-155 | every frame the encoder accepts is delimited, holds no FEND inside, and decodes to its canonical form, payload byte for byte, for 0 to 8 digipeaters |
| `Frame.CanonicalIsStable` | src/frame.rs:99-155 | the canonical form encodes to the same bytes and is its own canonical form |
| `Frame.KissReverseFixpoint` | src/frame.rs:12-93 | text decoded from any frame encodes again exactly when it has a payload, and then decodes to itself, whatever escapes or reserved bits the frame used |
| `Frame.KissToTnc2` | src/frame.rs:12-93 | the decoding loops compute the specified decoder |
| `Frame.UnstuffLoop` | src/frame.rs:14-34 | the index loop over escapes equals the recursive unescaping, lone and foreign escapes included |
| `Frame.EscapesAreUndone` | src/frame.rs:14-34 | the two escapes are undone and every other byte stays, a lone escape byte included |
| `Frame.Tnc2ToKiss` | src/frame.rs:99-155 | the encoding loops compute the specified encoder |
| `Duplicate.AprsDuplicateParts` | src/frame.rs:159-189 | the unwrapping loop terminates and computes the specified key, which tells reports apart as `SameKeyExactly` says |
| `Duplicate.WrappersAreInvisible` | src/frame.rs:159-189 | any number of third-party wrappers leaves the key of any packet unchanged |
| `Duplicate.ReportHasKey` | src/frame.rs:159-189 | every wrapped report has a key; what the key says of its parts is `SameKeyExactly` |
| `Duplicate.SameKeyExactly` | src/frame.rs:159-189 | two reports have one key exactly when their sources are the same but for letter case, `-0` for no SSID, their destinations are the same up to the dash, and their payloads up to white space at the end |
| `Duplicate.KeyedPacketsAreReports` | src/frame.rs:266-300 | only wrapped reports with valid calls and paths have a key |
| `Duplicate.CallsExactly` | src/frame.rs:266-300 | exactly which source and destination calls are accepted |
| `Duplicate.SameReportVariants` | src/frame.rs:266-300 | letter case, `-0`, the destination SSID and the digipeater path make no difference |
| `Duplicate.TrailingWhitespace` | src/frame.rs:159-189 | trailing payload white space makes no difference, for any packet |
| `LineReader.AprsIsConnection.constructor` | src/aprsis.rs:59-82 | a new reader has read nothing of what the socket will deliver |
| `LineReader.AprsIsConnection.Consume` | src/aprsis.rs:107-125 | moving bytes keeps the 2048-byte bound on the buffer, and what it stands for, through the change to discarding |
| `LineReader.AprsIsConnection.ReadLine` | src/aprsis.rs:90-144 | one call returns the next outcome of the stream whatever the chunks were, and an interrupted call loses no byte |
| `LineReader.AprsIsConnection.ReadPacket` | src/aprsis.rs:151-158 | comments of the server are skipped and nothing else is |
| `LineReader.AprsIsConnection.ReadUntilClosed` | src/aprsis.rs:90-144 | calls repeated to the close, with timeouts in between, return exactly the outcomes of the simple specification |
| `LineReader.LineIsDelivered` | src/aprsis.rs:125-143 | a line is its text without any carriage returns and line feeds at its end, if it is UTF-8 and 2048 bytes are enough for it |
| `LineReader.LineIsNext` | src/aprsis.rs:90-143 | what a stream starts with up to its line feed is the next line, and the rest is left |
| `LineReader.TailIsNext` | src/aprsis.rs:94-106 | what follows the last line feed is an early close, or too long |
| `LineReader.CommentsArePassedOver` | src/aprsis.rs:151-158 | a line that starts with `#` is passed over, and any other is returned |
| `Utf8.EncodedIsUtf8` | src/aprsis.rs:135-138 | every sequence of Unicode scalar values in the encoding of RFC 3629, section 3, is accepted |
| `Utf8.Utf8IsEncoded` | src/aprsis.rs:135-138 | and only these are |
| `LineReader.OutcomesAreSplitLines` | src/aprsis.rs:90-144 | the simple specification is splitting at LF: one outcome per line, whose text is that of `LineIsDelivered`, and one for an unterminated tail |
| `Message.RoundTripExactly` | src/packet/parser.rs:1053-1111 | an encodable message comes back if and only if its addressee is trimmed and it is a lone reject, a lone ack, a numbered text with a readable reply-ack, or a plain text |
| `Message.DecodedMessagesAreStable` | src/encode.rs:159-229 | a decoded message that can be encoded comes back exactly |
| `Message.ContentSurvives` | src/packet/parser.rs:1066-1097 | the content field alone keeps its fields exactly for the four shapes |
| `Message.EncodesExactly` | src/encode.rs:159-229 | exactly which messages are encoded |
| `Message.ReadsExactly` | src/packet/parser.rs:1053-1066 | exactly which bodies are read as messages |
| `Message.IdsExactly` | src/packet/parser.rs:1071-1080 | exactly which texts are identifiers, with a brace in those of responses |
| `Message.TelemetryTextsExactly` | src/packet/parser.rs:1097-1108 | exactly which texts are telemetry metadata, in any letter case |
| `Telemetry.LastPairIsLast` | src/packet/parser.rs:581-601 | one scan over neighbouring pipes finds the valid pair that closes last |
| `Telemetry.PairsAreAdjacent` | src/packet/parser.rs:581-601 | a valid pair of pipes has no pipe between |
| `Telemetry.PayloadsExactly` | src/packet/parser.rs:581-601 | a payload is two to seven pairs of base-91 digits |
| `Telemetry.SelectPair` | src/packet/parser.rs:581-601 | the nested search from both ends finds the same pair |
| `Telemetry.InlineTelemetryEnd` | src/position.rs:705-716 | the search for a closing pipe stops at the next pipe or nowhere |
| `Telemetry.StripLoop` | src/position.rs:326-343 | the strip's own search, which returns from inside both loops, removes the span the decoder removes, up to the decoder's outer trim |
| `Telemetry.SecondReportIsDropped` | src/position.rs:258-265 | with two reports in a comment the one that closes last is decoded, and the strip before DAO drops the other one unread |
| `Telemetry.DecodeEncodedReport` | src/packet/parser.rs:602-620 | base-91 pairs give back the sequence, up to five channels and eight flags, lowest bit first |
| `Telemetry.DecodeInComment` | src/packet/parser.rs:581-624 | a report between pipes is found and decoded in any comment in which nothing valid closes later |
| `Uncompressed.ApplyAmbiguity` | src/encode.rs:425-436 | the loop from the end blanks the last digits and leaves points and letters |
| `Uncompressed.CoordinateDecodes` | src/position.rs:40-137 | a written coordinate with k blank digits is accepted with ambiguity k and decodes to the middle of its cell |
| `Uncompressed.CoordinateExactly` | src/position.rs:40-137 | any written coordinate is accepted exactly when its hemisphere, degrees and blanks allow it, with minutes up to 79 and the blanks of the latitude forced on it; then it is the middle of that cell |
| `Uncompressed.AcceptedMinutes` | src/position.rs:74-104 | the minutes of an accepted coordinate are digits with the last ones blank |
| `Uncompressed.PositionExactly` | src/position.rs:4-38 | two written coordinates are accepted together exactly when both are, the longitude no blanker than the latitude, and with a symbol table |
| `Uncompressed.ResolutionExactly` | src/position.rs:26-33 | the resolution is the width of the cell in metres |
| `Numbers.DecimalReads` | src/position.rs:63-73 | a decimal number with or without an exponent is accepted and reads as what it says |
| `Uncompressed.PositionDecodes` | src/position.rs:4-38 | an encoded position is accepted for every ambiguity, with its symbol and the comment behind it |
| `Uncompressed.AmbiguityIsBounded` | src/encode.rs:408-436 | without ambiguity within 0.01 minute of the input, and with it within half the reported resolution of that, on both axes |
| `Comment.LastDaoIsTail` | src/position.rs:262-320 | an extension at the end is the one selected, whatever candidates come before |
| `Comment.TelemetryKeepsTail` | src/position.rs:326-343 | no removal of inline telemetry reaches into it |
| `Comment.LastDao` | src/position.rs:266-303 | the selected place holds an extension, and no later place does |
| `Comment.RangeKeepsTail` | src/position.rs:220-226 | nor does the range extension, for every text the float parser accepts |
| `Comment.CommentEndingInDao` | src/position.rs:194-260 | so through all the extensions of the comment it is decoded |
| `Comment.DaoPrecision` | src/encode.rs:329-355 | a position encoded with DAO comes back within 0.0002 minute on both axes under any comment, the clamp below 60 minutes included |
| `Comment.CommentMovesLittle` | src/position.rs:262-320 | a comment moves a coordinate away from zero, by at most 0.01 minute, and never changes its sign |
| `Comment.CommentStaysExactly` | src/position.rs:194-320 | the comment is left whole exactly when no extension, altitude or telemetry stands in it, each spelled out, and its ends are not trimmed; otherwise it comes out shorter, or not at all |
| `Comment.PhgExactly` | src/position.rs:205-219 | power, height, gain and direction: four characters, or five in front of a slash |
| `Comment.RangeExactly` | src/position.rs:220-226 | four characters behind `RNG` are taken exactly when they are a number |
| `Comment.CourseExactly` | src/position.rs:227-244 | seven characters are a course and a speed exactly when they are digits, points and spaces around a slash |
| `Comment.AltitudeExactly` | src/position.rs:245-257 | the first `/A=`, anywhere, is an altitude exactly when six characters of one follow; only they are taken out |
| `Comment.ExtensionsAreTaken` | src/position.rs:194-260 | extensions in front, in any combination, and an altitude anywhere are taken, and the rest is parsed as if they were not there |
| `Comment.TelemetryIsTaken` | src/position.rs:258-265 | so is telemetry between pipes |
| `Comment.DaoIsTaken` | src/position.rs:262-320 | so is a DAO extension of either form, which moves the position by what it says, or names only its datum |
| `Comment.FinalCommentExactly` | src/position.rs:318-320 | of what is left, the white space around it and the slashes in front are dropped |
| `Compressed.ValuesInRange` | src/encode.rs:299-308 | scaled coordinates never overflow four base-91 digits, over the whole legal range |
| `Compressed.AppendBase91` | src/encode.rs:375-379 | the loop over divisors appends the four digits |
| `Compressed.Base91RoundTrip` | src/position.rs:731-741 | decoding inverts the four digits |
| `Compressed.CompressedDecodes` | src/position.rs:140-192 | an encoded compressed position decodes exactly when its code is not `}`, with one-sided errors below one unit, course within two degrees around the circle, and its table unless that is `a` to `j` |
| `Compressed.CompressedExactly` | src/position.rs:140-160 | exactly which texts are compressed positions |
| `Compressed.ExtensionsExactly` | src/position.rs:169-181 | the compression bytes are an altitude, a course and speed, a range or nothing, by their type and first byte |
| `MicE.MicEDecodes` | src/packet/parser.rs:423-536 | every wire form of a station (chapter 10 of the APRS Protocol Reference 1.0.1) decodes to the same values |
| `MicE.DecodedIsNear` | src/packet/parser.rs:464-525 | positions are exact, or within half a cell for ambiguity 1 to 4 |
| `MicE.MicEExactly` | src/packet/parser.rs:423-536 | exactly which destinations and bodies are Mic-E reports |
| `MicE.DivisionTruncates` | src/packet/parser.rs:526-534 | speed and course are divided toward zero, and the course wraps around sixteen bits |
| `MicE.RepairRestores` | src/packet/parser.rs:432-435 | a report that lost one space after a space is repaired to the intact report without speed and course |
| `Weather.WeatherFromComment` | src/position.rs:345-703 | the in-place loop terminates and computes the specified scan and finish, whose decisions are those of `WeatherFields` |
| `WeatherFields.FieldIsRead` | src/position.rs:415-672 | from any state of the scan: a letter with digits is read with so many of them as its field has, recorded and cut, or passed over as part of a word, exactly as said |
| `WeatherFields.NegativeExactly` | src/position.rs:415-672 | likewise a negative temperature or water level |
| `WeatherFields.BrokenTemperatureExactly` | src/position.rs:434-452 | a temperature with points or spaces among its digits is cut unread right behind another field |
| `WeatherFields.PlaceholderExactly` | src/position.rs:554-591 | a letter with points or spaces behind it is cut with up to five of them, but for snow in front of a visibility and fields out of their place |
| `WeatherFields.PlaceholderIsCut` | src/position.rs:655-679 | it is put back later, or in front of everything leaves its letter's separator |
| `WeatherFields.WordsAreLeft` | src/position.rs:415-425 | a letter with another letter behind it stays |
| `WeatherFields.TelemetryIsPassed` | src/position.rs:370-376 | telemetry between pipes is passed over whole |
| `WeatherFields.VoltageExactly` | src/position.rs:382-393 | the first old voltage is cut with its sign |
| `WeatherFields.RainCounterExactly` | src/position.rs:394-414 | so is the first rain counter, and in front of everything its placeholder |
| `WeatherFields.WindExactly` | src/position.rs:345-362 | both forms of the wind prefix, with or without an underscore, with numbers or not |
| `WeatherFields.NoWindInFront` | src/position.rs:345-366 | without a prefix everything is scanned, and no field is in sequence yet |
| `WeatherFields.FinishExactly` | src/position.rs:676-703 | the separator is dropped, the ends trimmed and the first gap closed; a name of three to five characters is the software |
| `Weather.Apply` | src/position.rs:370-672 | every decision shortens what is left to scan and keeps all placeholders behind the cursor |
| `WeatherProofs.RunConserves` | src/position.rs:370-675 | from any state of the scan: what comes out is what was kept and the unread text without the lost pieces |
| `WeatherProofs.ScanConserves` | src/position.rs:345-675 | after the wind prefix, the comment is the text with disjoint pieces deleted and the rest in order |
| `WeatherProofs.PlaceholdersLostOnlyInFront` | src/position.rs:655-675 | a placeholder is lost only where everything before it was cut as well |
| `WeatherProofs.OnePiecePerMeasurement` | src/position.rs:593-650 | at most one piece is cut per measurement, `L` and `l` being one |
| `WeatherReading.MeasurementsComeFromPieces` | src/position.rs:594-645 | every measurement is the wind prefix's or the number of the first piece cut for it; `s` is speed after a direction and snow before |
| `WeatherReading.FieldPiecesReadTheirText` | src/position.rs:560-672 | such a piece is its letter and the text of its number |
| `WeatherReading.StandardReport` | src/position.rs:345-703 | with either wind prefix and under every comment the nine measurements of a complete report are read as written, humidity 00 as 100; what is left is the comment without the pieces the scanner cuts from it |
| `WeatherReading.ExtraFieldIsRead` | src/position.rs:345-703 | luminosity in both forms, snow, water level, radiation and voltage behind a standard report are read whole, and everything else is as without them |
| `WeatherReading.ExtraTokenIsCut` | src/position.rs:382-414 | an old voltage or rain counter disappears, and nothing else changes |
| `WeatherReading.TelemetryIsLeft` | src/position.rs:370-376 | telemetry in the comment stays there for its own decoder, whatever letters it holds |
| `WeatherReading.PlainCommentIsLeft` | src/position.rs:345-703 | a comment without a letter that could still start a field stays whole, trimmed and its first white space collapsed; with no comment nothing is left |
| `WeatherReading.WindPrefixIsRead` | src/position.rs:345-360 | a course and speed in front of any weather text are its wind, whatever follows |
| `WeatherReading.FieldsAreRead` | src/position.rs:345-703 | the fields are read first and cut, whatever comment follows, digits right behind the pressure included |
| `View.RawBodyByLength` | src/packet/parser.rs:107-108 | the raw body found by its length alone is what follows the separator in the raw packet |
| `View.RestorationRefines` | src/packet/parser.rs:132-165 | a field changes only into valid UTF-8 of the raw body that looks the same to the parser, and not at all without the placeholder |
| `View.RestoredExactly` | src/packet/parser.rs:133-154 | exactly when it is replaced |
| `View.TailIsRestored` | src/packet/parser.rs:133-154 | a text at the end of a body is restored exactly when it is valid UTF-8, if nothing in front of it looks like a foreign byte |
| `View.OverlapIsNotSeen` | src/packet/parser.rs:137-147 | a text that occurs twice, overlapping, and is restored all the same |
| `View.ViewOf` | src/packet/view.rs:14-29 | the view keeps the length and maps byte by byte |
| `View.ViewExactly` | src/packet/view.rs:14-29 | ASCII as it is, one placeholder for 0xff and one for every other byte |
| `Parser.ParseState.constructor` | src/packet/types.rs:294-332 | a new state holds nothing |
| `Parser.ParseState.ParseBodyInner` | src/packet/parser.rs:316-421 | the dispatch over identifiers, run on the state, ends where the specified body parser does, error cases included |
| `Parser.ParseState.ParseBody` | src/packet/parser.rs:309-314 | on a new state, a body that parses leaves it whole: typed, and with nothing its type has no place for |
| `Parser.ParseState.ParseMicE` | src/packet/parser.rs:423-579 | the specified state, and a first attempt that fails changes nothing |
| `Parser.ParseState.ParseItem` | src/packet/parser.rs:1146-1163 | the search for the end of the name computes the specified one |
| `Parser.ParseState.ParseCapabilities` | src/packet/parser.rs:368-381 | the loop over the parts collects the specified map |
| `Parser.ParseState.RestoreTexts` | src/packet/parser.rs:132-165 | a whole state stays whole; each text is as it was or valid UTF-8 of the raw body that looks the same to the parser, and no other field changes |
| `Parser.ParseState.SanitizePlaceholders` | src/packet/parser.rs:167-231 | a whole state stays whole; the fields end clean, and are unchanged exactly when they were clean |
| `Parser.ParseState.SanitizeLoop` | src/packet/parser.rs:219-227 | the capabilities are collected again under their sanitised names |
| `Parser.ParseState.TakePosition` | src/packet/types.rs:359-383 | with both coordinates known: the position, and what is taken out of the state for it |
| `Parser.ParseState.IntoPacketRef` | src/packet/types.rs:385-447 | from a typed state: the typed packet, where no `expect` fails |
| `PacketProofs.ParsedBodiesAreWhole` | src/packet/parser.rs:316-421 | a body that parses leaves its packet type, all that the type needs, and nothing it has no place for |
| `PacketProofs.PositionsArePositioned` | src/packet/parser.rs:1042-1051 | a position that parses, in either format, sets both coordinates, makes the state a weather report exactly under the station symbol `_`, and leaves names, times and messages alone |
| `PacketProofs.SentencesAreFixed` | src/packet/parser.rs:693-743 | an accepted NMEA sentence has both coordinates, and each field is read only when it is there |
| `PacketProofs.ObjectsAreWhole` | src/packet/parser.rs:1113-1144 | an accepted object has name, state and position, and stays an object under every symbol |
| `PacketProofs.ItemsAreWhole` | src/packet/parser.rs:1146-1163 | likewise for items |
| `PacketProofs.WholeStatesAreSeen` | src/packet/types.rs:450-669 | the accessors of the typed packet answer with every field of a whole state and nothing else; an unset messaging flag of a location reads as false |
| `Sanitize.NothingElseIsLost` | src/packet/parser.rs:107-111 | a packet whose body parses is never refused afterwards; the accessors answer with the published fields, and with the parser's own exactly when those are clean |
| `Sanitize.SanitizedExactly` | src/packet/parser.rs:167-231 | sanitising leaves clean fields, and leaves fields alone exactly when they are clean |
| `Sanitize.SanitizedCommentIsClean` | src/packet/parser.rs:201-209 | a sanitised comment has no control character, and a comment stays as it is exactly when it had none |
| `Sanitize.CommentExactly` | src/packet/parser.rs:201-209 | each character of a comment is shown by itself and in order: control characters not at all, a foreign byte as a question mark |
| `Sanitize.TextExactly` | src/packet/parser.rs:167-178 | both placeholders become question marks, and no other character changes |
| `Sanitize.EntriesStayExactly` | src/packet/parser.rs:219-227 | of capabilities whose sanitised names are the same the last in name order gives the value; all stay as they are exactly when they are clean |
| `Sanitize.PublishedIsWhole` | src/packet/parser.rs:107-111 | restoring and sanitising keep a state whole, so the conversion after them cannot fail |
| `Parser.ParsePacket` | src/packet/parser.rs:52-111 | from raw bytes: separator, body parser, restoration, sanitising and conversion in a row, where no `expect` and no slice fails |
| `PacketProofs.RepairStartsClean` | src/packet/parser.rs:345-352 | the repair of a Mic-E report starts from an untouched state, and marks what it repairs |
| `Encode.MakePosition` | src/encode.rs:243-356 | the encoder's steps on one buffer give the specified text, or the error exactly outside the conditions of `EncodesPositionExactly` |
| `Encode.EncodesPositionExactly` | src/encode.rs:243-298 | exactly which coordinates, symbols, options and timestamps are accepted |
| `Encode.EncodesObjectExactly` | src/encode.rs:106-136 | likewise for objects, with their names |
| `Encode.MotionExactly` | src/encode.rs:308-324 | when a compressed motion is sent, and that its exponent is kept between 0 and 89 |
| `Encode.EncodedPositionsParse` | src/encode.rs:243-356 | every position the encoder accepts parses back, but for code `}` in compressed form: type, messaging, time, symbol, format, and coordinates within the stated tolerance under any comment; the altitude exactly when it fits; uncompressed course and speed always, as motion, or under the weather symbol as wind, where the number of knots is read as miles per hour; compressed ones exactly when no course stands in front of the comment or one that says the same, and otherwise those of the comment |
| `Encode.UncompressedShows` | src/position.rs:4-38 | the same for the uncompressed parser alone, from any state |
| `Encode.CompressedShows` | src/position.rs:140-192 | the same for the compressed parser alone, from any state |
| `Encode.CommentTakesOver` | src/position.rs:227-244 | a comment that overwrites the course and speed of a compressed position, and what is read instead |
| `Encode.SameMotionIsShown` | src/position.rs:227-244 | a comment in front of which stands the very course and speed that were sent |
| `Encode.SixCharactersAreEnough` | src/position.rs:245-257 | the six characters read as an altitude say the encoded one exactly when it fits |
| `Encode.WeatherReportsParse` | src/position.rs:185-203 | a standard report behind any encoded position under the weather symbol, in either format, is read through the body parser |
| `Encode.PositionlessReportsParse` | src/packet/parser.rs:386-395 | likewise a standard report without a position |
| `Encode.FitsExactly` | src/encode.rs:381-392 | which altitudes fit the six characters of the format |
| `Encode.ExtensionsAreRead` | src/position.rs:194-260 | written course, speed and altitude are what the comment parser takes first, whatever follows |
| `Encode.AltitudesAboveAMillionFeet` | src/encode.rs:381-392 | an altitude the encoder writes and the decoder misreads |
| `Encode.EncodedObjectsParse` | src/encode.rs:106-136 | every object the encoder accepts parses back, but for code `}` in compressed form: its state, its station, its name without trailing blanks, and within 26 days its time unless it was 11:11 on an 11th |
| `Encode.PermanentMinute` | src/packet/parser.rs:1132-1140 | exactly which times read as the marker of permanent objects |
| `Encode.EncodedMessagesParse` | src/packet/parser.rs:1053-1111 | an encoded message of a surviving shape leaves the body parser as that message, with nothing else set |
| `Reports.MicEBodiesParse` | src/packet/parser.rs:423-579 | a Mic-E report in any wire form and under any comment shows the station that sent it |
| `Reports.MicEAltitudeReads` | src/packet/parser.rs:563-575 | an altitude is read and removed alone, wherever no brace stands in front of it |
| `Reports.MicEAltitudesParse` | src/packet/parser.rs:558-579 | it comes back through the whole body parser, whatever telemetry stands behind it |
| `Reports.MicEAltitudeExactly` | src/packet/parser.rs:563-575 | three characters in front of the first brace, anywhere, are an altitude exactly when they are base-91 digits |
| `Reports.FiveChannelsAreRead` | src/packet/parser.rs:626-651 | ten hexadecimal digits behind an apostrophe are five channels |
| `Reports.TwoChannelsAreRead` | src/packet/parser.rs:626-651 | four are the first and the third |
| `Reports.MicECommentIsKept` | src/packet/parser.rs:558-579 | a Mic-E comment in which nothing is found is kept but for slashes in front |
| `Reports.MicEPipesAreTaken` | src/packet/parser.rs:558-579 | telemetry between pipes is taken out of it, and nothing else changes |
| `Reports.MicEChannelsAreTaken` | src/packet/parser.rs:576-578 | so are five old channels in front, and the white space behind them |
| `Reports.MicEAltitudeIsTaken` | src/packet/parser.rs:563-575 | so is an altitude in the middle |
| `Reports.MicEDaoIsTaken` | src/packet/parser.rs:577-579 | so is a DAO extension, which moves the position |
| `Reports.RepairedReportsParse` | src/packet/parser.rs:345-352 | with repair, a report that lost a space shows what the intact one shows, but for speed and course, and marked |
| `Reports.NmeaCoordinateReads` | src/packet/parser.rs:833-890 | a coordinate of any precision reads as what it says exactly within the limit of its axis |
| `Reports.RmcParse` | src/packet/parser.rs:700-714 | an RMC sentence gives its position, speed, course and time exactly when it is active and has a position |
| `Reports.GgaParse` | src/packet/parser.rs:715-727 | a GGA sentence its position and altitude exactly when it has a fix and a position |
| `Reports.GllParse` | src/packet/parser.rs:728-733 | a GLL sentence its position |
| `Reports.ChecksumIsChecked` | src/packet/parser.rs:676-693 | a checksum of two characters is noted when it matches, and refuses the sentence when not |
| `Reports.OtherSentencesAreRefused` | src/packet/parser.rs:699-743 | sentences of another kind, and ones too short for theirs, are refused |
| `Reports.ItemsParse` | src/packet/parser.rs:1146-1163 | an item with an encoded position shows its name, state and station under every symbol; it is refused exactly in compressed form with code `}` |
| `Reports.UntypedBodiesParse` | src/packet/parser.rs:396-421 | a body without a type is a beacon for four destinations, and otherwise a position behind the first `!` of up to forty characters |
| `Reports.LoggersParse` | src/packet/parser.rs:322-326 | weather loggers go to their decoder in two forms |
| `Reports.OtherTypesParse` | src/packet/parser.rs:382-400 | telemetry reports go to their decoder, and experimental packets are refused |
| `Reports.MalformedBodiesAreRefused` | src/packet/parser.rs:316-421 | bodies that are too short, objects without a state and items without an end are refused |
| `Reports.ExtensionsParse` | src/position.rs:194-260 | all extensions of a comment as fields, in any combination; a course that is no number from 1 to 360 as 0 |
| `Reports.TelemetryParse` | src/position.rs:258-260 | telemetry in a comment is shown, and all else as without it |
| `Reports.DaoParse` | src/position.rs:262-320 | a DAO extension moves the position and names its datum, and all else is as without it |
| `Reports.CompressedParse` | src/position.rs:140-192 | every compressed position without a comment, with an altitude, course and speed, or range |
| `Reports.WeatherTelemetryParse` | src/position.rs:185-203 | telemetry in the comment of a weather report is shown, and the comment without it |
| `Reports.WeatherCommentsParse` | src/position.rs:185-203 | a comment in which nothing starts a field comes back, with and without a position |
| `Reports.TimedStatus` | src/packet/parser.rs:356-367 | the body parser reads a timestamp in front of a status text, up to 26 days back |
| `Reports.CapabilitiesParse` | src/packet/parser.rs:368-381 | the body parser reads all capabilities, with or without a value, sorted by name, and the last of a name wins |
| `Reports.CapabilityExactly` | src/packet/parser.rs:370-380 | white space around a capability does not count, and a part of nothing else is none |
| `EndToEnd.Delivered` | src/packet/parser.rs:52-111 | a raw packet whose body parses is delivered, and its accessors answer with the published fields |
| `EndToEnd.StatusComesBack` | src/packet/parser.rs:132-231 | the accessors give a status text back exactly when it is clean UTF-8 and its seventh byte ends no timestamp |
| `EndToEnd.TimedStatusComesBack` | src/packet/parser.rs:132-231 | behind a timestamp: the time always, the text exactly when it is clean UTF-8 |
| `EndToEnd.CommentComesBack` | src/packet/parser.rs:132-231 | the text behind the fixed part of a position comes back exactly when it is UTF-8 without control characters in which no extension is found and no end is trimmed; otherwise sanitised if only encoding or controls are wrong |
| `EndToEnd.ControlsAreLost` | src/packet/parser.rs:201-209 | a packet whose comment the parser has with its control characters and the accessors without them |
| `EndToEnd.MessageComesBack` | src/packet/parser.rs:52-111 | an encoded ASCII message comes back if and only if it has a surviving shape and no placeholder character |
| `EndToEnd.MessageTextComesBack` | src/packet/parser.rs:156-165 | the text of a message without a number comes back from the raw packet exactly when it is clean UTF-8 |
| `EndToEnd.CapabilitiesComeBack` | src/packet/parser.rs:219-227 | the accessors give the capabilities as they were read exactly when they are clean |
| `EndToEnd.PositionComesBack` | src/encode.rs:243-356 | the accessors show every encoded position that parses, with its messaging flag and its time |
| `EndToEnd.WeatherComesBack` | src/position.rs:185-203 | the accessors show the nine readings of a standard report behind an encoded position, under every comment |
| `EndToEnd.ObjectComesBack` | src/encode.rs:106-136 | the accessors show every encoded object that parses, name and time included |

## Left out

- Uncompressed.CoordinateDecodes: latitudes and longitudes are exact reals instead of `f64`; longitude degrees spelled `nan`, which the source's float parser lets through as no number at all, are an error here.
- Compressed.CompressedDecodes: exact reals instead of `f64`; the logarithmic scales of speed, altitude and range stay as their integer exponents, and the encoder's exponent is a parameter.
- Calendar.CivilFromDaysIsDate: the year is the one before the cast to 32 bits; the two copies of the algorithm in the source are the same text and are one function here.
- WeatherReading.MeasurementsComeFromPieces: measurements are the numbers as sent, before conversion to metric units.
- Encode.EncodedPositionsParse: speeds are taken in knots and altitudes in feet, so the conversions from metric units, and values that are not finite, are not modelled.
- Parser.ParseState.ParseBodyInner: the Ultimeter and `T#` telemetry decoders, the checksum of NMEA sentences and their symbol table are parameters that may answer anything; warnings are left out.
- Parser.ParseState.constructor: the state's fields are one record value that the methods replace field by field; of the packet header it holds the destination alone.
- Parser.ParsePacket: the header is read by a parameter that gives its destination or refuses it; the sanitised header texts and the `original` text are not modelled.
- PacketProofs.SentencesAreFixed: course and altitude texts of NMEA sentences are kept as text.
- MicE.MicEDecodes: stations are within the ranges of the APRS reference; the +800 form of the speed is restricted to speeds below 200 knots, where its byte stays ASCII.
- LineReader.AprsIsConnection.ReadLine: timeouts and failures happen only when no byte is buffered, as with the buffered reader of the source; UTF-8 errors, closes and timeouts are told apart, their texts are not.
- LineReader.AprsIsConnection.ReadUntilClosed: a caller's loop that the library does not have, for the statement about whole runs.
- View.RestorationRefines: texts with UTF-8 are held as their encoded bytes, one character for each, so character boundaries are not modelled.
- Frame.Tnc2ToKiss: bit operations of the source are written as arithmetic.
- Header validation (strict and loose calls), path limits, `count_digihops` and the APRS-IS passcode: table lookups and checks without a property across functions.
- Great-circle distance and direction, and all logarithms and powers: floating point without a useful exact theorem.
- Connecting, login, writing and closing of the APRS-IS socket: input and output. The system clock is a parameter.
- Borrowed versus owned text, error messages and positions, benchmarks and comparison tools.
- The documentation of the weather report calls its telemetry and comment its own; for a positioned report the code moves both into the position, and the model follows the code.
