/**
 * Exactly which characters of a weather report the scanner takes for fields, and what it does with them,
 * from any state of the scan.
 */
module WeatherFields {
  import opened Text
  import opened Chars
  import opened Telemetry
  import opened Numbers
  import opened Comment
  import opened Weather

  // ---- Where the scan stands -------------------------------------------------------------

  /** The scan has passed over `front` and stands at `tail`. */
  predicate StandsAt(s: Scan, front: string, tail: string) {
    s.remaining == front + tail && s.cursor == |front| && ArePlaced(s.preserved, |front|)
  }

  const FIELD_LETTERS := {'c', 's', 'g', 't', 'r', 'p', 'P', 'h', 'b', 'L', 'l', 'F', 'X', 'V'}

  predicate IsLetter(c: char) { 'A' <= c <= 'Z' || 'a' <= c <= 'z' }

  predicate EndsInLetter(s: string) { s != "" && IsLetter(s[|s| - 1]) }

  predicate StartsWithLetter(s: string) { s != "" && IsLetter(s[0]) }

  predicate StartsWithDigit(s: string) { s != "" && '0' <= s[0] <= '9' }

  predicate StartsWithBlank(s: string) { s != "" && (s[0] == '.' || s[0] == ' ') }

  /** A letter that starts no other field. */
  predicate StartsWord(s: string, x: char) { StartsWithLetter(s) && (s[0] == x || s[0] !in FIELD_LETTERS) }

  /** The scan stands right behind the place where it last took a field. */
  predicate IsInSequence(s: Scan, front: string) { s.sequenceCursor == Some(|front|) }

  /**
   * When a letter with `digits` digits behind it is no field: inside a word, in front of one, or out of its place.
   * The rules for `h`, `s`, `L` and `l` hold only until a first number has been read.
   */
  predicate IsPartOfWord(s: Scan, front: string, x: char, digits: nat, rest: string) {
    match x
    case 'h' => s.seen == {} && digits == 1 && EndsInLetter(front) && StartsWithLetter(rest)
    case 's' => s.seen == {} && (EndsInLetter(front) || StartsWord(rest, 's'))
    case 'L' => s.seen == {} && front != "" && (digits < 3 || EndsInLetter(front))
    case 'l' => s.seen == {} && front != "" && (digits < 3 || EndsInLetter(front))
    case 'c' => EndsInLetter(front)
    case 'g' => EndsInLetter(front) || StartsWord(rest, 'g')
    case _ => IsOutOfSequence(s, front, x)
  }

  /** Water level, radiation and voltage count only in front or right behind another field. */
  predicate IsOutOfSequence(s: Scan, front: string, x: char) {
    x in {'F', 'X', 'V'} && front != "" && !IsInSequence(s, front)
  }

  lemma LookalikesExactly(s: Scan, front: string, x: char, digits: string, rest: string)
    requires StandsAt(s, front, [x] + digits + rest) && x in FIELD_LETTERS
    requires AllDigits(digits) && digits != "" && !StartsWithDigit(rest)
    ensures IsLookalike(s, [x] + digits + rest, 0, |digits|) <==> IsPartOfWord(s, front, x, |digits|, rest)
  {
    var candidate := [x] + digits + rest;
    assert candidate[1] == digits[0] && !IsBlank(digits[0]);
    assert LeadingBlanks(candidate[1..]) == 0;
    if rest != "" { assert candidate[1 + |digits|] == rest[0]; }
    if front != "" { assert s.remaining[s.cursor - 1] == front[|front| - 1]; }
  }

  // ---- Numbers ---------------------------------------------------------------------------

  /** Digits with white space behind them, up to the 32-bit limit. */
  lemma NumberIsRead(digits: string, after: string)
    requires AllDigits(digits) && digits != "" && AllSpace(after)
    ensures WeatherNumber(digits + after) == if NumberOf(digits) <= 2_147_483_647 then Some(NumberOf(digits)) else None
    ensures SignedNumber(digits + after) == if NumberOf(digits) <= 2_147_483_647 then Some(NumberOf(digits)) else None
  {
    hide NumberOf, Trim, IsTrimmed;
    DigitsAreTrimmed(digits);
    TrimExactly("", digits, after);
    var field := digits + after;
    assert "" + digits + after == field;
    assert field[0] == digits[0] && digits[0] in field;
    assert DropSign(digits) == digits;
  }

  lemma NegativeIsRead(digits: string, after: string)
    requires AllDigits(digits) && digits != "" && AllSpace(after)
    ensures SignedNumber("-" + digits + after) ==
            if NumberOf(digits) <= 2_147_483_648 then Some(-(NumberOf(digits) as int)) else None
  {
    hide NumberOf, Trim, IsTrimmed;
    DigitsAreTrimmed(digits);
    TrimExactly("", "-" + digits, after);
    assert "" + ("-" + digits) + after == "-" + digits + after;
    assert DropSign("-" + digits) == digits;
  }

  lemma DigitsAreTrimmed(digits: string)
    requires AllDigits(digits) && digits != ""
    ensures IsTrimmed(digits) && IsTrimmed("-" + digits) && !IsBlank(digits[0]) && !IsSign(digits[0])
  {
    assert IsDigitChar(digits[0]);
    assert [digits[0]][0] == digits[0] && [digits[|digits| - 1]][0] == digits[|digits| - 1] && ['-'][0] == '-';
    assert ("-" + digits)[|digits|] == digits[|digits| - 1];
  }

  lemma {:induction false} TrimmedTail(s: string)
    ensures AllSpace(s[|TrimEnd(s)|..])
  {
    if s != "" && IsSpace(s[|s| - 1]) {
      var front := s[..|s| - 1];
      TrimmedTail(front);
      var n := |TrimEnd(s)|;
      assert s[n..] == front[n..] + [s[|s| - 1]];
    }
  }

  /** Anything else behind the digits, and it is no number. */
  lemma NoNumberIsRead(sign: string, digits: string, after: string)
    requires sign in {"", "-"} && AllDigits(digits) && digits != "" && !StartsWithDigit(after) && !AllSpace(after)
    ensures sign == "" ==> WeatherNumber(sign + digits + after) == None
    ensures SignedNumber(sign + digits + after) == None && !AllBlank(sign + digits + after)
  {
    hide NumberOf, TrimEnd, TrimStart, AllSpace;
    var head := sign + digits;
    var s := head + after;
    var t := TrimEnd(s);
    TrimmedTail(s);
    assert s[|head|..] == after;
    if |t| <= |head| { SpacesBehind(s, |t|, |head|); }
    assert t[|head|] == after[0];
    assert s[0] == head[0] && !IsSpace(head[0]);
    assert Trim(s) == t;
    var body := DropSign(t);
    assert t[0] == head[0];
    assert body[|digits|] == after[0];
    assert digits[0] in s;
  }

  lemma SpacesBehind(s: string, i: nat, j: nat)
    requires i <= j <= |s| && AllSpace(s[i..])
    ensures AllSpace(s[j..])
  {
    assert forall k :: 0 <= k < |s| - j ==> s[j..][k] == s[i..][k + j - i];
  }

  // ---- What is read of a field -----------------------------------------------------------

  function Least(a: nat, b: nat): nat { if a < b then a else b }

  /** The width of a field whose number may have any number of digits up to a limit, or the fixed width of the others. */
  function WidthTaken(x: char, digits: nat): nat {
    if x == 'g' then digits
    else if x == 't' then Least(digits, 4)
    else if x in {'r', 'p', 'P', 'h', 'L', 'l', 's'} then Least(digits, 3)
    else if x == 'b' then (if digits == 4 then 4 else 5)
    else if x == 'F' then 4
    else 3
  }

  /** What follows a letter and its digits as its number, filled up with white space to the fixed width if need be. */
  function NumberTaken(x: char, digits: string, rest: string): Option<(nat, int)>
    requires AllDigits(digits)
  {
    var w := WidthTaken(x, |digits|);
    if w <= |digits| then
      var n := NumberOf(digits[..w]); if n <= 2_147_483_647 then Some((w, n)) else None
    else if w - |digits| <= |rest| && AllSpace(rest[..w - |digits|]) then Some((w, NumberOf(digits)))
    else None
  }

  /** What the scanner does at a letter with digits behind it. */
  function FieldAction(s: Scan, front: string, x: char, digits: string, rest: string): Action
    requires AllDigits(digits)
  {
    if IsPartOfWord(s, front, x, |digits|, rest) then Skip(|front| + 1)
    else
      match NumberTaken(x, digits, rest)
      case None => Skip(|front| + 1)
      case Some((width, value)) => Cut(width + 1, Field(x, value))
  }

  lemma {:induction false} DigitsInFront(digits: string, rest: string)
    requires AllDigits(digits) && !StartsWithDigit(rest)
    ensures LeadingDigits(digits + rest) == |digits|
  {
    var s := digits + rest;
    if digits == "" {
      assert s == rest;
    } else {
      assert s[1..] == digits[1..] + rest;
      DigitsInFront(digits[1..], rest);
    }
  }

  lemma {:induction false} FieldTextInFront(text: string, rest: string)
    requires IsFieldText(text) && !StartsWithDigit(rest) && !StartsWithBlank(rest)
    ensures LeadingFieldChars(text + rest) == |text|
  {
    var s := text + rest;
    if text == "" {
      assert s == rest;
    } else {
      assert s[1..] == text[1..] + rest;
      FieldTextInFront(text[1..], rest);
    }
  }

  lemma DigitsOnly(digits: string, rest: string)
    requires AllDigits(digits) && !StartsWithDigit(rest) && !StartsWithBlank(rest)
    ensures LeadingFieldChars(digits + rest) == |digits|
  {
    FieldTextInFront(digits, rest);
  }

  lemma {:induction false} SmallNumber(digits: string)
    requires AllDigits(digits) && |digits| <= 5
    ensures NumberOf(digits) <= 99_999
  {
    NumberIsBounded(digits);
    assert Pow10(0) == 1 && Pow10(1) == 10 && Pow10(2) == 100 && Pow10(3) == 1000 && Pow10(4) == 10_000 && Pow10(5) == 100_000;
  }

  lemma TakenSlice(front: string, digits: string, rest: string, w: nat)
    requires w <= |digits|
    ensures (front + digits + rest)[|front|..|front| + w] == digits[..w]
  {
  }

  lemma FilledSlice(front: string, digits: string, rest: string, w: nat)
    requires |digits| <= w <= |digits| + |rest|
    ensures (front + digits + rest)[|front|..|front| + w] == digits + rest[..w - |digits|]
  {
  }

  lemma ValueExactly(cursor: nat, x: char, digits: string, rest: string)
    requires x in FIELD_LETTERS && AllDigits(digits) && digits != "" && !StartsWithDigit(rest)
    ensures ClassifyValue(cursor, [x] + digits + rest, 0, |digits|) ==
            match NumberTaken(x, digits, rest)
            case None => Skip(cursor + 1)
            case Some((width, value)) => Cut(width + 1, Field(x, value))
  {
    hide NumberOf, WeatherNumber, SignedNumber, AllSpace, AllBlank, AllDigits;
    var candidate, n := [x] + digits + rest, |digits|;
    var w := WidthTaken(x, n);
    NoBlankInFront(x, digits, rest);
    if w <= n {
      TakenSlice([x], digits, rest, w);
      TakenDigits(x, digits, rest, w);
    } else if w - n <= |rest| {
      var after := rest[..w - n];
      FilledSlice([x], digits, rest, w);
      FilledDigits(digits, after);
      SmallNumber(digits);
    }
  }

  lemma NoBlankInFront(x: char, digits: string, rest: string)
    requires AllDigits(digits) && digits != ""
    ensures LeadingBlanks(([x] + digits + rest)[1..]) == 0
  {
    assert ([x] + digits + rest)[1..][0] == digits[0];
  }

  lemma TakenDigits(x: char, digits: string, rest: string, w: nat)
    requires AllDigits(digits) && 0 < w <= |digits|
    ensures AllDigits(digits[..w]) && !AllBlank(digits[..w])
    ensures var n := NumberOf(digits[..w]);
            && WeatherNumber(digits[..w]) == (if n <= 2_147_483_647 then Some(n) else None)
            && SignedNumber(digits[..w]) == (if n <= 2_147_483_647 then Some(n) else None)
  {
    hide NumberOf, WeatherNumber, SignedNumber;
    var d := digits[..w];
    NumberIsRead(d, "");
    assert d + "" == d;
    assert d[0] in d && !IsBlank(d[0]);
  }

  lemma FilledDigits(digits: string, after: string)
    requires AllDigits(digits) && digits != "" && !StartsWithDigit(after)
    ensures !AllBlank(digits + after)
    ensures var n := if AllSpace(after) && NumberOf(digits) <= 2_147_483_647 then Some(NumberOf(digits)) else None;
            WeatherNumber(digits + after) == n && SignedNumber(digits + after) == n
  {
    hide NumberOf, WeatherNumber, SignedNumber, AllSpace;
    assert (digits + after)[0] == digits[0] && digits[0] in digits + after;
    if AllSpace(after) {
      NumberIsRead(digits, after);
    } else {
      NoNumberIsRead("", digits, after);
      assert "" + digits + after == digits + after;
    }
  }

  /** At a field letter that is not used up only the field counts. */
  lemma FieldIsDecided(s: Scan, front: string, x: char, behind: string)
    requires StandsAt(s, front, [x] + behind) && x in FIELD_LETTERS && x !in s.seen
    ensures s.remaining[s.cursor..] == [x] + behind && FieldWidth(x).Some?
    ensures Classify(s) == ClassifyField(s, [x] + behind)
  {
    hide TelemetryEnd, ClassifyField;
    assert s.remaining[s.cursor..] == [x] + behind;
  }

  /** A letter with digits behind it is taken exactly as said, from any state of the scan. */
  lemma FieldExactly(s: Scan, front: string, x: char, digits: string, rest: string)
    requires StandsAt(s, front, [x] + digits + rest) && x in FIELD_LETTERS && x !in s.seen
    requires AllDigits(digits) && digits != "" && !StartsWithDigit(rest)
    requires x == 't' && IsInSequence(s, front) ==> !StartsWithBlank(rest)
    ensures Classify(s) == FieldAction(s, front, x, digits, rest)
  {
    hide IsLookalike, ClassifyValue, LeadingDigits, LeadingFieldChars, AllDigits, IsPartOfWord, NumberTaken, TelemetryEnd;
    var candidate := s.remaining[s.cursor..];
    assert candidate == [x] + digits + rest;
    assert candidate[1..] == digits + rest;
    assert candidate[1] == digits[0];
    DigitsInFront(digits, rest);
    if x == 't' && IsInSequence(s, front) { DigitsOnly(digits, rest); }
    LookalikesExactly(s, front, x, digits, rest);
    ValueExactly(s.cursor, x, digits, rest);
  }

  // ---- The other decisions ---------------------------------------------------------------

  /** A negative temperature or water level: up to four digits behind the sign of the one, three of the other. */
  function NegativeTaken(x: char, digits: string, rest: string): Option<(nat, int)>
    requires AllDigits(digits) && (x == 't' || x == 'F')
  {
    var n := |digits|;
    if x == 't' then Some((1 + Least(n, 4), -(NumberOf(digits[..Least(n, 4)]) as int)))
    else if n >= 3 then Some((4, -(NumberOf(digits[..3]) as int)))
    else if 3 - n <= |rest| && AllSpace(rest[..3 - n]) then Some((4, -(NumberOf(digits) as int)))
    else None
  }

  lemma NegativeValueExactly(cursor: nat, x: char, digits: string, rest: string)
    requires (x == 't' || x == 'F') && AllDigits(digits) && digits != "" && !StartsWithDigit(rest)
    ensures ClassifyValue(cursor, [x, '-'] + digits + rest, 1, |digits|) ==
            match NegativeTaken(x, digits, rest)
            case None => Skip(cursor + 1)
            case Some((width, value)) => Cut(width + 1, Field(x, value))
  {
    hide NumberOf, WeatherNumber, SignedNumber, AllSpace, AllBlank, AllDigits;
    var candidate, n := [x, '-'] + digits + rest, |digits|;
    assert candidate[1..][0] == '-';
    assert LeadingBlanks(candidate[1..]) == 0;
    var w := if x == 't' then Least(n, 4) else 3;
    if w <= n {
      assert candidate[1..w + 2] == "-" + digits[..w];
      NegativeDigits(digits, w);
    } else if w - n <= |rest| {
      var after := rest[..w - n];
      assert candidate[1..w + 2] == "-" + digits + after;
      NegativeFilled(digits, after);
    }
  }

  lemma NegativeDigits(digits: string, w: nat)
    requires AllDigits(digits) && 0 < w <= |digits| && w <= 4
    ensures AllDigits(digits[..w]) && SignedNumber("-" + digits[..w]) == Some(-(NumberOf(digits[..w]) as int))
    ensures !AllBlank("-" + digits[..w])
  {
    hide NumberOf, SignedNumber;
    NegativeIsRead(digits[..w], "");
    SmallNumber(digits[..w]);
    assert "-" + digits[..w] + "" == "-" + digits[..w];
    assert ("-" + digits[..w])[0] == '-' && '-' in "-" + digits[..w];
  }

  lemma NegativeFilled(digits: string, after: string)
    requires AllDigits(digits) && digits != "" && |digits| <= 4 && !StartsWithDigit(after)
    ensures SignedNumber("-" + digits + after) == if AllSpace(after) then Some(-(NumberOf(digits) as int)) else None
    ensures !AllBlank("-" + digits + after)
  {
    hide NumberOf, SignedNumber, AllSpace;
    SmallNumber(digits);
    var field := "-" + digits + after;
    assert field[0] == '-' && '-' in field;
    if AllSpace(after) { NegativeIsRead(digits, after); } else { NoNumberIsRead("-", digits, after); }
  }

  lemma NegativeExactly(s: Scan, front: string, x: char, digits: string, rest: string)
    requires StandsAt(s, front, [x, '-'] + digits + rest) && (x == 't' || x == 'F') && x !in s.seen
    requires AllDigits(digits) && digits != "" && !StartsWithDigit(rest)
    requires x == 't' && IsInSequence(s, front) ==> !StartsWithBlank(rest)
    ensures Classify(s) ==
            if IsOutOfSequence(s, front, x) then Skip(|front| + 1)
            else match NegativeTaken(x, digits, rest)
                 case None => Skip(|front| + 1)
                 case Some((width, value)) => Cut(width + 1, Field(x, value))
  {
    hide ClassifyValue, LeadingDigits, LeadingFieldChars, AllDigits, NegativeTaken, TelemetryEnd, LeadingBlanks;
    var candidate := s.remaining[s.cursor..];
    assert candidate == [x, '-'] + digits + rest;
    assert candidate[2..] == digits + rest && candidate[1] == '-';
    DigitsInFront(digits, rest);
    if x == 't' && IsInSequence(s, front) { DigitsOnly(digits, rest); }
    NegativeValueExactly(s.cursor, x, digits, rest);
  }

  predicate HasDigit(s: string) { exists k :: 0 <= k < |s| && IsDigitChar(s[k]) }

  /** Right behind another field a temperature with a digit, but a point or space among its digits, is cut unread. */
  lemma BrokenTemperatureExactly(s: Scan, front: string, negative: bool, text: string, rest: string)
    requires StandsAt(s, front, ['t'] + (SignText(negative) + text + rest)) && 't' !in s.seen && IsInSequence(s, front)
    requires IsFieldText(text) && !StartsWithDigit(rest) && !StartsWithBlank(rest)
    requires HasDigit(text) && !AllDigits(text)
    ensures Classify(s) == Cut(1 + |SignText(negative)| + |text|, BlankTemperature)
  {
    hide Classify, ClassifyField, LeadingDigits, LeadingFieldChars, IsFieldText, AllDigits, HasDigit, IsDigitChar;
    var behind := SignText(negative) + text + rest;
    FieldIsDecided(s, front, 't', behind);
    FirstOfField(text);
    var n := 1 + |SignText(negative)|;
    SignedTemperature(negative, text, rest);
    FieldTextInFront(text, rest);
    DigitsStop(text, rest);
    DigitInside(['t'] + behind, n, text, rest);
    TemperatureBranch(s, ['t'] + behind, |SignText(negative)|, |text|);
  }

  lemma SignedTemperature(negative: bool, text: string, rest: string)
    requires text != "" && text[0] != '-'
    ensures var candidate := ['t'] + (SignText(negative) + text + rest);
            && candidate[1 + |SignText(negative)|..] == text + rest
            && (CharAt(candidate, 1) == Some('-') <==> negative)
  {
    var candidate := ['t'] + (SignText(negative) + text + rest);
    assert candidate[1] == if negative then '-' else text[0];
  }

  lemma TemperatureBranch(s: Scan, candidate: string, signWidth: nat, width: nat)
    requires candidate != "" && candidate[0] == 't' && s.sequenceCursor == Some(s.cursor)
    requires signWidth == (if CharAt(candidate, 1) == Some('-') then 1 else 0) && 1 + signWidth <= |candidate|
    requires LeadingDigits(candidate[1 + signWidth..]) < width == LeadingFieldChars(candidate[1 + signWidth..])
    requires exists k :: 1 + signWidth <= k < 1 + signWidth + width && IsDigitChar(candidate[k])
    ensures ClassifyField(s, candidate) == Cut(1 + signWidth + width, BlankTemperature)
  {
    hide IsLookalike, ClassifyValue, LeadingDigits, LeadingFieldChars;
  }

  lemma FirstOfField(text: string)
    requires IsFieldText(text) && HasDigit(text)
    ensures text != "" && text[0] != '-'
  {
  }

  lemma DigitInside(candidate: string, n: nat, text: string, rest: string)
    requires n <= |candidate| && candidate[n..] == text + rest && HasDigit(text)
    ensures exists k :: n <= k < n + |text| && IsDigitChar(candidate[k])
  {
    var k :| 0 <= k < |text| && IsDigitChar(text[k]);
    assert candidate[n + k] == candidate[n..][k] == text[k];
  }

  lemma DigitsStop(text: string, rest: string)
    requires !AllDigits(text)
    ensures LeadingDigits(text + rest) < |text|
  {
    var k :| 0 <= k < |text| && !IsDigitChar(text[k]);
    assert (text + rest)[k] == text[k];
  }

  predicate AreBlanks(s: string) { forall k :: 0 <= k < |s| ==> s[k] == '.' || s[k] == ' ' }

  lemma BlanksAreNoNumber(s: string)
    requires AreBlanks(s)
    ensures AllBlank(s) && WeatherNumber(s) == None && SignedNumber(s) == None
  {
    hide NumberOf, TrimEnd, TrimStart;
    var t := Trim(s);
    TrimStartIsSuffix(TrimEnd(s));
    assert forall k :: 0 <= k < |t| ==> t[k] in s;
    if t != "" { assert t[0] in s; }
  }

  lemma {:induction false} BlanksInFront(blanks: string, rest: string)
    requires AreBlanks(blanks) && !StartsWithBlank(rest)
    ensures LeadingBlanks(blanks + rest) == |blanks|
  {
    var s := blanks + rest;
    if blanks == "" {
      assert s == rest;
    } else {
      assert s[1..] == blanks[1..] + rest;
      BlanksInFront(blanks[1..], rest);
    }
  }

  /** Snow without a number, in front of a visibility that has one. */
  predicate IsBeforeVisibility(front: string, x: char, rest: string) {
    x == 's' && front != "" && |rest| >= 2 && rest[0] == 'V' && '0' <= rest[1] <= '9'
  }

  /** A letter with points or spaces behind it is a placeholder, with up to five of them. */
  lemma PlaceholderExactly(s: Scan, front: string, x: char, blanks: string, rest: string)
    requires StandsAt(s, front, [x] + (blanks + rest)) && x in FIELD_LETTERS && x !in s.seen
    requires AreBlanks(blanks) && blanks != "" && !StartsWithBlank(rest)
    requires x == 't' && IsInSequence(s, front) ==> !StartsWithDigit(rest)
    ensures Classify(s) ==
            if IsOutOfSequence(s, front, x) || IsBeforeVisibility(front, x, rest) then Skip(|front| + 1)
            else Cut(1 + Least(|blanks|, 5), Placeholder(x))
  {
    hide Classify, IsLookalike, ClassifyValue, LeadingDigits, LeadingFieldChars, AreBlanks;
    FieldIsDecided(s, front, x, blanks + rest);
    var candidate := [x] + (blanks + rest);
    assert candidate[1..] == blanks + rest && candidate[1] == blanks[0];
    assert blanks[0] != '-' by { FirstBlank(blanks); }
    NoDigitInFront(blanks, rest);
    if x == 't' && IsInSequence(s, front) { AllFieldText(blanks, rest); NoDigitInside(candidate, blanks, rest); }
    BlankLookalikes(s, front, x, blanks, rest);
    BlankValue(s.cursor, x, blanks, rest);
  }

  lemma FirstBlank(blanks: string)
    requires AreBlanks(blanks) && blanks != ""
    ensures blanks[0] != '-'
  {
  }

  lemma BlankLookalikes(s: Scan, front: string, x: char, blanks: string, rest: string)
    requires StandsAt(s, front, [x] + (blanks + rest)) && x in FIELD_LETTERS
    requires AreBlanks(blanks) && blanks != "" && !StartsWithBlank(rest)
    ensures IsLookalike(s, [x] + (blanks + rest), 0, 0) <==>
            IsOutOfSequence(s, front, x) || IsBeforeVisibility(front, x, rest)
  {
    var candidate := [x] + (blanks + rest);
    assert candidate[1..] == blanks + rest;
    BlanksInFront(blanks, rest);
    if rest != "" { assert candidate[1 + |blanks|] == rest[0]; }
    if |rest| >= 2 { assert candidate[2 + |blanks|] == rest[1]; }
  }

  lemma BlankValue(cursor: nat, x: char, blanks: string, rest: string)
    requires x in FIELD_LETTERS && AreBlanks(blanks) && blanks != "" && !StartsWithBlank(rest)
    ensures ClassifyValue(cursor, [x] + (blanks + rest), 0, 0) == Cut(1 + Least(|blanks|, 5), Placeholder(x))
  {
    hide LeadingBlanks, WeatherNumber, SignedNumber, AllBlank;
    var candidate := [x] + (blanks + rest);
    assert candidate[1..] == blanks + rest;
    BlanksInFront(blanks, rest);
    var w := Least(|blanks|, 5);
    assert candidate[1..w + 1] == blanks[..w];
    BlanksAreNoNumber(blanks[..w]);
  }

  lemma NoDigitInFront(blanks: string, rest: string)
    requires AreBlanks(blanks) && blanks != ""
    ensures LeadingDigits(blanks + rest) == 0
  {
    assert (blanks + rest)[0] == blanks[0];
  }

  lemma AllFieldText(blanks: string, rest: string)
    requires AreBlanks(blanks) && !StartsWithBlank(rest) && !StartsWithDigit(rest)
    ensures LeadingFieldChars(blanks + rest) == |blanks|
  {
    FieldTextInFront(blanks, rest);
  }

  lemma NoDigitInside(candidate: string, blanks: string, rest: string)
    requires |candidate| >= 1 && candidate[1..] == blanks + rest && AreBlanks(blanks)
    ensures forall k :: 1 <= k < 1 + |blanks| ==> !IsDigitChar(candidate[k])
  {
    assert forall k :: 1 <= k < 1 + |blanks| ==> candidate[k] == candidate[1..][k - 1];
  }

  /** A letter with neither digit, sign, point nor white space behind it is left alone. */
  lemma WordsAreLeft(s: Scan, front: string, x: char, rest: string)
    requires StandsAt(s, front, [x] + rest) && x in FIELD_LETTERS
    requires rest == "" || (!IsDigitChar(rest[0]) && rest[0] !in {'.', '+', '-'} && !IsSpace(rest[0]))
    ensures Classify(s) == Skip(|front| + 1)
  {
    hide Classify, ClassifyField;
    if x in s.seen {
      OthersArePassed(s, front, x, rest);
    } else {
      FieldIsDecided(s, front, x, rest);
      WordField(s, x, rest);
    }
  }

  lemma WordField(s: Scan, x: char, rest: string)
    requires s.cursor < |s.remaining| && x in FIELD_LETTERS
    requires rest == "" || (!IsDigitChar(rest[0]) && rest[0] !in {'.', '+', '-'} && !IsSpace(rest[0]))
    ensures ClassifyField(s, [x] + rest) == Skip(s.cursor + 1)
  {
    hide IsLookalike, FieldNumber, AllBlank;
    var candidate := [x] + rest;
    assert candidate[1..] == rest;
    assert LeadingBlanks(rest) == 0 && LeadingDigits(rest) == 0 && LeadingFieldChars(rest) == 0;
    var w := FieldWidth(x).value.0;
    if |candidate| >= w + 1 { OddField(x, candidate[1..w + 1]); }
  }

  lemma OddField(x: char, field: string)
    requires field != "" && !IsDigitChar(field[0]) && field[0] !in {'.', '+', '-'} && !IsSpace(field[0])
    ensures FieldNumber(x, field) == None && !AllBlank(field)
  {
    hide NumberOf, TrimEnd;
    assert field[0] in field && !IsBlank(field[0]);
    var t := TrimEnd(field);
    TrimmedTail(field);
    assert field[0..] == field;
    assert Trim(field) == t && t[0] == field[0];
  }

  /** Telemetry between pipes is passed over whole. */
  lemma TelemetryIsPassed(s: Scan, front: string, payload: string, rest: string)
    requires StandsAt(s, front, "|" + payload + "|" + rest) && IsPayload(payload)
    ensures Classify(s) == Skip(|front| + |payload| + 2)
  {
    hide IsPayload, ClassifyLegacy, ClassifyField;
    var behind := s.remaining[s.cursor + 1..];
    assert behind == payload + ['|'] + rest;
    assert '|' !in payload by { PayloadHasNoPipe(payload); }
    IndexOfAt(payload, '|', rest);
    assert s.remaining[s.cursor + 1..s.cursor + 1 + |payload|] == payload;
    assert s.remaining[s.cursor..][0] == '|' == s.remaining[s.cursor];
  }

  lemma PayloadHasNoPipe(payload: string)
    requires IsPayload(payload)
    ensures '|' !in payload
  {
  }

  /** A character that starts no field, no token and no telemetry is passed over, and so is a field already read. */
  lemma OthersArePassed(s: Scan, front: string, x: char, rest: string)
    requires StandsAt(s, front, [x] + rest)
    requires x !in {'v', '#', '|'} && (x !in FIELD_LETTERS || x in s.seen)
    ensures Classify(s) == Skip(|front| + 1)
  {
    hide ClassifyField;
    assert s.remaining[s.cursor..] == [x] + rest;
  }

  lemma TokenIsDecided(s: Scan, front: string, x: char, behind: string)
    requires StandsAt(s, front, [x] + behind) && (x == 'v' || x == '#')
    ensures Classify(s) == match ClassifyLegacy(s, [x] + behind) case Some(a) => a case None => Skip(|front| + 1)
  {
    hide TelemetryEnd, ClassifyLegacy;
    assert s.remaining[s.cursor..] == [x] + behind;
  }

  /** The first old voltage is cut with its sign. */
  lemma VoltageExactly(s: Scan, front: string, sign: string, digits: string, rest: string)
    requires StandsAt(s, front, ['v'] + (sign + digits + rest)) && |sign| <= 1 && (sign != "" ==> IsSign(sign[0]))
    requires AllDigits(digits) && !StartsWithDigit(rest) && (sign == "" && digits == "" ==> rest == "" || !IsSign(rest[0]))
    ensures Classify(s) == if digits != "" && !s.voltage then Cut(1 + |sign| + |digits|, Voltage) else Skip(|front| + 1)
  {
    hide Classify, LeadingDigits;
    TokenIsDecided(s, front, 'v', sign + digits + rest);
    SignInFront(sign, digits, rest);
    DigitsInFront(digits, rest);
  }

  lemma SignInFront(sign: string, digits: string, rest: string)
    requires |sign| <= 1 && (sign != "" ==> IsSign(sign[0])) && AllDigits(digits)
    requires sign == "" && digits == "" ==> rest == "" || !IsSign(rest[0])
    ensures var candidate := ['v'] + (sign + digits + rest);
            && candidate[1 + |sign|..] == digits + rest
            && (CharAt(candidate, 1) == Some('+') || CharAt(candidate, 1) == Some('-') <==> sign != "")
  {
    var candidate := ['v'] + (sign + digits + rest);
    if sign != "" { assert candidate[1] == sign[0]; }
    else if digits != "" { assert candidate[1] == digits[0]; }
    else if rest != "" { assert candidate[1] == rest[0]; }
  }

  /** The first raw rain counter is cut, and in front of everything its placeholder. */
  lemma RainCounterExactly(s: Scan, front: string, digits: string, blanks: string, rest: string)
    requires StandsAt(s, front, ['#'] + (digits + (blanks + rest))) && AllDigits(digits) && AreBlanks(blanks)
    requires !StartsWithBlank(rest) && (blanks == "" ==> !StartsWithDigit(rest))
    ensures Classify(s) ==
            if s.rainCounter then Skip(|front| + 1)
            else if digits != "" then Cut(1 + |digits|, RainCounter)
            else if front == "" && blanks != "" then Cut(1 + Least(|blanks|, 5), RainPlaceholder)
            else Skip(|front| + 1)
  {
    hide Classify, LeadingDigits, LeadingBlanks, AllDigits, AreBlanks;
    TokenIsDecided(s, front, '#', digits + (blanks + rest));
    assert (['#'] + (digits + (blanks + rest)))[1..] == digits + (blanks + rest);
    BlanksThenRest(blanks, rest);
    DigitsInFront(digits, blanks + rest);
    if digits == "" {
      assert digits + (blanks + rest) == blanks + rest;
      BlanksInFront(blanks, rest);
    }
  }

  lemma BlanksThenRest(blanks: string, rest: string)
    requires AreBlanks(blanks) && (blanks == "" ==> !StartsWithDigit(rest))
    ensures !StartsWithDigit(blanks + rest)
  {
    if blanks == "" { assert blanks + rest == rest; } else { assert (blanks + rest)[0] == blanks[0]; }
  }

  // ---- What a decision does --------------------------------------------------------------

  lemma CutOut(front: string, piece: string, rest: string)
    ensures var s := front + (piece + rest); s[..|front|] + s[|front| + |piece|..] == front + rest
    ensures var s := front + (piece + rest); s[|front|..|front| + |piece|] == piece
  {
  }

  /** The characters of one token are cut, and the scan goes on where they stood. */
  function AfterCut(s: Scan, front: string, rest: string): Scan {
    s.(remaining := front + rest, cursor := |front|)
  }

  /** The scan behind a field: its number is recorded and its letter used up, `L` and `l` together. */
  function AfterField(s: Scan, front: string, x: char, value: int, rest: string): Scan {
    AfterCut(s, front, rest).(weather := Record(s.weather, s.seen, x, value),
                              seen := s.seen + (if x == 'L' || x == 'l' then {'L', 'l'} else {x}),
                              sequenceCursor := Some(|front|))
  }

  /** The scan behind a placeholder, which is put back later unless it stands in front of everything. */
  function AfterPlaceholder(s: Scan, front: string, x: char, blanks: string, rest: string): Scan
    requires |blanks| <= 5
  {
    var cut := AfterCut(s, front, rest).(sequenceCursor := Some(|front|));
    if front != "" then cut.(preserved := s.preserved + [(|front|, [x] + blanks)])
    else if x in {'r', 'P', 'p', 'h', 'b', 'l', 'L', 's'} then cut.(separatorCapacity := 5 - |blanks|)
    else cut
  }

  lemma FieldIsCut(s: Scan, front: string, x: char, number: string, value: int, rest: string)
    requires StandsAt(s, front, [x] + number + rest) && number != ""
    requires Classify(s) == Cut(1 + |number|, Field(x, value))
    ensures IsScan(AfterField(s, front, x, value, rest)) && Run(s) == Run(AfterField(s, front, x, value, rest))
  {
    hide Classify, Run, Record;
    CutOut(front, [x] + number, rest);
    RunStep(s);
  }

  lemma PlaceholderIsCut(s: Scan, front: string, x: char, blanks: string, rest: string)
    requires StandsAt(s, front, [x] + blanks + rest) && 1 <= |blanks| <= 5
    requires Classify(s) == Cut(1 + |blanks|, Placeholder(x))
    ensures IsScan(AfterPlaceholder(s, front, x, blanks, rest)) && Run(s) == Run(AfterPlaceholder(s, front, x, blanks, rest))
  {
    hide Classify, Run;
    CutOut(front, [x] + blanks, rest);
    RunStep(s);
  }

  /** Old tokens are used up, and do not count as fields; a broken temperature keeps the sequence of fields. */
  function AfterToken(s: Scan, front: string, kind: Kind, length: nat, rest: string): Scan {
    var cut := AfterCut(s, front, rest);
    if kind == Voltage then cut.(voltage := true)
    else if kind == RainCounter then cut.(rainCounter := true)
    else if kind == BlankTemperature then cut.(sequenceCursor := Some(|front|))
    else cut.(separatorCapacity := if length <= 5 then 6 - length else 0)
  }

  lemma TokenIsCut(s: Scan, front: string, token: string, kind: Kind, rest: string)
    requires StandsAt(s, front, token + rest) && |token| >= 2 && Classify(s) == Cut(|token|, kind)
    requires kind in {Voltage, RainCounter, RainPlaceholder, BlankTemperature}
    ensures IsScan(AfterToken(s, front, kind, |token|, rest)) && Run(s) == Run(AfterToken(s, front, kind, |token|, rest))
  {
    hide Classify, Run;
    CutOut(front, token, rest);
    RunStep(s);
  }

  /** What is passed over stays, and the scan stands behind it. */
  lemma TailIsPassed(s: Scan, front: string, tail: string, width: nat)
    requires StandsAt(s, front, tail) && 1 <= width <= |tail| && Classify(s) == Skip(|front| + width)
    ensures StandsAt(s.(cursor := |front| + width), front + tail[..width], tail[width..])
    ensures Run(s) == Run(s.(cursor := |front| + width))
  {
    hide Classify, Run;
    RunStep(s);
    assert front + tail == front + tail[..width] + tail[width..];
  }

  /** From any state: a letter with digits is read, cut and recorded, or passed over, exactly as said. */
  lemma FieldIsRead(s: Scan, front: string, x: char, digits: string, rest: string)
    requires StandsAt(s, front, [x] + digits + rest) && x in FIELD_LETTERS && x !in s.seen
    requires AllDigits(digits) && digits != "" && !StartsWithDigit(rest)
    requires x == 't' && IsInSequence(s, front) ==> !StartsWithBlank(rest)
    ensures var taken := NumberTaken(x, digits, rest);
            if IsPartOfWord(s, front, x, |digits|, rest) || taken == None then Run(s) == Run(s.(cursor := |front| + 1))
            else var (width, value) := taken.value;
                 0 < width <= |digits| + |rest| && Run(s) == Run(AfterField(s, front, x, value, (digits + rest)[width..]))
  {
    hide Classify, Run, Record, IsPartOfWord, NumberTaken, NumberOf, StandsAt, AfterField;
    FieldExactly(s, front, x, digits, rest);
    var taken := NumberTaken(x, digits, rest);
    if IsPartOfWord(s, front, x, |digits|, rest) || taken == None {
      TailIsPassed(s, front, [x] + digits + rest, 1);
    } else {
      var (width, value) := taken.value;
      TakenFits(x, digits, rest);
      var number := (digits + rest)[..width];
      assert [x] + digits + rest == [x] + number + (digits + rest)[width..];
      FieldIsCut(s, front, x, number, value, (digits + rest)[width..]);
    }
  }

  lemma TakenFits(x: char, digits: string, rest: string)
    requires AllDigits(digits) && digits != "" && NumberTaken(x, digits, rest).Some?
    ensures 0 < NumberTaken(x, digits, rest).value.0 <= |digits| + |rest|
  {
    hide NumberOf, AllSpace;
  }

  // ---- Where the scan starts, and how it ends --------------------------------------------

  /** The scan at the front of the buffer, right behind a field, with `seen` fields read. */
  function AtFront(remaining: string, seen: set<char>, w: Weather): Scan {
    Scan(remaining, 0, Some(0), seen, [], false, false, 0, w)
  }

  function WindStart(direction: string, speed: string, rest: string): Scan {
    AtFront(rest, {}, NO_WEATHER.(windDirection := WeatherNumber(direction), windSpeed := WeatherNumber(speed)))
  }

  /** A wind prefix of either form, with or without an underscore, is taken off; its numbers need not be any. */
  lemma WindExactly(direction: string, speed: string, rest: string)
    requires |direction| == |speed| == 3
    ensures var slashed, start := direction + "/" + speed + rest, WindStart(direction, speed, rest);
            (direction[0] != '_' ==> Start(slashed) == start) && Start("_" + slashed) == start
    ensures var lettered, start := "c" + direction + "s" + speed + rest, WindStart(direction, speed, rest);
            direction[2] != '/' ==> Start(lettered) == start && Start("_" + lettered) == start
  {
    hide Start;
    SlashedWind(direction, speed, rest);
    if direction[2] != '/' { LetteredWind(direction, speed, rest); }
  }

  lemma SlashedWind(direction: string, speed: string, rest: string)
    requires |direction| == |speed| == 3
    ensures var slashed, start := direction + "/" + speed + rest, WindStart(direction, speed, rest);
            (direction[0] != '_' ==> Start(slashed) == start) && Start("_" + slashed) == start
  {
    hide WeatherNumber;
    var slashed := direction + "/" + speed + rest;
    assert slashed[..3] == direction && slashed[3] == '/' && slashed[4..7] == speed && slashed[7..] == rest;
    assert slashed[0] == direction[0];
    assert ("_" + slashed)[1..] == slashed;
  }

  lemma LetteredWind(direction: string, speed: string, rest: string)
    requires |direction| == |speed| == 3 && direction[2] != '/'
    ensures var lettered, start := "c" + direction + "s" + speed + rest, WindStart(direction, speed, rest);
            Start(lettered) == start && Start("_" + lettered) == start
  {
    hide WeatherNumber;
    var lettered := "c" + direction + "s" + speed + rest;
    assert lettered[1..4] == direction && lettered[3] == direction[2] && lettered[4] == 's';
    assert lettered[5..8] == speed && lettered[8..] == rest;
    assert ("_" + lettered)[1..] == lettered;
  }

  /** Without one everything is scanned. */
  lemma NoWindInFront(data: string)
    requires (data == "" || data[0] != '_') && (|data| < 7 || data[3] != '/') && (|data| < 8 || data[0] != 'c' || data[4] != 's')
    ensures Start(data) == AtFront(data, {}, NO_WEATHER).(sequenceCursor := None)
    ensures Start("_" + data) == Start(data)
  {
    assert ("_" + data)[1..] == data;
  }

  predicate IsGap(s: string) { forall k :: 0 <= k < |s| ==> s[k] as int in {9, 10, 12, 13, 32} }

  predicate HasNoGap(s: string) { forall k :: 0 <= k < |s| ==> s[k] as int !in {9, 10, 12, 13, 32} }

  lemma {:induction false} GapIsDropped(gap: string, after: string)
    requires IsGap(gap) && (after != "" ==> HasNoGap([after[0]]))
    ensures DropWhitespace(gap + after) == after
  {
    var s := gap + after;
    if gap == "" {
      assert s == after;
      if after != "" { assert [after[0]][0] == after[0]; }
    } else {
      assert s[1..] == gap[1..] + after;
      GapIsDropped(gap[1..], after);
    }
  }

  /** The first run of white space becomes one space, and no other changes. */
  lemma {:induction false} GapsExactly(before: string, gap: string, after: string)
    requires HasNoGap(before) && IsGap(gap) && (after != "" ==> HasNoGap([after[0]])) && (gap == "" ==> after == "")
    ensures CollapseFirst(before + gap + after) == if gap == "" then before else before + " " + after
  {
    var s := before + gap + after;
    if before != "" {
      assert s[1..] == before[1..] + gap + after;
      GapsExactly(before[1..], gap, after);
    } else if gap != "" {
      assert s == gap + after;
      GapIsDropped(gap, after);
    } else {
      assert s == "";
    }
  }

  predicate IsName(s: string) {
    3 <= |s| <= 5
    && forall k :: 0 <= k < |s| ==> IsLetter(s[k]) || '0' <= s[k] <= '9' || s[k] == '-' || s[k] == '_'
  }

  lemma NamesExactly(s: string)
    ensures IsSoftware(s) <==> IsName(s)
  {
    if IsSoftware(s) { assert forall k :: 0 <= k < |s| ==> s[k] in s; }
  }

  /**
   * What is left of the text: behind the points and spaces that still belong to a placeholder, trimmed, and
   * its first gap closed to one space; a name of three to five characters is the software and no comment.
   */
  lemma FinishExactly(blanks: string, outer: string, before: string, gap: string, after: string, outerEnd: string,
                      capacity: nat, w: Weather)
    requires AreBlanks(blanks) && AllSpace(outer) && AllSpace(outerEnd) && IsTrimmed(before + gap + after)
    requires HasNoGap(before) && IsGap(gap) && (after != "" ==> HasNoGap([after[0]])) && (gap == "" ==> after == "")
    requires |blanks| == capacity || (|blanks| < capacity && !StartsWithBlank(outer + (before + gap + after) + outerEnd))
    ensures var comment := if gap == "" then before else before + " " + after;
            FinishText(blanks + (outer + (before + gap + after) + outerEnd), capacity, w) ==
            if IsName(comment) then (w.(software := Some(comment)), "") else (w, comment)
  {
    hide LeadingBlanks, Trim, CollapseFirst, IsSoftware, IsTrimmed, HasNoGap, IsGap;
    var comment := before + gap + after;
    var rest := outer + comment + outerEnd;
    var text := blanks + rest;
    SeparatorExactly(blanks, rest, capacity);
    assert text[|blanks|..] == rest;
    TrimExactly(outer, comment, outerEnd);
    GapsExactly(before, gap, after);
    NamesExactly(if gap == "" then before else before + " " + after);
  }

  lemma SeparatorExactly(blanks: string, rest: string, capacity: nat)
    requires AreBlanks(blanks) && (|blanks| == capacity || (|blanks| < capacity && !StartsWithBlank(rest)))
    ensures var text := blanks + rest; LeadingBlanks(text[..Least(capacity, |text|)]) == |blanks|
  {
    var text := blanks + rest;
    var n := Least(capacity, |text|);
    var shorter := rest[..n - |blanks|];
    assert text[..n] == blanks + shorter;
    BlanksInFront(blanks, shorter);
  }
}
