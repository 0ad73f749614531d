/** Underscores between the digit groups of long numbers in JSON text. */
module NumericSeparators {
  import opened Basics
  import opened Text

  predicate IsDigit(c: char) {
    '0' <= c <= '9'
  }

  /** What a regular expression's `\b` counts as part of a word. */
  predicate IsWord(c: char) {
    'a' <= c <= 'z' || 'A' <= c <= 'Z' || IsDigit(c) || c == '_'
  }

  function DigitRun(s: string): (n: nat)
    ensures n <= |s| && (forall i :: 0 <= i < n ==> IsDigit(s[i])) && (n < |s| ==> !IsDigit(s[n]))
  {
    if s != "" && IsDigit(s[0]) then 1 + DigitRun(s[1..]) else 0
  }

  /** How far it is to the end of an opened string literal, its closing quote included; 0 if it has none. */
  function BodyLength(s: string): (n: nat)
    ensures n <= |s|
  {
    if s == "" then 0
    else if s[0] == '"' then 1
    else if s[0] != '\\' then Behind(1, BodyLength(s[1..]))
    else if |s| >= 2 && s[1] !in LINE_BREAKS then Behind(2, BodyLength(s[2..]))
    else 0
  }

  function Behind(skipped: nat, rest: nat): nat {
    if rest == 0 then 0 else skipped + rest
  }

  /** The length of the string literal a text starts with, or 0. */
  function LiteralLength(s: string): (n: nat)
    ensures n <= |s|
  {
    if s != "" && s[0] == '"' then Behind(1, BodyLength(s[1..])) else 0
  }

  function Group(digits: string): string {
    if |digits| <= 3 then digits
    else Group(digits[..|digits| - 3]) + "_" + digits[|digits| - 3..]
  }

  /** The text from here on, given whether a word character stands before it. */
  function Separated(json: string, afterWord: bool): string {
    if json == "" then ""
    else if LiteralLength(json) > 0 then
      json[..LiteralLength(json)] + Separated(json[LiteralLength(json)..], false)
    else if StandsAlone(json, afterWord) then
      Group(json[..DigitRun(json)]) + Separated(json[DigitRun(json)..], true)
    else [json[0]] + Separated(json[1..], IsWord(json[0]))
  }

  /** Five digits or more with no word character on either side. */
  predicate StandsAlone(json: string, afterWord: bool) {
    !afterWord && DigitRun(json) >= 5 && (DigitRun(json) < |json| ==> !IsWord(json[DigitRun(json)]))
  }

  function WithNumericSeparators(json: string): string {
    Separated(json, false)
  }

  lemma {:induction false} Characters(c: char)
    ensures IsDigit(c) <==> c in DIGITS
    ensures IsWord(c) <==> IsLetterOrDigit(c) || c == '_'
  {
  }

  // ---------------------------------------------------------------- groups

  /** Groups of exactly three from the right, a first one of one to three, and the digits unchanged. */
  lemma {:induction false} GroupsOfThree(digits: string)
    requires digits != "" && '_' !in digits
    ensures var parts := Split(Group(digits), '_');
            && 1 <= |parts[0]| <= 3
            && (forall i :: 1 <= i < |parts| ==> |parts[i]| == 3)
            && Flatten(parts) == digits
  {
    if |digits| <= 3 {
      SplitPlain(digits, '_');
      assert Flatten([digits]) == digits + Flatten([]);
    } else {
      var init, last := digits[..|digits| - 3], digits[|digits| - 3..];
      GroupsOfThree(init);
      SplitSnoc(Group(init), last, '_');
      FlattenSnoc(Split(Group(init), '_'), last);
      assert digits == init + last;
    }
  }

  lemma {:induction false} SplitSnoc(head: string, last: string, sep: char)
    requires sep !in last
    ensures Split(head + [sep] + last, sep) == Split(head, sep) + [last]
  {
    if head == "" {
      assert (head + [sep] + last)[1..] == last;
      SplitPlain(last, sep);
    } else {
      assert (head + [sep] + last)[1..] == head[1..] + [sep] + last;
      SplitSnoc(head[1..], last, sep);
    }
  }

  ghost predicate AllDigits(s: string) {
    forall i :: 0 <= i < |s| ==> IsDigit(s[i])
  }

  lemma {:induction false} GroupChars(digits: string)
    requires AllDigits(digits)
    ensures forall c :: c in Group(digits) ==> IsDigit(c) || c == '_'
    ensures digits != "" ==> Group(digits) != "" && IsDigit(Group(digits)[0])
    ensures |digits| > 3 ==> DigitRun(Group(digits)) <= 3 && DigitRun(Group(digits)) < |Group(digits)|
  {
    if |digits| > 3 {
      var init, last := digits[..|digits| - 3], digits[|digits| - 3..];
      GroupChars(init);
      RunStops(Group(init), last);
      assert Group(digits)[|Group(init)|] == '_';
      assert |init| <= 3 ==> Group(init) == init;
    }
  }

  lemma {:induction false} PlainGroup(digits: string)
    requires AllDigits(digits)
    ensures Plain(Group(digits)) == digits
  {
    hide Group, Plain;
    GroupUnfolds(digits);
    if |digits| > 3 {
      var init, last := digits[..|digits| - 3], digits[|digits| - 3..];
      PlainGroup(init);
      PlainConcat(Group(init) + "_", last);
      PlainConcat(Group(init), "_");
      PlainUnderscore();
      PlainDigits(last);
      assert digits == init + last;
    } else {
      PlainDigits(digits);
    }
  }

  lemma {:induction false} GroupUnfolds(digits: string)
    ensures Group(digits) ==
            if |digits| <= 3 then digits else Group(digits[..|digits| - 3]) + "_" + digits[|digits| - 3..]
  {
  }

  lemma {:induction false} PlainUnderscore()
    ensures Plain("_") == ""
  {
    FilterNone("_", (c: char) => c != '_');
  }

  lemma {:induction false} RunStops(head: string, last: string)
    ensures DigitRun(head + "_" + last) == DigitRun(head)
  {
    if head == "" {
      assert (head + "_" + last)[0] == '_';
    } else {
      assert (head + "_" + last)[1..] == head[1..] + "_" + last;
      RunStops(head[1..], last);
    }
  }

  /** The text without its underscores. */
  function Plain(s: string): string {
    Filter(s, (c: char) => c != '_')
  }

  lemma {:induction false} PlainConcat(a: string, b: string)
    ensures Plain(a + b) == Plain(a) + Plain(b)
  {
    FilterConcat(a, b, (c: char) => c != '_');
  }

  lemma {:induction false} PlainDigits(s: string)
    requires '_' !in s
    ensures Plain(s) == s
  {
    FilterAll(s, (c: char) => c != '_');
  }

  // ---------------------------------------------------------------- what the rewriting keeps

  /** Every quote outside a literal opens one, as in any JSON text. */
  predicate WellQuoted(json: string) {
    if json == "" then true
    else if LiteralLength(json) > 0 then WellQuoted(json[LiteralLength(json)..])
    else json[0] != '"' && WellQuoted(json[1..])
  }

  /** The string literals of a text, in order, and the text between them. */
  function Literals(json: string): seq<string> {
    if json == "" then []
    else if LiteralLength(json) > 0 then [json[..LiteralLength(json)]] + Literals(json[LiteralLength(json)..])
    else Literals(json[1..])
  }

  /** The text with every underscore outside the string literals removed. */
  function Unseparated(json: string): string {
    if json == "" then ""
    else if LiteralLength(json) > 0 then json[..LiteralLength(json)] + Unseparated(json[LiteralLength(json)..])
    else (if json[0] == '_' then "" else [json[0]]) + Unseparated(json[1..])
  }

  /** No underscore outside the literals, as in any JSON text. */
  predicate NoSeparators(json: string) {
    Unseparated(json) == json
  }

  /** Text without an underscore has none to remove. */
  lemma {:induction false} PlainTextHasNoSeparators(json: string)
    requires '_' !in json
    ensures NoSeparators(json)
  {
    hide LiteralLength;
    if json != "" {
      var n := LiteralLength(json);
      PlainTextHasNoSeparators(json[if n > 0 then n else 1..]);
    }
  }

  /** What can stand between two quotes: plain characters, and pairs of a backslash and any other on the line. */
  predicate IsBody(s: string) {
    || s == ""
    || (s[0] != '"' && s[0] != '\\' && IsBody(s[1..]))
    || (|s| >= 2 && s[0] == '\\' && s[1] !in {'\n', '\r', '\U{2028}', '\U{2029}'} && IsBody(s[2..]))
  }

  lemma {:induction false} BodyEnds(body: string, after: string)
    requires IsBody(body)
    ensures BodyLength(body + "\"" + after) == |body| + 1
  {
    var s := body + "\"" + after;
    if body != "" {
      if body[0] == '\\' {
        assert s[2..] == body[2..] + "\"" + after;
        BodyEnds(body[2..], after);
      } else {
        assert s[1..] == body[1..] + "\"" + after;
        BodyEnds(body[1..], after);
      }
    }
  }

  lemma {:induction false} BodyBefore(s: string)
    ensures BodyLength(s) > 0 ==> s[BodyLength(s) - 1] == '"' && IsBody(s[..BodyLength(s) - 1])
  {
    var n := BodyLength(s);
    if n > 1 {
      if s[0] == '\\' {
        BodyBefore(s[2..]);
        assert s[..n - 1][2..] == s[2..][..n - 3];
      } else {
        BodyBefore(s[1..]);
        assert s[..n - 1][1..] == s[1..][..n - 2];
      }
    }
  }

  /** A text starts with a string literal exactly when it is a quote, a body, a quote and whatever follows. */
  lemma {:induction false} LiteralExactly(s: string, body: string, after: string)
    ensures IsBody(body) ==> LiteralLength("\"" + body + "\"" + after) == |body| + 2
    ensures LiteralLength(s) > 0 ==>
              var n := LiteralLength(s);
              n >= 2 && s[0] == '"' && s[n - 1] == '"' && IsBody(s[1..n - 1])
  {
    if IsBody(body) {
      assert ("\"" + body + "\"" + after)[1..] == body + "\"" + after;
      BodyEnds(body, after);
    }
    if LiteralLength(s) > 0 {
      BodyBefore(s[1..]);
      var n := LiteralLength(s);
      assert s[1..n - 1] == s[1..][..n - 2];
    }
  }

  /** Text without quotes is well quoted, and stays so behind a literal. */
  lemma {:induction false} QuotingExactly(text: string, body: string)
    requires '"' !in text && IsBody(body)
    ensures WellQuoted(text) && WellQuoted("\"" + body + "\"" + text)
    ensures text != "" ==> !WellQuoted(text + "\"")
  {
    PlainIsWellQuoted(text);
    var all := "\"" + body + "\"" + text;
    LiteralExactly(all, body, text);
    assert all[|body| + 2..] == text;
    OpenQuoteIsNot(text);
  }

  lemma {:induction false} PlainIsWellQuoted(text: string)
    requires '"' !in text
    ensures WellQuoted(text)
  {
    if text != "" {
      PlainIsWellQuoted(text[1..]);
    }
  }

  lemma {:induction false} OpenQuoteIsNot(text: string)
    requires '"' !in text
    ensures !WellQuoted(text + "\"")
  {
    var s := text + "\"";
    if text == "" {
      assert s[1..] == "";
    } else {
      assert s[1..] == text[1..] + "\"";
      OpenQuoteIsNot(text[1..]);
    }
  }

  lemma {:induction false} BodyLengthStays(s: string, a: string, b: string)
    requires s != "" && BodyLength(s + a) == |s|
    ensures BodyLength(s + b) == |s|
  {
    if s[0] == '"' {
    } else if s[0] != '\\' {
      assert (s + a)[1..] == s[1..] + a && (s + b)[1..] == s[1..] + b;
      BodyLengthStays(s[1..], a, b);
    } else {
      assert |s| >= 2;
      assert (s + a)[2..] == s[2..] + a && (s + b)[2..] == s[2..] + b;
      BodyLengthStays(s[2..], a, b);
    }
  }

  /** What follows a string literal does not change where it ends. */
  lemma {:induction false} LiteralStays(json: string, after: string)
    requires LiteralLength(json) > 0
    ensures LiteralLength(json[..LiteralLength(json)] + after) == LiteralLength(json)
  {
    hide BodyLength;
    var n := LiteralLength(json);
    var body, rest := json[1..n], json[n..];
    assert json[1..] == body + rest;
    BodyLengthStays(body, rest, after);
    assert (json[..n] + after)[1..] == body + after;
  }

  lemma {:induction false} StepOverLiteral(json: string, after: string)
    requires LiteralLength(json) > 0
    ensures var literal := json[..LiteralLength(json)];
            && (forall w :: Separated(literal + after, w) == literal + Separated(after, false))
            && Literals(literal + after) == [literal] + Literals(after)
            && Unseparated(literal + after) == literal + Unseparated(after)
            && WellQuoted(literal + after) == WellQuoted(after)
  {
    LiteralStays(json, after);
    var literal := json[..LiteralLength(json)];
    assert (literal + after)[|literal|..] == after && (literal + after)[..|literal|] == literal;
  }

  /** Text without quotes holds no literal. */
  lemma {:induction false} StepOverText(text: string, after: string)
    requires '"' !in text
    ensures Literals(text + after) == Literals(after)
    ensures Unseparated(text + after) == Plain(text) + Unseparated(after)
    ensures WellQuoted(text + after) == WellQuoted(after)
  {
    hide Literals, Unseparated, WellQuoted, Plain;
    PlainCons(text);
    if text == "" {
      assert text + after == after;
    } else {
      StepOverChar(text[0], text[1..] + after);
      assert text + after == [text[0]] + (text[1..] + after);
      StepOverText(text[1..], after);
    }
  }

  lemma {:induction false} PlainCons(s: string)
    ensures Plain(s) == if s == "" then "" else (if s[0] == '_' then "" else [s[0]]) + Plain(s[1..])
  {
  }

  lemma {:induction false} StepOverChar(c: char, after: string)
    requires c != '"'
    ensures Literals([c] + after) == Literals(after)
    ensures Unseparated([c] + after) == (if c == '_' then "" else [c]) + Unseparated(after)
    ensures WellQuoted([c] + after) == WellQuoted(after)
  {
    assert ([c] + after)[1..] == after;
  }

  /** After a word character, word characters are copied. */
  lemma {:induction false} StepOverWord(word: string, after: string)
    requires forall i :: 0 <= i < |word| ==> IsWord(word[i])
    ensures Separated(word + after, true) == word + Separated(after, true)
  {
    hide Separated;
    if word == "" {
      assert word + after == after;
    } else {
      StepOverWord(word[1..], after);
      assert word + after == [word[0]] + (word[1..] + after);
      CopyFirst(word[0], word[1..] + after, true);
      assert word == [word[0]] + word[1..];
    }
  }

  lemma {:induction false} RunHasNoQuote(s: string, n: nat)
    requires n <= |s| && forall i :: 0 <= i < n ==> IsDigit(s[i])
    ensures '"' !in s[..n] && '_' !in s[..n]
  {
  }

  lemma {:induction false} GroupHasNoQuote(digits: string)
    requires AllDigits(digits)
    ensures '"' !in Group(digits) && forall i :: 0 <= i < |Group(digits)| ==> IsWord(Group(digits)[i])
  {
    GroupChars(digits);
  }

  /** The string literals are the same ones, and between them nothing changed but underscores. */
  lemma {:induction false} OnlySeparatorsAreAdded(json: string, afterWord: bool)
    requires WellQuoted(json)
    ensures Literals(Separated(json, afterWord)) == Literals(json)
    ensures Unseparated(Separated(json, afterWord)) == Unseparated(json)
    ensures WellQuoted(Separated(json, afterWord))
    decreases |json|
  {
    if json != "" {
      var n := LiteralLength(json);
      if n > 0 {
        OnlySeparatorsAreAdded(json[n..], false);
        StepOverLiteral(json, Separated(json[n..], false));
      } else if StandsAlone(json, afterWord) {
        var run := DigitRun(json);
        var digits, rest := json[..run], json[run..];
        assert json == digits + rest;
        RunHasNoQuote(json, run);
        StepOverText(digits, rest);
        OnlySeparatorsAreAdded(rest, true);
        PlainGroup(digits);
        GroupHasNoQuote(digits);
        StepOverText(Group(digits), Separated(rest, true));
        PlainDigits(digits);
      } else {
        OnlySeparatorsAreAdded(json[1..], IsWord(json[0]));
        assert json == [json[0]] + json[1..];
        StepOverText([json[0]], json[1..]);
        StepOverText([json[0]], Separated(json[1..], IsWord(json[0])));
      }
    }
  }

  /** On JSON text: every string literal is untouched, and removing the separators gives the input back. */
  lemma {:induction false} RemovingSeparatorsGivesTheInput(json: string)
    requires WellQuoted(json) && NoSeparators(json)
    ensures Unseparated(WithNumericSeparators(json)) == json
    ensures Literals(WithNumericSeparators(json)) == Literals(json)
  {
    OnlySeparatorsAreAdded(json, false);
  }

  // ---------------------------------------------------------------- separating twice

  lemma {:induction false} FirstCharKept(json: string)
    ensures json != "" ==> Separated(json, true) != "" && Separated(json, true)[0] == json[0]
    ensures json == "" ==> Separated(json, true) == ""
  {
  }

  lemma {:induction false} RunOfDigits(digits: string, after: string)
    requires AllDigits(digits)
    requires after != "" ==> !IsDigit(after[0])
    ensures DigitRun(digits + after) == |digits|
  {
    var all := digits + after;
    assert forall i :: 0 <= i < |digits| ==> all[i] == digits[i];
    assert after != "" ==> all[|digits|] == after[0];
  }

  /** The digits a text starts with, and what follows them, look the same afterwards. */
  lemma {:induction false} RunKept(json: string)
    ensures var out := Separated(json, true);
            && DigitRun(out) == DigitRun(json)
            && (DigitRun(json) < |json| <==> DigitRun(json) < |out|)
            && (DigitRun(json) < |json| ==> out[DigitRun(json)] == json[DigitRun(json)])
  {
    hide Separated;
    var n := DigitRun(json);
    var digits, rest := json[..n], json[n..];
    assert json == digits + rest;
    StepOverWord(digits, rest);
    FirstCharKept(rest);
    RunOfDigits(digits, Separated(rest, true));
  }

  /** A number that does not stand alone still does not. */
  lemma {:induction false} StillNotAlone(json: string, afterWord: bool)
    requires json != "" && !StandsAlone(json, afterWord)
    ensures !StandsAlone([json[0]] + Separated(json[1..], IsWord(json[0])), afterWord)
  {
    hide Separated;
    if IsDigit(json[0]) {
      RunKept(json[1..]);
      var out := Separated(json[1..], true);
      assert ([json[0]] + out)[1..] == out;
      assert DigitRun([json[0]] + out) == 1 + DigitRun(out);
    }
  }

  lemma {:induction false} SeparatingTwiceIsOnce(json: string, afterWord: bool)
    requires WellQuoted(json)
    ensures Separated(Separated(json, afterWord), afterWord) == Separated(json, afterWord)
    decreases |json|
  {
    hide WellQuoted, StandsAlone, Separated;
    NothingToSeparate(afterWord);
    if json != "" {
      StepsOf(json, afterWord);
      var n := LiteralLength(json);
      if n > 0 {
        SeparatingTwiceIsOnce(json[n..], false);
        StepOverLiteral(json, Separated(json[n..], false));
      } else if StandsAlone(json, afterWord) {
        AloneIsNotNothing(json, afterWord);
        SeparatingTwiceIsOnce(json[DigitRun(json)..], true);
        GroupedIsLeftAlone(json, afterWord, Separated(json[DigitRun(json)..], true));
      } else {
        SeparatingTwiceIsOnce(json[1..], IsWord(json[0]));
        StillNotAlone(json, afterWord);
        CopyFirst(json[0], Separated(json[1..], IsWord(json[0])), afterWord);
      }
    }
  }

  /** One step of the scan, and what stays to be scanned is well quoted too. */
  lemma {:induction false} StepsOf(json: string, afterWord: bool)
    requires json != "" && WellQuoted(json)
    ensures LiteralLength(json) > 0 ==>
              WellQuoted(json[LiteralLength(json)..])
              && Separated(json, afterWord) == json[..LiteralLength(json)] + Separated(json[LiteralLength(json)..], false)
    ensures LiteralLength(json) == 0 && StandsAlone(json, afterWord) ==>
              WellQuoted(json[DigitRun(json)..])
              && Separated(json, afterWord) == Group(json[..DigitRun(json)]) + Separated(json[DigitRun(json)..], true)
    ensures LiteralLength(json) == 0 && !StandsAlone(json, afterWord) ==>
              WellQuoted(json[1..]) && json[0] != '"'
              && Separated(json, afterWord) == [json[0]] + Separated(json[1..], IsWord(json[0]))
  {
    var run := DigitRun(json);
    RunHasNoQuote(json, run);
    assert json == json[..run] + json[run..];
    StepOverText(json[..run], json[run..]);
  }

  lemma {:induction false} AloneIsNotNothing(json: string, afterWord: bool)
    requires StandsAlone(json, afterWord)
    ensures DigitRun(json) >= 5 && !afterWord
  {
  }

  lemma {:induction false} CopyFirst(c: char, after: string, afterWord: bool)
    requires c != '"' && !StandsAlone([c] + after, afterWord)
    ensures Separated([c] + after, afterWord) == [c] + Separated(after, IsWord(c))
  {
    assert ([c] + after)[1..] == after;
  }

  /** Once grouped, a number holds no run long enough to be grouped again. */
  lemma {:induction false} GroupedIsLeftAlone(json: string, afterWord: bool, after: string)
    requires StandsAlone(json, afterWord)
    ensures var grouped := Group(json[..DigitRun(json)]);
            Separated(grouped + after, afterWord) == grouped + Separated(after, true)
  {
    hide Separated, Group;
    var digits := json[..DigitRun(json)];
    var grouped := Group(digits);
    GroupChars(digits);
    GroupHasNoQuote(digits);
    RunEndsInside(grouped, after);
    assert grouped + after == [grouped[0]] + (grouped[1..] + after);
    CopyFirst(grouped[0], grouped[1..] + after, afterWord);
    StepOverWord(grouped[1..], after);
    assert grouped == [grouped[0]] + grouped[1..];
  }

  lemma {:induction false} RunEndsInside(s: string, after: string)
    requires DigitRun(s) < |s|
    ensures DigitRun(s + after) == DigitRun(s)
  {
    if s != "" && IsDigit(s[0]) {
      assert (s + after)[1..] == s[1..] + after;
      RunEndsInside(s[1..], after);
    } else {
      assert (s + after)[0] == s[0];
    }
  }

  // ---------------------------------------------------------------- one number in its place

  /** Nothing before the cut reads past it: its literals are closed and it does not end inside a word. */
  ghost predicate EndsOutside(before: string) {
    WellQuoted(before) && (before == "" || !IsWord(before[|before| - 1]))
  }

  lemma {:induction false} ScansInTwo(before: string, after: string, afterWord: bool)
    requires EndsOutside(before)
    ensures Separated(before + after, afterWord) ==
            Separated(before, afterWord) + Separated(after, if before == "" then afterWord else false)
    decreases |before|, 1
  {
    hide Separated, StandsAlone, WellQuoted, LiteralLength;
    if before == "" {
      assert before + after == after;
      NothingToSeparate(afterWord);
    } else {
      StepsOf(before, afterWord);
      var n := LiteralLength(before);
      if n > 0 {
        var rest := before[n..];
        StepOverLiteral(before, rest + after);
        assert before + after == before[..n] + (rest + after);
        ScansInTwo(rest, after, false);
      } else {
        ScansText(before, after, afterWord);
      }
    }
  }

  lemma {:induction false} ScansText(before: string, after: string, afterWord: bool)
    requires EndsOutside(before) && before != "" && LiteralLength(before) == 0
    ensures Separated(before + after, afterWord) == Separated(before, afterWord) + Separated(after, false)
    decreases |before|, 0
  {
    hide Separated, StandsAlone, Group, WellQuoted, LiteralLength;
    StepsOf(before, afterWord);
    assert !IsDigit(before[|before| - 1]);
    RunEndsInside(before, after);
    AloneInBoth(before, after, afterWord);
    if StandsAlone(before, afterWord) {
      var run := DigitRun(before);
      AloneIsNotNothing(before, afterWord);
      AloneStep(before + after, afterWord);
      CutAt(before, after, run);
      ScansInTwo(before[run..], after, true);
    } else {
      assert before + after == [before[0]] + (before[1..] + after);
      CopyFirst(before[0], before[1..] + after, afterWord);
      ScansInTwo(before[1..], after, IsWord(before[0]));
    }
  }

  lemma {:induction false} CutAt(a: string, b: string, n: nat)
    requires n <= |a|
    ensures (a + b)[..n] == a[..n] && (a + b)[n..] == a[n..] + b
  {
  }

  lemma {:induction false} NothingToSeparate(afterWord: bool)
    ensures Separated("", afterWord) == ""
  {
  }

  lemma {:induction false} AloneInBoth(before: string, after: string, afterWord: bool)
    requires DigitRun(before) < |before| && DigitRun(before + after) == DigitRun(before)
    ensures StandsAlone(before + after, afterWord) <==> StandsAlone(before, afterWord)
    ensures before[0] != '"' ==> LiteralLength(before + after) == 0
  {
  }

  lemma {:induction false} AloneStep(json: string, afterWord: bool)
    requires StandsAlone(json, afterWord)
    ensures Separated(json, afterWord) == Group(json[..DigitRun(json)]) + Separated(json[DigitRun(json)..], true)
  {
  }

  /** A number of at least five digits between two non-word characters is grouped; any other is copied. */
  lemma {:induction false} LongNumbersAreGrouped(before: string, digits: string, after: string)
    requires EndsOutside(before) && digits != "" && AllDigits(digits)
    requires after != "" ==> !IsDigit(after[0])
    ensures WithNumericSeparators(before + digits + after) ==
            WithNumericSeparators(before)
            + (if |digits| >= 5 && (after == "" || !IsWord(after[0])) then Group(digits) else digits)
            + Separated(after, true)
  {
    hide Separated, Group, WellQuoted, DigitRun;
    assert before + digits + after == before + (digits + after);
    ScansInTwo(before, digits + after, false);
    RunOfDigits(digits, after);
    if |digits| >= 5 && (after == "" || !IsWord(after[0])) {
      AloneStep(digits + after, false);
      assert (digits + after)[..|digits|] == digits && (digits + after)[|digits|..] == after;
    } else {
      assert digits + after == [digits[0]] + (digits[1..] + after);
      CopyFirst(digits[0], digits[1..] + after, false);
      StepOverWord(digits[1..], after);
      assert digits == [digits[0]] + digits[1..];
    }
  }
}
