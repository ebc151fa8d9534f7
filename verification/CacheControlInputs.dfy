/** `Cache-Control` fields on which the scan and the directives differ, and one that gets the default. */
module CacheControlInputs {
  import opened Prelude
  import opened Text
  import opened Http
  import opened CachePolicy
  import opened CacheDirectives

  function Controlled(value: string): Headers {
    map[CACHE_CONTROL := One(value)]
  }

  // ---------- Elements with little in them ----------

  /** No character that a forbidding word starts with. */
  predicate Harmless(s: string) {
    forall c :: c in s ==> Fold(c) != 'n' && Fold(c) != 'p'
  }

  /** No character that one of the words other than `max-age` starts with. */
  predicate Calm(s: string) {
    Harmless(s) && forall c :: c in s ==> Fold(c) != 's'
  }

  lemma OccursFirst(s: string, i: int, word: string)
    requires word != "" && OccursAt(s, i, word)
    ensures i < |s| && s[i] in s && Fold(s[i]) == word[0]
  {
    assert FoldAll(s[i..i + |word|])[0] == Fold(s[i]);
  }

  lemma NoWord(s: string, word: string)
    requires word != "" && forall c :: c in s ==> Fold(c) != word[0]
    ensures !HasWord(s, word)
  {
    forall i | 0 <= i <= |s| - |word|
      ensures !WordAt(s, i, word)
    {
      if OccursAt(s, i, word) {
        OccursFirst(s, i, word);
      }
    }
  }

  lemma CalmForbidsNothing(s: string)
    requires Harmless(s)
    ensures !Forbids(s)
  {
    NoWord(s, "no-store");
    NoWord(s, "no-cache");
    NoWord(s, "private");
  }

  /** Nothing is read for `s-maxage` where there is no "s". */
  lemma CalmSharesNothing(part: string)
    requires Calm(part)
    ensures Seconds(part, S_MAXAGE).None? && DirectiveSeconds(part, S_MAXAGE).None?
  {
    forall i | 0 <= i < |part|
      ensures !MatchesAt(part, i, S_MAXAGE)
    {
      if OccursAt(part, i, S_MAXAGE) {
        OccursFirst(part, i, S_MAXAGE);
      }
    }
    NoMatch(part, 0, S_MAXAGE);
    var from, to := TrimWindow(part);
    if to - from > |S_MAXAGE| && FoldAll(part[from..to][..|S_MAXAGE|]) == S_MAXAGE {
      assert part[from..to][..|S_MAXAGE|] == part[from..from + |S_MAXAGE|];
      OccursFirst(part, from, S_MAXAGE);
    }
  }

  /** Nothing is read in a text too short to hold a number behind the word. */
  lemma ShortHasNone(part: string, word: string)
    requires |part| <= |word|
    ensures Seconds(part, word).None?
  {
    NoMatch(part, 0, word);
  }

  lemma OneDigit(c: char)
    requires IsDigit(c)
    ensures Digits([c]) == [c] && Decimal([c]) == DigitValue(c)
  {
    assert [c][1..] == "" && [c][..0] == "";
  }

  lemma {:induction false} DigitsAll(s: string)
    requires forall i :: 0 <= i < |s| ==> IsDigit(s[i])
    ensures Digits(s) == s
  {
    if s != "" {
      DigitsAll(s[1..]);
    }
  }

  /** A lifetime directive with any number, written out in decimal. */
  lemma NumberPart(part: string, word: string, n: nat)
    requires word == S_MAXAGE || word == MAX_AGE
    requires part == word + Printed(n) || part == " " + (word + Printed(n))
    ensures Seconds(part, word) == DirectiveSeconds(part, word) == Some(n)
  {
    DigitsAll(Printed(n));
    DecimalOfPrinted(n);
    PartArgument(part, word, Printed(n));
    ScanReadsDirective(part, word);
  }

  lemma PartArgument(part: string, word: string, digits: string)
    requires word == S_MAXAGE || word == MAX_AGE
    requires part == word + digits || part == " " + (word + digits)
    requires digits != "" && forall i :: 0 <= i < |digits| ==> IsDigit(digits[i])
    ensures Argument(part, word) == Some(digits)
  {
    var text := word + digits;
    WordIsFolded(word);
    assert text[..|word|] == word && text[|word|..] == digits;
    assert text[0] == word[0] && text[|text| - 1] == digits[|digits| - 1];
    assert Trim(text) == text;
    assert part[0] == ' ' ==> part[1..] == text;
  }

  lemma WordIsFolded(word: string)
    requires word == S_MAXAGE || word == MAX_AGE
    ensures FoldAll(word) == word && word != "" && !IsSpace(word[0])
  {
    PlainWord(word);
  }

  /** A `max-age` directive of one digit. */
  lemma PlainPart(part: string, digit: char)
    requires IsDigit(digit) && part == "max-age=" + [digit]
    ensures Argument(part, MAX_AGE) == Some([digit])
    ensures Seconds(part, MAX_AGE) == DirectiveSeconds(part, MAX_AGE) == Some(DigitValue(digit))
  {
    OneDigit(digit);
    assert part[8..] == [digit] && FoldAll(part[..8]) == MAX_AGE;
    assert Trim(part) == part;
    ScanReadsDirective(part, MAX_AGE);
  }

  /** The same behind a blank. */
  lemma BlankPart(part: string, digit: char)
    requires IsDigit(digit) && part == " " + ("max-age=" + [digit])
    ensures Seconds(part, MAX_AGE) == DirectiveSeconds(part, MAX_AGE) == Some(DigitValue(digit))
  {
    var text := "max-age=" + [digit];
    assert part[1..] == text;
    assert Trim(part) == Trim(text);
    PlainPart(text, digit);
    ScanReadsDirective(part, MAX_AGE);
  }

  // ---------- Fields of one and of two elements ----------

  lemma OneElement(headers: Headers, part: string)
    requires Directives(headers) == [part] && Calm(part)
    ensures !DirectiveForbids(headers) && DirectiveLifetime(headers) == DirectiveSeconds(part, MAX_AGE)
    ensures DefaultApplies(headers) <==> Seconds(part, MAX_AGE).None?
  {
    CalmForbidsNothing(part);
    CalmSharesNothing(part);
    ForbidsIsMentions(headers);
    NamedIsMentioned(headers);
    DefaultAppliesExactly(headers);
    OneReading(part, S_MAXAGE);
    OneReading(part, MAX_AGE);
    assert Directives(headers)[0] == part;
  }

  lemma OneReading(part: string, word: string)
    ensures FirstWritten(Readings([part], word)) == DirectiveSeconds(part, word)
    ensures FirstScanned(Readings([part], word)) == Seconds(part, word)
  {
    assert [part][1..] == [];
    assert Readings([part], word)[1..] == [];
  }

  /** Where no word but `max-age` can occur, the second element is read if the first is silent. */
  lemma TwoElements(headers: Headers, first: string, second: string)
    requires Directives(headers) == [first, second] && Calm(first) && Calm(second)
    ensures !DirectiveForbids(headers) && !Forbids(Field(headers, CACHE_CONTROL))
    ensures Lifetime(Field(headers, CACHE_CONTROL))
         == if Seconds(first, MAX_AGE).Some? then Seconds(first, MAX_AGE) else Seconds(second, MAX_AGE)
    ensures DirectiveLifetime(headers)
         == if DirectiveSeconds(first, MAX_AGE).Some? then DirectiveSeconds(first, MAX_AGE)
            else DirectiveSeconds(second, MAX_AGE)
  {
    CalmForbidsNothing(first);
    CalmForbidsNothing(second);
    ForbidsIsMentions(headers);
    NamedIsMentioned(headers);
    CalmSharesNothing(first);
    CalmSharesNothing(second);
    TwoReadings(first, second, S_MAXAGE);
    TwoReadings(first, second, MAX_AGE);
    LifetimeIsScanned(headers);
    FirstOfBoth(Readings([first, second], S_MAXAGE), Readings([first, second], MAX_AGE));
  }

  lemma TwoReadings(first: string, second: string, word: string)
    ensures FirstScanned(Readings([first, second], word))
         == if Seconds(first, word).Some? then Seconds(first, word) else Seconds(second, word)
    ensures FirstWritten(Readings([first, second], word))
         == if DirectiveSeconds(first, word).Some? then DirectiveSeconds(first, word)
            else DirectiveSeconds(second, word)
  {
    assert [first, second][1..] == [second];
    OneReading(second, word);
    assert Readings([first, second], word)[1..] == Readings([second], word);
  }

  lemma CutAtComma(first: string, second: string)
    requires '"' !in first && ',' !in first && '"' !in second && ',' !in second
    ensures Cut(first + "," + second, false) == [first, second]
  {
    assert Join([first, second], ',') == first + "," + second;
    SplitJoin([first, second], ',');
    CutPlain(first + "," + second);
  }

  // ---------- The fields ----------

  /** Whatever lifetime is printed in decimal is the one a response is kept, under the cap. */
  lemma PrintedLifetime(c: Config, headers: Headers, n: nat)
    requires headers == Controlled("max-age=" + Printed(n))
    ensures ResolveTtlMs(c, headers) == DirectiveTtlMs(c, headers)
         == if n * 1000 < c.maxTtlMs then n * 1000 else c.maxTtlMs
  {
    var part := Field(headers, CACHE_CONTROL);
    NumberPart(part, MAX_AGE, n);
    PrintedChars("max-age=", n);
    CutPlain(part);
    SplitWhole(part, ',');
    OneElement(headers, part);
    OneLifetime(headers, part);
  }

  lemma OneLifetime(headers: Headers, part: string)
    requires Directives(headers) == [part] && Calm(part)
    ensures !Forbids(Field(headers, CACHE_CONTROL)) && Lifetime(Field(headers, CACHE_CONTROL)) == Seconds(part, MAX_AGE)
  {
    JoinCut(Field(headers, CACHE_CONTROL), false);
    CalmForbidsNothing(part);
    CalmSharesNothing(part);
  }

  lemma PrintedChars(word: string, n: nat)
    requires word == "max-age=" || word == "s-maxage="
    ensures var text := word + Printed(n);
      '"' !in text && ',' !in text && Harmless(text) && (word == "max-age=" ==> Calm(text))
  {
    assert '"' !in word && ',' !in word && Harmless(word) && (word == "max-age=" ==> Calm(word));
    assert forall c :: c in Printed(n) ==> IsDigit(c);
  }

  /** `s-maxage` goes before `max-age`, wherever it stands. */
  lemma SharedWins(c: Config, headers: Headers, m: nat, n: nat)
    requires headers == Controlled("max-age=" + Printed(m) + "," + (" " + ("s-maxage=" + Printed(n))))
    ensures ResolveTtlMs(c, headers) == DirectiveTtlMs(c, headers)
         == if n * 1000 < c.maxTtlMs then n * 1000 else c.maxTtlMs
  {
    var first, text := "max-age=" + Printed(m), "s-maxage=" + Printed(n);
    var second := " " + text;
    PrintedChars("max-age=", m);
    PrintedChars("s-maxage=", n);
    NumberPart(second, S_MAXAGE, n);
    CutAtComma(first, second);
    SharedIsRead(headers, first, second, n);
  }

  lemma SharedIsRead(headers: Headers, first: string, second: string, n: nat)
    requires Directives(headers) == [first, second] && Calm(first) && Harmless(second)
    requires Seconds(second, S_MAXAGE) == DirectiveSeconds(second, S_MAXAGE) == Some(n)
    ensures !DirectiveForbids(headers) && !Forbids(Field(headers, CACHE_CONTROL))
    ensures Lifetime(Field(headers, CACHE_CONTROL)) == DirectiveLifetime(headers) == Some(n)
  {
    CalmForbidsNothing(first);
    CalmForbidsNothing(second);
    ForbidsIsMentions(headers);
    NamedIsMentioned(headers);
    CalmSharesNothing(first);
    TwoReadings(first, second, S_MAXAGE);
    LifetimeIsScanned(headers);
    FirstOfBoth(Readings([first, second], S_MAXAGE), Readings([first, second], MAX_AGE));
  }

  /** Two elements about `max-age` alone: what the scan reads of each, and what each is as a directive. */
  ghost predicate TwoAges(headers: Headers, first: string, second: string) {
    && Directives(headers) == [first, second] && Calm(first) && Calm(second)
    && Seconds(first, MAX_AGE) == Some(9) && DirectiveSeconds(first, MAX_AGE).None?
    && Seconds(second, MAX_AGE) == DirectiveSeconds(second, MAX_AGE) == Some(5)
  }

  /** The first element is read as 9, although the second is the directive. */
  lemma NineForFive(c: Config, headers: Headers, first: string, second: string)
    requires c.maxTtlMs >= 9000 && TwoAges(headers, first, second)
    ensures ResolveTtlMs(c, headers) == 9000 && DirectiveTtlMs(c, headers) == 5000
  {
    TwoElements(headers, first, second);
  }

  lemma FivePart(part: string)
    requires part == " max-age=5"
    ensures Calm(part) && '"' !in part && ',' !in part
    ensures Seconds(part, MAX_AGE) == DirectiveSeconds(part, MAX_AGE) == Some(5)
  {
    FiveIsCalm(part);
    BlankPart(part, '5') by { assert part == " " + ("max-age=" + ['5']); }
  }

  lemma FiveIsCalm(part: string)
    requires part == " max-age=5"
    ensures Calm(part) && '"' !in part && ',' !in part
  {}

  /** A lookalike in front overrides the directive: this response is stored for 9 seconds, not for 5. */
  lemma LookalikeOverrides(c: Config, headers: Headers)
    requires c.maxTtlMs >= 9000 && headers == Controlled("x-max-age=9, max-age=5")
    ensures ResolveTtlMs(c, headers) == 9000 && DirectiveTtlMs(c, headers) == 5000
  {
    var first, second := LookalikeElements(Field(headers, CACHE_CONTROL));
    NineForFive(c, headers, first, second);
  }

  lemma LookalikeElements(value: string) returns (first: string, second: string)
    requires value == "x-max-age=9, max-age=5"
    ensures TwoAges(Controlled(value), first, second)
  {
    first, second := value[..11], value[12..];
    assert first == "x-max-age=9" && second == " max-age=5" && value == first + "," + second;
    LookalikePart(first);
    FivePart(second);
    CutAtComma(first, second);
  }

  lemma LookalikePart(part: string)
    requires part == "x-max-age=9"
    ensures Calm(part) && '"' !in part && ',' !in part
    ensures Seconds(part, MAX_AGE) == Some(9) && DirectiveSeconds(part, MAX_AGE).None?
  {
    LookalikeIsCalm(part);
    OneDigit('9');
    assert part[10..] == "9" && Boundary(part, 2) && FoldAll(part[2..10]) == MAX_AGE;
    OtherStarts(part);
    StartsOtherwise(part);
  }

  lemma LookalikeIsCalm(part: string)
    requires part == "x-max-age=9"
    ensures Calm(part) && '"' !in part && ',' !in part
  {}

  /** Nothing is read for `max-age` at the first two positions. */
  lemma OtherStarts(part: string)
    requires |part| > 10 && part[0] == 'x' && part[1] == '-'
    ensures Seconds(part, MAX_AGE) == SecondsFrom(part, 2, MAX_AGE)
  {
    assert FoldAll(part[0..8])[0] == 'x' && FoldAll(part[1..9])[0] == '-';
    assert SecondsFrom(part, 0, MAX_AGE) == SecondsFrom(part, 1, MAX_AGE);
  }

  /** A text that starts with another letter is no `max-age` directive. */
  lemma StartsOtherwise(part: string)
    requires |part| > 8 && Fold(part[0]) != 'm' && !IsSpace(part[0]) && !IsSpace(part[|part| - 1])
    ensures DirectiveSeconds(part, MAX_AGE).None?
  {
    assert Trim(part) == part && FoldAll(part[..8])[0] == Fold(part[0]);
  }

  /** A number inside another directive's quoted argument overrides the directive as well. */
  lemma QuotedCommaOverrides(c: Config, headers: Headers, name: string, content: string, second: string)
    requires name == "ext=" && content == "a,max-age=9,b" && second == " max-age=5"
    requires c.maxTtlMs >= 9000 && headers == Controlled(name + "\"" + content + "\"" + "," + second)
    ensures ResolveTtlMs(c, headers) == 9000 && DirectiveTtlMs(c, headers) == 5000
  {
    var first := name + "\"" + content + "\"";
    QuotedPieces(name, content);
    FivePart(second);
    CutTail(name, content, first, second);
    EmbeddedPart(name, content, first);
    NineForFive(c, headers, first, second);
  }

  lemma QuotedPieces(name: string, content: string)
    requires name == "ext=" && content == "a,max-age=9,b"
    ensures '"' !in name && ',' !in name && '"' !in content && '\\' !in content && Calm(name) && Calm(content)
  {}

  lemma CutTail(name: string, content: string, first: string, second: string)
    requires '"' !in name && ',' !in name && '"' !in content && '\\' !in content && '"' !in second && ',' !in second
    requires first == name + "\"" + content + "\""
    ensures Cut(first + "," + second, false) == [first, second]
  {
    assert first + "," + second == name + "\"" + (content + "\"," + second);
    CutName(name, content + "\"," + second);
    CutQuoted(content, second);
    CutPlain(second);
    SplitWhole(second, ',');
    assert name + "\"" + (content + "\"") == first;
  }

  lemma EmbeddedPart(name: string, content: string, part: string)
    requires name == "ext=" && content == "a,max-age=9,b" && part == name + "\"" + content + "\""
    requires Calm(name) && Calm(content)
    ensures Calm(part) && Seconds(part, MAX_AGE) == Some(9) && DirectiveSeconds(part, MAX_AGE).None?
  {
    StartsOtherwise(part);
    ContentRead(name + "\"", content, part);
  }

  lemma ContentRead(front: string, content: string, part: string)
    requires |front| <= 7 && content == "a,max-age=9,b" && part == front + content + "\""
    ensures Seconds(part, MAX_AGE) == Some(9)
  {
    var middle := content[2..11];
    assert middle == "max-age=" + ['9'];
    assert content == content[..1] + "," + middle + "," + content[12..];
    assert part == front + content[..1] + "," + (middle + "," + (content[12..] + "\""));
    MiddleRead(front + content[..1], middle, content[12..] + "\"");
  }

  lemma MiddleRead(front: string, middle: string, back: string)
    requires |front| <= 8 && middle == "max-age=" + ['9']
    ensures Seconds(front + "," + (middle + "," + back), MAX_AGE) == Some(9)
  {
    ShortHasNone(front, MAX_AGE);
    PlainPart(middle, '9');
    PlainWord(MAX_AGE);
    SecondsJointFrom(front, middle + "," + back, 0, MAX_AGE);
    SecondsJointFrom(middle, back, 0, MAX_AGE);
  }

  /** A quoted argument, which RFC 9111 section 5.2 asks recipients to accept, is overlooked: the default applies. */
  lemma QuotedArgumentIsOverlooked(c: Config, headers: Headers, digit: char)
    requires IsDigit(digit) && headers == Controlled("max-age=" + "\"" + [digit] + "\"")
    ensures DefaultApplies(headers) && DirectiveTtlMs(c, headers) == Capped(c, Some(DigitValue(digit)))
  {
    var part := Field(headers, CACHE_CONTROL);
    QuotedPart(part, digit);
    QuotedElement(part, "max-age=", digit);
    OneElement(headers, part);
  }

  lemma QuotedElement(part: string, name: string, digit: char)
    requires IsDigit(digit) && name == "max-age=" && part == name + "\"" + [digit] + "\""
    ensures Cut(part, false) == [part] && Calm(part)
  {
    QuotedIsCalm(part, name, digit);
    assert part == name + "\"" + ([digit] + "\"");
    CutName(name, [digit] + "\"");
    CutDigitQuote(digit);
  }

  lemma QuotedIsCalm(part: string, name: string, digit: char)
    requires IsDigit(digit) && name == "max-age=" && part == name + "\"" + [digit] + "\""
    ensures '"' !in name && ',' !in name && Calm(part)
  {}

  lemma CutDigitQuote(digit: char)
    requires IsDigit(digit)
    ensures Cut([digit] + "\"", true) == [[digit] + "\""]
  {
    var s := [digit] + "\"";
    assert s[1..] == "\"" + "" && s[..1] == [digit];
    CutClosing("");
  }

  lemma QuotedPart(part: string, digit: char)
    requires IsDigit(digit) && part == "max-age=" + "\"" + [digit] + "\""
    ensures DirectiveSeconds(part, MAX_AGE) == Some(DigitValue(digit)) && Seconds(part, MAX_AGE).None?
  {
    OneDigit(digit);
    var arg := part[8..];
    assert arg == "\"" + [digit] + "\"" && arg[1..|arg| - 1] == [digit];
    assert Unescape([digit]) == [digit] by { assert [digit][1..] == ""; }
    assert FoldAll(part[..8]) == MAX_AGE && Trim(part) == part;
    QuotedIsOverlooked(part, MAX_AGE);
  }

  /** A word that forbids storing does so wherever it stands: this response is never stored, though it may be. */
  lemma MentionStops(c: Config, headers: Headers)
    requires headers == Controlled("x-private")
    ensures ResolveTtlMs(c, headers) == 0 && DirectiveTtlMs(c, headers) == Capped(c, None)
  {
    var part := Field(headers, CACHE_CONTROL);
    PrivatePart(part);
    MentionAlone(headers, part);
  }

  lemma PrivatePart(part: string)
    requires part == "x-private"
    ensures '"' !in part && ',' !in part && Forbids(part) && DirectiveName(part) !in FORBIDDEN
    ensures DirectiveSeconds(part, S_MAXAGE).None? && DirectiveSeconds(part, MAX_AGE).None?
  {
    assert part[2..9] == "private" && WordAt(part, 2, "private");
    assert UpToEquals(part) == part && Trim(part) == part;
    assert FoldAll(part)[0] == 'x';
    assert FoldAll(part[..8])[0] == 'x';
  }

  lemma MentionAlone(headers: Headers, part: string)
    requires Field(headers, CACHE_CONTROL) == part && '"' !in part && ',' !in part
    requires Forbids(part) && DirectiveName(part) !in FORBIDDEN
    requires DirectiveSeconds(part, S_MAXAGE).None? && DirectiveSeconds(part, MAX_AGE).None?
    ensures Forbids(Field(headers, CACHE_CONTROL)) && !DirectiveForbids(headers) && DirectiveLifetime(headers).None?
  {
    CutPlain(part);
    SplitWhole(part, ',');
    OneReading(part, S_MAXAGE);
    OneReading(part, MAX_AGE);
  }

  /** A field that says nothing about storing gets the default too. */
  lemma PublicGetsDefault(headers: Headers)
    requires headers == Controlled("public")
    ensures CACHE_CONTROL in headers && DefaultApplies(headers)
  {
    PublicPart(Field(headers, CACHE_CONTROL));
    DefaultAppliesExactly(headers);
  }

  lemma PublicPart(part: string)
    requires part == "public"
    ensures Cut(part, false) == [part] && Unremarkable(part)
  {
    CutPlain(part);
    SplitWhole(part, ',');
    ShortHasNone(part, S_MAXAGE);
    ShortHasNone(part, MAX_AGE);
  }
}
