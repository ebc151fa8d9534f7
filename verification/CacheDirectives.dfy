/**
 What the scan of `Cache-Control` has to do with the directives of RFC 9111 section 5.2, which may hold quoted
 strings: when the two agree, and when the configured default applies.
 */
module CacheDirectives {
  import opened Prelude
  import opened Text
  import opened Http
  import opened CachePolicy

  // ---------- The directives ----------

  function Onto(front: string, parts: seq<string>): seq<string>
    requires parts != []
  {
    [front + parts[0]] + parts[1..]
  }

  /** A field cut at its commas, but for those inside a quoted string; `quoted` is whether `s` starts inside one. */
  function Cut(s: string, quoted: bool): (parts: seq<string>)
    ensures parts != []
    decreases |s|
  {
    if s == [] then [[]]
    else if quoted && s[0] == '\\' && |s| > 1 then Onto(s[..2], Cut(s[2..], true))
    else if s[0] == '"' then Onto(s[..1], Cut(s[1..], !quoted))
    else if s[0] == ',' && !quoted then [[]] + Cut(s[1..], false)
    else Onto(s[..1], Cut(s[1..], quoted))
  }

  /** The elements of a response's `Cache-Control`. */
  function Directives(headers: Headers): seq<string> {
    Cut(Field(headers, CACHE_CONTROL), false)
  }

  lemma JoinOnto(front: string, parts: seq<string>)
    requires parts != []
    ensures Join(Onto(front, parts), ',') == front + Join(parts, ',')
  {
    assert Onto(front, parts)[1..] == parts[1..];
  }

  lemma {:induction false} JoinCut(s: string, quoted: bool)
    ensures Join(Cut(s, quoted), ',') == s
    decreases |s|
  {
    if s != [] {
      if quoted && s[0] == '\\' && |s| > 1 {
        JoinCut(s[2..], true);
        JoinOnto(s[..2], Cut(s[2..], true));
        assert s[..2] + s[2..] == s;
      } else if s[0] == ',' && !quoted {
        JoinCut(s[1..], false);
        assert ([[]] + Cut(s[1..], false))[1..] == Cut(s[1..], false);
      } else {
        var rest := if s[0] == '"' then !quoted else quoted;
        JoinCut(s[1..], rest);
        JoinOnto(s[..1], Cut(s[1..], rest));
        assert s[..1] + s[1..] == s;
      }
    }
  }

  /** Without quotes the elements are what splitting at every comma gives. */
  lemma {:induction false} CutPlain(s: string)
    requires '"' !in s
    ensures Cut(s, false) == Split(s, ',')
  {
    if s != [] {
      CutPlain(s[1..]);
      assert s[..1] == [s[0]];
    }
  }

  /** Inside quotes a backslash takes the next character with it; unescaping leaves just that character. */
  lemma EscapeExactly(c: char, rest: string)
    ensures Cut(['\\', c] + rest, true) == Onto(['\\', c], Cut(rest, true))
    ensures Unescape(['\\', c] + rest) == [c] + Unescape(rest)
  {
    var s := ['\\', c] + rest;
    assert s[2..] == rest && s[..2] == ['\\', c];
  }

  lemma CutClosing(rest: string)
    ensures Cut("\"" + rest, true) == Onto("\"", Cut(rest, false))
  {
    var s := "\"" + rest;
    assert s[0] == '"' && s[1..] == rest && s[..1] == "\"";
  }

  /** A comma inside quotes stays inside its element. */
  lemma {:induction false} CutQuoted(content: string, rest: string)
    requires '"' !in content && '\\' !in content
    ensures Cut(content + "\"," + rest, true) == [content + "\""] + Cut(rest, false)
  {
    var s := content + "\"," + rest;
    if content == [] {
      CutClosing("," + rest);
      assert s == "\"" + ("," + rest) && content + "\"" == "\"";
      assert Cut("," + rest, false) == [[]] + Cut(rest, false) by { assert ("," + rest)[1..] == rest; }
      assert ([[]] + Cut(rest, false))[1..] == Cut(rest, false) && "\"" + [] == "\"";
    } else {
      assert s[1..] == content[1..] + "\"," + rest && s[..1] == [content[0]];
      CutQuoted(content[1..], rest);
      assert [content[0]] + (content[1..] + "\"") == content + "\"";
    }
  }

  lemma {:induction false} CutName(name: string, rest: string)
    requires '"' !in name && ',' !in name
    ensures Cut(name + "\"" + rest, false) == Onto(name + "\"", Cut(rest, true))
  {
    var s := name + "\"" + rest;
    if name == [] {
      assert s[1..] == rest && s[..1] == "\"";
    } else {
      assert s[1..] == name[1..] + "\"" + rest && s[..1] == [name[0]];
      CutName(name[1..], rest);
      assert [name[0]] + (name[1..] + "\"" + Cut(rest, true)[0]) == name + "\"" + Cut(rest, true)[0];
    }
  }

  function UpToEquals(part: string): string {
    if IndexOf(part, '=') < 0 then part else part[..IndexOf(part, '=')]
  }

  /** A directive's name, whatever its argument and letter case. */
  function DirectiveName(part: string): string {
    FoldAll(Trim(UpToEquals(part)))
  }

  const FORBIDDEN := {"no-store", "no-cache", "private"}

  /** The name is what stands before the first equals sign, or all of the element without one. */
  lemma NameExactly(name: string, arg: string)
    requires '=' !in name
    ensures DirectiveName(name) == DirectiveName(name + "=" + arg) == FoldAll(Trim(name))
  {
    IndexOfJoint(name, '=', arg);
    assert name + "=" + arg == name + ['='] + arg && (name + "=" + arg)[..|name|] == name;
  }

  /** A quoted string's text without its escapes. */
  function Unescape(s: string): string {
    if s == [] then []
    else if s[0] == '\\' && |s| > 1 then [s[1]] + Unescape(s[2..])
    else [s[0]] + Unescape(s[1..])
  }

  predicate Quoted(arg: string) {
    |arg| >= 2 && arg[0] == '"' && arg[|arg| - 1] == '"'
  }

  function Unquoted(arg: string): string {
    if Quoted(arg) then Unescape(arg[1..|arg| - 1]) else arg
  }

  /** What follows the name and its equals sign, which `word` gives. */
  function Argument(part: string, word: string): Option<string> {
    var text := Trim(part);
    if |text| > |word| && FoldAll(text[..|word|]) == word then Some(text[|word|..]) else None
  }

  /** The argument of a directive of the form `name=digits` or `name="digits"`. */
  function DirectiveSeconds(part: string, word: string): Option<nat> {
    var arg := Argument(part, word);
    if arg.None? then None
    else
      var digits := Unquoted(arg.value);
      if digits != "" && Digits(digits) == digits then Some(Decimal(Digits(digits))) else None
  }

  lemma NamedWord(part: string, word: string)
    requires word in FORBIDDEN && DirectiveName(part) == word
    ensures HasWord(part, word)
  {
    var name := UpToEquals(part);
    var from, to := TrimWindow(name);
    assert name == part[..|name|];
    assert part[from..to] == name[from..to];
    assert FoldAll(part[from..to]) == word;
    assert Fold(part[from]) == word[0] && Fold(part[to - 1]) == word[|word| - 1];
    assert from > 0 ==> IsSpace(part[from - 1]);
    assert to < |part| ==> IsSpace(part[to]) || part[to] == '=';
    assert WordAt(part, from, word);
  }

  /** A `no-store`, `no-cache` or `private` directive, with or without argument, always stops storing. */
  lemma ForbiddenDirectiveStops(c: Config, headers: Headers, k: nat)
    requires k < |Directives(headers)|
    requires DirectiveName(Directives(headers)[k]) in {"no-store", "no-cache", "private"}
    ensures ResolveTtlMs(c, headers) == 0
  {
    var parts, word := Directives(headers), DirectiveName(Directives(headers)[k]);
    JoinCut(Field(headers, CACHE_CONTROL), false);
    NamedWord(parts[k], word);
    PlainWord(word);
    HasWordByDirective(parts, word);
  }

  lemma PlainWord(word: string)
    requires word in FORBIDDEN || word == S_MAXAGE || word == MAX_AGE
    ensures Scannable(word)
  {}

  /** On a `name=digits` directive the scan reads exactly its argument. */
  lemma ScanReadsDirective(part: string, word: string)
    requires word == S_MAXAGE || word == MAX_AGE
    requires DirectiveSeconds(part, word).Some? && !Quoted(Argument(part, word).value)
    ensures Seconds(part, word) == DirectiveSeconds(part, word)
  {
    var from, to := TrimWindow(part);
    PlainWord(word);
    ScanReadsWindow(part, from, to, word, Argument(part, word).value);
  }

  lemma ScanReadsWindow(part: string, from: nat, to: nat, word: string, digits: string)
    requires Scannable(word) && from <= to <= |part|
    requires forall i :: 0 <= i < from || to <= i < |part| ==> IsSpace(part[i])
    requires to - from > |word| && FoldAll(part[from..to][..|word|]) == word && digits == part[from..to][|word|..]
    requires Digits(digits) == digits
    ensures Seconds(part, word) == Some(Decimal(Digits(digits)))
  {
    assert digits[0] == part[from + |word|];
    MatchAtWindow(part, from, to, word);
    DigitsUpTo(part[from + |word|..], digits);
    SkipSpaces(part, 0, from, word);
  }

  lemma MatchAtWindow(part: string, from: nat, to: nat, word: string)
    requires from <= to <= |part| && (from > 0 ==> IsSpace(part[from - 1])) && Scannable(word)
    requires to - from > |word| && FoldAll(part[from..to][..|word|]) == word && IsDigit(part[from + |word|])
    ensures MatchesAt(part, from, word)
  {
    assert part[from..to][..|word|] == part[from..from + |word|];
    assert Fold(part[from]) == FoldAll(part[from..from + |word|])[0];
  }

  lemma {:induction false} DigitsUpTo(s: string, digits: string)
    requires |digits| <= |s| && s[..|digits|] == digits && Digits(digits) == digits
    requires |digits| < |s| ==> IsSpace(s[|digits|])
    ensures Digits(s) == digits
  {
    if digits != [] {
      assert Digits(digits)[1..] == Digits(digits[1..]);
      assert s[1..][..|digits| - 1] == digits[1..];
      DigitsUpTo(s[1..], digits[1..]);
    }
  }

  lemma {:induction false} SkipSpaces(s: string, i: nat, from: nat, word: string)
    requires i <= from < |s| && Scannable(word) && forall k :: i <= k < from ==> IsSpace(s[k])
    ensures SecondsFrom(s, i, word) == SecondsFrom(s, from, word)
    decreases from - i
  {
    if i < from {
      assert i + |word| <= |s| ==> FoldAll(s[i..i + |word|])[0] == Fold(s[i]) && Fold(s[i]) != word[0];
      SkipSpaces(s, i + 1, from, word);
    }
  }

  lemma {:induction false} UnescapeKeeps(s: string, j: nat)
    requires j < |s|
    ensures s[j] == '\\' || s[j] in Unescape(s)
    decreases |s|
  {
    if s[0] == '\\' && |s| > 1 {
      if j >= 2 {
        UnescapeKeeps(s[2..], j - 2);
      }
    } else if j >= 1 {
      UnescapeKeeps(s[1..], j - 1);
    }
  }

  lemma {:induction false} NoMatch(s: string, i: nat, word: string)
    requires forall k :: i <= k < |s| ==> !MatchesAt(s, k, word)
    ensures SecondsFrom(s, i, word) == None
    decreases |s| - i
  {
    if i < |s| {
      NoMatch(s, i + 1, word);
    }
  }

  /** On a `name="digits"` directive the scan finds nothing. */
  lemma QuotedIsOverlooked(part: string, word: string)
    requires word == S_MAXAGE || word == MAX_AGE
    requires DirectiveSeconds(part, word).Some? && Quoted(Argument(part, word).value)
    ensures Seconds(part, word) == None
  {
    var from, to := TrimWindow(part);
    assert part[from + |word|] == part[from..to][|word|] == '"';
    forall i | 0 <= i < |part|
      ensures !MatchesAt(part, i, word)
    {
      if MatchesAt(part, i, word) {
        var last := i + |word| - 1;
        assert Fold(part[last]) == FoldAll(part[i..i + |word|])[|word| - 1] == '=';
        OnlyEquals(part, word, from, to, last);
      }
    }
    NoMatch(part, 0, word);
  }

  /** Such a directive has one equals sign: the one behind its name. */
  lemma OnlyEquals(part: string, word: string, from: nat, to: nat, j: nat)
    requires word == S_MAXAGE || word == MAX_AGE
    requires from <= to <= |part| && Trim(part) == part[from..to] && j < |part| && part[j] == '='
    requires forall i :: 0 <= i < from || to <= i < |part| ==> IsSpace(part[i])
    requires DirectiveSeconds(part, word).Some? && Quoted(Argument(part, word).value)
    ensures j == from + |word| - 1
  {
    var text := part[from..to];
    var arg := Argument(part, word).value;
    assert text[j - from] == '=';
    if j < from + |word| {
      assert FoldAll(text[..|word|])[j - from] == '=';
    } else {
      var inner := arg[1..|arg| - 1];
      assert arg[j - from - |word|] == '=';
      UnescapeKeeps(inner, j - from - |word| - 1);
    }
  }

  // ---------- When the scan reads what is written ----------

  function Written(r: Reading): Option<nat> {
    DirectiveSeconds(r.element, r.word)
  }

  function FirstWritten(readings: seq<Reading>): Option<nat> {
    if readings == [] then None
    else if Written(readings[0]).Some? then Written(readings[0])
    else FirstWritten(readings[1..])
  }

  /** The scan finds a number although the element is no such directive. */
  predicate Lookalike(r: Reading) {
    Scanned(r).Some? && Written(r).None?
  }

  /** The element is such a directive with its argument in quotes. */
  predicate InQuotes(r: Reading) {
    Written(r).Some? && Quoted(Argument(r.element, r.word).value)
  }

  /** The first element that holds a number for the scan or as a directive. */
  function Decider(readings: seq<Reading>): (k: nat)
    ensures k <= |readings|
  {
    if readings == [] || Scanned(readings[0]).Some? || Written(readings[0]).Some? then 0 else 1 + Decider(readings[1..])
  }

  /**
   What decides is neither a lookalike nor in quotes, unless by chance the number is the one that the other way of
   reading takes from the elements behind it.
   */
  predicate ReadAsWritten(readings: seq<Reading>) {
    var k := Decider(readings);
    k < |readings| ==>
      && (Lookalike(readings[k]) ==> FirstWritten(readings[k + 1..]) == Scanned(readings[k]))
      && (InQuotes(readings[k]) ==> FirstScanned(readings[k + 1..]) == Written(readings[k]))
  }

  predicate Lifetimes(readings: seq<Reading>) {
    forall k :: 0 <= k < |readings| ==> readings[k].word == S_MAXAGE || readings[k].word == MAX_AGE
  }

  /** A lifetime that is read is never longer than the one that is written, whatever default stands in for none. */
  predicate NoLonger(read: Option<nat>, written: Option<nat>) {
    if read.None? then written.None? else read.value == 0 || (written.Some? && read.value <= written.value)
  }

  /** What decides is neither a lookalike nor in quotes, unless what is read instead happens to be no longer. */
  predicate ReadNoLonger(readings: seq<Reading>) {
    var k := Decider(readings);
    k < |readings| ==>
      && (Lookalike(readings[k]) ==> NoLonger(Scanned(readings[k]), FirstWritten(readings[k + 1..])))
      && (InQuotes(readings[k]) ==> NoLonger(FirstScanned(readings[k + 1..]), Written(readings[k])))
  }

  /** Both ways of reading go by the decider, or by what is behind it. */
  lemma {:induction false} DeciderDecides(readings: seq<Reading>)
    requires Lifetimes(readings)
    ensures var k := Decider(readings);
      if k == |readings| then FirstScanned(readings).None? && FirstWritten(readings).None?
      else
        && FirstWritten(readings)
             == (if Lookalike(readings[k]) then FirstWritten(readings[k + 1..]) else Written(readings[k]))
        && FirstScanned(readings)
             == (if InQuotes(readings[k]) then FirstScanned(readings[k + 1..]) else Scanned(readings[k]))
        && (!Lookalike(readings[k]) && !InQuotes(readings[k]) ==> Scanned(readings[k]) == Written(readings[k]))
  {
    if readings != [] {
      var r := readings[0];
      assert readings[0 + 1..] == readings[1..];
      if Written(r).Some? {
        if InQuotes(r) {
          QuotedIsOverlooked(r.element, r.word);
        } else {
          ScanReadsDirective(r.element, r.word);
        }
      } else if Scanned(r).None? {
        DeciderDecides(readings[1..]);
        var k := Decider(readings[1..]);
        assert k < |readings[1..]| ==> readings[1..][k + 1..] == readings[k + 2..];
      }
    }
  }

  lemma {:induction false} ReadingsShape(parts: seq<string>, word: string)
    ensures |Readings(parts, word)| == |parts|
    ensures forall k :: 0 <= k < |parts| ==> Readings(parts, word)[k] == Reading(parts[k], word)
  {
    if parts != [] {
      ReadingsShape(parts[1..], word);
    }
  }

  lemma {:induction false} FirstOfBoth(front: seq<Reading>, back: seq<Reading>)
    ensures FirstScanned(front + back) == if FirstScanned(front).Some? then FirstScanned(front) else FirstScanned(back)
    ensures FirstWritten(front + back) == if FirstWritten(front).Some? then FirstWritten(front) else FirstWritten(back)
  {
    if front == [] {
      assert front + back == back;
    } else {
      assert (front + back)[1..] == front[1..] + back;
      FirstOfBoth(front[1..], back);
    }
  }

  /** What `word` is read as is what its first directive says, exactly on fields that are read as written. */
  lemma SecondsAreTheDirectives(headers: Headers, word: string)
    requires word == S_MAXAGE || word == MAX_AGE
    ensures var readings := Readings(Directives(headers), word);
      Seconds(Field(headers, CACHE_CONTROL), word) == FirstWritten(readings) <==> ReadAsWritten(readings)
  {
    JoinCut(Field(headers, CACHE_CONTROL), false);
    PlainWord(word);
    SecondsByDirective(Directives(headers), word);
    ReadingsShape(Directives(headers), word);
    DeciderDecides(Readings(Directives(headers), word));
  }

  /** Every element for `s-maxage`, then every element for `max-age`. */
  function Consulted(headers: Headers): seq<Reading> {
    Readings(Directives(headers), S_MAXAGE) + Readings(Directives(headers), MAX_AGE)
  }

  /** The `s-maxage` directive, else the `max-age` directive. */
  function DirectiveLifetime(headers: Headers): Option<nat> {
    var shared := FirstWritten(Readings(Directives(headers), S_MAXAGE));
    if shared.Some? then shared else FirstWritten(Readings(Directives(headers), MAX_AGE))
  }

  lemma LifetimeIsScanned(headers: Headers)
    ensures Lifetime(Field(headers, CACHE_CONTROL)) == FirstScanned(Consulted(headers))
    ensures DirectiveLifetime(headers) == FirstWritten(Consulted(headers))
  {
    var parts := Directives(headers);
    JoinCut(Field(headers, CACHE_CONTROL), false);
    SecondsByDirective(parts, S_MAXAGE);
    SecondsByDirective(parts, MAX_AGE);
    FirstOfBoth(Readings(parts, S_MAXAGE), Readings(parts, MAX_AGE));
  }

  /** The lifetime is the one the directives give, exactly on fields that are read as written; likewise no longer. */
  lemma LifetimeIsTheDirectives(headers: Headers)
    ensures Lifetime(Field(headers, CACHE_CONTROL)) == DirectiveLifetime(headers) <==> ReadAsWritten(Consulted(headers))
    ensures NoLonger(Lifetime(Field(headers, CACHE_CONTROL)), DirectiveLifetime(headers))
      <==> ReadNoLonger(Consulted(headers))
  {
    LifetimeIsScanned(headers);
    ReadingsShape(Directives(headers), S_MAXAGE);
    ReadingsShape(Directives(headers), MAX_AGE);
    DeciderDecides(Consulted(headers));
  }

  /** Some directive forbids storing. */
  ghost predicate DirectiveForbids(headers: Headers) {
    exists k :: 0 <= k < |Directives(headers)| && DirectiveName(Directives(headers)[k]) in FORBIDDEN
  }

  /** Some element holds a forbidding word, as a directive or anywhere else. */
  ghost predicate Mentions(headers: Headers) {
    exists k :: 0 <= k < |Directives(headers)| && Forbids(Directives(headers)[k])
  }

  lemma ForbidsIsMentions(headers: Headers)
    ensures Forbids(Field(headers, CACHE_CONTROL)) <==> Mentions(headers)
  {
    JoinCut(Field(headers, CACHE_CONTROL), false);
    ForbidsByDirective(Directives(headers));
  }

  lemma NamedIsMentioned(headers: Headers)
    ensures DirectiveForbids(headers) ==> Mentions(headers)
  {
    if k :| 0 <= k < |Directives(headers)| && DirectiveName(Directives(headers)[k]) in FORBIDDEN {
      NamedWord(Directives(headers)[k], DirectiveName(Directives(headers)[k]));
      assert Forbids(Directives(headers)[k]);
    }
  }

  lemma {:induction false} ForbidsByDirective(parts: seq<string>)
    requires parts != []
    ensures Forbids(Join(parts, ',')) <==> exists k :: 0 <= k < |parts| && Forbids(parts[k])
  {
    if |parts| > 1 {
      ForbidsByDirective(parts[1..]);
      ForbidsJoint(parts[0], Join(parts[1..], ','));
      assert Join(parts, ',') == parts[0] + "," + Join(parts[1..], ',');
      assert forall k :: 0 < k < |parts| ==> parts[k] == parts[1..][k - 1];
      if k :| 0 <= k < |parts[1..]| && Forbids(parts[1..][k]) {
        assert Forbids(parts[k + 1]);
      }
    }
  }

  lemma ForbidsJoint(a: string, b: string)
    ensures Forbids(a + "," + b) <==> Forbids(a) || Forbids(b)
  {
    HasWordJoint(a, b, "no-store");
    HasWordJoint(a, b, "no-cache");
    HasWordJoint(a, b, "private");
  }

  /** The time to live that the directives give. */
  ghost function DirectiveTtlMs(c: Config, headers: Headers): int {
    if DirectiveForbids(headers) then 0 else Capped(c, DirectiveLifetime(headers))
  }

  /** How long a response is kept: zero or less means not at all. */
  function Lasting(ttlMs: int): nat {
    if ttlMs > 0 then ttlMs else 0
  }

  /**
   Under every configuration a response is kept exactly as long as its directives say, if and only if a directive
   forbids storing, or no element mentions a forbidding word and the field is read as written. (With a mere mention
   both agree on zero only when the directives give no time at all.)
   */
  lemma TtlIsTheDirectives(headers: Headers)
    ensures (forall c :: Lasting(ResolveTtlMs(c, headers)) == Lasting(DirectiveTtlMs(c, headers)))
      <==> DirectiveForbids(headers)
           || if Mentions(headers) then DirectiveLifetime(headers) == Some(0) else ReadAsWritten(Consulted(headers))
  {
    ForbidsIsMentions(headers);
    LifetimeIsTheDirectives(headers);
    if k :| 0 <= k < |Directives(headers)| && DirectiveName(Directives(headers)[k]) in FORBIDDEN {
      forall c
        ensures ResolveTtlMs(c, headers) == 0
      {
        ForbiddenDirectiveStops(c, headers, k);
      }
    } else {
      var read, written := Lifetime(Field(headers, CACHE_CONTROL)), DirectiveLifetime(headers);
      // A configuration that tells any two different answers apart.
      var most := (if read.Some? then read.value else 0) + if written.Some? then written.value else 0;
      var telling := Config(most * 1000 + 1, most * 1000 + 1, 0);
      assert ResolveTtlMs(telling, headers) == if Mentions(headers) then 0 else Capped(telling, read);
      assert DirectiveTtlMs(telling, headers) == Capped(telling, written);
      CappedTells(telling, read, written);
      assert Mentions(headers) && written == Some(0) ==>
        forall c :: Lasting(ResolveTtlMs(c, headers)) == Lasting(DirectiveTtlMs(c, headers));
    }
  }

  lemma CappedTells(c: Config, a: Option<nat>, b: Option<nat>)
    requires c.maxTtlMs == c.defaultTtlMs > 0
    requires (a.Some? ==> a.value * 1000 < c.maxTtlMs) && (b.Some? ==> b.value * 1000 < c.maxTtlMs)
    ensures Lasting(Capped(c, a)) == Lasting(Capped(c, b)) <==> a == b
    ensures Lasting(Capped(c, b)) == 0 <==> b == Some(0)
  {}

  /**
   Under every configuration a response is kept no longer than its directives say, if and only if some element
   mentions a forbidding word or the field is read no longer than written.
   */
  lemma TtlNoLonger(headers: Headers)
    ensures (forall c :: Lasting(ResolveTtlMs(c, headers)) <= Lasting(DirectiveTtlMs(c, headers)))
      <==> Mentions(headers) || ReadNoLonger(Consulted(headers))
  {
    ForbidsIsMentions(headers);
    NamedIsMentioned(headers);
    LifetimeIsTheDirectives(headers);
    var read, written := Lifetime(Field(headers, CACHE_CONTROL)), DirectiveLifetime(headers);
    CappedNoLonger(read, written);
    if !Mentions(headers) {
      assert forall c ::
        ResolveTtlMs(c, headers) == Capped(c, read) && DirectiveTtlMs(c, headers) == Capped(c, written);
    }
  }

  lemma CappedNoLonger(read: Option<nat>, written: Option<nat>)
    ensures (forall c :: Lasting(Capped(c, read)) <= Lasting(Capped(c, written))) <==> NoLonger(read, written)
  {
    var most := (if read.Some? then read.value else 0) + if written.Some? then written.value else 0;
    // One configuration has a long default, the other none.
    var long, short := Config(most * 1000 + 1, most * 1000 + 1, 0), Config(0, most * 1000 + 1, 0);
    if !NoLonger(read, written) {
      assert Lasting(Capped(long, read)) > Lasting(Capped(long, written))
          || Lasting(Capped(short, read)) > Lasting(Capped(short, written));
    }
  }

  /**
   A response that may be stored carries no forbidding directive, and its time to live respects the cap and what its
   directives give: exactly that if the field is read as written, no more than that if it is read no longer.
   */
  lemma TtlWithinPolicy(c: Config, headers: Headers)
    requires ResolveTtlMs(c, headers) > 0
    ensures ResolveTtlMs(c, headers) <= c.maxTtlMs && !DirectiveForbids(headers)
    ensures ReadAsWritten(Consulted(headers)) ==> ResolveTtlMs(c, headers) == DirectiveTtlMs(c, headers)
    ensures ReadNoLonger(Consulted(headers)) ==> ResolveTtlMs(c, headers) <= DirectiveTtlMs(c, headers)
  {
    ForbidsIsMentions(headers);
    NamedIsMentioned(headers);
    LifetimeIsTheDirectives(headers);
    TtlNoLonger(headers);
  }

  // ---------- When the default applies ----------

  /** Whatever is configured, the response gets the default under the cap. */
  ghost predicate DefaultApplies(headers: Headers) {
    forall c :: ResolveTtlMs(c, headers) == if c.defaultTtlMs < c.maxTtlMs then c.defaultTtlMs else c.maxTtlMs
  }

  /** Nothing in the element matches any pattern. */
  predicate Unremarkable(part: string) {
    !Forbids(part) && Seconds(part, S_MAXAGE).None? && Seconds(part, MAX_AGE).None?
  }

  /** The default applies exactly when no element of the field matches any pattern, present or not. */
  lemma DefaultAppliesExactly(headers: Headers)
    ensures DefaultApplies(headers) <==>
      forall k :: 0 <= k < |Directives(headers)| ==> Unremarkable(Directives(headers)[k])
  {
    var control, parts := Field(headers, CACHE_CONTROL), Directives(headers);
    ForbidsIsMentions(headers);
    LifetimeIsScanned(headers);
    ScannedNothing(parts, S_MAXAGE);
    ScannedNothing(parts, MAX_AGE);
    FirstOfBoth(Readings(parts, S_MAXAGE), Readings(parts, MAX_AGE));
    var read := Lifetime(control);
    var most := if read.Some? then read.value * 1000 + 1 else 1;
    var telling := Config(most, most, 0);
    assert Forbids(control) || read.Some? ==> ResolveTtlMs(telling, headers) != Capped(telling, None);
  }

  lemma {:induction false} ScannedNothing(parts: seq<string>, word: string)
    ensures FirstScanned(Readings(parts, word)).None?
      <==> forall k :: 0 <= k < |parts| ==> Seconds(parts[k], word).None?
  {
    if parts != [] {
      ScannedNothing(parts[1..], word);
      assert forall k :: 0 < k < |parts| ==> parts[k] == parts[1..][k - 1];
      assert forall k :: 0 <= k < |parts[1..]| ==> parts[1..][k] == parts[k + 1];
    }
  }

  /**
   The default is described as the time to live without a `Cache-Control`. That is when it applies, if and only if a
   field that is there has some element that matches a pattern.
   */
  lemma DefaultAsDescribed(headers: Headers)
    ensures (DefaultApplies(headers) <==> CACHE_CONTROL !in headers)
      <==> (CACHE_CONTROL in headers ==>
              exists k :: 0 <= k < |Directives(headers)| && !Unremarkable(Directives(headers)[k]))
  {
    DefaultAppliesExactly(headers);
    if CACHE_CONTROL !in headers {
      assert Directives(headers) == [""];
    }
  }
}
