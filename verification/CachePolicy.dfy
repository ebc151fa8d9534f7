/**
 What the response cache may store, under which key and for how long. `Cache-Control` is scanned with word-boundary
 patterns; the lemmas show that the scan goes element by element.
 */
module CachePolicy {
  import opened Prelude
  import opened Text
  import opened Http

  datatype Config = Config(defaultTtlMs: int, maxTtlMs: int, maxBodyBytes: int)

  // ---------- The key ----------

  /** `cache:service:digest`: the digest has a fixed length, so the two parts are recovered from the text. */
  datatype CacheKey = CacheKey(service: string, digest: Digest)

  function KeyOf(service: string, req: Request): CacheKey {
    CacheKey(service, Sha256(req.url + "\n" + Field(req.headers, ACCEPT) + "\n" + Field(req.headers, ACCEPT_ENCODING)))
  }

  /** Two requests share a key exactly when service, URL, Accept and Accept-Encoding agree. */
  lemma KeySeparates(service: string, req: Request, service': string, req': Request)
    requires WellFormed(req) && WellFormed(req')
    ensures KeyOf(service, req) == KeyOf(service', req') <==>
      && service == service' && req.url == req'.url
      && Field(req.headers, "accept") == Field(req'.headers, "accept")
      && Field(req.headers, "accept-encoding") == Field(req'.headers, "accept-encoding")
  {
    var a, a' := Field(req.headers, ACCEPT), Field(req'.headers, ACCEPT);
    var e, e' := Field(req.headers, ACCEPT_ENCODING), Field(req'.headers, ACCEPT_ENCODING);
    if KeyOf(service, req) == KeyOf(service', req') {
      assert req.url + "\n" + a + "\n" + e == req.url + ['\n'] + (a + ['\n'] + e);
      assert req'.url + "\n" + a' + "\n" + e' == req'.url + ['\n'] + (a' + ['\n'] + e');
      SameCut(req.url, a + ['\n'] + e, req'.url, a' + ['\n'] + e');
      SameCut(a, e, a', e');
    }
  }

  lemma SameCut(x: string, y: string, x': string, y': string)
    requires '\n' !in x && '\n' !in x' && x + ['\n'] + y == x' + ['\n'] + y'
    ensures x == x' && y == y'
  {
    IndexOfJoint(x, '\n', y);
    IndexOfJoint(x', '\n', y');
    var s := x + ['\n'] + y;
    assert x == s[..|x|] && x' == s[..|x'|];
    assert y == s[|x| + 1..] && y' == s[|x'| + 1..];
  }

  // ---------- Vary ----------

  const SAFE_VARY: set<string> := {ACCEPT, ACCEPT_ENCODING, "origin"}

  /** The names a `Vary` field lists, blanks included. */
  function VaryNames(value: string): seq<string> {
    var parts := Split(value, ',');
    seq(|parts|, i requires 0 <= i < |parts| => FoldAll(Trim(parts[i])))
  }

  predicate VaryIsKeyed(headers: Headers) {
    VARY in headers ==>
      && !headers[VARY].Numeric?
      && forall name :: name in VaryNames(Shown(headers[VARY])) ==> name == "" || name in SAFE_VARY
  }

  /** `name`, trimmed and in small letters, is one of the parts between the commas of `value`. */
  ghost predicate Names(value: string, name: string) {
    exists part :: part in Split(value, ',') && FoldAll(Trim(part)) == name
  }

  /** Every name, however many there are, is blank or one of three. */
  ghost predicate NamesKeyed(value: string) {
    forall name :: Names(value, name) ==>
      name == "" || name == "accept" || name == "accept-encoding" || name == "origin"
  }

  /** A response may be cached across clients exactly if its Vary is absent, or text or texts with such names alone. */
  lemma VaryExactly(headers: Headers)
    ensures VaryIsKeyed(headers) <==>
      "vary" in headers ==>
        match headers["vary"]
        case One(value) => NamesKeyed(value)
        case Many(values) => NamesKeyed(Join(values, ','))
        case Numeric(_) => false
  {
    if VARY in headers {
      KeyedExactly(Shown(headers[VARY]));
    }
  }

  lemma KeyedExactly(value: string)
    ensures (forall name :: name in VaryNames(value) ==> name == "" || name in SAFE_VARY) <==> NamesKeyed(value)
  {
    NamesExactly(value);
    assert forall name :: name in SAFE_VARY <==> name == "accept" || name == "accept-encoding" || name == "origin";
  }

  lemma NamesExactly(value: string)
    ensures forall name :: name in VaryNames(value) <==> Names(value, name)
  {
    var parts, names := Split(value, ','), VaryNames(value);
    forall name
      ensures name in names <==> Names(value, name)
    {
      if name in names {
        var i :| 0 <= i < |names| && names[i] == name;
        assert parts[i] in parts && FoldAll(Trim(parts[i])) == name;
      }
      if part :| part in parts && FoldAll(Trim(part)) == name {
        var i :| 0 <= i < |parts| && parts[i] == part;
        assert names[i] == name;
      }
    }
  }

  /** A field that joins comma-free names names exactly those. */
  lemma NamesOfJoined(names: seq<string>, name: string)
    requires names != [] && forall i :: 0 <= i < |names| ==> ',' !in names[i]
    ensures Names(Join(names, ','), name) <==> exists i :: 0 <= i < |names| && FoldAll(Trim(names[i])) == name
  {
    SplitJoin(names, ',');
    if i :| 0 <= i < |names| && FoldAll(Trim(names[i])) == name {
      assert names[i] in names;
    }
  }

  // ---------- Time to live ----------

  /** The longest run of digits at the front. */
  function Digits(s: string): (r: string)
    ensures |r| <= |s| && r == s[..|r|] && forall i :: 0 <= i < |r| ==> IsDigit(r[i])
    ensures |r| < |s| ==> !IsDigit(s[|r|])
  {
    if s == [] || !IsDigit(s[0]) then [] else [s[0]] + Digits(s[1..])
  }

  /** Whether `/\bword(\d+)/i` matches at `i`. */
  predicate MatchesAt(s: string, i: int, word: string) {
    0 <= i && i + |word| < |s| && OccursAt(s, i, word) && Boundary(s, i) && IsDigit(s[i + |word|])
  }

  /** The number captured by the leftmost match of `/\bword(\d+)/i` at or after `i`. */
  function SecondsFrom(s: string, i: nat, word: string): Option<nat>
    decreases |s| - i
  {
    if i >= |s| then None
    else if MatchesAt(s, i, word) then Some(Decimal(Digits(s[i + |word|..])))
    else SecondsFrom(s, i + 1, word)
  }

  function Seconds(s: string, word: string): Option<nat> {
    SecondsFrom(s, 0, word)
  }

  const S_MAXAGE := "s-maxage="
  const MAX_AGE := "max-age="

  predicate Forbids(control: string) {
    HasWord(control, "no-store") || HasWord(control, "no-cache") || HasWord(control, "private")
  }

  /** `s-maxage` before `max-age`. */
  function Lifetime(control: string): Option<nat> {
    if Seconds(control, S_MAXAGE).Some? then Seconds(control, S_MAXAGE) else Seconds(control, MAX_AGE)
  }

  /** A lifetime in milliseconds, the default without one, under the cap. */
  function Capped(c: Config, lifetime: Option<nat>): int {
    var ttlMs := if lifetime.Some? then lifetime.value * 1000 else c.defaultTtlMs;
    if ttlMs < c.maxTtlMs then ttlMs else c.maxTtlMs
  }

  function ResolveTtlMs(c: Config, headers: Headers): int {
    var control := Field(headers, CACHE_CONTROL);
    if Forbids(control) then 0 else Capped(c, Lifetime(control))
  }

  // ---------- What the patterns match ----------

  /** Storing is forbidden exactly where one of three words stands alone. */
  lemma ForbidsExactly(control: string)
    ensures Forbids(control) <==> exists before, middle, after, word ::
      word in {"no-store", "no-cache", "private"} && Stands(control, before, middle, after, word)
  {
    HasWordExactly(control, "no-store");
    HasWordExactly(control, "no-cache");
    HasWordExactly(control, "private");
  }

  /** `word`, in some letter case and not behind a word character, with all the digits that follow it. */
  ghost predicate Counts(s: string, before: string, middle: string, digits: string, after: string, word: string) {
    && s == before + middle + digits + after && FoldAll(middle) == word
    && (before == "" || !IsWordChar(before[|before| - 1])) && (after == "" || !IsDigit(after[0]))
    && digits != "" && forall i :: 0 <= i < |digits| ==> IsDigit(digits[i])
  }

  /** A number is read exactly if the pattern occurs, and it is that of its first occurrence. */
  lemma {:induction false} SecondsExactly(s: string, word: string)
    returns (before: string, middle: string, digits: string, after: string)
    requires Scannable(word)
    ensures Seconds(s, word).Some? ==> Counts(s, before, middle, digits, after, word)
    ensures Seconds(s, word).Some? ==> Seconds(s, word).value == Decimal(digits)
    ensures forall b, m, d, a :: Counts(s, b, m, d, a, word) ==> Seconds(s, word).Some? && |before| <= |b|
  {
    var j := FirstMatch(s, 0, word);
    before, middle, digits, after := "", "", "", "";
    if j < |s| {
      digits := Digits(s[j + |word|..]);
      before, middle, after := s[..j], s[j..j + |word|], s[j + |word| + |digits|..];
      MatchCounts(s, j, word);
    }
    forall b, m, d, a | Counts(s, b, m, d, a, word)
      ensures j <= |b| && MatchesAt(s, |b|, word)
    {
      CountsMatch(s, b, m, d, a, word);
    }
  }

  lemma {:induction false} FirstMatch(s: string, i: nat, word: string) returns (j: nat)
    requires i <= |s|
    ensures i <= j <= |s| && forall k :: i <= k < j ==> !MatchesAt(s, k, word)
    ensures SecondsFrom(s, i, word) == SecondsFrom(s, j, word) && (j < |s| ==> MatchesAt(s, j, word))
    decreases |s| - i
  {
    j := i;
    if i < |s| && !MatchesAt(s, i, word) {
      j := FirstMatch(s, i + 1, word);
    }
  }

  lemma {:induction false} MatchCounts(s: string, j: nat, word: string)
    requires Scannable(word) && MatchesAt(s, j, word)
    ensures var digits := Digits(s[j + |word|..]);
      Counts(s, s[..j], s[j..j + |word|], digits, s[j + |word| + |digits|..], word)
  {
    var rest := s[j + |word|..];
    assert s == s[..j] + s[j..j + |word|] + rest && rest == Digits(rest) + rest[|Digits(rest)|..];
    assert FoldAll(s[j..j + |word|])[0] == Fold(s[j]);
    assert rest[0] == s[j + |word|];
  }

  lemma {:induction false} CountsMatch(s: string, before: string, middle: string, digits: string, after: string,
                                       word: string)
    requires Scannable(word) && Counts(s, before, middle, digits, after, word)
    ensures MatchesAt(s, |before|, word)
  {
    assert s[|before|..|before| + |word|] == middle && s[|before| + |word|] == digits[0];
    assert FoldAll(middle)[0] == Fold(s[|before|]);
  }

  // ---------- The scan goes element by element ----------

  /** A pattern that starts with a word character and holds no comma. */
  predicate Scannable(word: string) {
    word != "" && IsWordChar(word[0]) && ',' !in word && FoldAll(word) == word
  }

  lemma FoldOfSlice(s: string, i: int, word: string)
    requires OccursAt(s, i, word) && ',' !in word
    ensures ',' !in s[i..i + |word|]
  {
    var slice := s[i..i + |word|];
    forall k | 0 <= k < |word|
      ensures slice[k] != ','
    {
      assert FoldAll(slice)[k] == Fold(slice[k]);
    }
  }

  /** Around a comma, an occurrence is in one half, and its boundaries are those of the half. */
  lemma OccursInHalf(a: string, b: string, i: int, word: string)
    requires Scannable(word)
    ensures var s := a + "," + b;
      OccursAt(s, i, word) <==> OccursAt(a, i, word) || OccursAt(b, i - |a| - 1, word)
    ensures OccursAt(a, i, word) ==> i + |word| <= |a|
  {
    var s := a + "," + b;
    assert 0 <= i <= |a| < i + |word| <= |s| ==> s[i..i + |word|][|a| - i] == ',';
    if i + |word| <= |a| && 0 <= i {
      assert s[i..i + |word|] == a[i..i + |word|];
    } else if |a| < i <= |s| - |word| {
      assert s[i..i + |word|] == b[i - |a| - 1..i - |a| - 1 + |word|];
    } else if OccursAt(s, i, word) {
      FoldOfSlice(s, i, word);
    }
  }

  lemma BoundaryInHalf(a: string, b: string, i: int)
    ensures 0 <= i <= |a| ==> Boundary(a + "," + b, i) == Boundary(a, i)
    ensures 0 <= i <= |b| ==> Boundary(a + "," + b, |a| + 1 + i) == Boundary(b, i)
  {}

  lemma WordInHalf(a: string, b: string, i: int, word: string)
    requires Scannable(word)
    ensures WordAt(a + "," + b, i, word) <==> WordAt(a, i, word) || WordAt(b, i - |a| - 1, word)
  {
    OccursInHalf(a, b, i, word);
    BoundaryInHalf(a, b, i);
    BoundaryInHalf(a, b, i + |word|);
    BoundaryInHalf(a, b, i - |a| - 1);
    BoundaryInHalf(a, b, i - |a| - 1 + |word|);
  }

  lemma HasWordJoint(a: string, b: string, word: string)
    requires Scannable(word)
    ensures HasWord(a + "," + b, word) <==> HasWord(a, word) || HasWord(b, word)
  {
    HasWordIfHalf(a, b, word);
    var s := a + "," + b;
    if i :| 0 <= i <= |s| - |word| && WordAt(s, i, word) {
      WordInHalf(a, b, i, word);
    }
  }

  lemma HasWordIfHalf(a: string, b: string, word: string)
    requires Scannable(word)
    ensures HasWord(a, word) || HasWord(b, word) ==> HasWord(a + "," + b, word)
  {
    if i :| 0 <= i <= |a| - |word| && WordAt(a, i, word) {
      WordInHalf(a, b, i, word);
    } else if i :| 0 <= i <= |b| - |word| && WordAt(b, i, word) {
      WordInHalf(a, b, |a| + 1 + i, word);
      assert WordAt(a + "," + b, |a| + 1 + i, word);
    }
  }

  /** A word is found in a field exactly when it is found in one of the parts it is joined of. */
  lemma {:induction false} HasWordByDirective(parts: seq<string>, word: string)
    requires parts != [] && Scannable(word)
    ensures HasWord(Join(parts, ','), word) <==> exists k :: 0 <= k < |parts| && HasWord(parts[k], word)
  {
    if |parts| > 1 {
      HasWordByDirective(parts[1..], word);
      assert Join(parts, ',') == parts[0] + "," + Join(parts[1..], ',');
      HasWordJoint(parts[0], Join(parts[1..], ','), word);
      assert forall k :: 0 < k < |parts| ==> parts[k] == parts[1..][k - 1];
      if k :| 0 <= k < |parts[1..]| && HasWord(parts[1..][k], word) {
        assert HasWord(parts[k + 1], word);
      }
    }
  }

  lemma MatchInHalf(a: string, b: string, i: nat, word: string)
    requires Scannable(word)
    ensures i <= |a| ==> MatchesAt(a + "," + b, i, word) == MatchesAt(a, i, word)
    ensures MatchesAt(a + "," + b, |a| + 1 + i, word) == MatchesAt(b, i, word)
  {
    var s := a + "," + b;
    OccursInHalf(a, b, i, word);
    OccursInHalf(a, b, |a| + 1 + i, word);
    BoundaryInHalf(a, b, i);
    if i <= |a| && OccursAt(s, i, word) && !OccursAt(a, i, word) {
      assert false;
    }
    if OccursAt(a, |a| + 1 + i, word) {
      assert false;
    }
  }

  lemma {:induction false} DigitsInHalf(a: string, b: string)
    ensures Digits(a + "," + b) == Digits(a)
  {
    if a != [] {
      assert (a + "," + b)[1..] == a[1..] + "," + b;
      DigitsInHalf(a[1..], b);
    }
  }

  lemma {:induction false} SecondsInSecondHalf(a: string, b: string, i: nat, word: string)
    requires Scannable(word) && i <= |b|
    ensures SecondsFrom(a + "," + b, |a| + 1 + i, word) == SecondsFrom(b, i, word)
    decreases |b| - i
  {
    if i < |b| {
      var s := a + "," + b;
      MatchInHalf(a, b, i, word);
      SecondsInSecondHalf(a, b, i + 1, word);
      if MatchesAt(b, i, word) {
        assert s[|a| + 1 + i + |word|..] == b[i + |word|..];
      }
    }
  }

  lemma {:induction false} SecondsJointFrom(a: string, b: string, i: nat, word: string)
    requires Scannable(word) && i <= |a|
    ensures SecondsFrom(a + "," + b, i, word)
         == if SecondsFrom(a, i, word).Some? then SecondsFrom(a, i, word) else Seconds(b, word)
    decreases |a| - i
  {
    var s := a + "," + b;
    MatchInHalf(a, b, i, word);
    if i == |a| {
      SecondsInSecondHalf(a, b, 0, word);
      assert !MatchesAt(a, |a|, word);
    } else if MatchesAt(a, i, word) {
      assert s[i + |word|..] == a[i + |word|..] + "," + b;
      DigitsInHalf(a[i + |word|..], b);
    } else {
      SecondsJointFrom(a, b, i + 1, word);
    }
  }

  /** One element of the field, looked at for one of the two lifetimes. */
  datatype Reading = Reading(element: string, word: string)

  function Scanned(r: Reading): Option<nat> {
    Seconds(r.element, r.word)
  }

  function Readings(parts: seq<string>, word: string): seq<Reading> {
    if parts == [] then [] else [Reading(parts[0], word)] + Readings(parts[1..], word)
  }

  function FirstScanned(readings: seq<Reading>): Option<nat> {
    if readings == [] then None
    else if Scanned(readings[0]).Some? then Scanned(readings[0])
    else FirstScanned(readings[1..])
  }

  /** The number read from a field is that of the first part in which one is found. */
  lemma {:induction false} SecondsByDirective(parts: seq<string>, word: string)
    requires parts != [] && Scannable(word)
    ensures Seconds(Join(parts, ','), word) == FirstScanned(Readings(parts, word))
  {
    if |parts| == 1 {
      assert Readings(parts[1..], word) == [];
    } else {
      SecondsByDirective(parts[1..], word);
      assert Join(parts, ',') == parts[0] + "," + Join(parts[1..], ',');
      SecondsJointFrom(parts[0], Join(parts[1..], ','), 0, word);
    }
  }
}
