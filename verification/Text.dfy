/** The JavaScript string operations the gateway relies on: trim, split, join, indexOf and `\b` word search. */
module Text {
  import opened Prelude

  /** ECMAScript white space and line terminators: what `trim` strips and `\s` matches. */
  predicate IsSpace(c: char) {
    var n := c as int;
    || 9 <= n <= 13 || n == 32 || n == 0xA0 || n == 0x1680 || 0x2000 <= n <= 0x200A
    || n == 0x2028 || n == 0x2029 || n == 0x202F || n == 0x205F || n == 0x3000 || n == 0xFEFF
  }

  predicate NoSpace(s: string) {
    forall i :: 0 <= i < |s| ==> !IsSpace(s[i])
  }

  function TrimStart(s: string): string {
    if s != [] && IsSpace(s[0]) then TrimStart(s[1..]) else s
  }

  function TrimEnd(s: string): string {
    if s != [] && IsSpace(s[|s| - 1]) then TrimEnd(s[..|s| - 1]) else s
  }

  function Trim(s: string): string {
    TrimEnd(TrimStart(s))
  }

  predicate Trimmed(s: string) {
    s != [] ==> !IsSpace(s[0]) && !IsSpace(s[|s| - 1])
  }

  /** Trimming cuts a window out of the text, and the window neither starts nor ends with white space. */
  lemma {:induction false} TrimWindow(s: string) returns (from: nat, to: nat)
    ensures from <= to <= |s| && Trim(s) == s[from..to] && Trimmed(Trim(s))
    ensures forall i :: 0 <= i < from || to <= i < |s| ==> IsSpace(s[i])
  {
    from := TrimStartWindow(s);
    var rest := s[from..];
    var n := TrimEndWindow(rest);
    to := from + n;
    assert rest[..n] == s[from..to];
    assert forall i :: to <= i < |s| ==> s[i] == rest[i - from];
  }

  lemma {:induction false} TrimStartWindow(s: string) returns (from: nat)
    ensures from <= |s| && TrimStart(s) == s[from..] && forall i :: 0 <= i < from ==> IsSpace(s[i])
    ensures TrimStart(s) != [] ==> !IsSpace(TrimStart(s)[0])
  {
    if s != [] && IsSpace(s[0]) {
      var n := TrimStartWindow(s[1..]);
      from := n + 1;
      assert s[1..][n..] == s[from..];
      assert forall i :: 0 < i < from ==> s[i] == s[1..][i - 1];
    } else {
      from := 0;
    }
  }

  lemma {:induction false} TrimEndWindow(s: string) returns (to: nat)
    ensures to <= |s| && TrimEnd(s) == s[..to] && forall i :: to <= i < |s| ==> IsSpace(s[i])
    ensures TrimEnd(s) != [] ==> !IsSpace(TrimEnd(s)[|TrimEnd(s)| - 1])
  {
    if s != [] && IsSpace(s[|s| - 1]) {
      to := TrimEndWindow(s[..|s| - 1]);
      assert s[..|s| - 1][..to] == s[..to];
    } else {
      to := |s|;
    }
  }

  /** `String.prototype.indexOf` for one character. */
  function IndexOf(s: string, c: char): (r: int)
    ensures -1 <= r < |s|
    ensures r < 0 <==> c !in s
    ensures r >= 0 ==> s[r] == c && c !in s[..r]
  {
    if s == [] then -1
    else if s[0] == c then 0
    else
      var r := IndexOf(s[1..], c);
      if r < 0 then -1 else assert s[..r + 1] == [s[0]] + s[1..][..r]; r + 1
  }

  /** The first separator of `before + c + after` is the one between them when `before` has none. */
  lemma IndexOfJoint(before: string, c: char, after: string)
    requires c !in before
    ensures IndexOf(before + [c] + after, c) == |before|
  {
    var s := before + [c] + after;
    assert s[|before|] == c;
    assert forall i :: 0 <= i < |before| ==> s[i] == before[i];
    assert c in s;
  }

  /** `String.prototype.split` on one character: never empty. */
  function Split(s: string, sep: char): (parts: seq<string>)
    ensures |parts| >= 1
    ensures forall i :: 0 <= i < |parts| ==> sep !in parts[i]
  {
    if s == [] then [[]]
    else
      var rest := Split(s[1..], sep);
      if s[0] == sep then [[]] + rest else [[s[0]] + rest[0]] + rest[1..]
  }

  function Join(parts: seq<string>, sep: char): string {
    if parts == [] then []
    else if |parts| == 1 then parts[0]
    else parts[0] + [sep] + Join(parts[1..], sep)
  }

  lemma {:induction false} SplitPrefix(head: string, sep: char, tail: string)
    requires sep !in head
    ensures Split(head + [sep] + tail, sep) == [head] + Split(tail, sep)
  {
    var s := head + [sep] + tail;
    if head == [] {
      assert s[1..] == tail;
    } else {
      assert s[1..] == head[1..] + [sep] + tail;
      SplitPrefix(head[1..], sep, tail);
      assert [s[0]] + head[1..] == head;
    }
  }

  lemma {:induction false} SplitWhole(s: string, sep: char)
    requires sep !in s
    ensures Split(s, sep) == [s]
  {
    if s != [] {
      SplitWhole(s[1..], sep);
      assert [s[0]] + s[1..] == s;
    }
  }

  /** Splitting undoes joining when no part contains the separator. */
  lemma {:induction false} SplitJoin(parts: seq<string>, sep: char)
    requires parts != []
    requires forall i :: 0 <= i < |parts| ==> sep !in parts[i]
    ensures Split(Join(parts, sep), sep) == parts
  {
    if |parts| == 1 {
      SplitWhole(parts[0], sep);
      assert parts == [parts[0]];
    } else {
      SplitPrefix(parts[0], sep, Join(parts[1..], sep));
      SplitJoin(parts[1..], sep);
      assert parts == [parts[0]] + parts[1..];
    }
  }

  /** Joining undoes splitting, always. */
  lemma {:induction false} JoinSplit(s: string, sep: char)
    ensures Join(Split(s, sep), sep) == s
  {
    if s != [] {
      var rest := Split(s[1..], sep);
      JoinSplit(s[1..], sep);
      if s[0] == sep {
        assert ([[]] + rest)[1..] == rest;
      } else {
        var parts := [[s[0]] + rest[0]] + rest[1..];
        assert parts[1..] == rest[1..];
        if |rest| > 1 {
          assert [s[0]] + (rest[0] + [sep] + Join(rest[1..], sep)) == parts[0] + [sep] + Join(parts[1..], sep);
        }
      }
      assert [s[0]] + s[1..] == s;
    }
  }

  /** The parts that are not blank, trimmed. */
  function NonBlank(parts: seq<string>): seq<string> {
    if parts == [] then []
    else if Trim(parts[0]) == "" then NonBlank(parts[1..])
    else [Trim(parts[0])] + NonBlank(parts[1..])
  }

  lemma {:induction false} NonBlankFixed(parts: seq<string>)
    requires forall i :: 0 <= i < |parts| ==> parts[i] != "" && Trim(parts[i]) == parts[i]
    ensures NonBlank(parts) == parts
  {
    if parts != [] {
      NonBlankFixed(parts[1..]);
    }
  }

  lemma {:induction false} NonBlankShape(parts: seq<string>, sep: char, i: nat)
    requires i < |NonBlank(parts)|
    requires forall k :: 0 <= k < |parts| ==> sep !in parts[k]
    ensures NonBlank(parts)[i] != "" && Trimmed(NonBlank(parts)[i]) && sep !in NonBlank(parts)[i]
  {
    if Trim(parts[0]) == "" {
      NonBlankShape(parts[1..], sep, i);
    } else if i > 0 {
      NonBlankShape(parts[1..], sep, i - 1);
    } else {
      var from, to := TrimWindow(parts[0]);
    }
  }

  /** ASCII lower-casing of one character, which is all the `i` flag does to an ASCII pattern. */
  function Fold(c: char): char {
    if 'A' <= c <= 'Z' then (c as int + 32) as char else c
  }

  function FoldAll(s: string): (r: string)
    ensures |r| == |s|
    ensures forall i :: 0 <= i < |s| ==> r[i] == Fold(s[i])
  {
    seq(|s|, i requires 0 <= i < |s| => Fold(s[i]))
  }

  predicate IsDigit(c: char) {
    '0' <= c <= '9'
  }

  function DigitValue(c: char): nat
    requires IsDigit(c)
  {
    c as int - '0' as int
  }

  /** The number a text of digits writes. */
  function Decimal(s: string): nat
    requires forall i :: 0 <= i < |s| ==> IsDigit(s[i])
  {
    if s == [] then 0 else 10 * Decimal(s[..|s| - 1]) + DigitValue(s[|s| - 1])
  }

  predicate IsWordChar(c: char) {
    'a' <= c <= 'z' || 'A' <= c <= 'Z' || IsDigit(c) || c == '_'
  }

  /** The `\b` assertion at position `i`. */
  predicate Boundary(s: string, i: int)
    requires 0 <= i <= |s|
  {
    (i > 0 && IsWordChar(s[i - 1])) != (i < |s| && IsWordChar(s[i]))
  }

  /** Whether lower-case `word` occurs at `i`, whatever the letter case. */
  predicate OccursAt(s: string, i: int, word: string) {
    0 <= i <= |s| - |word| && FoldAll(s[i..i + |word|]) == word
  }

  /** Whether `/\bword\b/i` matches at `i`. */
  predicate WordAt(s: string, i: int, word: string) {
    OccursAt(s, i, word) && Boundary(s, i) && Boundary(s, i + |word|)
  }

  /** The test `/\bword\b/i`. */
  predicate HasWord(s: string, word: string) {
    exists i :: 0 <= i <= |s| - |word| && WordAt(s, i, word)
  }

  // ---------- What the characters and words are ----------

  const WHITE_SPACE: set<int> :=
    {0x9, 0xA, 0xB, 0xC, 0xD, 0x20, 0xA0, 0x1680, 0x2000, 0x2001, 0x2002, 0x2003, 0x2004, 0x2005, 0x2006, 0x2007,
     0x2008, 0x2009, 0x200A, 0x2028, 0x2029, 0x202F, 0x205F, 0x3000, 0xFEFF}

  const UPPER := "ABCDEFGHIJKLMNOPQRSTUVWXYZ"
  const LOWER := "abcdefghijklmnopqrstuvwxyz"
  const DIGITS := "0123456789"

  /** The characters that `\s`, `\d` and `\w` match. */
  lemma CharacterClasses(c: char)
    ensures IsSpace(c) <==> c as int in WHITE_SPACE
    ensures IsDigit(c) <==> c in DIGITS
    ensures IsWordChar(c) <==> c in UPPER || c in LOWER || c in DIGITS || c == '_'
  {
    InAlphabet(c);
    if IsDigit(c) {
      assert DIGITS[c as int - '0' as int] == c;
    }
  }

  lemma InAlphabet(c: char)
    ensures c in UPPER <==> 'A' <= c <= 'Z'
    ensures c in LOWER <==> 'a' <= c <= 'z'
  {
    AlphabetAt();
    if 'A' <= c <= 'Z' {
      assert UPPER[c as int - 'A' as int] == c;
    }
    if 'a' <= c <= 'z' {
      assert LOWER[c as int - 'a' as int] == c;
    }
  }

  lemma AlphabetAt()
    ensures |UPPER| == |LOWER| == 26
    ensures forall i :: 0 <= i < 26 ==> UPPER[i] as int == 'A' as int + i
    ensures forall i :: 0 <= i < 26 ==> LOWER[i] as int == 'a' as int + i
    ensures |DIGITS| == 10 && forall i :: 0 <= i < 10 ==> DIGITS[i] as int == '0' as int + i
  {}

  /** Folding takes each capital to its small letter and leaves every other character alone. */
  lemma FoldExactly(c: char)
    ensures forall i :: 0 <= i < 26 ==> Fold(UPPER[i]) == LOWER[i]
    ensures c !in UPPER ==> Fold(c) == c
  {
    AlphabetAt();
    InAlphabet(c);
  }

  /** `word`, in some letter case, is `middle` of `s` and touches no word character. */
  ghost predicate Stands(s: string, before: string, middle: string, after: string, word: string) {
    && s == before + middle + after && FoldAll(middle) == word
    && (before == "" || !IsWordChar(before[|before| - 1])) && (after == "" || !IsWordChar(after[0]))
  }

  /** A word that starts and ends in word characters, as every word searched for does. */
  predicate Whole(word: string) {
    word != "" && IsWordChar(word[0]) && IsWordChar(word[|word| - 1])
  }

  /** A word is found exactly where it stands alone. */
  lemma {:induction false} HasWordExactly(s: string, word: string)
    requires Whole(word)
    ensures HasWord(s, word) <==> exists before, middle, after :: Stands(s, before, middle, after, word)
  {
    if HasWord(s, word) {
      var before, middle, after := FoundStands(s, word);
    }
    if before, middle, after :| Stands(s, before, middle, after, word) {
      StandsIsFound(s, before, middle, after, word);
    }
  }

  lemma {:induction false} FoundStands(s: string, word: string) returns (before: string, middle: string, after: string)
    requires Whole(word) && HasWord(s, word)
    ensures Stands(s, before, middle, after, word)
  {
    var i :| 0 <= i <= |s| - |word| && WordAt(s, i, word);
    before, middle, after := s[..i], s[i..i + |word|], s[i + |word|..];
    WordStands(s, i, word);
  }

  lemma {:induction false} WordStands(s: string, i: nat, word: string)
    requires Whole(word) && WordAt(s, i, word)
    ensures Stands(s, s[..i], s[i..i + |word|], s[i + |word|..], word)
  {
    EdgesOf(s[i..i + |word|], word);
    BoundaryAround(s, i);
    BoundaryAround(s, i + |word|);
  }

  lemma {:induction false} StandsIsFound(s: string, before: string, middle: string, after: string, word: string)
    requires Whole(word) && Stands(s, before, middle, after, word)
    ensures HasWord(s, word)
  {
    EdgesOf(middle, word);
    assert s[|before|..|before| + |word|] == middle;
    BoundaryAround(s, |before|);
    BoundaryAround(s, |before| + |word|);
    assert WordAt(s, |before|, word);
  }

  /** A boundary lies between a word character and something else. */
  lemma BoundaryAround(s: string, i: nat)
    requires i <= |s|
    ensures 0 < i < |s| ==> (Boundary(s, i) <==> IsWordChar(s[i - 1]) != IsWordChar(s[i]))
    ensures i == 0 && s != "" ==> (Boundary(s, i) <==> IsWordChar(s[0]))
    ensures i == |s| && s != "" ==> (Boundary(s, i) <==> IsWordChar(s[|s| - 1]))
  {}

  lemma {:induction false} EdgesOf(text: string, word: string)
    requires Whole(word) && FoldAll(text) == word
    ensures IsWordChar(text[0]) && IsWordChar(text[|text| - 1])
  {
    assert Fold(text[0]) == word[0] && Fold(text[|text| - 1]) == word[|word| - 1];
  }

  /** The parts that are left are the trimmed, non-empty ones. */
  lemma {:induction false} NonBlankExactly(parts: seq<string>, item: string)
    ensures item in NonBlank(parts) <==> item != "" && exists part :: part in parts && Trim(part) == item
  {
    if parts != [] {
      NonBlankExactly(parts[1..], item);
      assert parts == [parts[0]] + parts[1..];
    }
  }

  // ---------- Numbers ----------

  function Digit(n: nat): char
    requires n < 10
  {
    ('0' as int + n) as char
  }

  /** The decimal notation of a number. */
  function Printed(n: nat): (s: string)
    ensures s != "" && forall i :: 0 <= i < |s| ==> IsDigit(s[i])
  {
    if n < 10 then [Digit(n)] else Printed(n / 10) + [Digit(n % 10)]
  }

  /** One more digit is ten times the number and that digit. */
  lemma DecimalStep(s: string, d: char)
    requires IsDigit(d) && forall i :: 0 <= i < |s| ==> IsDigit(s[i])
    ensures Decimal(s + [d]) == 10 * Decimal(s) + (d as int - '0' as int)
  {
    assert (s + [d])[..|s|] == s;
  }

  /** Reading a printed number gives it back. */
  lemma {:induction false} DecimalOfPrinted(n: nat)
    ensures Decimal(Printed(n)) == n
  {
    if n < 10 {
      DecimalStep("", Digit(n));
      assert "" + [Digit(n)] == [Digit(n)];
    } else {
      DecimalOfPrinted(n / 10);
      DecimalStep(Printed(n / 10), Digit(n % 10));
    }
  }
}
