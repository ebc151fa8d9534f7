/**
 UTF-8 as Node's Buffer does it: `Buffer.from(text)` and `toString("utf8")`. Decoding accepts any bytes: every
 maximal ill-formed part becomes one replacement character.
 */
module Utf8 {
  import opened Prelude

  const REPLACEMENT: char := '\U{FFFD}'

  function EncodeChar(c: char): (r: seq<byte>)
    ensures 1 <= |r| <= 4
  {
    var n := c as int;
    if n < 0x80 then [n]
    else if n < 0x800 then [0xC0 + n / 64, 0x80 + n % 64]
    else if n < 0x1_0000 then [0xE0 + n / 4096, 0x80 + n / 64 % 64, 0x80 + n % 64]
    else [0xF0 + n / 262144, 0x80 + n / 4096 % 64, 0x80 + n / 64 % 64, 0x80 + n % 64]
  }

  function Encode(s: string): seq<byte> {
    if s == [] then [] else EncodeChar(s[0]) + Encode(s[1..])
  }

  predicate Within(b: seq<byte>, i: nat, low: int, high: int) {
    i < |b| && low <= b[i] <= high
  }

  /** The smallest and largest second byte that may follow a three- or four-byte lead. */
  function SecondRange(lead: byte): (int, int) {
    if lead == 0xE0 then (0xA0, 0xBF)
    else if lead == 0xED then (0x80, 0x9F)
    else if lead == 0xF0 then (0x90, 0xBF)
    else if lead == 0xF4 then (0x80, 0x8F)
    else (0x80, 0xBF)
  }

  /** The six payload bits of the continuation byte at `i`. */
  function Low6(b: seq<byte>, i: nat): (r: int)
    requires Within(b, i, 0x80, 0xBF)
    ensures 0 <= r < 64
  {
    var n: int := b[i];
    n - 0x80
  }

  /** Decodes one character at the front and says how many bytes it used up. */
  function DecodeChar(b: seq<byte>): (r: (char, nat))
    requires b != []
    ensures 1 <= r.1 <= |b|
  {
    var lead: int := b[0];
    var (low, high) := SecondRange(lead);
    if lead < 0x80 then (lead as char, 1)
    else if 0xC2 <= lead <= 0xDF then
      if Within(b, 1, 0x80, 0xBF) then (((lead - 0xC0) * 64 + Low6(b, 1)) as char, 2) else (REPLACEMENT, 1)
    else if 0xE0 <= lead <= 0xEF then
      if !Within(b, 1, low, high) then (REPLACEMENT, 1)
      else if !Within(b, 2, 0x80, 0xBF) then (REPLACEMENT, 2)
      else (((lead - 0xE0) * 4096 + Low6(b, 1) * 64 + Low6(b, 2)) as char, 3)
    else if 0xF0 <= lead <= 0xF4 then
      if !Within(b, 1, low, high) then (REPLACEMENT, 1)
      else if !Within(b, 2, 0x80, 0xBF) then (REPLACEMENT, 2)
      else if !Within(b, 3, 0x80, 0xBF) then (REPLACEMENT, 3)
      else
        (((lead - 0xF0) * 262144 + Low6(b, 1) * 4096 + Low6(b, 2) * 64 + Low6(b, 3)) as char, 4)
    else (REPLACEMENT, 1)
  }

  function Decode(b: seq<byte>): string {
    if b == [] then [] else var (c, n) := DecodeChar(b); [c] + Decode(b[n..])
  }

  lemma DecodeTwoBytes(n: int, b: seq<byte>)
    requires 0x80 <= n < 0x800 && |b| >= 2
    requires b[0] == 0xC0 + n / 64 && b[1] == 0x80 + n % 64
    ensures DecodeChar(b) == (n as char, 2)
  {}

  lemma DecodeThreeBytes(n: int, x: int, y: int, z: int, b: seq<byte>)
    requires 0x800 <= n < 0xD800 || 0xE000 <= n < 0x1_0000
    requires n == x * 4096 + y * 64 + z && 0 <= y < 64 && 0 <= z < 64 && |b| >= 3
    requires b[0] == 0xE0 + x && b[1] == 0x80 + y && b[2] == 0x80 + z
    ensures DecodeChar(b) == (n as char, 3)
  {}

  lemma DecodeFourBytes(n: int, w: int, x: int, y: int, z: int, b: seq<byte>)
    requires 0x1_0000 <= n < 0x11_0000 && |b| >= 4
    requires n == w * 262144 + x * 4096 + y * 64 + z && 0 <= x < 64 && 0 <= y < 64 && 0 <= z < 64
    requires b[0] == 0xF0 + w && b[1] == 0x80 + x && b[2] == 0x80 + y && b[3] == 0x80 + z
    ensures DecodeChar(b) == (n as char, 4)
  {}

  lemma DecodeEncodedChar(c: char, rest: seq<byte>)
    ensures DecodeChar(EncodeChar(c) + rest) == (c, |EncodeChar(c)|)
  {
    var n := c as int;
    var b := EncodeChar(c) + rest;
    if 0x80 <= n < 0x800 {
      DecodeTwoBytes(n, b);
    } else if 0x800 <= n < 0x1_0000 {
      SplitCodePoint(n);
      DecodeThreeBytes(n, n / 4096, n / 64 % 64, n % 64, b);
    } else if n >= 0x1_0000 {
      SplitCodePoint(n);
      DecodeFourBytes(n, n / 262144, n / 4096 % 64, n / 64 % 64, n % 64, b);
    }
  }

  lemma SplitCodePoint(n: nat)
    ensures n == n / 4096 * 4096 + n / 64 % 64 * 64 + n % 64
    ensures n / 4096 == n / 262144 * 64 + n / 4096 % 64
  {
    var a := n / 64;
    var b := a / 64;
    assert n == 64 * a + n % 64 && a == 64 * b + a % 64 && b == 64 * (b / 64) + b % 64;
    assert n / 4096 == b && n / 262144 == b / 64;
  }

  /** Every well-formed text comes back from its bytes. */
  lemma {:induction false} DecodeEncode(s: string)
    ensures Decode(Encode(s)) == s
  {
    if s != [] {
      var rest := Encode(s[1..]);
      DecodeEncodedChar(s[0], rest);
      assert (EncodeChar(s[0]) + rest)[|EncodeChar(s[0])|..] == rest;
      DecodeEncode(s[1..]);
    }
  }

  // ---------- RFC 3629 ----------

  /** ASCII is its own encoding. */
  lemma {:induction false} AsciiIsItself(s: string)
    requires forall i :: 0 <= i < |s| ==> s[i] as int < 0x80
    ensures |Encode(s)| == |s| && forall i :: 0 <= i < |s| ==> Encode(s)[i] == s[i] as int
  {
    if s != [] {
      AsciiIsItself(s[1..]);
    }
  }

  /** One character of each longer form: U+00E9, U+20AC and U+1F600. */
  lemma KnownEncodings()
    ensures EncodeChar('\U{00E9}') == [0xC3, 0xA9]
    ensures EncodeChar('\U{20AC}') == [0xE2, 0x82, 0xAC]
    ensures EncodeChar('\U{1F600}') == [0xF0, 0x9F, 0x98, 0x80]
  {}

  /** Every character that is read, but for replacements, stands for the very bytes that encode it. */
  lemma OnlyEncodingsAreRead(b: seq<byte>)
    requires b != []
    ensures var (c, n) := DecodeChar(b);
      c != REPLACEMENT ==> b[..n] == EncodeChar(c)
  {
    var (c, n) := DecodeChar(b);
    var lead: int := b[0];
    if c != REPLACEMENT && n == 2 {
      Divided(c as int, lead - 0xC0, Low6(b, 1));
    } else if c != REPLACEMENT && n == 3 {
      EncodedThree(c, lead - 0xE0, Low6(b, 1), Low6(b, 2));
    } else if c != REPLACEMENT && n == 4 {
      EncodedFour(c, lead - 0xF0, Low6(b, 1), Low6(b, 2), Low6(b, 3));
    }
  }

  lemma EncodedThree(c: char, x: int, y: int, z: int)
    requires 0 <= x < 16 && 0 <= y < 64 && 0 <= z < 64 && c as int == x * 4096 + y * 64 + z >= 0x800
    ensures EncodeChar(c) == [0xE0 + x, 0x80 + y, 0x80 + z]
  {
    Divided(c as int, x * 64 + y, z);
    Divided(x * 64 + y, x, y);
    QuotientsOf(c as int);
  }

  lemma EncodedFour(c: char, w: int, x: int, y: int, z: int)
    requires 0 <= w <= 4 && 0 <= x < 64 && 0 <= y < 64 && 0 <= z < 64
    requires c as int == w * 262144 + x * 4096 + y * 64 + z >= 0x1_0000
    ensures EncodeChar(c) == [0xF0 + w, 0x80 + x, 0x80 + y, 0x80 + z]
  {
    Divided(c as int, w * 4096 + x * 64 + y, z);
    Divided(w * 4096 + x * 64 + y, w * 64 + x, y);
    Divided(w * 64 + x, w, x);
    QuotientsOf(c as int);
  }

  lemma Divided(n: int, q: int, r: int)
    requires n == q * 64 + r && 0 <= r < 64
    ensures n / 64 == q && n % 64 == r
  {}

  lemma QuotientsOf(n: nat)
    ensures n / 4096 == n / 64 / 64 && n / 262144 == n / 64 / 64 / 64
  {
    SplitCodePoint(n);
  }

  /** Ill-formed bytes: a bad lead, an overlong form and a surrogate, each byte a part of its own. */
  lemma KnownReplacements()
    ensures Decode([0xFF]) == [REPLACEMENT] && Decode([0xC0, 0x80]) == [REPLACEMENT, REPLACEMENT]
    ensures Decode([0xED, 0xA0, 0x80]) == [REPLACEMENT, REPLACEMENT, REPLACEMENT]
  {
    assert [0xC0, 0x80][1..] == [0x80] && [0xED, 0xA0, 0x80][1..] == [0xA0, 0x80];
    assert [0xA0, 0x80][1..] == [0x80] && [0x80][1..] == [];
  }

  /** A character that is cut off, by the end or by another one, is one part, however much of it there is. */
  lemma CutOffCharacters(rest: seq<byte>)
    requires rest == [] || rest[0] < 0x80
    ensures Decode([0xC3] + rest) == Decode([0xE2] + rest) == Decode([0xF0] + rest) == [REPLACEMENT] + Decode(rest)
    ensures Decode([0xE2, 0x82] + rest) == Decode([0xF0, 0x9F] + rest) == [REPLACEMENT] + Decode(rest)
    ensures Decode([0xF0, 0x9F, 0x98] + rest) == [REPLACEMENT] + Decode(rest)
  {
    OnePart([0xC3], rest);
    OnePart([0xE2], rest);
    OnePart([0xF0], rest);
    OnePart([0xE2, 0x82], rest);
    OnePart([0xF0, 0x9F], rest);
    OnePart([0xF0, 0x9F, 0x98], rest);
  }

  lemma OnePart(part: seq<byte>, rest: seq<byte>)
    requires part == [0xC3] || part == [0xE2] || part == [0xF0]
      || part == [0xE2, 0x82] || part == [0xF0, 0x9F] || part == [0xF0, 0x9F, 0x98]
    requires rest == [] || rest[0] < 0x80
    ensures Decode(part + rest) == [REPLACEMENT] + Decode(rest)
  {
    assert (part + rest)[|part|..] == rest;
    assert DecodeChar(part + rest) == (REPLACEMENT, |part|);
  }
}
