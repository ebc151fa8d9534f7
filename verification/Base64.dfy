/**
 Base64 (RFC 4648 section 4) as Node's Buffer does it. Encoding pads; decoding also takes the URL-safe alphabet,
 skips characters outside both alphabets and stops at the first `=`.
 */
module Base64 {
  import opened Prelude
  import Text

  type sextet = x: int | 0 <= x < 64

  function Symbol(v: sextet): char {
    if v < 26 then ('A' as int + v) as char
    else if v < 52 then ('a' as int + v - 26) as char
    else if v < 62 then ('0' as int + v - 52) as char
    else if v == 62 then '+'
    else '/'
  }

  function Value(c: char): Option<sextet> {
    if 'A' <= c <= 'Z' then Some(c as int - 'A' as int)
    else if 'a' <= c <= 'z' then Some(c as int - 'a' as int + 26)
    else if '0' <= c <= '9' then Some(c as int - '0' as int + 52)
    else if c == '+' || c == '-' then Some(62)
    else if c == '/' || c == '_' then Some(63)
    else None
  }

  /** The bytes read as a bit string, cut into sextets, zero bits filling up the last one. */
  function Digits(b: seq<byte>): seq<sextet> {
    if |b| == 0 then []
    else if |b| == 1 then [b[0] / 4, b[0] % 4 * 16]
    else if |b| == 2 then [b[0] / 4, b[0] % 4 * 16 + b[1] / 16, b[1] % 16 * 4]
    else [b[0] / 4, b[0] % 4 * 16 + b[1] / 16, b[1] % 16 * 4 + b[2] / 64, b[2] % 64] + Digits(b[3..])
  }

  function Show(v: seq<sextet>): (s: string)
    ensures |s| == |v|
    ensures forall i :: 0 <= i < |v| ==> s[i] == Symbol(v[i])
  {
    if v == [] then "" else [Symbol(v[0])] + Show(v[1..])
  }

  function Padding(length: nat): string {
    if length % 3 == 0 then "" else if length % 3 == 1 then "==" else "="
  }

  function Encode(b: seq<byte>): string {
    Show(Digits(b)) + Padding(|b|)
  }

  /** The sextets of the symbols before the first `=`. */
  function Sextets(s: string): seq<sextet> {
    if s == [] || s[0] == '=' then []
    else match Value(s[0])
      case None => Sextets(s[1..])
      case Some(v) => [v] + Sextets(s[1..])
  }

  /** Regroups sextets into bytes; a lone trailing sextet is dropped. */
  function Bytes(v: seq<sextet>): seq<byte> {
    var w: seq<int> := v;
    if |w| < 2 then []
    else if |w| == 2 then [w[0] * 4 + w[1] / 16]
    else if |w| == 3 then [w[0] * 4 + w[1] / 16, w[1] % 16 * 16 + w[2] / 4]
    else [w[0] * 4 + w[1] / 16, w[1] % 16 * 16 + w[2] / 4, w[2] % 4 * 64 + w[3]] + Bytes(v[4..])
  }

  function Decode(s: string): seq<byte> {
    Bytes(Sextets(s))
  }

  lemma ValueOfSymbol(v: sextet)
    ensures Value(Symbol(v)) == Some(v) && Symbol(v) != '='
  {}

  lemma SextetsOfFront(v: sextet, rest: string)
    ensures Sextets([Symbol(v)] + rest) == [v] + Sextets(rest)
  {
    ValueOfSymbol(v);
    assert ([Symbol(v)] + rest)[1..] == rest;
  }

  lemma {:induction false} SextetsOfShow(v: seq<sextet>, padding: string)
    requires padding != "" ==> padding[0] == '='
    ensures Sextets(Show(v) + padding) == v
  {
    if v != [] {
      SextetsOfShow(v[1..], padding);
      assert Show(v) + padding == [Symbol(v[0])] + (Show(v[1..]) + padding);
      SextetsOfFront(v[0], Show(v[1..]) + padding);
      assert v == [v[0]] + v[1..];
    }
  }

  lemma Regroup(b0: int, b1: int, b2: int)
    requires 0 <= b0 < 256 && 0 <= b1 < 256 && 0 <= b2 < 256
    ensures b0 / 4 * 4 + (b0 % 4 * 16 + b1 / 16) / 16 == b0
    ensures (b0 % 4 * 16 + b1 / 16) % 16 * 16 + (b1 % 16 * 4 + b2 / 64) / 4 == b1
    ensures (b1 % 16 * 4 + b2 / 64) % 4 * 64 + b2 % 64 == b2
  {}

  lemma {:induction false} BytesOfDigits(b: seq<byte>)
    ensures Bytes(Digits(b)) == b
  {
    if |b| == 1 {
      Regroup(b[0], 0, 0);
    } else if |b| == 2 {
      Regroup(b[0], b[1], 0);
    } else if |b| > 2 {
      Regroup(b[0], b[1], b[2]);
      BytesOfDigits(b[3..]);
      assert Digits(b)[4..] == Digits(b[3..]);
      assert b == [b[0], b[1], b[2]] + b[3..];
    }
  }

  /** Decoding an encoding gives the bytes back, with every padding. */
  lemma DecodeEncode(b: seq<byte>)
    ensures Decode(Encode(b)) == b
  {
    SextetsOfShow(Digits(b), Padding(|b|));
    BytesOfDigits(b);
  }

  predicate Printable(s: string) {
    forall i :: 0 <= i < |s| ==> '!' <= s[i] <= '~'
  }

  /** An encoding of something is a non-empty run of visible ASCII, so it fits in a header as one token. */
  lemma EncodingIsToken(b: seq<byte>)
    ensures Printable(Encode(b)) && (b != [] ==> Encode(b) != "")
  {
    var shown := Show(Digits(b));
    forall i | 0 <= i < |Encode(b)|
      ensures '!' <= Encode(b)[i] <= '~'
    {
      assert i < |shown| ==> Encode(b)[i] == shown[i];
    }
  }

  // ---------- RFC 4648 ----------

  /** Table 1 of RFC 4648. */
  const ALPHABET := Text.UPPER + Text.LOWER + Text.DIGITS + "+/"

  /** The encoder writes the alphabet of the standard. */
  lemma SymbolExactly(v: sextet)
    ensures |ALPHABET| == 64 && Symbol(v) == ALPHABET[v]
  {
    Text.AlphabetAt();
  }

  /** The decoder reads that alphabet, `-` and `_` for its last two symbols, and nothing else. */
  lemma ValueExactly(c: char, v: sextet)
    ensures Value(c) == Some(v) <==> c == Symbol(v) || (c == '-' && v == 62) || (c == '_' && v == 63)
  {}

  /** Test vectors of RFC 4648 section 10: "f", "fo", "foo". */
  lemma TestVectors()
    ensures Encode([0x66]) == "Zg==" && Encode([0x66, 0x6F]) == "Zm8=" && Encode([0x66, 0x6F, 0x6F]) == "Zm9v"
  {
    assert Digits([0x66]) == [25, 32] && Digits([0x66, 0x6F]) == [25, 38, 60];
    assert Digits([0x66, 0x6F, 0x6F]) == [25, 38, 61, 47] + Digits([0x66, 0x6F, 0x6F][3..]);
    assert Show([25, 32]) == "Zg" && Show([25, 38, 60]) == "Zm8" && Show([25, 38, 61, 47]) == "Zm9v";
  }

  /** A symbol of no alphabet changes nothing, wherever it stands before the first `=`. */
  lemma {:induction false} ForeignIsSkipped(front: string, c: char, back: string)
    requires '=' !in front && Value(c).None? && c != '='
    ensures Decode(front + [c] + back) == Decode(front + back)
  {
    SextetsJoin(front, [c] + back);
    SextetsJoin(front, back);
    assert front + [c] + back == front + ([c] + back);
    assert ([c] + back)[1..] == back;
  }

  /** What follows the first `=` is not read. */
  lemma {:induction false} PaddingEnds(front: string, back: string)
    requires '=' !in front
    ensures Decode(front + "=" + back) == Decode(front)
  {
    SextetsJoin(front, "=" + back);
    SextetsJoin(front, "");
    assert front + "=" + back == front + ("=" + back) && front + "" == front;
  }

  lemma {:induction false} SextetsJoin(front: string, back: string)
    requires '=' !in front
    ensures Sextets(front + back) == Sextets(front) + Sextets(back)
  {
    if front == "" {
      assert front + back == back;
    } else {
      assert (front + back)[1..] == front[1..] + back;
      SextetsJoin(front[1..], back);
    }
  }

  /** A lone symbol behind whole groups is dropped. */
  lemma {:induction false} LoneSymbolIsDropped(b: seq<byte>, v: sextet)
    requires |b| % 3 == 0
    ensures Bytes(Digits(b) + [v]) == b
  {
    if b != [] {
      var group := Digits(b)[..4];
      assert Digits(b) == group + Digits(b[3..]);
      assert (Digits(b) + [v])[4..] == Digits(b[3..]) + [v];
      Regroup(b[0], b[1], b[2]);
      LoneSymbolIsDropped(b[3..], v);
      assert b == [b[0], b[1], b[2]] + b[3..];
    }
  }
}
