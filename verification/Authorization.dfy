/** The `Authorization` header: one scheme name, blanks, one token. */
module Authorization {
  import opened Prelude
  import opened Text

  function SkipBlanks(s: string): string {
    if s != [] && s[0] == ' ' then SkipBlanks(s[1..]) else s
  }

  /** The capture of `/^scheme +(\S+)$/i`; `scheme` is lower case. */
  function SchemeToken(scheme: string, text: string): Option<string> {
    if |text| > |scheme| && FoldAll(text[..|scheme|]) == scheme && text[|scheme|] == ' ' then
      var rest := SkipBlanks(text[|scheme|..]);
      if rest != [] && NoSpace(rest) then Some(rest) else None
    else
      None
  }

  /** An absent header and an empty one are both falsy. */
  function TokenOf(scheme: string, header: Option<string>): Option<string> {
    if header.None? || header.value == "" then None else SchemeToken(scheme, Trim(header.value))
  }

  /** `parseBearerToken`. */
  function ParseBearerToken(header: Option<string>): Option<string> {
    TokenOf("bearer", header)
  }

  /** A well-formed header, in any letter case of the scheme, yields exactly its token. */
  lemma TokenIsRead(scheme: string, shown: string, token: string)
    requires shown != "" && FoldAll(shown) == scheme && NoSpace(shown)
    requires token != "" && NoSpace(token)
    ensures TokenOf(scheme, Some(shown + " " + token)) == Some(token)
  {
    var text := shown + " " + token;
    assert text[0] == shown[0] && text[|text| - 1] == token[|token| - 1];
    assert Trim(text) == text;
    assert text[..|shown|] == shown;
    assert text[|shown|..] == " " + token;
    assert (" " + token)[1..] == token;
    assert SkipBlanks(token) == token;
  }

  /** Whatever is read is a non-empty run of non-space characters that ends the trimmed header. */
  lemma {:induction false} TokenShape(scheme: string, header: Option<string>)
    ensures var t := TokenOf(scheme, header);
      t.Some? ==> t.value != "" && NoSpace(t.value) && |t.value| < |Trim(header.value)|
                  && Trim(header.value)[|Trim(header.value)| - |t.value|..] == t.value
  {
    if TokenOf(scheme, header).Some? {
      var text := Trim(header.value);
      SkipBlanksSuffix(text[|scheme|..]);
      var rest := SkipBlanks(text[|scheme|..]);
      assert rest == text[|text| - |rest|..];
    }
  }

  lemma {:induction false} SkipBlanksSuffix(s: string)
    ensures |SkipBlanks(s)| <= |s| && SkipBlanks(s) == s[|s| - |SkipBlanks(s)|..]
    ensures s != [] && s[0] == ' ' ==> |SkipBlanks(s)| < |s|
  {
    if s != [] && s[0] == ' ' {
      SkipBlanksSuffix(s[1..]);
    }
  }

  predicate Blanks(s: string) {
    forall i :: 0 <= i < |s| ==> s[i] == ' '
  }

  /** The scheme in any letter case, blanks, a token. */
  ghost predicate Reads(text: string, scheme: string, shown: string, blanks: string, token: string) {
    && text == shown + blanks + token && FoldAll(shown) == scheme
    && blanks != "" && Blanks(blanks) && token != "" && NoSpace(token)
  }

  /** A token is read exactly from a header that, trimmed, is scheme, blanks and token: no other scheme or shape. */
  lemma TokenExactly(scheme: string, header: Option<string>, token: string)
    requires scheme != ""
    ensures TokenOf(scheme, header) == Some(token)
      <==> header.Some? && exists shown, blanks :: Reads(Trim(header.value), scheme, shown, blanks, token)
  {
    if header.Some? {
      var text := Trim(header.value);
      SchemeExactly(scheme, text, token);
      assert header.value == "" ==> text == "";
      if header.value == "" && exists shown, blanks :: Reads(text, scheme, shown, blanks, token) {
        assert false;
      }
    }
  }

  lemma SchemeExactly(scheme: string, text: string, token: string)
    ensures SchemeToken(scheme, text) == Some(token)
      <==> exists shown, blanks :: Reads(text, scheme, shown, blanks, token)
  {
    if SchemeToken(scheme, text) == Some(token) {
      var rest := text[|scheme|..];
      var n := BlanksSkipped(rest);
      assert Reads(text, scheme, text[..|scheme|], rest[..n], token) by {
        assert text == text[..|scheme|] + rest && rest == rest[..n] + rest[n..];
      }
    }
    if shown, blanks :| Reads(text, scheme, shown, blanks, token) {
      assert text[..|shown|] == shown && text[|shown|..] == blanks + token;
      assert text[|shown|] == blanks[0];
      SkipAll(blanks, token);
    }
  }

  lemma {:induction false} BlanksSkipped(s: string) returns (n: nat)
    ensures n <= |s| && SkipBlanks(s) == s[n..] && Blanks(s[..n])
    ensures s != [] && s[0] == ' ' ==> n > 0
  {
    n := 0;
    if s != [] && s[0] == ' ' {
      var m := BlanksSkipped(s[1..]);
      n := m + 1;
      assert forall i :: 0 < i < n ==> s[i] == s[1..][i - 1] == s[1..][..m][i - 1];
    }
  }

  lemma {:induction false} SkipAll(blanks: string, token: string)
    requires Blanks(blanks) && token != "" && NoSpace(token)
    ensures SkipBlanks(blanks + token) == token
  {
    if blanks == "" {
      assert blanks + token == token;
    } else {
      assert (blanks + token)[1..] == blanks[1..] + token;
      SkipAll(blanks[1..], token);
    }
  }
}
