/** HTTP Basic credentials (RFC 7617): the header codec, the configured user list and the guard between them. */
module BasicAuth {
  import opened Prelude
  import opened Text
  import Authorization
  import Base64
  import Utf8

  /** A username and a password. */
  datatype Credentials = Credentials(username: string, password: string)

  function Written(c: Credentials): string {
    c.username + ":" + c.password
  }

  // ---------- The header ----------

  function EncodeBasicAuth(credentials: string): string {
    "Basic " + Base64.Encode(Utf8.Encode(credentials))
  }

  function ParseBasicAuthHeader(header: Option<string>): Option<Credentials> {
    match Authorization.TokenOf("basic", header)
    case None => None
    case Some(token) =>
      var decoded := Utf8.Decode(Base64.Decode(token));
      var separator := IndexOf(decoded, ':');
      if separator < 0 then None
      else Some(Credentials(decoded[..separator], decoded[separator + 1..]))
  }

  /** Encoding then parsing gives the text back, cut at its first colon. */
  lemma ParseEncoded(text: string)
    requires text != ""
    ensures ParseBasicAuthHeader(Some(EncodeBasicAuth(text)))
         == var i := IndexOf(text, ':');
            if i < 0 then None else Some(Credentials(text[..i], text[i + 1..]))
  {
    var octets := Utf8.Encode(text);
    Utf8.DecodeEncode(text);
    Base64.DecodeEncode(octets);
    Base64.EncodingIsToken(octets);
    var token := Base64.Encode(octets);
    assert forall i :: 0 <= i < |token| ==> !IsSpace(token[i]);
    assert FoldAll("Basic") == "basic";
    assert "Basic " + token == "Basic" + " " + token;
    Authorization.TokenIsRead("basic", "Basic", token);
  }

  /** The header as it is written for "a:b". */
  lemma EncodedForm()
    ensures EncodeBasicAuth("a:b") == "Basic YTpi"
  {
    var octets := Utf8.Encode("a:b");
    Utf8.AsciiIsItself("a:b");
    assert octets == [0x61, 0x3A, 0x62];
    assert Base64.Digits(octets) == [24, 19, 41, 34] + Base64.Digits(octets[3..]);
    assert Base64.Show([24, 19, 41, 34]) == "YTpi";
  }

  /** RFC 7617 section 2: any colon-free user name and any password make the trip. */
  lemma BasicRoundTrip(c: Credentials)
    requires ':' !in c.username
    ensures ParseBasicAuthHeader(Some(EncodeBasicAuth(Written(c)))) == Some(c)
  {
    IndexOfJoint(c.username, ':', c.password);
    ParseEncoded(Written(c));
    assert Written(c)[..|c.username|] == c.username && Written(c)[|c.username| + 1..] == c.password;
  }

  /** A colon in the user name is exactly what breaks the trip. */
  lemma BasicRoundTripExact(c: Credentials)
    ensures ParseBasicAuthHeader(Some(EncodeBasicAuth(Written(c)))) == Some(c) <==> ':' !in c.username
  {
    if ':' !in c.username {
      BasicRoundTrip(c);
    } else {
      ParseEncoded(Written(c));
      var i := IndexOf(Written(c), ':');
      assert Written(c)[|c.username|] == ':';
      if i >= 0 {
        assert ':' !in Written(c)[..i];
      }
    }
  }

  // ---------- The user list ----------

  datatype ListError = MalformedEntry | DuplicateUsername

  type UserList = map<string, string>

  /** One trimmed entry, cut at its first colon; both parts must be non-empty. */
  function EntryCredentials(entry: string): Option<Credentials> {
    var separator := IndexOf(entry, ':');
    if separator <= 0 || separator == |entry| - 1 then None
    else Some(Credentials(entry[..separator], entry[separator + 1..]))
  }

  /** The users of the entries in `parts`, added one after the other to `users`. */
  function Collect(parts: seq<string>, users: UserList): Result<UserList, ListError> {
    if parts == [] then Ok(users)
    else
      var trimmed := Trim(parts[0]);
      if trimmed == "" then Collect(parts[1..], users)
      else match EntryCredentials(trimmed)
        case None => Err(MalformedEntry)
        case Some(c) =>
          if c.username in users then Err(DuplicateUsername)
          else Collect(parts[1..], users[c.username := c.password])
  }

  function UsersOf(raw: string): Result<UserList, ListError> {
    Collect(Split(raw, ','), map[])
  }

  /** The loop of `parseUserList`, filling the map entry by entry. */
  method ParseUserList(raw: string) returns (result: Result<UserList, ListError>)
    ensures result == UsersOf(raw)
  {
    var users: UserList := map[];
    var parts := Split(raw, ',');
    for i := 0 to |parts|
      invariant UsersOf(raw) == Collect(parts[i..], users)
    {
      var trimmed := Trim(parts[i]);
      assert parts[i..][1..] == parts[i + 1..];
      if trimmed == "" {
        continue;
      }
      var separator := IndexOf(trimmed, ':');
      if separator <= 0 || separator == |trimmed| - 1 {
        return Err(MalformedEntry);
      }
      var username := trimmed[..separator];
      if username in users {
        return Err(DuplicateUsername);
      }
      users := users[username := trimmed[separator + 1..]];
    }
    return Ok(users);
  }

  function Entries(raw: string): seq<string> {
    NonBlank(Split(raw, ','))
  }

  /** An entry is well formed when a non-empty colon-free name and a non-empty password meet at a colon. */
  ghost predicate Spells(entry: string, c: Credentials) {
    c.username != "" && ':' !in c.username && c.password != "" && entry == Written(c)
  }

  lemma EntryExact(entry: string, c: Credentials)
    ensures EntryCredentials(entry) == Some(c) <==> Spells(entry, c)
  {
    if Spells(entry, c) {
      IndexOfJoint(c.username, ':', c.password);
      assert entry[..|c.username|] == c.username && entry[|c.username| + 1..] == c.password;
    }
    if EntryCredentials(entry).Some? {
      var i := IndexOf(entry, ':');
      assert entry == entry[..i] + ":" + entry[i + 1..];
    }
  }

  /** Every entry spells credentials, and no two spell the same user. */
  ghost predicate WellFormed(entries: seq<string>) {
    && (forall i :: 0 <= i < |entries| ==> EntryCredentials(entries[i]).Some?)
    && (forall i, j :: 0 <= i < j < |entries| ==>
          EntryCredentials(entries[i]).value.username != EntryCredentials(entries[j]).value.username)
  }

  ghost predicate Has(users: UserList, c: Credentials) {
    c.username in users && users[c.username] == c.password
  }

  ghost predicate SpelledIn(entries: seq<string>, c: Credentials) {
    exists i :: 0 <= i < |entries| && EntryCredentials(entries[i]) == Some(c)
  }

  /** No entry names one of `users`. */
  ghost predicate Fresh(entries: seq<string>, users: UserList) {
    forall i :: 0 <= i < |entries| && EntryCredentials(entries[i]).Some? ==>
      EntryCredentials(entries[i]).value.username !in users
  }

  lemma FrontEntry(entry: string, rest: seq<string>, users: UserList, c: Credentials)
    requires EntryCredentials(entry) == Some(c) && c.username !in users
    ensures WellFormed([entry] + rest) && Fresh([entry] + rest, users)
      <==> WellFormed(rest) && Fresh(rest, users[c.username := c.password])
  {
    if WellFormed(rest) && Fresh(rest, users[c.username := c.password]) {
      FrontAdded(entry, rest, users, c);
    }
    if WellFormed([entry] + rest) && Fresh([entry] + rest, users) {
      FrontRemoved(entry, rest, users, c);
    }
  }

  lemma FrontAdded(entry: string, rest: seq<string>, users: UserList, c: Credentials)
    requires EntryCredentials(entry) == Some(c) && c.username !in users
    requires WellFormed(rest) && Fresh(rest, users[c.username := c.password])
    ensures WellFormed([entry] + rest) && Fresh([entry] + rest, users)
  {
    var entries := [entry] + rest;
    assert forall j :: 0 < j < |entries| ==> entries[j] == rest[j - 1];
  }

  lemma FrontRemoved(entry: string, rest: seq<string>, users: UserList, c: Credentials)
    requires EntryCredentials(entry) == Some(c)
    requires WellFormed([entry] + rest) && Fresh([entry] + rest, users)
    ensures WellFormed(rest) && Fresh(rest, users[c.username := c.password])
  {
    var entries := [entry] + rest;
    assert EntryCredentials(entries[0]) == Some(c);
    assert forall i :: 0 <= i < |rest| ==> rest[i] == entries[i + 1];
  }

  lemma FrontSpelled(entry: string, rest: seq<string>, c: Credentials, d: Credentials)
    requires EntryCredentials(entry) == Some(c)
    ensures SpelledIn([entry] + rest, d) <==> d == c || SpelledIn(rest, d)
  {
    var entries := [entry] + rest;
    if i :| 0 <= i < |rest| && EntryCredentials(rest[i]) == Some(d) {
      assert entries[i + 1] == rest[i];
    }
    if d == c {
      assert entries[0] == entry;
    }
  }

  lemma {:induction false} CollectAccepts(parts: seq<string>, users: UserList)
    ensures Collect(parts, users).Ok? <==> WellFormed(NonBlank(parts)) && Fresh(NonBlank(parts), users)
  {
    if parts != [] && Trim(parts[0]) == "" {
      CollectAccepts(parts[1..], users);
    } else if parts != [] {
      var entry := Trim(parts[0]);
      assert NonBlank(parts)[0] == entry;
      match EntryCredentials(entry)
      case None =>
      case Some(c) =>
        if c.username !in users {
          CollectAccepts(parts[1..], users[c.username := c.password]);
          FrontEntry(entry, NonBlank(parts[1..]), users, c);
        }
    }
  }

  lemma {:induction false} CollectHolds(parts: seq<string>, users: UserList, d: Credentials)
    requires Collect(parts, users).Ok?
    ensures Has(Collect(parts, users).value, d) <==> Has(users, d) || SpelledIn(NonBlank(parts), d)
  {
    if parts != [] && Trim(parts[0]) == "" {
      CollectHolds(parts[1..], users, d);
    } else if parts != [] {
      var entry := Trim(parts[0]);
      var c := EntryCredentials(entry).value;
      CollectHolds(parts[1..], users[c.username := c.password], d);
      FrontSpelled(entry, NonBlank(parts[1..]), c, d);
    }
  }

  /** The list is accepted exactly when it is well formed, and then the map is exactly what the entries spell. */
  lemma UserListExact(raw: string)
    ensures UsersOf(raw).Ok? <==> WellFormed(Entries(raw))
    ensures UsersOf(raw).Ok? ==> forall c :: Has(UsersOf(raw).value, c) <==> SpelledIn(Entries(raw), c)
  {
    CollectAccepts(Split(raw, ','), map[]);
    if UsersOf(raw).Ok? {
      forall c
        ensures Has(UsersOf(raw).value, c) <==> SpelledIn(Entries(raw), c)
      {
        CollectHolds(Split(raw, ','), map[], c);
      }
    }
  }

  /** The first entry that spoils the list, `k`, settles the error: a malformed entry, else a repeated user. */
  lemma FirstError(raw: string) returns (k: nat)
    requires UsersOf(raw).Err?
    ensures k < |Entries(raw)| && WellFormed(Entries(raw)[..k]) && !WellFormed(Entries(raw)[..k + 1])
    ensures UsersOf(raw).error
         == if exists c :: Spells(Entries(raw)[k], c) then DuplicateUsername else MalformedEntry
  {
    k := CollectFails(Split(raw, ','), map[]);
    var entries := Entries(raw);
    if EntryCredentials(entries[k]).Some? {
      EntryExact(entries[k], EntryCredentials(entries[k]).value);
    }
    if c :| Spells(entries[k], c) {
      EntryExact(entries[k], c);
    }
    assert Fresh(entries[..k], map[]) && Fresh(entries[..k + 1], map[]);
  }

  lemma {:induction false} CollectFails(parts: seq<string>, users: UserList) returns (k: nat)
    requires Collect(parts, users).Err?
    ensures k < |NonBlank(parts)|
    ensures WellFormed(NonBlank(parts)[..k]) && Fresh(NonBlank(parts)[..k], users)
    ensures !(WellFormed(NonBlank(parts)[..k + 1]) && Fresh(NonBlank(parts)[..k + 1], users))
    ensures Collect(parts, users).error == MalformedEntry <==> EntryCredentials(NonBlank(parts)[k]).None?
  {
    var entry := Trim(parts[0]);
    if entry == "" {
      k := CollectFails(parts[1..], users);
    } else {
      var rest := NonBlank(parts[1..]);
      assert NonBlank(parts) == [entry] + rest;
      match EntryCredentials(entry)
      case None =>
        k := 0;
        assert NonBlank(parts)[..1] == [entry] && [entry][0] == entry;
      case Some(c) =>
        if c.username in users {
          k := 0;
          assert NonBlank(parts)[..1] == [entry] && [entry][0] == entry;
        } else {
          var n := CollectFails(parts[1..], users[c.username := c.password]);
          k := n + 1;
          FrontEntry(entry, rest[..n], users, c);
          FrontEntry(entry, rest[..n + 1], users, c);
          assert NonBlank(parts)[..k] == [entry] + rest[..n] && NonBlank(parts)[..k + 1] == [entry] + rest[..n + 1];
        }
    }
  }

  // ---------- Printing a list ----------

  function Printed(users: seq<Credentials>): (r: seq<string>)
    ensures |r| == |users| && forall i :: 0 <= i < |users| ==> r[i] == Written(users[i])
  {
    seq(|users|, i requires 0 <= i < |users| => Written(users[i]))
  }

  /** The `BASIC_AUTH_USERS` text for some users, in the given order. */
  function Print(users: seq<Credentials>): string {
    Join(Printed(users), ',')
  }

  /** Credentials the list format can carry. */
  predicate Admissible(c: Credentials) {
    && c.username != "" && ':' !in c.username && ',' !in c.username && !IsSpace(c.username[0])
    && c.password != "" && ',' !in c.password && !IsSpace(c.password[|c.password| - 1])
  }

  /** `users` lists every entry of `m` once, in some order. */
  ghost predicate Enumerates(users: seq<Credentials>, m: UserList) {
    && (forall c :: Has(m, c) <==> c in users)
    && (forall i, j :: 0 <= i < j < |users| ==> users[i].username != users[j].username)
  }

  lemma WrittenParses(c: Credentials)
    requires Admissible(c)
    ensures Trim(Written(c)) == Written(c) != "" && EntryCredentials(Written(c)) == Some(c) && ',' !in Written(c)
  {
    assert Spells(Written(c), c);
    EntryExact(Written(c), c);
    assert Written(c)[0] == c.username[0] && Written(c)[|Written(c)| - 1] == c.password[|c.password| - 1];
  }

  /** Printing any admissible map, in any order, and parsing it gives the map back. */
  lemma PrintThenParse(users: seq<Credentials>, m: UserList)
    requires Enumerates(users, m)
    requires forall i :: 0 <= i < |users| ==> Admissible(users[i])
    ensures UsersOf(Print(users)) == Ok(m)
  {
    PrintedEntries(users);
    UserListExact(Print(users));
    assert WellFormed(Printed(users));
    var parsed := UsersOf(Print(users)).value;
    forall c
      ensures Has(parsed, c) <==> Has(m, c)
    {
      SpelledIffListed(users, Printed(users), c);
    }
    SameMap(parsed, m);
  }

  lemma PrintedEntries(users: seq<Credentials>)
    requires forall i :: 0 <= i < |users| ==> Admissible(users[i])
    ensures Entries(Print(users)) == Printed(users)
    ensures forall i :: 0 <= i < |users| ==> EntryCredentials(Printed(users)[i]) == Some(users[i])
  {
    forall i | 0 <= i < |users|
      ensures Trim(Printed(users)[i]) == Printed(users)[i] != "" && ',' !in Printed(users)[i]
      ensures EntryCredentials(Printed(users)[i]) == Some(users[i])
    {
      WrittenParses(users[i]);
    }
    if users == [] {
      assert Split("", ',') == [""] && NonBlank([""]) == NonBlank([""][1..]) == [];
    } else {
      SplitJoin(Printed(users), ',');
      NonBlankFixed(Printed(users));
    }
  }

  lemma SpelledIffListed(users: seq<Credentials>, entries: seq<string>, c: Credentials)
    requires |entries| == |users|
    requires forall i :: 0 <= i < |users| ==> EntryCredentials(entries[i]) == Some(users[i])
    ensures SpelledIn(entries, c) <==> c in users
  {
    if i :| 0 <= i < |users| && users[i] == c {
      assert EntryCredentials(entries[i]) == Some(c);
    }
  }

  lemma SameMap(a: UserList, b: UserList)
    requires forall c :: Has(a, c) <==> Has(b, c)
    ensures a == b
  {
    forall u
      ensures u in a <==> u in b
      ensures u in a ==> u in b && a[u] == b[u]
    {
      if u in a {
        assert Has(a, Credentials(u, a[u]));
      }
      if u in b {
        assert Has(b, Credentials(u, b[u]));
      }
    }
  }

  /** Conversely the parser only ever produces admissible maps, so those are exactly the printable ones. */
  lemma ParsedIsAdmissible(raw: string, username: string)
    requires UsersOf(raw).Ok? && username in UsersOf(raw).value
    ensures Admissible(Credentials(username, UsersOf(raw).value[username]))
  {
    var c := Credentials(username, UsersOf(raw).value[username]);
    UserListExact(raw);
    assert Has(UsersOf(raw).value, c);
    var i :| 0 <= i < |Entries(raw)| && EntryCredentials(Entries(raw)[i]) == Some(c);
    NonBlankShape(Split(raw, ','), ',', i);
    var entry := Entries(raw)[i];
    EntryExact(entry, c);
    SpelledParts(entry, c);
  }

  lemma SpelledParts(entry: string, c: Credentials)
    requires Spells(entry, c) && Trimmed(entry) && ',' !in entry
    ensures Admissible(c)
  {
    assert entry[0] == c.username[0] && entry[|entry| - 1] == c.password[|c.password| - 1];
    assert forall k :: 0 <= k < |c.username| ==> c.username[k] == entry[k];
    assert forall k :: 0 <= k < |c.password| ==> c.password[k] == entry[|c.username| + 1 + k];
  }

  // ---------- The guard ----------

  datatype Decision = Admitted | Unauthorized | Misconfigured

  const TIMING_EQUALIZER := "gateway-timing-equalizer"

  /** `safeEqual`: the digests are compared, never the texts. */
  predicate SafeEqual(a: string, b: string) {
    Sha256(a) == Sha256(b)
  }

  function Guard(users: UserList, header: Option<string>): Decision {
    if |users| == 0 then Misconfigured
    else
      var credentials := ParseBasicAuthHeader(header);
      var expected := if credentials.Some? && credentials.value.username in users
                      then Some(users[credentials.value.username]) else None;
      if && credentials.Some?
         && SafeEqual(credentials.value.password, if expected.Some? then expected.value else TIMING_EQUALIZER)
         && expected.Some?
      then Admitted
      else Unauthorized
  }

  /** From configuration text to decision: admitted exactly when the header decodes to a pair some entry spells. */
  lemma AdmittedIffListed(raw: string, header: Option<string>)
    requires UsersOf(raw).Ok?
    ensures Guard(UsersOf(raw).value, header) == Misconfigured <==> Entries(raw) == []
    ensures Guard(UsersOf(raw).value, header) == Admitted
      <==> exists i, c :: 0 <= i < |Entries(raw)| && Spells(Entries(raw)[i], c)
                          && ParseBasicAuthHeader(header) == Some(c)
  {
    var users, entries := UsersOf(raw).value, Entries(raw);
    UserListExact(raw);
    if entries != [] {
      assert EntryCredentials(entries[0]).Some?;
      var c := EntryCredentials(entries[0]).value;
      assert SpelledIn(entries, c) && Has(users, c);
    }
    if users != map[] {
      var u :| u in users;
      assert Has(users, Credentials(u, users[u]));
    }
    match ParseBasicAuthHeader(header)
    case None =>
    case Some(c) =>
      assert SpelledIn(entries, c) <==> exists i :: 0 <= i < |entries| && Spells(entries[i], c) by {
        forall i | 0 <= i < |entries|
          ensures EntryCredentials(entries[i]) == Some(c) <==> Spells(entries[i], c)
        {
          EntryExact(entries[i], c);
        }
      }
      assert Guard(users, header) == Admitted <==> Has(users, c);
  }

  /** Every configured user who presents their own encoded credentials gets in; with any other password, nobody. */
  lemma EncodedUserDecision(raw: string, username: string, password: string)
    requires UsersOf(raw).Ok? && Entries(raw) != [] && ':' !in username
    ensures Guard(UsersOf(raw).value, Some(EncodeBasicAuth(username + ":" + password)))
         == if exists i :: 0 <= i < |Entries(raw)| && Entries(raw)[i] == username + ":" + password
                           && username != "" && password != ""
            then Admitted else Unauthorized
  {
    var c := Credentials(username, password);
    BasicRoundTrip(c);
    AdmittedIffListed(raw, Some(EncodeBasicAuth(Written(c))));
    if i :|
      0 <= i < |Entries(raw)| && Entries(raw)[i] == username + ":" + password && username != "" && password != ""
    {
      assert Spells(Entries(raw)[i], c);
    }
  }
}
