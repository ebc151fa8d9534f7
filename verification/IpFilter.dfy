/** The IP allow and deny lists: CIDR parsing, prefix matching (RFC 4632 section 3.1) and the per-request decision. */
module IpFilter {
  import opened Prelude
  import opened Text
  import opened Arithmetic

  datatype Family = V4 | V6

  function Width(family: Family): nat {
    if family.V4? then 32 else 128
  }

  function Pow2(n: nat): (r: nat)
    ensures r > 0
  {
    if n == 0 then 1 else 2 * Pow2(n - 1)
  }

  datatype RawAddress = Address(family: Family, bits: nat)

  /** An address is a number below 2 to the width of its family. */
  type Address = a: RawAddress | a.bits < Pow2(Width(a.family)) witness RawAddress.Address(V4, 0)

  /** `net.isIP` with the address it recognises, and `Number` where its result is an integer. */
  datatype Platform = Platform(parse: string -> Option<Address>, toInteger: string -> Option<int>)

  // ---------- The list ----------

  datatype Rule = Exactly(address: Address) | Subnet(address: Address, prefix: nat)

  /** The `i`th bit from the front of a `width`-bit number. */
  function Bit(v: nat, width: nat, i: nat): nat
    requires i < width
  {
    v / Pow2(width - 1 - i) % 2
  }

  /** The first `prefix` bits agree. */
  predicate SamePrefix(v: nat, w: nat, width: nat, prefix: nat)
    requires prefix <= width
  {
    forall i :: 0 <= i < prefix ==> Bit(v, width, i) == Bit(w, width, i)
  }

  predicate Matches(rule: Rule, a: Address) {
    match rule
    case Exactly(address) => a == address
    case Subnet(address, prefix) =>
      && a.family == address.family && prefix <= Width(a.family)
      && SamePrefix(a.bits, address.bits, Width(a.family), prefix)
  }

  predicate Listed(rules: seq<Rule>, a: Address) {
    exists i :: 0 <= i < |rules| && Matches(rules[i], a)
  }

  /** `net.BlockList`: a union of addresses and prefixes. */
  class BlockList {
    var rules: seq<Rule>

    constructor ()
      ensures rules == []
    {
      rules := [];
    }

    method AddAddress(address: Address)
      modifies this
      ensures rules == old(rules) + [Exactly(address)]
    {
      rules := rules + [Exactly(address)];
    }

    method AddSubnet(address: Address, prefix: nat)
      requires prefix <= Width(address.family)
      modifies this
      ensures rules == old(rules) + [Subnet(address, prefix)]
    {
      rules := rules + [Subnet(address, prefix)];
    }

    predicate Check(a: Address)
      reads this
    {
      Listed(rules, a)
    }
  }

  datatype ListError = InvalidEntry | InvalidPrefix

  /** The rule one entry stands for. */
  function RuleOf(p: Platform, item: string): Result<Rule, ListError> {
    var parts := Split(item, '/');
    match p.parse(parts[0])
    case None => Err(InvalidEntry)
    case Some(address) =>
      if |parts| > 2 then Err(InvalidEntry)
      else if |parts| == 1 then Ok(Exactly(address))
      else match p.toInteger(parts[1])
        case None => Err(InvalidPrefix)
        case Some(bits) =>
          if bits < 0 || bits > Width(address.family) then Err(InvalidPrefix) else Ok(Subnet(address, bits))
  }

  function RulesOf(p: Platform, items: seq<string>): Result<seq<Rule>, ListError> {
    if items == [] then Ok([])
    else match RuleOf(p, items[0])
      case Err(e) => Err(e)
      case Ok(rule) =>
        match RulesOf(p, items[1..])
        case Err(e) => Err(e)
        case Ok(rules) => Ok([rule] + rules)
  }

  /** `done` in front of what is still to come. */
  function Following(done: seq<Rule>, rest: Result<seq<Rule>, ListError>): Result<seq<Rule>, ListError> {
    match rest
    case Err(e) => Err(e)
    case Ok(rules) => Ok(done + rules)
  }

  /** The entries of a list: trimmed, blanks left out. */
  function Items(raw: string): seq<string> {
    NonBlank(Split(raw, ','))
  }

  /** `buildIpList`: no list for no entries, and the first bad entry is reported. */
  method BuildIpList(p: Platform, raw: string) returns (list: BlockList?, error: Option<ListError>)
    ensures error == match RulesOf(p, Items(raw)) { case Err(e) => Some(e) case Ok(_) => None }
    ensures error.None? ==> (list == null <==> Items(raw) == [])
    ensures error.None? && list != null ==> fresh(list) && list.rules == RulesOf(p, Items(raw)).value
    ensures error.Some? ==> list == null
  {
    var items := Items(raw);
    if |items| == 0 {
      return null, None;
    }
    var built := new BlockList();
    FollowingNothing(RulesOf(p, items));
    assert items[0..] == items;
    for i := 0 to |items|
      invariant fresh(built)
      invariant RulesOf(p, items) == Following(built.rules, RulesOf(p, items[i..]))
    {
      NextRule(p, items[i..], built.rules);
      assert items[i..][1..] == items[i + 1..];
      var parts := Split(items[i], '/');
      var address := p.parse(parts[0]);
      if address.None? || |parts| > 2 {
        return null, Some(InvalidEntry);
      }
      if |parts| == 1 {
        built.AddAddress(address.value);
        continue;
      }
      var bits := p.toInteger(parts[1]);
      if bits.None? || bits.value < 0 || bits.value > Width(address.value.family) {
        return null, Some(InvalidPrefix);
      }
      built.AddSubnet(address.value, bits.value);
    }
    assert items[|items|..] == [];
    return built, None;
  }

  lemma FollowingNothing(rest: Result<seq<Rule>, ListError>)
    ensures Following([], rest) == rest
  {
    match rest
    case Err(_) =>
    case Ok(rules) => assert [] + rules == rules;
  }

  lemma NextRule(p: Platform, items: seq<string>, done: seq<Rule>)
    requires items != []
    ensures Following(done, RulesOf(p, items)) == match RuleOf(p, items[0]) {
      case Err(e) => Err(e)
      case Ok(rule) => Following(done + [rule], RulesOf(p, items[1..])) }
  {
    if RulesOf(p, items).Ok? {
      var rule, rest := RuleOf(p, items[0]).value, RulesOf(p, items[1..]).value;
      assert done + ([rule] + rest) == done + [rule] + rest;
    }
  }

  // ---------- Prefixes are aligned intervals ----------

  /** Agreeing on the first `prefix` bits is having the same quotient by 2 to the number of the others. */
  lemma {:induction false} PrefixIsQuotient(v: nat, w: nat, width: nat, prefix: nat)
    requires prefix <= width && v < Pow2(width) && w < Pow2(width)
    ensures SamePrefix(v, w, width, prefix) <==> v / Pow2(width - prefix) == w / Pow2(width - prefix)
  {
    if prefix == 0 {
      Quotient(v, Pow2(width), 0, v);
      Quotient(w, Pow2(width), 0, w);
    } else {
      PrefixIsQuotient(v, w, width, prefix - 1);
      var size := Pow2(width - prefix);
      HalfQuotient(v, size);
      HalfQuotient(w, size);
      assert Pow2(width - (prefix - 1)) == 2 * size;
      assert SamePrefix(v, w, width, prefix) <==>
        SamePrefix(v, w, width, prefix - 1) && Bit(v, width, prefix - 1) == Bit(w, width, prefix - 1);
    }
  }

  /** The addresses from `low` on, `size` of them. */
  datatype Range = Range(family: Family, low: nat, size: nat)

  predicate InRange(r: Range, a: Address) {
    a.family == r.family && r.low <= a.bits < r.low + r.size
  }

  /** The block an entry covers: aligned, of size 2 to the number of free bits. */
  function RangeOf(rule: Rule): Range {
    match rule
    case Exactly(a) => Range(a.family, a.bits, 1)
    case Subnet(a, prefix) =>
      var size := if prefix <= Width(a.family) then Pow2(Width(a.family) - prefix) else 1;
      Range(a.family, a.bits / size * size, size)
  }

  lemma MatchesIsInRange(rule: Rule, a: Address)
    requires rule.Subnet? ==> rule.prefix <= Width(rule.address.family)
    ensures Matches(rule, a) <==> InRange(RangeOf(rule), a)
    ensures RangeOf(rule).size > 0 && RangeOf(rule).low % RangeOf(rule).size == 0
  {
    match rule
    case Exactly(_) =>
    case Subnet(address, prefix) =>
      SubnetIsInRange(address, prefix, a);
      AlignedMultiple(address.bits / RangeOf(rule).size, RangeOf(rule).size);
  }

  lemma SubnetIsInRange(address: Address, prefix: nat, a: Address)
    requires prefix <= Width(address.family)
    ensures Matches(Subnet(address, prefix), a) <==> InRange(RangeOf(Subnet(address, prefix)), a)
  {
    if a.family == address.family {
      PrefixIsQuotient(a.bits, address.bits, Width(a.family), prefix);
      SameBlock(a.bits, address.bits, Pow2(Width(a.family) - prefix));
    }
  }

  lemma AlignedMultiple(q: nat, d: nat)
    requires d > 0
    ensures q * d % d == 0
  {
    var p := q * d;
    assert p == p / d * d + p % d;
    Quotient(p, d, q, 0);
  }

  // ---------- The decision ----------

  predicate Digits(s: string) {
    s != "" && forall i :: 0 <= i < |s| ==> IsDigit(s[i])
  }

  /** `/^\d+\.\d+\.\d+\.\d+$/`. */
  predicate DottedQuad(s: string) {
    var parts := Split(s, '.');
    |parts| == 4 && forall i :: 0 <= i < 4 ==> Digits(parts[i])
  }

  const MAPPED := "::ffff:"

  function NormalizeIp(p: Platform, ip: string): string {
    if |ip| > |MAPPED| && FoldAll(ip[..|MAPPED|]) == MAPPED && DottedQuad(ip[|MAPPED|..]) then
      var quad := ip[|MAPPED|..];
      if p.parse(quad).Some? && p.parse(quad).value.family.V4? then quad else ip
    else ip
  }

  /** The hook's decision; `None` is a list that was empty at boot. */
  predicate Blocked(p: Platform, allow: Option<seq<Rule>>, deny: Option<seq<Rule>>, ip: string)
    requires p.parse(NormalizeIp(p, ip)).Some?
  {
    var a := p.parse(NormalizeIp(p, ip)).value;
    (deny.Some? && Listed(deny.value, a)) || (allow.Some? && !Listed(allow.value, a))
  }

  /** What a built list, if any, holds. */
  function Rules(list: BlockList?): Option<seq<Rule>>
    reads list
  {
    if list == null then None else Some(list.rules)
  }

  /** The list the plugin keeps for a configuration text that boots. */
  function Built(p: Platform, raw: string): Option<seq<Rule>>
    requires RulesOf(p, Items(raw)).Ok?
  {
    if Items(raw) == [] then None else Some(RulesOf(p, Items(raw)).value)
  }

  /** An entry covers an address. */
  predicate Covers(p: Platform, item: string, a: Address) {
    RuleOf(p, item).Ok? && InRange(RangeOf(RuleOf(p, item).value), a)
  }

  ghost predicate CoveredBy(p: Platform, items: seq<string>, a: Address) {
    exists item :: item in items && Covers(p, item, a)
  }

  lemma {:induction false} RulesCover(p: Platform, items: seq<string>, a: Address)
    ensures RulesOf(p, items).Ok? <==> forall item :: item in items ==> RuleOf(p, item).Ok?
    ensures RulesOf(p, items).Ok? ==> (Listed(RulesOf(p, items).value, a) <==> CoveredBy(p, items, a))
  {
    if items != [] {
      assert items == [items[0]] + items[1..];
      RulesCover(p, items[1..], a);
      if RulesOf(p, items).Ok? {
        var rule, rest := RuleOf(p, items[0]).value, RulesOf(p, items[1..]).value;
        MatchesIsInRange(rule, a);
        FrontRule(rule, rest, a);
        assert CoveredBy(p, items, a) <==> Covers(p, items[0], a) || CoveredBy(p, items[1..], a);
      }
    }
  }

  lemma FrontRule(rule: Rule, rest: seq<Rule>, a: Address)
    ensures Listed([rule] + rest, a) <==> Matches(rule, a) || Listed(rest, a)
  {
    var rules := [rule] + rest;
    assert rules[0] == rule;
    if i :| 0 <= i < |rest| && Matches(rest[i], a) {
      assert rules[i + 1] == rest[i];
    }
  }

  /**
   A client is blocked exactly when its address is in the block of some deny entry, or there are allow entries and it
   is in the block of none.
   */
  lemma BlockedExactly(p: Platform, allow: string, deny: string, ip: string)
    requires RulesOf(p, Items(allow)).Ok? && RulesOf(p, Items(deny)).Ok? && p.parse(NormalizeIp(p, ip)).Some?
    ensures var a := p.parse(NormalizeIp(p, ip)).value;
      Blocked(p, Built(p, allow), Built(p, deny), ip) <==>
        CoveredBy(p, Items(deny), a) || (Items(allow) != [] && !CoveredBy(p, Items(allow), a))
  {
    var a := p.parse(NormalizeIp(p, ip)).value;
    RulesCover(p, Items(allow), a);
    RulesCover(p, Items(deny), a);
  }

  /** The plugin at boot: both lists, or the first error of the allow list, else of the deny list. */
  method Boot(p: Platform, allowText: string, denyText: string)
    returns (allow: BlockList?, deny: BlockList?, error: Option<ListError>)
    ensures error.None? <==> RulesOf(p, Items(allowText)).Ok? && RulesOf(p, Items(denyText)).Ok?
    ensures error.None? ==> Rules(allow) == Built(p, allowText) && Rules(deny) == Built(p, denyText)
    ensures RulesOf(p, Items(allowText)).Err? ==> error == Some(RulesOf(p, Items(allowText)).error)
    ensures RulesOf(p, Items(allowText)).Ok? && RulesOf(p, Items(denyText)).Err? ==>
      error == Some(RulesOf(p, Items(denyText)).error)
  {
    deny := null;
    allow, error := BuildIpList(p, allowText);
    if error.None? {
      deny, error := BuildIpList(p, denyText);
    }
  }

  /** The hook on the lists that `Boot` built: blocked exactly in a deny block, or outside every allow block. */
  method OnRequest(p: Platform, allow: BlockList?, deny: BlockList?, ip: string,
                   ghost allowText: string, ghost denyText: string) returns (blocked: bool)
    requires p.parse(NormalizeIp(p, ip)).Some?
    requires RulesOf(p, Items(allowText)).Ok? && Rules(allow) == Built(p, allowText)
    requires RulesOf(p, Items(denyText)).Ok? && Rules(deny) == Built(p, denyText)
    ensures var a := p.parse(NormalizeIp(p, ip)).value;
      blocked <==> CoveredBy(p, Items(denyText), a) || (Items(allowText) != [] && !CoveredBy(p, Items(allowText), a))
  {
    BlockedExactly(p, allowText, denyText, ip);
    var a := p.parse(NormalizeIp(p, ip)).value;
    return (deny != null && deny.Check(a)) || (allow != null && !allow.Check(a));
  }

  /** Neither the order nor the repetition of entries matters, for booting or for any decision. */
  lemma OrderDoesNotMatter(p: Platform, allow: string, allow': string, deny: string, deny': string, ip: string)
    requires forall item :: item in Items(allow) <==> item in Items(allow')
    requires forall item :: item in Items(deny) <==> item in Items(deny')
    requires p.parse(NormalizeIp(p, ip)).Some?
    ensures RulesOf(p, Items(allow)).Ok? <==> RulesOf(p, Items(allow')).Ok?
    ensures RulesOf(p, Items(deny)).Ok? <==> RulesOf(p, Items(deny')).Ok?
    ensures RulesOf(p, Items(allow)).Ok? && RulesOf(p, Items(deny)).Ok? ==>
      Blocked(p, Built(p, allow), Built(p, deny), ip) == Blocked(p, Built(p, allow'), Built(p, deny'), ip)
  {
    var a := p.parse(NormalizeIp(p, ip)).value;
    RulesCover(p, Items(allow), a);
    RulesCover(p, Items(deny), a);
    RulesCover(p, Items(allow'), a);
    RulesCover(p, Items(deny'), a);
    if Items(allow) != [] {
      assert Items(allow)[0] in Items(allow');
    }
    if Items(allow') != [] {
      assert Items(allow')[0] in Items(allow);
    }
    if RulesOf(p, Items(allow)).Ok? && RulesOf(p, Items(deny)).Ok? {
      BlockedExactly(p, allow, deny, ip);
      BlockedExactly(p, allow', deny', ip);
    }
  }

  /** An IPv4-mapped client, in any letter case, is decided as the IPv4 client it is. */
  lemma MappedClient(p: Platform, allow: Option<seq<Rule>>, deny: Option<seq<Rule>>, shown: string, quad: string)
    requires FoldAll(shown) == MAPPED && DottedQuad(quad)
    requires p.parse(quad).Some? && p.parse(quad).value.family.V4?
    ensures NormalizeIp(p, shown + quad) == NormalizeIp(p, quad) == quad
    ensures Blocked(p, allow, deny, shown + quad) == Blocked(p, allow, deny, quad)
  {
    assert (shown + quad)[..|shown|] == shown && (shown + quad)[|shown|..] == quad;
    JoinSplit(quad, '.');
    var parts := Split(quad, '.');
    assert quad[0] == parts[0][0];
    assert |quad| > |MAPPED| ==> FoldAll(quad[..|MAPPED|])[0] == Fold(quad[0]) != MAPPED[0];
  }

  /** Only an IPv4-mapped form in front of an IPv4 address is taken off; any other address is looked up as it is. */
  lemma NormalizeExactly(p: Platform, ip: string, quad: string)
    requires quad != ip
    ensures NormalizeIp(p, ip) == quad
      <==> exists shown :: ip == shown + quad && FoldAll(shown) == "::ffff:" && DottedQuad(quad)
                           && p.parse(quad).Some? && p.parse(quad).value.family.V4?
  {
    if |ip| > 7 {
      assert ip == ip[..7] + ip[7..];
    }
    if shown :| ip == shown + quad && FoldAll(shown) == "::ffff:" && DottedQuad(quad)
                && p.parse(quad).Some? && p.parse(quad).value.family.V4? {
      assert ip[..7] == shown && ip[7..] == quad;
      if quad == "" {
        JoinSplit(quad, '.');
      }
    }
  }

  // ---------- What an entry covers ----------

  lemma KnownSizes()
    ensures Width(V4) == 32 && Width(V6) == 128
    ensures Pow2(0) == 1 && Pow2(8) == 256 && Pow2(16) == 65536 && Pow2(32) == 0x1_0000_0000
  {
    assert Pow2(8) == 256;
    assert Pow2(16) == 256 * Pow2(8);
    assert Pow2(24) == 256 * Pow2(16);
    assert Pow2(32) == 256 * Pow2(24);
  }

  /** The entries are the trimmed, non-empty parts between commas. */
  lemma ItemsExactly(raw: string, item: string)
    ensures item in Items(raw)
      <==> item != "" && exists part :: part in Split(raw, ',') && Trim(part) == item
  {
    NonBlankExactly(Split(raw, ','), item);
  }

  /** A list is refused for its first bad entry, and only for a bad one. */
  lemma {:induction false} FirstBadEntry(p: Platform, items: seq<string>, e: ListError)
    ensures RulesOf(p, items) == Err(e) <==> exists k ::
      0 <= k < |items| && RuleOf(p, items[k]) == Err(e) && forall j :: 0 <= j < k ==> RuleOf(p, items[j]).Ok?
  {
    if items != [] && RuleOf(p, items[0]).Ok? {
      FirstBadEntry(p, items[1..], e);
      if k :| 0 <= k < |items[1..]| && RuleOf(p, items[1..][k]) == Err(e)
              && forall j :: 0 <= j < k ==> RuleOf(p, items[1..][j]).Ok? {
        assert items[1..][k] == items[k + 1];
        assert forall j :: 0 < j < k + 1 ==> items[j] == items[1..][j - 1];
      }
      if k :| 0 <= k < |items| && RuleOf(p, items[k]) == Err(e) && forall j :: 0 <= j < k ==> RuleOf(p, items[j]).Ok? {
        assert items[k] == items[1..][k - 1];
        assert forall j :: 0 <= j < k - 1 ==> items[1..][j] == items[j + 1];
      }
    }
  }

  /** A plain address covers itself and nothing else. */
  lemma PlainEntryCovers(p: Platform, item: string, a: Address)
    requires '/' !in item && p.parse(item).Some?
    ensures Covers(p, item, a) <==> a == p.parse(item).value
  {
    SplitWhole(item, '/');
  }

  /** A decimal prefix covers the addresses of the family that agree with its own above the free bits. */
  lemma DecimalPrefixCovers(p: Platform, address: string, digits: string, a: Address)
    requires '/' !in address && Digits(digits) && p.parse(address).Some? && p.toInteger(digits) == Some(Decimal(digits))
    requires Decimal(digits) <= Width(p.parse(address).value.family)
    ensures var base := p.parse(address).value;
      var size := Pow2(Width(base.family) - Decimal(digits));
      Covers(p, address + "/" + digits, a) <==> a.family == base.family && a.bits / size == base.bits / size
  {
    SplitPrefix(address, '/', digits);
    SplitWhole(digits, '/');
    assert address + "/" + digits == address + ['/'] + digits;
    var base := p.parse(address).value;
    SameBlock(a.bits, base.bits, Pow2(Width(base.family) - Decimal(digits)));
  }

  /** An entry is refused for its address or a second slash, else for a prefix that is no number within the width. */
  lemma RefusedExactly(p: Platform, address: string, text: string)
    requires '/' !in address
    ensures RuleOf(p, address) == Err(InvalidEntry) <==> p.parse(address).None?
    ensures RuleOf(p, address + "/" + text) == Err(InvalidEntry) <==> p.parse(address).None? || '/' in text
    ensures RuleOf(p, address + "/" + text) == Err(InvalidPrefix) <==>
      && p.parse(address).Some? && '/' !in text
      && var bits := p.toInteger(text);
         bits.None? || bits.value < 0 || bits.value > if p.parse(address).value.family.V4? then 32 else 128
  {
    SplitWhole(address, '/');
    SplitPrefix(address, '/', text);
    assert address + "/" + text == address + ['/'] + text;
    if '/' in text {
      JoinSplit(text, '/');
    } else {
      SplitWhole(text, '/');
    }
  }

  // ---------- Prefix texts ----------

  /** A decimal prefix is accepted exactly up to the family's width, and leaves width minus prefix bits free. */
  lemma DecimalPrefix(p: Platform, address: string, digits: string)
    requires '/' !in address && Digits(digits) && p.parse(address).Some? && p.toInteger(digits) == Some(Decimal(digits))
    ensures var family := p.parse(address).value.family;
      if Decimal(digits) > Width(family) then RuleOf(p, address + "/" + digits) == Err(InvalidPrefix)
      else
        && RuleOf(p, address + "/" + digits).Ok?
        && RangeOf(RuleOf(p, address + "/" + digits).value).size == Pow2(Width(family) - Decimal(digits))
  {
    SplitPrefix(address, '/', digits);
    SplitWhole(digits, '/');
    assert address + "/" + digits == address + ['/'] + digits;
  }

  /** An entry covers its whole address family exactly when what follows its only slash is read as 0. */
  lemma WholeFamilyExactly(p: Platform, address: string, text: string)
    requires '/' !in address && p.parse(address).Some?
    ensures (forall a: Address :: a.family == p.parse(address).value.family ==> Covers(p, address + "/" + text, a))
      <==> '/' !in text && p.toInteger(text) == Some(0)
  {
    var base := p.parse(address).value;
    SplitPrefix(address, '/', text);
    assert address + "/" + text == address + ['/'] + text;
    if '/' in text {
      JoinSplit(text, '/');
      assert !Covers(p, address + "/" + text, base);
    } else {
      SplitWhole(text, '/');
      var bits := p.toInteger(text);
      if bits.None? || bits.value < 0 || bits.value > Width(base.family) {
        assert !Covers(p, address + "/" + text, base);
      } else {
        RangeIsFamily(base, bits.value);
      }
    }
  }

  /** So an entry that ends in its slash covers its family where `Number("")` is 0. */
  lemma EmptyPrefixCoversFamily(p: Platform, address: string, a: Address)
    requires '/' !in address && p.parse(address).Some? && p.toInteger("") == Some(0)
    requires a.family == p.parse(address).value.family
    ensures Covers(p, address + "/", a)
  {
    WholeFamilyExactly(p, address, "");
    assert address + "/" == address + "/" + "";
  }

  lemma RangeIsFamily(base: Address, prefix: nat)
    requires prefix <= Width(base.family)
    ensures (forall a: Address :: a.family == base.family ==> InRange(RangeOf(Subnet(base, prefix)), a))
      <==> prefix == 0
  {
    var width, range := Width(base.family), RangeOf(Subnet(base, prefix));
    if prefix == 0 {
      Quotient(base.bits, Pow2(width), 0, base.bits);
    } else {
      Pow2Grows(width - prefix, width - 1);
      var lowest: Address := RawAddress.Address(base.family, 0);
      var highest: Address := RawAddress.Address(base.family, Pow2(width) - 1);
      assert !InRange(range, lowest) || !InRange(range, highest);
    }
  }

  lemma {:induction false} Pow2Grows(m: nat, n: nat)
    requires m <= n
    ensures Pow2(m) <= Pow2(n)
  {
    if m < n {
      Pow2Grows(m, n - 1);
    }
  }
}
