/**
 The bearer strategy's cache of active-token decisions: an insertion-ordered map with expiries and a capacity,
 changed in place. The functions say what the ordered map holds; the class runs the loops on it.
 */
module DecisionCache {
  import opened Prelude
  import opened Authorization

  /** A cached decision: the digest of the token and the instant at which the decision expires. */
  datatype Entry = Entry(key: Digest, expiresAt: int)

  // ---------- The ordered map ----------

  predicate HasKey(entries: seq<Entry>, key: Digest) {
    exists i :: 0 <= i < |entries| && entries[i].key == key
  }

  ghost predicate Distinct(entries: seq<Entry>) {
    forall i, j :: 0 <= i < j < |entries| ==> entries[i].key != entries[j].key
  }

  /** `Map.get`. */
  function Get(entries: seq<Entry>, key: Digest): (r: Option<int>)
    ensures r.Some? <==> HasKey(entries, key)
    ensures r.Some? ==> exists i :: 0 <= i < |entries| && entries[i] == Entry(key, r.value)
  {
    if entries == [] then None
    else if entries[0].key == key then assert entries[0] == Entry(key, entries[0].expiresAt); Some(entries[0].expiresAt)
    else
      assert entries == [entries[0]] + entries[1..];
      Get(entries[1..], key)
  }

  /** `Map.delete`. */
  function Delete(entries: seq<Entry>, key: Digest): seq<Entry> {
    if entries == [] then []
    else if entries[0].key == key then entries[1..]
    else [entries[0]] + Delete(entries[1..], key)
  }

  /** `Map.set`: an existing key keeps its position, a new one goes last. */
  function Put(entries: seq<Entry>, key: Digest, expiresAt: int): seq<Entry> {
    if entries == [] then [Entry(key, expiresAt)]
    else if entries[0].key == key then [Entry(key, expiresAt)] + entries[1..]
    else [entries[0]] + Put(entries[1..], key, expiresAt)
  }

  /** The entries still live at `now`, in order. */
  function Live(entries: seq<Entry>, now: int): (r: seq<Entry>)
    ensures |r| <= |entries|
  {
    if entries == [] then []
    else if entries[0].expiresAt <= now then Live(entries[1..], now)
    else [entries[0]] + Live(entries[1..], now)
  }

  function Min(a: int, b: int): int { if a < b then a else b }

  function Max(a: int, b: int): int { if a < b then b else a }

  /** How many of `live` entries stay when one more is to be inserted. */
  function Kept(live: nat, maxEntries: int): (n: nat)
    ensures n <= live
  {
    Min(live, Max(maxEntries - 1, 0))
  }

  /**
   What `evictForInsert` leaves: everything below capacity; otherwise the youngest of the live entries, as many
   as leave room for one more.
   */
  function Evicted(entries: seq<Entry>, maxEntries: int, now: int): seq<Entry> {
    if |entries| < maxEntries then entries
    else
      var live := Live(entries, now);
      live[|live| - Kept(|live|, maxEntries)..]
  }

  // ---------- The guard's two atomic steps ----------

  /** `url` is whether an introspection endpoint is set. A `ttl` of zero or less disables the cache. */
  datatype Config = Config(url: bool, ttl: int, maxEntries: int)

  /** What the auth service's reply comes to: no usable reply, or a body with a status. */
  datatype Introspection = Failed | Answered(ok: bool, active: bool)

  predicate Active(reply: Introspection) {
    reply.Answered? && reply.ok && reply.active
  }

  datatype Outcome = Admitted | Unauthorized | Misconfigured | Introspecting(token: string)

  /** The guard up to its introspection call, at time `now`. */
  function Arrive(c: Config, entries: seq<Entry>, header: Option<string>, now: int): (Outcome, seq<Entry>) {
    if !c.url then (Misconfigured, entries)
    else match ParseBearerToken(header)
      case None => (Unauthorized, entries)
      case Some(token) =>
        if c.ttl <= 0 then (Introspecting(token), entries)
        else match Get(entries, Sha256(token))
          case None => (Introspecting(token), entries)
          case Some(expiresAt) =>
            if expiresAt > now then (Admitted, entries)
            else (Introspecting(token), Delete(entries, Sha256(token)))
  }

  /** The guard after its introspection call. The clock is read once by the eviction and once by the insertion. */
  function Settle(c: Config, entries: seq<Entry>, token: string, reply: Introspection, evictNow: int, setNow: int)
    : (Outcome, seq<Entry>)
  {
    if !Active(reply) then (Unauthorized, entries)
    else if c.ttl <= 0 then (Admitted, entries)
    else (Admitted, Put(Evicted(entries, c.maxEntries, evictNow), Sha256(token), setNow + c.ttl))
  }

  // ---------- The object the guards share ----------

  class Strategy {
    const config: Config
    var entries: seq<Entry>

    constructor (config: Config)
      ensures this.config == config && entries == []
    {
      this.config := config;
      entries := [];
    }

    /** Both loops of `evictForInsert`, deleting as they iterate. */
    method EvictForInsert(now: int)
      modifies this
      ensures entries == Evicted(old(entries), config.maxEntries, now)
    {
      if |entries| < config.maxEntries {
        return;
      }
      var i := 0;
      while i < |entries|
        invariant 0 <= i <= |entries|
        invariant entries[..i] + Live(entries[i..], now) == Live(old(entries), now)
        decreases |entries| - i
      {
        LiveStep(entries, i, now);
        if entries[i].expiresAt <= now {
          entries := entries[..i] + entries[i + 1..];
        } else {
          i := i + 1;
        }
      }
      assert entries[..i] == entries && entries[i..] == [];
      ghost var live := entries;
      ghost var dropped := 0;
      while entries != []
        invariant 0 <= dropped <= |live| && entries == live[dropped..]
        invariant dropped <= |live| - Kept(|live|, config.maxEntries)
        decreases |entries|
      {
        if |entries| < config.maxEntries {
          break;
        }
        entries := entries[1..];
        dropped := dropped + 1;
      }
    }

    /** The guard up to its introspection call. */
    method Begin(header: Option<string>, now: int) returns (outcome: Outcome)
      modifies this
      ensures (outcome, entries) == Arrive(config, old(entries), header, now)
    {
      if !config.url {
        return Misconfigured;
      }
      var token := ParseBearerToken(header);
      if token.None? {
        return Unauthorized;
      }
      if config.ttl > 0 {
        var key := Sha256(token.value);
        var expiresAt := Get(entries, key);
        if expiresAt.Some? {
          if expiresAt.value > now {
            return Admitted;
          }
          entries := Delete(entries, key);
        }
      }
      return Introspecting(token.value);
    }

    /** The guard once its introspection call is over. */
    method Finish(token: string, reply: Introspection, evictNow: int, setNow: int) returns (outcome: Outcome)
      modifies this
      ensures (outcome, entries) == Settle(config, old(entries), token, reply, evictNow, setNow)
    {
      if reply.Failed? || !reply.ok || !reply.active {
        return Unauthorized;
      }
      if config.ttl > 0 {
        EvictForInsert(evictNow);
        entries := Put(entries, Sha256(token), setNow + config.ttl);
      }
      return Admitted;
    }
  }

  // ---------- What each operation does to the map ----------

  /** The sweep at position `i`: what is before it and what will be live after it together stay the same. */
  lemma LiveStep(entries: seq<Entry>, i: nat, now: int)
    requires i < |entries|
    ensures entries[i].expiresAt <= now ==>
      var next := entries[..i] + entries[i + 1..];
      next[..i] + Live(next[i..], now) == entries[..i] + Live(entries[i..], now)
    ensures entries[i].expiresAt > now ==>
      entries[..i + 1] + Live(entries[i + 1..], now) == entries[..i] + Live(entries[i..], now)
  {
    var next := entries[..i] + entries[i + 1..];
    assert entries[i..][1..] == entries[i + 1..] == next[i..];
    assert next[..i] == entries[..i];
    assert entries[..i + 1] == entries[..i] + [entries[i]];
  }

  lemma {:induction false} DeleteExact(entries: seq<Entry>, key: Digest, e: Entry)
    requires Distinct(entries)
    ensures Distinct(Delete(entries, key))
    ensures e in Delete(entries, key) <==> e in entries && e.key != key
    ensures |Delete(entries, key)| <= |entries|
  {
    if entries != [] {
      TailDistinct(entries);
      if entries[0].key != key {
        DeleteExact(entries[1..], key, e);
        forall d | d in Delete(entries[1..], key)
          ensures d in entries[1..]
        {
          DeleteExact(entries[1..], key, d);
        }
        ConsDistinct(entries[0], entries[1..], Delete(entries[1..], key));
      }
    }
  }

  lemma DeleteAll(entries: seq<Entry>, key: Digest)
    requires Distinct(entries)
    ensures Distinct(Delete(entries, key)) && |Delete(entries, key)| <= |entries|
    ensures forall e :: e in Delete(entries, key) <==> e in entries && e.key != key
  {
    DeleteExact(entries, key, Entry(key, 0));
    forall e
      ensures e in Delete(entries, key) <==> e in entries && e.key != key
    {
      DeleteExact(entries, key, e);
    }
  }

  lemma TailDistinct(entries: seq<Entry>)
    requires entries != [] && Distinct(entries)
    ensures Distinct(entries[1..]) && entries == [entries[0]] + entries[1..]
    ensures !HasKey(entries[1..], entries[0].key)
  {}

  lemma ConsDistinct(e: Entry, tail: seq<Entry>, part: seq<Entry>)
    requires Distinct(part) && !HasKey(tail, e.key) && forall d :: d in part ==> d in tail
    ensures Distinct([e] + part)
  {
    forall j | 0 <= j < |part|
      ensures part[j].key != e.key
    {
      assert part[j] in tail;
    }
  }

  lemma {:induction false} PutExact(entries: seq<Entry>, key: Digest, expiresAt: int, e: Entry)
    requires Distinct(entries)
    ensures Distinct(Put(entries, key, expiresAt))
    ensures e in Put(entries, key, expiresAt) <==> e == Entry(key, expiresAt) || (e in entries && e.key != key)
    ensures |Put(entries, key, expiresAt)| == |entries| + if HasKey(entries, key) then 0 else 1
  {
    if entries != [] {
      TailDistinct(entries);
      if entries[0].key != key {
        PutExact(entries[1..], key, expiresAt, e);
        var put := Put(entries[1..], key, expiresAt);
        forall d | d in put
          ensures d.key != entries[0].key
        {
          PutExact(entries[1..], key, expiresAt, d);
        }
        ConsDistinct(entries[0], put, put);
      }
    }
  }

  /** A key that is not there goes last. */
  lemma {:induction false} PutNew(entries: seq<Entry>, key: Digest, expiresAt: int)
    requires !HasKey(entries, key)
    ensures Put(entries, key, expiresAt) == entries + [Entry(key, expiresAt)]
  {
    if entries != [] {
      assert entries[0].key != key;
      PutNew(entries[1..], key, expiresAt);
    }
  }

  lemma {:induction false} LiveExact(entries: seq<Entry>, now: int, e: Entry)
    requires Distinct(entries)
    ensures Distinct(Live(entries, now))
    ensures e in Live(entries, now) <==> e in entries && e.expiresAt > now
  {
    if entries != [] {
      TailDistinct(entries);
      LiveExact(entries[1..], now, e);
      forall d | d in Live(entries[1..], now)
        ensures d in entries[1..]
      {
        LiveExact(entries[1..], now, d);
      }
      ConsDistinct(entries[0], entries[1..], Live(entries[1..], now));
    }
  }

  /**
   Eviction keeps keys distinct, invents nothing, leaves room for one more, and at capacity keeps an entry only
   if it is live.
   */
  lemma EvictedExact(entries: seq<Entry>, maxEntries: int, now: int)
    requires Distinct(entries)
    ensures var kept := Evicted(entries, maxEntries, now);
      && Distinct(kept)
      && |kept| <= Max(0, maxEntries - 1)
      && (forall e :: e in kept ==> e in entries)
      && (|entries| >= maxEntries ==> forall e :: e in kept ==> e.expiresAt > now)
  {
    if |entries| >= maxEntries {
      LiveAll(entries, now);
      var live, kept := Live(entries, now), Evicted(entries, maxEntries, now);
      assert forall e :: e in kept ==> e in live;
    }
  }

  lemma LiveAll(entries: seq<Entry>, now: int)
    requires Distinct(entries)
    ensures Distinct(Live(entries, now))
    ensures forall e :: e in Live(entries, now) <==> e in entries && e.expiresAt > now
  {
    LiveExact(entries, now, Entry(Sha256(""), 0));
    forall e
      ensures e in Live(entries, now) <==> e in entries && e.expiresAt > now
    {
      LiveExact(entries, now, e);
    }
  }

  /** Eviction drops the oldest of the live entries, if any, and then the map is as full as it may stay. */
  lemma EvictsOldestFirst(entries: seq<Entry>, maxEntries: int, now: int) returns (dropped: seq<Entry>)
    requires Distinct(entries)
    ensures Live(entries, now) == dropped + Live(Evicted(entries, maxEntries, now), now)
    ensures dropped != [] ==>
      var kept := Evicted(entries, maxEntries, now);
      |kept| == Max(0, maxEntries - 1) && Live(kept, now) == kept
  {
    var live, kept := Live(entries, now), Evicted(entries, maxEntries, now);
    dropped := [];
    if |entries| >= maxEntries {
      EvictedExact(entries, maxEntries, now);
      AllLive(kept, now);
      dropped := live[..|live| - Kept(|live|, maxEntries)];
    }
  }

  lemma {:induction false} AllLive(entries: seq<Entry>, now: int)
    requires forall e :: e in entries ==> e.expiresAt > now
    ensures Live(entries, now) == entries
  {
    if entries != [] {
      AllLive(entries[1..], now);
    }
  }

  // ---------- Order ----------

  ghost predicate ByExpiry(entries: seq<Entry>) {
    forall i, j :: 0 <= i < j < |entries| ==> entries[i].expiresAt <= entries[j].expiresAt
  }

  /** On entries in order of expiry the sweep removes a prefix. */
  lemma {:induction false} SweepIsPrefix(entries: seq<Entry>, now: int) returns (n: nat)
    requires ByExpiry(entries)
    ensures n <= |entries| && Live(entries, now) == entries[n..]
    ensures forall i :: 0 <= i < n ==> entries[i].expiresAt <= now
  {
    if entries == [] {
      n := 0;
    } else if entries[0].expiresAt > now {
      n := 0;
      AllLive(entries, now);
    } else {
      n := SweepIsPrefix(entries[1..], now);
      n := n + 1;
    }
  }

  /** And eviction as a whole removes a prefix: the soonest to expire. */
  lemma EvictionIsPrefix(entries: seq<Entry>, maxEntries: int, now: int) returns (n: nat)
    requires ByExpiry(entries)
    ensures n <= |entries| && Evicted(entries, maxEntries, now) == entries[n..]
    ensures forall i, j :: 0 <= i < n <= j < |entries| ==> entries[i].expiresAt <= entries[j].expiresAt
  {
    if |entries| < maxEntries {
      n := 0;
    } else {
      n := SweepIsPrefix(entries, now);
      var live := entries[n..];
      var d := |live| - Kept(|live|, maxEntries);
      assert live[d..] == entries[n + d..];
      n := n + d;
    }
  }

  /** The key is absent, or everything behind its place expires at `expiresAt`. */
  ghost predicate NothingSooner(entries: seq<Entry>, key: Digest, expiresAt: int) {
    forall i, j :: 0 <= i < j < |entries| && entries[i].key == key ==> entries[j].expiresAt == expiresAt
  }

  /**
   Recording a decision that expires no sooner than any other keeps the order exactly when its key was absent, or
   everything behind its old place expires at the same instant.
   */
  lemma {:induction false} PutKeepsOrder(entries: seq<Entry>, key: Digest, expiresAt: int)
    requires Distinct(entries) && ByExpiry(entries)
    requires forall e :: e in entries ==> e.expiresAt <= expiresAt
    ensures ByExpiry(Put(entries, key, expiresAt)) <==> NothingSooner(entries, key, expiresAt)
  {
    if i :| 0 <= i < |entries| && entries[i].key == key {
      PutInPlace(entries, key, expiresAt, i);
      var put := Put(entries, key, expiresAt);
      assert put[i].expiresAt == expiresAt;
      assert forall j :: 0 <= j < |entries| && j != i ==> put[j] == entries[j];
      assert forall j :: i < j < |entries| ==> entries[j] in entries;
      if ByExpiry(put) {
        assert forall j :: i < j < |entries| ==> put[i].expiresAt <= put[j].expiresAt;
      }
    } else {
      PutNew(entries, key, expiresAt);
    }
  }

  lemma {:induction false} PutInPlace(entries: seq<Entry>, key: Digest, expiresAt: int, i: nat)
    requires Distinct(entries) && i < |entries| && entries[i].key == key
    ensures Put(entries, key, expiresAt) == entries[i := Entry(key, expiresAt)]
  {
    if i > 0 {
      TailDistinct(entries);
      PutInPlace(entries[1..], key, expiresAt, i - 1);
    }
  }

  // ---------- Place in the queue ----------

  /** How many entries stand behind `key`: the later it is evicted. */
  function Behind(entries: seq<Entry>, key: Digest): nat {
    if entries == [] then 0
    else if entries[0].key == key then |entries| - 1
    else Behind(entries[1..], key)
  }

  lemma {:induction false} BehindAt(entries: seq<Entry>, i: nat)
    requires Distinct(entries) && i < |entries|
    ensures Behind(entries, entries[i].key) == |entries| - 1 - i
  {
    if i > 0 {
      TailDistinct(entries);
      BehindAt(entries[1..], i - 1);
    }
  }

  lemma {:induction false} BehindDelete(entries: seq<Entry>, key: Digest, other: Digest)
    requires Distinct(entries) && key != other
    ensures Behind(Delete(entries, other), key) <= Behind(entries, key)
  {
    if entries != [] {
      TailDistinct(entries);
      BehindDelete(entries[1..], key, other);
      DeleteExact(entries[1..], other, entries[0]);
    }
  }

  lemma {:induction false} BehindLive(entries: seq<Entry>, key: Digest, now: int)
    requires Distinct(entries)
    requires forall e :: e in entries && e.key == key ==> e.expiresAt > now
    ensures Behind(Live(entries, now), key) <= Behind(entries, key)
  {
    if entries != [] {
      TailDistinct(entries);
      BehindLive(entries[1..], key, now);
    }
  }

  lemma {:induction false} BehindPut(entries: seq<Entry>, key: Digest, other: Digest, expiresAt: int)
    requires Distinct(entries) && HasKey(entries, key)
    ensures Behind(Put(entries, other, expiresAt), key) <= Behind(entries, key) + 1
    ensures key == other ==> Behind(Put(entries, other, expiresAt), key) == Behind(entries, key)
  {
    TailDistinct(entries);
    if entries[0].key != other {
      if entries[0].key == key {
        PutExact(entries[1..], other, expiresAt, entries[0]);
      } else {
        BehindPut(entries[1..], key, other, expiresAt);
      }
    }
  }

  /** A live entry with room behind it for one more survives the eviction and does not move back. */
  lemma BehindEvicted(entries: seq<Entry>, e: Entry, maxEntries: int, now: int)
    requires Distinct(entries) && e in entries && e.expiresAt > now
    requires Behind(entries, e.key) + 1 < maxEntries
    ensures e in Evicted(entries, maxEntries, now)
    ensures Behind(Evicted(entries, maxEntries, now), e.key) <= Behind(entries, e.key)
  {
    if |entries| >= maxEntries {
      var live := Live(entries, now);
      LiveExact(entries, now, e);
      BehindLive(entries, e.key, now);
      var i :| 0 <= i < |live| && live[i] == e;
      BehindAt(live, i);
      var d := |live| - Kept(|live|, maxEntries);
      var kept := live[d..];
      assert i >= d && kept[i - d] == e;
      BehindAt(kept, i - d);
    }
  }

  // ---------- Exactly when a live decision goes ----------

  /** There is room for one more entry, or fewer than capacity - 1 live entries stand behind `key`. */
  predicate Spares(entries: seq<Entry>, key: Digest, maxEntries: int, now: int) {
    |entries| < maxEntries || Behind(Live(entries, now), key) + 1 < maxEntries
  }

  /** A live decision survives an eviction exactly then. */
  lemma SparedExactly(entries: seq<Entry>, e: Entry, maxEntries: int, now: int)
    requires Distinct(entries) && e in entries && e.expiresAt > now
    ensures HasKey(Evicted(entries, maxEntries, now), e.key) <==> Spares(entries, e.key, maxEntries, now)
  {
    if |entries| >= maxEntries {
      var live := Live(entries, now);
      LiveExact(entries, now, e);
      var i :| 0 <= i < |live| && live[i] == e;
      BehindAt(live, i);
      var d := |live| - Kept(|live|, maxEntries);
      assert i >= d ==> live[d..][i - d] == e;
      assert i < d ==> forall k :: 0 <= k < |live[d..]| ==> live[d..][k] == live[d + k];
    }
  }

  /** A decision to record; the eviction and the insertion each read the clock. */
  datatype Recording = Recording(key: Digest, evictNow: int, setNow: int)

  /** Decisions recorded one after the other. */
  function Recorded(c: Config, entries: seq<Entry>, recordings: seq<Recording>): seq<Entry>
    decreases |recordings|
  {
    if recordings == [] then entries
    else
      var r := recordings[0];
      Recorded(c, Put(Evicted(entries, c.maxEntries, r.evictNow), r.key, r.setNow + c.ttl), recordings[1..])
  }

  ghost predicate AllNew(entries: seq<Entry>, recordings: seq<Recording>) {
    && (forall i :: 0 <= i < |recordings| ==> !HasKey(entries, recordings[i].key))
    && (forall i, j :: 0 <= i < j < |recordings| ==> recordings[i].key != recordings[j].key)
  }

  /** A map within its capacity in which every decision is live until after `horizon`. */
  ghost predicate LiveMap(c: Config, entries: seq<Entry>, horizon: int) {
    Distinct(entries) && |entries| <= c.maxEntries && forall e :: e in entries ==> e.expiresAt > horizon
  }

  /** Every eviction takes place by `horizon`, and every decision is live until after it. */
  ghost predicate WithinWindow(c: Config, recordings: seq<Recording>, horizon: int) {
    forall i :: 0 <= i < |recordings| ==> recordings[i].evictNow <= horizon < recordings[i].setNow + c.ttl
  }

  /** A full map of live entries loses its oldest; below capacity nothing goes. */
  lemma EvictedLive(entries: seq<Entry>, maxEntries: int, now: int)
    requires |entries| <= maxEntries && maxEntries > 0 && forall e :: e in entries ==> e.expiresAt > now
    ensures Evicted(entries, maxEntries, now) == if |entries| == maxEntries then entries[1..] else entries
  {
    AllLive(entries, now);
  }

  /** One new decision among live ones. */
  lemma RecordOne(c: Config, entries: seq<Entry>, r: Recording, horizon: int) returns (next: seq<Entry>)
    requires LiveMap(c, entries, horizon) && c.maxEntries > 0 && !HasKey(entries, r.key)
    requires r.evictNow <= horizon < r.setNow + c.ttl
    ensures next == Put(Evicted(entries, c.maxEntries, r.evictNow), r.key, r.setNow + c.ttl)
    ensures next == (if |entries| == c.maxEntries then entries[1..] else entries) + [Entry(r.key, r.setNow + c.ttl)]
    ensures LiveMap(c, next, horizon)
  {
    EvictedLive(entries, c.maxEntries, r.evictNow);
    var kept := if |entries| == c.maxEntries then entries[1..] else entries;
    assert !HasKey(kept, r.key) by {
      assert forall i :: 0 <= i < |kept| ==> kept[i] in entries;
    }
    PutNew(kept, r.key, r.setNow + c.ttl);
    next := kept + [Entry(r.key, r.setNow + c.ttl)];
  }

  lemma StillNew(entries: seq<Entry>, recordings: seq<Recording>, next: seq<Entry>, e: Entry)
    requires recordings != [] && AllNew(entries, recordings) && e.key == recordings[0].key
    requires next == entries + [e] || (entries != [] && next == entries[1..] + [e])
    ensures AllNew(next, recordings[1..])
  {
    forall i | 0 <= i < |recordings[1..]|
      ensures !HasKey(next, recordings[1..][i].key)
    {
      assert recordings[1..][i] == recordings[i + 1] && recordings[i + 1].key != recordings[0].key;
      assert forall j :: 0 <= j < |next| ==> next[j].key == recordings[0].key || next[j] in entries;
      assert forall d :: d in entries ==> d.key != recordings[i + 1].key;
    }
  }

  /** The first of some recordings, and the rest of them. */
  lemma {:induction false} RecordFirst(c: Config, entries: seq<Entry>, recordings: seq<Recording>, horizon: int)
    returns (next: seq<Entry>, e: Entry)
    requires LiveMap(c, entries, horizon) && c.maxEntries > 0 && recordings != []
    requires AllNew(entries, recordings) && WithinWindow(c, recordings, horizon)
    ensures Recorded(c, entries, recordings) == Recorded(c, next, recordings[1..])
    ensures e.key == recordings[0].key && next == (if |entries| == c.maxEntries then entries[1..] else entries) + [e]
    ensures LiveMap(c, next, horizon) && AllNew(next, recordings[1..]) && WithinWindow(c, recordings[1..], horizon)
  {
    e := Entry(recordings[0].key, recordings[0].setNow + c.ttl);
    next := RecordOne(c, entries, recordings[0], horizon);
    StillNew(entries, recordings, next, e);
  }

  lemma {:induction false} GoneStaysGone(c: Config, entries: seq<Entry>, recordings: seq<Recording>, key: Digest,
                                         horizon: int)
    requires LiveMap(c, entries, horizon) && c.maxEntries > 0
    requires AllNew(entries, recordings) && WithinWindow(c, recordings, horizon)
    requires !HasKey(entries, key) && forall i :: 0 <= i < |recordings| ==> recordings[i].key != key
    ensures !HasKey(Recorded(c, entries, recordings), key)
    decreases |recordings|
  {
    if recordings != [] {
      var next, e := RecordFirst(c, entries, recordings, horizon);
      StillWithout(entries, next, e, key);
      GoneStaysGone(c, next, recordings[1..], key, horizon);
    }
  }

  lemma StillWithout(entries: seq<Entry>, next: seq<Entry>, e: Entry, key: Digest)
    requires next == entries + [e] || (entries != [] && next == entries[1..] + [e])
    requires e.key != key && !HasKey(entries, key)
    ensures !HasKey(next, key)
  {
    assert forall i :: 0 <= i < |next| ==> next[i] == e || next[i] in entries;
  }

  /**
   Among live decisions, one is still held after new ones, each recorded at its own instants, exactly while the
   capacity has room for them behind it.
   */
  lemma {:induction false} HeldExactly(c: Config, entries: seq<Entry>, recordings: seq<Recording>, key: Digest,
                                       horizon: int)
    requires LiveMap(c, entries, horizon) && HasKey(entries, key)
    requires AllNew(entries, recordings) && WithinWindow(c, recordings, horizon)
    ensures HasKey(Recorded(c, entries, recordings), key) <==> Behind(entries, key) + |recordings| < c.maxEntries
    decreases |recordings|
  {
    var i :| 0 <= i < |entries| && entries[i].key == key;
    BehindAt(entries, i);
    if recordings != [] {
      var next, e := RecordFirst(c, entries, recordings, horizon);
      if |entries| < c.maxEntries || i > 0 {
        var j := if |entries| == c.maxEntries then i - 1 else i;
        assert next[j] == entries[i];
        BehindAt(next, j);
        HeldExactly(c, next, recordings[1..], key, horizon);
      } else {
        OldestIsOut(entries, next, e, recordings);
        GoneStaysGone(c, next, recordings[1..], key, horizon);
      }
    }
  }

  lemma OldestIsOut(entries: seq<Entry>, next: seq<Entry>, e: Entry, recordings: seq<Recording>)
    requires Distinct(entries) && entries != [] && next == entries[1..] + [e]
    requires recordings != [] && AllNew(entries, recordings) && e.key == recordings[0].key
    ensures !HasKey(next, entries[0].key) && forall i :: 0 <= i < |recordings| ==> recordings[i].key != entries[0].key
  {}
}
