/**
 Whole runs of the bearer guards. Guards interleave at their introspection call: each takes an `Arrive` step and,
 if it had to ask, a `Settle` step later. What the cache holds is compared with a history that knows no cache.
 */
module BearerRuns {
  import opened Prelude
  import opened Authorization
  import opened DecisionCache
  import opened Text

  datatype Event =
    | Arrival(guard: nat, header: Option<string>, now: int)
      // The auth service gave its reply at `answeredAt`; the guard resumed and read the clock twice.
    | Reply(guard: nat, reply: Introspection, answeredAt: int, evictNow: int, setNow: int)

  /** A guard waiting for its introspection, which it started at `since`. */
  datatype Waiting = Waiting(token: string, since: int)

  datatype State = State(entries: seq<Entry>, waiting: map<nat, Waiting>, seen: set<nat>, clock: int)

  const INITIAL := State([], map[], {}, 0)

  predicate Enabled(st: State, event: Event) {
    match event
    case Arrival(guard, _, _) => guard !in st.seen
    case Reply(guard, _, _, _, _) => guard in st.waiting
  }

  /** The clock does not run backwards, and a guard reads it after the reply it waited for. */
  predicate OnTime(st: State, event: Event)
    requires Enabled(st, event)
  {
    match event
    case Arrival(_, _, now) => st.clock <= now
    case Reply(guard, _, answeredAt, evictNow, setNow) =>
      st.waiting[guard].since <= answeredAt <= evictNow <= setNow && st.clock <= evictNow
  }

  /** The outcome of a step and the state it leads to. */
  function Step(c: Config, st: State, event: Event): (r: (Outcome, State))
    requires Enabled(st, event)
  {
    match event
    case Arrival(guard, header, now) =>
      var (outcome, entries) := Arrive(c, st.entries, header, now);
      var waiting := match outcome
        case Introspecting(token) => st.waiting[guard := Waiting(token, now)]
        case _ => st.waiting;
      (outcome, State(entries, waiting, st.seen + {guard}, now))
    case Reply(guard, reply, _, evictNow, setNow) =>
      var (outcome, entries) := Settle(c, st.entries, st.waiting[guard].token, reply, evictNow, setNow);
      (outcome, State(entries, st.waiting - {guard}, st.seen, setNow))
  }

  ghost predicate Valid(c: Config, events: seq<Event>)
    decreases |events|, 0
  {
    events != [] ==> Valid(c, Before(events)) && Enabled(After(c, Before(events)), Last(events))
  }

  function After(c: Config, events: seq<Event>): State
    requires Valid(c, events)
    decreases |events|, 1
  {
    if events == [] then INITIAL else Step(c, After(c, Before(events)), Last(events)).1
  }

  /** A run on a clock that does not run backwards. */
  ghost predicate Timely(c: Config, events: seq<Event>)
    requires Valid(c, events)
  {
    events != [] ==> Timely(c, Before(events)) && OnTime(After(c, Before(events)), Last(events))
  }

  /** The outcome of the last step. */
  function OutcomeOf(c: Config, events: seq<Event>): Outcome
    requires events != [] && Valid(c, events)
  {
    Step(c, After(c, Before(events)), Last(events)).0
  }

  // ---------- The history, which knows no cache ----------

  /** The token the guard's request carried. */
  function Asked(events: seq<Event>, guard: nat): Option<string> {
    if events == [] then None
    else match Asked(Before(events), guard)
      case Some(token) => Some(token)
      case None => if Last(events).Arrival? && Last(events).guard == guard then ParseBearerToken(Last(events).header)
                   else None
  }

  /** Whether the last event is a successful reply that calls `token` active. */
  predicate Confirms(events: seq<Event>, token: string)
    requires events != []
  {
    && Last(events).Reply? && Last(events).reply == Answered(true, true)
    && Asked(events, Last(events).guard) == Some(token)
  }

  /** When `token` was last confirmed active. */
  function LastConfirmed(events: seq<Event>, token: string): Option<int> {
    if events == [] then None
    else if Confirms(events, token) then Some(Last(events).setNow)
    else LastConfirmed(Before(events), token)
  }

  /** The token the last event concerns. */
  function Subject(events: seq<Event>): Option<string>
    requires events != []
  {
    if Last(events).Arrival? then ParseBearerToken(Last(events).header) else Asked(events, Last(events).guard)
  }

  // ---------- What holds in every reachable state ----------

  /** Every cached decision is the last confirmation of its token, expiring one window later. */
  ghost predicate Coupled(c: Config, events: seq<Event>)
    requires Valid(c, events)
  {
    forall e :: e in After(c, events).entries ==>
      var confirmed := LastConfirmed(events, e.key.text);
      confirmed.Some? && e.expiresAt == confirmed.value + c.ttl
  }

  /** Guards and history agree on who asks about what. */
  ghost predicate Tracked(c: Config, events: seq<Event>)
    requires Valid(c, events)
  {
    var st := After(c, events);
    && (forall g :: g in st.waiting ==> g in st.seen && Asked(events, g) == Some(st.waiting[g].token))
    && (forall g :: g !in st.seen ==> Asked(events, g).None?)
  }

  ghost predicate Sound(c: Config, events: seq<Event>)
    requires Valid(c, events)
  {
    var st := After(c, events);
    && Distinct(st.entries)
    && |st.entries| <= Max(1, c.maxEntries)
    && (c.ttl <= 0 ==> st.entries == [])
    && Coupled(c, events)
  }

  /** An arrival only ever removes the expired decision about its own token. */
  lemma ArriveMap(c: Config, entries: seq<Entry>, header: Option<string>, now: int)
    requires Distinct(entries) && (c.ttl <= 0 ==> entries == [])
    ensures var (outcome, next) := Arrive(c, entries, header, now);
      && Distinct(next) && |next| <= |entries|
      && (forall e :: e in next ==> e in entries)
      && (outcome.Introspecting? ==> forall e :: e in next ==> e.key != Sha256(outcome.token))
  {
    var token := ParseBearerToken(header);
    if c.ttl > 0 && token.Some? {
      if HasKey(entries, Sha256(token.value)) {
        DeleteAll(entries, Sha256(token.value));
      } else {
        assert forall e :: e in entries ==> e.key != Sha256(token.value);
      }
    }
  }

  /** A confirmation records one decision and never leaves more than the capacity. */
  lemma SettleMap(c: Config, entries: seq<Entry>, token: string, reply: Introspection, evictNow: int, setNow: int)
    requires Distinct(entries) && c.ttl > 0 && Active(reply)
    ensures var next := Settle(c, entries, token, reply, evictNow, setNow).1;
      && Distinct(next) && |next| <= Max(1, c.maxEntries)
      && (forall e :: e in next ==>
            e == Entry(Sha256(token), setNow + c.ttl) || (e in entries && e.key != Sha256(token)))
  {
    var kept, key := Evicted(entries, c.maxEntries, evictNow), Sha256(token);
    var next := Put(kept, key, setNow + c.ttl);
    EvictedExact(entries, c.maxEntries, evictNow);
    PutExact(kept, key, setNow + c.ttl, Entry(key, 0));
    forall e | e in next
      ensures e == Entry(key, setNow + c.ttl) || (e in entries && e.key != key)
    {
      PutExact(kept, key, setNow + c.ttl, e);
    }
  }

  lemma {:induction false} AlwaysTracked(c: Config, events: seq<Event>)
    requires Valid(c, events)
    ensures Tracked(c, events)
  {
    if events != [] {
      AlwaysTracked(c, Before(events));
    }
  }

  /** The invariant of the cache, under any interleaving of guards: coupling, distinct keys and the size bound. */
  lemma {:induction false} AlwaysSound(c: Config, events: seq<Event>)
    requires Valid(c, events)
    ensures Sound(c, events)
  {
    if events != [] {
      AlwaysSound(c, Before(events));
      AlwaysTracked(c, Before(events));
      var st, event := After(c, Before(events)), Last(events);
      match event
      case Arrival(_, header, now) =>
        ArriveMap(c, st.entries, header, now);
        assert forall t :: LastConfirmed(events, t) == LastConfirmed(Before(events), t);
      case Reply(guard, reply, _, evictNow, setNow) =>
        ReplySound(c, events, st.waiting[guard].token);
    }
  }

  lemma ReplySound(c: Config, events: seq<Event>, token: string)
    requires events != [] && Valid(c, events) && Last(events).Reply?
    requires Sound(c, Before(events)) && Tracked(c, Before(events))
    requires token == After(c, Before(events)).waiting[Last(events).guard].token
    ensures Sound(c, events)
  {
    var st, event := After(c, Before(events)), Last(events);
    assert Asked(events, event.guard) == Some(token);
    forall t | t != token || !Active(event.reply)
      ensures LastConfirmed(events, t) == LastConfirmed(Before(events), t)
    {}
    if Active(event.reply) {
      assert LastConfirmed(events, token) == Some(event.setNow);
      if c.ttl > 0 {
        SettleMap(c, st.entries, token, event.reply, event.evictNow, event.setNow);
        assert forall e: Entry :: e.key == Sha256(e.key.text);
      }
    }
  }

  /** The capacity is never exceeded, whatever overlaps or the clock does; a capacity below one still holds one. */
  lemma NeverOverCapacity(c: Config, events: seq<Event>)
    requires Valid(c, events)
    ensures |After(c, events).entries| <= Max(1, c.maxEntries)
  {
    AlwaysSound(c, events);
  }

  /**
   Fails closed: every admission is backed by an active answer in the same guard run, or by a confirmation of the
   same token less than one window old. Without an endpoint or a token nothing is admitted.
   */
  lemma AdmissionIsBacked(c: Config, events: seq<Event>)
    requires events != [] && Valid(c, events) && OutcomeOf(c, events) == Admitted
    ensures Subject(events).Some?
    ensures Last(events).Reply? ==> Confirms(events, Subject(events).value)
    ensures Last(events).Arrival? ==>
      var confirmed := LastConfirmed(Before(events), Subject(events).value);
      c.url && confirmed.Some? && Last(events).now < confirmed.value + c.ttl
  {
    AlwaysSound(c, Before(events));
    AlwaysTracked(c, Before(events));
    var st := After(c, Before(events));
    if Last(events).Arrival? {
      var token := ParseBearerToken(Last(events).header).value;
      var i :| 0 <= i < |st.entries| && st.entries[i] == Entry(Sha256(token), Get(st.entries, Sha256(token)).value);
      assert st.entries[i] in st.entries;
    }
  }

  lemma {:induction false} ConfirmedByNow(c: Config, events: seq<Event>, token: string)
    requires Valid(c, events) && Timely(c, events)
    ensures LastConfirmed(events, token).Some? ==> LastConfirmed(events, token).value <= After(c, events).clock
  {
    if events != [] {
      ConfirmedByNow(c, Before(events), token);
    }
  }

  /** A reply admits exactly if it is a successful one that says "active"; every other one fails closed. */
  lemma ReplyOutcome(c: Config, events: seq<Event>)
    requires events != [] && Valid(c, events) && Last(events).Reply?
    ensures OutcomeOf(c, events) == if Last(events).reply == Answered(true, true) then Admitted else Unauthorized
  {}

  // ---------- Revocation ----------

  /** From `r` on, no introspection of `token` was answered "active". */
  ghost predicate RevokedFrom(events: seq<Event>, token: string, r: int) {
    forall n :: 0 < n <= |events| && Confirms(events[..n], token) ==> events[n - 1].answeredAt < r
  }

  /** Every guard run about `token` is over within `delay` of starting its introspection. */
  ghost predicate Prompt(c: Config, events: seq<Event>, token: string, delay: int)
    requires Valid(c, events)
  {
    events != [] ==>
      && Prompt(c, Before(events), token, delay)
      && (Confirms(events, token) ==>
            Last(events).setNow <= After(c, Before(events)).waiting[Last(events).guard].since + delay)
  }

  function AdmittedAt(event: Event): int {
    if event.Arrival? then event.now else event.setNow
  }

  lemma {:induction false} ConfirmedBeforeRevocation(c: Config, events: seq<Event>, token: string, r: int, delay: int)
    requires Valid(c, events) && Timely(c, events)
    requires RevokedFrom(events, token, r) && Prompt(c, events, token, delay)
    requires LastConfirmed(events, token).Some?
    ensures LastConfirmed(events, token).value < r + delay
  {
    assert events[..|events|] == events;
    if !Confirms(events, token) {
      RevocationPrefix(events, token, r);
      ConfirmedBeforeRevocation(c, Before(events), token, r, delay);
    }
  }

  lemma RevocationPrefix(events: seq<Event>, token: string, r: int)
    requires events != [] && RevokedFrom(events, token, r)
    ensures RevokedFrom(Before(events), token, r)
  {
    assert forall n :: 0 <= n < |events| ==> Before(events)[..n] == events[..n];
  }

  /**
   Bounded revocation, under any interleaving: if `token` is reported inactive from time `r` on and every
   introspection takes at most `delay` (INTROSPECTION_TIMEOUT_MS in the source), then no request is admitted for
   it at or after r + delay + ttl.
   */
  lemma BoundedRevocation(c: Config, events: seq<Event>, token: string, r: int, delay: int)
    requires events != [] && Valid(c, events) && Timely(c, events)
    requires RevokedFrom(events, token, r) && Prompt(c, events, token, delay)
    requires OutcomeOf(c, events) == Admitted && Subject(events) == Some(token)
    ensures AdmittedAt(Last(events)) < r + delay + Max(0, c.ttl)
  {
    AdmissionIsBacked(c, events);
    assert events[..|events|] == events;
    if Last(events).Arrival? {
      RevocationPrefix(events, token, r);
      ConfirmedBeforeRevocation(c, Before(events), token, r, delay);
    }
  }

  // ---------- Order ----------

  /** No request for a token arrives while another guard is still asking about that token. */
  ghost predicate NoOverlap(c: Config, events: seq<Event>)
    requires Valid(c, events)
  {
    events != [] ==>
      && NoOverlap(c, Before(events))
      && (Last(events).Arrival? && ParseBearerToken(Last(events).header).Some? ==>
            forall g :: g in After(c, Before(events)).waiting ==>
              After(c, Before(events)).waiting[g].token != ParseBearerToken(Last(events).header).value)
  }

  /** The map is in order of expiry, and everything recorded from now on expires no sooner. */
  ghost predicate InOrder(c: Config, entries: seq<Entry>, clock: int) {
    ByExpiry(entries) && forall e :: e in entries ==> e.expiresAt <= clock + c.ttl
  }

  /** No two guards ask about the same token, and none about a cached one. */
  ghost predicate Exclusive(st: State) {
    && (forall g, h :: g in st.waiting && h in st.waiting && g != h ==> st.waiting[g].token != st.waiting[h].token)
    && (forall g :: g in st.waiting ==> !HasKey(st.entries, Sha256(st.waiting[g].token)))
  }

  /** Without overlap the order of the map is the order of expiry, and no decision is recorded over another. */
  lemma {:induction false} OrderIsExpiryOrder(c: Config, events: seq<Event>)
    requires Valid(c, events) && Timely(c, events) && NoOverlap(c, events)
    ensures InOrder(c, After(c, events).entries, After(c, events).clock) && Exclusive(After(c, events))
  {
    if events != [] {
      OrderIsExpiryOrder(c, Before(events));
      AlwaysSound(c, Before(events));
      var st, event := After(c, Before(events)), Last(events);
      match event
      case Arrival(_, header, now) =>
        ArrivalInOrder(c, st, header, now);
        ArrivalExclusive(c, st, event);
      case Reply(guard, reply, _, evictNow, setNow) =>
        var token := st.waiting[guard].token;
        ReplyInOrder(c, st, token, reply, evictNow, setNow);
        ReplyExclusive(c, st, event);
    }
  }

  /**
   In any run, whatever overlaps: a confirmation keeps the map in order of expiry if and only if the eviction leaves
   no decision about its token, or nothing behind that one which expires at another instant than the new one.
   */
  lemma ConfirmationKeepsOrder(c: Config, events: seq<Event>, token: string)
    requires events != [] && Valid(c, events) && Timely(c, events) && c.ttl > 0 && Confirms(events, token)
    requires ByExpiry(After(c, Before(events)).entries)
    ensures var kept := Evicted(After(c, Before(events)).entries, c.maxEntries, Last(events).evictNow);
      ByExpiry(After(c, events).entries) <==> NothingSooner(kept, Sha256(token), Last(events).setNow + c.ttl)
  {
    var st, event := After(c, Before(events)), Last(events);
    AlwaysTracked(c, Before(events));
    NoneExpiresLater(c, events);
    SettleKeepsOrder(c, st.entries, token, event.reply, event.evictNow, event.setNow);
  }

  lemma SettleKeepsOrder(c: Config, entries: seq<Entry>, token: string, reply: Introspection, evictNow: int,
                         setNow: int)
    requires Distinct(entries) && ByExpiry(entries) && c.ttl > 0 && Active(reply)
    requires forall e :: e in entries ==> e.expiresAt <= setNow + c.ttl
    ensures var (kept, next) :=
        (Evicted(entries, c.maxEntries, evictNow), Settle(c, entries, token, reply, evictNow, setNow).1);
      ByExpiry(next) <==> NothingSooner(kept, Sha256(token), setNow + c.ttl)
  {
    EvictedInOrder(c, entries, evictNow, setNow);
    EvictedDistinct(entries, c.maxEntries, evictNow);
    PutKeepsOrder(Evicted(entries, c.maxEntries, evictNow), Sha256(token), setNow + c.ttl);
  }

  lemma EvictedDistinct(entries: seq<Entry>, maxEntries: int, now: int)
    requires Distinct(entries)
    ensures Distinct(Evicted(entries, maxEntries, now))
  {
    EvictedExact(entries, maxEntries, now);
  }

  /** No decision expires later than one recorded by the next reply would. */
  lemma NoneExpiresLater(c: Config, events: seq<Event>)
    requires events != [] && Valid(c, events) && Timely(c, events) && Last(events).Reply?
    ensures Distinct(After(c, Before(events)).entries)
    ensures forall e :: e in After(c, Before(events)).entries ==> e.expiresAt <= Last(events).setNow + c.ttl
  {
    var prior := Before(events);
    AlwaysSound(c, prior);
    forall e | e in After(c, prior).entries
      ensures e.expiresAt <= Last(events).setNow + c.ttl
    {
      ConfirmedByNow(c, prior, e.key.text);
    }
  }

  lemma ArrivalInOrder(c: Config, st: State, header: Option<string>, now: int)
    requires Distinct(st.entries) && InOrder(c, st.entries, st.clock) && st.clock <= now
    requires c.ttl <= 0 ==> st.entries == []
    ensures InOrder(c, Arrive(c, st.entries, header, now).1, now)
  {
    ArriveMap(c, st.entries, header, now);
    if Arrive(c, st.entries, header, now).1 != st.entries {
      DeleteInOrder(st.entries, Sha256(ParseBearerToken(header).value));
    }
  }

  lemma ArrivalExclusive(c: Config, st: State, event: Event)
    requires Distinct(st.entries) && Exclusive(st) && event.Arrival? && Enabled(st, event)
    requires ParseBearerToken(event.header).Some? ==>
      forall g :: g in st.waiting ==> st.waiting[g].token != ParseBearerToken(event.header).value
    requires c.ttl <= 0 ==> st.entries == []
    ensures Exclusive(Step(c, st, event).1)
  {
    var next := Step(c, st, event).1;
    ArriveMap(c, st.entries, event.header, event.now);
    forall g | g in next.waiting
      ensures !HasKey(next.entries, Sha256(next.waiting[g].token))
    {
      assert forall i :: 0 <= i < |next.entries| ==> next.entries[i] in next.entries;
      if g != event.guard {
        assert !HasKey(st.entries, Sha256(st.waiting[g].token));
      }
    }
  }

  lemma {:induction false} DeleteInOrder(entries: seq<Entry>, key: Digest)
    requires Distinct(entries) && ByExpiry(entries)
    ensures ByExpiry(Delete(entries, key))
  {
    if entries != [] && entries[0].key != key {
      TailDistinct(entries);
      var rest := Delete(entries[1..], key);
      DeleteInOrder(entries[1..], key);
      forall j | 0 <= j < |rest|
        ensures entries[0].expiresAt <= rest[j].expiresAt
      {
        DeleteExact(entries[1..], key, rest[j]);
      }
    }
  }

  lemma EvictedHasNot(entries: seq<Entry>, maxEntries: int, now: int, key: Digest)
    requires Distinct(entries) && !HasKey(entries, key)
    ensures !HasKey(Evicted(entries, maxEntries, now), key)
  {
    var kept := Evicted(entries, maxEntries, now);
    EvictedExact(entries, maxEntries, now);
    forall i | 0 <= i < |kept|
      ensures kept[i].key != key
    {
      assert kept[i] in entries;
    }
  }

  lemma ReplyInOrder(c: Config, st: State, token: string, reply: Introspection, evictNow: int, setNow: int)
    requires Distinct(st.entries) && InOrder(c, st.entries, st.clock) && st.clock <= evictNow <= setNow
    requires !HasKey(st.entries, Sha256(token))
    ensures InOrder(c, Settle(c, st.entries, token, reply, evictNow, setNow).1, setNow)
  {
    if Active(reply) && c.ttl > 0 {
      var kept := Evicted(st.entries, c.maxEntries, evictNow);
      EvictedInOrder(c, st.entries, evictNow, st.clock);
      EvictedHasNot(st.entries, c.maxEntries, evictNow, Sha256(token));
      PutNew(kept, Sha256(token), setNow + c.ttl);
      AppendInOrder(c, kept, Entry(Sha256(token), setNow + c.ttl), st.clock, setNow);
    } else {
      AppendNothing(c, st.entries, st.clock, setNow);
    }
  }

  lemma EvictedInOrder(c: Config, entries: seq<Entry>, evictNow: int, clock: int)
    requires InOrder(c, entries, clock)
    ensures InOrder(c, Evicted(entries, c.maxEntries, evictNow), clock)
  {
    var n := EvictionIsPrefix(entries, c.maxEntries, evictNow);
    SuffixInOrder(c, entries, n, clock);
  }

  lemma SuffixInOrder(c: Config, entries: seq<Entry>, n: nat, clock: int)
    requires n <= |entries| && InOrder(c, entries, clock)
    ensures InOrder(c, entries[n..], clock)
  {}

  lemma AppendInOrder(c: Config, entries: seq<Entry>, e: Entry, clock: int, now: int)
    requires InOrder(c, entries, clock) && clock <= now && e.expiresAt == now + c.ttl
    ensures InOrder(c, entries + [e], now)
  {
    forall i | 0 <= i < |entries|
      ensures entries[i].expiresAt <= e.expiresAt
    {
      assert entries[i] in entries;
    }
  }

  lemma AppendNothing(c: Config, entries: seq<Entry>, clock: int, now: int)
    requires InOrder(c, entries, clock) && clock <= now
    ensures InOrder(c, entries, now)
  {}

  lemma ReplyExclusive(c: Config, st: State, event: Event)
    requires Distinct(st.entries) && Exclusive(st) && event.Reply? && Enabled(st, event)
    ensures Exclusive(Step(c, st, event).1)
  {
    var next, token := Step(c, st, event).1, st.waiting[event.guard].token;
    forall g | g in next.waiting
      ensures !HasKey(next.entries, Sha256(next.waiting[g].token))
    {
      if Active(event.reply) && c.ttl > 0 {
        var kept, key := Evicted(st.entries, c.maxEntries, event.evictNow), Sha256(next.waiting[g].token);
        EvictedHasNot(st.entries, c.maxEntries, event.evictNow, key);
        EvictedHasNot(st.entries, c.maxEntries, event.evictNow, Sha256(token));
        PutNew(kept, Sha256(token), event.setNow + c.ttl);
      }
    }
  }

  // ---------- Retention ----------

  /** How many confirmations (of any token) the last `n` events contain. */
  function Confirmations(events: seq<Event>, n: nat): nat
    requires n <= |events|
  {
    if n == 0 then 0
    else Confirmations(Before(events), n - 1)
         + if Last(events).Reply? && Last(events).reply == Answered(true, true) then 1 else 0
  }

  /** `key` is cached until at least `until`, with at most `behind` entries behind it. */
  ghost predicate Retained(entries: seq<Entry>, key: Digest, until: int, behind: int) {
    exists e :: e in entries && e.key == key && e.expiresAt >= until && Behind(entries, key) <= behind
  }

  /** Arrivals before its expiry leave a decision alone. */
  lemma RetainedByArrival(c: Config, entries: seq<Entry>, header: Option<string>, now: int, key: Digest, until: int,
                          behind: nat)
    requires Distinct(entries) && Retained(entries, key, until, behind) && now < until
    ensures Retained(Arrive(c, entries, header, now).1, key, until, behind)
  {
    var next := Arrive(c, entries, header, now).1;
    if next != entries {
      var other := Sha256(ParseBearerToken(header).value);
      var e :| e in entries && e.key == key && e.expiresAt >= until;
      if other != key {
        DeleteExact(entries, other, e);
        BehindDelete(entries, key, other);
      }
    }
  }

  /** A confirmation before its expiry moves a decision back by at most one place. */
  lemma RetainedByReply(c: Config, entries: seq<Entry>, token: string, reply: Introspection, evictNow: int, setNow: int,
                        key: Digest, until: int, behind: nat)
    requires Distinct(entries) && Retained(entries, key, until, behind)
    requires Active(reply) && evictNow < until <= setNow + c.ttl && behind + 1 < c.maxEntries
    ensures Retained(Settle(c, entries, token, reply, evictNow, setNow).1, key, until, behind + 1)
  {
    if c.ttl > 0 {
      EvictedExact(entries, c.maxEntries, evictNow);
      RetainedByEviction(entries, c.maxEntries, evictNow, key, until, behind);
      RetainedByPut(Evicted(entries, c.maxEntries, evictNow), Sha256(token), setNow + c.ttl, key, until, behind);
    }
  }

  lemma RetainedByEviction(entries: seq<Entry>, maxEntries: int, now: int, key: Digest, until: int, behind: nat)
    requires Distinct(entries) && Retained(entries, key, until, behind) && now < until && behind + 1 < maxEntries
    ensures Retained(Evicted(entries, maxEntries, now), key, until, behind)
  {
    var e :| e in entries && e.key == key && e.expiresAt >= until;
    BehindEvicted(entries, e, maxEntries, now);
  }

  lemma RetainedByPut(entries: seq<Entry>, other: Digest, expiresAt: int, key: Digest, until: int, behind: nat)
    requires Distinct(entries) && Retained(entries, key, until, behind) && until <= expiresAt
    ensures Retained(Put(entries, other, expiresAt), key, until, behind + 1)
  {
    var e :| e in entries && e.key == key && e.expiresAt >= until;
    BehindPut(entries, key, other, expiresAt);
    PutExact(entries, other, expiresAt, if other == key then Entry(key, expiresAt) else e);
  }

  lemma RetainedStep(c: Config, st: State, event: Event, key: Digest, until: int, behind: nat)
    requires Enabled(st, event) && OnTime(st, event) && Distinct(st.entries) && Retained(st.entries, key, until, behind)
    requires Step(c, st, event).1.clock < until <= st.clock + c.ttl
    requires event.Reply? && Active(event.reply) ==> behind + 1 < c.maxEntries
    ensures Retained(Step(c, st, event).1.entries, key, until,
                     behind + if event.Reply? && Active(event.reply) then 1 else 0)
  {
    match event
    case Arrival(_, header, now) => RetainedByArrival(c, st.entries, header, now, key, until, behind);
    case Reply(guard, reply, _, evictNow, setNow) =>
      if Active(reply) {
        RetainedByReply(c, st.entries, st.waiting[guard].token, reply, evictNow, setNow, key, until, behind);
      }
  }

  /** The state after the first `n` events. */
  function StateAt(c: Config, events: seq<Event>, n: nat): State
    requires Valid(c, events) && n <= |events|
    decreases |events|
  {
    if n == |events| then After(c, events) else StateAt(c, Before(events), n)
  }

  lemma {:induction false} PrefixRuns(c: Config, events: seq<Event>, n: nat)
    requires Valid(c, events) && Timely(c, events) && n <= |events|
    ensures Valid(c, events[..n]) && Timely(c, events[..n]) && StateAt(c, events, n) == After(c, events[..n])
    decreases |events|
  {
    if n == |events| {
      assert events[..n] == events;
    } else {
      PrefixRuns(c, Before(events), n);
      assert Before(events)[..n] == events[..n];
    }
  }

  lemma {:induction false} ClockRuns(c: Config, events: seq<Event>, n: nat)
    requires Valid(c, events) && Timely(c, events) && n <= |events|
    ensures StateAt(c, events, n).clock <= After(c, events).clock
    decreases |events|
  {
    if n < |events| {
      ClockRuns(c, Before(events), n);
    }
  }

  lemma {:induction false} RetainedRun(c: Config, events: seq<Event>, n: nat, key: Digest, until: int, behind: nat)
    requires Valid(c, events) && Timely(c, events) && n <= |events|
    requires Retained(StateAt(c, events, n).entries, key, until, behind)
    requires After(c, events).clock < until <= StateAt(c, events, n).clock + c.ttl
    requires behind + Confirmations(events, |events| - n) < c.maxEntries
    ensures Retained(After(c, events).entries, key, until, behind + Confirmations(events, |events| - n))
    decreases |events|
  {
    if n < |events| {
      var prior := Before(events);
      ClockRuns(c, prior, n);
      ClockRuns(c, events, |events| - 1);
      RetainedRun(c, prior, n, key, until, behind);
      RetainedNext(c, events, key, until, behind + Confirmations(prior, |prior| - n));
    }
  }

  lemma RetainedNext(c: Config, events: seq<Event>, key: Digest, until: int, behind: nat)
    requires events != [] && Valid(c, events) && Timely(c, events)
    requires Retained(After(c, Before(events)).entries, key, until, behind)
    requires After(c, events).clock < until <= After(c, Before(events)).clock + c.ttl
    requires Last(events).Reply? && Active(Last(events).reply) ==> behind + 1 < c.maxEntries
    ensures Retained(After(c, events).entries, key, until,
                     behind + if Last(events).Reply? && Active(Last(events).reply) then 1 else 0)
  {
    AlwaysSound(c, Before(events));
    RetainedStep(c, After(c, Before(events)), Last(events), key, until, behind);
  }

  /**
   Retention, whatever overlaps: a decision recorded by the `n`th event with `p` entries behind it is still served,
   without introspection, to any request before its expiry, provided p plus the confirmations since is below the
   capacity.
   */
  lemma RetentionBehind(c: Config, events: seq<Event>, n: nat, token: string)
    requires 0 < n < |events| && Valid(c, events) && Timely(c, events) && c.ttl > 0 && c.url
    requires Valid(c, events[..n]) && Confirms(events[..n], token)
    requires Behind(After(c, events[..n]).entries, Sha256(token)) + Confirmations(Before(events), |events| - 1 - n)
      < c.maxEntries
    requires Last(events).Arrival? && Subject(events) == Some(token)
    requires Last(events).now < events[n - 1].setNow + c.ttl
    ensures OutcomeOf(c, events) == Admitted
  {
    var key, until := Sha256(token), events[n - 1].setNow + c.ttl;
    var behind := Behind(After(c, events[..n]).entries, key);
    RecordedIsRetained(c, events[..n], token);
    PrefixRuns(c, events, n);
    RetainedBefore(c, events, n, key, until, behind);
    ServedIfRetained(c, events, token, until, behind + Confirmations(Before(events), |events| - 1 - n));
  }

  lemma RetainedBefore(c: Config, events: seq<Event>, n: nat, key: Digest, until: int, behind: nat)
    requires 0 < n < |events| && Valid(c, events) && Timely(c, events)
    requires Last(events).Arrival? && Last(events).now < until
    requires Retained(StateAt(c, events, n).entries, key, until, behind) && until <= StateAt(c, events, n).clock + c.ttl
    requires behind + Confirmations(Before(events), |events| - 1 - n) < c.maxEntries
    ensures Retained(After(c, Before(events)).entries, key, until,
                     behind + Confirmations(Before(events), |events| - 1 - n))
  {
    RetainedRun(c, Before(events), n, key, until, behind);
  }

  lemma ServedIfRetained(c: Config, events: seq<Event>, token: string, until: int, behind: int)
    requires events != [] && Valid(c, events) && c.url && c.ttl > 0
    requires Last(events).Arrival? && Subject(events) == Some(token) && Last(events).now < until
    requires Retained(After(c, Before(events)).entries, Sha256(token), until, behind)
    ensures OutcomeOf(c, events) == Admitted
  {
    AlwaysSound(c, Before(events));
    GetRetained(After(c, Before(events)).entries, Sha256(token), until, behind);
  }

  lemma GetRetained(entries: seq<Entry>, key: Digest, until: int, behind: int)
    requires Distinct(entries) && Retained(entries, key, until, behind)
    ensures Get(entries, key).Some? && Get(entries, key).value >= until
  {
    var e :| e in entries && e.key == key && e.expiresAt >= until;
    var i :| 0 <= i < |entries| && entries[i] == e;
    var j :| 0 <= j < |entries| && entries[j] == Entry(key, Get(entries, key).value);
    assert i == j;
  }

  lemma RecordedIsRetained(c: Config, events: seq<Event>, token: string)
    requires events != [] && Valid(c, events) && c.ttl > 0 && Confirms(events, token)
    ensures Retained(After(c, events).entries, Sha256(token), Last(events).setNow + c.ttl,
                     Behind(After(c, events).entries, Sha256(token)))
    ensures After(c, events).clock == Last(events).setNow
  {
    AlwaysSound(c, Before(events));
    AlwaysTracked(c, Before(events));
    var st, event := After(c, Before(events)), Last(events);
    SettleRetains(c, st.entries, token, event.reply, event.evictNow, event.setNow);
  }

  lemma SettleRetains(c: Config, entries: seq<Entry>, token: string, reply: Introspection, evictNow: int, setNow: int)
    requires Distinct(entries) && c.ttl > 0 && Active(reply)
    ensures var next := Settle(c, entries, token, reply, evictNow, setNow).1;
      Retained(next, Sha256(token), setNow + c.ttl, Behind(next, Sha256(token)))
  {
    EvictedExact(entries, c.maxEntries, evictNow);
    var kept := Evicted(entries, c.maxEntries, evictNow);
    PutExact(kept, Sha256(token), setNow + c.ttl, Entry(Sha256(token), setNow + c.ttl));
  }

  /** Without overlap nothing stands behind a fresh decision, so it outlives fewer than capacity confirmations. */
  lemma Retention(c: Config, events: seq<Event>, n: nat, token: string)
    requires 0 < n < |events| && Valid(c, events) && Timely(c, events) && NoOverlap(c, events) && c.ttl > 0 && c.url
    requires Valid(c, events[..n]) && Confirms(events[..n], token)
    requires Confirmations(Before(events), |events| - 1 - n) < c.maxEntries
    requires Last(events).Arrival? && Subject(events) == Some(token)
    requires Last(events).now < events[n - 1].setNow + c.ttl
    ensures OutcomeOf(c, events) == Admitted
  {
    var recorded := events[..n];
    PrefixRuns(c, events, n);
    NoOverlapPrefix(c, events, n);
    NothingBehind(c, recorded, token);
    RetentionBehind(c, events, n, token);
  }

  lemma {:induction false} NoOverlapPrefix(c: Config, events: seq<Event>, n: nat)
    requires Valid(c, events) && NoOverlap(c, events) && n <= |events|
    ensures Valid(c, events[..n]) && NoOverlap(c, events[..n])
    decreases |events|
  {
    if n == |events| {
      assert events[..n] == events;
    } else {
      NoOverlapPrefix(c, Before(events), n);
      assert Before(events)[..n] == events[..n];
    }
  }

  lemma NothingBehind(c: Config, events: seq<Event>, token: string)
    requires events != [] && Valid(c, events) && Timely(c, events) && NoOverlap(c, events)
    requires c.ttl > 0 && Confirms(events, token)
    ensures Behind(After(c, events).entries, Sha256(token)) == 0
  {
    AlwaysSound(c, Before(events));
    AlwaysSound(c, events);
    AlwaysTracked(c, Before(events));
    OrderIsExpiryOrder(c, Before(events));
    var st, event := After(c, Before(events)), Last(events);
    var kept := Evicted(st.entries, c.maxEntries, event.evictNow);
    EvictedHasNot(st.entries, c.maxEntries, event.evictNow, Sha256(token));
    PutNew(kept, Sha256(token), event.setNow + c.ttl);
    BehindAt(After(c, events).entries, |kept|);
  }

  // ---------- Exactly when a request is served from the cache ----------

  /** The step, if it records a decision, spares the one about `token`. */
  predicate SparedBy(c: Config, st: State, event: Event, token: string) {
    event.Reply? && event.reply == Answered(true, true) ==>
      Spares(st.entries, Sha256(token), c.maxEntries, event.evictNow)
  }

  /** Every confirmation since the last one of `token` has spared the decision about it. */
  ghost predicate SparedSince(c: Config, events: seq<Event>, token: string)
    requires Valid(c, events)
  {
    events != [] && !Confirms(events, token) ==>
      SparedSince(c, Before(events), token) && SparedBy(c, After(c, Before(events)), Last(events), token)
  }

  /** Until it expires, a decision is held exactly if it was spared ever since. */
  lemma {:induction false} HeldIffSpared(c: Config, events: seq<Event>, token: string)
    requires Valid(c, events) && Timely(c, events) && c.ttl > 0 && LastConfirmed(events, token).Some?
    requires After(c, events).clock < LastConfirmed(events, token).value + c.ttl
    ensures HasKey(After(c, events).entries, Sha256(token)) <==> SparedSince(c, events, token)
  {
    if Confirms(events, token) {
      ConfirmedIsHeld(c, events, token);
    } else {
      HeldIffSpared(c, Before(events), token);
      HeldNext(c, events, token);
    }
  }

  lemma ConfirmedIsHeld(c: Config, events: seq<Event>, token: string)
    requires events != [] && Valid(c, events) && c.ttl > 0 && Confirms(events, token)
    ensures HasKey(After(c, events).entries, Sha256(token))
  {
    RecordedIsRetained(c, events, token);
  }

  lemma HeldNext(c: Config, events: seq<Event>, token: string)
    requires events != [] && Valid(c, events) && Timely(c, events) && c.ttl > 0 && !Confirms(events, token)
    requires LastConfirmed(events, token).Some?
    requires After(c, events).clock < LastConfirmed(events, token).value + c.ttl
    ensures var st := After(c, Before(events));
      HasKey(After(c, events).entries, Sha256(token)) <==>
        HasKey(st.entries, Sha256(token)) && SparedBy(c, st, Last(events), token)
  {
    AlwaysSound(c, Before(events));
    AlwaysTracked(c, Before(events));
    var st, event := After(c, Before(events)), Last(events);
    HeldUntil(c, Before(events), token);
    match event
    case Arrival(_, header, now) => HeldByArrival(c, st.entries, header, now, token);
    case Reply(guard, reply, _, evictNow, setNow) =>
      if Active(reply) {
        HeldByReply(c, st.entries, st.waiting[guard].token, reply, evictNow, setNow, token);
      }
  }

  /** What the cache holds about `token` expires one window after its last confirmation. */
  lemma HeldUntil(c: Config, events: seq<Event>, token: string)
    requires Valid(c, events) && LastConfirmed(events, token).Some?
    ensures forall e :: e in After(c, events).entries && e.key == Sha256(token) ==>
      e.expiresAt == LastConfirmed(events, token).value + c.ttl
  {
    AlwaysSound(c, events);
  }

  lemma HeldByArrival(c: Config, entries: seq<Entry>, header: Option<string>, now: int, token: string)
    requires Distinct(entries) && forall e :: e in entries && e.key == Sha256(token) ==> e.expiresAt > now
    ensures HasKey(Arrive(c, entries, header, now).1, Sha256(token)) <==> HasKey(entries, Sha256(token))
  {
    var next, key := Arrive(c, entries, header, now).1, Sha256(token);
    if next != entries {
      var other := Sha256(ParseBearerToken(header).value);
      DeleteAll(entries, other);
      KeyOfEntry(entries, other);
      KeyOfEntry(entries, key);
      KeyOfEntry(next, key);
    }
  }

  /** To hold a key is to hold an entry of it. */
  lemma KeyOfEntry(entries: seq<Entry>, key: Digest)
    ensures HasKey(entries, key) <==> exists e :: e in entries && e.key == key
    ensures HasKey(entries, key) ==> Entry(key, Get(entries, key).value) in entries
  {
    if HasKey(entries, key) {
      var i :| 0 <= i < |entries| && entries[i] == Entry(key, Get(entries, key).value);
    }
  }

  lemma HeldByReply(c: Config, entries: seq<Entry>, other: string, reply: Introspection, evictNow: int, setNow: int,
                    token: string)
    requires Distinct(entries) && c.ttl > 0 && Active(reply) && other != token
    requires forall e :: e in entries && e.key == Sha256(token) ==> e.expiresAt > evictNow
    ensures HasKey(Settle(c, entries, other, reply, evictNow, setNow).1, Sha256(token))
      <==> HasKey(entries, Sha256(token)) && Spares(entries, Sha256(token), c.maxEntries, evictNow)
  {
    var kept, key := Evicted(entries, c.maxEntries, evictNow), Sha256(token);
    EvictedExact(entries, c.maxEntries, evictNow);
    HeldByPut(kept, Sha256(other), setNow + c.ttl, key);
    if HasKey(entries, key) {
      KeyOfEntry(entries, key);
      SparedExactly(entries, Entry(key, Get(entries, key).value), c.maxEntries, evictNow);
    } else {
      EvictedHasNot(entries, c.maxEntries, evictNow, key);
    }
  }

  lemma {:induction false} HeldByPut(entries: seq<Entry>, other: Digest, expiresAt: int, key: Digest)
    requires other != key
    ensures HasKey(Put(entries, other, expiresAt), key) <==> HasKey(entries, key)
  {
    if entries != [] && entries[0].key != other {
      HeldByPut(entries[1..], other, expiresAt, key);
      HeldByFront(entries[0], entries[1..], key);
      HeldByFront(entries[0], Put(entries[1..], other, expiresAt), key);
      assert entries == [entries[0]] + entries[1..];
    } else if entries != [] {
      HeldByFront(entries[0], entries[1..], key);
      HeldByFront(Entry(other, expiresAt), entries[1..], key);
      assert entries == [entries[0]] + entries[1..];
    }
  }

  lemma HeldByFront(e: Entry, entries: seq<Entry>, key: Digest)
    ensures HasKey([e] + entries, key) <==> e.key == key || HasKey(entries, key)
  {
    var all := [e] + entries;
    assert all[0] == e && forall i :: 0 <= i < |entries| ==> all[i + 1] == entries[i];
  }

  /**
   In every run, whatever overlaps: a request is admitted without introspection exactly if its token was confirmed less
   than one window ago and every confirmation since, of whichever token, found room for one more entry or fewer than
   capacity - 1 live entries behind this one.
   */
  lemma AdmittedExactly(c: Config, events: seq<Event>, token: string)
    requires events != [] && Valid(c, events) && Timely(c, events) && c.url
    requires Last(events).Arrival? && Subject(events) == Some(token)
    ensures OutcomeOf(c, events) == Admitted <==>
      && c.ttl > 0 && LastConfirmed(Before(events), token).Some?
      && Last(events).now < LastConfirmed(Before(events), token).value + c.ttl
      && SparedSince(c, Before(events), token)
  {
    var prior, now := Before(events), Last(events).now;
    AlwaysSound(c, prior);
    var entries, key := After(c, prior).entries, Sha256(token);
    KeyOfEntry(entries, key);
    if LastConfirmed(prior, token).Some? {
      HeldUntil(c, prior, token);
      if c.ttl > 0 && now < LastConfirmed(prior, token).value + c.ttl {
        HeldIffSpared(c, prior, token);
      }
    }
  }

  /**
   What becomes of any request, from the configuration, its header and the history alone: no endpoint, no token, a
   decision in the cache, or an introspection. With a window of zero or less every token is introspected.
   */
  lemma ArrivalOutcome(c: Config, events: seq<Event>)
    requires events != [] && Valid(c, events) && Timely(c, events) && Last(events).Arrival?
    ensures OutcomeOf(c, events)
         == if !c.url then Misconfigured
            else match ParseBearerToken(Last(events).header)
              case None => Unauthorized
              case Some(token) =>
                var confirmed := LastConfirmed(Before(events), token);
                if && c.ttl > 0 && confirmed.Some? && Last(events).now < confirmed.value + c.ttl
                   && SparedSince(c, Before(events), token)
                then Admitted
                else Introspecting(token)
  {
    if c.url && ParseBearerToken(Last(events).header).Some? {
      AdmittedExactly(c, events, ParseBearerToken(Last(events).header).value);
    }
  }

  // ---------- What overlap breaks ----------

  const YES := Answered(true, true)

  /** A request for `token`, in the form clients send it. */
  function Ask(guard: nat, token: string, now: int): Event {
    Arrival(guard, Some("Bearer" + " " + token), now)
  }

  function Confirm(guard: nat, now: int): Event {
    Reply(guard, YES, now, now, now)
  }

  /** A run on a good clock that leads to `st`. */
  ghost predicate Runs(c: Config, events: seq<Event>, st: State) {
    Valid(c, events) && Timely(c, events) && After(c, events) == st
  }

  /** `run` is `events` and one more step, leading from `st` to `next`. */
  ghost predicate Leads(c: Config, events: seq<Event>, event: Event, run: seq<Event>, next: State)
  {
    run != [] && Before(run) == events && Last(run) == event && Runs(c, run, next)
  }

  lemma OneStep(c: Config, events: seq<Event>, st: State, event: Event) returns (run: seq<Event>)
    requires Runs(c, events, st) && Enabled(st, event) && OnTime(st, event)
    ensures Leads(c, events, event, run, Step(c, st, event).1) && OutcomeOf(c, run) == Step(c, st, event).0
  {
    run := events + [event];
    assert Before(run) == events;
  }

  lemma AskIsRead(guard: nat, token: string, now: int)
    requires token != "" && NoSpace(token)
    ensures ParseBearerToken(Ask(guard, token, now).header) == Some(token)
  {
    assert FoldAll("Bearer") == "bearer";
    TokenIsRead("bearer", "Bearer", token);
  }

  /** A request for an uncached token starts an introspection. */
  lemma AskStep(c: Config, st: State, guard: nat, token: string, now: int)
    requires c.url && c.ttl > 0 && token != "" && NoSpace(token)
    requires guard !in st.seen && st.clock <= now && !HasKey(st.entries, Sha256(token))
    ensures Enabled(st, Ask(guard, token, now)) && OnTime(st, Ask(guard, token, now))
    ensures Step(c, st, Ask(guard, token, now)) ==
      (Introspecting(token), State(st.entries, st.waiting[guard := Waiting(token, now)], st.seen + {guard}, now))
  {
    AskIsRead(guard, token, now);
  }

  /** What a confirmation leaves when `kept` is left by the eviction and does not hold the token. */
  lemma ConfirmStep(c: Config, st: State, guard: nat, now: int, kept: seq<Entry>)
    requires c.ttl > 0 && guard in st.waiting && st.waiting[guard].since <= now && st.clock <= now
    requires Evicted(st.entries, c.maxEntries, now) == kept && !HasKey(kept, Sha256(st.waiting[guard].token))
    ensures Enabled(st, Confirm(guard, now)) && OnTime(st, Confirm(guard, now))
    ensures Step(c, st, Confirm(guard, now)).1 ==
      State(kept + [Entry(Sha256(st.waiting[guard].token), now + c.ttl)], st.waiting - {guard}, st.seen, now)
  {
    PutNew(kept, Sha256(st.waiting[guard].token), now + c.ttl);
  }

  /** `run` goes on from `events` with one request and its confirmation. */
  ghost predicate OneRoundOn(events: seq<Event>, run: seq<Event>) {
    |run| == |events| + 2 && Before(Before(run)) == events && Last(Before(run)).Arrival? && Last(run).Reply?
  }

  /** A round for a new token goes behind what the eviction leaves. */
  lemma NewRound(c: Config, events: seq<Event>, st: State, guard: nat, token: string, kept: seq<Entry>)
    returns (run: seq<Event>, next: State)
    requires Runs(c, events, st) && c.url && c.ttl > 0 && token != "" && NoSpace(token)
    requires guard !in st.seen && guard !in st.waiting
    requires !HasKey(st.entries, Sha256(token)) && !HasKey(kept, Sha256(token))
    requires Evicted(st.entries, c.maxEntries, st.clock) == kept
    ensures next == State(kept + [Entry(Sha256(token), st.clock + c.ttl)], st.waiting, st.seen + {guard}, st.clock)
    ensures Runs(c, run, next) && OneRoundOn(events, run)
  {
    AskStep(c, st, guard, token, st.clock);
    var asked := OneStep(c, events, st, Ask(guard, token, st.clock));
    var mid := Step(c, st, Ask(guard, token, st.clock)).1;
    ConfirmStep(c, mid, guard, st.clock, kept);
    run := OneStep(c, asked, mid, Confirm(guard, st.clock));
    next := Step(c, mid, Confirm(guard, st.clock)).1;
    assert st.waiting[guard := Waiting(token, st.clock)] - {guard} == st.waiting;
  }

  /** Two guards ask about "a" before either is answered; the first answer is recorded. */
  lemma TwoAsk(c: Config) returns (run: seq<Event>, st: State)
    requires c == Config(true, 100, 3)
    ensures Runs(c, run, st)
    ensures st == State([Entry(Sha256("a"), 100)], map[1 := Waiting("a", 0)], {0, 1}, 0)
  {
    AskStep(c, INITIAL, 0, "a", 0);
    run := OneStep(c, [], INITIAL, Ask(0, "a", 0));
    st := State([], map[0 := Waiting("a", 0)], {0}, 0);
    AskStep(c, st, 1, "a", 0);
    run := OneStep(c, run, st, Ask(1, "a", 0));
    st := State([], map[0 := Waiting("a", 0), 1 := Waiting("a", 0)], {0, 1}, 0);
    ConfirmStep(c, st, 0, 0, []);
    run := OneStep(c, run, st, Confirm(0, 0));
    st := State([Entry(Sha256("a"), 100)], map[1 := Waiting("a", 0)], {0, 1}, 0);
  }

  /** With "b" recorded in between, the second answer about "a" is recorded in the place of the first. */
  lemma OverlappingRun(c: Config) returns (events: seq<Event>)
    requires c == Config(true, 100, 3)
    ensures events != [] && Last(events) == Confirm(1, 10) && Confirms(events, "a")
    ensures Runs(c, events, State([Entry(Sha256("a"), 110), Entry(Sha256("b"), 100)], map[], {0, 1, 2}, 10))
  {
    var run, st := TwoAsk(c);
    run, st := NewRound(c, run, st, 2, "b", [Entry(Sha256("a"), 100)]);
    assert st == State([Entry(Sha256("a"), 100), Entry(Sha256("b"), 100)], map[1 := Waiting("a", 0)], {0, 1, 2}, 0);
    AlwaysTracked(c, run);
    events := OneStep(c, run, st, Confirm(1, 10));
    Overwrite(c, st);
  }

  lemma Overwrite(c: Config, st: State)
    requires c == Config(true, 100, 3)
    requires st == State([Entry(Sha256("a"), 100), Entry(Sha256("b"), 100)], map[1 := Waiting("a", 0)], {0, 1, 2}, 0)
    ensures Step(c, st, Confirm(1, 10)).1
         == State([Entry(Sha256("a"), 110), Entry(Sha256("b"), 100)], map[], {0, 1, 2}, 10)
  {
    PutInPlace(st.entries, Sha256("a"), 110, 0);
    assert map[1 := Waiting("a", 0)] - {1} == map[];
  }

  /**
   So with overlap neither promise holds: the map is out of order, and after two more confirmations, fewer than the
   capacity, "a" is asked about again although its decision is still good.
   */
  lemma OverlapLosesDecision() returns (c: Config, events: seq<Event>, n: nat)
    ensures 0 < n < |events| && Valid(c, events) && Timely(c, events) && c.ttl > 0 && c.url
    ensures Valid(c, events[..n]) && Confirms(events[..n], "a")
    ensures Confirmations(Before(events), |events| - 1 - n) < c.maxEntries
    ensures Last(events).Arrival? && Subject(events) == Some("a")
    ensures Last(events).now < events[n - 1].setNow + c.ttl
    ensures OutcomeOf(c, events) == Introspecting("a")
    ensures !ByExpiry(After(c, events[..n]).entries)
  {
    c := Config(true, 100, 3);
    var recorded := OverlappingRun(c);
    n := |recorded|;
    assert After(c, recorded).entries[0].expiresAt > After(c, recorded).entries[1].expiresAt;
    var third, fourth, st := PushOut(c, recorded);
    CountTwoRounds(recorded, third, fourth);
    events := AskAgain(c, fourth, st);
    assert events[..n] == fourth[..n] == recorded && events[n - 1] == recorded[n - 1];
  }

  lemma AskAgain(c: Config, events: seq<Event>, st: State) returns (run: seq<Event>)
    requires c.url && c.ttl > 0 && Runs(c, events, st)
    requires 5 !in st.seen && st.clock == 10 && !HasKey(st.entries, Sha256("a"))
    ensures run == events + [Ask(5, "a", 10)] && Before(run) == events
    ensures Valid(c, run) && Timely(c, run) && Subject(run) == Some("a") && OutcomeOf(c, run) == Introspecting("a")
  {
    AskIsRead(5, "a", 10);
    AskStep(c, st, 5, "a", 10);
    run := OneStep(c, events, st, Ask(5, "a", 10));
  }

  /** Two more tokens push "a" out of the run above: one fills the map, the next evicts the oldest. */
  lemma PushOut(c: Config, recorded: seq<Event>) returns (third: seq<Event>, fourth: seq<Event>, st: State)
    requires c == Config(true, 100, 3)
    requires Runs(c, recorded, State([Entry(Sha256("a"), 110), Entry(Sha256("b"), 100)], map[], {0, 1, 2}, 10))
    ensures OneRoundOn(recorded, third) && OneRoundOn(third, fourth) && Runs(c, fourth, st)
    ensures 5 !in st.seen && st.clock == 10 && !HasKey(st.entries, Sha256("a"))
  {
    third, st := NewRound(c, recorded, After(c, recorded), 3, "c", [Entry(Sha256("a"), 110), Entry(Sha256("b"), 100)]);
    fourth, st := PushOldest(c, third, st);
  }

  lemma PushOldest(c: Config, events: seq<Event>, st: State) returns (run: seq<Event>, next: State)
    requires c.url && c.ttl > 0 && Runs(c, events, st) && st.waiting == map[]
    requires 4 !in st.seen && 5 !in st.seen && st.clock == 10 && c.maxEntries == 3
    requires st.entries == [Entry(Sha256("a"), 110), Entry(Sha256("b"), 100), Entry(Sha256("c"), 110)]
    ensures OneRoundOn(events, run) && Runs(c, run, next)
    ensures 5 !in next.seen && next.clock == 10 && !HasKey(next.entries, Sha256("a"))
  {
    EvictedLive(st.entries, 3, 10);
    run, next := NewRound(c, events, st, 4, "d", [Entry(Sha256("b"), 100), Entry(Sha256("c"), 110)]);
  }

  lemma CountTwoRounds(events: seq<Event>, third: seq<Event>, fourth: seq<Event>)
    requires OneRoundOn(events, third) && OneRoundOn(third, fourth)
    ensures |fourth| == |events| + 4 && fourth[..|events|] == events && Confirmations(fourth, 4) <= 2
  {
    var one, three := Before(third), Before(fourth);
    assert fourth[..|events|] == three[..|events|] == third[..|events|] == one[..|events|] == events;
    assert Confirmations(events, 0) == 0;
    assert Confirmations(one, 1) == 0;
    assert Confirmations(third, 2) <= 1;
    assert Confirmations(three, 3) <= 1;
  }
}
