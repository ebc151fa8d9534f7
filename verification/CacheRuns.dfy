/**
 Whole runs of the cached gateway. Requests interleave at every wait: the lookup, the upstream, each chunk of the
 body and the write to the store, any of which may fail. Beside it stands the gateway without a cache.
 */
module CacheRuns {
  import opened Prelude
  import opened Http
  import opened Tee
  import opened CachePolicy
  import opened ResponseCache

  /** A request to a cacheable service; `own` are the reply fields the gateway sets by itself. */
  datatype Visit = Visit(service: string, request: Request, own: Headers)

  datatype Payload = InMemory(octets: seq<byte>) | Streamed | Other

  datatype Event =
    | Arrival(id: nat, visit: Visit)
    | GetRuns(id: nat, at: int)                             // the store executes the lookup
    | GetReplies(id: nat)                                   // its answer wins the race against the timer
    | GetFails(id: nat)                                     // closed client, rejected command or timeout
    | HeadArrives(id: nat, head: Head, payload: Payload)    // the upstream (or the gateway itself) answers
    | ChunkArrives(id: nat, chunk: Chunk)
    | StreamEnds(id: nat, clean: bool)
    | SetRuns(id: nat, at: int)                             // the store executes the write
    | SetFails(id: nat)
    | EntryLost(key: CacheKey)                              // eviction, restart, flush

  /** What the client has received. */
  datatype Reply = Reply(head: Head, body: seq<byte>, complete: bool)

  datatype Phase =
    | Looking(key: CacheKey)
    | Fetched(key: CacheKey, raw: Option<Cached>)
    | Proxying(storeKey: Option<CacheKey>)
    | Streaming(capture: Option<Plan>, tally: Tally)
    | Writing(plan: Plan, body: seq<byte>)
    | Over

  datatype Session = Session(visit: Visit, phase: Phase, reply: Option<Reply>, hit: bool)

  /** A value in the store; it is not returned at or after its deadline. */
  datatype Stored = Stored(entry: Cached, deadline: int)

  /** A write that ran: on behalf of which request, with what, when. */
  datatype Write = Write(id: nat, plan: Plan, body: seq<byte>, at: int)

  datatype State = State(store: map<CacheKey, Stored>, sessions: map<nat, Session>, writes: seq<Write>)

  const INITIAL := State(map[], map[], [])

  function Read(store: map<CacheKey, Stored>, key: CacheKey, at: int): Option<Cached> {
    if key in store && at < store[key].deadline then Some(store[key].entry) else None
  }

  predicate Allowed(s: Session, event: Event) {
    var phase := s.phase;
    match event
    case GetRuns(_, _) => phase.Looking?
    case GetReplies(_) => phase.Fetched?
    case GetFails(_) => phase.Looking? || phase.Fetched?
    case HeadArrives(_, _, _) => phase.Proxying?
    case ChunkArrives(_, _) => phase.Streaming? && s.reply.Some?
    case StreamEnds(_, _) => phase.Streaming? && s.reply.Some?
    case SetRuns(_, _) => phase.Writing?
    case SetFails(_) => phase.Writing?
    case _ => false
  }

  predicate Enabled(st: State, event: Event) {
    match event
    case Arrival(id, visit) => id !in st.sessions && WellFormed(visit.request)
    case EntryLost(_) => true
    case _ => event.id in st.sessions && Allowed(st.sessions[event.id], event)
  }

  function Opened(visit: Visit): Session {
    var admission := Admit(visit.service, visit.request);
    Session(visit, if admission.Lookup? then Looking(admission.key) else Proxying(AdmittedKey(admission)), None, false)
  }

  /** The store hook on a response head: what the client is sent and what remains to be done. */
  function SendHead(c: Config, key: Option<CacheKey>, head: Head, payload: Payload): (Reply, Phase) {
    var plan := PlanFor(c, key, head);
    var sent := Head(head.status, Marked(key, head.headers));
    match payload
    case InMemory(octets) =>
      (Reply(sent, octets, true),
       if plan.Some? && Buffered(c.maxBodyBytes, octets).Some? then Writing(plan.value, octets) else Over)
    case Streamed => (Reply(sent, [], false), Streaming(plan, EMPTY))
    case Other => (Reply(sent, [], true), Over)
  }

  /** One step of one request. */
  function Advance(c: Config, store: map<CacheKey, Stored>, s: Session, event: Event): Session
    requires Allowed(s, event)
  {
    match event
    case GetRuns(_, at) => s.(phase := Fetched(s.phase.key, Read(store, s.phase.key, at)))
    case GetFails(_) => s.(phase := Proxying(Some(s.phase.key)))
    case GetReplies(_) =>
      if s.phase.raw.None? then s.(phase := Proxying(Some(s.phase.key)))
      else
        // The key is forgotten, then the reply passes through the store hook like any other.
        var (head, body) := Replay(s.visit.own, s.phase.raw.value);
        var (reply, phase) := SendHead(c, None, head, InMemory(body));
        s.(phase := phase, reply := Some(reply), hit := true)
    case HeadArrives(_, head, payload) =>
      var (reply, phase) := SendHead(c, s.phase.storeKey, head, payload);
      s.(phase := phase, reply := Some(reply))
    case ChunkArrives(_, chunk) =>
      var octets := Bytes(chunk);
      var tally := if s.phase.capture.None? then s.phase.tally else Observe(c.maxBodyBytes, s.phase.tally, octets);
      s.(phase := Streaming(s.phase.capture, tally),
         reply := Some(s.reply.value.(body := s.reply.value.body + octets)))
    case StreamEnds(_, clean) =>
      var stored := if s.phase.capture.None? then None else Finished(s.phase.tally, clean);
      s.(phase := if stored.Some? then Writing(s.phase.capture.value, stored.value) else Over,
         reply := Some(s.reply.value.(complete := clean)))
    case _ => s.(phase := Over)
  }

  /** The store after the write of `plan` with `body`. */
  function Put(store: map<CacheKey, Stored>, plan: Plan, body: seq<byte>, at: int): map<CacheKey, Stored> {
    store[plan.key := Stored(EntryOf(plan, body), at + plan.ttlMs)]
  }

  function Step(c: Config, st: State, event: Event): State
    requires Enabled(st, event)
  {
    match event
    case Arrival(id, visit) => st.(sessions := st.sessions[id := Opened(visit)])
    case EntryLost(key) => st.(store := st.store - {key})
    case SetRuns(id, at) =>
      var s := st.sessions[id];
      State(Put(st.store, s.phase.plan, s.phase.body, at),
            st.sessions[id := Advance(c, st.store, s, event)],
            st.writes + [Write(id, s.phase.plan, s.phase.body, at)])
    case _ => st.(sessions := st.sessions[event.id := Advance(c, st.store, st.sessions[event.id], event)])
  }

  // ---------- The gateway without a cache ----------

  function PlainStep(reply: Option<Reply>, event: Event): Option<Reply> {
    match event
    case HeadArrives(_, head, payload) =>
      Some(Reply(head, if payload.InMemory? then payload.octets else [], !payload.Streamed?))
    case ChunkArrives(_, chunk) =>
      if reply.None? then None else Some(reply.value.(body := reply.value.body + Bytes(chunk)))
    case StreamEnds(_, clean) =>
      if reply.None? then None else Some(reply.value.(complete := clean))
    case _ => reply
  }

  predicate Concerns(event: Event, id: nat) {
    !event.EntryLost? && event.id == id
  }

  /** What a gateway without a cache would have sent for `id`, given the same upstream. */
  function Plain(events: seq<Event>, id: nat): Option<Reply> {
    if events == [] then None
    else if Concerns(Last(events), id) then PlainStep(Plain(Before(events), id), Last(events))
    else Plain(Before(events), id)
  }

  // ---------- One request, with and without the cache ----------

  /** The key a request may be stored under. */
  function KeyFor(visit: Visit): Option<CacheKey> {
    AdmittedKey(Admit(visit.service, visit.request))
  }

  /** The reply of the plain gateway plus, when the request has a key, the mark. */
  function WithMark(key: Option<CacheKey>, plain: Reply): Reply {
    plain.(head := Head(plain.head.status, Marked(key, plain.head.headers)))
  }

  /** The same reply as without the cache. */
  ghost predicate SameAsPlain(s: Session, plain: Option<Reply>) {
    plain.Some? && s.reply == Some(WithMark(KeyFor(s.visit), plain.value)) && !s.hit
  }

  /** What a pending or finished write carries: the whole of a complete, storable reply. */
  ghost predicate Storable(c: Config, visit: Visit, plan: Plan, body: seq<byte>, plain: Option<Reply>) {
    && plain.Some? && plain.value.complete && body == plain.value.body
    && Some(plan) == PlanFor(c, KeyFor(visit), plain.value.head)
    && |body| <= if c.maxBodyBytes < 0 then 0 else c.maxBodyBytes
  }

  ghost predicate Unanswered(s: Session, plain: Option<Reply>) {
    s.reply.None? && plain.None? && !s.hit
  }

  ghost predicate SessionOk(c: Config, s: Session, plain: Option<Reply>) {
    match s.phase
    case Looking(key) => Unanswered(s, plain) && Admit(s.visit.service, s.visit.request) == Lookup(key)
    case Fetched(key, _) => Unanswered(s, plain) && Admit(s.visit.service, s.visit.request) == Lookup(key)
    case Proxying(key) => Unanswered(s, plain) && key == KeyFor(s.visit)
    case Streaming(plan, tally) =>
      && SameAsPlain(s, plain)
      && plan == PlanFor(c, KeyFor(s.visit), plain.value.head)
      && (plan.Some? ==> Tracks(c.maxBodyBytes, tally, plain.value.body))
    case Writing(plan, body) => SameAsPlain(s, plain) && Storable(c, s.visit, plan, body, plain)
    case Over =>
      || SameAsPlain(s, plain)
      || (s.hit && plain.None? && s.reply.Some? && Admit(s.visit.service, s.visit.request).Lookup?)
  }

  /** Every step keeps a request in line with the plain gateway. */
  lemma AdvanceOk(c: Config, store: map<CacheKey, Stored>, s: Session, plain: Option<Reply>, event: Event)
    requires SessionOk(c, s, plain) && Allowed(s, event)
    ensures SessionOk(c, Advance(c, store, s, event), PlainStep(plain, event))
  {
    match event
    case ChunkArrives(_, chunk) =>
      if s.phase.capture.Some? {
        ObserveTracks(c.maxBodyBytes, s.phase.tally, plain.value.body, Bytes(chunk));
      }
    case StreamEnds(_, clean) =>
      if s.phase.capture.Some? {
        StoredExactly(c.maxBodyBytes, s.phase.tally, plain.value.body, clean);
      }
    case _ =>
  }

  // ---------- Runs ----------

  ghost predicate Valid(c: Config, events: seq<Event>)
    decreases |events|, 0
  {
    events != [] ==> Valid(c, Before(events)) && Enabled(After(c, Before(events)), Last(events))
  }

  function After(c: Config, events: seq<Event>): State
    requires Valid(c, events)
    decreases |events|, 1
  {
    if events == [] then INITIAL else Step(c, After(c, Before(events)), Last(events))
  }

  /** The last write that ran for `key`. */
  function LastWrite(writes: seq<Write>, key: CacheKey): Option<Write> {
    if writes == [] then None
    else if writes[|writes| - 1].plan.key == key then Some(writes[|writes| - 1])
    else LastWrite(writes[..|writes| - 1], key)
  }

  /** Whatever the store holds is what the last write for its key put there, until that write's deadline. */
  ghost predicate StoreOk(st: State) {
    forall key :: key in st.store ==>
      var w := LastWrite(st.writes, key);
      w.Some? && st.store[key] == Stored(EntryOf(w.value.plan, w.value.body), w.value.at + w.value.plan.ttlMs)
  }

  ghost predicate SessionsOk(c: Config, events: seq<Event>)
    requires Valid(c, events)
  {
    var st := After(c, events);
    && (forall id :: id in st.sessions ==>
          SessionOk(c, st.sessions[id], Plain(events, id)) && WellFormed(st.sessions[id].visit.request))
    && (forall id :: id !in st.sessions ==> Plain(events, id).None?)
  }

  /** Every write stands for a finished, storable reply of a request that was not a hit. */
  ghost predicate WriteOk(c: Config, events: seq<Event>, w: Write)
    requires Valid(c, events)
  {
    var st := After(c, events);
    && w.id in st.sessions && st.sessions[w.id].phase.Over? && !st.sessions[w.id].hit
    && Storable(c, st.sessions[w.id].visit, w.plan, w.body, Plain(events, w.id))
  }

  lemma {:induction false} AlwaysSessions(c: Config, events: seq<Event>)
    requires Valid(c, events)
    ensures SessionsOk(c, events)
  {
    if events != [] {
      AlwaysSessions(c, Before(events));
      forall id: nat
        ensures id in After(c, events).sessions ==>
          var s := After(c, events).sessions[id];
          SessionOk(c, s, Plain(events, id)) && WellFormed(s.visit.request)
        ensures id !in After(c, events).sessions ==> Plain(events, id).None?
      {
        SessionKept(c, events, id);
      }
    }
  }

  lemma SessionKept(c: Config, events: seq<Event>, id: nat)
    requires events != [] && Valid(c, events) && SessionsOk(c, Before(events))
    ensures id in After(c, events).sessions ==>
      var s := After(c, events).sessions[id];
      SessionOk(c, s, Plain(events, id)) && WellFormed(s.visit.request)
    ensures id !in After(c, events).sessions ==> Plain(events, id).None?
  {
    var st, event := After(c, Before(events)), Last(events);
    if Concerns(event, id) && !event.Arrival? {
      AdvanceOk(c, st.store, st.sessions[id], Plain(Before(events), id), event);
    }
  }

  lemma StoreStep(c: Config, st: State, event: Event)
    requires Enabled(st, event) && StoreOk(st)
    ensures StoreOk(Step(c, st, event))
  {
    if event.SetRuns? {
      var s, next := st.sessions[event.id], Step(c, st, event);
      assert next.writes[..|next.writes| - 1] == st.writes;
    }
  }

  lemma {:induction false} AlwaysStore(c: Config, events: seq<Event>)
    requires Valid(c, events)
    ensures StoreOk(After(c, events))
  {
    if events != [] {
      AlwaysStore(c, Before(events));
      StoreStep(c, After(c, Before(events)), Last(events));
    }
  }

  /** A step neither touches a finished request nor takes back a write. */
  lemma WriteStep(c: Config, st: State, event: Event, w: Write)
    requires Enabled(st, event) && w in Step(c, st, event).writes
    ensures w in st.writes
      || (event.SetRuns? && var writing := st.sessions[event.id].phase;
          w == Write(event.id, writing.plan, writing.body, event.at))
    ensures forall id :: id in st.sessions && st.sessions[id].phase.Over? ==>
      !Concerns(event, id) && id in Step(c, st, event).sessions && Step(c, st, event).sessions[id] == st.sessions[id]
  {}

  lemma {:induction false} AlwaysWrites(c: Config, events: seq<Event>)
    requires Valid(c, events)
    ensures forall w :: w in After(c, events).writes ==> WriteOk(c, events, w)
  {
    if events != [] {
      AlwaysWrites(c, Before(events));
      AlwaysSessions(c, Before(events));
      forall w | w in After(c, events).writes
        ensures WriteOk(c, events, w)
      {
        WriteStep(c, After(c, Before(events)), Last(events), w);
        if w in After(c, Before(events)).writes {
          assert WriteOk(c, Before(events), w);
        }
      }
    }
  }

  ghost predicate OneEach(st: State) {
    forall i, j :: 0 <= i < j < |st.writes| ==> st.writes[i].id != st.writes[j].id
  }

  /** The requests that wrote are finished. */
  ghost predicate WritersOver(st: State) {
    forall i :: 0 <= i < |st.writes| ==>
      st.writes[i].id in st.sessions && st.sessions[st.writes[i].id].phase.Over?
  }

  /** No request's body is written twice. */
  lemma {:induction false} OneWriteEach(c: Config, events: seq<Event>)
    requires Valid(c, events)
    ensures OneEach(After(c, events))
  {
    if events != [] {
      OneWriteEach(c, Before(events));
      WritersAreOver(c, Before(events));
      OneEachStep(c, After(c, Before(events)), Last(events));
    }
  }

  lemma OneEachStep(c: Config, st: State, event: Event)
    requires Enabled(st, event) && OneEach(st) && WritersOver(st)
    ensures OneEach(Step(c, st, event))
  {
    if event.SetRuns? {
      assert forall i :: 0 <= i < |st.writes| ==> st.writes[i].id != event.id;
    }
  }

  lemma WritersAreOver(c: Config, events: seq<Event>)
    requires Valid(c, events)
    ensures WritersOver(After(c, events))
  {
    AlwaysWrites(c, events);
    var st := After(c, events);
    forall i | 0 <= i < |st.writes|
      ensures st.writes[i].id in st.sessions && st.sessions[st.writes[i].id].phase.Over?
    {
      assert WriteOk(c, events, st.writes[i]);
    }
  }

  // ---------- What the upstream sent ----------

  /** The octets that an event brings for `id`. */
  function Brought(event: Event, id: nat): seq<byte> {
    match event
    case HeadArrives(i, _, InMemory(octets)) => if i == id then octets else []
    case ChunkArrives(i, chunk) => if i == id then Bytes(chunk) else []
    case _ => []
  }

  function Received(events: seq<Event>, id: nat): seq<byte> {
    if events == [] then [] else Received(Before(events), id) + Brought(Last(events), id)
  }

  ghost predicate HeadCame(events: seq<Event>, id: nat, head: Head) {
    exists payload :: HeadArrives(id, head, payload) in events
  }

  /** The gateway without a cache sends on the head that arrived and every octet behind it, in order. */
  lemma {:induction false} PlainIsUpstream(c: Config, events: seq<Event>, id: nat)
    requires Valid(c, events)
    ensures var plain := Plain(events, id);
      && Received(events, id) == (if plain.Some? then plain.value.body else [])
      && (plain.Some? ==> HeadCame(events, id, plain.value.head))
  {
    if events != [] {
      PlainIsUpstream(c, Before(events), id);
      PlainStepBrings(c, events, id);
      HeadStays(events, id);
    }
  }

  /** A step adds what it brought to the body, and only a head makes a reply where there was none. */
  lemma PlainStepBrings(c: Config, events: seq<Event>, id: nat)
    requires events != [] && Valid(c, events)
    ensures var (prior, plain, event) := (Plain(Before(events), id), Plain(events, id), Last(events));
      && (prior.Some? ==>
            && plain.Some? && plain.value.head == prior.value.head
            && plain.value.body == prior.value.body + Brought(event, id))
      && (prior.None? && plain.None? ==> Brought(event, id) == [])
      && (prior.None? && plain.Some? ==>
            && event.HeadArrives? && event.id == id && plain.value.head == event.head
            && plain.value.body == Brought(event, id))
  {
    AlwaysSessions(c, Before(events));
  }

  lemma HeadStays(events: seq<Event>, id: nat)
    requires events != []
    ensures forall head :: HeadCame(Before(events), id, head) ==> HeadCame(events, id, head)
    ensures Last(events).HeadArrives? && Last(events).id == id ==> HeadCame(events, id, Last(events).head)
  {
    assert events == Before(events) + [Last(events)];
    if Last(events).HeadArrives? && Last(events).id == id {
      assert HeadArrives(id, Last(events).head, Last(events).payload) in events;
    }
  }

  /** The store may fail whenever it is used: every lookup, before and after it ran, every write, every entry. */
  lemma StoreMayFail(c: Config, st: State, id: nat, at: int, key: CacheKey)
    ensures Enabled(st, GetRuns(id, at)) || Enabled(st, GetReplies(id)) ==>
      && Enabled(st, GetFails(id))
      && Step(c, st, GetFails(id)).sessions[id].phase == Proxying(Some(st.sessions[id].phase.key))
    ensures Enabled(st, SetRuns(id, at)) ==>
      Enabled(st, SetFails(id)) && Step(c, st, SetFails(id)).store == st.store
    ensures Enabled(st, EntryLost(key)) && Step(c, st, EntryLost(key)).store == st.store - {key}
  {}
}
