/** What the cache promises over whole runs: transparency, freshness, and failing open. */
module CacheTransparency {
  import opened Prelude
  import opened Text
  import opened Http
  import opened CachePolicy
  import opened CacheDirectives
  import opened ResponseCache
  import opened CacheRuns
  import Tee

  // ---------- Where a hit comes from ----------

  lemma {:induction false} FetchedFrom(c: Config, events: seq<Event>, id: nat) returns (i: nat)
    requires Valid(c, events) && id in After(c, events).sessions && After(c, events).sessions[id].phase.Fetched?
    ensures i < |events| && events[i].GetRuns? && events[i].id == id && Valid(c, events[..i])
    ensures var phase := After(c, events).sessions[id].phase;
      phase.raw == Read(After(c, events[..i]).store, phase.key, events[i].at)
  {
    if Last(events) == GetRuns(id, if Last(events).GetRuns? then Last(events).at else 0) {
      i := |events| - 1;
    } else {
      i := FetchedFrom(c, Before(events), id);
      assert Before(events)[..i] == events[..i];
    }
  }

  lemma {:induction false} WritesGrow(c: Config, events: seq<Event>, i: nat)
    requires Valid(c, events) && i <= |events| && Valid(c, events[..i])
    ensures After(c, events[..i]).writes <= After(c, events).writes
    decreases |events|
  {
    if i == |events| {
      assert events[..i] == events;
    } else {
      assert Before(events)[..i] == events[..i];
      WritesGrow(c, Before(events), i);
    }
  }

  lemma {:induction false} LastWriteIn(writes: seq<Write>, key: CacheKey)
    ensures LastWrite(writes, key).Some? ==>
      LastWrite(writes, key).value in writes && LastWrite(writes, key).value.plan.key == key
  {
    if writes != [] {
      LastWriteIn(writes[..|writes| - 1], key);
    }
  }

  lemma {:induction false} PrefixValid(c: Config, events: seq<Event>, i: nat)
    requires Valid(c, events) && i <= |events|
    ensures Valid(c, events[..i])
    decreases |events|
  {
    if i == |events| {
      assert events[..i] == events;
    } else {
      PrefixValid(c, Before(events), i);
      assert Before(events)[..i] == events[..i];
    }
  }

  /** The last write for `key` among the first `i` events. */
  function WriteBefore(c: Config, events: seq<Event>, i: nat, key: CacheKey): Option<Write>
    requires Valid(c, events) && i <= |events|
  {
    PrefixValid(c, events, i);
    LastWrite(After(c, events[..i]).writes, key)
  }

  /** Two visits the cache may answer with the same entry. */
  predicate SameResource(v: Visit, v': Visit) {
    && v.service == v'.service && v.request.url == v'.request.url
    && Field(v.request.headers, "accept") == Field(v'.request.headers, "accept")
    && Field(v.request.headers, "accept-encoding") == Field(v'.request.headers, "accept-encoding")
  }

  predicate Uncredentialed(v: Visit) {
    Anonymous(v.request)
  }

  predicate Anonymous(r: Request) {
    r.verb == "GET" && !Bears(r, "authorization") && !Bears(r, "cookie")
  }

  /** The fields of an answer that a hit repeats: those of the stored names that are texts. */
  predicate IsKept(answer: Reply, name: string) {
    name in REPEATED && TextField(answer.head.headers, name).Some?
  }

  /**
   `reply` repeats status, stored fields and body of `answer`; every other field but the mark is the gateway's own,
   or absent.
   */
  ghost predicate Repeats(own: Headers, reply: Reply, answer: Reply) {
    && reply.head.status == answer.head.status && reply.body == answer.body && reply.complete
    && (forall name :: IsKept(answer, name) ==>
          TextField(reply.head.headers, name) == TextField(answer.head.headers, name))
    && (forall name :: !IsKept(answer, name) && name != "x-cache" ==>
          (name in reply.head.headers <==> name in own) && (name in own ==> reply.head.headers[name] == own[name]))
    && TextField(reply.head.headers, "x-cache") == Some("HIT")
  }

  /**
   Every hit, however requests and failures interleave: its lookup, the `i`th event, ran before the deadline of the
   last write `w` for its key, and the client gets what `w` kept.
   */
  lemma HitComesFromLastWrite(c: Config, events: seq<Event>) returns (i: nat, w: Write)
    requires events != [] && Valid(c, events) && Last(events).GetReplies?
    requires After(c, events).sessions[Last(events).id].hit
    ensures var s := After(c, events).sessions[Last(events).id];
      && i < |events| - 1 && events[i].GetRuns? && events[i].id == Last(events).id
      && WriteBefore(c, events, i, KeyOf(s.visit.service, s.visit.request)) == Some(w)
      && events[i].at < w.at + w.plan.ttlMs && w in After(c, events).writes
      && w.plan.key == KeyOf(s.visit.service, s.visit.request)
      && WellFormed(s.visit.request) && Uncredentialed(s.visit)
      && s.reply == Some(var (head, body) := Replay(s.visit.own, EntryOf(w.plan, w.body)); Reply(head, body, true))
  {
    var id, prior := Last(events).id, Before(events);
    AlwaysSessions(c, prior);
    i := FetchedFrom(c, prior, id);
    assert prior[..i] == events[..i];
    var earlier := After(c, events[..i]);
    var key := After(c, prior).sessions[id].phase.key;
    AlwaysStore(c, events[..i]);
    w := LastWrite(earlier.writes, key).value;
    LastWriteIn(earlier.writes, key);
    WritesGrow(c, prior, i);
    assert w in After(c, prior).writes;
  }

  /**
   Transparency: a hit repeats, byte for byte, the complete 200 answer that an uncredentialed GET for the same
   service, URL, Accept and Accept-Encoding got, and that answer was one the rules allow to be stored.
   */
  lemma HitRepeatsAnswer(c: Config, events: seq<Event>) returns (i: nat, w: Write)
    requires events != [] && Valid(c, events) && Last(events).GetReplies?
    requires After(c, events).sessions[Last(events).id].hit
    ensures i < |events| - 1 && events[i].GetRuns? && events[i].id == Last(events).id
    ensures var st := After(c, events);
      var s := st.sessions[Last(events).id];
      && w in st.writes && w.id in st.sessions && s.reply.Some? && Plain(events, w.id).Some?
      && WriteBefore(c, events, i, KeyOf(s.visit.service, s.visit.request)) == Some(w)
      && events[i].at < w.at + w.plan.ttlMs
    ensures var st := After(c, events);
      var s, source, answer := st.sessions[Last(events).id], st.sessions[w.id].visit, Plain(events, w.id).value;
      && SameResource(source, s.visit) && Uncredentialed(source) && Uncredentialed(s.visit)
      && answer.complete && answer.head.status == 200 && VaryIsKeyed(answer.head.headers)
      && WellFormed(s.visit.request) && w.plan.key == KeyOf(s.visit.service, s.visit.request)
      && w.plan.ttlMs == ResolveTtlMs(c, answer.head.headers) > 0
      && Repeats(s.visit.own, s.reply.value, answer)
  {
    i, w := HitComesFromLastWrite(c, events);
    var s := After(c, events).sessions[Last(events).id];
    WriteStandsFor(c, events, w, s.visit);
  }

  /** What a write for the key of `visit` stands for, and what its replay repeats. */
  lemma WriteStandsFor(c: Config, events: seq<Event>, w: Write, visit: Visit)
    requires Valid(c, events) && w in After(c, events).writes && WellFormed(visit.request)
    requires w.plan.key == KeyOf(visit.service, visit.request)
    ensures w.id in After(c, events).sessions && Plain(events, w.id).Some?
    ensures var source, answer := After(c, events).sessions[w.id].visit, Plain(events, w.id).value;
      && SameResource(source, visit) && Uncredentialed(source)
      && answer.complete && answer.head.status == 200 && VaryIsKeyed(answer.head.headers)
      && w.plan.ttlMs == ResolveTtlMs(c, answer.head.headers) > 0
      && PlanFor(c, KeyFor(source), answer.head) == Some(w.plan)
      && var (head, sent) := Replay(visit.own, EntryOf(w.plan, w.body));
         Repeats(visit.own, Reply(head, sent, true), answer)
  {
    AlwaysWrites(c, events);
    AlwaysSessions(c, events);
    assert WriteOk(c, events, w);
    var source, answer := After(c, events).sessions[w.id].visit, Plain(events, w.id).value;
    KeySeparates(source.service, source.request, visit.service, visit.request);
    RepeatsPlan(c, visit.own, w.plan, w.body, KeyFor(source), answer);
  }

  lemma RepeatsPlan(c: Config, own: Headers, plan: Plan, body: seq<byte>, key: Option<CacheKey>, answer: Reply)
    requires Some(plan) == PlanFor(c, key, answer.head) && body == answer.body
    ensures var (head, sent) := Replay(own, EntryOf(plan, body)); Repeats(own, Reply(head, sent, true), answer)
  {
    StoredNames();
    ReplayOfEntry(plan, body, own);
    forall name
      ensures IsKept(answer, name) <==> name in plan.headers
      ensures IsKept(answer, name) ==> Some(plan.headers[name]) == TextField(answer.head.headers, name)
    {}
  }

  /**
   Freshness: the store answered a hit within the cap, of a response without a forbidding directive, and within the
   time to live that the response's own directives give, if its field is read no longer than written.
   */
  lemma HitIsFresh(c: Config, events: seq<Event>) returns (i: nat, w: Write)
    requires events != [] && Valid(c, events) && Last(events).GetReplies?
    requires After(c, events).sessions[Last(events).id].hit
    ensures i < |events| - 1 && events[i].GetRuns? && events[i].id == Last(events).id
    ensures w in After(c, events).writes && Plain(events, w.id).Some?
    ensures var headers := Plain(events, w.id).value.head.headers;
      && events[i].at < w.at + c.maxTtlMs
      && !DirectiveForbids(headers)
      && (ReadNoLonger(Consulted(headers)) ==> events[i].at < w.at + DirectiveTtlMs(c, headers))
  {
    i, w := HitRepeatsAnswer(c, events);
    TtlWithinPolicy(c, Plain(events, w.id).value.head.headers);
  }

  // ---------- An upstream that keeps its Vary promise ----------

  /** A response as the store hook sees it. */
  datatype Answer = Answer(head: Head, body: seq<byte>)

  predicate SameStoredFields(h: Headers, h': Headers) {
    forall name :: name in REPEATED ==>
      (name in h <==> name in h') && (name in h ==> h[name] == h'[name])
  }

  predicate SameAnswer(a: Answer, a': Answer) {
    a.head.status == a'.head.status && a.body == a'.body && SameStoredFields(a.head.headers, a'.head.headers)
  }

  /** The two requests agree on every field that `headers` lists in Vary; `origin` only steers CORS fields. */
  ghost predicate AgreeOnVary(headers: Headers, r: Request, r': Request) {
    "vary" in headers ==>
      forall name :: Names(Shown(headers["vary"]), name) && name != "" && name != "origin" ==>
        Field(r.headers, name) == Field(r'.headers, name)
  }

  /** The rules allow the answer to be stored. */
  predicate Keepable(c: Config, service: string, r: Request, head: Head) {
    PlanFor(c, Some(KeyOf(service, r)), head).Some?
  }

  /**
   RFC 9111 section 4.1: of two answers that may be stored, to requests for one URL that agree on the fields which the
   first one's Vary names, one is the other. Answers that may not be stored, such as 304 and 206, are arbitrary. The
   upstream may change between visits: `upstream(id, ..)` is what it would answer at the time of visit `id`.
   */
  ghost predicate HonoursVary(c: Config, upstream: (nat, string, Request) -> Answer) {
    forall id: nat, service: string, r: Request, r': Request ::
      && Anonymous(r) && Anonymous(r') && r.url == r'.url
      && Keepable(c, service, r, upstream(id, service, r).head)
      && Keepable(c, service, r', upstream(id, service, r').head)
      && AgreeOnVary(upstream(id, service, r).head.headers, r, r')
      ==> SameAnswer(upstream(id, service, r), upstream(id, service, r'))
  }

  /** Every complete answer of the run that may be stored is the upstream's to that visit. Others are arbitrary. */
  ghost predicate AnswersFrom(c: Config, events: seq<Event>, upstream: (nat, string, Request) -> Answer)
    requires Valid(c, events)
  {
    forall id :: id in After(c, events).sessions && Plain(events, id).Some? && Plain(events, id).value.complete ==>
      var visit, answer := After(c, events).sessions[id].visit, Plain(events, id).value;
      PlanFor(c, KeyFor(visit), answer.head).Some? ==>
        SameAnswer(Answer(answer.head, answer.body), upstream(id, visit.service, visit.request))
  }

  /**
   With such an upstream a hit is what it would have answered to this very request, at the time it answered the visit
   behind the last write for the key, if that is an answer that may be stored; and that write was not past its time to
   live.
   */
  lemma HitIsOwnAnswer(c: Config, events: seq<Event>, upstream: (nat, string, Request) -> Answer)
    returns (i: nat, w: Write)
    requires events != [] && Valid(c, events) && Last(events).GetReplies?
    requires After(c, events).sessions[Last(events).id].hit
    requires HonoursVary(c, upstream) && AnswersFrom(c, events, upstream)
    ensures i < |events| - 1 && events[i].GetRuns? && events[i].id == Last(events).id
    ensures var s := After(c, events).sessions[Last(events).id];
      && WriteBefore(c, events, i, KeyOf(s.visit.service, s.visit.request)) == Some(w)
      && events[i].at < w.at + w.plan.ttlMs
    ensures var s := After(c, events).sessions[Last(events).id];
      var own := upstream(w.id, s.visit.service, s.visit.request);
      && s.reply.Some?
      && (Keepable(c, s.visit.service, s.visit.request, own.head) ==>
            Repeats(s.visit.own, s.reply.value, Reply(own.head, own.body, true)))
  {
    i, w := HitRepeatsAnswer(c, events);
    var s := After(c, events).sessions[Last(events).id];
    var own := upstream(w.id, s.visit.service, s.visit.request);
    if Keepable(c, s.visit.service, s.visit.request, own.head) {
      WriteIsOwnAnswer(c, events, w, s.visit, upstream);
      RepeatsSame(s.visit.own, s.reply.value, Plain(events, w.id).value, own);
    }
  }

  lemma RepeatsSame(own: Headers, reply: Reply, answer: Reply, other: Answer)
    requires Repeats(own, reply, answer) && SameAnswer(Answer(answer.head, answer.body), other)
    ensures Repeats(own, reply, Reply(other.head, other.body, true))
  {
    assert forall name :: IsKept(answer, name) <==> IsKept(Reply(other.head, other.body, true), name);
  }

  lemma WriteIsOwnAnswer(c: Config, events: seq<Event>, w: Write, visit: Visit,
                         upstream: (nat, string, Request) -> Answer)
    requires Valid(c, events) && w in After(c, events).writes && WellFormed(visit.request) && Uncredentialed(visit)
    requires w.plan.key == KeyOf(visit.service, visit.request)
    requires HonoursVary(c, upstream) && AnswersFrom(c, events, upstream)
    requires Keepable(c, visit.service, visit.request, upstream(w.id, visit.service, visit.request).head)
    ensures w.id in After(c, events).sessions && Plain(events, w.id).Some?
    ensures var answer := Plain(events, w.id).value;
      SameAnswer(Answer(answer.head, answer.body), upstream(w.id, visit.service, visit.request))
  {
    WriteStandsFor(c, events, w, visit);
    OwnAnswer(c, After(c, events).sessions[w.id].visit, visit, Plain(events, w.id).value, upstream, w.id);
  }

  /** From the answer to `source` to what the upstream would have answered to `visit`. */
  lemma OwnAnswer(c: Config, source: Visit, visit: Visit, answer: Reply,
                  upstream: (nat, string, Request) -> Answer, id: nat)
    requires HonoursVary(c, upstream) && SameResource(source, visit) && Uncredentialed(source) && Uncredentialed(visit)
    requires PlanFor(c, KeyFor(source), answer.head).Some?
    requires Keepable(c, visit.service, visit.request, upstream(id, visit.service, visit.request).head)
    requires SameAnswer(Answer(answer.head, answer.body), upstream(id, source.service, source.request))
    ensures SameAnswer(Answer(answer.head, answer.body), upstream(id, visit.service, visit.request))
  {
    var there := upstream(id, source.service, source.request);
    SameAnswerSamePlan(c, source, Answer(answer.head, answer.body), there);
    AgreeOnSafeVary(there.head.headers, source, visit);
    assert SameAnswer(there, upstream(id, visit.service, visit.request));
  }

  lemma SameAnswerSamePlan(c: Config, source: Visit, a: Answer, a': Answer)
    requires SameAnswer(a, a') && PlanFor(c, KeyFor(source), a.head).Some?
    ensures Keepable(c, source.service, source.request, a'.head) && VaryIsKeyed(a'.head.headers)
  {
    assert CACHE_CONTROL in REPEATED && VARY in REPEATED;
  }

  lemma AgreeOnSafeVary(headers: Headers, v: Visit, v': Visit)
    requires VaryIsKeyed(headers) && SameResource(v, v')
    ensures AgreeOnVary(headers, v.request, v'.request)
  {
    VaryExactly(headers);
  }

  // ---------- What is stored and found ----------

  /** What is to be written of a finished answer: all of it, for a request that may use the cache, or nothing. */
  ghost predicate ToWrite(c: Config, s: Session, answer: Reply, fits: bool) {
    && (s.phase.Writing? <==> !KeepsOut(s.visit.request) && MayStore(c, answer.head) && answer.complete && fits)
    && (s.phase.Writing? ==>
          && Some(s.phase.plan) == PlanFor(c, Some(KeyOf(s.visit.service, s.visit.request)), answer.head)
          && s.phase.body == answer.body)
    && (!s.phase.Writing? ==> s.phase.Over?)
  }

  /** A streamed body is to be written exactly after a clean end within the size limit, or of no chunk at all. */
  lemma WrittenExactly(c: Config, events: seq<Event>)
    requires events != [] && Valid(c, events) && Last(events).StreamEnds?
    ensures Plain(events, Last(events).id).Some?
    ensures var id := Last(events).id;
      var s, answer := After(c, events).sessions[id], Plain(events, id).value;
      var tally := After(c, Before(events)).sessions[id].phase.tally;
      ToWrite(c, s, answer, |answer.body| <= c.maxBodyBytes || tally == Tee.EMPTY)
  {
    AlwaysSessions(c, Before(events));
    var id := Last(events).id;
    var before, plain := After(c, Before(events)).sessions[id], Plain(Before(events), id).value;
    AdmitExactly(before.visit.service, before.visit.request);
    PlanExactly(c, KeyFor(before.visit), plain.head);
    if before.phase.capture.Some? {
      Tee.StoredExactly(c.maxBodyBytes, before.phase.tally, plain.body, Last(events).clean);
    }
  }

  /** A body in memory is to be written at once if it is within the size limit; a payload of another kind never. */
  lemma BufferedWrittenExactly(c: Config, events: seq<Event>)
    requires events != [] && Valid(c, events) && Last(events).HeadArrives? && !Last(events).payload.Streamed?
    ensures Plain(events, Last(events).id).Some?
    ensures var s, answer := After(c, events).sessions[Last(events).id], Plain(events, Last(events).id).value;
      ToWrite(c, s, answer, Last(events).payload.InMemory? && |answer.body| <= c.maxBodyBytes)
  {
    AlwaysSessions(c, Before(events));
    var before := After(c, Before(events)).sessions[Last(events).id];
    AdmitExactly(before.visit.service, before.visit.request);
    PlanExactly(c, KeyFor(before.visit), Last(events).head);
  }

  /** Whether the entry for `key` was never written, or dropped since its last write. */
  ghost predicate Lost(c: Config, events: seq<Event>, key: CacheKey)
    requires Valid(c, events)
  {
    if events == [] then true
    else if Last(events) == EntryLost(key) then true
    else if Last(events).SetRuns? && After(c, Before(events)).sessions[Last(events).id].phase.plan.key == key then false
    else Lost(c, Before(events), key)
  }

  lemma {:induction false} StoreKeeps(c: Config, events: seq<Event>, key: CacheKey)
    requires Valid(c, events)
    ensures key in After(c, events).store <==> !Lost(c, events, key)
  {
    if events != [] {
      StoreKeeps(c, Before(events), key);
    }
  }

  /** A lookup finds exactly the last write for its key, unless that entry is lost or past its deadline. */
  lemma LookupFindsLastWrite(c: Config, events: seq<Event>)
    requires events != [] && Valid(c, events) && Last(events).GetRuns?
    ensures var prior, s := Before(events), After(c, events).sessions[Last(events).id];
      var key := KeyOf(s.visit.service, s.visit.request);
      var w := LastWrite(After(c, prior).writes, key);
      s.phase == Fetched(key, if w.Some? && !Lost(c, prior, key) && Last(events).at < w.value.at + w.value.plan.ttlMs
                              then Some(EntryOf(w.value.plan, w.value.body)) else None)
  {
    var prior := Before(events);
    AlwaysSessions(c, prior);
    AlwaysStore(c, prior);
    StoreKeeps(c, prior, After(c, prior).sessions[Last(events).id].phase.key);
  }

  /** A request that arrives is looked up exactly if it may use the cache and does not ask to revalidate. */
  lemma LooksUpExactly(c: Config, events: seq<Event>, at: int)
    requires events != [] && Valid(c, events) && Last(events).Arrival?
    ensures var (st, r) := (After(c, events), Last(events).visit.request);
      && (Enabled(st, GetRuns(Last(events).id, at)) <==>
            !KeepsOut(r) && !HasWord(Field(r.headers, "cache-control"), "no-cache"))
      && (!Enabled(st, GetRuns(Last(events).id, at)) ==> st.sessions[Last(events).id].phase.Proxying?)
  {
    AdmitExactly(Last(events).visit.service, Last(events).visit.request);
  }

  /** Whether the entry for `key` was never written, or dropped since its last write, among the first `i` events. */
  ghost predicate LostBefore(c: Config, events: seq<Event>, i: nat, key: CacheKey)
    requires Valid(c, events) && i <= |events|
  {
    PrefixValid(c, events, i);
    Lost(c, events[..i], key)
  }

  /** A lookup that is answered in time is a hit exactly if it found a write neither lost nor past its deadline. */
  lemma HitExactly(c: Config, events: seq<Event>) returns (i: nat)
    requires events != [] && Valid(c, events) && Last(events).GetReplies?
    ensures i < |events| - 1 && events[i].GetRuns? && events[i].id == Last(events).id
    ensures var s := After(c, events).sessions[Last(events).id];
      var key := KeyOf(s.visit.service, s.visit.request);
      var w := WriteBefore(c, events, i, key);
      && (s.hit <==> w.Some? && !LostBefore(c, events, i, key) && events[i].at < w.value.at + w.value.plan.ttlMs)
      && (!s.hit ==> s.phase == Proxying(Some(key)))
  {
    var prior := Before(events);
    AlwaysSessions(c, prior);
    i := FetchedFrom(c, prior, Last(events).id);
    assert prior[..i] == events[..i];
    AlwaysStore(c, events[..i]);
    StoreKeeps(c, events[..i], After(c, prior).sessions[Last(events).id].phase.key);
  }

  // ---------- Failing open ----------

  /** The reply of the gateway without a cache, with the mark of a miss or without. */
  ghost predicate SameButForMark(marked: bool, reply: Option<Reply>, plain: Option<Reply>) {
    && (reply.Some? <==> plain.Some?)
    && (plain.Some? ==>
          && reply.value.head.status == plain.value.head.status
          && reply.value.body == plain.value.body && reply.value.complete == plain.value.complete
          && reply.value.head.headers
               == if marked then plain.value.head.headers["x-cache" := One("MISS")] else plain.value.head.headers)
  }

  lemma SessionFailsOpen(c: Config, s: Session, plain: Option<Reply>)
    requires SessionOk(c, s, plain)
    ensures if s.hit then plain.None? && s.reply.Some? else SameButForMark(!KeepsOut(s.visit.request), s.reply, plain)
  {
    AdmitExactly(s.visit.service, s.visit.request);
  }

  /**
   Whatever fails, a request that is not a hit gets, at every moment, the very reply of the gateway without a cache,
   with the mark of a miss exactly if it may use the cache; a hit never reaches the upstream.
   */
  lemma FailsOpen(c: Config, events: seq<Event>, id: nat)
    requires Valid(c, events) && id in After(c, events).sessions
    ensures var s, plain := After(c, events).sessions[id], Plain(events, id);
      if s.hit then plain.None? && s.reply.Some? else SameButForMark(!KeepsOut(s.visit.request), s.reply, plain)
  {
    AlwaysSessions(c, events);
    SessionFailsOpen(c, After(c, events).sessions[id], Plain(events, id));
  }

  /** A hit is never stored again. */
  lemma HitIsNotStored(c: Config, events: seq<Event>, id: nat)
    requires Valid(c, events) && id in After(c, events).sessions && After(c, events).sessions[id].hit
    ensures forall w :: w in After(c, events).writes ==> w.id != id
    ensures !After(c, events).sessions[id].phase.Writing?
  {
    AlwaysWrites(c, events);
    AlwaysSessions(c, events);
    assert forall w :: w in After(c, events).writes ==> WriteOk(c, events, w);
  }

  lemma SessionBypasses(c: Config, s: Session, plain: Option<Reply>)
    requires SessionOk(c, s, plain) && KeepsOut(s.visit.request)
    ensures KeyFor(s.visit) == None && !s.phase.Looking? && !s.phase.Writing? && !s.hit && s.reply == plain
  {
    AdmitExactly(s.visit.service, s.visit.request);
  }

  /** Credentialed, non-GET and no-store requests neither read nor write the store, nor carry its mark. */
  lemma BypassTouchesNothing(c: Config, events: seq<Event>, id: nat)
    requires Valid(c, events) && id in After(c, events).sessions
    requires KeepsOut(After(c, events).sessions[id].visit.request)
    ensures var st := After(c, events);
      && (forall at :: !Enabled(st, GetRuns(id, at)) && !Enabled(st, SetRuns(id, at)))
      && (forall w :: w in st.writes ==> w.id != id)
      && !st.sessions[id].hit && st.sessions[id].reply == Plain(events, id)
  {
    AlwaysSessions(c, events);
    SessionBypasses(c, After(c, events).sessions[id], Plain(events, id));
    forall w | w in After(c, events).writes
      ensures w.id != id
    {
      WriterHasKey(c, events, w);
    }
  }

  lemma WriterHasKey(c: Config, events: seq<Event>, w: Write)
    requires Valid(c, events) && w in After(c, events).writes
    ensures w.id in After(c, events).sessions && KeyFor(After(c, events).sessions[w.id].visit).Some?
  {
    AlwaysWrites(c, events);
    assert WriteOk(c, events, w);
  }

  lemma SessionRevalidates(c: Config, s: Session, plain: Option<Reply>)
    requires SessionOk(c, s, plain) && HasWord(Field(s.visit.request.headers, "cache-control"), "no-cache")
    ensures !s.hit && !s.phase.Looking?
  {}

  /** A no-cache request is never answered from the store, though its answer may be stored. */
  lemma RevalidationIsNoHit(c: Config, events: seq<Event>, id: nat)
    requires Valid(c, events) && id in After(c, events).sessions
    requires HasWord(Field(After(c, events).sessions[id].visit.request.headers, "cache-control"), "no-cache")
    ensures !After(c, events).sessions[id].hit
    ensures forall at :: !Enabled(After(c, events), GetRuns(id, at))
  {
    AlwaysSessions(c, events);
    SessionRevalidates(c, After(c, events).sessions[id], Plain(events, id));
  }

  // ---------- Hits do happen ----------

  lemma Extend(c: Config, events: seq<Event>, st: State, event: Event) returns (run: seq<Event>)
    requires Valid(c, events) && After(c, events) == st && Enabled(st, event)
    ensures run != [] && Last(run) == event && Valid(c, run) && After(c, run) == Step(c, st, event)
  {
    run := events + [event];
    assert Before(run) == events;
  }

  /** The visit may use the cache and does not ask to revalidate. */
  predicate Cacheable(v: Visit) {
    WellFormed(v.request) && !KeepsOut(v.request) && !HasWord(Field(v.request.headers, "cache-control"), "no-cache")
  }

  /** What a streamed answer of one chunk comes to for a request that was looked up in vain. */
  lemma StreamedOnce(c: Config, visit: Visit, head: Head, octets: seq<byte>)
    requires Cacheable(visit) && MayStore(c, head) && |octets| <= c.maxBodyBytes
    ensures var key := KeyOf(visit.service, visit.request);
      PlanFor(c, Some(key), head).Some?
      && var s := Session(visit, Proxying(Some(key)), None, false);
         var streaming := Advance(c, map[], s, HeadArrives(0, head, Streamed));
         Allowed(streaming, ChunkArrives(0, Tee.Octets(octets)))
         && var chunked := Advance(c, map[], streaming, ChunkArrives(0, Tee.Octets(octets)));
            Allowed(chunked, StreamEnds(0, true))
            && Advance(c, map[], chunked, StreamEnds(0, true)).phase
                 == Writing(PlanFor(c, Some(key), head).value, octets)
  {
    PlanExactly(c, Some(KeyOf(visit.service, visit.request)), head);
    var t := Tee.Observe(c.maxBodyBytes, Tee.EMPTY, octets);
    Tee.ObserveTracks(c.maxBodyBytes, Tee.EMPTY, [], octets);
    assert [] + octets == octets;
    Tee.StoredExactly(c.maxBodyBytes, t, octets, true);
  }

  /** A first visit, answered by the upstream in one chunk, up to its pending write. */
  lemma FirstVisit(c: Config, visit: Visit, head: Head, octets: seq<byte>, at: int)
    returns (events: seq<Event>, st: State)
    requires Cacheable(visit) && MayStore(c, head) && |octets| <= c.maxBodyBytes
    ensures var key := KeyOf(visit.service, visit.request);
      PlanFor(c, Some(key), head).Some? && Valid(c, events) && After(c, events) == st
      && st.store == map[] && st.sessions.Keys == {0}
      && st.sessions[0].phase == Writing(PlanFor(c, Some(key), head).value, octets)
  {
    AdmitExactly(visit.service, visit.request);
    StreamedOnce(c, visit, head, octets);
    events := Extend(c, [], INITIAL, Arrival(0, visit));
    st := Step(c, INITIAL, Arrival(0, visit));
    events, st := NextOf(c, events, st, GetRuns(0, at));
    events, st := NextOf(c, events, st, GetReplies(0));
    events, st := NextOf(c, events, st, HeadArrives(0, head, Streamed));
    events, st := NextOf(c, events, st, ChunkArrives(0, Tee.Octets(octets)));
    events, st := NextOf(c, events, st, StreamEnds(0, true));
  }

  /** One more step of request 0, which is alone and whose lookup finds nothing. */
  lemma NextOf(c: Config, events: seq<Event>, st: State, event: Event) returns (run: seq<Event>, next: State)
    requires Valid(c, events) && After(c, events) == st && st.store == map[] && st.sessions.Keys == {0}
    requires !event.Arrival? && !event.EntryLost? && !event.SetRuns? && event.id == 0 && Allowed(st.sessions[0], event)
    ensures Valid(c, run) && After(c, run) == next && next.store == map[] && next.sessions.Keys == {0}
    ensures next.sessions[0] == Advance(c, map[], st.sessions[0], event)
  {
    run := Extend(c, events, st, event);
    next := Step(c, st, event);
  }

  /**
   An answer that may be stored is a hit for the next request for the same resource, until its time to live is over:
   the run exists for all such visits, answers and instants.
   */
  lemma StoredThenHit(c: Config, first: Visit, second: Visit, head: Head, octets: seq<byte>, at: int, later: int)
    returns (events: seq<Event>)
    requires Cacheable(first) && Cacheable(second) && SameResource(first, second)
    requires MayStore(c, head) && |octets| <= c.maxBodyBytes && later < at + ResolveTtlMs(c, head.headers)
    ensures events != [] && Valid(c, events) && Last(events) == GetReplies(1) && 1 in After(c, events).sessions
    ensures var s := After(c, events).sessions[1];
      s.visit == second && s.hit && s.reply.Some? && Repeats(second.own, s.reply.value, Reply(head, octets, true))
  {
    var st: State;
    var key := KeyOf(first.service, first.request);
    var plan := PlanFor(c, Some(key), head);
    PlanExactly(c, Some(key), head);
    RepeatsPlan(c, second.own, plan.value, octets, Some(key), Reply(head, octets, true));
    events, st := FirstWrite(c, first, head, octets, at);
    events := SecondVisit(c, events, st, second, plan.value, octets, at, later);
  }

  lemma FirstWrite(c: Config, visit: Visit, head: Head, octets: seq<byte>, at: int)
    returns (events: seq<Event>, st: State)
    requires Cacheable(visit) && MayStore(c, head) && |octets| <= c.maxBodyBytes
    ensures Valid(c, events) && After(c, events) == st && 1 !in st.sessions
    ensures var plan := PlanFor(c, Some(KeyOf(visit.service, visit.request)), head);
      && plan.Some? && plan.value.key in st.store
      && st.store[plan.value.key] == Stored(EntryOf(plan.value, octets), at + plan.value.ttlMs)
  {
    events, st := FirstVisit(c, visit, head, octets, at);
    events := Extend(c, events, st, SetRuns(0, at));
    st := Step(c, st, SetRuns(0, at));
  }

  lemma SecondVisit(c: Config, events: seq<Event>, st: State, visit: Visit, plan: Plan, octets: seq<byte>, at: int,
                    later: int) returns (run: seq<Event>)
    requires Valid(c, events) && After(c, events) == st && 1 !in st.sessions && Cacheable(visit)
    requires plan.key == KeyOf(visit.service, visit.request) && later < at + plan.ttlMs
    requires plan.key in st.store && st.store[plan.key] == Stored(EntryOf(plan, octets), at + plan.ttlMs)
    ensures run != [] && Valid(c, run) && Last(run) == GetReplies(1) && 1 in After(c, run).sessions
    ensures var s := After(c, run).sessions[1];
      s.visit == visit && s.hit
      && s.reply == Some(var (head, body) := Replay(visit.own, EntryOf(plan, octets)); Reply(head, body, true))
  {
    AdmitExactly(visit.service, visit.request);
    run := Extend(c, events, st, Arrival(1, visit));
    var arrived := Step(c, st, Arrival(1, visit));
    run := Extend(c, run, arrived, GetRuns(1, later));
    var found := Step(c, arrived, GetRuns(1, later));
    run := Extend(c, run, found, GetReplies(1));
  }
}
