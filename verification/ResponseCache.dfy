/**
 The two hooks of the response cache. The functions say what each hook decides; the class runs them on a request
 and its reply, which they update in place.
 */
module ResponseCache {
  import opened Prelude
  import opened Http
  import opened CachePolicy
  import opened Text
  import opened Tee
  import Base64

  /** A response as the store keeps it; the body is Base64 text. */
  datatype Cached = Cached(status: int, headers: map<string, string>, body: string)

  const STORED_HEADERS: seq<string> :=
    ["content-type", "content-encoding", "content-language", "cache-control", "etag", "last-modified", "vary"]

  // ---------- Serving ----------

  /** What the serve hook does with a request before any lookup. */
  datatype Admission = Bypass | StoreOnly(key: CacheKey) | Lookup(key: CacheKey)

  predicate Credentialed(req: Request) {
    Carries(req.headers, AUTHORIZATION) || Carries(req.headers, COOKIE)
  }

  /** Other methods, credentialed requests and those that ask not to store keep out of the cache. */
  predicate Bypasses(req: Request) {
    req.verb != "GET" || Credentialed(req) || HasWord(Field(req.headers, CACHE_CONTROL), "no-store")
  }

  function Admit(service: string, req: Request): Admission {
    if Bypasses(req) then Bypass
    else if HasWord(Field(req.headers, CACHE_CONTROL), "no-cache") then StoreOnly(KeyOf(service, req))
    else Lookup(KeyOf(service, req))
  }

  /** `req.cacheKey`; the empty text is `None`. */
  function AdmittedKey(a: Admission): Option<CacheKey> {
    if a.Bypass? then None else Some(a.key)
  }

  /** The request has a field of that name, and it is more than an empty text. */
  predicate Bears(req: Request, name: string) {
    name in req.headers && req.headers[name] != One("")
  }

  /** Who is kept out of the cache: other methods, requests with credentials, and those that ask not to store. */
  predicate KeepsOut(req: Request) {
    || req.verb != "GET" || Bears(req, "authorization") || Bears(req, "cookie")
    || HasWord(Field(req.headers, "cache-control"), "no-store")
  }

  /** Everyone else is looked up, but for those that ask to revalidate, whose answer may only be stored. */
  lemma AdmitExactly(service: string, req: Request)
    ensures Admit(service, req)
         == if KeepsOut(req) then Bypass
            else if HasWord(Field(req.headers, "cache-control"), "no-cache") then StoreOnly(KeyOf(service, req))
            else Lookup(KeyOf(service, req))
  {}

  function Texts(headers: map<string, string>): Headers {
    map name | name in headers :: One(headers[name])
  }

  /** The reply to a hit: stored fields over the gateway's own, the mark, the stored status and the decoded body. */
  function Replay(own: Headers, hit: Cached): (Head, seq<byte>) {
    (Head(hit.status, (own + Texts(hit.headers))[X_CACHE := One("HIT")]), Base64.Decode(hit.body))
  }

  // ---------- Storing ----------

  /** What the store hook captures when the head of a response is sent. */
  datatype Plan = Plan(key: CacheKey, ttlMs: int, status: int, headers: map<string, string>)

  function Marked(key: Option<CacheKey>, headers: Headers): Headers {
    if key.None? then headers else headers[X_CACHE := One("MISS")]
  }

  /** The stored part of a response's head. */
  function Projection(headers: Headers): map<string, string> {
    map name | name in STORED_HEADERS && name in headers && headers[name].One? :: headers[name].value
  }

  function PlanFor(c: Config, key: Option<CacheKey>, head: Head): Option<Plan> {
    if key.None? || head.status != 200 || !VaryIsKeyed(head.headers) || ResolveTtlMs(c, head.headers) <= 0 then None
    else Some(Plan(key.value, ResolveTtlMs(c, head.headers), head.status, Projection(head.headers)))
  }

  /** The fields that are stored and replayed. */
  const REPEATED: set<string> :=
    {"content-type", "content-encoding", "content-language", "cache-control", "etag", "last-modified", "vary"}

  /** The rules allow an answer with this head to be stored. */
  predicate MayStore(c: Config, head: Head) {
    head.status == 200 && VaryIsKeyed(head.headers) && ResolveTtlMs(c, head.headers) > 0
  }

  /** A plan is made exactly for a request with a key and an answer that may be stored, and holds those fields. */
  lemma PlanExactly(c: Config, key: Option<CacheKey>, head: Head)
    ensures PlanFor(c, key, head).Some? <==> key.Some? && MayStore(c, head)
    ensures var plan := PlanFor(c, key, head);
      plan.Some? ==>
        && plan.value.key == key.value && plan.value.ttlMs == ResolveTtlMs(c, head.headers) && plan.value.status == 200
        && (forall name :: name in plan.value.headers <==> name in REPEATED && TextField(head.headers, name).Some?)
        && forall name :: name in plan.value.headers ==> head.headers[name] == One(plan.value.headers[name])
  {
    StoredNames();
  }

  lemma StoredNames()
    ensures forall name :: name in STORED_HEADERS <==> name in REPEATED
  {}

  function EntryOf(plan: Plan, body: seq<byte>): Cached {
    Cached(plan.status, plan.headers, Base64.Encode(body))
  }

  /** The mark changes nothing the hook looks at. */
  lemma MarkIsInvisible(c: Config, key: Option<CacheKey>, head: Head)
    ensures PlanFor(c, key, Head(head.status, Marked(key, head.headers))) == PlanFor(c, key, head)
  {
    assert X_CACHE !in STORED_HEADERS;
    assert Projection(Marked(key, head.headers)) == Projection(head.headers);
  }

  /** Replaying what was stored gives back status, stored fields and body, byte for byte. */
  lemma ReplayOfEntry(plan: Plan, body: seq<byte>, own: Headers)
    requires forall name :: name in plan.headers ==> name in STORED_HEADERS
    ensures var (head, sent) := Replay(own, EntryOf(plan, body));
      && head.status == plan.status && sent == body
      && (forall name :: name in plan.headers ==> TextField(head.headers, name) == Some(plan.headers[name]))
      && TextField(head.headers, X_CACHE) == Some("HIT")
      && (forall name :: name !in plan.headers && name != X_CACHE ==>
            (name in head.headers <==> name in own) && (name in own ==> head.headers[name] == own[name]))
  {
    Base64.DecodeEncode(body);
    assert X_CACHE !in STORED_HEADERS;
  }

  // ---------- The hooks at work ----------

  /** One request with its reply; the hooks set `cacheKey`, the reply's status and its headers. */
  class Exchange {
    const service: string
    const request: Request
    var cacheKey: Option<CacheKey>
    var status: int
    var headers: Headers

    constructor (service: string, request: Request, own: Headers)
      ensures this.service == service && this.request == request
      ensures cacheKey == None && status == 200 && headers == own
    {
      this.service, this.request := service, request;
      cacheKey, status, headers := None, 200, own;
    }

    /** The serve hook up to its lookup. */
    method BeginServe() returns (lookup: bool)
      requires cacheKey == None
      modifies this
      ensures var a := Admit(service, request);
        cacheKey == AdmittedKey(a) && lookup == a.Lookup?
      ensures status == old(status) && headers == old(headers)
    {
      if request.verb != "GET" {
        return false;
      }
      if Carries(request.headers, AUTHORIZATION) || Carries(request.headers, COOKIE) {
        return false;
      }
      var control := Field(request.headers, CACHE_CONTROL);
      if HasWord(control, "no-store") {
        return false;
      }
      cacheKey := Some(KeyOf(service, request));
      if HasWord(control, "no-cache") {
        return false;
      }
      return true;
    }

    /** The serve hook once its lookup is over: a hit is replayed field by field and its key forgotten. */
    method FinishServe(hit: Option<Cached>) returns (body: Option<seq<byte>>)
      modifies this
      ensures hit.None? ==>
        body == None && cacheKey == old(cacheKey) && status == old(status) && headers == old(headers)
      ensures hit.Some? ==>
        var (head, sent) := Replay(old(headers), hit.value);
        cacheKey == None && Head(status, headers) == head && body == Some(sent)
    {
      if hit.None? {
        return None;
      }
      cacheKey := None;
      var left := hit.value.headers.Keys;
      while left != {}
        invariant left <= hit.value.headers.Keys && cacheKey == None && status == old(status)
        invariant headers == old(headers) + Texts(hit.value.headers - left)
        decreases left
      {
        var name :| name in left;
        headers := headers[name := One(hit.value.headers[name])];
        left := left - {name};
      }
      assert hit.value.headers - {} == hit.value.headers;
      headers := headers[X_CACHE := One("HIT")];
      status := hit.value.status;
      return Some(Base64.Decode(hit.value.body));
    }

    /** The store hook on the head of the response. */
    method StoreHead(c: Config) returns (plan: Option<Plan>)
      modifies this
      ensures cacheKey == old(cacheKey) && status == old(status)
      ensures headers == Marked(cacheKey, old(headers))
      ensures plan == PlanFor(c, cacheKey, Head(status, old(headers)))
    {
      MarkIsInvisible(c, cacheKey, Head(status, headers));
      if cacheKey.None? {
        return None;
      }
      headers := headers[X_CACHE := One("MISS")];
      if status != 200 || !VaryIsKeyed(headers) {
        return None;
      }
      var ttlMs := ResolveTtlMs(c, headers);
      if ttlMs <= 0 {
        return None;
      }
      var kept: map<string, string> := map[];
      for i := 0 to |STORED_HEADERS|
        invariant kept ==
          map name | name in STORED_HEADERS[..i] && name in headers && headers[name].One? :: headers[name].value
      {
        var name := STORED_HEADERS[i];
        assert STORED_HEADERS[..i + 1] == STORED_HEADERS[..i] + [name];
        if name in headers && headers[name].One? {
          kept := kept[name := headers[name].value];
        }
      }
      assert STORED_HEADERS[..|STORED_HEADERS|] == STORED_HEADERS;
      return Some(Plan(cacheKey.value, ttlMs, status, kept));
    }
  }
}
