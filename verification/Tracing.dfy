/** W3C Trace Context `traceparent` (sections 3.2 and 3.3) and the hook that hands it to the next hop. */
module Tracing {
  import opened Prelude
  import opened Text
  import opened Http

  datatype TraceContext = TraceContext(traceId: string, spanId: string, flags: string)

  predicate IsHex(c: char) {
    IsDigit(c) || 'a' <= c <= 'f'
  }

  predicate Hex(s: string, length: nat) {
    |s| == length && forall i :: 0 <= i < |s| ==> IsHex(s[i])
  }

  predicate AllZero(s: string) {
    forall i :: 0 <= i < |s| ==> s[i] == '0'
  }

  /** A trimmed header that the pattern matches: four lower-case hex fields of 2, 32, 16 and 2 digits. */
  predicate MatchesPattern(t: string) {
    && |t| == 55 && t[2] == '-' && t[35] == '-' && t[52] == '-'
    && Hex(t[..2], 2) && Hex(t[3..35], 32) && Hex(t[36..52], 16) && Hex(t[53..], 2)
  }

  function ParseTraceparent(header: Option<string>): Option<TraceContext> {
    if header.None? || header.value == "" then None
    else
      var t := Trim(header.value);
      if !MatchesPattern(t) || t[..2] == "ff" || AllZero(t[3..35]) || AllZero(t[36..52]) then None
      else Some(TraceContext(t[3..35], t[36..52], t[53..]))
  }

  function FormatTraceparent(c: TraceContext): string {
    "00-" + c.traceId + "-" + c.spanId + "-" + c.flags
  }

  /** A context the header format can carry. */
  predicate Carriable(c: TraceContext) {
    Hex(c.traceId, 32) && Hex(c.spanId, 16) && Hex(c.flags, 2) && !AllZero(c.traceId) && !AllZero(c.spanId)
  }

  /** Parsing only ever yields carriable contexts, and re-formatting one keeps the header but for the version. */
  lemma ParsedFormats(header: Option<string>)
    ensures var c := ParseTraceparent(header);
      c.Some? ==> Carriable(c.value) && FormatTraceparent(c.value) == "00" + Trim(header.value)[2..]
  {
    var c := ParseTraceparent(header);
    if c.Some? {
      var t := Trim(header.value);
      assert t[2..] == "-" + t[3..35] + "-" + t[36..52] + "-" + t[53..];
    }
  }

  /** Parsing inverts formatting on exactly the carriable contexts. */
  lemma FormatParses(c: TraceContext)
    ensures ParseTraceparent(Some(FormatTraceparent(c))) == Some(c) <==> Carriable(c)
  {
    if Carriable(c) {
      assert FormatTraceparent(c) == "00" + FormatTraceparent(c)[2..];
      AcceptsVersion("00", c);
    } else {
      ParsedFormats(Some(FormatTraceparent(c)));
    }
  }

  /** A version-00 header, as `parseTraceparent` is described to demand. */
  ghost predicate VersionZero(text: string) {
    exists c :: Carriable(c) && text == FormatTraceparent(c)
  }

  /** Any version but `ff` is accepted, whatever its digits, as long as the rest is that of a version-00 header. */
  lemma VersionsAccepted(header: Option<string>)
    ensures ParseTraceparent(header).Some? <==>
      && header.Some? && header.value != "" && |Trim(header.value)| >= 2
      && Hex(Trim(header.value)[..2], 2) && Trim(header.value)[..2] != "ff"
      && VersionZero("00" + Trim(header.value)[2..])
  {
    if header.Some? && header.value != "" {
      var t := Trim(header.value);
      if ParseTraceparent(header).Some? {
        ParsedFormats(header);
      } else if c :| |t| >= 2 && Carriable(c) && "00" + t[2..] == FormatTraceparent(c) {
        var f := FormatTraceparent(c);
        assert f[3..35] == c.traceId && f[36..52] == c.spanId && f[53..] == c.flags;
        assert forall i :: 2 <= i < |t| ==> t[i] == f[i];
        assert t[3..35] == c.traceId && t[36..52] == c.spanId && t[53..] == c.flags;
      }
    }
  }

  /** A version-00 header but for its version, which is neither 00 nor the invalid ff. */
  ghost predicate OtherVersion(text: string) {
    |text| >= 2 && Hex(text[..2], 2) && text[..2] != "00" && text[..2] != "ff" && VersionZero("00" + text[2..])
  }

  /**
   Parsing is described to yield nothing but from a version-00 header, and always from one. It does, if and only if
   the header is not one of another version. An accepted header is the formatted context exactly under version 00.
   */
  lemma VersionAsDescribed(header: Option<string>)
    ensures (ParseTraceparent(header).Some? <==> header.Some? && VersionZero(Trim(header.value)))
      <==> !(header.Some? && OtherVersion(Trim(header.value)))
    ensures var accepted := ParseTraceparent(header);
      accepted.Some? ==>
        (FormatTraceparent(accepted.value) == Trim(header.value) <==> Trim(header.value)[..2] == "00")
  {
    VersionsAccepted(header);
    if header.Some? {
      var t := Trim(header.value);
      TrimTwice(header.value);
      VersionZeroStarts(t);
      assert |t| >= 2 && t[..2] == "00" ==> t == "00" + t[2..];
      assert IsHex("00"[0]) && Hex("00", 2);
      if ParseTraceparent(header).Some? {
        ParsedFormats(header);
      }
    }
  }

  lemma VersionZeroStarts(text: string)
    ensures VersionZero(text) ==> |text| >= 2 && text[..2] == "00" && text == "00" + text[2..]
  {}

  lemma TrimTwice(s: string)
    ensures Trim(Trim(s)) == Trim(s)
    ensures Trim(s) != "" ==> s != ""
  {
    var from, to := TrimWindow(s);
  }

  /** Under any version but `ff` a carriable context is read. */
  lemma AcceptsVersion(version: string, c: TraceContext)
    requires Hex(version, 2) && version != "ff" && Carriable(c)
    ensures ParseTraceparent(Some(version + FormatTraceparent(c)[2..])) == Some(c)
  {
    var f := FormatTraceparent(c);
    var t := version + f[2..];
    assert f[3..35] == c.traceId && f[36..52] == c.spanId && f[53..] == c.flags;
    assert t[3..35] == c.traceId && t[36..52] == c.spanId && t[53..] == c.flags && t[..2] == version;
    assert Trim(t) == t by { assert IsHex(t[0]) && t[|t| - 1] == c.flags[1] && IsHex(c.flags[1]); }
  }

  /** A version-01 header that is read although only version 00 is described. */
  lemma AcceptsVersionOne() returns (header: string, c: TraceContext)
    ensures c == TraceContext(seq(32, _ => 'a'), seq(16, _ => 'b'), "01")
    ensures header == "01" + FormatTraceparent(c)[2..] && ParseTraceparent(Some(header)) == Some(c)
    ensures !VersionZero(Trim(header))
  {
    c := TraceContext(seq(32, _ => 'a'), seq(16, _ => 'b'), "01");
    assert c.traceId[0] == 'a' && c.spanId[0] == 'b' && Carriable(c);
    header := "01" + FormatTraceparent(c)[2..];
    assert IsHex("01"[0]) && IsHex("01"[1]) && Hex("01", 2);
    AcceptsVersion("01", c);
    VersionZeroStarts(Trim(header));
    assert Trim(header)[..2] == "01" by {
      assert header[0] == '0' && header[|header| - 1] == '1';
      assert Trim(header) == header;
    }
  }

  /** Lower-case hexadecimal only, and neither id may be all zeros. */
  lemma CarriableExactly(c: TraceContext)
    ensures Carriable(c) <==>
      && |c.traceId| == 32 && |c.spanId| == 16 && |c.flags| == 2
      && (forall i :: 0 <= i < 32 ==> c.traceId[i] in "0123456789abcdef")
      && (forall i :: 0 <= i < 16 ==> c.spanId[i] in "0123456789abcdef")
      && (forall i :: 0 <= i < 2 ==> c.flags[i] in "0123456789abcdef")
      && (exists i :: 0 <= i < 32 && c.traceId[i] != '0') && (exists i :: 0 <= i < 16 && c.spanId[i] != '0')
  {
    HexDigits();
    assert forall i :: 0 <= i < |c.traceId| ==> (IsHex(c.traceId[i]) <==> c.traceId[i] in "0123456789abcdef");
    assert forall i :: 0 <= i < |c.spanId| ==> (IsHex(c.spanId[i]) <==> c.spanId[i] in "0123456789abcdef");
    assert forall i :: 0 <= i < |c.flags| ==> (IsHex(c.flags[i]) <==> c.flags[i] in "0123456789abcdef");
  }

  lemma HexDigits()
    ensures forall c: char :: IsHex(c) <==> c in "0123456789abcdef"
  {
    forall c: char
      ensures IsHex(c) <==> c in "0123456789abcdef"
    {
      HexDigit(c, "0123456789abcdef");
    }
  }

  lemma HexDigit(c: char, hex: string)
    requires hex == "0123456789abcdef"
    ensures IsHex(c) <==> c in hex
  {
    if '0' <= c <= '9' {
      assert hex[c as int - '0' as int] == c;
    } else if 'a' <= c <= 'f' {
      assert hex[c as int - 'a' as int + 10] == c;
    }
  }

  /** What one hop generates: a request id, a trace id and a span id. */
  datatype Ids = Ids(requestId: string, traceId: string, spanId: string)

  /** The trace context for the next hop, and whether a trace was continued. */
  function NextTraceContext(incoming: Option<string>, ids: Ids): (TraceContext, bool) {
    match ParseTraceparent(incoming)
    case Some(parent) => (TraceContext(parent.traceId, ids.spanId, parent.flags), true)
    case None => (TraceContext(ids.traceId, ids.spanId, "01"), false)
  }

  // ---------- The hook ----------

  const REQUEST_ID := "x-request-id"
  const CORRELATION_ID := "x-correlation-id"
  const TRACEPARENT := "traceparent"
  const TRACESTATE := "tracestate"
  const MAX_TRACESTATE_LENGTH := 512

  /** `/^[\w.-]{1,128}$/`. */
  predicate SafeId(s: string) {
    1 <= |s| <= 128 && forall i :: 0 <= i < |s| ==> IsWordChar(s[i]) || s[i] == '.' || s[i] == '-'
  }

  /** The field if it is a safe id, else `fallback`. */
  function SafeOr(headers: Headers, name: string, fallback: string): string {
    var field := TextField(headers, name);
    if field.Some? && SafeId(field.value) then field.value else fallback
  }

  /** `genReqId` of the application factory. */
  function RequestId(headers: Headers, ids: Ids): string {
    SafeOr(headers, REQUEST_ID, ids.requestId)
  }

  function CorrelationId(headers: Headers, ids: Ids): string {
    SafeOr(headers, CORRELATION_ID, RequestId(headers, ids))
  }

  predicate KeepsTracestate(headers: Headers, ids: Ids) {
    && NextTraceContext(TextField(headers, TRACEPARENT), ids).1
    && TextField(headers, TRACESTATE).Some? && |TextField(headers, TRACESTATE).value| <= MAX_TRACESTATE_LENGTH
  }

  /** The request fields as one hop leaves them for the next. */
  function Hop(headers: Headers, ids: Ids): Headers {
    var filled := headers[REQUEST_ID := One(RequestId(headers, ids))]
                      [CORRELATION_ID := One(CorrelationId(headers, ids))]
                      [TRACEPARENT := One(FormatTraceparent(NextTraceContext(TextField(headers, TRACEPARENT), ids).0))];
    if KeepsTracestate(headers, ids) then filled else filled - {TRACESTATE}
  }

  /** A request in the `onRequest` hook, with the fields of its reply. */
  class Exchange {
    const id: string
    var headers: Headers
    var correlationId: string
    var traceId: string
    var reply: Headers

    constructor (headers: Headers, ids: Ids)
      ensures this.headers == headers && id == RequestId(headers, ids) && reply == map[]
    {
      this.headers := headers;
      id := RequestId(headers, ids);
      correlationId, traceId, reply := "", "", map[];
    }

    method OnRequest(ids: Ids)
      requires id == RequestId(headers, ids)
      modifies this
      ensures headers == Hop(old(headers), ids)
      ensures correlationId == CorrelationId(old(headers), ids)
      ensures traceId == NextTraceContext(TextField(old(headers), TRACEPARENT), ids).0.traceId
      ensures reply == old(reply)[REQUEST_ID := One(id)][CORRELATION_ID := One(correlationId)]
    {
      var incoming := TextField(headers, CORRELATION_ID);
      correlationId := if incoming.Some? && SafeId(incoming.value) then incoming.value else id;
      var (context, continued) := NextTraceContext(TextField(headers, TRACEPARENT), ids);
      traceId := context.traceId;
      headers := headers[REQUEST_ID := One(id)];
      headers := headers[CORRELATION_ID := One(correlationId)];
      headers := headers[TRACEPARENT := One(FormatTraceparent(context))];
      var state := TextField(headers, TRACESTATE);
      if !(continued && state.Some? && |state.value| <= MAX_TRACESTATE_LENGTH) {
        headers := headers - {TRACESTATE};
      }
      reply := reply[REQUEST_ID := One(id)];
      reply := reply[CORRELATION_ID := One(correlationId)];
    }
  }

  /** The characters of an id, written out. */
  predicate IdChar(c: char) {
    c in UPPER || c in LOWER || c in DIGITS || c in "_.-"
  }

  lemma SafeIdExactly(s: string)
    ensures SafeId(s) <==> 1 <= |s| <= 128 && forall i :: 0 <= i < |s| ==> IdChar(s[i])
  {
    forall i | 0 <= i < |s|
      ensures IdChar(s[i]) <==> IsWordChar(s[i]) || s[i] == '.' || s[i] == '-'
    {
      CharacterClasses(s[i]);
    }
  }

  /** The ids that a hop settles on: what came in if it is safe, else its own, else for correlation the request's. */
  lemma IdsExactly(headers: Headers, ids: Ids)
    ensures forall id :: TextField(headers, "x-request-id") == Some(id) && SafeId(id) ==> RequestId(headers, ids) == id
    ensures (forall id :: TextField(headers, "x-request-id") == Some(id) ==> !SafeId(id)) ==>
      RequestId(headers, ids) == ids.requestId
    ensures forall id ::
      TextField(headers, "x-correlation-id") == Some(id) && SafeId(id) ==> CorrelationId(headers, ids) == id
    ensures (forall id :: TextField(headers, "x-correlation-id") == Some(id) ==> !SafeId(id)) ==>
      CorrelationId(headers, ids) == RequestId(headers, ids)
  {}

  const OWN_FIELDS: set<string> := {"x-request-id", "x-correlation-id", "traceparent", "tracestate"}

  /** A hop sets three fields and no other field changes, but that a tracestate may go. */
  lemma HopExactly(headers: Headers, ids: Ids)
    ensures var next := Hop(headers, ids);
      && next - OWN_FIELDS == headers - OWN_FIELDS
      && TextField(next, "x-request-id") == Some(RequestId(headers, ids))
      && TextField(next, "x-correlation-id") == Some(CorrelationId(headers, ids))
      && TextField(next, "traceparent")
           == Some(FormatTraceparent(NextTraceContext(TextField(headers, "traceparent"), ids).0))
      && ("tracestate" in next ==> "tracestate" in headers && next["tracestate"] == headers["tracestate"])
  {}

  // ---------- Chains of hops ----------

  function Hops(headers: Headers, ids: seq<Ids>): Headers {
    if ids == [] then headers else Hop(Hops(headers, ids[..|ids| - 1]), ids[|ids| - 1])
  }

  /** Generated ids have the right shape and are not all zero. */
  predicate Generated(ids: Ids) {
    && SafeId(ids.requestId)
    && Hex(ids.traceId, 32) && Hex(ids.spanId, 16) && !AllZero(ids.traceId) && !AllZero(ids.spanId)
  }

  /** What a request looks like behind a hop. */
  ghost predicate Settled(headers: Headers, c: TraceContext, requestId: string, correlationId: string,
                          state: Option<string>) {
    && Carriable(c) && SafeId(requestId) && SafeId(correlationId)
    && (state.Some? ==> |state.value| <= MAX_TRACESTATE_LENGTH)
    && TextField(headers, TRACEPARENT) == Some(FormatTraceparent(c))
    && TextField(headers, REQUEST_ID) == Some(requestId) && TextField(headers, CORRELATION_ID) == Some(correlationId)
    && TextField(headers, TRACESTATE) == state
  }

  /** The tracestate behind the first hop. */
  function KeptState(headers: Headers, ids: Ids): Option<string> {
    if KeepsTracestate(headers, ids) then TextField(headers, TRACESTATE) else None
  }

  lemma FirstHop(headers: Headers, ids: Ids)
    requires Generated(ids)
    ensures Settled(Hop(headers, ids), NextTraceContext(TextField(headers, TRACEPARENT), ids).0,
                    RequestId(headers, ids), CorrelationId(headers, ids), KeptState(headers, ids))
  {
    ParsedFormats(TextField(headers, TRACEPARENT));
  }

  lemma LaterHop(headers: Headers, ids: Ids, c: TraceContext, requestId: string, correlationId: string,
                 state: Option<string>)
    requires Generated(ids) && Settled(headers, c, requestId, correlationId, state)
    ensures Settled(Hop(headers, ids), TraceContext(c.traceId, ids.spanId, c.flags), requestId, correlationId, state)
  {
    FormatParses(c);
    FirstHop(headers, ids);
  }

  /**
   Over any number of hops: the trace id, the flags and both correlation ids are those the first hop settled on, the
   span id is the last hop's, and a tracestate arrives, unchanged, exactly when the first hop kept it.
   */
  lemma {:induction false} ChainKeepsTrace(headers: Headers, ids: seq<Ids>)
    requires ids != [] && forall i :: 0 <= i < |ids| ==> Generated(ids[i])
    ensures var first := NextTraceContext(TextField(headers, TRACEPARENT), ids[0]).0;
      Settled(Hops(headers, ids), TraceContext(first.traceId, ids[|ids| - 1].spanId, first.flags),
              RequestId(headers, ids[0]), CorrelationId(headers, ids[0]), KeptState(headers, ids[0]))
  {
    var prior, last := ids[..|ids| - 1], ids[|ids| - 1];
    if |ids| == 1 {
      assert Hops(headers, prior) == headers;
      FirstHop(headers, last);
    } else {
      ChainKeepsTrace(headers, prior);
      var first := NextTraceContext(TextField(headers, TRACEPARENT), ids[0]).0;
      LaterHop(Hops(headers, prior), last, TraceContext(first.traceId, prior[|prior| - 1].spanId, first.flags),
               RequestId(headers, ids[0]), CorrelationId(headers, ids[0]), KeptState(headers, ids[0]));
    }
  }

  /** Over any number of hops every field but the four of the trace and the ids arrives as it was sent. */
  lemma {:induction false} ChainKeepsOthers(headers: Headers, ids: seq<Ids>)
    ensures Hops(headers, ids) - OWN_FIELDS == headers - OWN_FIELDS
  {
    if ids != [] {
      ChainKeepsOthers(headers, ids[..|ids| - 1]);
      HopExactly(Hops(headers, ids[..|ids| - 1]), ids[|ids| - 1]);
    }
  }

  /** What the chain's end reads from its header: the first hop's trace, under the last hop's span. */
  lemma ChainIsReadable(headers: Headers, ids: seq<Ids>)
    requires ids != [] && forall i :: 0 <= i < |ids| ==> Generated(ids[i])
    ensures var start, end := ParseTraceparent(TextField(headers, TRACEPARENT)),
                              ParseTraceparent(TextField(Hops(headers, ids), TRACEPARENT));
      && end.Some? && end.value.spanId == ids[|ids| - 1].spanId
      && (start.Some? ==> end.value.traceId == start.value.traceId && end.value.flags == start.value.flags)
      && (start.None? ==> end.value.traceId == ids[0].traceId && end.value.flags == "01")
  {
    ChainKeepsTrace(headers, ids);
    var first := NextTraceContext(TextField(headers, TRACEPARENT), ids[0]).0;
    FormatParses(TraceContext(first.traceId, ids[|ids| - 1].spanId, first.flags));
  }

  /** The first hop keeps a tracestate exactly when it continues a valid trace and the value is short enough. */
  lemma TracestateSurvives(headers: Headers, ids: seq<Ids>, state: string)
    requires ids != [] && forall i :: 0 <= i < |ids| ==> Generated(ids[i])
    requires TextField(headers, TRACESTATE) == Some(state)
    ensures TextField(Hops(headers, ids), TRACESTATE) == Some(state)
      <==> ParseTraceparent(TextField(headers, TRACEPARENT)).Some? && |state| <= 512
  {
    ChainKeepsTrace(headers, ids);
  }
}
