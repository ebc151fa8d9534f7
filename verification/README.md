# Verified model of the gateway's caches, codecs and small state machines

fastify-gateway is an HTTP gateway. This project models the parts of it whose correctness is a property of whole runs
or of all inputs, and proves those properties with Dafny 4.11 (`dafny verify dfyconfig.toml`).

| file | what it models |
|---|---|
| `DecisionCache.dfy` | the bearer strategy's ordered map of active-token decisions, updated in place: sweep, eviction, the guard's two atomic steps |
| `BearerRuns.dfy` | any number of bearer guards interleaving at their introspection call |
| `CachePolicy.dfy` | cache key, `Vary` and `Cache-Control` rules of the response cache |
| `CacheDirectives.dfy`, `CacheControlInputs.dfy` | that scan of `Cache-Control` against the directives of RFC 9111 section 5.2, and fields on which the two differ |
| `Tee.dfy` | the listener that retains a streamed body while it flows to the client |
| `ResponseCache.dfy` | the serve and store hooks, updating a request and its reply |
| `CacheRuns.dfy`, `CacheTransparency.dfy` | any number of requests over a store that may fail at every step, next to a gateway without a cache |
| `BasicAuth.dfy`, `Authorization.dfy`, `Base64.dfy`, `Utf8.dfy` | Basic credentials: header codec, user list, guard |
| `Tracing.dfy` | `traceparent` and the hook that hands trace and correlation ids to the next hop |
| `IpFilter.dfy` | CIDR lists and the allow/deny decision |
| `Alerts.dfy` | the alert throttle |
| `Prelude.dfy`, `Text.dfy`, `Http.dfy`, `Arithmetic.dfy` | shared types, JavaScript string operations, header fields, quotients |

A stateful object of the source is a class here. Each of its methods is proved equal to a function, and the theorems
about whole runs are about those same functions: `DecisionCache.Strategy` runs `Arrive` and `Settle`, which are the
steps of `BearerRuns`; `ResponseCache.Exchange` and `Tee.Listener` run `Admit`, `Replay`, `PlanFor` and `Observe`, which
are the steps of `CacheRuns`.

## What is assumed

- SHA-256 is injective (`Prelude.Digest`), so `timingSafeEqual` on digests is equality.
- Text is well-formed Unicode. Bytes are arbitrary: the UTF-8 decoder replaces ill-formed parts as Node does.
- Node's Base64 decoder takes both alphabets, skips other characters and stops at the first `=`.
- The store is a map with deadlines; a value is not returned at or after its deadline. A lookup, a write or a value may
  fail or vanish at any moment. JSON carries an entry faithfully.
- The introspection endpoint and the upstream answer anything, or fail. A guard resumes after its reply was given.
- Request targets and field values hold no line feed (`Http.WellFormed`), as HTTP message syntax demands.
- Clocks do not run backwards (`BearerRuns.Timely`, `Alerts.ClockRuns`) in the statements about revocation, order,
  retention, cached admission and suppressed alerts; the others hold on any clock. Generated trace and span ids are not all zero.
- `net.isIP` and `Number` are parameters of the IP filter, so its theorems hold for every behaviour of theirs.

## Where the code differs from its documentation

- `parseTraceparent` is described as accepting version 00 only. It accepts every two-digit version but `ff`, such as 01
  (`AcceptsVersionOne`); it does as described exactly on headers that it does not accept under another version
  (`VersionAsDescribed`).
- `CACHE_DEFAULT_TTL_MS` is described as applying without a `Cache-Control`. It applies whenever no element of the field
  matches a pattern (`DefaultAppliesExactly`), so to `public` too (`PublicGetsDefault`).
- The `Cache-Control` scan knows neither element names nor quoted strings. It reads `x-max-age=9, max-age=5` and
  `ext="a,max-age=9,b", max-age=5` as 9 seconds (`LookalikeOverrides`, `QuotedCommaOverrides`), overlooks `max-age="5"`
  (`QuotedArgumentIsOverlooked`) and takes `x-private` for `private` (`MentionStops`). `TtlIsTheDirectives` says exactly
  on which fields it gives the directives' time to live, and `TtlNoLonger` on which it gives no more.
- The decision cache is described as evicting the oldest. When guards for one token overlap, the later decision takes
  the earlier one's place, and neither the order nor the retention promise holds (`OverlapLosesDecision`). Both hold when
  they do not overlap; `ConfirmationKeepsOrder` and `AdmittedExactly` say exactly when they hold in any run.
- A stream of no chunk is stored even when `CACHE_MAX_BODY_BYTES` is negative; an empty buffer is not.
- An IP list entry whose prefix is no decimal number may be accepted: it covers the whole address family exactly when
  `Number` makes 0 of it, as it does of the empty text (`WholeFamilyExactly`).

## Model

| member | source | states |
|---|---|---|
| `DecisionCache.Strategy.EvictForInsert` | src/strategies/bearer-auth.strategy.ts:84-95 | both deleting loops leave exactly: everything below capacity, else the youngest min(live, capacity - 1) unexpired entries in their order |
| `DecisionCache.Strategy.Begin` | src/strategies/bearer-auth.strategy.ts:98-119 | the guard up to its introspection is the `Arrive` of the run model: outcome and whole new map |
| `DecisionCache.Strategy.Finish` | src/strategies/bearer-auth.strategy.ts:130-141 | the guard after its introspection, loops included, is the `Settle` of the run model: outcome and whole new map |
| `DecisionCache.EvictedExact` | src/strategies/bearer-auth.strategy.ts:84-95 | eviction keeps keys distinct, invents nothing, leaves room for one more, and at capacity keeps only live entries |
| `DecisionCache.EvictsOldestFirst` | src/strategies/bearer-auth.strategy.ts:84-95 | of the live entries eviction drops the oldest, and only when the map is then as full as it may stay, with live entries alone |
| `DecisionCache.SweepIsPrefix` | src/strategies/bearer-auth.strategy.ts:88-90 | in expiry order the sweep removes a prefix, all of it expired |
| `DecisionCache.EvictionIsPrefix` | src/strategies/bearer-auth.strategy.ts:84-95 | in expiry order eviction removes the soonest to expire |
| `DecisionCache.PutKeepsOrder` | src/strategies/bearer-auth.strategy.ts:140 | recording keeps expiry order if and only if the key was absent or everything behind its place expires at the same instant |
| `DecisionCache.PutExact` | src/strategies/bearer-auth.strategy.ts:140 | `Map.set` replaces exactly the entry of its key and grows the map only for a new key |
| `DecisionCache.BehindEvicted` | src/strategies/bearer-auth.strategy.ts:84-95 | a live entry with room behind it survives eviction and does not move back |
| `DecisionCache.SparedExactly` | src/strategies/bearer-auth.strategy.ts:84-95 | a live entry survives eviction if and only if there is room for one more or fewer than capacity - 1 live entries stand behind it |
| `DecisionCache.HeldExactly` | src/strategies/bearer-auth.strategy.ts:79-95 | among live decisions, one is still held after k new ones, each recorded at its own instants, if and only if the entries behind it plus k stay below the capacity |
| `BearerRuns.AlwaysSound` | src/strategies/bearer-auth.strategy.ts:72-77 | in every reachable state, under any interleaving, each cached decision is the last confirmation of its token plus one window, keys are distinct and the size bound holds |
| `BearerRuns.NeverOverCapacity` | src/strategies/bearer-auth.strategy.ts:84-95 | the map never exceeds max(1, capacity) entries, whatever overlaps and on any clock |
| `BearerRuns.ReplyOutcome` | src/strategies/bearer-auth.strategy.ts:121-137 | a reply admits if and only if it is a successful one whose body says active; every other answer and every failure is unauthorized |
| `BearerRuns.ArrivalOutcome` | src/strategies/bearer-auth.strategy.ts:97-119 | what becomes of every request, from the configuration, its header and the history alone: misconfigured, unauthorized, admitted from the cache or introspected |
| `BearerRuns.AdmissionIsBacked` | src/strategies/bearer-auth.strategy.ts:97-142 | every admission rests on a successful reply saying active in the same guard run, or on such a reply about that token less than one window old |
| `BearerRuns.BoundedRevocation` | src/strategies/bearer-auth.strategy.ts:97-142 | a token reported inactive from r on is not admitted at or after r + introspection delay + window, under any interleaving |
| `BearerRuns.OrderIsExpiryOrder` | src/strategies/bearer-auth.strategy.ts:109-119 | when no two guards ask about one token at once, map order is expiry order and no decision is recorded over another |
| `BearerRuns.ConfirmationKeepsOrder` | src/strategies/bearer-auth.strategy.ts:138-141 | in any run a confirmation keeps expiry order if and only if the eviction leaves no decision about its token, or behind it only ones expiring at the new instant |
| `BearerRuns.AdmittedExactly` | src/strategies/bearer-auth.strategy.ts:97-142 | in every run a request is admitted without introspection if and only if its token was confirmed less than one window ago and every confirmation since, of any token, found room for one more or fewer than capacity - 1 live entries behind it |
| `BearerRuns.RetentionBehind` | src/strategies/bearer-auth.strategy.ts:109-119 | a bound that suffices in every run: a decision recorded with p entries behind it is served without introspection until it expires while p plus the confirmations since stay below the capacity |
| `BearerRuns.Retention` | src/strategies/bearer-auth.strategy.ts:36-39 | without overlap a recorded decision is served until it expires while fewer confirmations than the capacity have followed |
| `BearerRuns.OverlapLosesDecision` | src/strategies/bearer-auth.strategy.ts:139-140 | a concrete overlapping run in which order and retention both fail |
| `Authorization.TokenIsRead` | src/utils/bearer.util.ts:10-14 | any non-blank token after the scheme, in any letter case of the scheme, is read back exactly |
| `Authorization.TokenExactly` | src/utils/bearer.util.ts:1-14 | a token is read if and only if the trimmed header is the scheme in any letter case, one or more blanks and that token: no other scheme, no other shape |
| `Authorization.TokenShape` | src/utils/bearer.util.ts:1-14 | whatever is read is a non-empty run of non-space characters that ends the trimmed header |
| `CachePolicy.KeySeparates` | src/plugins/cache.ts:50-59 | two requests share a key if and only if service, URL, Accept and Accept-Encoding agree |
| `CachePolicy.VaryExactly` | src/plugins/cache.ts:68-77 | a response may be cached across clients if and only if its Vary is absent, or is text or texts every name of which is blank, accept, accept-encoding or origin |
| `CachePolicy.NamesOfJoined` | src/plugins/cache.ts:73-76 | every comma-free name joined into a Vary field is one of its names |
| `CachePolicy.ForbidsExactly` | src/plugins/cache.ts:144 | storing is forbidden if and only if no-store, no-cache or private stands somewhere in the field, touching no word character, in any letter case |
| `CachePolicy.SecondsExactly` | src/plugins/cache.ts:146-147 | a lifetime is read if and only if the pattern occurs, and it is the whole number behind its first occurrence |
| `Text.HasWordExactly` | src/plugins/cache.ts:144 | a word is found if and only if it stands, in some letter case, between no word characters |
| `Text.CharacterClasses` | src/plugins/cache.ts:144-147 | the characters that the patterns and trimming take for blanks, digits and word characters |
| `Text.FoldExactly` | src/plugins/cache.ts:75 | folding letter case takes each capital to its small letter and leaves all else |
| `Text.DecimalStep` | src/plugins/cache.ts:149 | one more digit is ten times the number and that digit |
| `Text.DecimalOfPrinted` | src/plugins/cache.ts:149 | reading a number printed in decimal gives it back |
| `CachePolicy.HasWordByDirective` | src/plugins/cache.ts:144 | a word is found in the field if and only if it is found in one of its comma-separated elements |
| `CachePolicy.SecondsByDirective` | src/plugins/cache.ts:146-148 | the lifetime read is that of the first element in which the pattern matches |
| `CacheDirectives.ForbiddenDirectiveStops` | src/plugins/cache.ts:144 | a no-store, no-cache or private directive, in any case and with any argument, always stops storing |
| `CacheDirectives.NameExactly` | src/plugins/cache.ts:144 | a directive's name is what stands before its first equals sign, trimmed and in small letters |
| `CacheDirectives.ScanReadsDirective` | src/plugins/cache.ts:146-149 | on a `name=digits` directive the scan reads exactly the argument |
| `CacheDirectives.QuotedIsOverlooked` | src/plugins/cache.ts:146-147 | on a `name="digits"` directive the scan finds nothing |
| `CacheDirectives.SecondsAreTheDirectives` | src/plugins/cache.ts:146-147 | for either word the number read is that of its first directive if and only if the first element that holds one is neither a lookalike nor in quotes, or the number behind it happens to be the same |
| `CacheDirectives.LifetimeIsTheDirectives` | src/plugins/cache.ts:146-149 | the lifetime is the s-maxage directive's, else the max-age directive's, if and only if the field is read as written; and it is no longer if and only if the field is read no longer |
| `CacheDirectives.TtlIsTheDirectives` | src/plugins/cache.ts:142-151 | under every configuration a response is kept exactly as long as its directives say, if and only if a directive forbids storing, or no element mentions a forbidding word and the field is read as written (or the directives give no time and a word is mentioned) |
| `CacheDirectives.TtlNoLonger` | src/plugins/cache.ts:142-151 | under every configuration a response is kept no longer than its directives say, if and only if a forbidding word is mentioned or the field is read no longer than written |
| `CacheDirectives.TtlWithinPolicy` | src/plugins/cache.ts:142-151 | a storable response carries no forbidding directive, and its time to live respects the cap and, on those fields, its directives |
| `CacheDirectives.DefaultAppliesExactly` | src/plugins/cache.ts:144-149 | the configured default decides if and only if no element of the field mentions a forbidding word or holds a lifetime |
| `CacheDirectives.DefaultAsDescribed` | src/plugins/cache.ts:90-92 | the default applies just without a Cache-Control, as described, if and only if a field that is there has an element that matches a pattern |
| `CacheControlInputs.LookalikeOverrides` | src/plugins/cache.ts:147 | `x-max-age=9, max-age=5` is stored for 9 seconds where its directives say 5 |
| `CacheControlInputs.PrintedLifetime` | src/plugins/cache.ts:147-150 | `max-age=` and any number printed in decimal is kept that many seconds, under the cap |
| `CacheControlInputs.SharedWins` | src/plugins/cache.ts:146-150 | with `max-age=m, s-maxage=n` it is n seconds |
| `CacheControlInputs.QuotedCommaOverrides` | src/plugins/cache.ts:147 | `ext="a,max-age=9,b", max-age=5` is stored for 9 seconds where its directives say 5 |
| `CacheControlInputs.QuotedArgumentIsOverlooked` | src/plugins/cache.ts:147-149 | `max-age="5"`, and so any one digit, gets the default |
| `CacheControlInputs.MentionStops` | src/plugins/cache.ts:144 | `x-private` is never stored although no directive forbids it |
| `CacheControlInputs.PublicGetsDefault` | src/plugins/cache.ts:149 | `public` gets the default although there is a field |
| `Tee.Listener.OnData` | src/plugins/cache.ts:223-235 | one chunk keeps the listener true to the bytes passed so far, and is the `Observe` of the run model |
| `Tee.Listener.OnEnd` | src/plugins/cache.ts:238-240 | at the end exactly the bytes that passed are stored, if and only if the end is clean and they are within the limit (or no chunk came) |
| `Tee.TeeStream` | src/plugins/cache.ts:217-242 | for every chunking the client gets the source bytes unchanged, and the whole body is stored exactly on a clean end within the limit (or of no chunk) |
| `Tee.ChunkBytes` | src/plugins/cache.ts:227 | a chunk of octets is those octets, a chunk of characters the UTF-8 form that reads back as them |
| `Tee.ObservedTracks` | src/plugins/cache.ts:219-235 | for every chunking the retained bytes are the body or nothing, never more than the limit |
| `Tee.TeeAgreesWithBuffered` | src/plugins/cache.ts:209-213 | the stream branch and the buffer branch store the same, except for no chunk under a negative limit |
| `ResponseCache.Exchange.BeginServe` | src/plugins/cache.ts:154-168 | which requests get a key and which look up, as the `Admit` of the run model |
| `ResponseCache.AdmitExactly` | src/plugins/cache.ts:154-166 | a request is kept out if and only if it is no GET, has a non-empty authorization or cookie field, or says no-store; else it is looked up, or only stored if it says no-cache |
| `ResponseCache.PlanExactly` | src/plugins/cache.ts:181-196 | an answer is to be stored if and only if the request has a key, the status is 200, Vary is safe and the time to live positive; and what is kept are exactly its seven named fields that are texts |
| `ResponseCache.Exchange.FinishServe` | src/plugins/cache.ts:169-179 | a hit is replayed field by field and its key forgotten; a miss changes nothing |
| `ResponseCache.Exchange.StoreHead` | src/plugins/cache.ts:181-196 | the mark and what the store hook captures |
| `ResponseCache.ReplayOfEntry` | src/plugins/cache.ts:171-207 | stored then replayed: status, stored fields and body bytes come back, other fields stay the gateway's |
| `CacheRuns.AdvanceOk` | src/plugins/cache.ts:154-245 | every step of a request keeps its reply in line with the gateway without a cache |
| `CacheRuns.AlwaysStore` | src/plugins/cache.ts:198-207 | whatever the store holds is what the last write for its key put there, with that write's deadline |
| `CacheRuns.AlwaysWrites` | src/plugins/cache.ts:198-242 | every write carries the whole body of a complete storable answer to a request that was not a hit |
| `CacheRuns.OneWriteEach` | src/plugins/cache.ts:198-242 | over a whole run no request's body is written twice |
| `CacheRuns.PlainIsUpstream` | src/plugins/cache.ts:216-242 | the gateway without a cache, which the cached one is compared with, sends on the head that arrived and every octet behind it, in order |
| `CacheRuns.StoreMayFail` | src/plugins/cache.ts:115-134 | every lookup may fail before and after it ran, and the request then goes to the upstream; every write may fail and every entry be lost |
| `CacheTransparency.HitComesFromLastWrite` | src/plugins/cache.ts:115-179 | under any interleaving and failures, a hit is the replay of the last write for its key, looked up before that write's deadline |
| `CacheTransparency.HitRepeatsAnswer` | src/plugins/cache.ts:154-245 | a hit repeats status, stored fields and body of the complete 200 answer to an uncredentialed GET for the same service, URL, Accept and Accept-Encoding; its other fields are the gateway's own |
| `CacheTransparency.HitIsOwnAnswer` | src/plugins/cache.ts:25-30 | if the storable answers of the run come from an upstream, possibly changing over time, two storable answers of which are the same when URL and the fields in Vary agree, a hit is what it would have answered to this very request when it answered the visit behind the last write, should that be a storable answer; answers that may not be stored, such as 304 or 206, are arbitrary |
| `CacheTransparency.HitIsFresh` | src/plugins/cache.ts:89-92 | a hit was looked up within the cap, of a response without forbidding directive, and within its directives' time to live on every field read no longer than written |
| `CacheTransparency.WrittenExactly` | src/plugins/cache.ts:186-240 | at the end of a stream the whole body is handed to the store if and only if the request may use the cache, the answer may be stored and the stream ended cleanly within the limit (or of no chunk) |
| `CacheTransparency.BufferedWrittenExactly` | src/plugins/cache.ts:209-213 | a body in memory is handed to the store at once if and only if the same holds and it is within the limit; other payloads never |
| `CacheTransparency.LooksUpExactly` | src/plugins/cache.ts:154-168 | a request that arrives is looked up if and only if it is a GET without credentials, no-store and no-cache; any other goes to the upstream |
| `CacheTransparency.HitExactly` | src/plugins/cache.ts:115-171 | a lookup answered in time is a hit if and only if its key was last written by a write neither lost nor past its deadline; else the upstream is asked |
| `CacheTransparency.StoredThenHit` | src/plugins/cache.ts:154-245 | for all cacheable requests, storable answers and instants there is a run in which the answer to the first is stored and, until its time to live is over, repeated to the second |
| `CacheTransparency.StoreKeeps` | src/plugins/cache.ts:204 | the store holds an entry if and only if one was written and not lost since |
| `CacheTransparency.LookupFindsLastWrite` | src/plugins/cache.ts:115-134 | a lookup finds exactly the last write for its key unless lost or past its deadline |
| `CacheTransparency.FailsOpen` | src/plugins/cache.ts:98-99 | whatever fails, a request that is not a hit has at every moment the status, fields and bytes of the gateway without a cache, marked as a miss if and only if it may use the cache |
| `CacheTransparency.HitIsNotStored` | src/plugins/cache.ts:171 | a hit is never stored again |
| `CacheTransparency.BypassTouchesNothing` | src/plugins/cache.ts:155-161 | non-GET requests, those with a non-empty authorization or cookie field and no-store requests neither read nor write the store and are not marked |
| `CacheTransparency.RevalidationIsNoHit` | src/plugins/cache.ts:165-166 | a no-cache request never reads the store |
| `Utf8.DecodeEncode` | src/utils/basic-auth.util.ts:52 | every text comes back from its UTF-8 bytes |
| `Utf8.KnownEncodings` | src/utils/basic-auth.util.ts:69 | one character of each longer form has its encoding of RFC 3629 |
| `Utf8.OnlyEncodingsAreRead` | src/utils/basic-auth.util.ts:52 | every character read from arbitrary bytes, but for replacements, stands for the bytes that encode it |
| `Utf8.KnownReplacements` | src/utils/basic-auth.util.ts:52 | bad leads, overlong forms and surrogates become a replacement for each byte |
| `Utf8.CutOffCharacters` | src/utils/basic-auth.util.ts:52 | a character cut off after one, two or three bytes becomes one replacement, and reading goes on behind it |
| `Base64.DecodeEncode` | src/utils/basic-auth.util.ts:52-69 | every byte sequence comes back from its Base64 text, with every padding |
| `Base64.SymbolExactly` | src/utils/basic-auth.util.ts:69 | the encoder writes the alphabet of RFC 4648 |
| `Base64.ValueExactly` | src/utils/basic-auth.util.ts:52 | the decoder reads that alphabet and the two URL-safe symbols, and nothing else |
| `Base64.TestVectors` | src/utils/basic-auth.util.ts:69 | three test vectors of RFC 4648, one for each padding |
| `Base64.ForeignIsSkipped` | src/utils/basic-auth.util.ts:52 | a symbol of no alphabet changes nothing |
| `Base64.PaddingEnds` | src/utils/basic-auth.util.ts:52 | nothing behind the first `=` is read |
| `Base64.LoneSymbolIsDropped` | src/utils/basic-auth.util.ts:52 | a lone symbol behind whole groups adds no byte |
| `BasicAuth.ParseEncoded` | src/utils/basic-auth.util.ts:46-70 | parsing an encoded text gives it back, cut at its first colon, or nothing without a colon |
| `BasicAuth.EncodedForm` | src/utils/basic-auth.util.ts:68-70 | the header written for "a:b" |
| `BasicAuth.BasicRoundTrip` | src/utils/basic-auth.util.ts:46-70 | any colon-free username and any password make the round trip |
| `BasicAuth.BasicRoundTripExact` | src/utils/basic-auth.util.ts:46-70 | the round trip succeeds if and only if the username has no colon |
| `BasicAuth.ParseUserList` | src/utils/basic-auth.util.ts:14-37 | the loop over the entries computes the map, or the first error |
| `BasicAuth.EntryExact` | src/utils/basic-auth.util.ts:21-33 | an entry is accepted if and only if it is a non-empty colon-free name, a colon and a non-empty password |
| `BasicAuth.UserListExact` | src/utils/basic-auth.util.ts:14-37 | the list is accepted if and only if every entry is well formed and names are distinct, and then the map is exactly those pairs |
| `BasicAuth.FirstError` | src/utils/basic-auth.util.ts:19-33 | a refused list is refused for its first entry that spoils it: as malformed, or as a repeated user if it is well formed |
| `BasicAuth.PrintThenParse` | src/utils/basic-auth.util.ts:6-7 | printing any admissible map in any order and parsing it gives the map back |
| `BasicAuth.ParsedIsAdmissible` | src/utils/basic-auth.util.ts:14-37 | only admissible maps are ever parsed |
| `BasicAuth.AdmittedIffListed` | src/strategies/basic-auth.strategy.ts:19-44 | from configuration text to decision: admitted if and only if the header decodes to a pair some entry spells; misconfigured if and only if there is no entry |
| `BasicAuth.EncodedUserDecision` | src/strategies/basic-auth.strategy.ts:29-43 | presented encoded credentials are admitted if and only if they are an entry, the timing dummy included |
| `Tracing.FormatParses` | src/utils/tracing.util.ts:33-54 | parsing inverts formatting on exactly the valid contexts |
| `Tracing.CarriableExactly` | src/utils/tracing.util.ts:4-6 | a context the header can carry is 32, 16 and 2 lower-case hex digits with neither id all zero |
| `Tracing.ParsedFormats` | src/utils/tracing.util.ts:33-54 | parsing yields only valid contexts, and re-formatting gives "00" and the trimmed header from its third character on |
| `Tracing.VersionsAccepted` | src/utils/tracing.util.ts:33-44 | a header is accepted if and only if it is a version-00 header but for its two version digits, which may be any but ff |
| `Tracing.VersionAsDescribed` | src/utils/tracing.util.ts:29-31 | parsing accepts exactly the version-00 headers, as described, if and only if this header is not a version-00 header under two other hex digits than 00 and ff |
| `Tracing.AcceptsVersionOne` | src/utils/tracing.util.ts:40 | a version-01 header that is accepted |
| `Tracing.Exchange.OnRequest` | src/plugins/request-context.ts:24-60 | the hook's whole effect on the request fields, the ids and the reply fields |
| `Tracing.HopExactly` | src/plugins/request-context.ts:44-54 | a hop sets x-request-id, x-correlation-id and traceparent, may drop tracestate, and changes no other field |
| `Tracing.IdsExactly` | src/plugins/request-context.ts:24-31 | an incoming id is honoured if it is safe; else the request gets its own and the correlation id is the request id |
| `Tracing.SafeIdExactly` | src/constants/patterns.constants.ts:6 | a safe id is 1 to 128 letters, digits, underscores, dots and hyphens |
| `Tracing.ChainKeepsOthers` | src/plugins/request-context.ts:42-54 | over any number of hops every other field arrives as it was sent |
| `Tracing.ChainKeepsTrace` | src/plugins/request-context.ts:33-54 | over any number of hops trace id, flags, request id and correlation id are those of the first hop, and tracestate is what the first hop kept |
| `Tracing.ChainIsReadable` | src/utils/tracing.util.ts:63-78 | the end of any chain reads the incoming trace id and flags, or the first hop's new sampled trace |
| `Tracing.TracestateSurvives` | src/plugins/request-context.ts:47-54 | tracestate survives any number of hops if and only if the first hop continued a valid trace and it has at most 512 characters |
| `IpFilter.BuildIpList` | src/utils/ip-list.util.ts:12-40 | the loop builds the rules of the entries in order, no list for no entry, and reports the first bad entry |
| `IpFilter.ItemsExactly` | src/utils/ip-list.util.ts:13-16 | the entries are the trimmed, non-empty parts between commas |
| `IpFilter.RefusedExactly` | src/utils/ip-list.util.ts:21-36 | an entry is refused as such if and only if its address is none or it has a second slash, and for its prefix if and only if that is no integer within 0 and 32 or 128 |
| `IpFilter.FirstBadEntry` | src/utils/ip-list.util.ts:20-36 | a list is refused if and only if some entry is, and with the error of the first |
| `IpFilter.PlainEntryCovers` | src/utils/ip-list.util.ts:27-30 | a plain address covers itself and nothing else |
| `IpFilter.DecimalPrefixCovers` | src/utils/ip-list.util.ts:32-37 | a decimal prefix covers exactly the addresses of the family with the same quotient by 2 to the free bits |
| `IpFilter.KnownSizes` | src/utils/ip-list.util.ts:33 | the widths of the families and the sizes of some blocks |
| `IpFilter.PrefixIsQuotient` | src/utils/ip-list.util.ts:32-37 | agreeing on the first bits is lying in the same block |
| `IpFilter.MatchesIsInRange` | src/utils/ip-list.util.ts:27-37 | an entry matches exactly the aligned interval of size 2 to the free bits |
| `IpFilter.Boot` | src/plugins/ip-filter.ts:23-25 | boot succeeds if and only if both texts are well formed, and then each list is the one its text stands for; else the first error is reported, allow list first |
| `IpFilter.OnRequest` | src/plugins/ip-filter.ts:30-34 | with lists built from two configuration texts the hook blocks a client if and only if it is in a block of the deny text, or the allow text has entries and it is in none of their blocks |
| `IpFilter.BlockedExactly` | src/plugins/ip-filter.ts:30-34 | a client is blocked if and only if it is in a deny block, or there are allow entries and it is in no allow block |
| `IpFilter.OrderDoesNotMatter` | src/plugins/ip-filter.ts:23-34 | order and repetition of entries change neither booting nor any decision |
| `IpFilter.MappedClient` | src/utils/ip-list.util.ts:49-52 | an IPv4-mapped client is decided as the IPv4 client it is |
| `IpFilter.NormalizeExactly` | src/utils/ip-list.util.ts:49-52 | an address is looked up as another one if and only if it is ::ffff: in any letter case in front of that IPv4 address |
| `IpFilter.DecimalPrefix` | src/utils/ip-list.util.ts:32-37 | a decimal prefix is accepted exactly up to the width of the family, and leaves width minus prefix bits free |
| `IpFilter.WholeFamilyExactly` | src/utils/ip-list.util.ts:21-37 | an entry covers its whole address family if and only if what follows its only slash is read as 0 |
| `IpFilter.EmptyPrefixCoversFamily` | src/utils/ip-list.util.ts:32 | an entry that ends in its slash does so where Number("") is 0 |
| `Alerts.Throttle.OnResponse` | src/plugins/alerts.ts:61-66 | when an alert is sent and what becomes of the time of the last one |
| `Alerts.Throttle.OnResponses` | src/plugins/alerts.ts:39-66 | a run from boot sends exactly the alerts of the specification |
| `Alerts.AlertsAreSpaced` | src/plugins/alerts.ts:64-66 | consecutive alerts are at least the interval apart |
| `Alerts.AlertsPerWindow` | src/plugins/alerts.ts:17-18 | any window of length W sees at most W / interval + 1 alerts |
| `Alerts.SuppressedExactly` | src/plugins/alerts.ts:41-66 | a response is alerted on if and only if it is 5xx, or 4xx at level warn, and comes no less than the interval after every earlier alert, or, before any, after time zero |
| `Alerts.AlertsQualify` | src/plugins/alerts.ts:62 | every alert of a run stands for such a response, at its instant |
| `Alerts.GreedyIsMaximal` | src/plugins/alerts.ts:61-66 | no choice of qualifying responses that keeps the interval sends more alerts |

## Left out

- Fastify's hook scheduling, the rate limiter, load shedding, JWT verification, the proxy itself and webhook delivery with its retries: library behaviour.
- Error bodies, alert texts, logging, metrics, health routes, the header rewriter and environment readers: single decisions or output.
- Rounding of very large `max-age` numbers: numbers are exact integers, so lifetimes beyond 2^53 milliseconds are not rounded as JavaScript would.
- Fractional configuration numbers: capacities, windows and limits are integers.
- Entries written to the store by anyone but the gateway, and text in the store that is not JSON.
- Timing side channels and the inside of SHA-256.
- `net.BlockList` across families: IPv4 rules match IPv4 addresses and IPv6 rules IPv6 addresses; a client address that is no IP address at all is not modelled.
- The time between the store's answer to a lookup and its arrival: freshness is stated at the instant the store answers, and the timer of 150 ms appears only as a lookup that may fail.
- BoundedRevocation: the time limit of an introspection appears as the parameter `delay`, counted from the start of the call to the recording of its reply; the source aborts the call after 2000 ms.
