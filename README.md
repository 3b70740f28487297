# Response rewriting for a front-door proxy, in Dafny

This project models the part of the FrontDoorHttpResponseRewrite samples that
decides what a client finally sees of a response:

- **`ResponseRewriteFilter`**, the stream an IIS module puts in front of a
  response's output. Five events may be subscribed: `CaptureStream` and
  `CaptureString` (observers), and `TransformWrite`, `TransformStream` and
  `TransformString` (transforms). From which of them are present the filter
  derives two flags, `IsCaptured` and `IsOutputDelayed`. The flags decide
  whether a `Write` is copied into the private cache, whether it is passed to
  the wrapped stream at once, and whether `Flush` transforms the cache, shows
  it to the observers and writes it out.
- **The IIS module** `ContentRewriteHttpModule`. It installs the filter when a
  request carries the `CUSTOMER_HOST_NAME` header, and subscribes only
  `TransformString`, which rewrites `//localhost/` links to the customer's
  host.
- **The Azure Function**. Its `SanitizeHttpResponse` rewrites a buffered body
  whose media type starts with `text` or `application/json`, using
  `String.Replace`. `Run` builds the forwarded URL. `CopyTo` decides which
  request headers are forwarded and whether a body is attached.

Layout, one module per file:

- `wrappers.dfy` (`Option`, `Result`) and `encoding.dfy` (bytes; the response's
  text codec as a pair of functions).
- `ordinal_text.dfy`: ordinal and ignore-case comparison.
- `headers.dfy`: header collections, one entry per name ignoring case.
- `string_replace.dfy`: `String.Replace`, with `Split`/`Join` as its reference
  definition.
- `filter_policy.dfy`: the hook set, the two flags and the `On*` helpers.
- `filter_spec.dfy`: `Write` and `Flush` as functions on the filter's state,
  and the lemmas about sequences of calls.
- `response_rewrite_filter.dfy`: the `ResponseRewriteFilter` class. Its methods
  change its fields in place and are proved to produce the state the
  `filter_spec.dfy` functions give. `Write` and `Flush` take the response's
  content encoding as it is at the time of the call, since the code reads
  `Response.ContentEncoding` afresh at every decode and encode.
- `content_rewrite_module.dfy`: the IIS module.
- `sanitize_response_body.dfy` and `request_forwarding.dfy`: the Function.

Behaviours of the code that the model keeps exactly as written:

- `Write` copies `buffer[0..count]` into the cache and ignores `offset`.
- The chunk transforms act on the whole array, not on the `offset`/`count`
  slice.
- The pass-through write sends the whole transformed array, starting at
  `offset`.
- In delayed mode the chunk transforms are still evaluated, but their result
  is dropped.
- `TransformString` serves both as the per-chunk text transform and as the
  whole-buffer text transform.
- `_cachePointer` is never reset.
- A flush that finds an empty cache writes nothing, even when the
  transforms would map empty text to something.

Further behaviours of the code worth noting:

- The special-case header label is `AcceptEncoding` (no hyphen), so
  `Accept-Encoding` is forwarded.
- A decoding failure is not recovered from: decoding is a total function here.
- An empty `TARGET_URI` makes `String.Replace` throw. The rewrite is not
  skipped in that case.

## Model

| member | source | states |
|---|---|---|
| FilterPolicy.IsOutputDelayed | ResponseRewriteFilter.cs:37-46 | output goes downstream at each write only when both whole-buffer transforms are subscribed; a filter with no hooks delays |
| FilterPolicy.IsCaptured | ResponseRewriteFilter.cs:26-35 | a filter caches whenever a capture event is subscribed or output is delayed |
| FilterPolicy.CapturedIffCaptureOrDelayed | ResponseRewriteFilter.cs:26-46 | `IsCaptured` holds exactly when a capture event is subscribed or output is delayed; delayed output implies caching |
| FilterPolicy.DelayIgnoresCapturesAndChunkTransform | ResponseRewriteFilter.cs:37-46 | `IsOutputDelayed` depends on neither the captures nor `TransformWrite`; without captures, not caching is the same as not delaying |
| FilterPolicy.OnTransformWrite | ResponseRewriteFilter.cs:78-83 | an absent `TransformWrite` leaves the chunk as it is |
| FilterPolicy.OnTransformWriteString | ResponseRewriteFilter.cs:92-97 | an absent `TransformString` leaves the text as it is |
| FilterPolicy.OnTransformWriteStringInternal | ResponseRewriteFilter.cs:85-90 | without `TransformString` the chunk is still decoded and re-encoded, so it comes back unchanged only for a codec that round-trips |
| FilterPolicy.OnTransformCompleteStream | ResponseRewriteFilter.cs:100-106 | an absent `TransformStream` leaves the buffer as it is |
| FilterPolicy.OnTransformCompleteStringInternal | ResponseRewriteFilter.cs:116-131 | without `TransformString` the buffer is returned without being re-encoded |
| FilterPolicy.ChunkOutput | ResponseRewriteFilter.cs:167-171 | with `TransformString` the chunk becomes `encode(TransformString(decode(TransformWrite?(buffer))))`; with no chunk transforms it is the chunk itself |
| FilterPolicy.FinalBuffer | ResponseRewriteFilter.cs:183-184 | with neither whole-buffer transform the final buffer is the cache, untransformed |
| FilterPolicy.CaptureEvents | ResponseRewriteFilter.cs:186-187 | the stream capture (first) receives the final buffer and the string capture (last) its decoded text, each only when subscribed |
| FilterPolicy.FinalBufferIgnoresCaptures | ResponseRewriteFilter.cs:183-187 | the final buffer and the chunk output do not depend on the capture events |
| FilterSpec.Write | ResponseRewriteFilter.cs:158-175 | a write only appends: the cache grows by exactly `count` bytes when caching and not at all otherwise; the wrapped stream grows only when output is not delayed; flushes, position and captures are unchanged |
| FilterSpec.Flush | ResponseRewriteFilter.cs:178-199 | the wrapped stream is flushed once more; a caching filter ends with an empty cache; bytes and captures are only appended, bytes only in delayed mode; `_cachePointer` and position are kept |
| FilterSpec.WriteCachesRawPrefix | ResponseRewriteFilter.cs:160-165 | when caching, a write appends exactly the raw `buffer[0..count]` and advances `_cachePointer` by `count`; otherwise neither changes; `Position`, flushes and captures are untouched |
| FilterSpec.WriteDownstream | ResponseRewriteFilter.cs:167-174 | delayed output leaves the wrapped stream unchanged; otherwise it receives `encode(TransformString(decode(TransformWrite?(buffer))))` |
| FilterSpec.DelayedDiscardsChunkTransform | ResponseRewriteFilter.cs:167-174 | in delayed mode `TransformWrite` has no effect on the state |
| FilterSpec.FlushIdle | ResponseRewriteFilter.cs:178-199 | when not caching or the cache is empty, a flush only flushes the wrapped stream |
| FilterSpec.FlushActs | ResponseRewriteFilter.cs:180-195 | an acting flush computes `F`, shows `F` and `decode(F)` to the captures, writes `F` only in delayed mode, empties the cache and keeps `_cachePointer` |
| FilterSpec.SecondFlushAddsNothing | ResponseRewriteFilter.cs:178-199 | a second flush adds no bytes and no captures |
| FilterSpec.WritesAccumulate | ResponseRewriteFilter.cs:158-165 | after any writes, a caching filter's cache is the old cache plus all payloads, `_cachePointer` counts them, and delayed output sends nothing |
| FilterSpec.DelayedWritesThenFlush | ResponseRewriteFilter.cs:158-199 | delayed mode: writes on an empty cache then a flush deliver `FinalBuffer(payloads)` exactly once, or nothing if the payloads are empty |
| FilterSpec.NoHooksDeliverOnce | ResponseRewriteFilter.cs:158-199 | with no hooks, writes then one flush deliver the concatenated `buffer[0..count]` once; a second flush adds nothing |
| FilterSpec.StepIgnoresCaptures | ResponseRewriteFilter.cs:186-191 | one call with and without captures keeps the wrapped stream's bytes (and, when delayed, the caches) equal |
| FilterSpec.CapturesDoNotAffectOutputFrom | ResponseRewriteFilter.cs:186-191 | from related states, runs with and without the capture events deliver the same bytes downstream |
| FilterSpec.CapturesDoNotAffectOutput | ResponseRewriteFilter.cs:186-191 | subscribing capture events never changes the bytes the wrapped stream receives, over any sequence of writes and flushes |
| FilterSpec.IdentityWrite | ResponseRewriteFilter.cs:167-174 | identity transforms and a round-tripping codec: a whole-array write passes the array on unchanged |
| FilterSpec.PassThroughDeliversPayloads | ResponseRewriteFilter.cs:167-174 | in that configuration the wrapped stream receives the concatenated chunks, in order |
| FilterSpec.ChunkingInvariance | ResponseRewriteFilter.cs:158-199 | in that configuration, writing in chunks delivers the same bytes as one write of the whole body, before and after the closing flush |
| FilterSpec.CacheIgnoresOffset | ResponseRewriteFilter.cs:163 | writing 2 bytes at offset 1 of [7, 8, 9] caches [7, 8] |
| FilterSpec.PassThroughIgnoresCount | ResponseRewriteFilter.cs:174 | writing 1 byte of [7, 8, 9] in pass-through delivers all three bytes |
| RewriteFilter.ResponseRewriteFilter.constructor | ResponseRewriteFilter.cs:14-24 | a new filter wraps the given stream, has no hooks, an empty cache, and pointer and position 0 |
| RewriteFilter.ResponseRewriteFilter.SubscribeCaptureStream | ResponseRewriteFilter.cs:48 | subscribing sets only that event |
| RewriteFilter.ResponseRewriteFilter.SubscribeCaptureString | ResponseRewriteFilter.cs:50 | subscribing sets only that event |
| RewriteFilter.ResponseRewriteFilter.SubscribeTransformWrite | ResponseRewriteFilter.cs:52 | subscribing sets only that event |
| RewriteFilter.ResponseRewriteFilter.SubscribeTransformStream | ResponseRewriteFilter.cs:54 | subscribing sets only that event |
| RewriteFilter.ResponseRewriteFilter.SubscribeTransformString | ResponseRewriteFilter.cs:56 | subscribing sets only that event |
| RewriteFilter.ResponseRewriteFilter.Length | ResponseRewriteFilter.cs:139 | `Length` is 0 whatever is cached |
| RewriteFilter.ResponseRewriteFilter.SetPosition | ResponseRewriteFilter.cs:141 | the setter changes only the position field |
| RewriteFilter.ResponseRewriteFilter.Write | ResponseRewriteFilter.cs:158-175 | with the response's current encoding, the new state is the one `FilterSpec.Write` gives; the (unbounded) byte counter never decreases and is at least the cache's length; the cache is always the bytes retained since the last acting flush |
| RewriteFilter.ResponseRewriteFilter.Flush | ResponseRewriteFilter.cs:178-199 | with the response's current encoding, the new state is the one `FilterSpec.Flush` gives; `_cachePointer` is unchanged and at least the cache's length; the cache invariant is kept |
| StringReplace.Replace | AFD.Samples.HttpResponseRewrite.Function/SanitizeResponseBodyFunction.cs:61 | replacing the pattern by itself changes nothing |
| StringReplace.ReplaceIsJoinOfSplit | AFD.Samples.HttpResponseRewrite.Function/SanitizeResponseBodyFunction.cs:61 | replacing means cutting at each left-to-right, non-overlapping match and gluing the pieces back with the replacement |
| StringReplace.SplitJoinRoundTrip | AFD.Samples.HttpResponseRewrite.Function/SanitizeResponseBodyFunction.cs:61 | gluing the pieces back with the pattern restores the input |
| StringReplace.SplitCount | AFD.Samples.HttpResponseRewrite.Function/SanitizeResponseBodyFunction.cs:61 | there is one piece more than there are matches |
| StringReplace.ReplaceLength | AFD.Samples.HttpResponseRewrite.Function/SanitizeResponseBodyFunction.cs:61 | with `n` matches the output length is `len + n*(len(new) - len(old))` |
| StringReplace.CountZeroIffAbsent | AFD.Samples.HttpResponseRewrite.Function/SanitizeResponseBodyFunction.cs:61 | the scan finds no match exactly when the pattern does not occur |
| StringReplace.ReplaceAbsent | AFD.Samples.HttpResponseRewrite.Function/SanitizeResponseBodyFunction.cs:61 | text without the pattern is returned unchanged |
| StringReplace.ReplaceLeadingMatch | AFD.Samples.HttpResponseRewrite.Function/SanitizeResponseBodyFunction.cs:61 | a leading match is replaced and scanning resumes after it |
| StringReplace.ReplaceCopiesUntilMatch | AFD.Samples.HttpResponseRewrite.Function/SanitizeResponseBodyFunction.cs:61 | text in front of the first match is copied unchanged |
| StringReplace.SinglePass | AFD.Samples.HttpResponseRewrite.Function/SanitizeResponseBodyFunction.cs:61 | occurrences created by the inserted text are not replaced again |
| OrdinalText.EqualsIgnoreCase | AFD.Samples.HttpResponseRewrite.Function/SanitizeResponseBodyFunction.cs:56-57 | ordinal ignore-case equality: equal strings pass, and only strings of equal length can |
| OrdinalText.StartsWithIgnoreCase | AFD.Samples.HttpResponseRewrite.Function/SanitizeResponseBodyFunction.cs:56-57 | `StartsWith(prefix, OrdinalIgnoreCase)`: a passing string is at least as long as the prefix, and an exact prefix passes |
| OrdinalText.StartsWithIgnoreCaseExtends | AFD.Samples.HttpResponseRewrite.Function/SanitizeResponseBodyFunction.cs:56-57 | an ignore-case prefix test is unaffected by what follows the prefix |
| OrdinalText.StartsWithExactly | AFD.Samples.HttpResponseRewrite.Function/SanitizeResponseBodyFunction.cs:56-57 | an exact prefix passes the ignore-case test |
| SanitizeResponseBody.ForwardedUrl | AFD.Samples.HttpResponseRewrite.Function/SanitizeResponseBodyFunction.cs:38 | the URL starts with `http://`, ends with the query string, and has room for exactly the host, one `/` and the path |
| SanitizeResponseBody.ForwardedUrlHost | AFD.Samples.HttpResponseRewrite.Function/SanitizeResponseBodyFunction.cs:38 | the forwarded URL is `http://` followed by a host that reads back as `TARGET_URI` (empty when unset) |
| SanitizeResponseBody.IsRewritable | AFD.Samples.HttpResponseRewrite.Function/SanitizeResponseBodyFunction.cs:56-57 | an eligible media type has at least four characters, and `text` and `application/json` themselves, in any case, are eligible |
| SanitizeResponseBody.GateExamples | AFD.Samples.HttpResponseRewrite.Function/SanitizeResponseBodyFunction.cs:56-57 | "TEXT/HTML", "textual" and "application/json-seq" pass the gate; "image/png" and "application/xml" do not |
| SanitizeResponseBody.GateIsPrefixTest | AFD.Samples.HttpResponseRewrite.Function/SanitizeResponseBodyFunction.cs:56-57 | any extension of an eligible media type is eligible |
| SanitizeResponseBody.SanitizeHttpResponse | AFD.Samples.HttpResponseRewrite.Function/SanitizeResponseBodyFunction.cs:53-63 | ineligible content is returned untouched; eligible content fails exactly when `TARGET_URI` is null or empty; otherwise it becomes string content of the same media type holding the decoded body split at `TARGET_URI` and joined with the new address |
| SanitizeResponseBody.SanitizeWithoutTarget | AFD.Samples.HttpResponseRewrite.Function/SanitizeResponseBodyFunction.cs:61 | an eligible body without `TARGET_URI` is rewritten to identical text |
| SanitizeResponseBody.SanitizeLength | AFD.Samples.HttpResponseRewrite.Function/SanitizeResponseBodyFunction.cs:61 | the rewritten text has the length law above, and equals the body when the new address is the old one |
| ContentRewriteModule.HasKey | AFD.Samples.HttpResponseRewrite.IISModule/ContentRewriteHttpModule.cs:36 | `AllKeys.Contains` compares exactly, so a name it finds is also found ignoring case |
| ContentRewriteModule.HeaderValue | AFD.Samples.HttpResponseRewrite.IISModule/ContentRewriteHttpModule.cs:36-38 | a value is found exactly when `AllKeys` holds the name (case-sensitively), and it is the value of that entry |
| ContentRewriteModule.HeaderValueIsIndexerLookup | AFD.Samples.HttpResponseRewrite.IISModule/ContentRewriteHttpModule.cs:38 | in a collection with one entry per name, that value is the one the ignore-case indexer `Headers[name]` returns |
| ContentRewriteModule.FilterTransformString | AFD.Samples.HttpResponseRewrite.IISModule/ContentRewriteHttpModule.cs:47-50 | each of the `n` links found changes the length by `len(host) - 9`; the host `localhost` leaves the text as it is |
| ContentRewriteModule.FilterTransformStringWithoutLocalhost | AFD.Samples.HttpResponseRewrite.IISModule/ContentRewriteHttpModule.cs:47-50 | text without `//localhost/` is returned unchanged |
| ContentRewriteModule.LinkWithPortUnchanged | AFD.Samples.HttpResponseRewrite.IISModule/ContentRewriteHttpModule.cs:49 | "http://localhost:8080/" is not rewritten |
| ContentRewriteModule.LocalhostLinkRewritten | AFD.Samples.HttpResponseRewrite.IISModule/ContentRewriteHttpModule.cs:49 | a leading `//localhost/` becomes `//<customer host>/` and the rest is rewritten after it |
| ContentRewriteModule.ModuleFilterDelays | AFD.Samples.HttpResponseRewrite.IISModule/ContentRewriteHttpModule.cs:42 | the module's filter both caches and delays its output |
| ContentRewriteModule.ModuleEndToEnd | AFD.Samples.HttpResponseRewrite.IISModule/ContentRewriteHttpModule.cs:42-43 | nothing reaches the wrapped stream before `Flush`, which then writes `encode(Filter_TransformString(decode(w1[0..c1] + .. + wn[0..cn])))` once |
| ContentRewriteModule.ContentRewriteHttpModule.constructor | AFD.Samples.HttpResponseRewrite.IISModule/ContentRewriteHttpModule.cs:28 | a new module has no `customer_base_uri` (null) |
| ContentRewriteModule.ContentRewriteHttpModule.AddRewriteFilter | AFD.Samples.HttpResponseRewrite.IISModule/ContentRewriteHttpModule.cs:31-45 | for a header collection with one entry per name, only `customer_base_uri` and `response.Filter` may change (never the response's encoding): without the header neither does; with it, `customer_base_uri` is the header value and a fresh filter wrapping the previous `response.Filter`, subscribing only the rewrite, becomes `response.Filter` |
| RequestForwarding.AcceptValue | AFD.Samples.HttpResponseRewrite.Function/Extensions.cs:41 | a non-empty result is the value of a header named `Accept` ignoring case, and the first such header's value is always the result |
| RequestForwarding.AcceptValueIsIndexerLookup | AFD.Samples.HttpResponseRewrite.Function/Extensions.cs:41 | with one entry per name, a present `Accept` header, whatever the case of its name, is read, and an absent one reads as "" |
| RequestForwarding.IsPlatformHeader | AFD.Samples.HttpResponseRewrite.Function/Extensions.cs:17-26 | the platform labels all start with an upper-case letter |
| RequestForwarding.IsSpecialHeader | AFD.Samples.HttpResponseRewrite.Function/Extensions.cs:29-32 | the special labels start with an upper-case letter and are none of the platform labels |
| RequestForwarding.IsSkipped | AFD.Samples.HttpResponseRewrite.Function/Extensions.cs:14-37 | the switch compares exactly, so a name that does not start with an upper-case letter is never skipped |
| RequestForwarding.CopiedHeader | AFD.Samples.HttpResponseRewrite.Function/Extensions.cs:14-37 | one header yields nothing exactly when its name is a label, and otherwise one entry with its own name and value |
| RequestForwarding.CopiedHeaders | AFD.Samples.HttpResponseRewrite.Function/Extensions.cs:12-37 | the loop adds at most one entry per request header, and never one whose name is a switch label |
| RequestForwarding.CopyTo | AFD.Samples.HttpResponseRewrite.Function/Extensions.cs:10-49 | the destination gains the copied headers in order, then the Accept entry; a body is attached exactly when the body rule holds, otherwise the content is unchanged |
| RequestForwarding.CopiedIff | AFD.Samples.HttpResponseRewrite.Function/Extensions.cs:14-37 | a header is added by the loop exactly when the request has it and its name is none of the switch's labels |
| RequestForwarding.CopiedAreNamed | AFD.Samples.HttpResponseRewrite.Function/Extensions.cs:35-37 | the loop only adds named headers |
| RequestForwarding.CopiedKeepsOrder | AFD.Samples.HttpResponseRewrite.Function/Extensions.cs:12 | the loop keeps the request's enumeration order |
| RequestForwarding.UserAgentDroppedAcceptLast | AFD.Samples.HttpResponseRewrite.Function/Extensions.cs:29-41 | `User-Agent` is never forwarded, and the Accept value is added once, last |
| RequestForwarding.SwitchIsExact | AFD.Samples.HttpResponseRewrite.Function/Extensions.cs:14-37 | `host` and `Accept-Encoding` are copied; `AcceptEncoding` is not |
| RequestForwarding.LowerCaseAcceptForwardedTwice | AFD.Samples.HttpResponseRewrite.Function/Extensions.cs:36-41 | a lower-case `accept` header is copied by the loop and also read back as the Accept value |
| RequestForwarding.AttachesBody | AFD.Samples.HttpResponseRewrite.Function/Extensions.cs:43-48 | a body needs a declared length of at least 1, and `GET` and `HEAD` never get one |
| RequestForwarding.BodyRuleExamples | AFD.Samples.HttpResponseRewrite.Function/Extensions.cs:43-48 | `POST` and `get` with length 1 attach a body; `GET`, `HEAD`, length 0 and no length do not |

## Left out

- `Read`, `Seek` and `SetLength` (ResponseRewriteFilter.cs:143-156) delegate to .NET streams. The cache is an append-only sequence, so the model assumes nothing repositions the cache stream between writes.
- `OnTransformCompleteString` (ResponseRewriteFilter.cs:108-113) is never called.
- Events are single optional functions. Subscribing a second time replaces the first subscriber, whereas .NET would chain the two.
- Capture events only observe: they are recorded in a log and cannot change the cache they are shown.
- `TransformWrite` receives and returns a value. A transform that mutates the caller's array in place (aliasing) is not modelled.
- The response's content encoding, `ReadAsStringAsync` and the UTF-8 of `StringContent` are abstract decode/encode functions. No law about them is assumed unless a lemma states one as a hypothesis.
- Ignore-case comparison folds ASCII letters only. .NET's ordinal ignore-case also folds other letters, but no non-ASCII letter upper-cases to one of the ASCII letters in the prefixes tested here.
- Network and configuration are left out: `HttpClient`, `SendAsync`, gzip decompression and the async flow. Environment variables are parameters, with `None` for an unset variable.
- A null content type or media type (a `NullReferenceException` in the Function) is not modelled.
- `Headers.Add` validation is not modelled. For example, adding `Content-Type` to request headers throws.
- `Headers.Accept.ParseAdd` parsing is left out; the raw value is recorded as an opaque entry.
- The body is only a flag saying whether `StreamContent` was attached.
- IIS registration (`Init`, `Dispose`, the `BeginRequest` wiring) and threads are not modelled. One filter is driven sequentially.
- RewriteFilter.ResponseRewriteFilter.Write: `_cachePointer` is an unbounded integer here; the code's 32-bit `int` grows with unchecked `+=` and is never reset, so after 2^31-1 cached bytes over the filter's life it wraps negative. The field is never read, so no output depends on it, but "never decreases" holds only of the model.
- `(int)_cacheStream.Length` cannot overflow because a memory stream stays below 2^31 bytes, so the cast is not modelled.
- RewriteFilter.ResponseRewriteFilter.Write: in pass-through mode the wrapped stream rejects any `offset` other than 0, because the code writes `buffer.Length` bytes from `offset`. The model requires `offset == 0` in that mode instead of modelling the exception.
- Header collections are sequences with one entry per name, names distinct ignoring case, each value already joined with "," as `NameValueCollection` and `IHeaderDictionary` join repeated headers; `AddRewriteFilter` and `CopyTo` require this shape, and the joining itself is not modelled.
- ContentRewriteModule.ContentRewriteHttpModule.AddRewriteFilter: the subscribed transform uses the host read at subscription time. The code reads the module's `customer_base_uri` field when the transform runs, and a later request on the same module instance could change that field before a pending flush.
- Bodies with several occurrences of the target address are covered by the general replacement lemmas; there is no lemma about a literal body text, because the solver cannot unfold `Replace` over long literals within its resource limit.
