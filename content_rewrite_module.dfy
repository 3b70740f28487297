/** The IIS module (ContentRewriteHttpModule.cs): when a request carries the
    `CUSTOMER_HOST_NAME` header, it puts a `ResponseRewriteFilter` in front of
    the response's output and has it rewrite `//localhost/` links. */
module ContentRewriteModule {
  import opened Wrappers
  import opened Encoding
  import opened FilterPolicy
  import opened StringReplace
  import FilterSpec
  import opened RewriteFilter
  import opened OrdinalText
  import opened HeaderCollections

  const CustomerHostName: string := "CUSTOMER_HOST_NAME"
  const LocalhostLink: string := "//localhost/"

  /** `Headers.AllKeys.Contains(name)`: exact, case-sensitive. */
  function HasKey(headers: Headers, name: string): (b: bool)
    ensures b ==> exists i :: 0 <= i < |headers| && EqualsIgnoreCase(headers[i].0, name)
  {
    exists i :: 0 <= i < |headers| && headers[i].0 == name
  }

  /** The value of the entry called `name`, exactly. */
  function HeaderValue(headers: Headers, name: string): (v: Option<string>)
    ensures v.Some? <==> HasKey(headers, name)
    ensures v.Some? ==> exists i :: 0 <= i < |headers| && headers[i] == (name, v.value)
    decreases |headers|
  {
    if headers == [] then None
    else if headers[0].0 == name then Some(headers[0].1)
    else
      var rest := HeaderValue(headers[1..], name);
      assert forall i :: 0 < i < |headers| ==> headers[1..][i - 1] == headers[i];
      rest
  }

  /** With one entry per name, the entry found by exact name holds the value
      the collection's ignore-case indexer returns. */
  lemma HeaderValueIsIndexerLookup(headers: Headers, name: string)
    requires DistinctNames(headers) && HasKey(headers, name)
    ensures forall i :: 0 <= i < |headers| && EqualsIgnoreCase(headers[i].0, name) ==>
      headers[i].1 == HeaderValue(headers, name).value
  {
    var v := HeaderValue(headers, name).value;
    var j :| 0 <= j < |headers| && headers[j] == (name, v);
    SoleEntry(headers, j, name);
  }

  /** `Filter_TransformString`: every `//localhost/` becomes `//<host>/`. */
  function FilterTransformString(customerBaseUri: string, arg: string): (r: string)
    ensures |r| == |arg| + Count(arg, LocalhostLink) * (|customerBaseUri| - 9)
    ensures customerBaseUri == "localhost" ==> r == arg
  {
    ReplaceLength(arg, LocalhostLink, "//" + customerBaseUri + "/");
    Replace(arg, LocalhostLink, "//" + customerBaseUri + "/")
  }

  /** Text without `//localhost/` is returned unchanged. */
  lemma FilterTransformStringWithoutLocalhost(customerBaseUri: string, arg: string)
    requires !Contains(arg, LocalhostLink)
    ensures FilterTransformString(customerBaseUri, arg) == arg
  {
    ReplaceAbsent(arg, LocalhostLink, "//" + customerBaseUri + "/");
  }

  /** The literal needs `/` right after `localhost`, so a link with a port is
      left alone. */
  lemma LinkWithPortUnchanged(customerBaseUri: string)
    ensures FilterTransformString(customerBaseUri, "http://localhost:8080/") == "http://localhost:8080/"
  {
    var s := "http://localhost:8080/";
    forall i | 0 <= i <= |s| - |LocalhostLink| ensures !OccursAt(s, LocalhostLink, i) {
      assert s[i] != '/' || s[i + 1] != '/' || s[i + 11] != '/';
      assert s[i..i + 12][0] == s[i] && s[i..i + 12][1] == s[i + 1] && s[i..i + 12][11] == s[i + 11];
    }
    FilterTransformStringWithoutLocalhost(customerBaseUri, s);
  }

  /** A `//localhost/` link is rewritten to the customer's host. */
  lemma LocalhostLinkRewritten(customerBaseUri: string, rest: string)
    ensures FilterTransformString(customerBaseUri, LocalhostLink + rest)
         == "//" + customerBaseUri + "/" + FilterTransformString(customerBaseUri, rest)
  {
    ReplaceLeadingMatch(LocalhostLink, rest, "//" + customerBaseUri + "/");
  }

  /** The hooks the module subscribes: `TransformString` only, bound to the
      header's host. */
  ghost predicate SubscribesOnlyRewrite(h: HookSet, customerBaseUri: string) {
    && !h.captureStream && !h.captureString
    && h.transformWrite.None? && h.transformStream.None? && h.transformString.Some?
    && forall t :: h.transformString.value(t) == FilterTransformString(customerBaseUri, t)
  }

  /** Such a filter caches and delays its output. */
  lemma ModuleFilterDelays(h: HookSet, customerBaseUri: string)
    requires SubscribesOnlyRewrite(h, customerBaseUri)
    ensures IsCaptured(h) && IsOutputDelayed(h)
  {
  }

  /** End to end: after writes `w1 .. wn` and a flush, the wrapped stream has
      received nothing before the flush and then, once,
      `encode(Filter_TransformString(decode(w1[0..c1] + .. + wn[0..cn])))`
      (nothing when all of that is empty). */
  lemma ModuleEndToEnd(h: HookSet, customerBaseUri: string, c: Codec, s: FilterSpec.FilterState, calls: seq<FilterSpec.Call>)
    requires SubscribesOnlyRewrite(h, customerBaseUri) && s.cache == []
    requires FilterSpec.AllWrites(calls) && FilterSpec.AllAllowed(h, calls)
    ensures var written := FilterSpec.Run(h, c, s, calls);
      var body := FilterSpec.Payloads(calls);
      && written.downstream == s.downstream
      && FilterSpec.Flush(h, c, written).downstream
           == s.downstream + (if body == [] then [] else c.encode(FilterTransformString(customerBaseUri, c.decode(body))))
  {
    FilterSpec.DelayedWritesThenFlush(h, c, s, calls);
  }

  /** The part of `HttpResponse` the module touches. */
  class HttpResponse {
    var filter: OutputStream
    /** `ContentEncoding`, which the application may change at any time. */
    var contentEncoding: Codec

    constructor (output: OutputStream, encoding: Codec)
      ensures filter == output && contentEncoding == encoding
    {
      filter := output;
      contentEncoding := encoding;
    }
  }

  class ContentRewriteHttpModule {
    var customerBaseUri: Option<string>

    constructor ()
      ensures customerBaseUri == None
    {
      customerBaseUri := None;
    }

    /** `AddRewriteFilter`, run at the start of each request. */
    method AddRewriteFilter(requestHeaders: Headers, response: HttpResponse)
      requires DistinctNames(requestHeaders)
      modifies this, response
      ensures response.contentEncoding == old(response.contentEncoding)
      ensures !HasKey(requestHeaders, CustomerHostName) ==>
        customerBaseUri == old(customerBaseUri) && response.filter == old(response.filter)
      ensures HasKey(requestHeaders, CustomerHostName) ==>
        && customerBaseUri == HeaderValue(requestHeaders, CustomerHostName)
        && response.filter.RewriteStream?
        && fresh(response.filter.filter)
        && response.filter.filter.inner == old(response.filter)
        && response.filter.filter.Valid()
        && response.filter.filter.State() == FilterSpec.Initial()
        && SubscribesOnlyRewrite(response.filter.filter.hooks, customerBaseUri.value)
    {
      var host := HeaderValue(requestHeaders, CustomerHostName);
      if host.Some? {
        customerBaseUri := host;
        var filter := new ResponseRewriteFilter(response.filter);
        var uri := host.value;
        filter.SubscribeTransformString(t => FilterTransformString(uri, t));
        response.filter := RewriteStream(filter);
      }
    }
  }
}
