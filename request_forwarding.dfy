/** `HttpRequest.CopyTo(HttpRequestMessage)` (Extensions.cs): which headers of
    the incoming request the forwarded request gets, and when it gets a body. */
module RequestForwarding {
  import opened Wrappers
  import opened OrdinalText
  import opened HeaderCollections

  /** The incoming request: method, headers in enumeration order (one entry
      per name, its values joined as `StringValues.ToString` joins them) and
      the declared `Content-Length`, if any. */
  datatype HttpRequest = HttpRequest(httpMethod: string, headers: Headers, contentLength: Option<int>)

  /** An entry of the forwarded request's headers: one added by name, or the
      `Accept` value handed to `Headers.Accept.ParseAdd` (its parsing is not
      modelled). */
  datatype OutboundHeader = Header(name: string, value: string) | AcceptParsed(raw: string)

  /** The part of `HttpRequestMessage` that `CopyTo` fills in. */
  class HttpRequestMessage {
    var headers: seq<OutboundHeader>
    var bodyAttached: bool

    constructor ()
      ensures headers == [] && !bodyAttached
    {
      headers, bodyAttached := [], false;
    }
  }

  /** Headers the platform handles itself. */
  function IsPlatformHeader(name: string): (b: bool)
    ensures b ==> |name| > 0 && IsUpperAscii(name[0])
  {
    name in {"Connection", "Content-Length", "Date", "Expect", "Host",
             "If-Modified-Since", "Range", "Transfer-Encoding", "Proxy-Connection"}
  }

  /** Headers treated separately (note: `AcceptEncoding`, without a hyphen). */
  function IsSpecialHeader(name: string): (b: bool)
    ensures b ==> |name| > 0 && IsUpperAscii(name[0])
    ensures b ==> !IsPlatformHeader(name)
  {
    name in {"Accept", "AcceptEncoding", "User-Agent"}
  }

  /** The `case` labels of the switch: exact, case-sensitive names. */
  function IsSkipped(name: string): (b: bool)
    ensures |name| == 0 || !IsUpperAscii(name[0]) ==> !b
  {
    IsPlatformHeader(name) || IsSpecialHeader(name)
  }

  /** What the loop adds for one header. */
  function CopiedHeader(name: string, value: string): (out: seq<OutboundHeader>)
    ensures |out| <= 1 && (out == [] <==> IsSkipped(name))
    ensures out != [] ==> out[0] == Header(name, value)
  {
    if IsSkipped(name) then [] else [Header(name, value)]
  }

  /** What the loop adds for the headers, in order. */
  function CopiedHeaders(headers: Headers): (out: seq<OutboundHeader>)
    ensures |out| <= |headers|
    ensures forall k :: 0 <= k < |out| ==> out[k].Header? && !IsSkipped(out[k].name)
    decreases |headers|
  {
    if headers == [] then []
    else CopiedHeaders(headers[..|headers| - 1]) + CopiedHeader(headers[|headers| - 1].0, headers[|headers| - 1].1)
  }

  /** `source.Headers["Accept"].ToString()`: the header dictionary is looked up
      ignoring case, and a missing header reads as "". */
  function AcceptValue(headers: Headers): (v: string)
    ensures v != "" ==> exists i :: 0 <= i < |headers| && EqualsIgnoreCase(headers[i].0, "Accept") && headers[i].1 == v
    ensures forall i ::
      (0 <= i < |headers| && EqualsIgnoreCase(headers[i].0, "Accept")
       && forall j :: 0 <= j < i ==> !EqualsIgnoreCase(headers[j].0, "Accept"))
      ==> v == headers[i].1
    decreases |headers|
  {
    if headers == [] then ""
    else if EqualsIgnoreCase(headers[0].0, "Accept") then headers[0].1
    else
      var v := AcceptValue(headers[1..]);
      assert forall i :: 0 < i < |headers| ==> headers[1..][i - 1] == headers[i];
      v
  }

  /** With one entry per name, a present `Accept` header is read whatever
      the case of its name, and an absent one reads as "". */
  lemma AcceptValueIsIndexerLookup(headers: Headers)
    requires DistinctNames(headers)
    ensures forall i :: 0 <= i < |headers| && EqualsIgnoreCase(headers[i].0, "Accept") ==>
      AcceptValue(headers) == headers[i].1
    ensures (forall i :: 0 <= i < |headers| ==> !EqualsIgnoreCase(headers[i].0, "Accept")) ==>
      AcceptValue(headers) == ""
  {
    forall i | 0 <= i < |headers| && EqualsIgnoreCase(headers[i].0, "Accept")
      ensures AcceptValue(headers) == headers[i].1
    {
      SoleEntry(headers, i, "Accept");
    }
  }

  /** A body is attached only to a request that is neither `GET` nor `HEAD`
      (compared case-sensitively) and declares a positive length. */
  function AttachesBody(request: HttpRequest): (b: bool)
    ensures b ==> request.contentLength.Some? && request.contentLength.value >= 1
    ensures request.httpMethod == "GET" || request.httpMethod == "HEAD" ==> !b
  {
    request.httpMethod != "GET" && request.httpMethod != "HEAD"
    && request.contentLength.Some? && request.contentLength.value > 0
  }

  method CopyTo(source: HttpRequest, destination: HttpRequestMessage)
    requires DistinctNames(source.headers)
    modifies destination
    ensures destination.headers
         == old(destination.headers) + CopiedHeaders(source.headers) + [AcceptParsed(AcceptValue(source.headers))]
    ensures destination.bodyAttached == (AttachesBody(source) || old(destination.bodyAttached))
  {
    var i := 0;
    while i < |source.headers|
      invariant 0 <= i <= |source.headers|
      invariant destination.headers == old(destination.headers) + CopiedHeaders(source.headers[..i])
      invariant destination.bodyAttached == old(destination.bodyAttached)
    {
      var (key, value) := source.headers[i];
      assert source.headers[..i + 1][..i] == source.headers[..i];
      assert CopiedHeaders(source.headers[..i + 1]) == CopiedHeaders(source.headers[..i]) + CopiedHeader(key, value);
      if IsPlatformHeader(key) {
        // handled by the platform
        assert CopiedHeader(key, value) == [];
      } else if IsSpecialHeader(key) {
        // handled separately
        assert CopiedHeader(key, value) == [];
      } else {
        assert CopiedHeader(key, value) == [Header(key, value)];
        destination.headers := destination.headers + [Header(key, value)];
      }
      i := i + 1;
    }
    assert source.headers[..|source.headers|] == source.headers;
    destination.headers := destination.headers + [AcceptParsed(AcceptValue(source.headers))];
    if AttachesBody(source) {
      destination.bodyAttached := true;
    }
  }

  /** The loop forwards a header exactly when the request has it and its name
      is not one of the switch's labels. */
  lemma {:induction false} CopiedIff(headers: seq<(string, string)>, name: string, value: string)
    ensures Header(name, value) in CopiedHeaders(headers) <==> (name, value) in headers && !IsSkipped(name)
    decreases |headers|
  {
    if headers != [] {
      var init := headers[..|headers| - 1];
      CopiedIff(init, name, value);
      assert headers == init + [headers[|headers| - 1]];
    }
  }

  /** The loop adds entries by name only. */
  lemma {:induction false} CopiedAreNamed(headers: seq<(string, string)>)
    ensures forall e :: e in CopiedHeaders(headers) ==> e.Header?
    decreases |headers|
  {
    if headers != [] {
      CopiedAreNamed(headers[..|headers| - 1]);
    }
  }

  /** The loop keeps the request's order: headers enumerated earlier are
      added earlier. */
  lemma {:induction false} CopiedKeepsOrder(first: seq<(string, string)>, second: seq<(string, string)>)
    ensures CopiedHeaders(first + second) == CopiedHeaders(first) + CopiedHeaders(second)
    decreases |second|
  {
    if second != [] {
      var init := second[..|second| - 1];
      assert (first + second)[..|first + second| - 1] == first + init;
      CopiedKeepsOrder(first, init);
    } else {
      assert first + second == first;
    }
  }

  /** After `CopyTo` on a fresh message: `User-Agent` is nowhere among the
      forwarded headers, and the `Accept` value comes once, last. */
  lemma UserAgentDroppedAcceptLast(headers: seq<(string, string)>, value: string)
    ensures var out := CopiedHeaders(headers) + [AcceptParsed(AcceptValue(headers))];
      && Header("User-Agent", value) !in out
      && out[|out| - 1] == AcceptParsed(AcceptValue(headers))
      && forall i :: 0 <= i < |out| - 1 ==> !out[i].AcceptParsed?
  {
    CopiedIff(headers, "User-Agent", value);
    CopiedAreNamed(headers);
    var out := CopiedHeaders(headers) + [AcceptParsed(AcceptValue(headers))];
    forall i | 0 <= i < |out| - 1 ensures !out[i].AcceptParsed? {
      assert out[i] in CopiedHeaders(headers);
    }
  }

  /** Names differing only in case or spelling from a label are copied:
      `host` (lower case) and `Accept-Encoding` (hyphenated) go through, while
      `AcceptEncoding` does not. */
  lemma SwitchIsExact(value: string)
    ensures CopiedHeaders([("host", value)]) == [Header("host", value)]
    ensures CopiedHeaders([("Accept-Encoding", value)]) == [Header("Accept-Encoding", value)]
    ensures CopiedHeaders([("AcceptEncoding", value)]) == []
  {
    assert [("host", value)][..0] == [];
    assert [("Accept-Encoding", value)][..0] == [];
    assert [("AcceptEncoding", value)][..0] == [];
  }

  /** A lower-case `accept` header is both copied by the loop and read back as
      the `Accept` value, so it is forwarded twice. */
  lemma LowerCaseAcceptForwardedTwice(value: string)
    ensures CopiedHeaders([("accept", value)]) + [AcceptParsed(AcceptValue([("accept", value)]))]
         == [Header("accept", value), AcceptParsed(value)]
  {
    assert [("accept", value)][..0] == [];
    assert EqualsIgnoreCase("accept", "Accept");
  }

  /** The body rule: the method is compared case-sensitively, and a missing or
      zero length attaches nothing. */
  lemma BodyRuleExamples(headers: seq<(string, string)>)
    ensures AttachesBody(HttpRequest("POST", headers, Some(1)))
    ensures AttachesBody(HttpRequest("get", headers, Some(1)))
    ensures !AttachesBody(HttpRequest("GET", headers, Some(1)))
    ensures !AttachesBody(HttpRequest("HEAD", headers, Some(1)))
    ensures !AttachesBody(HttpRequest("POST", headers, Some(0)))
    ensures !AttachesBody(HttpRequest("POST", headers, None))
  {
    assert "get" != "GET" by { assert "get"[0] != "GET"[0]; }
    assert "get" != "HEAD" by { assert "get"[0] != "HEAD"[0]; }
    assert "POST" != "GET" by { assert "POST"[0] != "GET"[0]; }
    assert "POST" != "HEAD" by { assert "POST"[0] != "HEAD"[0]; }
  }
}
