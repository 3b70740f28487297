/** The Azure Function's whole-body rewrite (SanitizeResponseBodyFunction.cs):
    the forwarded URL, the media-type gate and the replacement of the target
    address in a buffered response body. */
module SanitizeResponseBody {
  import opened Wrappers
  import opened Encoding
  import opened OrdinalText
  import opened StringReplace

  /** String interpolation of a possibly-null string: null prints as "". */
  function Interpolated(v: Option<string>): string {
    v.GetOr("")
  }

  /** The forwarded request's URL, `http://{TARGET_URI}/{path}{QueryString}`. */
  function ForwardedUrl(targetUri: Option<string>, path: string, queryString: string): (url: string)
    ensures |url| == 8 + |Interpolated(targetUri)| + |path| + |queryString|
    ensures url[..7] == "http://" && url[|url| - |queryString|..] == queryString
  {
    "http://" + Interpolated(targetUri) + "/" + path + queryString
  }

  /** The characters of `s` before its first `/`. */
  function UpToSlash(s: string): (r: string)
    ensures |r| <= |s| && r == s[..|r|] && '/' !in r
  {
    if s == [] || s[0] == '/' then [] else [s[0]] + UpToSlash(s[1..])
  }

  lemma {:induction false} UpToSlashOfJoin(host: string, rest: string)
    requires '/' !in host
    ensures UpToSlash(host + "/" + rest) == host
  {
    if host != [] {
      assert (host + "/" + rest)[1..] == host[1..] + "/" + rest;
      UpToSlashOfJoin(host[1..], rest);
    }
  }

  /** The host of the forwarded URL is the target address, whenever that
      address has no `/` of its own; and an unset target forwards to an empty
      host. */
  lemma ForwardedUrlHost(targetUri: Option<string>, path: string, queryString: string)
    requires '/' !in Interpolated(targetUri)
    ensures var url := ForwardedUrl(targetUri, path, queryString);
      && url[..7] == "http://"
      && UpToSlash(url[7..]) == Interpolated(targetUri)
    ensures targetUri.None? ==> ForwardedUrl(targetUri, path, queryString)[..8] == "http:///"
  {
    var host := Interpolated(targetUri);
    var url := ForwardedUrl(targetUri, path, queryString);
    assert url[7..] == host + "/" + (path + queryString);
    UpToSlashOfJoin(host, path + queryString);
  }

  /** The gate: only media types starting with `text` or `application/json`,
      ignoring case, are rewritten. */
  function IsRewritable(mediaType: string): (b: bool)
    ensures b ==> |mediaType| >= 4
    ensures EqualsIgnoreCase(mediaType, "text") || EqualsIgnoreCase(mediaType, "application/json") ==> b
  {
    StartsWithIgnoreCase(mediaType, "text") || StartsWithIgnoreCase(mediaType, "application/json")
  }

  /** The gate is a prefix test on the media type. */
  lemma GateExamples()
    ensures IsRewritable("TEXT/HTML")
    ensures IsRewritable("textual")
    ensures IsRewritable("application/json-seq")
    ensures !IsRewritable("image/png")
    ensures !IsRewritable("application/xml")
  {
    assert "TEXT/HTML"[..4] == "TEXT";
    assert EqualsIgnoreCase("TEXT", "text");
    assert "textual"[..4] == "text";
    StartsWithExactly("textual", "text");
    assert "application/json-seq"[..16] == "application/json";
    StartsWithExactly("application/json-seq", "application/json");
    assert "image/png"[..4][0] == 'i';
    assert "application/xml"[..4][0] == 'a';
  }

  /** Whatever follows an eligible media type keeps it eligible. */
  lemma GateIsPrefixTest(mediaType: string, tail: string)
    requires IsRewritable(mediaType)
    ensures IsRewritable(mediaType + tail)
  {
    if StartsWithIgnoreCase(mediaType, "text") {
      StartsWithIgnoreCaseExtends(mediaType, "text", tail);
    } else {
      StartsWithIgnoreCaseExtends(mediaType, "application/json", tail);
    }
  }

  /** The response content after the rewrite: the original bytes, or a new
      UTF-8 string content with the same media type. */
  datatype ResponseContent = OriginalContent(bytes: seq<byte>) | StringContent(text: string, mediaType: string)

  /** `String.Replace` throws for a null or an empty old value. */
  datatype ReplaceError = OldValueNull | OldValueEmpty

  /** `SanitizeHttpResponse(result, targetUrl, contentType)` with the
      configured `TARGET_URI`; `readAsString` decodes the body as
      `ReadAsStringAsync` does. */
  function SanitizeHttpResponse(content: seq<byte>, mediaType: string, targetUri: Option<string>,
                                targetUrl: string, readAsString: seq<byte> -> string): (r: Result<ResponseContent, ReplaceError>)
    ensures !IsRewritable(mediaType) ==> r == Success(OriginalContent(content))
    ensures r.Failure? <==> IsRewritable(mediaType) && (targetUri.None? || targetUri.value == "")
    ensures r.Success? && IsRewritable(mediaType) ==>
      r.value.StringContent? && r.value.mediaType == mediaType
      && Join(Split(readAsString(content), targetUri.value), targetUrl) == r.value.text
  {
    if !IsRewritable(mediaType) then Success(OriginalContent(content))
    else if targetUri.None? then Failure(OldValueNull)
    else if targetUri.value == "" then Failure(OldValueEmpty)
    else
      var text := readAsString(content);
      ReplaceIsJoinOfSplit(text, targetUri.value, targetUrl);
      Success(StringContent(Replace(text, targetUri.value, targetUrl), mediaType))
  }

  /** An eligible body without the target address is rewritten to the same
      text. */
  lemma SanitizeWithoutTarget(content: seq<byte>, mediaType: string, target: string,
                              targetUrl: string, readAsString: seq<byte> -> string)
    requires IsRewritable(mediaType) && target != [] && !Contains(readAsString(content), target)
    ensures SanitizeHttpResponse(content, mediaType, Some(target), targetUrl, readAsString)
         == Success(StringContent(readAsString(content), mediaType))
  {
    ReplaceAbsent(readAsString(content), target, targetUrl);
  }

  /** With `n` occurrences of the target address the rewritten text is
      `n * (|targetUrl| - |target|)` longer, and it is exactly the decoded
      body when the new address equals the old one. */
  lemma SanitizeLength(content: seq<byte>, mediaType: string, target: string,
                       targetUrl: string, readAsString: seq<byte> -> string)
    requires IsRewritable(mediaType) && target != []
    ensures var r := SanitizeHttpResponse(content, mediaType, Some(target), targetUrl, readAsString);
      var body := readAsString(content);
      && |r.value.text| == |body| + Count(body, target) * (|targetUrl| - |target|)
      && (targetUrl == target ==> r.value.text == body)
  {
    var body := readAsString(content);
    ReplaceLength(body, target, targetUrl);
    ReplaceIsJoinOfSplit(body, target, targetUrl);
    SplitJoinRoundTrip(body, target);
  }
}
