/** The hooks a `ResponseRewriteFilter` may carry and the policy derived from
    which of them are present (ResponseRewriteFilter.cs). */
module FilterPolicy {
  import opened Wrappers
  import opened Encoding

  /** The five events of the filter.  The two capture events only observe, so
      their presence is all that matters; each transform event is an optional
      function.  A `MemoryStream` is modelled by its contents. */
  datatype HookSet = HookSet(
    captureStream: bool,
    captureString: bool,
    transformWrite: Option<seq<byte> -> seq<byte>>,
    transformStream: Option<seq<byte> -> seq<byte>>,
    transformString: Option<string -> string>)

  /** A freshly constructed filter: no event subscribed. */
  function NoHooks(): HookSet {
    HookSet(false, false, None, None, None)
  }

  /** The same hook set with both capture events unsubscribed. */
  function WithoutCaptures(h: HookSet): HookSet {
    h.(captureStream := false, captureString := false)
  }

  /** `IsOutputDelayed`: nothing goes downstream before `Flush` unless both
      whole-buffer transforms are subscribed. */
  function IsOutputDelayed(h: HookSet): (b: bool)
    ensures !b ==> h.transformStream.Some? && h.transformString.Some?
    ensures h == NoHooks() ==> b
  {
    h.transformStream.None? || h.transformString.None?
  }

  /** `IsCaptured`: writes are copied into the cache. */
  function IsCaptured(h: HookSet): (b: bool)
    ensures IsOutputDelayed(h) ==> b
    ensures h.captureStream || h.captureString ==> b
  {
    h.captureStream || h.captureString || IsOutputDelayed(h)
  }

  /** Caching is needed exactly when a capture event is subscribed or output is
      delayed; in particular delayed output is always cached. */
  lemma CapturedIffCaptureOrDelayed(h: HookSet)
    ensures IsCaptured(h) <==> (h.captureStream || h.captureString || IsOutputDelayed(h))
    ensures IsOutputDelayed(h) ==> IsCaptured(h)
  {
  }

  /** Only the two whole-buffer transforms together switch delay off, and the
      capture events do not affect it. */
  lemma DelayIgnoresCapturesAndChunkTransform(h: HookSet)
    ensures IsOutputDelayed(h) == IsOutputDelayed(WithoutCaptures(h))
    ensures IsOutputDelayed(h) == IsOutputDelayed(h.(transformWrite := None))
    ensures !IsCaptured(WithoutCaptures(h)) <==> !IsOutputDelayed(h)
  {
  }

  /** What the capture events were called with, in call order. */
  datatype Capture = StreamCaptured(bytes: seq<byte>) | StringCaptured(text: string)

  /** `OnTransformWrite`: the chunk transform, or the chunk itself. */
  function OnTransformWrite(h: HookSet, buffer: seq<byte>): (r: seq<byte>)
    ensures h.transformWrite.None? ==> r == buffer
  {
    if h.transformWrite.Some? then h.transformWrite.value(buffer) else buffer
  }

  /** `OnTransformWriteString`: the text transform, or the text itself. */
  function OnTransformWriteString(h: HookSet, value: string): (r: string)
    ensures h.transformString.None? ==> r == value
  {
    if h.transformString.Some? then h.transformString.value(value) else value
  }

  /** `OnTransformWriteStringInternal`: decode, transform as text, re-encode.
      Unlike the whole-buffer variant it re-encodes even without a text
      transform, which returns the chunk itself only for a codec that
      round-trips. */
  function OnTransformWriteStringInternal(h: HookSet, c: Codec, buffer: seq<byte>): (r: seq<byte>)
    ensures h.transformString.None? ==> r == c.encode(c.decode(buffer))
    ensures h.transformString.None? && RoundTrips(c) ==> r == buffer
  {
    c.encode(OnTransformWriteString(h, c.decode(buffer)))
  }

  /** `OnTransformCompleteStream`: the whole-buffer byte transform, or the
      buffer itself. */
  function OnTransformCompleteStream(h: HookSet, ms: seq<byte>): (r: seq<byte>)
    ensures h.transformStream.None? ==> r == ms
  {
    if h.transformStream.Some? then h.transformStream.value(ms) else ms
  }

  /** `OnTransformCompleteStringInternal`: without a text transform the buffer
      is returned as it is (not re-encoded); with one, it is decoded,
      transformed and re-encoded. */
  function OnTransformCompleteStringInternal(h: HookSet, c: Codec, ms: seq<byte>): (r: seq<byte>)
    ensures h.transformString.None? ==> r == ms
  {
    if h.transformString.None? then ms else c.encode(h.transformString.value(c.decode(ms)))
  }

  /** The bytes `Write` would pass downstream for one chunk: the whole array
      (not the `offset`/`count` slice) through the chunk transform and then,
      when a text transform is subscribed, through it as text. */
  function ChunkOutput(h: HookSet, c: Codec, buffer: seq<byte>): (r: seq<byte>)
    ensures h.transformWrite.None? && h.transformString.None? ==> r == buffer
    ensures h.transformString.Some? ==> r == c.encode(h.transformString.value(c.decode(OnTransformWrite(h, buffer))))
  {
    var transformed := if h.transformWrite.Some? then OnTransformWrite(h, buffer) else buffer;
    if h.transformString.Some? then OnTransformWriteStringInternal(h, c, transformed) else transformed
  }

  /** The buffer `Flush` ends with: the cache through the whole-buffer byte
      transform and then the whole-buffer text transform. */
  function FinalBuffer(h: HookSet, c: Codec, cache: seq<byte>): (r: seq<byte>)
    ensures h.transformStream.None? && h.transformString.None? ==> r == cache
  {
    OnTransformCompleteStringInternal(h, c, OnTransformCompleteStream(h, cache))
  }

  /** `OnCaptureStream` then `OnCaptureStringInternal`: the stream capture sees
      the final buffer, the string capture its decoded text, each only when
      subscribed. */
  function CaptureEvents(h: HookSet, c: Codec, final: seq<byte>): (r: seq<Capture>)
    ensures |r| == (if h.captureStream then 1 else 0) + (if h.captureString then 1 else 0)
    ensures h.captureStream ==> r[0] == StreamCaptured(final)
    ensures h.captureString ==> r[|r| - 1] == StringCaptured(c.decode(final))
  {
    (if h.captureStream then [StreamCaptured(final)] else [])
    + (if h.captureString then [StringCaptured(c.decode(final))] else [])
  }

  /** The final buffer depends only on the transforms, never on the captures. */
  lemma FinalBufferIgnoresCaptures(h: HookSet, c: Codec, cache: seq<byte>)
    ensures FinalBuffer(h, c, cache) == FinalBuffer(WithoutCaptures(h), c, cache)
    ensures ChunkOutput(h, c, cache) == ChunkOutput(WithoutCaptures(h), c, cache)
  {
  }
}
