/** What `ResponseRewriteFilter.Write` and `Flush` do to the filter's state,
    as functions, and the properties of sequences of calls. */
module FilterSpec {
  import opened Wrappers
  import opened Encoding
  import opened FilterPolicy

  /** The observable state of one filter: the cache (`_cacheStream`), the
      bytes and flushes the wrapped stream has received, `_cachePointer`,
      `Position`, and the calls made to the capture events. */
  datatype FilterState = FilterState(
    cache: seq<byte>,
    downstream: seq<byte>,
    flushes: nat,
    cachePointer: int,
    position: int,
    captures: seq<Capture>)

  function Initial(): FilterState {
    FilterState([], [], 0, 0, 0, [])
  }

  /** What `Stream.Write` demands of its callers, plus: in pass-through mode
      the whole transformed array is written starting at `offset`, which the
      wrapped stream accepts only for `offset == 0`. */
  predicate WriteAllowed(h: HookSet, buffer: seq<byte>, offset: int, count: int) {
    0 <= offset && 0 <= count && offset + count <= |buffer|
    && (!IsOutputDelayed(h) ==> offset == 0)
  }

  /** `Write(buffer, offset, count)`: the cache and the wrapped stream only
      grow, the cache by `count` bytes exactly when caching, the wrapped
      stream only when not delayed; nothing else changes. */
  function Write(h: HookSet, c: Codec, s: FilterState, buffer: seq<byte>, offset: int, count: int): (r: FilterState)
    requires WriteAllowed(h, buffer, offset, count)
    ensures s.cache <= r.cache && |r.cache| == |s.cache| + (if IsCaptured(h) then count else 0)
    ensures s.downstream <= r.downstream && (IsOutputDelayed(h) ==> r.downstream == s.downstream)
    ensures r.flushes == s.flushes && r.position == s.position && r.captures == s.captures
  {
    // the cache copy starts at 0 whatever the offset
    var cached :=
      if IsCaptured(h) then s.(cache := s.cache + buffer[..count], cachePointer := s.cachePointer + count)
      else s;
    // the chunk transforms run in every mode; delayed mode drops their result
    var output := ChunkOutput(h, c, buffer);
    if IsOutputDelayed(h) then cached
    else cached.(downstream := s.downstream + output[offset..offset + |output|])
  }

  /** `Flush()`: the wrapped stream is flushed once more; a caching filter
      ends with an empty cache; bytes and captures are only appended, and
      bytes only in delayed mode; `_cachePointer` and `Position` are kept. */
  function Flush(h: HookSet, c: Codec, s: FilterState): (r: FilterState)
    ensures r.flushes == s.flushes + 1
    ensures IsCaptured(h) ==> r.cache == []
    ensures !IsCaptured(h) ==> r.cache == s.cache
    ensures s.downstream <= r.downstream && (!IsOutputDelayed(h) ==> r.downstream == s.downstream)
    ensures s.captures <= r.captures
    ensures r.cachePointer == s.cachePointer && r.position == s.position
  {
    var acted :=
      if IsCaptured(h) && |s.cache| > 0 then
        var final := FinalBuffer(h, c, s.cache);
        s.(cache := [],
           downstream := s.downstream + (if IsOutputDelayed(h) then final else []),
           captures := s.captures + CaptureEvents(h, c, final))
      else s;
    acted.(flushes := s.flushes + 1)
  }

  /** When caching, a write adds exactly the first `count` bytes of the
      array, untransformed, and advances `_cachePointer` by `count`; otherwise
      neither changes.  `Position`, the flush count and the captures never
      change. */
  lemma WriteCachesRawPrefix(h: HookSet, c: Codec, s: FilterState, buffer: seq<byte>, offset: int, count: int)
    requires WriteAllowed(h, buffer, offset, count)
    ensures var r := Write(h, c, s, buffer, offset, count);
      && r.cache == (if IsCaptured(h) then s.cache + buffer[..count] else s.cache)
      && r.cachePointer == s.cachePointer + (if IsCaptured(h) then count else 0)
      && r.position == s.position && r.flushes == s.flushes && r.captures == s.captures
  {
  }

  /** Delayed output leaves the wrapped stream untouched; otherwise it
      receives `encode(TransformString(decode(TransformWrite?(buffer))))`. */
  lemma WriteDownstream(h: HookSet, c: Codec, s: FilterState, buffer: seq<byte>, offset: int, count: int)
    requires WriteAllowed(h, buffer, offset, count)
    ensures IsOutputDelayed(h) ==> Write(h, c, s, buffer, offset, count).downstream == s.downstream
    ensures !IsOutputDelayed(h) ==>
      Write(h, c, s, buffer, offset, count).downstream
        == s.downstream + c.encode(h.transformString.value(c.decode(OnTransformWrite(h, buffer))))
  {
  }

  /** In delayed mode the chunk transform has no effect at all. */
  lemma DelayedDiscardsChunkTransform(h: HookSet, c: Codec, s: FilterState, buffer: seq<byte>, offset: int, count: int)
    requires IsOutputDelayed(h) && WriteAllowed(h, buffer, offset, count)
    ensures Write(h, c, s, buffer, offset, count)
         == Write(h.(transformWrite := None), c, s, buffer, offset, count)
  {
  }

  /** A flush that finds nothing to do (not caching, or an empty cache) only
      counts a flush of the wrapped stream. */
  lemma FlushIdle(h: HookSet, c: Codec, s: FilterState)
    requires !IsCaptured(h) || s.cache == []
    ensures Flush(h, c, s) == s.(flushes := s.flushes + 1)
  {
  }

  /** A flush that acts: the capture events see the final buffer `F` and its
      text, the wrapped stream receives `F` only in delayed mode, the cache is
      emptied, `_cachePointer` stays, and the wrapped stream is flushed. */
  lemma FlushActs(h: HookSet, c: Codec, s: FilterState)
    requires IsCaptured(h) && s.cache != []
    ensures var r := Flush(h, c, s);
      var f := OnTransformCompleteStringInternal(h, c, OnTransformCompleteStream(h, s.cache));
      && r.cache == []
      && r.downstream == s.downstream + (if IsOutputDelayed(h) then f else [])
      && r.captures == s.captures
           + (if h.captureStream then [StreamCaptured(f)] else [])
           + (if h.captureString then [StringCaptured(c.decode(f))] else [])
      && r.flushes == s.flushes + 1 && r.cachePointer == s.cachePointer && r.position == s.position
  {
  }

  /** Whatever the hooks, a second flush delivers nothing more. */
  lemma SecondFlushAddsNothing(h: HookSet, c: Codec, s: FilterState)
    ensures var once := Flush(h, c, s);
      var twice := Flush(h, c, once);
      twice.downstream == once.downstream && twice.captures == once.captures && twice.cache == once.cache
  {
  }

  // ---------------------------------------------------------------------
  // Sequences of calls

  datatype Call = WriteCall(buffer: seq<byte>, offset: int, count: int) | FlushCall

  predicate CallAllowed(h: HookSet, call: Call) {
    call.WriteCall? ==> WriteAllowed(h, call.buffer, call.offset, call.count)
  }

  predicate AllAllowed(h: HookSet, calls: seq<Call>) {
    forall i :: 0 <= i < |calls| ==> CallAllowed(h, calls[i])
  }

  predicate AllWrites(calls: seq<Call>) {
    forall i :: 0 <= i < |calls| ==> calls[i].WriteCall?
  }

  function Step(h: HookSet, c: Codec, s: FilterState, call: Call): FilterState
    requires CallAllowed(h, call)
  {
    match call
    case WriteCall(buffer, offset, count) => Write(h, c, s, buffer, offset, count)
    case FlushCall => Flush(h, c, s)
  }

  /** The state after the calls, in order, on one filter. */
  function Run(h: HookSet, c: Codec, s: FilterState, calls: seq<Call>): FilterState
    requires AllAllowed(h, calls)
    decreases |calls|
  {
    if calls == [] then s else Run(h, c, Step(h, c, s, calls[0]), calls[1..])
  }

  /** The bytes a write is asked to write: `buffer[0..count]`. */
  function Payload(call: Call): seq<byte> {
    if call.WriteCall? && 0 <= call.count <= |call.buffer| then call.buffer[..call.count] else []
  }

  function Payloads(calls: seq<Call>): seq<byte>
    decreases |calls|
  {
    if calls == [] then [] else Payload(calls[0]) + Payloads(calls[1..])
  }

  /** Writes alone: a caching filter holds exactly the concatenated payloads
      after what it held before, and `_cachePointer` counts them; delayed
      output sends nothing downstream. */
  lemma {:induction false} WritesAccumulate(h: HookSet, c: Codec, s: FilterState, calls: seq<Call>)
    requires AllWrites(calls) && AllAllowed(h, calls)
    ensures var r := Run(h, c, s, calls);
      && r.cache == (if IsCaptured(h) then s.cache + Payloads(calls) else s.cache)
      && r.cachePointer == s.cachePointer + (if IsCaptured(h) then |Payloads(calls)| else 0)
      && (IsOutputDelayed(h) ==> r.downstream == s.downstream)
      && r.flushes == s.flushes && r.captures == s.captures && r.position == s.position
    decreases |calls|
  {
    if calls != [] {
      var w := calls[0];
      var s' := Step(h, c, s, w);
      assert AllWrites(calls[1..]) && AllAllowed(h, calls[1..]) by {
        forall i | 0 <= i < |calls[1..]| ensures calls[1..][i] == calls[i + 1] { }
      }
      WritesAccumulate(h, c, s', calls[1..]);
      assert w.WriteCall?;
      if IsCaptured(h) {
        assert s'.cache == s.cache + Payload(w);
        assert s.cache + Payload(w) + Payloads(calls[1..]) == s.cache + Payloads(calls);
      }
    }
  }

  /** Delayed output: after writes on an empty cache and one flush, the
      wrapped stream has received the final buffer of all payloads exactly
      once (nothing at all when every payload was empty). */
  lemma DelayedWritesThenFlush(h: HookSet, c: Codec, s: FilterState, calls: seq<Call>)
    requires IsOutputDelayed(h) && s.cache == []
    requires AllWrites(calls) && AllAllowed(h, calls)
    ensures var written := Run(h, c, s, calls);
      var r := Flush(h, c, written);
      && written.downstream == s.downstream
      && r.downstream == s.downstream
           + (if Payloads(calls) == [] then [] else FinalBuffer(h, c, Payloads(calls)))
      && r.cache == []
  {
    WritesAccumulate(h, c, s, calls);
    assert [] + Payloads(calls) == Payloads(calls);
  }

  /** No hooks at all: writes followed by one flush deliver the concatenation
      of every `buffer[0..count]` downstream, untransformed, once; a second
      flush adds nothing. */
  lemma NoHooksDeliverOnce(c: Codec, s: FilterState, calls: seq<Call>)
    requires s.cache == [] && AllWrites(calls) && AllAllowed(NoHooks(), calls)
    ensures var once := Flush(NoHooks(), c, Run(NoHooks(), c, s, calls));
      && once.downstream == s.downstream + Payloads(calls)
      && once.cache == []
      && Flush(NoHooks(), c, once).downstream == once.downstream
  {
    DelayedWritesThenFlush(NoHooks(), c, s, calls);
  }

  /** One step keeps two runs that differ only in captures in agreement on
      what reaches the wrapped stream. */
  lemma StepIgnoresCaptures(h: HookSet, c: Codec, s1: FilterState, s2: FilterState, call: Call)
    requires CallAllowed(h, call)
    requires s1.downstream == s2.downstream
    requires IsOutputDelayed(h) ==> s1.cache == s2.cache
    ensures CallAllowed(WithoutCaptures(h), call)
    ensures var r1 := Step(h, c, s1, call);
      var r2 := Step(WithoutCaptures(h), c, s2, call);
      r1.downstream == r2.downstream && (IsOutputDelayed(h) ==> r1.cache == r2.cache)
  {
    DelayIgnoresCapturesAndChunkTransform(h);
    FinalBufferIgnoresCaptures(h, c, s1.cache);
  }

  /** Capture isolation: subscribing the capture events never changes the
      bytes the wrapped stream receives, over any sequence of writes and
      flushes. */
  lemma {:induction false} CapturesDoNotAffectOutput(h: HookSet, c: Codec, s: FilterState, calls: seq<Call>)
    requires AllAllowed(h, calls)
    ensures AllAllowed(WithoutCaptures(h), calls)
    ensures Run(h, c, s, calls).downstream == Run(WithoutCaptures(h), c, s, calls).downstream
  {
    CapturesDoNotAffectOutputFrom(h, c, s, s, calls);
  }

  lemma {:induction false} CapturesDoNotAffectOutputFrom(h: HookSet, c: Codec, s1: FilterState, s2: FilterState, calls: seq<Call>)
    requires AllAllowed(h, calls)
    requires s1.downstream == s2.downstream
    requires IsOutputDelayed(h) ==> s1.cache == s2.cache
    ensures AllAllowed(WithoutCaptures(h), calls)
    ensures Run(h, c, s1, calls).downstream == Run(WithoutCaptures(h), c, s2, calls).downstream
    decreases |calls|
  {
    DelayIgnoresCapturesAndChunkTransform(h);
    if calls != [] {
      assert AllAllowed(h, calls[1..]) by {
        forall i | 0 <= i < |calls[1..]| ensures calls[1..][i] == calls[i + 1] { }
      }
      StepIgnoresCaptures(h, c, s1, s2, calls[0]);
      CapturesDoNotAffectOutputFrom(h, c, Step(h, c, s1, calls[0]), Step(WithoutCaptures(h), c, s2, calls[0]), calls[1..]);
    }
  }

  /** Writes that hand over whole arrays at offset 0. */
  predicate WholeArrayWrites(calls: seq<Call>) {
    forall i :: 0 <= i < |calls| ==>
      calls[i].WriteCall? && calls[i].offset == 0 && calls[i].count == |calls[i].buffer|
  }

  /** The pass-through configuration whose transforms change nothing. */
  ghost predicate IdentityPassThrough(h: HookSet) {
    && h.transformWrite.None? && h.transformStream.Some? && h.transformString.Some?
    && forall t :: h.transformString.value(t) == t
  }

  /** One whole-array write in that configuration passes the array on as it
      is. */
  lemma IdentityWrite(h: HookSet, c: Codec, s: FilterState, buffer: seq<byte>)
    requires IdentityPassThrough(h) && RoundTrips(c)
    ensures WriteAllowed(h, buffer, 0, |buffer|)
    ensures Write(h, c, s, buffer, 0, |buffer|).downstream == s.downstream + buffer
  {
    assert c.encode(c.decode(buffer)) == buffer;
    assert ChunkOutput(h, c, buffer) == buffer;
  }

  lemma {:induction false} PassThroughDeliversPayloads(h: HookSet, c: Codec, s: FilterState, calls: seq<Call>)
    requires IdentityPassThrough(h) && RoundTrips(c) && WholeArrayWrites(calls)
    ensures AllAllowed(h, calls)
    ensures Run(h, c, s, calls).downstream == s.downstream + Payloads(calls)
    decreases |calls|
  {
    if calls == [] {
    } else {
      var w := calls[0];
      assert WholeArrayWrites(calls[1..]) by {
        forall i | 0 <= i < |calls[1..]| ensures calls[1..][i] == calls[i + 1] { }
      }
      IdentityWrite(h, c, s, w.buffer);
      assert Payload(w) == w.buffer;
      var s' := Step(h, c, s, w);
      PassThroughDeliversPayloads(h, c, s', calls[1..]);
      assert s.downstream + w.buffer + Payloads(calls[1..]) == s.downstream + Payloads(calls);
    }
  }

  /** Streaming equals buffering: with identity whole-buffer transforms and a
      codec that round-trips, writing a body in whole-array chunks delivers
      the same bytes, in order, as writing it in one chunk, both before and
      after the closing flush. */
  lemma ChunkingInvariance(h: HookSet, c: Codec, s: FilterState, calls: seq<Call>)
    requires IdentityPassThrough(h) && RoundTrips(c) && WholeArrayWrites(calls)
    ensures AllAllowed(h, calls)
    ensures Run(h, c, s, calls).downstream
         == Write(h, c, s, Payloads(calls), 0, |Payloads(calls)|).downstream
    ensures Flush(h, c, Run(h, c, s, calls)).downstream
         == Flush(h, c, Write(h, c, s, Payloads(calls), 0, |Payloads(calls)|)).downstream
  {
    PassThroughDeliversPayloads(h, c, s, calls);
    IdentityWrite(h, c, s, Payloads(calls));
  }

  /** As written, the cache copy ignores `offset`: writing 2 bytes at offset 1
      of [7, 8, 9] caches [7, 8], not [8, 9]. */
  lemma CacheIgnoresOffset(h: HookSet, c: Codec, s: FilterState)
    requires IsOutputDelayed(h)
    ensures Write(h, c, s, [7, 8, 9], 1, 2).cache == s.cache + [7, 8]
  {
    var b: seq<byte> := [7, 8, 9];
    assert b[..2] == [7, 8];
  }

  /** As written, pass-through sends the whole array, not `count` bytes:
      writing 1 byte of [7, 8, 9] delivers all three. */
  lemma PassThroughIgnoresCount(h: HookSet, c: Codec, s: FilterState)
    requires IdentityPassThrough(h) && RoundTrips(c)
    ensures Write(h, c, s, [7, 8, 9], 0, 1).downstream == s.downstream + [7, 8, 9]
  {
    var b: seq<byte> := [7, 8, 9];
    assert c.encode(c.decode(b)) == b;
  }
}
