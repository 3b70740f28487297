/** The response filter itself (ResponseRewriteFilter.cs): a stream that sits
    in front of another, caches what is written to it and decides, from the
    events subscribed, what to pass on at each `Write` and at `Flush`. */
module RewriteFilter {
  import opened Wrappers
  import opened Encoding
  import opened FilterPolicy
  import FilterSpec

  /** A stream a response writes into: one of the pipeline's own streams, or a
      rewrite filter in front of another stream. */
  datatype OutputStream = PipelineStream(id: nat) | RewriteStream(filter: ResponseRewriteFilter)

  class ResponseRewriteFilter {
    /** The wrapped stream (`_stream`). */
    const inner: OutputStream
    /** The subscribed events. */
    var hooks: HookSet

    /** `_cacheStream`, modelled by its contents. */
    var cache: seq<byte>
    /** What `inner` has received through `Write`, and how often it was flushed. */
    var downstream: seq<byte>
    var downstreamFlushes: nat
    var cachePointer: int
    var position: int

    /** The calls made to the capture events. */
    ghost var captures: seq<Capture>
    /** Every byte ever copied into the cache, and how many of them have been
        handed to a completed flush. */
    ghost var retained: seq<byte>
    ghost var emitted: nat

    /** `_cachePointer` counts every byte ever cached, and the cache holds the
        ones cached since the last flush that acted. */
    ghost predicate Valid()
      reads this
    {
      && cachePointer == |retained|
      && emitted <= |retained|
      && cache == retained[emitted..]
    }

    ghost function State(): FilterSpec.FilterState
      reads this
    {
      FilterSpec.FilterState(cache, downstream, downstreamFlushes, cachePointer, position, captures)
    }

    constructor (source: OutputStream)
      ensures Valid() && inner == source
      ensures hooks == NoHooks() && State() == FilterSpec.Initial()
    {
      inner := source;
      hooks := NoHooks();
      cache, downstream, downstreamFlushes, cachePointer, position := [], [], 0, 0, 0;
      captures, retained, emitted := [], [], 0;
    }

    method SubscribeCaptureStream()
      modifies this`hooks
      ensures hooks == old(hooks).(captureStream := true)
    {
      hooks := hooks.(captureStream := true);
    }

    method SubscribeCaptureString()
      modifies this`hooks
      ensures hooks == old(hooks).(captureString := true)
    {
      hooks := hooks.(captureString := true);
    }

    method SubscribeTransformWrite(f: seq<byte> -> seq<byte>)
      modifies this`hooks
      ensures hooks == old(hooks).(transformWrite := Some(f))
    {
      hooks := hooks.(transformWrite := Some(f));
    }

    method SubscribeTransformStream(f: seq<byte> -> seq<byte>)
      modifies this`hooks
      ensures hooks == old(hooks).(transformStream := Some(f))
    {
      hooks := hooks.(transformStream := Some(f));
    }

    method SubscribeTransformString(f: string -> string)
      modifies this`hooks
      ensures hooks == old(hooks).(transformString := Some(f))
    {
      hooks := hooks.(transformString := Some(f));
    }

    /** `Length` reports 0 whatever has been cached. */
    function Length(): (n: int)
      ensures n == 0
    {
      0
    }

    /** The `Position` setter: it changes nothing but the field the getter
        reads. */
    method SetPosition(value: int)
      modifies this`position
      ensures position == value
    {
      position := value;
    }

    /** `Write(buffer, offset, count)`; `codec` is the response's
        `ContentEncoding` at the time of the call. */
    method Write(buffer: seq<byte>, offset: int, count: int, codec: Codec)
      requires Valid() && FilterSpec.WriteAllowed(hooks, buffer, offset, count)
      modifies this
      ensures Valid() && hooks == old(hooks)
      ensures State() == FilterSpec.Write(hooks, codec, old(State()), buffer, offset, count)
      ensures cachePointer >= old(cachePointer) && |cache| <= cachePointer
    {
      if IsCaptured(hooks) {
        // copy to the cache only; it is written out later
        cache := cache + buffer[..count];
        cachePointer := cachePointer + count;
        retained := retained + buffer[..count];
        assert retained[emitted..] == old(retained)[emitted..] + buffer[..count];
      }
      var transformed := buffer;
      if hooks.transformWrite.Some? {
        transformed := OnTransformWrite(hooks, transformed);
      }
      if hooks.transformString.Some? {
        transformed := OnTransformWriteStringInternal(hooks, codec, transformed);
      }
      if !IsOutputDelayed(hooks) {
        downstream := downstream + transformed[offset..offset + |transformed|];
      }
    }

    /** `Flush()`; `codec` is the response's `ContentEncoding` at the time of
        the call. */
    method Flush(codec: Codec)
      requires Valid()
      modifies this
      ensures Valid() && hooks == old(hooks)
      ensures State() == FilterSpec.Flush(hooks, codec, old(State()))
      ensures cachePointer == old(cachePointer) && |cache| <= cachePointer
    {
      if IsCaptured(hooks) && |cache| > 0 {
        var final := OnTransformCompleteStream(hooks, cache);
        final := OnTransformCompleteStringInternal(hooks, codec, final);
        if hooks.captureStream {
          captures := captures + [StreamCaptured(final)];
        }
        if hooks.captureString {
          captures := captures + [StringCaptured(codec.decode(final))];
        }
        // write the cache out if output was delayed
        if IsOutputDelayed(hooks) {
          downstream := downstream + final;
        }
        cache := [];
        emitted := |retained|;
      }
      downstreamFlushes := downstreamFlushes + 1;
    }
  }
}
