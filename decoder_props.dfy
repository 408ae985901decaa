/**
 * What StompFrameDecoder promises about whole frames: the bad state swallows everything, a bad
 * command line yields one failed UNKNOWN headers frame and nothing more, the body is cut by
 * content-length into chunks of at most `maxChunkSize`, or runs to the NUL without one, and the
 * NUL ends the frame and resets every per-frame field.
 */
module DecoderProps {
  import opened StompTypes
  import opened StompHeadersModel
  import opened Frames
  import opened LineParser
  import opened DecoderSpec

  /** The concatenation of byte chunks. */
  function Concat(cs: seq<seq<byte>>): seq<byte>
  {
    if cs == [] then [] else cs[0] + Concat(cs[1..])
  }

  /** The body cut into pieces of `size` bytes, the last one possibly shorter. */
  function Chunks(body: seq<byte>, size: nat): (cs: seq<seq<byte>>)
    requires size > 0
    ensures |cs| >= 1
    ensures Concat(cs) == body
    decreases |body|
  {
    if |body| <= size then [body]
    else
      var rest := Chunks(body[size..], size);
      assert body[..size] + body[size..] == body;
      assert ([body[..size]] + rest)[1..] == rest;
      [body[..size]] + rest
  }

  /** Every piece of a non-empty body holds 1 to `size` bytes, and all but the last exactly `size`. */
  lemma {:induction false} ChunkSizes(body: seq<byte>, size: nat)
    requires size > 0
    ensures body != [] ==> forall i :: 0 <= i < |Chunks(body, size)| ==> 0 < |Chunks(body, size)[i]| <= size
    ensures forall i :: 0 <= i < |Chunks(body, size)| - 1 ==> |Chunks(body, size)[i]| == size
    decreases |body|
  {
    if |body| <= size {
      assert Chunks(body, size) == [body];
    } else {
      ChunkSizes(body[size..], size);
      var rest := Chunks(body[size..], size);
      assert Chunks(body, size) == [body[..size]] + rest;
      var cs := Chunks(body, size);
      forall i | 0 <= i < |cs|
        ensures 0 < |cs[i]| <= size && (i < |cs| - 1 ==> |cs[i]| == size)
      {
        if i == 0 {
          assert cs[0] == body[..size];
        } else {
          assert cs[i] == rest[i - 1];
          assert 0 < |rest[i - 1]| <= size;
        }
      }
    }
  }

  /** The frames a chunked body arrives as: content frames, then one last-content frame. */
  function ChunkFrames(cs: seq<seq<byte>>): (fs: seq<Frame>)
    requires |cs| >= 1
    ensures |fs| == |cs|
    ensures fs[|cs| - 1] == LastContentFrame(Success, Fresh(cs[|cs| - 1]))
  {
    if |cs| == 1 then [LastContentFrame(Success, Fresh(cs[0]))]
    else [ContentFrame(Success, Fresh(cs[0]))] + ChunkFrames(cs[1..])
  }

  /** Every frame but the last is a successful content frame holding its piece. */
  lemma {:induction false} ChunkFramesContent(cs: seq<seq<byte>>)
    requires |cs| >= 1
    ensures forall i :: 0 <= i < |cs| - 1 ==> ChunkFrames(cs)[i] == ContentFrame(Success, Fresh(cs[i]))
    decreases |cs|
  {
    if |cs| > 1 {
      ChunkFramesContent(cs[1..]);
      var fs := ChunkFrames(cs);
      assert forall i :: 1 <= i < |cs| - 1 ==> fs[i] == ChunkFrames(cs[1..])[i - 1];
    }
  }

  /** BAD_FRAME is absorbing: every readable byte is skipped and nothing is fired. */
  lemma BadFrameAbsorbs(cfg: Config, d: Decoder, bytes: seq<byte>, off: nat, alloc: Allocator)
    requires d.state == BadFrame && off <= |bytes|
    ensures Run(cfg, d, bytes, off, alloc) == StepResult(d, |bytes|, [])
  {
    if off < |bytes| {
      assert DecodeStep(cfg, d, bytes, off, alloc) == StepResult(d, |bytes|, []);
      assert Run(cfg, d, bytes, |bytes|, alloc) == StepResult(d, |bytes|, []);
    }
  }

  /**
   * A command line that is not the exact name of a command other than UNKNOWN: one headers frame
   * with command UNKNOWN and the failure is fired, the decoder turns bad, and the rest of the
   * input yields nothing.
   */
  lemma {:induction false} BadCommandLine(cfg: Config, bytes: seq<byte>, off: nat, alloc: Allocator, start: nat)
    requires off <= |bytes|
    requires SkipControl(bytes, off) == (true, start)
    requires var line := ParseLine(cfg.maxLineLength, CommandLine, bytes, start);
      line.Line? && CommandOf(line.st.chars).Err?
    ensures var line := ParseLine(cfg.maxLineLength, CommandLine, bytes, start);
      var cause := CommandOf(line.st.chars).error;
      Run(cfg, Initial(), bytes, off, alloc) ==
        StepResult(Initial().(state := BadFrame), |bytes|, [HeadersFrame(Failure(cause), UNKNOWN, Empty())])
  {
    var line := ParseLine(cfg.maxLineLength, CommandLine, bytes, start);
    var cause := CommandOf(line.st.chars).error;
    var bad := Initial().(state := BadFrame);
    var s := DecodeStep(cfg, Initial(), bytes, off, alloc);
    assert s == StepResult(bad, line.next, [HeadersFrame(Failure(cause), UNKNOWN, Empty())]);
    assert s.off > off;
    BadFrameAbsorbs(cfg, bad, bytes, line.next, alloc);
  }

  /**
   * A command line longer than the limit: the same single failed UNKNOWN frame, with
   * TooLongFrameException. The parser leaves the reader where the line began, so when no CR or LF
   * was skipped before it this call fired a frame but consumed nothing. The pipeline's driver
   * raises DecoderException at that point; `Run` only stops, and does not model that exception.
   */
  lemma {:induction false} CommandLineTooLong(cfg: Config, bytes: seq<byte>, off: nat, alloc: Allocator, start: nat)
    requires off <= |bytes|
    requires SkipControl(bytes, off) == (true, start)
    requires ParseLine(cfg.maxLineLength, CommandLine, bytes, start).LineFailed?
    ensures var cause := ParseLine(cfg.maxLineLength, CommandLine, bytes, start).cause;
      Run(cfg, Initial(), bytes, off, alloc) ==
        StepResult(Initial().(state := BadFrame), if start == off then off else |bytes|,
                   [HeadersFrame(Failure(cause), UNKNOWN, Empty())])
  {
    var cause := ParseLine(cfg.maxLineLength, CommandLine, bytes, start).cause;
    var bad := Initial().(state := BadFrame);
    var s := DecodeStep(cfg, Initial(), bytes, off, alloc);
    assert s == StepResult(bad, start, [HeadersFrame(Failure(cause), UNKNOWN, Empty())]);
    if start != off {
      BadFrameAbsorbs(cfg, bad, bytes, start, alloc);
    }
  }

  /**
   * A complete headers block whose content-length is negative: the headers frame, with the headers
   * read, fails and the decoder turns bad.
   */
  lemma NegativeContentLengthFails(cfg: Config, d: Decoder, frame: PendingHeaders, bytes: seq<byte>, off: nat, alloc: Allocator)
    requires off <= |bytes|
    requires var r := ParseHeaderLines(cfg.maxLineLength, cfg.validateHeaders, ShouldUnescape(frame.command), frame.headers, bytes, off);
      r.HeadersDone? && Contains(r.headers, ContentLength()) && GetLong(r.headers, ContentLength(), 0) < 0
    ensures var r := ParseHeaderLines(cfg.maxLineLength, cfg.validateHeaders, ShouldUnescape(frame.command), frame.headers, bytes, off);
      HeaderBlock(cfg, d, frame, bytes, off, alloc) ==
        StepResult(d.(startHeadersFrame := None, state := BadFrame), r.next,
                   [HeadersFrame(Failure(NegativeContentLength), frame.command, r.headers)])
  {
  }

  /** content-length 0: the headers frame is fired and the next byte must be the NUL, with no content frame. */
  lemma ZeroContentLength(cfg: Config, d: Decoder, frame: PendingHeaders, bytes: seq<byte>, off: nat, alloc: Allocator)
    requires off <= |bytes|
    requires var r := ParseHeaderLines(cfg.maxLineLength, cfg.validateHeaders, ShouldUnescape(frame.command), frame.headers, bytes, off);
      r.HeadersDone? && Contains(r.headers, ContentLength()) && GetLong(r.headers, ContentLength(), 0) == 0
    requires d.lastContentFrame.None?
    ensures var r := ParseHeaderLines(cfg.maxLineLength, cfg.validateHeaders, ShouldUnescape(frame.command), frame.headers, bytes, off);
      var f := HeadersFrame(frame.result, frame.command, r.headers);
      r.next < |bytes| && bytes[r.next] == NUL ==>
        HeaderBlock(cfg, d, frame, bytes, off, alloc) == StepResult(Initial(), r.next + 1, [f, EmptyLast(alloc)])
  {
  }

  /**
   * FINALIZE_FRAME_READ on a NUL: exactly one last-content frame (the pending one, or an empty one
   * from the allocator) and every per-frame field back to its initial value.
   */
  lemma FinalizeOnNul(d: Decoder, bytes: seq<byte>, off: nat, alloc: Allocator, out: seq<Frame>)
    requires off < |bytes| && bytes[off] == NUL
    ensures var r := Finalize(d, bytes, off, alloc, out);
      r.d == Initial() && r.off == off + 1 &&
      r.out == out + [if d.lastContentFrame.Some? then d.lastContentFrame.value else EmptyLast(alloc)]
  {
  }

  /**
   * FINALIZE_FRAME_READ on any other byte: the pending last frame is dropped, an empty last-content
   * frame carrying the failure is fired, and the decoder turns bad.
   */
  lemma FinalizeOnOtherByte(d: Decoder, bytes: seq<byte>, off: nat, alloc: Allocator, out: seq<Frame>)
    requires off < |bytes| && bytes[off] != NUL
    ensures var r := Finalize(d, bytes, off, alloc, out);
      r.d == d.(lastContentFrame := None, state := BadFrame) && r.off == off + 1 &&
      r.out == out + [LastContentFrame(Failure(UnexpectedByte(bytes[off])), Fresh([]))]
  {
  }

  /** A `decode` call that consumed bytes is followed by the rest of the loop. */
  lemma RunThen(cfg: Config, d: Decoder, bytes: seq<byte>, off: nat, alloc: Allocator, s: StepResult)
    requires off < |bytes| && s == DecodeStep(cfg, d, bytes, off, alloc) && s.off > off
    ensures var t := Run(cfg, s.d, bytes, s.off, alloc);
      Run(cfg, d, bytes, off, alloc) == StepResult(t.d, t.off, s.out + t.out)
  {
  }

  /** The chunk that completes the content-length: it becomes the last-content frame and the NUL ends the frame. */
  lemma ContentLengthLastChunk(cfg: Config, d: Decoder, body: seq<byte>, bytes: seq<byte>, off: nat, alloc: Allocator)
    requires 0 < |body| <= cfg.maxChunkSize
    requires d.state == ReadContent && 0 <= d.alreadyReadChunkSize
    requires d.contentLength == d.alreadyReadChunkSize + |body| <= INT_MAX
    requires off + |body| < |bytes| && bytes[off..off + |body|] == body && bytes[off + |body|] == NUL
    ensures DecodeStep(cfg, d, bytes, off, alloc) ==
      StepResult(Initial(), off + |body| + 1, [LastContentFrame(Success, Fresh(body))])
  {
    assert ToInt32(d.contentLength - d.alreadyReadChunkSize) == |body|;
    assert Min(Min(|bytes| - off, cfg.maxChunkSize), |body|) == |body|;
  }

  /** A chunk of `maxChunkSize` bytes short of the content-length: a content frame, and the count grows. */
  lemma ContentLengthChunk(cfg: Config, d: Decoder, body: seq<byte>, bytes: seq<byte>, off: nat, alloc: Allocator)
    requires 0 < cfg.maxChunkSize < |body|
    requires d.state == ReadContent && 0 <= d.alreadyReadChunkSize
    requires d.contentLength == d.alreadyReadChunkSize + |body| <= INT_MAX
    requires off + |body| < |bytes| && bytes[off..off + |body|] == body
    ensures DecodeStep(cfg, d, bytes, off, alloc) ==
      StepResult(d.(alreadyReadChunkSize := d.alreadyReadChunkSize + cfg.maxChunkSize), off + cfg.maxChunkSize,
                 [ContentFrame(Success, Fresh(body[..cfg.maxChunkSize]))])
  {
    var size := cfg.maxChunkSize;
    assert ToInt32(d.contentLength - d.alreadyReadChunkSize) == |body|;
    assert Min(Min(|bytes| - off, size), |body|) == size;
    assert ToInt32(d.alreadyReadChunkSize + size) == d.alreadyReadChunkSize + size;
    assert bytes[off..off + size] == body[..size];
  }

  /** The last chunk, as the loop sees it. */
  lemma ContentLengthLastChunkRun(cfg: Config, d: Decoder, body: seq<byte>, bytes: seq<byte>, off: nat, end: nat, alloc: Allocator)
    requires 0 < |body| <= cfg.maxChunkSize
    requires d.state == ReadContent && 0 <= d.alreadyReadChunkSize
    requires d.contentLength == d.alreadyReadChunkSize + |body| <= INT_MAX
    requires end == off + |body| + 1 <= |bytes| && bytes[off..off + |body|] == body && bytes[off + |body|] == NUL
    ensures var t := Run(cfg, Initial(), bytes, end, alloc);
      Run(cfg, d, bytes, off, alloc) == StepResult(t.d, t.off, [LastContentFrame(Success, Fresh(body))] + t.out)
  {
    ContentLengthLastChunk(cfg, d, body, bytes, off, alloc);
    RunThen(cfg, d, bytes, off, alloc, DecodeStep(cfg, d, bytes, off, alloc));
  }

  /** A chunk short of the content-length, as the loop sees it. */
  lemma ContentLengthChunkRun(cfg: Config, d: Decoder, body: seq<byte>, bytes: seq<byte>, off: nat, alloc: Allocator)
    requires 0 < cfg.maxChunkSize < |body|
    requires d.state == ReadContent && 0 <= d.alreadyReadChunkSize
    requires d.contentLength == d.alreadyReadChunkSize + |body| <= INT_MAX
    requires off + |body| < |bytes| && bytes[off..off + |body|] == body
    ensures var t := Run(cfg, d.(alreadyReadChunkSize := d.alreadyReadChunkSize + cfg.maxChunkSize), bytes, off + cfg.maxChunkSize, alloc);
      Run(cfg, d, bytes, off, alloc) == StepResult(t.d, t.off, [ContentFrame(Success, Fresh(body[..cfg.maxChunkSize]))] + t.out)
  {
    ContentLengthChunk(cfg, d, body, bytes, off, alloc);
    RunThen(cfg, d, bytes, off, alloc, DecodeStep(cfg, d, bytes, off, alloc));
  }

  /**
   * With a content-length, a body followed by its NUL (at `end - 1`) arrives as chunks of
   * `maxChunkSize` bytes: content frames, then the last one as the last-content frame; then
   * decoding starts afresh after the NUL.
   */
  lemma {:induction false} ContentLengthBody(cfg: Config, d: Decoder, body: seq<byte>, bytes: seq<byte>, off: nat, end: nat, alloc: Allocator)
    requires cfg.maxChunkSize > 0
    requires d.state == ReadContent && 0 <= d.alreadyReadChunkSize
    requires |body| > 0 && d.contentLength == d.alreadyReadChunkSize + |body| <= INT_MAX
    requires end == off + |body| + 1 <= |bytes| && bytes[off..off + |body|] == body && bytes[off + |body|] == NUL
    ensures var t := Run(cfg, Initial(), bytes, end, alloc);
      Run(cfg, d, bytes, off, alloc) == StepResult(t.d, t.off, ChunkFrames(Chunks(body, cfg.maxChunkSize)) + t.out)
    decreases |body|, 1
  {
    if |body| <= cfg.maxChunkSize {
      ContentLengthLastChunkRun(cfg, d, body, bytes, off, end, alloc);
      assert Chunks(body, cfg.maxChunkSize) == [body];
    } else {
      ContentLengthBodyStep(cfg, d, body, bytes, off, end, alloc);
    }
  }

  /** `ContentLengthBody` for a body longer than one chunk: its first chunk, then the rest. */
  lemma {:induction false} ContentLengthBodyStep(cfg: Config, d: Decoder, body: seq<byte>, bytes: seq<byte>, off: nat, end: nat, alloc: Allocator)
    requires 0 < cfg.maxChunkSize < |body|
    requires d.state == ReadContent && 0 <= d.alreadyReadChunkSize
    requires d.contentLength == d.alreadyReadChunkSize + |body| <= INT_MAX
    requires end == off + |body| + 1 <= |bytes| && bytes[off..off + |body|] == body && bytes[off + |body|] == NUL
    ensures var t := Run(cfg, Initial(), bytes, end, alloc);
      Run(cfg, d, bytes, off, alloc) == StepResult(t.d, t.off, ChunkFrames(Chunks(body, cfg.maxChunkSize)) + t.out)
    decreases |body|, 0
  {
    var size := cfg.maxChunkSize;
    var d' := d.(alreadyReadChunkSize := d.alreadyReadChunkSize + size);
    RestOfBody(body, bytes, off, size);
    ContentLengthBody(cfg, d', body[size..], bytes, off + size, end, alloc);
    ContentLengthBodyJoin(cfg, d, body, bytes, off, end, alloc);
  }

  /** The first chunk's content frame in front of the frames the rest of the body yields. */
  lemma ContentLengthBodyJoin(cfg: Config, d: Decoder, body: seq<byte>, bytes: seq<byte>, off: nat, end: nat, alloc: Allocator)
    requires 0 < cfg.maxChunkSize < |body|
    requires d.state == ReadContent && 0 <= d.alreadyReadChunkSize
    requires d.contentLength == d.alreadyReadChunkSize + |body| <= INT_MAX
    requires end == off + |body| + 1 <= |bytes| && bytes[off..off + |body|] == body
    requires var d' := d.(alreadyReadChunkSize := d.alreadyReadChunkSize + cfg.maxChunkSize);
      var t := Run(cfg, Initial(), bytes, end, alloc);
      Run(cfg, d', bytes, off + cfg.maxChunkSize, alloc) ==
        StepResult(t.d, t.off, ChunkFrames(Chunks(body[cfg.maxChunkSize..], cfg.maxChunkSize)) + t.out)
    ensures var t := Run(cfg, Initial(), bytes, end, alloc);
      Run(cfg, d, bytes, off, alloc) == StepResult(t.d, t.off, ChunkFrames(Chunks(body, cfg.maxChunkSize)) + t.out)
  {
    var size := cfg.maxChunkSize;
    var d' := d.(alreadyReadChunkSize := d.alreadyReadChunkSize + size);
    ContentLengthChunkRun(cfg, d, body, bytes, off, alloc);
    var r1 := Run(cfg, d', bytes, off + size, alloc);
    assert Run(cfg, d, bytes, off, alloc) == StepResult(r1.d, r1.off, [ContentFrame(Success, Fresh(body[..size]))] + r1.out);
    var t := Run(cfg, Initial(), bytes, end, alloc);
    assert r1 == StepResult(t.d, t.off, ChunkFrames(Chunks(body[size..], size)) + t.out);
    ContentLengthBodyCons(body, size, Run(cfg, d, bytes, off, alloc), r1, t);
  }

  /** The rest of a body after its first chunk lies right after that chunk. */
  lemma RestOfBody(body: seq<byte>, bytes: seq<byte>, off: nat, size: nat)
    requires size < |body| && off + |body| <= |bytes| && bytes[off..off + |body|] == body
    ensures bytes[off + size..off + size + |body[size..]|] == body[size..]
  {
    assert bytes[off + size..off + size + |body[size..]|] == bytes[off..off + |body|][size..];
  }

  /** The inductive step of `ContentLengthBody`: one content frame in front of the frames of the rest. */
  lemma ContentLengthBodyCons(body: seq<byte>, size: nat, r: StepResult, r1: StepResult, t: StepResult)
    requires 0 < size < |body|
    requires r == StepResult(r1.d, r1.off, [ContentFrame(Success, Fresh(body[..size]))] + r1.out)
    requires r1 == StepResult(t.d, t.off, ChunkFrames(Chunks(body[size..], size)) + t.out)
    ensures r == StepResult(t.d, t.off, ChunkFrames(Chunks(body, size)) + t.out)
  {
    ChunkFramesFirst(body, size);
    PrependFrame(r, r1, t, ContentFrame(Success, Fresh(body[..size])), ChunkFrames(Chunks(body[size..], size)));
  }

  /** A body longer than one chunk: its first chunk's content frame, then the frames of the rest. */
  lemma ChunkFramesFirst(body: seq<byte>, size: nat)
    requires 0 < size < |body|
    ensures ChunkFrames(Chunks(body, size)) ==
      [ContentFrame(Success, Fresh(body[..size]))] + ChunkFrames(Chunks(body[size..], size))
  {
    assert Chunks(body, size) == [body[..size]] + Chunks(body[size..], size);
    assert (Chunks(body, size))[1..] == Chunks(body[size..], size);
  }

  /** One frame in front of a run that ends like `t`. */
  lemma PrependFrame(r: StepResult, r1: StepResult, t: StepResult, first: Frame, tail: seq<Frame>)
    requires r == StepResult(r1.d, r1.off, [first] + r1.out)
    requires r1 == StepResult(t.d, t.off, tail + t.out)
    ensures r == StepResult(t.d, t.off, ([first] + tail) + t.out)
  {
    assert [first] + (tail + t.out) == ([first] + tail) + t.out;
  }

  /**
   * Without a content-length, a body up to its NUL is read in one piece, whatever `maxChunkSize`
   * is: one last-content frame (an empty one for an empty body) and the decoder is reset.
   */
  lemma NoLengthBody(cfg: Config, d: Decoder, body: seq<byte>, bytes: seq<byte>, off: nat, alloc: Allocator)
    requires d.state == ReadContent && d.contentLength < 0 && d.lastContentFrame.None?
    requires off + |body| < |bytes| && bytes[off..off + |body|] == body && bytes[off + |body|] == NUL
    requires forall k :: 0 <= k < |body| ==> body[k] != NUL
    ensures DecodeStep(cfg, d, bytes, off, alloc) ==
      StepResult(Initial(), off + |body| + 1,
                 [if body == [] then EmptyLast(alloc) else LastContentFrame(Success, Fresh(body))])
  {
    assert forall k :: off <= k < off + |body| ==> bytes[k] == body[k - off];
    assert BytesBeforeNul(bytes, off) == |body|;
  }

  /**
   * Without a content-length and with no NUL readable yet, every readable byte is fired as one
   * content frame, again regardless of `maxChunkSize`.
   */
  lemma NoLengthPartialBody(cfg: Config, d: Decoder, bytes: seq<byte>, off: nat, alloc: Allocator)
    requires d.state == ReadContent && d.contentLength < 0
    requires off < |bytes| && forall k :: off <= k < |bytes| ==> bytes[k] != NUL
    ensures DecodeStep(cfg, d, bytes, off, alloc) ==
      StepResult(d.(alreadyReadChunkSize := ToInt32(d.alreadyReadChunkSize + (|bytes| - off))), |bytes|,
                 [ContentFrame(Success, Fresh(bytes[off..]))])
  {
    assert BytesBeforeNul(bytes, off) == -1;
    assert bytes[off..off + (|bytes| - off)] == bytes[off..];
  }
}
