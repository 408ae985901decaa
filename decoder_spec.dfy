/**
 * StompFrameDecoder as a function of its fields and the readable bytes: one call of `decode`
 * (`DecodeStep`) and the repeat-while-progress loop of the channel pipeline (`Run`).
 * The input buffer is the byte sequence `bytes` with the reader offset `off`.
 */
module DecoderSpec {
  import opened StompTypes
  import opened StompHeadersModel
  import opened Frames
  import opened LineParser

  /** The decoder's states (the unused INVALID_CHUNK is not modelled). */
  datatype State = SkipControlCharacters | ReadHeaders | ReadContent | FinalizeFrameRead | BadFrame

  /** The configuration fixed at construction. */
  datatype Config = Config(maxLineLength: int, maxChunkSize: int, validateHeaders: bool)

  /** `checkPositive` on both limits: the constructor throws unless both are positive. */
  function NewConfig(maxLineLength: int, maxChunkSize: int, validateHeaders: bool): (r: Option<Config>)
    ensures r.Some? <==> maxLineLength > 0 && maxChunkSize > 0
    ensures r.Some? ==> r.value.maxLineLength == maxLineLength && r.value.maxChunkSize == maxChunkSize &&
                        r.value.validateHeaders == validateHeaders
  {
    if maxLineLength <= 0 || maxChunkSize <= 0 then None
    else Some(Config(maxLineLength, maxChunkSize, validateHeaders))
  }

  const DEFAULT_CHUNK_SIZE: int := 8132
  const DEFAULT_MAX_LINE_LENGTH: int := 1024

  /** The no-argument constructor: line limit 1024, chunk limit 8132, no header validation. */
  function DefaultConfig(): (c: Config)
    ensures NewConfig(DEFAULT_MAX_LINE_LENGTH, DEFAULT_CHUNK_SIZE, false) == Some(c)
  {
    Config(DEFAULT_MAX_LINE_LENGTH, DEFAULT_CHUNK_SIZE, false)
  }

  /** A headers frame being read (`startHeadersFrame`). */
  type PendingHeaders = f: Frame | f.HeadersFrame? witness HeadersFrame(Success, UNKNOWN, StompHeaders([]))

  /** A body chunk kept back until the NUL is seen (`lastContentFrame`). */
  type PendingLast = f: Frame | f.LastContentFrame? witness LastContentFrame(Success, Payload([], true, false))

  /** The decoder's mutable fields. */
  datatype Decoder = Decoder(
    state: State,
    startHeadersFrame: Option<PendingHeaders>,
    alreadyReadChunkSize: int,          // a Java int
    lastContentFrame: Option<PendingLast>,
    contentLength: int)                 // a Java long; -1 when no content-length was given

  /** A new decoder, and the state `resetDecoder()` returns to. */
  function Initial(): (d: Decoder)
    ensures d.state == SkipControlCharacters && d.startHeadersFrame.None? && d.lastContentFrame.None?
    ensures d.contentLength == -1 && d.alreadyReadChunkSize == 0
  {
    Decoder(SkipControlCharacters, None, 0, None, -1)
  }

  /** `resetDecoder()`: every per-frame field back to its initial value. */
  function ResetDecoder(d: Decoder): (r: Decoder)
    ensures r == Initial()
  {
    d.(state := SkipControlCharacters, startHeadersFrame := None, contentLength := -1,
       alreadyReadChunkSize := 0, lastContentFrame := None)
  }

  /** The outcome of one `decode` call: the new fields, the new reader offset, the frames fired. */
  datatype StepResult = StepResult(d: Decoder, off: nat, out: seq<Frame>)

  /** Whether every byte of `bytes[from..to]` is CR or LF. */
  predicate AllControl(bytes: seq<byte>, from: nat, to: nat)
    requires from <= to <= |bytes|
  {
    forall k :: from <= k < to ==> bytes[k] == CR || bytes[k] == LF
  }

  /**
   * `skipControlCharacters`: steps over CR and LF. True, with the reader on the first other byte;
   * or false with every byte consumed.
   */
  function SkipControl(bytes: seq<byte>, off: nat): (r: (bool, nat))
    requires off <= |bytes|
    ensures off <= r.1 <= |bytes| && AllControl(bytes, off, r.1)
    ensures r.0 ==> r.1 < |bytes| && bytes[r.1] != CR && bytes[r.1] != LF
    ensures !r.0 ==> r.1 == |bytes|
    decreases |bytes| - off
  {
    if off == |bytes| then (false, off)
    else if bytes[off] != CR && bytes[off] != LF then (true, off)
    else SkipControl(bytes, off + 1)
  }

  /** `bytesBefore(NUL)`: the distance to the first NUL from the reader, or -1 without one. */
  function BytesBeforeNul(bytes: seq<byte>, off: nat): (r: int)
    requires off <= |bytes|
    ensures -1 <= r < |bytes| - off
    ensures r >= 0 ==> bytes[off + r] == NUL && forall k :: off <= k < off + r ==> bytes[k] != NUL
    ensures r == -1 ==> forall k :: off <= k < |bytes| ==> bytes[k] != NUL
    decreases |bytes| - off
  {
    if off == |bytes| then -1
    else if bytes[off] == NUL then 0
    else
      var r := BytesBeforeNul(bytes, off + 1);
      if r == -1 then -1 else r + 1
  }

  /** The first catch block: the headers frame (or a new UNKNOWN one) fails and the decoder turns bad. */
  function HeadersFailure(d: Decoder, frame: PendingHeaders, cause: Cause, off: nat): (r: StepResult)
    ensures r.d.state == BadFrame && r.d.startHeadersFrame.None? && r.off == off
    ensures r.out == [HeadersFrame(Failure(cause), frame.command, frame.headers)]
  {
    StepResult(d.(startHeadersFrame := None, state := BadFrame), off,
               [HeadersFrame(Failure(cause), frame.command, frame.headers)])
  }

  /**
   * The second catch block: a pending last frame is released and dropped, an empty last-content
   * frame carrying the failure is fired, and the decoder turns bad.
   */
  function ContentFailure(d: Decoder, cause: Cause, off: nat, out: seq<Frame>): (r: StepResult)
    ensures r.d.state == BadFrame && r.d.lastContentFrame.None? && r.off == off
    ensures r.out == out + [LastContentFrame(Failure(cause), Fresh([]))]
  {
    StepResult(d.(lastContentFrame := None, state := BadFrame), off,
               out + [LastContentFrame(Failure(cause), Fresh([]))])
  }

  /**
   * FINALIZE_FRAME_READ: `skipNullCharacter`, then the pending last frame (or an empty one from the
   * context's allocator) is fired and the decoder is reset. A byte other than NUL throws.
   */
  function Finalize(d: Decoder, bytes: seq<byte>, off: nat, alloc: Allocator, out: seq<Frame>): (r: StepResult)
    requires off <= |bytes|
    ensures off <= r.off <= |bytes|
  {
    if |bytes| - off < 1 then StepResult(d, off, out)
    else if bytes[off] != NUL then ContentFailure(d, UnexpectedByte(bytes[off]), off + 1, out)
    else
      var last := if d.lastContentFrame.Some? then d.lastContentFrame.value else EmptyLast(alloc);
      StepResult(ResetDecoder(d), off + 1, out + [last])
  }

  /**
   * READ_CONTENT. With a content-length the chunk is bounded by the readable bytes, `maxChunkSize`
   * and the remaining length (narrowed to int); the chunk that completes the length is kept back
   * as the last frame. Without one the body runs to the next NUL (a last frame) or, when there is
   * none yet, to the end of the readable bytes (a content frame), with no chunk bound.
   */
  function ReadBody(cfg: Config, d: Decoder, bytes: seq<byte>, off: nat, alloc: Allocator, out: seq<Frame>): (r: StepResult)
    requires off <= |bytes|
    ensures off <= r.off <= |bytes|
  {
    if off == |bytes| then StepResult(d, off, out)
    else if d.contentLength >= 0 then ReadLengthBody(cfg, d, bytes, off, alloc, out)
    else ReadNulBody(d, bytes, off, alloc, out)
  }

  /** `ReadBody` with a content-length: at most `maxChunkSize` bytes and no more than remain. */
  function ReadLengthBody(cfg: Config, d: Decoder, bytes: seq<byte>, off: nat, alloc: Allocator, out: seq<Frame>): (r: StepResult)
    requires off < |bytes| && d.contentLength >= 0
    ensures off <= r.off <= |bytes|
  {
    var toRead := Min(|bytes| - off, cfg.maxChunkSize);
    var remaining := ToInt32(d.contentLength - d.alreadyReadChunkSize);
    var n := Min(toRead, remaining);
    if n < 0 then ContentFailure(d, SplitOutOfBounds, off, out)
    else
      var chunk := bytes[off..off + n];
      var already := ToInt32(d.alreadyReadChunkSize + n);
      if already >= d.contentLength then
        Finalize(d.(alreadyReadChunkSize := already, lastContentFrame := Some(LastContentFrame(Success, Fresh(chunk))),
                    state := FinalizeFrameRead), bytes, off + n, alloc, out)
      else StepResult(d.(alreadyReadChunkSize := already), off + n, out + [ContentFrame(Success, Fresh(chunk))])
  }

  /** `ReadBody` without a content-length: up to the next NUL, or every readable byte when there is none. */
  function ReadNulBody(d: Decoder, bytes: seq<byte>, off: nat, alloc: Allocator, out: seq<Frame>): (r: StepResult)
    requires off < |bytes|
    ensures off <= r.off <= |bytes|
  {
    var beforeNull := BytesBeforeNul(bytes, off);
    if beforeNull == 0 then Finalize(d.(state := FinalizeFrameRead), bytes, off, alloc, out)
    else
      var n := if beforeNull > 0 then beforeNull else |bytes| - off;
      var chunk := bytes[off..off + n];
      var already := ToInt32(d.alreadyReadChunkSize + n);
      if beforeNull < 0 then StepResult(d.(alreadyReadChunkSize := already), off + n, out + [ContentFrame(Success, Fresh(chunk))])
      else
        Finalize(d.(alreadyReadChunkSize := already, lastContentFrame := Some(LastContentFrame(Success, Fresh(chunk))),
                    state := FinalizeFrameRead), bytes, off + n, alloc, out)
  }

  /** The second `switch`: READ_CONTENT falls through to FINALIZE_FRAME_READ; other states do nothing. */
  function Body(cfg: Config, d: Decoder, bytes: seq<byte>, off: nat, alloc: Allocator, out: seq<Frame>): (r: StepResult)
    requires off <= |bytes|
    ensures off <= r.off <= |bytes|
  {
    match d.state
    case ReadContent => ReadBody(cfg, d, bytes, off, alloc, out)
    case FinalizeFrameRead => Finalize(d, bytes, off, alloc, out)
    case _ => StepResult(d, off, out)
  }

  /** `getContentLength`: the first content-length value as a long (0 if unparsable); negative throws. */
  function ContentLengthOf(h: StompHeaders): (r: Result<int, Cause>)
    ensures r.Ok? <==> GetLong(h, ContentLength(), 0) >= 0
    ensures r.Ok? ==> r.value == GetLong(h, ContentLength(), 0)
    ensures r.Err? ==> r.error == NegativeContentLength
  {
    var cl := GetLong(h, ContentLength(), 0);
    if cl < 0 then Err(NegativeContentLength) else Ok(cl)
  }

  /**
   * `readHeaders` and what follows it in READ_HEADERS: on the blank line the headers frame is fired
   * and the next state (READ_CONTENT, or FINALIZE_FRAME_READ for content-length 0) runs at once;
   * without a blank line the frame, with the headers read so far, stays pending.
   */
  function HeaderBlock(cfg: Config, d: Decoder, frame: PendingHeaders, bytes: seq<byte>, off: nat, alloc: Allocator): (r: StepResult)
    requires off <= |bytes|
    ensures off <= r.off <= |bytes|
  {
    match ParseHeaderLines(cfg.maxLineLength, cfg.validateHeaders, ShouldUnescape(frame.command), frame.headers, bytes, off)
    case HeadersIncomplete(h, next) =>
      StepResult(d.(startHeadersFrame := Some(HeadersFrame(frame.result, frame.command, h))), next, [])
    case HeadersFailed(c, h, next) => HeadersFailure(d, HeadersFrame(frame.result, frame.command, h), c, next)
    case HeadersDone(h, next) =>
      var f := HeadersFrame(frame.result, frame.command, h);
      if Contains(h, ContentLength()) then
        match ContentLengthOf(h)
        case Err(c) => HeadersFailure(d, f, c, next)
        case Ok(cl) =>
          var state := if cl == 0 then FinalizeFrameRead else ReadContent;
          Body(cfg, d.(contentLength := cl, state := state, startHeadersFrame := None), bytes, next, alloc, [f])
      else Body(cfg, d.(state := ReadContent, startHeadersFrame := None), bytes, next, alloc, [f])
  }

  /** `readCommand` after `parse`: the exact name of a command other than UNKNOWN, or the exception. */
  function CommandOf(line: Text): (r: Result<Command, Cause>)
    ensures r.Ok? <==> ValueOf(line).Some? && ValueOf(line).value != UNKNOWN
    ensures r.Ok? ==> Name(r.value) == line
  {
    match ValueOf(line)
    case None => Err(InvalidCommand(line))
    case Some(c) => if c == UNKNOWN then Err(UnknownCommand) else Ok(c)
  }

  /** READ_HEADERS: the command line first when no headers frame is pending, then the header block. */
  function ReadHeaderSection(cfg: Config, d: Decoder, bytes: seq<byte>, off: nat, alloc: Allocator): (r: StepResult)
    requires off <= |bytes|
    ensures off <= r.off <= |bytes|
  {
    if d.startHeadersFrame.Some? then HeaderBlock(cfg, d, d.startHeadersFrame.value, bytes, off, alloc)
    else
      match ParseLine(cfg.maxLineLength, CommandLine, bytes, off)
      case NeedMore => StepResult(d, off, [])
      case LineFailed(c) => HeadersFailure(d, HeadersFrame(Success, UNKNOWN, Empty()), c, off)
      case Line(st, next) =>
        match CommandOf(st.chars)
        case Err(c) => HeadersFailure(d, HeadersFrame(Success, UNKNOWN, Empty()), c, next)
        case Ok(command) => HeaderBlock(cfg, d, HeadersFrame(Success, command, Empty()), bytes, next, alloc)
  }

  /** One call of `decode(ctx, in)`. */
  function DecodeStep(cfg: Config, d: Decoder, bytes: seq<byte>, off: nat, alloc: Allocator): (r: StepResult)
    requires off <= |bytes|
    ensures off <= r.off <= |bytes|
  {
    match d.state
    case SkipControlCharacters =>
      var (found, next) := SkipControl(bytes, off);
      if !found then StepResult(d, next, [])
      else ReadHeaderSection(cfg, d.(state := ReadHeaders), bytes, next, alloc)
    case ReadHeaders => ReadHeaderSection(cfg, d, bytes, off, alloc)
    case BadFrame => StepResult(d, |bytes|, [])
    case _ => Body(cfg, d, bytes, off, alloc, [])
  }

  /**
   * The pipeline's decode loop: `decode` again while bytes are readable and the last call
   * consumed some. A call that fires frames without consuming anything makes the driver raise
   * DecoderException; here the loop just stops after it.
   */
  function Run(cfg: Config, d: Decoder, bytes: seq<byte>, off: nat, alloc: Allocator): (r: StepResult)
    requires off <= |bytes|
    ensures off <= r.off <= |bytes|
    decreases |bytes| - off, 1
  {
    if off == |bytes| then StepResult(d, off, []) else RunStep(cfg, d, bytes, off, alloc)
  }

  /** One `decode` call from `off`, then the rest of the loop unless that call consumed nothing. */
  function RunStep(cfg: Config, d: Decoder, bytes: seq<byte>, off: nat, alloc: Allocator): (r: StepResult)
    requires off < |bytes|
    ensures off <= r.off <= |bytes|
    decreases |bytes| - off, 0
  {
    var s := DecodeStep(cfg, d, bytes, off, alloc);
    if s.off == off then s
    else
      var t := Run(cfg, s.d, bytes, s.off, alloc);
      StepResult(t.d, t.off, s.out + t.out)
  }
}
