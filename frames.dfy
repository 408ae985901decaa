/**
 * The STOMP frame value types: DefaultHeadersStompFrame, DefaultFullStompFrame,
 * DefaultContentStompFrame, DefaultLastContentStompFrame and EmptyLastContentStompFrame,
 * together with the decoder result they inherit from DefaultStompFrame.
 */
module Frames {
  import opened StompTypes
  import opened StompHeadersModel

  /** Identity of a netty BufferAllocator (allocators are compared with `equals`). */
  type Allocator = nat

  /** A netty Buffer: its readable bytes, whether it is still open, whether it is read-only. */
  datatype Payload = Payload(bytes: seq<byte>, accessible: bool, readOnly: bool)

  /** `allocator.allocate(n)` filled with `bytes`: open and writable. */
  function Fresh(bytes: seq<byte>): (p: Payload)
    ensures p.bytes == bytes && p.accessible && !p.readOnly
  {
    Payload(bytes, true, false)
  }

  /** `allocate(0).makeReadOnly()`. */
  function EmptyReadOnly(): (p: Payload)
    ensures |p.bytes| == 0 && p.accessible && p.readOnly
  {
    Payload([], true, true)
  }

  /** What a constructor or a setter throws. */
  datatype FrameError =
    | NullArgument   // NullPointerException from requireNonNull
    | ReadOnly       // UnsupportedOperationException from EmptyLastContentStompFrame

  /** One STOMP frame; the variant is the Java class. */
  datatype Frame =
    | HeadersFrame(result: DecoderResult, command: Command, headers: StompHeaders)
    | ContentFrame(result: DecoderResult, payload: Payload)
    | LastContentFrame(result: DecoderResult, payload: Payload)
    | EmptyLastFrame(allocator: Allocator, payload: Payload)
    | FullFrame(result: DecoderResult, command: Command, headers: StompHeaders, payload: Payload)

  /** What every constructor guarantees: the empty last frame's payload is empty and read-only. */
  predicate Valid(f: Frame)
  {
    f.EmptyLastFrame? ==> |f.payload.bytes| == 0 && f.payload.readOnly
  }

  // ---- the interface hierarchy ----
  // FullStompFrame.java is not part of this model: a full frame is taken to be both a headers
  // frame and a last-content frame, as DefaultFullStompFrame's payload, copy and send indicate.

  /** `instanceof HeadersStompFrame` (a full frame is a headers frame too). */
  predicate IsHeadersStompFrame(f: Frame) { f.HeadersFrame? || f.FullFrame? }

  /** `instanceof ContentStompFrame` (a full frame carries content too). */
  predicate IsContentStompFrame(f: Frame) { !f.HeadersFrame? }

  /** `instanceof LastContentStompFrame`: the frames that end a message's content. */
  predicate IsLastContentStompFrame(f: Frame) { f.LastContentFrame? || f.EmptyLastFrame? || f.FullFrame? }

  /** `instanceof FullStompFrame`. */
  predicate IsFullStompFrame(f: Frame) { f.FullFrame? }

  /**
   * Last-content is content, full is headers, every frame is a headers frame or a content
   * frame, and the frames that are both are exactly the full frames.
   */
  lemma Hierarchy(f: Frame)
    ensures IsLastContentStompFrame(f) ==> IsContentStompFrame(f)
    ensures IsFullStompFrame(f) ==> IsHeadersStompFrame(f) && IsLastContentStompFrame(f)
    ensures IsHeadersStompFrame(f) && IsContentStompFrame(f) <==> IsFullStompFrame(f)
    ensures IsHeadersStompFrame(f) || IsContentStompFrame(f)
  {
  }

  /** `decoderResult()`: the stored result, always success for the empty last frame. */
  function DecoderResultOf(f: Frame): (r: DecoderResult)
    ensures f.EmptyLastFrame? ==> r == Success
  {
    if f.EmptyLastFrame? then Success else f.result
  }

  /** `payload()` of a frame that has one; `readableBytes()` is the length of its bytes. */
  function PayloadOf(f: Frame): Payload
    requires !f.HeadersFrame?
  {
    f.payload
  }

  // ---- constructors (a null argument is None) ----

  /** `new DefaultHeadersStompFrame(command, headers)`; `new DefaultHeadersStompFrame(command)` passes None. */
  function NewHeadersFrame(command: Option<Command>, headers: Option<StompHeaders>): (r: Result<Frame, FrameError>)
    ensures r.Err? <==> command.None?
    ensures r.Ok? ==> r.value.HeadersFrame? && r.value.result == Success && r.value.command == command.value
    ensures r.Ok? && headers.Some? ==> r.value.headers == headers.value
    ensures r.Ok? && headers.None? ==> Size(r.value.headers) == 0
  {
    if command.None? then Err(NullArgument)
    else Ok(HeadersFrame(Success, command.value, if headers.Some? then headers.value else Empty()))
  }

  /** `new DefaultFullStompFrame(command, payload, headers)`: the command is checked first, then the payload. */
  function NewFullFrame(command: Option<Command>, payload: Option<Payload>, headers: Option<StompHeaders>): (r: Result<Frame, FrameError>)
    ensures r.Err? <==> command.None? || payload.None?
    ensures r.Ok? ==> r.value.FullFrame? && r.value.result == Success && r.value.command == command.value
    ensures r.Ok? ==> r.value.payload == payload.value
    ensures r.Ok? && headers.Some? ==> r.value.headers == headers.value
    ensures r.Ok? && headers.None? ==> Size(r.value.headers) == 0
  {
    match NewHeadersFrame(command, headers)
    case Err(e) => Err(e)
    case Ok(h) =>
      if payload.None? then Err(NullArgument)
      else Ok(FullFrame(Success, h.command, h.headers, payload.value))
  }

  /** `new DefaultFullStompFrame(command)`: an empty read-only payload and no headers. */
  function NewFullFrameOf(command: Option<Command>): (r: Result<Frame, FrameError>)
    ensures r.Err? <==> command.None?
    ensures r.Ok? ==> r.value.FullFrame? && |r.value.payload.bytes| == 0 && r.value.payload.readOnly
    ensures r.Ok? ==> Size(r.value.headers) == 0 && r.value.result == Success
  {
    NewFullFrame(command, Some(EmptyReadOnly()), None)
  }

  /** `new DefaultContentStompFrame(payload)`. */
  function NewContentFrame(payload: Option<Payload>): (r: Result<Frame, FrameError>)
    ensures r.Err? <==> payload.None?
    ensures r.Ok? ==> r.value == ContentFrame(Success, payload.value)
  {
    if payload.None? then Err(NullArgument) else Ok(ContentFrame(Success, payload.value))
  }

  /** `new DefaultLastContentStompFrame(payload)`. */
  function NewLastContentFrame(payload: Option<Payload>): (r: Result<Frame, FrameError>)
    ensures r.Err? <==> payload.None?
    ensures r.Ok? ==> r.value == LastContentFrame(Success, payload.value)
  {
    if payload.None? then Err(NullArgument) else Ok(LastContentFrame(Success, payload.value))
  }

  /** `new EmptyLastContentStompFrame(allocator)`: an empty read-only payload from that allocator. */
  function NewEmptyLastFrame(allocator: Option<Allocator>): (r: Result<Frame, FrameError>)
    ensures r.Err? <==> allocator.None?
    ensures r.Ok? ==> r.value.EmptyLastFrame? && r.value.allocator == allocator.value
    ensures r.Ok? ==> |r.value.payload.bytes| == 0 && r.value.payload.readOnly
  {
    if allocator.None? then Err(NullArgument) else Ok(EmptyLastFrame(allocator.value, EmptyReadOnly()))
  }

  /** The empty last frame the decoder synthesizes from a known allocator. */
  function EmptyLast(allocator: Allocator): (f: Frame)
    ensures NewEmptyLastFrame(Some(allocator)) == Ok(f)
  {
    EmptyLastFrame(allocator, EmptyReadOnly())
  }

  // ---- operations ----

  /**
   * `setDecoderResult(result)`: the empty last frame is read-only and refuses any result;
   * the others refuse null and otherwise store exactly the given result.
   */
  function SetDecoderResult(f: Frame, result: Option<DecoderResult>): (r: Result<Frame, FrameError>)
    ensures f.EmptyLastFrame? ==> r == Err(ReadOnly)
    ensures !f.EmptyLastFrame? && result.None? ==> r == Err(NullArgument)
    ensures r.Ok? ==> DecoderResultOf(r.value) == result.value
  {
    if f.EmptyLastFrame? then Err(ReadOnly)
    else if result.None? then Err(NullArgument)
    else Ok(f.(result := result.value))
  }

  /** A successful `setDecoderResult` changes the result and nothing else. */
  lemma SetDecoderResultFrame(f: Frame, result: DecoderResult)
    requires !f.EmptyLastFrame?
    ensures SetDecoderResult(f, Some(result)).Ok?
    ensures var g := SetDecoderResult(f, Some(result)).value;
      g.(result := f.result) == f && DecoderResultOf(g) == result
  {
  }

  /**
   * `copy()`: a new frame of the same class over a copy of the payload (and, for a full frame,
   * a copy of the headers). Being a new object, its decoder result is the initial success.
   * A bare headers frame has no `copy()`.
   */
  function Copy(f: Frame): (g: Frame)
    requires !f.HeadersFrame?
    ensures DecoderResultOf(g) == Success
  {
    match f
    case ContentFrame(_, p) => ContentFrame(Success, Fresh(p.bytes))
    case LastContentFrame(_, p) => LastContentFrame(Success, Fresh(p.bytes))
    case EmptyLastFrame(a, _) => EmptyLast(a)
    case FullFrame(_, c, h, p) => FullFrame(Success, c, StompHeaders(h.entries), Fresh(p.bytes))
  }

  /**
   * `send()`: transfers ownership of the payload to a new frame of the same class.
   * Returns the original as it is afterwards (its payload no longer accessible, except for
   * the empty last frame whose send leaves it alone) and the received frame.
   */
  function Send(f: Frame): (r: (Frame, Frame))
    requires !f.HeadersFrame?
    ensures !r.0.HeadersFrame? && !r.1.HeadersFrame?
    ensures !f.EmptyLastFrame? ==> r.1.payload.bytes == f.payload.bytes
    ensures DecoderResultOf(r.1) == Success
    ensures !f.EmptyLastFrame? ==> !IsAccessible(r.0) && IsAccessible(r.1) == f.payload.accessible
    ensures f.EmptyLastFrame? ==> r.0 == f && r.1 == EmptyLast(f.allocator)
  {
    match f
    case ContentFrame(r, p) => (ContentFrame(r, p.(accessible := false)), ContentFrame(Success, p))
    case LastContentFrame(r, p) => (LastContentFrame(r, p.(accessible := false)), LastContentFrame(Success, p))
    case EmptyLastFrame(a, _) => (f, EmptyLast(a))
    case FullFrame(r, c, h, p) => (FullFrame(r, c, h, p.(accessible := false)), FullFrame(Success, c, h, p))
  }

  /** `close()`: releases the payload. */
  function Close(f: Frame): (g: Frame)
    requires !f.HeadersFrame?
    ensures !g.HeadersFrame? && !IsAccessible(g)
  {
    match f
    case ContentFrame(r, p) => ContentFrame(r, p.(accessible := false))
    case LastContentFrame(r, p) => LastContentFrame(r, p.(accessible := false))
    case EmptyLastFrame(a, p) => EmptyLastFrame(a, p.(accessible := false))
    case FullFrame(r, c, h, p) => FullFrame(r, c, h, p.(accessible := false))
  }

  /** `isAccessible()`: whether the payload is still open. */
  predicate IsAccessible(f: Frame)
    requires !f.HeadersFrame?
  {
    f.payload.accessible
  }

  /**
   * `equals`: frames of the same class; equal decoder results; then, by class, the same command
   * and equal headers, and equal payload bytes; the empty last frame compares allocator and payload.
   */
  function Equals(a: Frame, b: Frame): (r: bool)
    ensures r ==> DecoderResultOf(a) == DecoderResultOf(b)
    ensures r ==> (a.FullFrame? <==> b.FullFrame?) && (a.EmptyLastFrame? <==> b.EmptyLastFrame?)
    ensures a == b && !IsHeadersStompFrame(a) ==> r
  {
    match (a, b)
    case (HeadersFrame(r1, c1, h1), HeadersFrame(r2, c2, h2)) => c1 == c2 && r1 == r2 && Equal(h1, h2)
    case (ContentFrame(r1, p1), ContentFrame(r2, p2)) => r1 == r2 && p1.bytes == p2.bytes
    case (LastContentFrame(r1, p1), LastContentFrame(r2, p2)) => r1 == r2 && p1.bytes == p2.bytes
    case (EmptyLastFrame(a1, p1), EmptyLastFrame(a2, p2)) => a1 == a2 && p1.bytes == p2.bytes
    case (FullFrame(r1, c1, h1, p1), FullFrame(r2, c2, h2, p2)) =>
      c1 == c2 && r1 == r2 && Equal(h1, h2) && p1.bytes == p2.bytes
    case _ => false
  }

  /** Equal frames are of the same class and carry the same decoder result. */
  lemma EqualsSameClass(a: Frame, b: Frame)
    requires Equals(a, b)
    ensures a.HeadersFrame? == b.HeadersFrame? && a.ContentFrame? == b.ContentFrame?
    ensures a.LastContentFrame? == b.LastContentFrame? && a.EmptyLastFrame? == b.EmptyLastFrame?
    ensures a.FullFrame? == b.FullFrame?
    ensures DecoderResultOf(a) == DecoderResultOf(b)
    ensures IsHeadersStompFrame(a) ==> a.command == b.command
    ensures !a.HeadersFrame? ==> a.payload.bytes == b.payload.bytes
  {
  }

  /** Headers equality is reflexive. */
  lemma HeadersEqualReflexive(h: StompHeaders)
    ensures Equal(h, h)
  {
  }

  /** Every frame equals itself. */
  lemma EqualsReflexive(f: Frame)
    ensures Equals(f, f)
  {
    if IsHeadersStompFrame(f) {
      HeadersEqualReflexive(f.headers);
    }
  }

  /**
   * A copy equals its original exactly when the original's decoder result is success
   * (the copy starts over with success); it never shares the open/closed state of the original.
   */
  lemma CopyEquals(f: Frame)
    requires Valid(f) && !f.HeadersFrame?
    ensures Equals(Copy(f), f) <==> DecoderResultOf(f) == Success
    ensures IsAccessible(Copy(f)) && Copy(f).payload.bytes == f.payload.bytes
    ensures f.FullFrame? ==> Copy(f).headers.entries == f.headers.entries
  {
    EqualsReflexive(f);
    if f.FullFrame? {
      HeadersEqualReflexive(f.headers);
    }
  }

  /** Writing to a copied payload breaks equality with the original and leaves the original as it was. */
  lemma CopyThenWrite(f: Frame, extra: byte)
    requires !f.HeadersFrame? && !f.EmptyLastFrame?
    ensures !Equals(WriteByte(Copy(f), extra), f)
  {
    var c := Copy(f);
    assert |c.payload.bytes + [extra]| != |f.payload.bytes|;
  }

  /** `payload().writeByte(b)`: a read-only payload refuses writes. */
  function WriteByte(f: Frame, b: byte): (g: Frame)
    requires !f.HeadersFrame? && !f.EmptyLastFrame? && !f.payload.readOnly
    ensures !g.HeadersFrame? && g.payload.bytes == f.payload.bytes + [b]
  {
    match f
    case ContentFrame(r, p) => ContentFrame(r, p.(bytes := p.bytes + [b]))
    case LastContentFrame(r, p) => LastContentFrame(r, p.(bytes := p.bytes + [b]))
    case FullFrame(r, c, h, p) => FullFrame(r, c, h, p.(bytes := p.bytes + [b]))
  }

  /** Two empty last frames are equal exactly when they come from the same allocator. */
  lemma EmptyLastEquality(a1: Allocator, a2: Allocator)
    ensures Equals(EmptyLast(a1), EmptyLast(a2)) <==> a1 == a2
  {
  }

  /** A last-content frame never equals a plain content frame, whatever the bytes. */
  lemma LastNeverEqualsContent(r: DecoderResult, p1: Payload, p2: Payload)
    ensures !Equals(LastContentFrame(r, p1), ContentFrame(r, p2))
    ensures !Equals(ContentFrame(r, p1), LastContentFrame(r, p2))
  {
  }
}
