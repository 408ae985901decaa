/**
 * StompFrameAggregator: the hooks it gives netty's MessageAggregator, and the aggregator itself.
 * A headers frame starts a message; content frames are appended to the full frame it began;
 * the last-content frame (or a failed one) completes it. A full frame that arrives as it is
 * counts as already aggregated and passes through. The aggregate may not grow beyond
 * `maxContentLength`, and a declared content-length above it is refused up front.
 *
 * MessageAggregator.java is not part of this model: `Step` below is the per-message rule of its
 * `acceptInboundMessage` and `decode` in terms of these hooks.
 */
module StompAggregator {
  import opened StompTypes
  import opened StompHeadersModel
  import opened Frames
  import opened DecoderProps

  // ---- the hooks ----

  /** `tryStartMessage`: a headers frame (bare or full) starts a message; the content frames do not. */
  function IsStartMessage(f: Frame): (r: bool)
    ensures r <==> f.HeadersFrame? || f.FullFrame?
  {
    IsHeadersStompFrame(f)
  }

  /** `tryContentMessage`: every frame but a bare headers frame carries content. */
  function IsContentMessage(f: Frame): (r: bool)
    ensures r || IsStartMessage(f)
    ensures r <==> f.ContentFrame? || f.LastContentFrame? || f.EmptyLastFrame? || f.FullFrame?
  {
    IsContentStompFrame(f)
  }

  /** `isLastContentMessage`: a last-content frame ends a message, and is content itself. */
  function IsLastContentMessage(f: Frame): (r: bool)
    ensures r ==> IsContentMessage(f)
    ensures IsContentMessage(f) ==> (r <==> !f.ContentFrame?)
  {
    IsLastContentStompFrame(f)
  }

  /** `isAggregated`: a full frame needs no aggregation; it is exactly a start that is also content. */
  function IsAggregated(f: Frame): (r: bool)
    ensures r <==> IsStartMessage(f) && IsContentMessage(f)
    ensures r ==> IsLastContentMessage(f)
  {
    IsFullStompFrame(f)
  }

  /** `lengthForContent`: the readable bytes of the chunk; the empty last frame adds none. */
  function LengthForContent(c: Frame): (n: nat)
    requires IsContentMessage(c)
    ensures Valid(c) && c.EmptyLastFrame? ==> n == 0
  {
    |c.payload.bytes|
  }

  /** `lengthForAggregation`: the readable bytes aggregated so far, which a full frame also reports as content. */
  function LengthForAggregation(full: Frame): (n: nat)
    requires full.FullFrame?
    ensures n == LengthForContent(full)
  {
    |full.payload.bytes|
  }

  /**
   * `isContentLengthInvalid`: the declared content-length (-1 when absent or unparsable) exceeds
   * the maximum.
   */
  function IsContentLengthInvalid(h: Frame, maxContentLength: int): (r: bool)
    requires IsStartMessage(h)
    ensures !Contains(h.headers, ContentLength()) ==> (r <==> maxContentLength < -1)
    ensures Contains(h.headers, ContentLength()) && ParseLong(Get(h.headers, ContentLength()).value).Some? ==>
      (r <==> ParseLong(Get(h.headers, ContentLength()).value).value > maxContentLength)
  {
    GetLong(h.headers, ContentLength(), -1) > maxContentLength
  }

  /** Without a content-length header the up-front check never fires. */
  lemma NoContentLengthIsValid(h: Frame, maxContentLength: int)
    requires IsStartMessage(h) && maxContentLength >= 0
    requires !Contains(h.headers, ContentLength())
    ensures !IsContentLengthInvalid(h, maxContentLength)
  {
  }

  /** A content-length written in decimal is invalid exactly when it is above the maximum. */
  lemma DeclaredContentLength(h: Frame, n: nat, maxContentLength: int)
    requires IsStartMessage(h) && n <= LONG_MAX
    requires Get(h.headers, ContentLength()) == Some(Decimal(n))
    ensures IsContentLengthInvalid(h, maxContentLength) <==> n > maxContentLength
  {
    ParseLongDecimal(n);
  }

  /**
   * `beginAggregation`: a new full frame with the headers frame's command and headers over an
   * empty growable payload, carrying the headers frame's failure when it has one.
   */
  function BeginAggregation(h: Frame): (full: Frame)
    requires IsStartMessage(h) && !IsAggregated(h)
    ensures full.FullFrame? && full.command == h.command && full.headers == h.headers
    ensures full.payload.bytes == [] && full.payload.accessible && !full.payload.readOnly
    ensures DecoderResultOf(full) == DecoderResultOf(h)
  {
    var fullFrame := NewFullFrame(Some(h.command), Some(Fresh([])), Some(h.headers)).value;
    if h.result.IsFailure() then SetDecoderResult(fullFrame, Some(h.result)).value else fullFrame
  }

  /** `aggregate`: the chunk's bytes are appended to the full frame's payload; nothing else changes. */
  function Aggregate(full: Frame, c: Frame): (r: Frame)
    requires full.FullFrame? && IsContentMessage(c)
    ensures r.FullFrame? && r.payload.bytes == full.payload.bytes + c.payload.bytes
    ensures r.(payload := full.payload) == full
    ensures LengthForAggregation(r) == LengthForAggregation(full) + LengthForContent(c)
  {
    FullFrame(full.result, full.command, full.headers, full.payload.(bytes := full.payload.bytes + c.payload.bytes))
  }

  // ---- the aggregator ----

  /** What the aggregator hands downstream. */
  datatype Event =
    | Read(frame: Frame)                     // a frame passed on: as it came, or a completed full frame
    | TooLongFrame(maxContentLength: int)    // TooLongFrameException: "content length exceeded"
    | AggregationFailure                     // MessageAggregationException: a start inside a message

  /** Whether a message has started, and the full frame being built. */
  datatype AggState = AggState(aggregating: bool, current: Option<Frame>)

  /** Nothing started. */
  function Idle(): AggState { AggState(false, None) }

  /** A frame under construction is a full frame, and exists only inside a message. */
  predicate Inv(s: AggState)
  {
    s.current.Some? ==> s.aggregating && s.current.value.FullFrame?
  }

  /** `acceptInboundMessage`: not yet aggregated, and a start, or a content frame inside a message. */
  function Accepts(aggregating: bool, f: Frame): (r: bool)
    ensures IsAggregated(f) ==> !r
    ensures f.HeadersFrame? ==> r
    ensures !f.HeadersFrame? && !f.FullFrame? ==> (r <==> aggregating)
  {
    !IsAggregated(f) && (IsStartMessage(f) || (aggregating && IsContentMessage(f)))
  }

  /**
   * One frame. A frame that is not accepted is passed on as it is. A start inside an unfinished
   * message drops that message and fails; a start that declares too much is refused; a failed
   * start is completed at once; any other start begins a message. A content frame outside a
   * message is dropped; one that would take the aggregate past the maximum drops the message;
   * otherwise it is appended, and a failed or last chunk completes the message.
   */
  function Step(maxContentLength: int, s: AggState, f: Frame): (r: (AggState, seq<Event>))
    requires Inv(s)
    ensures Inv(r.0)
    ensures |r.1| <= 1
    ensures IsAggregated(f) ==> r == (s, [Read(f)])
    ensures !s.aggregating && !IsStartMessage(f) ==> r == (s, [Read(f)])
    ensures IsStartMessage(f) && !IsAggregated(f) ==> r.0.current.None? || r.0.current == Some(BeginAggregation(f))
  {
    if !Accepts(s.aggregating, f) then (s, [Read(f)])
    else if IsStartMessage(f) then StartStep(maxContentLength, s, f)
    else ContentStep(maxContentLength, s, f)
  }

  /** The start branch of `decode`. */
  function StartStep(maxContentLength: int, s: AggState, h: Frame): (r: (AggState, seq<Event>))
    requires IsStartMessage(h) && !IsAggregated(h)
    ensures Inv(r.0)
    ensures |r.1| == 1 <==> r.0.current.None?
    ensures r.0.current.Some? ==> s.current.None? && r.0.current.value == BeginAggregation(h)
  {
    if s.current.Some? then (AggState(true, None), [AggregationFailure])
    else if IsContentLengthInvalid(h, maxContentLength) then (AggState(true, None), [TooLongFrame(maxContentLength)])
    else if DecoderResultOf(h).IsFailure() then (AggState(false, None), [Read(BeginAggregation(h))])
    else (AggState(true, Some(BeginAggregation(h))), [])
  }

  /** The content branch of `decode`. */
  function ContentStep(maxContentLength: int, s: AggState, c: Frame): (r: (AggState, seq<Event>))
    requires Inv(s) && s.aggregating && IsContentMessage(c) && !IsAggregated(c)
    ensures Inv(r.0) && |r.1| <= 1
    ensures s.current.None? ==> r == (s, [])
    ensures r.0.current.Some? ==> s.current.Some? && r.0.current.value == Aggregate(s.current.value, c)
  {
    match s.current
    case None => (s, [])
    case Some(full) =>
      if LengthForAggregation(full) > maxContentLength - LengthForContent(c) then
        (AggState(true, None), [TooLongFrame(maxContentLength)])
      else
        var aggregated := Aggregate(full, c);
        if DecoderResultOf(c).IsFailure() then
          (AggState(false, None), [Read(SetDecoderResult(aggregated, Some(DecoderResultOf(c))).value)])
        else if IsLastContentMessage(c) then (AggState(false, None), [Read(aggregated)])
        else (AggState(true, Some(aggregated)), [])
  }

  /** A stream of frames, one after the other: the final state and everything handed downstream. */
  function Fold(maxContentLength: int, s: AggState, fs: seq<Frame>): (r: (AggState, seq<Event>))
    requires Inv(s)
    ensures Inv(r.0)
    ensures |r.1| <= |fs|
    decreases |fs|
  {
    if fs == [] then (s, [])
    else
      var r1 := Step(maxContentLength, s, fs[0]);
      var r2 := Fold(maxContentLength, r1.0, fs[1..]);
      (r2.0, r1.1 + r2.1)
  }

  /** Folding `a + b` is folding `a`, then `b` from where `a` left off. */
  lemma {:induction false} FoldAppend(maxContentLength: int, s: AggState, a: seq<Frame>, b: seq<Frame>)
    requires Inv(s)
    ensures var ra := Fold(maxContentLength, s, a);
      var rb := Fold(maxContentLength, ra.0, b);
      Fold(maxContentLength, s, a + b) == (rb.0, ra.1 + rb.1)
    decreases |a|
  {
    if a == [] {
      assert a + b == b;
      assert [] + Fold(maxContentLength, s, b).1 == Fold(maxContentLength, s, b).1;
    } else {
      assert (a + b)[0] == a[0];
      assert (a + b)[1..] == a[1..] + b;
      var r1 := Step(maxContentLength, s, a[0]);
      FoldAppend(maxContentLength, r1.0, a[1..], b);
      var ra := Fold(maxContentLength, r1.0, a[1..]);
      var rb := Fold(maxContentLength, ra.0, b);
      AppendAssoc(r1.1, ra.1, rb.1);
    }
  }

  /** The aggregator as netty drives it: `maxContentLength` and the message in progress. */
  class Aggregator {
    const maxContentLength: int
    var aggregating: bool
    var currentMessage: Option<Frame>

    predicate Valid()
      reads this
    {
      0 <= maxContentLength <= INT_MAX && Inv(State())
    }

    function State(): AggState
      reads this
    {
      AggState(aggregating, currentMessage)
    }

    /** `new StompFrameAggregator(maxContentLength)`. */
    constructor (maxContentLength: int)
      requires 0 <= maxContentLength <= INT_MAX
      ensures Valid() && State() == Idle() && this.maxContentLength == maxContentLength
    {
      this.maxContentLength := maxContentLength;
      aggregating := false;
      currentMessage := None;
    }

    /** `channelRead(msg)`: acceptInboundMessage, then decode, or pass the frame on. */
    method ChannelRead(f: Frame) returns (events: seq<Event>)
      requires Valid()
      modifies this
      ensures Valid()
      ensures (State(), events) == Step(maxContentLength, old(State()), f)
    {
      if !Accepts(aggregating, f) {
        return [Read(f)];
      }
      if IsStartMessage(f) {
        aggregating := true;
        if currentMessage.Some? {
          currentMessage := None;
          return [AggregationFailure];
        }
        if IsContentLengthInvalid(f, maxContentLength) {
          return [TooLongFrame(maxContentLength)];
        }
        var fullFrame := BeginAggregation(f);
        if DecoderResultOf(f).IsFailure() {
          aggregating := false;
          return [Read(fullFrame)];
        }
        currentMessage := Some(fullFrame);
        return [];
      }
      if currentMessage.None? {
        return [];
      }
      var current := currentMessage.value;
      if LengthForAggregation(current) > maxContentLength - LengthForContent(f) {
        currentMessage := None;
        return [TooLongFrame(maxContentLength)];
      }
      current := Aggregate(current, f);
      var last: bool;
      if DecoderResultOf(f).IsFailure() {
        current := SetDecoderResult(current, Some(DecoderResultOf(f))).value;
        last := true;
      } else {
        last := IsLastContentMessage(f);
      }
      if last {
        aggregating := false;
        currentMessage := None;
        return [Read(current)];
      }
      currentMessage := Some(current);
      events := [];
    }

    /** Every frame of a stream in turn, collecting what is handed downstream. */
    method ChannelReadAll(fs: seq<Frame>) returns (events: seq<Event>)
      requires Valid()
      modifies this
      ensures Valid()
      ensures (State(), events) == Fold(maxContentLength, old(State()), fs)
    {
      events := [];
      var i := 0;
      while i < |fs|
        invariant 0 <= i <= |fs| && Valid()
        invariant (State(), events) == Fold(maxContentLength, old(State()), fs[..i])
      {
        ghost var before := State();
        var e := ChannelRead(fs[i]);
        FoldAppend(maxContentLength, old(State()), fs[..i], [fs[i]]);
        FoldCons(maxContentLength, before, [fs[i]]);
        assert [fs[i]][1..] == [] && e + [] == e;
        assert fs[..i + 1] == fs[..i] + [fs[i]];
        events := events + e;
        i := i + 1;
      }
      assert fs[..i] == fs;
    }
  }

  // ---- what a whole message turns into ----

  /**
   * The content frames of one message as the decoder emits them: successful plain content frames,
   * then one last-content frame (successful, failed, or the empty one).
   */
  predicate MessageContent(fs: seq<Frame>)
  {
    && |fs| >= 1
    && (forall i :: 0 <= i < |fs| - 1 ==> fs[i].ContentFrame? && fs[i].result == Success)
    && (fs[|fs| - 1].LastContentFrame? || fs[|fs| - 1].EmptyLastFrame?)
  }

  /** The payload bytes of a run of content frames, in order. */
  function Payloads(fs: seq<Frame>): seq<byte>
    requires forall i :: 0 <= i < |fs| ==> IsContentMessage(fs[i])
  {
    if fs == [] then [] else assert IsContentMessage(fs[0]); fs[0].payload.bytes + Payloads(fs[1..])
  }

  /** The full frame a message becomes: its command and headers, its result, all its bytes. */
  function Completed(full: Frame, fs: seq<Frame>): (r: Frame)
    requires full.FullFrame? && MessageContent(fs)
    ensures r.FullFrame? && r.command == full.command && r.headers == full.headers
    ensures r.payload.bytes == full.payload.bytes + Payloads(fs)
  {
    var last := fs[|fs| - 1];
    FullFrame(if DecoderResultOf(last).IsFailure() then DecoderResultOf(last) else full.result,
      full.command, full.headers, full.payload.(bytes := full.payload.bytes + Payloads(fs)))
  }

  /** Folding a stream is one step on its first frame, then folding the rest. */
  lemma FoldCons(maxContentLength: int, s: AggState, fs: seq<Frame>)
    requires Inv(s) && fs != []
    ensures var r1 := Step(maxContentLength, s, fs[0]);
      var r2 := Fold(maxContentLength, r1.0, fs[1..]);
      Fold(maxContentLength, s, fs) == (r2.0, r1.1 + r2.1)
  {
  }

  /** A step that hands nothing downstream leaves the rest of the fold to the next state. */
  lemma FoldQuietStep(maxContentLength: int, s: AggState, fs: seq<Frame>)
    requires Inv(s) && fs != [] && Step(maxContentLength, s, fs[0]).1 == []
    ensures Fold(maxContentLength, s, fs) == Fold(maxContentLength, Step(maxContentLength, s, fs[0]).0, fs[1..])
  {
    FoldCons(maxContentLength, s, fs);
    var r2 := Fold(maxContentLength, Step(maxContentLength, s, fs[0]).0, fs[1..]);
    assert [] + r2.1 == r2.1;
  }

  /** The rest of a message's content after its first, non-last frame is again a message's content. */
  lemma MessageContentTail(fs: seq<Frame>)
    requires MessageContent(fs) && |fs| > 1
    ensures MessageContent(fs[1..])
    ensures Payloads(fs) == fs[0].payload.bytes + Payloads(fs[1..])
  {
    var rest := fs[1..];
    assert forall i :: 0 <= i < |rest| - 1 ==> rest[i] == fs[i + 1];
  }

  /**
   * Inside a message, content that fits under the maximum completes the frame being built: its
   * bytes are all the chunks' bytes in order, and a failed last chunk's result is carried over.
   */
  lemma {:induction false} AggregateContent(maxContentLength: int, full: Frame, fs: seq<Frame>)
    requires full.FullFrame? && MessageContent(fs)
    requires |full.payload.bytes| + |Payloads(fs)| <= maxContentLength
    ensures Fold(maxContentLength, AggState(true, Some(full)), fs) == (Idle(), [Read(Completed(full, fs))])
    decreases |fs|
  {
    var s := AggState(true, Some(full));
    var c := fs[0];
    var aggregated := Aggregate(full, c);
    FoldCons(maxContentLength, s, fs);
    if |fs| == 1 {
      assert fs[1..] == [];
      assert Payloads(fs) == c.payload.bytes by {
        assert Payloads(fs) == c.payload.bytes + Payloads([]);
      }
      var r1 := Step(maxContentLength, s, c);
      assert r1 == (Idle(), [Read(Completed(full, fs))]);
      assert Fold(maxContentLength, Idle(), fs[1..]) == (Idle(), []);
      assert r1.1 + [] == r1.1;
    } else {
      var rest := fs[1..];
      MessageContentTail(fs);
      assert Step(maxContentLength, s, c) == (AggState(true, Some(aggregated)), []);
      FoldQuietStep(maxContentLength, s, fs);
      AggregateContent(maxContentLength, aggregated, rest);
      assert rest[|rest| - 1] == fs[|fs| - 1];
      AppendAssoc(full.payload.bytes, c.payload.bytes, Payloads(rest));
      assert Completed(aggregated, rest) == Completed(full, fs);
    }
  }

  /** Content after a refused or dropped message is swallowed until the next start. */
  lemma {:induction false} DiscardContent(maxContentLength: int, fs: seq<Frame>)
    requires forall i :: 0 <= i < |fs| ==> IsContentMessage(fs[i]) && !IsAggregated(fs[i])
    ensures Fold(maxContentLength, AggState(true, None), fs) == (AggState(true, None), [])
    decreases |fs|
  {
    if fs != [] {
      FoldCons(maxContentLength, AggState(true, None), fs);
      DiscardContent(maxContentLength, fs[1..]);
    }
  }

  /**
   * Inside a message, content whose total would pass the maximum ends in a single
   * TooLongFrameException; nothing is passed on, and the rest of the message is swallowed.
   */
  lemma {:induction false} ContentTooLong(maxContentLength: int, full: Frame, fs: seq<Frame>)
    requires full.FullFrame? && MessageContent(fs)
    requires |full.payload.bytes| + |Payloads(fs)| > maxContentLength
    ensures Fold(maxContentLength, AggState(true, Some(full)), fs) == (AggState(true, None), [TooLongFrame(maxContentLength)])
    decreases |fs|
  {
    var s := AggState(true, Some(full));
    var c := fs[0];
    var rest := fs[1..];
    FoldCons(maxContentLength, s, fs);
    if |fs| == 1 {
      assert Payloads(fs) == c.payload.bytes + Payloads([]);
    } else {
      MessageContentTail(fs);
    }
    if |full.payload.bytes| > maxContentLength - |c.payload.bytes| {
      assert Step(maxContentLength, s, c) == (AggState(true, None), [TooLongFrame(maxContentLength)]);
      assert forall i :: 0 <= i < |rest| ==> rest[i] == fs[i + 1];
      DiscardContent(maxContentLength, rest);
      assert [TooLongFrame(maxContentLength)] + [] == [TooLongFrame(maxContentLength)];
    } else {
      var aggregated := Aggregate(full, c);
      assert Step(maxContentLength, s, c) == (AggState(true, Some(aggregated)), []);
      FoldQuietStep(maxContentLength, s, fs);
      ContentTooLong(maxContentLength, aggregated, rest);
    }
  }

  /** A headers frame the aggregator begins a message with: successful, not a full frame, not refused. */
  predicate Begins(maxContentLength: int, h: Frame)
  {
    h.HeadersFrame? && h.result == Success && !IsContentLengthInvalid(h, maxContentLength)
  }

  /**
   * A message whose body fits comes out as one full frame with the same command and headers,
   * the bytes of all its chunks in order, and the result of its last chunk; the aggregator is
   * left idle.
   */
  lemma AggregateMessage(maxContentLength: int, s: AggState, h: Frame, fs: seq<Frame>)
    requires Inv(s) && s.current.None?
    requires Begins(maxContentLength, h) && MessageContent(fs)
    requires |Payloads(fs)| <= maxContentLength
    ensures Fold(maxContentLength, s, [h] + fs) ==
      (Idle(), [Read(FullFrame(DecoderResultOf(fs[|fs| - 1]), h.command, h.headers, Fresh(Payloads(fs))))])
  {
    var full := BeginAggregation(h);
    FoldCons(maxContentLength, s, [h] + fs);
    assert ([h] + fs)[0] == h && ([h] + fs)[1..] == fs;
    assert Step(maxContentLength, s, h) == (AggState(true, Some(full)), []);
    FoldQuietStep(maxContentLength, s, [h] + fs);
    AggregateContent(maxContentLength, full, fs);
    assert [] + Payloads(fs) == Payloads(fs);
  }

  /** A message whose body does not fit raises one TooLongFrameException and yields no frame. */
  lemma AggregateTooLong(maxContentLength: int, s: AggState, h: Frame, fs: seq<Frame>)
    requires Inv(s) && s.current.None?
    requires Begins(maxContentLength, h) && MessageContent(fs)
    requires |Payloads(fs)| > maxContentLength
    ensures Fold(maxContentLength, s, [h] + fs) == (AggState(true, None), [TooLongFrame(maxContentLength)])
  {
    var full := BeginAggregation(h);
    FoldCons(maxContentLength, s, [h] + fs);
    assert ([h] + fs)[0] == h && ([h] + fs)[1..] == fs;
    assert Step(maxContentLength, s, h) == (AggState(true, Some(full)), []);
    FoldQuietStep(maxContentLength, s, [h] + fs);
    ContentTooLong(maxContentLength, full, fs);
  }

  /** A declared content-length above the maximum is refused before any chunk is looked at. */
  lemma DeclaredTooLong(maxContentLength: int, s: AggState, h: Frame, fs: seq<Frame>)
    requires Inv(s) && s.current.None?
    requires h.HeadersFrame? && IsContentLengthInvalid(h, maxContentLength)
    requires forall i :: 0 <= i < |fs| ==> IsContentMessage(fs[i]) && !IsAggregated(fs[i])
    ensures Fold(maxContentLength, s, [h] + fs) == (AggState(true, None), [TooLongFrame(maxContentLength)])
  {
    FoldCons(maxContentLength, s, [h] + fs);
    assert ([h] + fs)[0] == h && ([h] + fs)[1..] == fs;
    assert Step(maxContentLength, s, h) == (AggState(true, None), [TooLongFrame(maxContentLength)]);
    DiscardContent(maxContentLength, fs);
    assert [TooLongFrame(maxContentLength)] + [] == [TooLongFrame(maxContentLength)];
  }

  /** A failed headers frame becomes a failed full frame with an empty body at once. */
  lemma FailedStart(maxContentLength: int, s: AggState, h: Frame)
    requires s.current.None?
    requires h.HeadersFrame? && h.result.IsFailure() && !IsContentLengthInvalid(h, maxContentLength)
    ensures Step(maxContentLength, s, h) == (Idle(), [Read(FullFrame(h.result, h.command, h.headers, Fresh([])))])
  {
  }

  /** However a body is cut into chunks, the aggregated payload is the whole body. */
  lemma ChunkingIndependent(maxContentLength: int, h: Frame, cs1: seq<seq<byte>>, cs2: seq<seq<byte>>)
    requires Begins(maxContentLength, h) && |cs1| >= 1 && |cs2| >= 1
    requires Concat(cs1) == Concat(cs2) && |Concat(cs1)| <= maxContentLength
    ensures Fold(maxContentLength, Idle(), [h] + ChunkFrames(cs1)) == Fold(maxContentLength, Idle(), [h] + ChunkFrames(cs2))
    ensures Fold(maxContentLength, Idle(), [h] + ChunkFrames(cs1)) ==
      (Idle(), [Read(FullFrame(Success, h.command, h.headers, Fresh(Concat(cs1))))])
  {
    ChunkFramesMessage(cs1);
    ChunkFramesMessage(cs2);
    AggregateMessage(maxContentLength, Idle(), h, ChunkFrames(cs1));
    AggregateMessage(maxContentLength, Idle(), h, ChunkFrames(cs2));
  }

  /** The decoder's chunk frames form one message's content, and their payloads are the chunks joined. */
  lemma {:induction false} ChunkFramesMessage(cs: seq<seq<byte>>)
    requires |cs| >= 1
    ensures MessageContent(ChunkFrames(cs))
    ensures Payloads(ChunkFrames(cs)) == Concat(cs)
    decreases |cs|
  {
    ChunkFramesContent(cs);
    var fs := ChunkFrames(cs);
    if |cs| > 1 {
      ChunkFramesMessage(cs[1..]);
      assert fs[1..] == ChunkFrames(cs[1..]);
      MessageContentTail(fs);
    } else {
      assert Payloads(fs) == cs[0] + Payloads([]);
    }
  }

  /** A body the decoder cut at `size` aggregates back to the body. */
  lemma ChunksAggregate(maxContentLength: int, h: Frame, body: seq<byte>, size: nat)
    requires Begins(maxContentLength, h) && size > 0 && |body| <= maxContentLength
    ensures Fold(maxContentLength, Idle(), [h] + ChunkFrames(Chunks(body, size))) ==
      (Idle(), [Read(FullFrame(Success, h.command, h.headers, Fresh(body)))])
  {
    ChunkingIndependent(maxContentLength, h, Chunks(body, size), [body]);
  }

  /** One message as the decoder emits it: a headers frame and its content frames. */
  datatype Message = Message(start: Frame, content: seq<Frame>)

  /** A message that aggregates: it begins a message, its content is well formed and fits. */
  predicate Fits(maxContentLength: int, m: Message)
  {
    Begins(maxContentLength, m.start) && MessageContent(m.content) && |Payloads(m.content)| <= maxContentLength
  }

  /** The frames of several messages, one after the other. */
  function MessagesFrames(ms: seq<Message>): seq<Frame>
  {
    if ms == [] then [] else [ms[0].start] + ms[0].content + MessagesFrames(ms[1..])
  }

  /** The full frame a fitting message becomes. */
  function Aggregated(maxContentLength: int, m: Message): Frame
    requires Fits(maxContentLength, m)
  {
    FullFrame(DecoderResultOf(m.content[|m.content| - 1]), m.start.command, m.start.headers, Fresh(Payloads(m.content)))
  }

  /** Several fitting messages in a row come out as their full frames, one each, in order. */
  lemma {:induction false} AggregateMessages(maxContentLength: int, ms: seq<Message>)
    requires forall i :: 0 <= i < |ms| ==> Fits(maxContentLength, ms[i])
    ensures var r := Fold(maxContentLength, Idle(), MessagesFrames(ms));
      r.0 == Idle() && |r.1| == |ms| &&
      forall i :: 0 <= i < |ms| ==> r.1[i] == Read(Aggregated(maxContentLength, ms[i]))
    decreases |ms|
  {
    if ms != [] {
      var m, rest := ms[0], ms[1..];
      assert Fits(maxContentLength, m);
      var first := [m.start] + m.content;
      AggregateMessage(maxContentLength, Idle(), m.start, m.content);
      var ra := Fold(maxContentLength, Idle(), first);
      assert ra == (Idle(), [Read(Aggregated(maxContentLength, m))]);
      assert MessagesFrames(ms) == first + MessagesFrames(rest);
      FoldAppend(maxContentLength, Idle(), first, MessagesFrames(rest));
      assert forall i :: 0 <= i < |rest| ==> rest[i] == ms[i + 1];
      AggregateMessages(maxContentLength, rest);
      var rb := Fold(maxContentLength, Idle(), MessagesFrames(rest));
      var r := Fold(maxContentLength, Idle(), MessagesFrames(ms));
      assert r == (rb.0, ra.1 + rb.1);
      forall i | 0 <= i < |ms|
        ensures r.1[i] == Read(Aggregated(maxContentLength, ms[i]))
      {
        if i > 0 {
          assert r.1[i] == rb.1[i - 1];
        }
      }
    }
  }
}
