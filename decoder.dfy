/**
 * The StompFrameDecoder object: its fields, its two line parsers, and `decode` as a method that
 * updates the fields and advances the reader offset, proved equal to `DecoderSpec.DecodeStep`.
 */
module StompDecoder {
  import opened StompTypes
  import opened StompHeadersModel
  import opened Frames
  import opened LineParser
  import opened DecoderSpec

  /** What `readHeaders` hands back to `decode`: the next state, null (need more), or its exception. */
  datatype HeadersOutcome =
    | NextState(state: State, frame: PendingHeaders, next: nat)
    | NoState(frame: PendingHeaders, next: nat)
    | Threw(cause: Cause, frame: PendingHeaders, next: nat)

  class StompFrameDecoder {
    const maxLineLength: int
    const maxChunkSize: int
    const validateHeaders: bool
    const commandParser: Utf8LineParser
    const headerParser: Utf8LineParser

    var state: State
    var startHeadersFrame: Option<PendingHeaders>
    var alreadyReadChunkSize: int
    var lastContentFrame: Option<PendingLast>
    var contentLength: int

    /** `skipControlCharacters(buffer)`: reads CR and LF bytes, stepping back over the first other byte. */
    static method SkipControlCharacters(bytes: seq<byte>, off: nat) returns (found: bool, next: nat)
      requires off <= |bytes|
      ensures (found, next) == SkipControl(bytes, off)
    {
      next := off;
      while next < |bytes|
        invariant off <= next <= |bytes|
        invariant SkipControl(bytes, next) == SkipControl(bytes, off)
        decreases |bytes| - next
      {
        var b := bytes[next];
        next := next + 1;
        if b != CR && b != LF {
          next := next - 1;
          return true, next;
        }
      }
      return false, next;
    }

    /** `skipNullCharacter(buffer)`: false with nothing readable; otherwise reads one byte, which must be NUL. */
    static method SkipNullCharacter(bytes: seq<byte>, off: nat) returns (r: Result<bool, Cause>, next: nat)
      requires off <= |bytes|
      ensures off == |bytes| ==> r == Ok(false) && next == off
      ensures off < |bytes| && bytes[off] == NUL ==> r == Ok(true) && next == off + 1
      ensures off < |bytes| && bytes[off] != NUL ==> r == Err(UnexpectedByte(bytes[off])) && next == off + 1
    {
      if |bytes| - off < 1 {
        return Ok(false), off;
      }
      var b := bytes[off];
      next := off + 1;
      if b != NUL {
        return Err(UnexpectedByte(b)), next;
      }
      return Ok(true), next;
    }

    /** The parsers are the ones the constructor builds: a command parser and a header parser with this limit. */
    predicate Valid()
    {
      !commandParser.headerMode && commandParser.maxLineLength == maxLineLength &&
      headerParser.headerMode && headerParser.maxLineLength == maxLineLength &&
      headerParser.validateHeaders == validateHeaders
    }

    function Cfg(): Config
    {
      Config(maxLineLength, maxChunkSize, validateHeaders)
    }

    function Fields(): Decoder
      reads this
    {
      Decoder(state, startHeadersFrame, alreadyReadChunkSize, lastContentFrame, contentLength)
    }

    /** `new StompFrameDecoder(maxLineLength, maxChunkSize, validateHeaders)`; `NewConfig` says when it throws. */
    constructor (maxLineLength: int, maxChunkSize: int, validateHeaders: bool)
      requires NewConfig(maxLineLength, maxChunkSize, validateHeaders).Some?
      ensures Valid() && Some(Cfg()) == NewConfig(maxLineLength, maxChunkSize, validateHeaders)
      ensures Fields() == Initial()
    {
      this.maxLineLength := maxLineLength;
      this.maxChunkSize := maxChunkSize;
      this.validateHeaders := validateHeaders;
      commandParser := new Utf8LineParser(maxLineLength, false, false);
      headerParser := new Utf8LineParser(maxLineLength, true, validateHeaders);
      state := State.SkipControlCharacters;
      startHeadersFrame := None;
      alreadyReadChunkSize := 0;
      lastContentFrame := None;
      contentLength := -1;
    }

    /** `resetDecoder()`. */
    method ResetDecoder()
      modifies this
      ensures Fields() == Initial()
    {
      state := State.SkipControlCharacters;
      startHeadersFrame := None;
      contentLength := -1;
      alreadyReadChunkSize := 0;
      lastContentFrame := None;
    }

    /** `readCommand(buffer)`: Ok(None) for null, Ok(Some(command)), or the exception. */
    method ReadCommand(bytes: seq<byte>, off: nat) returns (r: Result<Option<Command>, Cause>, next: nat)
      requires Valid() && off <= |bytes|
      modifies commandParser
      ensures match ParseLine(maxLineLength, CommandLine, bytes, off)
        case NeedMore => r == Ok(None) && next == off
        case LineFailed(c) => r == Err(c) && next == off
        case Line(st, n) => next == n && r == (match CommandOf(st.chars) case Err(c) => Err(c) case Ok(cmd) => Ok(Some(cmd)))
    {
      var line := commandParser.Parse(bytes, off);
      match line {
        case NeedMore => return Ok(None), off;
        case LineFailed(c) => return Err(c), off;
        case Line(st, n) =>
          next := n;
          var command := ValueOf(commandParser.chars);
          if command.None? {
            return Err(InvalidCommand(commandParser.chars)), next;
          }
          if command.value == UNKNOWN {
            return Err(UnknownCommand), next;
          }
          return Ok(Some(command.value)), next;
      }
    }

    /**
     * `readHeaders(buffer, headersFrame)`: the header parser fills the frame's headers; on the blank
     * line the content-length, if present, is stored and picks the next state.
     */
    method ReadHeaders(frame: PendingHeaders, bytes: seq<byte>, off: nat) returns (r: HeadersOutcome)
      requires Valid() && off <= |bytes|
      modifies this, headerParser
      ensures state == old(state) && startHeadersFrame == old(startHeadersFrame)
      ensures alreadyReadChunkSize == old(alreadyReadChunkSize) && lastContentFrame == old(lastContentFrame)
      ensures match ParseHeaderLines(maxLineLength, validateHeaders, ShouldUnescape(frame.command), frame.headers, bytes, off)
        case HeadersIncomplete(h, n) =>
          r == NoState(HeadersFrame(frame.result, frame.command, h), n) && contentLength == old(contentLength)
        case HeadersFailed(c, h, n) =>
          r == Threw(c, HeadersFrame(frame.result, frame.command, h), n) && contentLength == old(contentLength)
        case HeadersDone(h, n) =>
          var f := HeadersFrame(frame.result, frame.command, h);
          if !Contains(h, ContentLength()) then r == NextState(State.ReadContent, f, n) && contentLength == old(contentLength)
          else match ContentLengthOf(h)
            case Err(c) => r == Threw(c, f, n) && contentLength == old(contentLength)
            case Ok(cl) => r == NextState(if cl == 0 then State.FinalizeFrameRead else State.ReadContent, f, n) && contentLength == cl
    {
      var parsed := headerParser.ParseHeaders(frame.command, frame.headers, bytes, off);
      match parsed {
        case HeadersIncomplete(h, n) =>
          return NoState(HeadersFrame(frame.result, frame.command, h), n);
        case HeadersFailed(c, h, n) =>
          return Threw(c, HeadersFrame(frame.result, frame.command, h), n);
        case HeadersDone(h, n) =>
          var f := HeadersFrame(frame.result, frame.command, h);
          if Contains(h, ContentLength()) {
            var cl := GetLong(h, ContentLength(), 0);
            if cl < 0 {
              return Threw(NegativeContentLength, f, n);
            }
            contentLength := cl;
            if cl == 0 {
              return NextState(State.FinalizeFrameRead, f, n);
            }
          }
          return NextState(State.ReadContent, f, n);
      }
    }

    /** The first catch block. */
    method FailHeaders(frame: PendingHeaders, cause: Cause, off: nat) returns (next: nat, out: seq<Frame>)
      modifies this
      ensures StepResult(Fields(), next, out) == HeadersFailure(old(Fields()), frame, cause, off)
    {
      var failed := HeadersFrame(Failure(cause), frame.command, frame.headers);
      startHeadersFrame := None;
      state := State.BadFrame;
      return off, [failed];
    }

    /** The second catch block. */
    method FailContent(cause: Cause, off: nat, out0: seq<Frame>) returns (next: nat, out: seq<Frame>)
      modifies this
      ensures StepResult(Fields(), next, out) == ContentFailure(old(Fields()), cause, off, out0)
    {
      if lastContentFrame.Some? {
        lastContentFrame := None;
      }
      var errorContent := LastContentFrame(Failure(cause), Fresh([]));
      state := State.BadFrame;
      return off, out0 + [errorContent];
    }

    /** FINALIZE_FRAME_READ. */
    method FinalizeFrame(bytes: seq<byte>, off: nat, alloc: Allocator, out0: seq<Frame>) returns (next: nat, out: seq<Frame>)
      requires off <= |bytes|
      modifies this
      ensures StepResult(Fields(), next, out) == Finalize(old(Fields()), bytes, off, alloc, out0)
    {
      var skipped, pos := SkipNullCharacter(bytes, off);
      match skipped {
        case Err(c) =>
          next, out := FailContent(c, pos, out0);
        case Ok(ok) =>
          if !ok {
            return off, out0;
          }
          var last := if lastContentFrame.Some? then lastContentFrame.value else EmptyLast(alloc);
          out := out0 + [last];
          ResetDecoder();
          next := pos;
      }
    }

    /** READ_CONTENT, falling through to FINALIZE_FRAME_READ. */
    method ReadContentState(bytes: seq<byte>, off: nat, alloc: Allocator, out0: seq<Frame>) returns (next: nat, out: seq<Frame>)
      requires off <= |bytes|
      modifies this
      ensures StepResult(Fields(), next, out) == ReadBody(Cfg(), old(Fields()), bytes, off, alloc, out0)
    {
      if off == |bytes| {
        return off, out0;
      }
      if contentLength >= 0 {
        next, out := ReadLengthContent(bytes, off, alloc, out0);
      } else {
        next, out := ReadNulContent(bytes, off, alloc, out0);
      }
    }

    /** READ_CONTENT with a content-length: a chunk of at most `maxChunkSize` bytes and no more than remain. */
    method ReadLengthContent(bytes: seq<byte>, off: nat, alloc: Allocator, out0: seq<Frame>) returns (next: nat, out: seq<Frame>)
      requires off < |bytes| && contentLength >= 0
      modifies this
      ensures StepResult(Fields(), next, out) == ReadLengthBody(Cfg(), old(Fields()), bytes, off, alloc, out0)
    {
      var toRead := |bytes| - off;
      if toRead > maxChunkSize {
        toRead := maxChunkSize;
      }
      var remainingLength := ToInt32(contentLength - alreadyReadChunkSize);
      if toRead > remainingLength {
        toRead := remainingLength;
      }
      if toRead < 0 {
        next, out := FailContent(SplitOutOfBounds, off, out0);
        return;
      }
      var chunk := bytes[off..off + toRead];
      alreadyReadChunkSize := ToInt32(alreadyReadChunkSize + toRead);
      if alreadyReadChunkSize >= contentLength {
        lastContentFrame := Some(LastContentFrame(Success, Fresh(chunk)));
        state := State.FinalizeFrameRead;
        next, out := FinalizeFrame(bytes, off + toRead, alloc, out0);
      } else {
        return off + toRead, out0 + [ContentFrame(Success, Fresh(chunk))];
      }
    }

    /** READ_CONTENT without a content-length: up to the next NUL, or every readable byte when there is none. */
    method ReadNulContent(bytes: seq<byte>, off: nat, alloc: Allocator, out0: seq<Frame>) returns (next: nat, out: seq<Frame>)
      requires off < |bytes|
      modifies this
      ensures StepResult(Fields(), next, out) == ReadNulBody(old(Fields()), bytes, off, alloc, out0)
    {
      var pos := off;
      var beforeNull := BytesBeforeNul(bytes, off);
      if beforeNull != 0 {
        var toRead := if beforeNull > 0 then beforeNull else |bytes| - off;
        var chunk := bytes[off..off + toRead];
        pos := off + toRead;
        alreadyReadChunkSize := ToInt32(alreadyReadChunkSize + toRead);
        if beforeNull < 0 {
          return pos, out0 + [ContentFrame(Success, Fresh(chunk))];
        }
        lastContentFrame := Some(LastContentFrame(Success, Fresh(chunk)));
      }
      state := State.FinalizeFrameRead;
      next, out := FinalizeFrame(bytes, pos, alloc, out0);
    }

    /** The second `switch` of `decode`. */
    method BodyStates(bytes: seq<byte>, off: nat, alloc: Allocator, out0: seq<Frame>) returns (next: nat, out: seq<Frame>)
      requires off <= |bytes|
      modifies this
      ensures StepResult(Fields(), next, out) == Body(Cfg(), old(Fields()), bytes, off, alloc, out0)
    {
      if state == State.ReadContent {
        next, out := ReadContentState(bytes, off, alloc, out0);
      } else if state == State.FinalizeFrameRead {
        next, out := FinalizeFrame(bytes, off, alloc, out0);
      } else {
        next, out := off, out0;
      }
    }

    /** READ_HEADERS, continuing into the second `switch` once the headers frame is fired. */
    method ReadHeadersState(bytes: seq<byte>, off: nat, alloc: Allocator) returns (next: nat, out: seq<Frame>)
      requires Valid() && off <= |bytes|
      modifies this, commandParser, headerParser
      ensures StepResult(Fields(), next, out) == ReadHeaderSection(Cfg(), old(Fields()), bytes, off, alloc)
    {
      var command := UNKNOWN;
      var frame: PendingHeaders;
      var pos := off;
      if startHeadersFrame.None? {
        var read, n := ReadCommand(bytes, off);
        match read {
          case Err(c) =>
            next, out := FailHeaders(HeadersFrame(Success, command, Empty()), c, n);
            return;
          case Ok(parsed) =>
            if parsed.None? {
              return off, [];
            }
            command := parsed.value;
            frame := HeadersFrame(Success, command, Empty());
            startHeadersFrame := Some(frame);
            pos := n;
        }
      } else {
        frame := startHeadersFrame.value;
      }
      var nextState := ReadHeaders(frame, bytes, pos);
      match nextState {
        case NoState(f, n) =>
          startHeadersFrame := Some(f);
          return n, [];
        case Threw(c, f, n) =>
          next, out := FailHeaders(f, c, n);
        case NextState(s, f, n) =>
          state := s;
          startHeadersFrame := None;
          next, out := BodyStates(bytes, n, alloc, [f]);
      }
    }

    /** `decode(ctx, in)`: one call, from reader offset `off`; `alloc` is the context's allocator. */
    method Decode(bytes: seq<byte>, off: nat, alloc: Allocator) returns (next: nat, out: seq<Frame>)
      requires Valid() && off <= |bytes|
      modifies this, commandParser, headerParser
      ensures StepResult(Fields(), next, out) == DecodeStep(Cfg(), old(Fields()), bytes, off, alloc)
    {
      if state == State.SkipControlCharacters {
        var found, pos := SkipControlCharacters(bytes, off);
        if !found {
          return pos, [];
        }
        state := State.ReadHeaders;
        next, out := ReadHeadersState(bytes, pos, alloc);
      } else if state == State.ReadHeaders {
        next, out := ReadHeadersState(bytes, off, alloc);
      } else if state == State.BadFrame {
        return |bytes|, [];
      } else {
        next, out := BodyStates(bytes, off, alloc, []);
      }
    }

    /** The pipeline's loop: `decode` again while bytes are readable and the last call consumed some. */
    method DecodeAll(bytes: seq<byte>, off: nat, alloc: Allocator) returns (next: nat, frames: seq<Frame>)
      requires Valid() && off <= |bytes|
      modifies this, commandParser, headerParser
      ensures StepResult(Fields(), next, frames) == Run(Cfg(), old(Fields()), bytes, off, alloc)
    {
      next := off;
      frames := [];
      while next < |bytes|
        invariant off <= next <= |bytes|
        invariant var t := Run(Cfg(), Fields(), bytes, next, alloc);
          var t0 := Run(Cfg(), old(Fields()), bytes, off, alloc);
          t.d == t0.d && t.off == t0.off && frames + t.out == t0.out
        decreases |bytes| - next
      {
        var pos, out := Decode(bytes, next, alloc);
        frames := frames + out;
        if pos == next {
          return;
        }
        next := pos;
      }
    }
  }
}
