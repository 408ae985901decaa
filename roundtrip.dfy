/**
 * The encoder and the decoder against each other: the bytes StompFrameEncoder writes for a frame
 * are read back by StompFrameDecoder as that frame's headers frame and its content, and
 * StompFrameAggregator puts the content back together into the frame that was written.
 */
module RoundTrip {
  import opened StompTypes
  import opened Utf8
  import opened StompHeadersModel
  import opened Frames
  import opened LineParser
  import opened LineParserProps
  import opened DecoderSpec
  import opened DecoderProps
  import opened StompEncoder
  import opened StompAggregator

  // ---- the header block ----

  /**
   * A header the header parser reads back as written: a non-empty name, no CR, LF, colon or
   * surrogate in name or value, no backslash when the command's headers are unescaped, and the
   * line within the limit.
   */
  predicate ReadableHeader(max: int, unescape: bool, e: Header)
  {
    && e.name != []
    && PlainText(HeaderLine(unescape), e.name) && PlainText(HeaderLine(unescape), e.value)
    && (unescape ==> NoBackslash(e.name) && NoBackslash(e.value))
    && |JavaUtf8(e.name)| + |JavaUtf8(e.value)| <= max
  }

  /** The blank line: a line with no name and no chars. */
  lemma EmptyLineRead(max: int, unescape: bool, bytes: seq<byte>, off: nat)
    requires off < |bytes| && bytes[off] == LF
    ensures ParseLine(max, HeaderLine(unescape), bytes, off) == Line(Reset(), off + 1)
  {
    assert bytes[off..off + 1] == LineEnd(false);
    ScanLineEnd(max, HeaderLine(unescape), Reset(), false, bytes, off);
    ParseLineFound(max, HeaderLine(unescape), bytes, off, Reset(), off);
  }

  /** One encoded header line is the wire form the header parser reads. */
  lemma HeaderLineIsWire(e: Header)
    ensures HeaderLineBytes(e) == HeaderLineWire(e.name, e.value, false)
  {
    AppendAssoc(JavaUtf8(e.name) + [COLON], JavaUtf8(e.value), [LF]);
  }

  /** A valid header line adds its entry and the parse goes on after it. */
  lemma ValidLineStep(max: int, validate: bool, unescape: bool, acc: StompHeaders, bytes: seq<byte>, off: nat,
                      name: Text, value: Text, next: nat)
    requires off <= |bytes| && name != []
    requires ParseLine(max, HeaderLine(unescape), bytes, off) ==
      Line(LineState(value, next - off - 2, 0, false, Some(name), true, false), next)
    ensures ParseHeaderLines(max, validate, unescape, acc, bytes, off) ==
      ParseHeaderLines(max, validate, unescape, Add(acc, name, value), bytes, next)
  {
  }

  /** The blank line ends the header block with the entries read so far. */
  lemma BlankLineStep(max: int, validate: bool, unescape: bool, acc: StompHeaders, bytes: seq<byte>, off: nat)
    requires off < |bytes| && bytes[off] == LF
    ensures ParseHeaderLines(max, validate, unescape, acc, bytes, off) == HeadersDone(acc, off + 1)
  {
    EmptyLineRead(max, unescape, bytes, off);
  }

  /** The wire bytes of header lines all of which the parser reads back, then the blank line. */
  predicate HeaderLinesAt(max: int, unescape: bool, es: seq<Header>, bytes: seq<byte>, off: nat)
  {
    && (forall i :: 0 <= i < |es| ==> ReadableHeader(max, unescape, es[i]))
    && off + |HeaderLinesBytes(es)| < |bytes|
    && bytes[off..off + |HeaderLinesBytes(es)|] == HeaderLinesBytes(es)
    && bytes[off + |HeaderLinesBytes(es)|] == LF
  }

  /**
   * The header lines the encoder writes, then the blank line, are parsed back into exactly those
   * entries, in order, after the ones already read.
   */
  lemma {:induction false} HeaderLinesRead(max: int, validate: bool, unescape: bool, acc: StompHeaders,
                                           es: seq<Header>, bytes: seq<byte>, off: nat)
    requires HeaderLinesAt(max, unescape, es, bytes, off)
    ensures ParseHeaderLines(max, validate, unescape, acc, bytes, off) ==
      HeadersDone(StompHeaders(acc.entries + es), off + |HeaderLinesBytes(es)| + 1)
    decreases |es|, 1
  {
    if es == [] {
      BlankLineStep(max, validate, unescape, acc, bytes, off);
      assert acc.entries + es == acc.entries;
    } else {
      HeaderLinesReadCons(max, validate, unescape, acc, es, bytes, off);
    }
  }

  /** `HeaderLinesRead` for a first line: it is read, then the rest. */
  lemma {:induction false} HeaderLinesReadCons(max: int, validate: bool, unescape: bool, acc: StompHeaders,
                                               es: seq<Header>, bytes: seq<byte>, off: nat)
    requires es != [] && HeaderLinesAt(max, unescape, es, bytes, off)
    ensures ParseHeaderLines(max, validate, unescape, acc, bytes, off) ==
      HeadersDone(StompHeaders(acc.entries + es), off + |HeaderLinesBytes(es)| + 1)
    decreases |es|, 0
  {
    var e := es[0];
    var next := off + |HeaderLineBytes(e)|;
    var acc1 := Add(acc, e.name, e.value);
    var r := ParseHeaderLines(max, validate, unescape, acc1, bytes, next);
    FirstHeaderLine(max, unescape, es, bytes, off, next);
    ValidLineStep(max, validate, unescape, acc, bytes, off, e.name, e.value, next);
    assert ParseHeaderLines(max, validate, unescape, acc, bytes, off) == r;
    HeaderLinesRead(max, validate, unescape, acc1, es[1..], bytes, next);
    assert r == HeadersDone(StompHeaders(acc1.entries + es[1..]), next + |HeaderLinesBytes(es[1..])| + 1);
    AddThenRest(acc, es);
  }

  /** Adding the first entry, then the rest, is adding them all. */
  lemma AddThenRest(acc: StompHeaders, es: seq<Header>)
    requires es != []
    ensures StompHeaders(Add(acc, es[0].name, es[0].value).entries + es[1..]) == StompHeaders(acc.entries + es)
  {
    AppendAssoc(acc.entries, [Header(es[0].name, es[0].value)], es[1..]);
    assert [Header(es[0].name, es[0].value)] + es[1..] == es;
  }

  /** The first of the header lines is read as its entry. */
  lemma FirstHeaderLine(max: int, unescape: bool, es: seq<Header>, bytes: seq<byte>, off: nat, next: nat)
    requires es != [] && HeaderLinesAt(max, unescape, es, bytes, off)
    requires next == off + |HeaderLineBytes(es[0])|
    ensures ParseLine(max, HeaderLine(unescape), bytes, off) ==
      Line(LineState(es[0].value, next - off - 2, 0, false, Some(es[0].name), true, false), next)
    ensures off + |HeaderLinesBytes(es)| == next + |HeaderLinesBytes(es[1..])|
    ensures HeaderLinesAt(max, unescape, es[1..], bytes, next)
  {
    HeaderLinesSplitAt(max, unescape, es, bytes, off, next);
    assert ReadableHeader(max, unescape, es[0]);
    HeaderLineRead(max, unescape, es[0].name, es[0].value, false, bytes, off);
  }

  /** The first header line in place, and the other lines right after it. */
  lemma HeaderLinesSplitAt(max: int, unescape: bool, es: seq<Header>, bytes: seq<byte>, off: nat, next: nat)
    requires es != [] && HeaderLinesAt(max, unescape, es, bytes, off)
    requires next == off + |HeaderLineBytes(es[0])|
    ensures next == off + |HeaderLineWire(es[0].name, es[0].value, false)|
    ensures bytes[off..next] == HeaderLineWire(es[0].name, es[0].value, false)
    ensures off + |HeaderLinesBytes(es)| == next + |HeaderLinesBytes(es[1..])|
    ensures HeaderLinesAt(max, unescape, es[1..], bytes, next)
  {
    var line := HeaderLineBytes(es[0]);
    var rest := HeaderLinesBytes(es[1..]);
    assert HeaderLinesBytes(es) == line + rest;
    SliceSplit(bytes, off, line, rest);
    HeaderLineIsWire(es[0]);
    assert forall i :: 0 <= i < |es| - 1 ==> es[1..][i] == es[i + 1];
  }

  // ---- the command line ----

  /** A command's name is upper-case ASCII, so its UTF-8 form is itself. */
  lemma NameBytes(c: Command)
    ensures JavaUtf8(Name(c)) == Name(c) && |Name(c)| > 0
    ensures PlainText(CommandLine, Name(c))
    ensures forall i :: 0 <= i < |Name(c)| ==> 'A' as int <= Name(c)[i] <= 'Z' as int
  {
    NameStringAscii(c);
    JavaUtf8AsciiText(Name(c));
  }

  /**
   * The command line the encoder writes: the decoder finds it at once (no CR or LF to skip) and
   * reads back the command, provided it is not UNKNOWN and fits the line limit.
   */
  lemma CommandLineReadBack(max: int, c: Command, bytes: seq<byte>, off: nat)
    requires c != UNKNOWN && |Name(c)| <= max
    requires off + |LineBytes(Name(c), false)| <= |bytes|
    requires bytes[off..off + |LineBytes(Name(c), false)|] == LineBytes(Name(c), false)
    ensures SkipControl(bytes, off) == (true, off)
    ensures var line := ParseLine(max, CommandLine, bytes, off);
      line.Line? && line.next == off + |LineBytes(Name(c), false)| && CommandOf(line.st.chars) == Ok(c)
  {
    NameBytes(c);
    assert bytes[off] == LineBytes(Name(c), false)[0] == Name(c)[0];
    CommandLineRead(max, Name(c), false, bytes, off);
    ValueOfName(c, Name(c));
  }

  // ---- whole frames ----

  /** A command and headers the decoder reads back as written. */
  predicate ReadableHeaders(cfg: Config, c: Command, h: StompHeaders)
  {
    && c != UNKNOWN && |Name(c)| <= cfg.maxLineLength
    && (forall i :: 0 <= i < |h.entries| ==> ReadableHeader(cfg.maxLineLength, ShouldUnescape(c), h.entries[i]))
  }

  /**
   * A body the decoder delimits as written: without a content-length it may hold no NUL; with
   * one, the declared length is the body's.
   */
  predicate DelimitedBody(h: StompHeaders, body: seq<byte>)
  {
    if Contains(h, ContentLength()) then GetLong(h, ContentLength(), 0) == |body| <= INT_MAX
    else forall k :: 0 <= k < |body| ==> body[k] != NUL
  }

  /** The decoder's fields once the blank line of `h` is read (READ_CONTENT, or FINALIZE for length 0). */
  function BodyState(h: StompHeaders): (d: Decoder)
    requires Contains(h, ContentLength()) ==> GetLong(h, ContentLength(), 0) >= 0
    ensures d.startHeadersFrame.None? && d.lastContentFrame.None? && d.alreadyReadChunkSize == 0
  {
    if Contains(h, ContentLength()) then
      var cl := GetLong(h, ContentLength(), 0);
      Initial().(contentLength := cl, state := if cl == 0 then FinalizeFrameRead else ReadContent)
    else Initial().(state := ReadContent)
  }

  /** The encoded frame in its three parts: the command line, the header block, the body and NUL. */
  lemma FrameParts(c: Command, h: StompHeaders, body: seq<byte>)
    ensures HeadersBytes(c, h) + body + [NUL] ==
      (JavaUtf8(Name(c)) + [LF]) + (HeaderLinesBytes(h.entries) + [LF]) + (body + [NUL])
  {
    AppendAssoc(JavaUtf8(Name(c)) + [LF], HeaderLinesBytes(h.entries), [LF]);
    AppendAssoc(HeadersBytes(c, h), body, [NUL]);
  }

  /** The blank line ends the header block: the headers frame is fired and the body state runs at once. */
  lemma HeaderBlockDone(cfg: Config, c: Command, h: StompHeaders, bytes: seq<byte>, off: nat, next: nat, alloc: Allocator)
    requires off <= |bytes| && next <= |bytes|
    requires Contains(h, ContentLength()) ==> GetLong(h, ContentLength(), 0) >= 0
    requires ParseHeaderLines(cfg.maxLineLength, cfg.validateHeaders, ShouldUnescape(c), Empty(), bytes, off) == HeadersDone(h, next)
    ensures HeaderBlock(cfg, Initial().(state := ReadHeaders), HeadersFrame(Success, c, Empty()), bytes, off, alloc) ==
      Body(cfg, BodyState(h), bytes, next, alloc, [HeadersFrame(Success, c, h)])
  {
  }

  /** The command line read, the header block follows in the same call. */
  lemma CommandThenBlock(cfg: Config, c: Command, bytes: seq<byte>, off: nat, next: nat, alloc: Allocator)
    requires off <= |bytes|
    requires SkipControl(bytes, off) == (true, off)
    requires var line := ParseLine(cfg.maxLineLength, CommandLine, bytes, off);
      line.Line? && line.next == next && CommandOf(line.st.chars) == Ok(c)
    ensures DecodeStep(cfg, Initial(), bytes, off, alloc) ==
      HeaderBlock(cfg, Initial().(state := ReadHeaders), HeadersFrame(Success, c, Empty()), bytes, next, alloc)
  {
  }

  /**
   * The first `decode` call on an encoded frame reads the command line and the whole header block
   * and fires the headers frame as written, then goes on with the body in the same call.
   */
  lemma DecodeHeaders(cfg: Config, c: Command, h: StompHeaders, bytes: seq<byte>, off: nat, end: nat, alloc: Allocator)
    requires ReadableHeaders(cfg, c, h)
    requires Contains(h, ContentLength()) ==> GetLong(h, ContentLength(), 0) >= 0
    requires end == off + |HeadersBytes(c, h)| < |bytes| && bytes[off..end] == HeadersBytes(c, h)
    ensures DecodeStep(cfg, Initial(), bytes, off, alloc) ==
      Body(cfg, BodyState(h), bytes, end, alloc, [HeadersFrame(Success, c, h)])
  {
    var mid := off + |LineBytes(Name(c), false)|;
    HeadersBytesSplit(cfg, c, h, bytes, off, mid, end);
    DecodeCommand(cfg, c, bytes, off, mid, alloc);
    DecodeHeaderLines(cfg, c, h, bytes, mid, end, alloc);
  }

  /** The encoded headers in place: the command line, then header lines the parser reads back. */
  lemma HeadersBytesSplit(cfg: Config, c: Command, h: StompHeaders, bytes: seq<byte>, off: nat, mid: nat, end: nat)
    requires ReadableHeaders(cfg, c, h)
    requires mid == off + |LineBytes(Name(c), false)|
    requires end == off + |HeadersBytes(c, h)| < |bytes| && bytes[off..end] == HeadersBytes(c, h)
    ensures end == mid + |HeaderLinesBytes(h.entries)| + 1
    ensures bytes[off..mid] == LineBytes(Name(c), false)
    ensures HeaderLinesAt(cfg.maxLineLength, ShouldUnescape(c), h.entries, bytes, mid)
  {
    var lines := HeaderLinesBytes(h.entries);
    HeadersBytesParts(c, h);
    SliceSplit(bytes, off, LineBytes(Name(c), false), lines + [LF]);
    SliceSplit(bytes, mid, lines, [LF]);
  }

  /** The encoded headers: the command line, then the header lines and the blank line. */
  lemma HeadersBytesParts(c: Command, h: StompHeaders)
    ensures HeadersBytes(c, h) == LineBytes(Name(c), false) + (HeaderLinesBytes(h.entries) + [LF])
  {
    AppendAssoc(JavaUtf8(Name(c)) + [LF], HeaderLinesBytes(h.entries), [LF]);
  }

  /** The first `decode` call reads the command line the encoder wrote and goes on with the header block. */
  lemma DecodeCommand(cfg: Config, c: Command, bytes: seq<byte>, off: nat, next: nat, alloc: Allocator)
    requires c != UNKNOWN && |Name(c)| <= cfg.maxLineLength
    requires next == off + |LineBytes(Name(c), false)| <= |bytes|
    requires bytes[off..next] == LineBytes(Name(c), false)
    ensures DecodeStep(cfg, Initial(), bytes, off, alloc) ==
      HeaderBlock(cfg, Initial().(state := ReadHeaders), HeadersFrame(Success, c, Empty()), bytes, next, alloc)
  {
    CommandLineReadBack(cfg.maxLineLength, c, bytes, off);
    CommandThenBlock(cfg, c, bytes, off, next, alloc);
  }

  /** The header block the encoder wrote: its entries are read back and the headers frame is fired. */
  lemma DecodeHeaderLines(cfg: Config, c: Command, h: StompHeaders, bytes: seq<byte>, off: nat, next: nat, alloc: Allocator)
    requires HeaderLinesAt(cfg.maxLineLength, ShouldUnescape(c), h.entries, bytes, off)
    requires Contains(h, ContentLength()) ==> GetLong(h, ContentLength(), 0) >= 0
    requires next == off + |HeaderLinesBytes(h.entries)| + 1
    ensures HeaderBlock(cfg, Initial().(state := ReadHeaders), HeadersFrame(Success, c, Empty()), bytes, off, alloc) ==
      Body(cfg, BodyState(h), bytes, next, alloc, [HeadersFrame(Success, c, h)])
  {
    HeaderLinesRead(cfg.maxLineLength, cfg.validateHeaders, ShouldUnescape(c), Empty(), h.entries, bytes, off);
    assert StompHeaders(Empty().entries + h.entries) == h;
    HeaderBlockDone(cfg, c, h, bytes, off, next, alloc);
  }

  /** A `decode` call on a body that starts right after the headers frame, with the frame in front. */
  lemma BodyAfterHeaders(cfg: Config, d: Decoder, bytes: seq<byte>, off: nat, alloc: Allocator, out: seq<Frame>)
    requires off <= |bytes| && (d.state == ReadContent || d.state == FinalizeFrameRead)
    ensures var r := DecodeStep(cfg, d, bytes, off, alloc);
      Body(cfg, d, bytes, off, alloc, out) == StepResult(r.d, r.off, out + r.out)
  {
    var r := DecodeStep(cfg, d, bytes, off, alloc);
    if d.state == ReadContent && off < |bytes| {
      if d.contentLength >= 0 {
        ReadLengthOut(cfg, d, bytes, off, alloc, out);
      } else {
        ReadNulOut(d, bytes, off, alloc, out);
      }
    } else {
      FinalizeOut(d, bytes, off, alloc, out);
    }
  }

  /** FINALIZE_FRAME_READ only appends to what was fired before it. */
  lemma FinalizeOut(d: Decoder, bytes: seq<byte>, off: nat, alloc: Allocator, out: seq<Frame>)
    requires off <= |bytes|
    ensures var r := Finalize(d, bytes, off, alloc, []);
      Finalize(d, bytes, off, alloc, out) == StepResult(r.d, r.off, out + r.out)
  {
    assert out + [] == out;
  }

  /** READ_CONTENT with a content-length only appends to what was fired before it. */
  lemma ReadLengthOut(cfg: Config, d: Decoder, bytes: seq<byte>, off: nat, alloc: Allocator, out: seq<Frame>)
    requires off < |bytes| && d.contentLength >= 0
    ensures var r := ReadLengthBody(cfg, d, bytes, off, alloc, []);
      ReadLengthBody(cfg, d, bytes, off, alloc, out) == StepResult(r.d, r.off, out + r.out)
  {
    var toRead := Min(|bytes| - off, cfg.maxChunkSize);
    var n := Min(toRead, ToInt32(d.contentLength - d.alreadyReadChunkSize));
    if n >= 0 {
      var already := ToInt32(d.alreadyReadChunkSize + n);
      if already >= d.contentLength {
        var chunk := bytes[off..off + n];
        FinalizeOut(d.(alreadyReadChunkSize := already, lastContentFrame := Some(LastContentFrame(Success, Fresh(chunk))),
                       state := FinalizeFrameRead), bytes, off + n, alloc, out);
      }
    }
  }

  /** READ_CONTENT without a content-length only appends to what was fired before it. */
  lemma ReadNulOut(d: Decoder, bytes: seq<byte>, off: nat, alloc: Allocator, out: seq<Frame>)
    requires off < |bytes|
    ensures var r := ReadNulBody(d, bytes, off, alloc, []);
      ReadNulBody(d, bytes, off, alloc, out) == StepResult(r.d, r.off, out + r.out)
  {
    var beforeNull := BytesBeforeNul(bytes, off);
    if beforeNull == 0 {
      FinalizeOut(d.(state := FinalizeFrameRead), bytes, off, alloc, out);
    } else if beforeNull > 0 {
      var n := beforeNull;
      var chunk := bytes[off..off + n];
      var already := ToInt32(d.alreadyReadChunkSize + n);
      FinalizeOut(d.(alreadyReadChunkSize := already, lastContentFrame := Some(LastContentFrame(Success, Fresh(chunk))),
                     state := FinalizeFrameRead), bytes, off + n, alloc, out);
    }
  }

  /**
   * The decode loop over an encoded frame: the headers frame, then whatever the loop makes of the
   * body from the body state, provided that first body call consumes something.
   */
  lemma RunAfterHeaders(cfg: Config, c: Command, h: StompHeaders, bytes: seq<byte>, off: nat, mid: nat, alloc: Allocator)
    requires ReadableHeaders(cfg, c, h)
    requires Contains(h, ContentLength()) ==> GetLong(h, ContentLength(), 0) >= 0
    requires mid == off + |HeadersBytes(c, h)| < |bytes| && bytes[off..mid] == HeadersBytes(c, h)
    requires DecodeStep(cfg, BodyState(h), bytes, mid, alloc).off > mid
    ensures var r := Run(cfg, BodyState(h), bytes, mid, alloc);
      Run(cfg, Initial(), bytes, off, alloc) == StepResult(r.d, r.off, [HeadersFrame(Success, c, h)] + r.out)
  {
    var f := HeadersFrame(Success, c, h);
    var d := BodyState(h);
    DecodeHeaders(cfg, c, h, bytes, off, mid, alloc);
    BodyAfterHeaders(cfg, d, bytes, mid, alloc, [f]);
    var s := DecodeStep(cfg, d, bytes, mid, alloc);
    var s0 := DecodeStep(cfg, Initial(), bytes, off, alloc);
    assert s0 == StepResult(s.d, s.off, [f] + s.out);
    RunThen(cfg, Initial(), bytes, off, alloc, s0);
    RunThen(cfg, d, bytes, mid, alloc, s);
    var t := Run(cfg, s.d, bytes, s.off, alloc);
    AppendAssoc([f], s.out, t.out);
  }

  /** The content frames the decoder makes of a delimited body. */
  function ContentFrames(cfg: Config, h: StompHeaders, body: seq<byte>, alloc: Allocator): (fs: seq<Frame>)
    requires cfg.maxChunkSize > 0
    ensures MessageContent(fs)
  {
    if body == [] then [EmptyLast(alloc)]
    else if Contains(h, ContentLength()) then
      ChunkFramesMessage(Chunks(body, cfg.maxChunkSize));
      ChunkFrames(Chunks(body, cfg.maxChunkSize))
    else [LastContentFrame(Success, Fresh(body))]
  }

  /** The content frames carry the body, and their last one reports success. */
  lemma ContentFramesCarryBody(cfg: Config, h: StompHeaders, body: seq<byte>, alloc: Allocator)
    requires cfg.maxChunkSize > 0
    ensures var fs := ContentFrames(cfg, h, body, alloc);
      Payloads(fs) == body && DecoderResultOf(fs[|fs| - 1]) == Success
  {
    var fs := ContentFrames(cfg, h, body, alloc);
    if body == [] || !Contains(h, ContentLength()) {
      assert Payloads(fs) == fs[0].payload.bytes + Payloads([]);
    } else {
      ChunkFramesMessage(Chunks(body, cfg.maxChunkSize));
    }
  }

  /** The body part of the loop: its content frames, then decoding starts afresh after the NUL. */
  lemma DecodeBody(cfg: Config, h: StompHeaders, body: seq<byte>, bytes: seq<byte>, off: nat, end: nat, alloc: Allocator)
    requires cfg.maxChunkSize > 0 && DelimitedBody(h, body)
    requires end == off + |body| + 1 <= |bytes| && bytes[off..off + |body|] == body && bytes[off + |body|] == NUL
    ensures DecodeStep(cfg, BodyState(h), bytes, off, alloc).off > off
    ensures var t := Run(cfg, Initial(), bytes, end, alloc);
      Run(cfg, BodyState(h), bytes, off, alloc) ==
        StepResult(t.d, t.off, ContentFrames(cfg, h, body, alloc) + t.out)
  {
    var d := BodyState(h);
    if body == [] {
      EmptyBody(cfg, h, bytes, off, end, alloc);
    } else if Contains(h, ContentLength()) {
      ContentLengthBody(cfg, d, body, bytes, off, end, alloc);
      ContentLengthStarts(cfg, d, body, bytes, off, alloc);
    } else {
      NoLengthBody(cfg, d, body, bytes, off, alloc);
      RunThen(cfg, d, bytes, off, alloc, DecodeStep(cfg, d, bytes, off, alloc));
    }
  }

  /** An empty body: the NUL alone, read as an empty last-content frame from the allocator. */
  lemma EmptyBody(cfg: Config, h: StompHeaders, bytes: seq<byte>, off: nat, end: nat, alloc: Allocator)
    requires cfg.maxChunkSize > 0 && DelimitedBody(h, [])
    requires end == off + 1 <= |bytes| && bytes[off] == NUL
    ensures DecodeStep(cfg, BodyState(h), bytes, off, alloc) == StepResult(Initial(), end, [EmptyLast(alloc)])
    ensures var t := Run(cfg, Initial(), bytes, end, alloc);
      Run(cfg, BodyState(h), bytes, off, alloc) == StepResult(t.d, t.off, [EmptyLast(alloc)] + t.out)
  {
    var d := BodyState(h);
    var s := DecodeStep(cfg, d, bytes, off, alloc);
    if d.state == ReadContent {
      assert d.contentLength < 0;
      assert BytesBeforeNul(bytes, off) == 0;
    }
    assert s == StepResult(Initial(), end, [EmptyLast(alloc)]);
    RunThen(cfg, d, bytes, off, alloc, s);
  }

  /** With a content-length and a non-empty body, the first body call reads at least one byte. */
  lemma ContentLengthStarts(cfg: Config, d: Decoder, body: seq<byte>, bytes: seq<byte>, off: nat, alloc: Allocator)
    requires cfg.maxChunkSize > 0 && d.state == ReadContent && d.alreadyReadChunkSize == 0
    requires 0 < |body| == d.contentLength <= INT_MAX && off + |body| < |bytes|
    ensures DecodeStep(cfg, d, bytes, off, alloc).off > off
  {
    assert ToInt32(d.contentLength - d.alreadyReadChunkSize) == |body|;
  }

  /**
   * Decoding what the encoder wrote for a frame (its headers block, its body, NUL): the headers
   * frame as written, then the body's content frames, then decoding starts afresh after the NUL.
   */
  lemma DecodeEncodedFrame(cfg: Config, c: Command, h: StompHeaders, body: seq<byte>, bytes: seq<byte>,
                           off: nat, end: nat, alloc: Allocator)
    requires cfg.maxChunkSize > 0 && ReadableHeaders(cfg, c, h) && DelimitedBody(h, body)
    requires end == off + |HeadersBytes(c, h) + body + [NUL]| <= |bytes|
    requires bytes[off..end] == HeadersBytes(c, h) + body + [NUL]
    ensures var t := Run(cfg, Initial(), bytes, end, alloc);
      Run(cfg, Initial(), bytes, off, alloc) ==
        StepResult(t.d, t.off, [HeadersFrame(Success, c, h)] + ContentFrames(cfg, h, body, alloc) + t.out)
  {
    var hb := HeadersBytes(c, h);
    var mid := off + |hb|;
    FramePartsAt(hb, body, bytes, off, mid, end);
    DecodeBody(cfg, h, body, bytes, mid, end, alloc);
    RunAfterHeaders(cfg, c, h, bytes, off, mid, alloc);
    var t := Run(cfg, Initial(), bytes, end, alloc);
    AppendAssoc([HeadersFrame(Success, c, h)], ContentFrames(cfg, h, body, alloc), t.out);
  }

  /** The encoded frame in place: its headers block, then its body, then NUL. */
  lemma FramePartsAt(hb: seq<byte>, body: seq<byte>, bytes: seq<byte>, off: nat, mid: nat, end: nat)
    requires mid == off + |hb| && end == off + |hb + body + [NUL]| <= |bytes|
    requires bytes[off..end] == hb + body + [NUL]
    ensures end == mid + |body| + 1 && mid < |bytes|
    ensures bytes[off..mid] == hb && bytes[mid..mid + |body|] == body && bytes[mid + |body|] == NUL
  {
    assert hb + body + [NUL] == hb + (body + [NUL]);
    SliceSplit(bytes, off, hb, body + [NUL]);
    SliceSplit(bytes, mid, body, [NUL]);
  }

  /**
   * Encode, decode, aggregate: a full frame whose headers and body the decoder reads back as
   * written, and whose body fits the aggregator's maximum, comes back as the same full frame
   * (with success as its result and a fresh payload), and the decoder ends ready for the next.
   */
  lemma EncodeDecodeAggregate(cfg: Config, maxContentLength: int, f: Frame, alloc: Allocator)
    requires f.FullFrame? && cfg.maxChunkSize > 0
    requires ReadableHeaders(cfg, f.command, f.headers) && DelimitedBody(f.headers, f.payload.bytes)
    requires 0 <= |f.payload.bytes| <= maxContentLength
    ensures var bytes := Encoding(f);
      var decoded := Run(cfg, Initial(), bytes, 0, alloc);
      decoded.d == Initial() && decoded.off == |bytes| &&
      decoded.out == [HeadersFrame(Success, f.command, f.headers)] + ContentFrames(cfg, f.headers, f.payload.bytes, alloc) &&
      Fold(maxContentLength, Idle(), decoded.out) ==
        (Idle(), [Read(FullFrame(Success, f.command, f.headers, Fresh(f.payload.bytes)))])
  {
    var c := f.command;
    var h := f.headers;
    var body := f.payload.bytes;
    var bytes := Encoding(f);
    assert bytes == HeadersBytes(c, h) + body + [NUL];
    assert bytes[0..|bytes|] == bytes;
    DecodeEncodedFrame(cfg, c, h, body, bytes, 0, |bytes|, alloc);
    var t := Run(cfg, Initial(), bytes, |bytes|, alloc);
    assert t == StepResult(Initial(), |bytes|, []);
    var fs := ContentFrames(cfg, h, body, alloc);
    assert [HeadersFrame(Success, c, h)] + fs + [] == [HeadersFrame(Success, c, h)] + fs;
    ContentFramesCarryBody(cfg, h, body, alloc);
    AggregatorAcceptsDeclared(h, body, maxContentLength);
    AggregateMessage(maxContentLength, Idle(), HeadersFrame(Success, c, h), fs);
  }

  /** A content-length the decoder accepts for a body that fits is not refused by the aggregator. */
  lemma AggregatorAcceptsDeclared(h: StompHeaders, body: seq<byte>, maxContentLength: int)
    requires DelimitedBody(h, body) && 0 <= |body| <= maxContentLength
    ensures forall c :: !IsContentLengthInvalid(HeadersFrame(Success, c, h), maxContentLength)
  {
  }
}
