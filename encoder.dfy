/**
 * StompFrameEncoder: a frame becomes one buffer. The wire form is the command, LF, one
 * `name:value` LF line per header in iteration order, LF, then the payload and a NUL. Header
 * names and values are written as they are, without escaping.
 */
module StompEncoder {
  import opened StompTypes
  import opened Utf8
  import opened StompHeadersModel
  import opened Frames

  // ---- the wire form ----

  /** One header line: the name, ':', the value, LF, each text in UTF-8. */
  function HeaderLineBytes(h: Header): (bs: seq<byte>)
    ensures |bs| == |JavaUtf8(h.name)| + |JavaUtf8(h.value)| + 2
    ensures bs[|JavaUtf8(h.name)|] == COLON && bs[|bs| - 1] == LF
  {
    JavaUtf8(h.name) + [COLON] + JavaUtf8(h.value) + [LF]
  }

  /** The header lines, in the order the headers iterate. */
  function HeaderLinesBytes(entries: seq<Header>): seq<byte>
  {
    if entries == [] then [] else HeaderLineBytes(entries[0]) + HeaderLinesBytes(entries[1..])
  }

  /** Writing the header lines of `a + b` is writing those of `a`, then those of `b`. */
  lemma {:induction false} HeaderLinesAppend(a: seq<Header>, b: seq<Header>)
    ensures HeaderLinesBytes(a + b) == HeaderLinesBytes(a) + HeaderLinesBytes(b)
    decreases |a|
  {
    if a == [] {
      assert a + b == b;
    } else {
      assert (a + b)[0] == a[0];
      assert (a + b)[1..] == a[1..] + b;
      HeaderLinesAppend(a[1..], b);
    }
  }

  /** One more header line at the end. */
  lemma HeaderLinesSnoc(entries: seq<Header>, i: nat)
    requires i < |entries|
    ensures HeaderLinesBytes(entries[..i + 1]) == HeaderLinesBytes(entries[..i]) + HeaderLineBytes(entries[i])
  {
    assert entries[..i + 1] == entries[..i] + [entries[i]];
    HeaderLinesAppend(entries[..i], [entries[i]]);
    assert HeaderLinesBytes([entries[i]]) == HeaderLineBytes(entries[i]) by {
      assert [entries[i]][1..] == [];
    }
  }

  /** The body of the loop over entries: `name`, ':', `value`, LF. */
  method WriteHeaderLine(entry: Header, buf: Buffer)
    modifies buf
    ensures buf.bytes == old(buf.bytes) + HeaderLineBytes(entry)
  {
    buf.WriteCharSequence(entry.name);
    buf.WriteByte(COLON);
    buf.WriteCharSequence(entry.value);
    buf.WriteByte(LF);
  }

  /** `encodeHeaders`: the command's name, LF, the header lines, and the blank line. */
  function HeadersBytes(command: Command, headers: StompHeaders): seq<byte>
  {
    JavaUtf8(Name(command)) + [LF] + HeaderLinesBytes(headers.entries) + [LF]
  }

  /** `encodeFullFrame`: the headers sub-frame, the payload's readable bytes, and NUL. */
  function FullFrameBytes(command: Command, headers: StompHeaders, payload: Payload): seq<byte>
  {
    HeadersBytes(command, headers) + payload.bytes + [NUL]
  }

  /**
   * What `encode` emits for each kind of frame (the default `convert*Frame` hooks return the
   * buffer as it is): a full frame whole; a headers frame as its header block; a last-content
   * frame as its payload and NUL; a plain content frame as its payload.
   */
  function Encoding(f: Frame): (bs: seq<byte>)
  {
    match f
    case FullFrame(_, c, h, p) => FullFrameBytes(c, h, p)
    case HeadersFrame(_, c, h) => HeadersBytes(c, h)
    case LastContentFrame(_, p) => p.bytes + [NUL]
    case EmptyLastFrame(_, p) => p.bytes + [NUL]
    case ContentFrame(_, p) => p.bytes
  }

  /** The buffers for a sequence of frames, written one after the other. */
  function EncodingAll(fs: seq<Frame>): seq<byte>
  {
    if fs == [] then [] else Encoding(fs[0]) + EncodingAll(fs[1..])
  }

  lemma {:induction false} EncodingAllAppend(a: seq<Frame>, b: seq<Frame>)
    ensures EncodingAll(a + b) == EncodingAll(a) + EncodingAll(b)
    decreases |a|
  {
    if a == [] {
      assert a + b == b;
    } else {
      assert (a + b)[0] == a[0];
      assert (a + b)[1..] == a[1..] + b;
      EncodingAllAppend(a[1..], b);
    }
  }

  /**
   * `headersSubFrameSize`: 34 bytes per header plus 48, in int arithmetic; 128 when that is
   * smaller than 128, and otherwise at least 256.
   */
  function HeadersSubFrameSize(headers: StompHeaders): (n: int)
    ensures n >= 128
    ensures ToInt32(Size(headers) * 34 + 48) >= 128 ==> n >= ToInt32(Size(headers) * 34 + 48)
    ensures !(128 < n < 256)
    ensures Size(headers) <= 2 ==> n == 128
    ensures 3 <= Size(headers) <= 6 ==> n == 256
  {
    var estimatedSize := ToInt32(Size(headers) * 34 + 48);
    if estimatedSize < 128 then 128
    else if estimatedSize < 256 then 256 else estimatedSize
  }

  /** A full frame is encoded exactly as its headers sub-frame followed by its body as a last-content frame. */
  lemma FullFrameIsHeadersThenLast(r: DecoderResult, c: Command, h: StompHeaders, p: Payload)
    ensures Encoding(FullFrame(r, c, h, p)) == Encoding(HeadersFrame(r, c, h)) + Encoding(LastContentFrame(r, p))
  {
  }

  /** The decoder result plays no part in the encoding. */
  lemma EncodingIgnoresResult(f: Frame, r: DecoderResult)
    requires !f.EmptyLastFrame?
    ensures Encoding(f.(result := r)) == Encoding(f)
  {
  }

  // ---- the buffer the encoder writes into ----

  /** An output buffer: what has been written so far. */
  class Buffer {
    var bytes: seq<byte>

    /** `allocate(n)`: empty (the requested capacity only sizes the first allocation). */
    constructor ()
      ensures bytes == []
    {
      bytes := [];
    }

    method WriteByte(b: byte)
      modifies this
      ensures bytes == old(bytes) + [b]
    {
      bytes := bytes + [b];
    }

    method WriteBytes(bs: seq<byte>)
      modifies this
      ensures bytes == old(bytes) + bs
    {
      bytes := bytes + bs;
    }

    /** `writeCharSequence(text, UTF_8)`. */
    method WriteCharSequence(t: Text)
      modifies this
      ensures bytes == old(bytes) + JavaUtf8(t)
    {
      bytes := bytes + JavaUtf8(t);
    }
  }

  /** The loop of `encodeHeaders` over the header entries, in iteration order. */
  method WriteHeaderLines(entries: seq<Header>, buf: Buffer)
    modifies buf
    ensures buf.bytes == old(buf.bytes) + HeaderLinesBytes(entries)
  {
    ghost var prefix := buf.bytes;
    var i := 0;
    while i < |entries|
      invariant 0 <= i <= |entries|
      invariant buf.bytes == prefix + HeaderLinesBytes(entries[..i])
    {
      WriteHeaderLine(entries[i], buf);
      HeaderLinesSnoc(entries, i);
      AppendAssoc(prefix, HeaderLinesBytes(entries[..i]), HeaderLineBytes(entries[i]));
      i := i + 1;
    }
    assert entries[..i] == entries;
  }

  /** The body of `encodeHeaders` for a command whose name is `name`. */
  method WriteHeaderBlock(name: Text, entries: seq<Header>, buf: Buffer)
    modifies buf
    ensures buf.bytes == old(buf.bytes) + (JavaUtf8(name) + [LF] + HeaderLinesBytes(entries) + [LF])
  {
    buf.WriteCharSequence(name);
    buf.WriteByte(LF);
    WriteHeaderLines(entries, buf);
    buf.WriteByte(LF);
  }

  /** `encodeHeaders(headersFrame, buf)`: the command line, one line per header entry, the blank line. */
  method EncodeHeaders(command: Command, headers: StompHeaders, buf: Buffer)
    modifies buf
    ensures buf.bytes == old(buf.bytes) + HeadersBytes(command, headers)
  {
    WriteHeaderBlock(Name(command), headers.entries, buf);
  }

  /** `encodeFullFrame`: headers, the payload when it has readable bytes, then NUL. */
  method EncodeFullFrame(command: Command, headers: StompHeaders, payload: Payload) returns (buf: Buffer)
    ensures fresh(buf)
    ensures buf.bytes == FullFrameBytes(command, headers, payload)
  {
    buf := new Buffer();
    EncodeHeaders(command, headers, buf);
    assert buf.bytes == HeadersBytes(command, headers);
    WriteBody(payload, buf);
  }

  /** The tail of `encodeFullFrame`: the payload when it has readable bytes, then NUL. */
  method WriteBody(payload: Payload, buf: Buffer)
    modifies buf
    ensures buf.bytes == old(buf.bytes) + payload.bytes + [NUL]
  {
    if |payload.bytes| > 0 {
      buf.WriteBytes(payload.bytes);
    } else {
      assert payload.bytes == [];
    }
    buf.WriteByte(NUL);
  }

  /**
   * `encodeContent`: a last-content frame gets a new buffer with its payload and NUL; other
   * content passes through as its payload. `encode` never hands it a full frame.
   */
  method EncodeContent(f: Frame) returns (buf: Buffer)
    requires IsContentStompFrame(f)
    ensures IsLastContentStompFrame(f) ==> buf.bytes == f.payload.bytes + [NUL]
    ensures !IsLastContentStompFrame(f) ==> buf.bytes == f.payload.bytes
    ensures !IsFullStompFrame(f) ==> buf.bytes == Encoding(f)
  {
    if IsLastContentStompFrame(f) {
      buf := new Buffer();
      buf.WriteBytes(f.payload.bytes);
      buf.WriteByte(NUL);
      return;
    }
    buf := new Buffer();
    buf.WriteBytes(f.payload.bytes);
  }

  /** `encode(ctx, msg, out)`: every frame yields exactly one buffer, passed on unchanged by the hooks. */
  method Encode(f: Frame) returns (out: seq<Buffer>)
    ensures |out| == 1 && out[0].bytes == Encoding(f)
  {
    var buffer: Buffer;
    if IsFullStompFrame(f) {
      buffer := EncodeFullFrame(f.command, f.headers, f.payload);
    } else if IsHeadersStompFrame(f) {
      buffer := new Buffer();
      EncodeHeaders(f.command, f.headers, buffer);
    } else {
      buffer := EncodeContent(f);
    }
    out := [buffer];
  }
}
