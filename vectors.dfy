/**
 * Concrete frames from the codec's own tests, worked through the model: the exact bytes the
 * encoder writes, the chunks the decoder cuts a body into, and the aggregator's length limit.
 */
module Vectors {
  import opened StompTypes
  import opened Utf8
  import opened StompHeadersModel
  import opened Frames
  import opened LineParser
  import opened LineParserProps
  import opened DecoderSpec
  import opened DecoderProps
  import opened StompEncoder
  import opened StompAggregator
  import opened RoundTrip

  /** An ASCII string: every char below 0x80. */
  predicate Ascii(s: string)
  {
    forall i :: 0 <= i < |s| ==> s[i] as int < 0x80
  }

  /** ASCII text is written as its own bytes. */
  lemma AsciiWire(s: string)
    requires Ascii(s)
    ensures JavaUtf8(T(s)) == Bytes(s)
  {
    JavaUtf8AsciiText(T(s));
    assert T(s) == Bytes(s);
  }

  lemma BytesAppend(a: string, b: string)
    ensures Bytes(a + b) == Bytes(a) + Bytes(b)
  {
    assert forall i :: 0 <= i < |a| ==> (a + b)[i] == a[i];
    assert forall i :: 0 <= i < |b| ==> (a + b)[|a| + i] == b[i];
  }

  lemma WireShape(cb: seq<byte>, nb: seq<byte>, vb: seq<byte>)
    ensures cb + [LF] + (nb + [COLON] + vb + [LF]) + [LF] + [] + [NUL] ==
      cb + [LF] + nb + [COLON] + vb + [LF, LF, NUL]
  {
  }

  /** The bytes of a full frame with one header and no body. */
  lemma OneHeaderWire(c: Command, name: Text, value: Text)
    ensures Encoding(FullFrame(Success, c, StompHeaders([Header(name, value)]), EmptyReadOnly())) ==
      JavaUtf8(Name(c)) + [LF] + JavaUtf8(name) + [COLON] + JavaUtf8(value) + [LF, LF, NUL]
  {
    var e := Header(name, value);
    var cb, nb, vb := JavaUtf8(Name(c)), JavaUtf8(name), JavaUtf8(value);
    assert [e][1..] == [];
    assert HeaderLinesBytes([e]) == nb + [COLON] + vb + [LF];
    var hb := HeadersBytes(c, StompHeaders([e]));
    assert hb == cb + [LF] + (nb + [COLON] + vb + [LF]) + [LF];
    assert Encoding(FullFrame(Success, c, StompHeaders([e]), EmptyReadOnly())) == hb + [] + [NUL];
    WireShape(cb, nb, vb);
  }

  /** The same bytes, as one string literal. */
  lemma OneHeaderText(command: string, name: string, value: string)
    ensures Bytes(command + "\n" + name + ":" + value + "\n\n\0") ==
      Bytes(command) + [LF] + Bytes(name) + [COLON] + Bytes(value) + [LF, LF, NUL]
  {
    BytesAppend(command, "\n");
    BytesAppend(command + "\n", name);
    BytesAppend(command + "\n" + name, ":");
    BytesAppend(command + "\n" + name + ":", value);
    BytesAppend(command + "\n" + name + ":" + value, "\n\n\0");
    assert Bytes("\n") == [LF] && Bytes(":") == [COLON] && Bytes("\n\n\0") == [LF, LF, NUL];
  }

  /** A CONNECTED frame with `version:1.2` and no body is written as one buffer: headers, blank line, NUL. */
  lemma ConnectedWire()
    ensures Encoding(FullFrame(Success, CONNECTED, StompHeaders([Header(T("version"), T("1.2"))]), EmptyReadOnly())) ==
      Bytes("CONNECTED\nversion:1.2\n\n\0")
  {
    assert Ascii("CONNECTED") && Ascii("version") && Ascii("1.2");
    assert Name(CONNECTED) == T("CONNECTED");
    OneHeaderWire(CONNECTED, T("version"), T("1.2"));
    AsciiWire("CONNECTED");
    AsciiWire("version");
    AsciiWire("1.2");
    OneHeaderText("CONNECTED", "version", "1.2");
    ConnectedText();
  }

  lemma ConnectedText()
    ensures "CONNECTED" + "\n" + "version" + ":" + "1.2" + "\n\n\0" == "CONNECTED\nversion:1.2\n\n\0"
  {
  }

  /** CONNECT headers are written as they are: colons in names and values are not escaped. */
  lemma ConnectColonsVerbatim()
    ensures Encoding(FullFrame(Success, CONNECT, StompHeaders([Header(T("colonHeaderName-:"), T("colonHeaderValue-:"))]),
                               EmptyReadOnly())) ==
      Bytes("CONNECT\ncolonHeaderName-::colonHeaderValue-:\n\n\0")
  {
    assert Ascii("CONNECT") && Ascii("colonHeaderName-:") && Ascii("colonHeaderValue-:");
    assert Name(CONNECT) == T("CONNECT");
    OneHeaderWire(CONNECT, T("colonHeaderName-:"), T("colonHeaderValue-:"));
    AsciiWire("CONNECT");
    AsciiWire("colonHeaderName-:");
    AsciiWire("colonHeaderValue-:");
    OneHeaderText("CONNECT", "colonHeaderName-:", "colonHeaderValue-:");
    ConnectText();
  }

  lemma ConnectText()
    ensures "CONNECT" + "\n" + "colonHeaderName-:" + ":" + "colonHeaderValue-:" + "\n\n\0" ==
      "CONNECT\ncolonHeaderName-::colonHeaderValue-:\n\n\0"
  {
  }

  /** The body of the chunked SEND frame. */
  function ChunkedBody(): seq<byte> { Bytes("hello, queue a!!!") }

  /** A decoder with a chunk limit of 5 cuts the 17-byte body into "hello", ", que", "ue a!" and "!!". */
  lemma ChunksOfFive()
    ensures Chunks(ChunkedBody(), 5) == [Bytes("hello"), Bytes(", que"), Bytes("ue a!"), Bytes("!!")]
    ensures ChunkFrames(Chunks(ChunkedBody(), 5)) ==
      [ContentFrame(Success, Fresh(Bytes("hello"))), ContentFrame(Success, Fresh(Bytes(", que"))),
       ContentFrame(Success, Fresh(Bytes("ue a!"))), LastContentFrame(Success, Fresh(Bytes("!!")))]
  {
    ChunkedText();
    BytesAppend("hello", ", que");
    BytesAppend("hello" + ", que", "ue a!");
    BytesAppend("hello" + ", que" + "ue a!", "!!");
    FourChunks(Bytes("hello"), Bytes(", que"), Bytes("ue a!"), Bytes("!!"));
    FourChunkFrames(Bytes("hello"), Bytes(", que"), Bytes("ue a!"), Bytes("!!"));
  }

  /** A body longer than the chunk size starts with one full chunk. */
  lemma ChunkStep(x: seq<byte>, rest: seq<byte>, size: nat)
    requires |x| == size > 0 && rest != []
    ensures Chunks(x + rest, size) == [x] + Chunks(rest, size)
  {
    assert (x + rest)[..size] == x && (x + rest)[size..] == rest;
  }

  /** Three full chunks of five and a shorter last one. */
  lemma FourChunks(x1: seq<byte>, x2: seq<byte>, x3: seq<byte>, x4: seq<byte>)
    requires |x1| == 5 && |x2| == 5 && |x3| == 5 && 0 < |x4| <= 5
    ensures Chunks(x1 + x2 + x3 + x4, 5) == [x1, x2, x3, x4]
  {
    var r3 := x3 + x4;
    var r2 := x2 + r3;
    var r1 := x1 + r2;
    assert Chunks(x4, 5) == [x4];
    ChunkStep(x3, x4, 5);
    assert Chunks(r3, 5) == [x3, x4];
    ChunkStep(x2, r3, 5);
    assert Chunks(r2, 5) == [x2, x3, x4];
    ChunkStep(x1, r2, 5);
    assert Chunks(r1, 5) == [x1, x2, x3, x4];
    AppendAssoc(x1, x2, x3);
    AppendAssoc(x1 + x2, x3, x4);
    AppendAssoc(x2, x3, x4);
    AppendAssoc(x1, x2 + x3, x4);
    AppendAssoc(x1, x2, x3 + x4);
  }

  /** The frames for those four chunks: three content frames and the last one. */
  lemma FourChunkFrames(x1: seq<byte>, x2: seq<byte>, x3: seq<byte>, x4: seq<byte>)
    ensures ChunkFrames([x1, x2, x3, x4]) ==
      [ContentFrame(Success, Fresh(x1)), ContentFrame(Success, Fresh(x2)),
       ContentFrame(Success, Fresh(x3)), LastContentFrame(Success, Fresh(x4))]
  {
    var f1, f2, f3 := ContentFrame(Success, Fresh(x1)), ContentFrame(Success, Fresh(x2)), ContentFrame(Success, Fresh(x3));
    var f4 := LastContentFrame(Success, Fresh(x4));
    assert ChunkFrames([x4]) == [f4];
    assert [x3, x4][1..] == [x4];
    assert ChunkFrames([x3, x4]) == [f3, f4];
    assert [x2, x3, x4][1..] == [x3, x4];
    assert ChunkFrames([x2, x3, x4]) == [f2, f3, f4];
    assert [x1, x2, x3, x4][1..] == [x2, x3, x4];
  }

  lemma ChunkedText()
    ensures "hello" + ", que" + "ue a!" + "!!" == "hello, queue a!!!"
  {
  }

  /** The chunked SEND frame's headers: a destination and the body's length. */
  function ChunkedHeaders(): StompHeaders
  {
    StompHeaders([Header(T("destination"), T("/queue/a")), Header(ContentLength(), T("17"))])
  }

  /** Its declared content-length is 17, the body's length. */
  lemma ChunkedLength()
    ensures Contains(ChunkedHeaders(), ContentLength())
    ensures GetLong(ChunkedHeaders(), ContentLength(), 0) == 17 == |ChunkedBody()|
  {
    var h := ChunkedHeaders();
    assert h.entries[1].name == ContentLength();
    ParseLongDecimal(17);
    assert Decimal(17) == T("17");
    assert T("destination") != ContentLength();
  }

  /** The encoded SEND frame, decoded with a chunk limit of 5: the headers frame, then the four chunks. */
  lemma DecodeByChunks(alloc: Allocator)
    ensures var cfg := Config(10000, 5, false);
      var f := FullFrame(Success, SEND, ChunkedHeaders(), Fresh(ChunkedBody()));
      Run(cfg, Initial(), Encoding(f), 0, alloc).out ==
        [HeadersFrame(Success, SEND, ChunkedHeaders()),
         ContentFrame(Success, Fresh(Bytes("hello"))), ContentFrame(Success, Fresh(Bytes(", que"))),
         ContentFrame(Success, Fresh(Bytes("ue a!"))), LastContentFrame(Success, Fresh(Bytes("!!")))]
  {
    var cfg := Config(10000, 5, false);
    var h := ChunkedHeaders();
    var body := ChunkedBody();
    var f := FullFrame(Success, SEND, h, Fresh(body));
    ChunkedReadable(cfg);
    ChunkedLength();
    assert DelimitedBody(h, body);
    EncodeDecodeAggregate(cfg, 17, f, alloc);
    var out := Run(cfg, Initial(), Encoding(f), 0, alloc).out;
    assert out == [HeadersFrame(Success, SEND, h)] + ContentFrames(cfg, h, body, alloc);
    assert body != [];
    assert ContentFrames(cfg, h, body, alloc) == ChunkFrames(Chunks(body, 5));
    ChunksOfFive();
    var c1, c2, c3 := ContentFrame(Success, Fresh(Bytes("hello"))), ContentFrame(Success, Fresh(Bytes(", que"))),
      ContentFrame(Success, Fresh(Bytes("ue a!")));
    var c4 := LastContentFrame(Success, Fresh(Bytes("!!")));
    var hf := HeadersFrame(Success, SEND, h);
    assert out == [hf] + [c1, c2, c3, c4];
    PrependOne(hf, c1, c2, c3, c4);
  }

  lemma PrependOne<X>(a: X, b: X, c: X, d: X, e: X)
    ensures [a] + [b, c, d, e] == [a, b, c, d, e]
  {
  }

  /** Printable ASCII other than the colon and the backslash: read back as written in any header line. */
  predicate HeaderSafe(s: string)
  {
    forall i :: 0 <= i < |s| ==> ' ' <= s[i] <= '~' && s[i] != ':' && s[i] != '\\'
  }

  lemma SafeHeaderReadable(max: int, unescape: bool, name: string, value: string)
    requires name != "" && HeaderSafe(name) && HeaderSafe(value) && |name| + |value| <= max
    ensures ReadableHeader(max, unescape, Header(T(name), T(value)))
  {
    JavaUtf8AsciiText(T(name));
    JavaUtf8AsciiText(T(value));
  }

  lemma ChunkedSafe()
    ensures HeaderSafe("destination") && HeaderSafe("/queue/a") && HeaderSafe("content-length") && HeaderSafe("17")
  {
  }

  /** The chunked SEND frame's headers are read back as written. */
  lemma ChunkedReadable(cfg: Config)
    requires cfg.maxLineLength >= 24
    ensures ReadableHeaders(cfg, SEND, ChunkedHeaders())
  {
    var h := ChunkedHeaders();
    var max, u := cfg.maxLineLength, ShouldUnescape(SEND);
    ChunkedSafe();
    SafeHeaderReadable(max, u, "destination", "/queue/a");
    SafeHeaderReadable(max, u, "content-length", "17");
    assert h.entries == [Header(T("destination"), T("/queue/a")), Header(T("content-length"), T("17"))];
    assert forall i | 0 <= i < |h.entries| :: ReadableHeader(max, u, h.entries[i]) by {
      forall i | 0 <= i < |h.entries| ensures ReadableHeader(max, u, h.entries[i]) {
        if i == 1 { } else { }
      }
    }
    assert |Name(SEND)| == 4;
  }

  /** An aggregator limited to 10 bytes refuses a 15-byte body with TooLongFrameException. */
  lemma TooLongForTen(alloc: Allocator)
    ensures var h := HeadersFrame(Success, SEND, StompHeaders([Header(T("destination"), T("/queue/a"))]));
      Fold(10, Idle(), [h, LastContentFrame(Success, Fresh(Bytes("hello, queue a!")))]) ==
        (AggState(true, None), [TooLongFrame(10)])
  {
    var h := HeadersFrame(Success, SEND, StompHeaders([Header(T("destination"), T("/queue/a"))]));
    var fs := [LastContentFrame(Success, Fresh(Bytes("hello, queue a!")))];
    assert T("destination") != ContentLength();
    NoContentLengthIsValid(h, 10);
    assert Payloads(fs) == fs[0].payload.bytes + Payloads([]);
    AggregateTooLong(10, Idle(), h, fs);
    assert [h] + fs == [h, fs[0]];
  }
}
