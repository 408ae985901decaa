# STOMP codec model

A Dafny model of the STOMP 1.2 frame codec of netty-contrib's `codec-stomp`.
The model covers the byte-to-frame decoder, the frame-to-byte encoder, the aggregator that turns
a headers frame and its content frames into one full frame, the header multimap and the frame
classes. It also proves what each promises.

- **Frames** (`frames.dfy`). The five frame classes form one datatype `Frame`. There is one
  variant per class: headers, content, last-content, the empty last-content frame, and full.
  Each variant carries its `DecoderResult`. The payload is a value: its readable bytes, whether
  it is still accessible, and whether it is read-only. Constructors, `setDecoderResult`, `copy`,
  `send`, `close` and `equals` are functions over these values. A null argument is `None`, and
  an exception is an `Err`.
- **Headers** (`headers.dfy`). `DefaultStompHeaders` is an ordered, case-sensitive multimap of
  entries. The module also holds `getLong` with `Long.parseLong` on the header text.
- **Line parsers** (`line_parser.dfy`, `line_props.dfy`). `Utf8LineParser` and its
  `HeaderParser` subclass are one class. It updates its fields byte by byte (`Process`), loops
  over the readable bytes (`Parse`, `ParseHeaders`), and is proved equal to pure step functions.
  `line_props.dfy` proves what the parsers promise:
  - UTF-8 text is read back as itself.
  - CR is counted but never stored.
  - The line limit is enforced exactly.
  - A header line splits at its first colon.
  - Unescaping agrees with the STOMP 1.2 "Value Encoding" rules.
- **Decoder** (`decoder_spec.dfy`, `decoder.dfy`, `decoder_props.dfy`).
  - `DecodeStep` is one call of `decode`, as a function of the decoder's fields, the readable
    bytes and the reader offset. `Run` repeats `decode` while it makes progress, as the channel
    pipeline does.
  - The class `StompFrameDecoder` holds the mutable fields. Its methods, down to `Decode` and
    the loop `DecodeAll`, are proved to update the fields exactly as those functions say.
  - `decoder_props.dfy` states the frame-level behaviour:
    - BAD_FRAME is absorbing.
    - A bad command line yields one failed UNKNOWN headers frame.
    - A content-length body is cut into `maxChunkSize` chunks.
    - A body without a content-length runs to the NUL.
    - The NUL ends the frame and resets the decoder.
- **Encoder** (`encoder.dfy`). `Encoding` is the wire form of each kind of frame. The methods
  write it into a `Buffer` in place, with a loop over the header entries.
- **Aggregator** (`aggregator.dfy`).
  - The hooks `StompFrameAggregator` gives netty's `MessageAggregator` are modelled as written.
  - The per-frame rule of that driver is `Step`, and `Fold` is a stream of frames. The class
    `Aggregator` holds the message in progress, and its `ChannelRead` is proved equal to `Step`.
  - The module proves what a whole message becomes: one full frame with every chunk's bytes in
    order, or one TooLongFrameException when the body does not fit. It also proves that the
    result does not depend on how the body was chunked.
- **Round trip** (`roundtrip.dfy`). The bytes the encoder writes for a full frame are decoded
  back into its headers frame and content frames. The aggregator then rebuilds the same full
  frame. This holds when the header names and values have no CR, LF, colon or surrogate (and no
  backslash where the decoder unescapes), the lines fit the limit, and the body is delimited as
  the decoder reads it.
- **Test vectors** (`vectors.dfy`). These are concrete frames from the codec's tests, worked
  through the model: `CONNECTED\nversion:1.2\n\n\0`, the unescaped CONNECT colons, the 17-byte
  body cut 5/5/5/2, and the 10-byte aggregation limit.

Bytes are integers 0..255, so Java's signed `byte` tests are restated on unsigned values. A
Java `char` is an integer 0..0xFFFF, surrogates included, and text is a sequence of them.
`StompConstants` is not part of this model, and its bytes are taken to be NUL=0, LF=10, CR=13
and `:`=58. StompCommand.java is not part of this model either, and its values are the sixteen
STOMP commands in `StompTypes.Command`.

## Model

| member | source | states |
|---|---|---|
| StompTypes.ToInt32 | codec-stomp/src/main/java/io/netty/contrib/handler/codec/stomp/StompFrameDecoder.java:153 | Java's `(int)` narrowing of the remaining content length: the result is an int, equals the input when that is already an int, and differs from it by a multiple of 2^32 |
| StompTypes.ValueOf | codec-stomp/src/main/java/io/netty/contrib/handler/codec/stomp/StompFrameDecoder.java:217 | `StompCommand.valueOf`: a command is returned only for text that is exactly its name |
| StompTypes.ValueOfName | codec-stomp/src/main/java/io/netty/contrib/handler/codec/stomp/StompFrameDecoder.java:216-225 | `valueOf(c.name())` is `c` for every command, and `valueOf` finds nothing exactly when the text is no command's name (so matching is exact and case-sensitive) |
| StompTypes.NameInjective | codec-stomp/src/main/java/io/netty/contrib/handler/codec/stomp/StompFrameDecoder.java:217 | two commands with the same name are the same command |
| StompTypes.AsciiLower | codec-stomp/src/main/java/io/netty/contrib/handler/codec/stomp/DefaultStompHeaders.java:57-61 | the case folding of the case-insensitive value comparison: only `A`-`Z` are lowered, every other char is kept |
| Utf8.EncodeChar | codec-stomp/src/main/java/io/netty/contrib/handler/codec/stomp/StompFrameDecoder.java:328-330 | the UTF-8 form of a BMP char has 1 to 3 bytes: one byte exactly for chars below 0x80 (the char itself), a lead byte of at least 0xC0 otherwise, and continuation bytes `10xxxxxx` |
| Utf8.JavaUtf8AsciiText | codec-stomp/src/main/java/io/netty/contrib/handler/codec/stomp/StompFrameEncoder.java:116-122 | ASCII text is written as its own bytes |
| Utf8.JavaUtf8Append | codec-stomp/src/main/java/io/netty/contrib/handler/codec/stomp/StompFrameEncoder.java:116-122 | writing two surrogate-free texts one after the other writes the UTF-8 form of their concatenation |
| Utf8.JavaUtf8Ascii | codec-stomp/src/main/java/io/netty/contrib/handler/codec/stomp/StompFrameDecoder.java:315-326 | a byte below 0x80 in the UTF-8 form of a text stands for a char of that text, so a CR, LF or `:` on the wire is that char and never part of a multi-byte char |
| StompHeadersModel.Empty | codec-stomp/src/main/java/io/netty/contrib/handler/codec/stomp/DefaultStompHeaders.java:33-35 | a new headers object has no entries and contains no name |
| StompHeadersModel.Contains | codec-stomp/src/main/java/io/netty/contrib/handler/codec/stomp/DefaultStompHeaders.java:32 | `contains(name)` holds exactly when some entry carries that exact name |
| StompHeadersModel.GetAll | codec-stomp/src/main/java/io/netty/contrib/handler/codec/stomp/DefaultStompHeaders.java:32-35 | the values under a name are drawn from entries with exactly that name; there are none exactly when the name is absent |
| StompHeadersModel.Get | codec-stomp/src/main/java/io/netty/contrib/handler/codec/stomp/DefaultStompHeaders.java:32-35 | `get(name)` is present exactly when the name is, and is the oldest value added under it |
| StompHeadersModel.Add | codec-stomp/src/main/java/io/netty/contrib/handler/codec/stomp/DefaultStompHeaders.java:32-35 | `add` appends exactly one entry |
| StompHeadersModel.AddGetAll | codec-stomp/src/main/java/io/netty/contrib/handler/codec/stomp/DefaultStompHeaders.java:32-35 | after `add(name, value)` the values under `name` are the old ones followed by `value`, and every other name's values are unchanged |
| StompHeadersModel.GetAllMembers | codec-stomp/src/main/java/io/netty/contrib/handler/codec/stomp/DefaultStompHeaders.java:32-35 | a value is among `getAll(name)` exactly when an entry with that exact name and value was added |
| StompHeadersModel.ContainsValue | codec-stomp/src/main/java/io/netty/contrib/handler/codec/stomp/DefaultStompHeaders.java:52-61 | the exact `contains(name, value)` holds exactly when an entry with that name and value was added |
| StompHeadersModel.ContainsValueCases | codec-stomp/src/main/java/io/netty/contrib/handler/codec/stomp/DefaultStompHeaders.java:52-61 | `contains(name, value)` (= `ignoreCase` false) holds exactly when `value` is one of the name's values; the case-insensitive check accepts everything the exact one does |
| StompHeadersModel.Copy | codec-stomp/src/main/java/io/netty/contrib/handler/codec/stomp/DefaultStompHeaders.java:63-68 | `copy()` holds the same entries in the same order and is equal to the original both ways |
| StompHeadersModel.Equal | codec-stomp/src/main/java/io/netty/contrib/handler/codec/stomp/DefaultHeadersStompFrame.java:62 | `DefaultHeaders.equals`: equal headers have the same number of entries, and headers with the same entries in the same order are equal |
| StompHeadersModel.EqualAgrees | codec-stomp/src/main/java/io/netty/contrib/handler/codec/stomp/DefaultHeadersStompFrame.java:62 | headers that are equal agree on every name's values and on its first value |
| StompHeadersModel.CaseSensitiveLookup | codec-stomp/src/test/java/io/netty/contrib/handler/codec/stomp/DefaultStompHeadersTest.java:23-32 | after `add("header-name", v)`, `get("header-name")` is `v` and `get("Header-Name")` is absent |
| StompHeadersModel.ParseLong | codec-stomp/src/main/java/io/netty/contrib/handler/codec/stomp/StompFrameDecoder.java:243 | `Long.parseLong`: a parsed value lies in the signed 64-bit range and empty text does not parse |
| StompHeadersModel.Decimal | codec-stomp/src/main/java/io/netty/contrib/handler/codec/stomp/StompFrameDecoder.java:243 | the decimal rendering of a number is a non-empty run of digits |
| StompHeadersModel.DigitsValueDecimal | codec-stomp/src/main/java/io/netty/contrib/handler/codec/stomp/StompFrameDecoder.java:243 | reading the digits of a decimal rendering gives back the number |
| StompHeadersModel.ParseLongDecimal | codec-stomp/src/main/java/io/netty/contrib/handler/codec/stomp/StompFrameDecoder.java:243 | a content-length written in decimal parses back to itself |
| StompHeadersModel.GetLong | codec-stomp/src/main/java/io/netty/contrib/handler/codec/stomp/StompFrameDecoder.java:243 | `getLong(name, default)`: the default when the name is absent or its first value does not parse, the parsed first value otherwise |
| Frames.Fresh | codec-stomp/src/main/java/io/netty/contrib/handler/codec/stomp/DefaultContentStompFrame.java:31-33 | a payload a frame is built over holds exactly the given bytes, open and writable |
| Frames.EmptyReadOnly | codec-stomp/src/main/java/io/netty/contrib/handler/codec/stomp/DefaultFullStompFrame.java:32-34 | `allocate(0).makeReadOnly()`: no bytes, open, read-only |
| Frames.Hierarchy | codec-stomp/src/main/java/io/netty/contrib/handler/codec/stomp/LastContentStompFrame.java:25 | a last-content frame is a content frame; a full frame is both a headers frame and a last-content frame; the frames that are both headers and content are exactly the full frames |
| Frames.DecoderResultOf | codec-stomp/src/main/java/io/netty/contrib/handler/codec/stomp/EmptyLastContentStompFrame.java:69-72 | the empty last-content frame always reports success; every other frame reports its stored result |
| Frames.NewHeadersFrame | codec-stomp/src/main/java/io/netty/contrib/handler/codec/stomp/DefaultHeadersStompFrame.java:28-35 | a null command is refused; otherwise the frame has that command, a success result, the given headers object itself, or new empty headers when none is given |
| Frames.NewFullFrame | codec-stomp/src/main/java/io/netty/contrib/handler/codec/stomp/DefaultFullStompFrame.java:36-43 | a null command or null payload is refused; otherwise the frame holds that command, that payload and the given (or new empty) headers, with a success result |
| Frames.NewFullFrameOf | codec-stomp/src/main/java/io/netty/contrib/handler/codec/stomp/DefaultFullStompFrame.java:32-34 | the command-only constructor gives an empty read-only payload and empty headers |
| Frames.NewContentFrame | codec-stomp/src/main/java/io/netty/contrib/handler/codec/stomp/DefaultContentStompFrame.java:31-33 | a null payload is refused; otherwise a successful content frame over that payload |
| Frames.NewLastContentFrame | codec-stomp/src/main/java/io/netty/contrib/handler/codec/stomp/DefaultLastContentStompFrame.java:31-33 | a null payload is refused; otherwise a successful last-content frame over that payload |
| Frames.NewEmptyLastFrame | codec-stomp/src/main/java/io/netty/contrib/handler/codec/stomp/EmptyLastContentStompFrame.java:33-36 | a null allocator is refused; otherwise an empty read-only payload from that allocator |
| Frames.EmptyLast | codec-stomp/src/main/java/io/netty/contrib/handler/codec/stomp/StompFrameDecoder.java:191-193 | the empty last-content frame the decoder synthesizes is the one the constructor builds from the context's allocator |
| Frames.SetDecoderResult | codec-stomp/src/main/java/io/netty/contrib/handler/codec/stomp/DefaultStompFrame.java:36-39 | null is refused; the empty last-content frame refuses every result as read-only; otherwise the frame reports exactly the result stored |
| Frames.SetDecoderResultFrame | codec-stomp/src/main/java/io/netty/contrib/handler/codec/stomp/DefaultStompFrame.java:36-39 | storing a result on any other frame succeeds and changes nothing but the result |
| Frames.Copy | codec-stomp/src/main/java/io/netty/contrib/handler/codec/stomp/DefaultFullStompFrame.java:50-53 | a copy of a frame other than a bare headers frame (which has no `copy`) is a new frame, so its result is the initial success |
| Frames.Send | codec-stomp/src/main/java/io/netty/contrib/handler/codec/stomp/DefaultContentStompFrame.java:45-48 | `send` moves the payload's bytes into a new frame of the same kind; afterwards the original's payload is inaccessible; the empty frame's send builds a new empty frame from the same allocator and leaves the original alone |
| Frames.Close | codec-stomp/src/main/java/io/netty/contrib/handler/codec/stomp/DefaultContentStompFrame.java:50-53 | after `close` the frame's payload is no longer accessible |
| Frames.Equals | codec-stomp/src/main/java/io/netty/contrib/handler/codec/stomp/DefaultStompFrame.java:41-53 | `equals`: equal frames carry equal decoder results and agree on being a full frame and on being the empty last frame; a content frame equals itself |
| Frames.EqualsSameClass | codec-stomp/src/main/java/io/netty/contrib/handler/codec/stomp/DefaultStompFrame.java:41-53 | equal frames are of the same class and carry equal decoder results, the same command and equal payload bytes |
| Frames.EqualsReflexive | codec-stomp/src/main/java/io/netty/contrib/handler/codec/stomp/DefaultStompFrame.java:43-45 | every frame equals itself |
| Frames.CopyEquals | codec-stomp/src/main/java/io/netty/contrib/handler/codec/stomp/DefaultFullStompFrame.java:50-53 | a copy equals its original exactly when the original's result is success; it is open and holds the same bytes (and, for a full frame, the same header entries) |
| Frames.CopyThenWrite | codec-stomp/src/test/java/io/netty/contrib/handler/codec/stomp/DefaultContentStompFrameTest.java:15-26 | writing a byte to a copy's payload makes it unequal to the original |
| Frames.WriteByte | codec-stomp/src/test/java/io/netty/contrib/handler/codec/stomp/DefaultContentStompFrameTest.java:15-26 | `payload().writeByte(b)` on a writable payload appends `b` to the payload's bytes; a read-only payload is excluded, as netty throws there |
| Frames.EmptyLastEquality | codec-stomp/src/main/java/io/netty/contrib/handler/codec/stomp/EmptyLastContentStompFrame.java:84-97 | two empty last-content frames are equal exactly when they come from the same allocator |
| Frames.LastNeverEqualsContent | codec-stomp/src/main/java/io/netty/contrib/handler/codec/stomp/DefaultLastContentStompFrame.java:66-78 | a last-content frame never equals a plain content frame, whatever their bytes |
| LineParser.Reset | codec-stomp/src/main/java/io/netty/contrib/handler/codec/stomp/StompFrameDecoder.java:459-465 | `reset()` empties the chars, the line length and the UTF-8 state, and clears the name, the validity and a pending escape |
| LineParser.ShouldUnescape | codec-stomp/src/main/java/io/netty/contrib/handler/codec/stomp/StompFrameDecoder.java:468-470 | every command except CONNECT and CONNECTED has its headers unescaped |
| LineParser.Append | codec-stomp/src/main/java/io/netty/contrib/handler/codec/stomp/StompFrameDecoder.java:353-355 | the plain `appendTo` appends exactly the char |
| LineParser.AppendTo | codec-stomp/src/main/java/io/netty/contrib/handler/codec/stomp/StompFrameDecoder.java:423-457 | the header parser's `appendTo` only changes the chars and the escape flag, never throws at the line end, and throws exactly when unescaping, after a backslash, on a char other than `\`, `c`, `r`, `n` |
| LineParser.ProcessByte | codec-stomp/src/main/java/io/netty/contrib/handler/codec/stomp/StompFrameDecoder.java:402-421 | `process(byte)` stops exactly at LF; a line becomes valid only at a colon in a header line; the command parser never touches the name or the validity |
| LineParser.ProcessConsistent | codec-stomp/src/main/java/io/netty/contrib/handler/codec/stomp/StompFrameDecoder.java:404-417 | a header line is marked valid only once it has a non-empty name, and `process` keeps it so |
| LineParser.ScanFrom | codec-stomp/src/main/java/io/netty/contrib/handler/codec/stomp/StompFrameDecoder.java:299 | the cursor stops at the first LF after the start, or runs out of bytes without meeting one |
| LineParser.ParseLine | codec-stomp/src/main/java/io/netty/contrib/handler/codec/stomp/StompFrameDecoder.java:297-307 | `parse`: a line is returned with the reader moved just past the first LF; "need more" only when no LF is readable |
| LineParser.ParseLineNeedsLF | codec-stomp/src/main/java/io/netty/contrib/handler/codec/stomp/StompFrameDecoder.java:299-302 | without a readable LF no line is returned, and with one `parse` never asks for more |
| LineParser.ParseHeaderLines | codec-stomp/src/main/java/io/netty/contrib/handler/codec/stomp/StompFrameDecoder.java:379-400 | `parseHeaders` never moves the reader back and never removes headers |
| LineParser.Utf8LineParser.constructor | codec-stomp/src/main/java/io/netty/contrib/handler/codec/stomp/StompFrameDecoder.java:292-295 | a new parser with the given limit, in the reset state |
| LineParser.Utf8LineParser.ResetLine | codec-stomp/src/main/java/io/netty/contrib/handler/codec/stomp/StompFrameDecoder.java:357-362 | the parser's fields become those of `Reset` |
| LineParser.Utf8LineParser.AppendChar | codec-stomp/src/main/java/io/netty/contrib/handler/codec/stomp/StompFrameDecoder.java:423-457 | the fields are updated as `AppendTo` says, or its exception is returned |
| LineParser.Utf8LineParser.ProcessUtf8 | codec-stomp/src/main/java/io/netty/contrib/handler/codec/stomp/StompFrameDecoder.java:313-351 | the fields are updated byte by byte as `Utf8Process` says: true to go on, false at LF with nothing changed, or TooLongFrameException |
| LineParser.Utf8LineParser.Process | codec-stomp/src/main/java/io/netty/contrib/handler/codec/stomp/StompFrameDecoder.java:402-421 | the header parser's colon handling in front of `ProcessUtf8`, as `ProcessByte` says |
| LineParser.Utf8LineParser.Parse | codec-stomp/src/main/java/io/netty/contrib/handler/codec/stomp/StompFrameDecoder.java:297-307 | the loop over the readable bytes returns what `ParseLine` does and leaves the parser holding that line |
| LineParser.Utf8LineParser.ParseHeaders | codec-stomp/src/main/java/io/netty/contrib/handler/codec/stomp/StompFrameDecoder.java:379-400 | the `for(;;)` loop over header lines returns what `ParseHeaderLines` does |
| LineParserProps.FeedChar1 | codec-stomp/src/main/java/io/netty/contrib/handler/codec/stomp/StompFrameDecoder.java:337-339 | a byte below 0x80 appends itself as a char and counts one byte |
| LineParserProps.FeedChar2 | codec-stomp/src/main/java/io/netty/contrib/handler/codec/stomp/StompFrameDecoder.java:334-343 | `110xxxxx 10xxxxxx` keeps the five high bits in `interim`, then appends the 11-bit char |
| LineParserProps.FeedChar3Lead | codec-stomp/src/main/java/io/netty/contrib/handler/codec/stomp/StompFrameDecoder.java:344-347 | any other lead byte keeps its low four bits as the top of a 16-bit char and awaits the middle byte |
| LineParserProps.FeedChar3Middle | codec-stomp/src/main/java/io/netty/contrib/handler/codec/stomp/StompFrameDecoder.java:331-333 | the middle byte adds the next six bits |
| LineParserProps.FeedChar3Last | codec-stomp/src/main/java/io/netty/contrib/handler/codec/stomp/StompFrameDecoder.java:334-336 | the last byte completes the 16-bit char and appends it |
| LineParserProps.FeedChar | codec-stomp/src/main/java/io/netty/contrib/handler/codec/stomp/StompFrameDecoder.java:328-348 | scanning the UTF-8 form of any char of the Basic Multilingual Plane appends exactly that char and counts its bytes |
| LineParserProps.FeedText | codec-stomp/src/main/java/io/netty/contrib/handler/codec/stomp/StompFrameDecoder.java:313-351 | scanning the UTF-8 form of a text with no line end, surrogate or (in a header) colon feeds its chars to `appendTo` in order and counts its bytes |
| LineParserProps.AppendAllPlain | codec-stomp/src/main/java/io/netty/contrib/handler/codec/stomp/StompFrameDecoder.java:424-428 | without unescaping, or without a backslash, the chars are stored exactly as read |
| LineParserProps.ScanLineEnd | codec-stomp/src/main/java/io/netty/contrib/handler/codec/stomp/StompFrameDecoder.java:315-322 | a CR before the LF is counted but not stored, and the LF ends the line |
| LineParserProps.FeedPlainText | codec-stomp/src/main/java/io/netty/contrib/handler/codec/stomp/StompFrameDecoder.java:313-351 | feeding plain text stores it as it is and counts its bytes |
| LineParserProps.CommandLineRead | codec-stomp/src/main/java/io/netty/contrib/handler/codec/stomp/StompFrameDecoder.java:297-307 | the command parser reads the UTF-8 form of a text (optionally CR, then LF) back as that text and moves the reader past the LF |
| LineParserProps.ScanHeaderName | codec-stomp/src/main/java/io/netty/contrib/handler/codec/stomp/StompFrameDecoder.java:404-411 | the first colon after a non-empty name sets the name aside, is not counted, and makes the line valid |
| LineParserProps.ScanHeaderValue | codec-stomp/src/main/java/io/netty/contrib/handler/codec/stomp/StompFrameDecoder.java:402-421 | after the colon the value is read up to the line end |
| LineParserProps.HeaderLineRead | codec-stomp/src/main/java/io/netty/contrib/handler/codec/stomp/StompFrameDecoder.java:402-421 | the header parser reads `name:value` back as a valid line with that name and value |
| LineParserProps.ParseLineFound | codec-stomp/src/main/java/io/netty/contrib/handler/codec/stomp/StompFrameDecoder.java:304-306 | `parse` returns the line the scan found and moves the reader just past its LF |
| LineParserProps.CommandByte | codec-stomp/src/main/java/io/netty/contrib/handler/codec/stomp/StompFrameDecoder.java:320-326 | a byte other than CR and LF is counted and throws TooLongFrameException exactly when the count passes the limit |
| LineParserProps.CommandScanLimit | codec-stomp/src/main/java/io/netty/contrib/handler/codec/stomp/StompFrameDecoder.java:315-326 | the scan throws, and only with TooLongFrameException, exactly when a counted non-CR byte before the first LF passes the limit; CR is counted but never checked |
| LineParserProps.CommandLineLimit | codec-stomp/src/main/java/io/netty/contrib/handler/codec/stomp/StompFrameDecoder.java:324-326 | `parse` of a command line fails exactly when a counted byte before the LF passes the limit, and a returned line has one counted byte per byte before its LF |
| LineParserProps.Escaped | codec-stomp/src/main/java/io/netty/contrib/handler/codec/stomp/StompFrameDecoder.java:441-447 | the escapes are exactly `\\`, `\c`, `\r`, `\n` |
| LineParserProps.UnescapeAppendAll | codec-stomp/src/main/java/io/netty/contrib/handler/codec/stomp/StompFrameDecoder.java:423-457 | the header parser's char-by-char unescaping agrees with the whole-text STOMP 1.2 decoding: it throws exactly when that decoding fails, and otherwise appends its result |
| LineParserProps.Escape | codec-stomp/src/main/java/io/netty/contrib/handler/codec/stomp/StompFrameDecoder.java:441-447 | STOMP 1.2 escaping never shortens a text |
| LineParserProps.UnescapeEscape | codec-stomp/src/main/java/io/netty/contrib/handler/codec/stomp/StompFrameDecoder.java:430-453 | unescaping undoes STOMP 1.2 escaping |
| DecoderSpec.NewConfig | codec-stomp/src/main/java/io/netty/contrib/handler/codec/stomp/StompFrameDecoder.java:84-90 | the constructor throws unless both limits are positive, and otherwise keeps them as given |
| DecoderSpec.DefaultConfig | codec-stomp/src/main/java/io/netty/contrib/handler/codec/stomp/StompFrameDecoder.java:72-74 | the no-argument decoder has line limit 1024, chunk limit 8132 and no header validation |
| DecoderSpec.Initial | codec-stomp/src/main/java/io/netty/contrib/handler/codec/stomp/StompFrameDecoder.java:63-70 | a new decoder skips control characters, has no pending frames, content length -1 and nothing read |
| DecoderSpec.ResetDecoder | codec-stomp/src/main/java/io/netty/contrib/handler/codec/stomp/StompFrameDecoder.java:275-281 | `resetDecoder()` returns every per-frame field to its initial value |
| DecoderSpec.SkipControl | codec-stomp/src/main/java/io/netty/contrib/handler/codec/stomp/StompFrameDecoder.java:263-273 | only CR and LF bytes are consumed; true with the reader on the first other byte, or false with every byte consumed |
| DecoderSpec.BytesBeforeNul | codec-stomp/src/main/java/io/netty/contrib/handler/codec/stomp/StompFrameDecoder.java:167 | `bytesBefore(NUL)` is the distance to the first NUL, or -1 when no NUL is readable |
| DecoderSpec.HeadersFailure | codec-stomp/src/main/java/io/netty/contrib/handler/codec/stomp/StompFrameDecoder.java:122-133 | a failure while reading headers fires one failed headers frame with the command and headers read so far, and turns the decoder bad |
| DecoderSpec.ContentFailure | codec-stomp/src/main/java/io/netty/contrib/handler/codec/stomp/StompFrameDecoder.java:197-207 | a failure while reading content drops the pending last frame, fires an empty failed last-content frame, and turns the decoder bad |
| DecoderSpec.Finalize | codec-stomp/src/main/java/io/netty/contrib/handler/codec/stomp/StompFrameDecoder.java:187-195 | the finalize step never moves the reader back or past the end |
| DecoderSpec.ReadBody | codec-stomp/src/main/java/io/netty/contrib/handler/codec/stomp/StompFrameDecoder.java:142-186 | the body step never moves the reader back or past the end |
| DecoderSpec.ReadLengthBody | codec-stomp/src/main/java/io/netty/contrib/handler/codec/stomp/StompFrameDecoder.java:152-165 | the content-length branch never moves the reader back or past the end |
| DecoderSpec.ReadNulBody | codec-stomp/src/main/java/io/netty/contrib/handler/codec/stomp/StompFrameDecoder.java:166-185 | the NUL-delimited branch never moves the reader back or past the end |
| DecoderSpec.Body | codec-stomp/src/main/java/io/netty/contrib/handler/codec/stomp/StompFrameDecoder.java:140-196 | the second `switch` never moves the reader back or past the end |
| DecoderSpec.ContentLengthOf | codec-stomp/src/main/java/io/netty/contrib/handler/codec/stomp/StompFrameDecoder.java:242-248 | `getContentLength` succeeds exactly when the parsed length is non-negative, returns it, and otherwise throws |
| DecoderSpec.HeaderBlock | codec-stomp/src/main/java/io/netty/contrib/handler/codec/stomp/StompFrameDecoder.java:113-121 | reading the header block never moves the reader back or past the end |
| DecoderSpec.CommandOf | codec-stomp/src/main/java/io/netty/contrib/handler/codec/stomp/StompFrameDecoder.java:210-226 | the command line is accepted exactly when it is the name of a command other than UNKNOWN, and the command has that name |
| DecoderSpec.ReadHeaderSection | codec-stomp/src/main/java/io/netty/contrib/handler/codec/stomp/StompFrameDecoder.java:101-134 | READ_HEADERS never moves the reader back or past the end |
| DecoderSpec.DecodeStep | codec-stomp/src/main/java/io/netty/contrib/handler/codec/stomp/StompFrameDecoder.java:93-208 | one `decode` call never moves the reader back or past the end |
| DecoderSpec.Run | codec-stomp/src/main/java/io/netty/contrib/handler/codec/stomp/StompFrameDecoder.java:93-208 | the decode loop never moves the reader back or past the end |
| StompDecoder.StompFrameDecoder.SkipControlCharacters | codec-stomp/src/main/java/io/netty/contrib/handler/codec/stomp/StompFrameDecoder.java:263-273 | the `while` loop computes `SkipControl` |
| StompDecoder.StompFrameDecoder.SkipNullCharacter | codec-stomp/src/main/java/io/netty/contrib/handler/codec/stomp/StompFrameDecoder.java:250-261 | false with nothing readable; otherwise one byte is read, true when it is NUL, the unexpected-byte exception otherwise |
| StompDecoder.StompFrameDecoder.constructor | codec-stomp/src/main/java/io/netty/contrib/handler/codec/stomp/StompFrameDecoder.java:84-90 | the decoder is built exactly when `NewConfig` allows it, with its two parsers and the initial fields |
| StompDecoder.StompFrameDecoder.ResetDecoder | codec-stomp/src/main/java/io/netty/contrib/handler/codec/stomp/StompFrameDecoder.java:275-281 | the fields become the initial ones |
| StompDecoder.StompFrameDecoder.ReadCommand | codec-stomp/src/main/java/io/netty/contrib/handler/codec/stomp/StompFrameDecoder.java:210-226 | null without a complete line (reader unchanged), the command of the line, or the exception of `CommandOf` or the parser |
| StompDecoder.StompFrameDecoder.ReadHeaders | codec-stomp/src/main/java/io/netty/contrib/handler/codec/stomp/StompFrameDecoder.java:228-240 | after `parseHeaders`: null while incomplete, the exception of a bad line or negative length, or the next state (FINALIZE for length 0, READ_CONTENT otherwise) with the content length stored; no other field changes |
| StompDecoder.StompFrameDecoder.FailHeaders | codec-stomp/src/main/java/io/netty/contrib/handler/codec/stomp/StompFrameDecoder.java:122-133 | the fields, reader and fired frames become those of `HeadersFailure` |
| StompDecoder.StompFrameDecoder.FailContent | codec-stomp/src/main/java/io/netty/contrib/handler/codec/stomp/StompFrameDecoder.java:197-207 | the fields, reader and fired frames become those of `ContentFailure` |
| StompDecoder.StompFrameDecoder.FinalizeFrame | codec-stomp/src/main/java/io/netty/contrib/handler/codec/stomp/StompFrameDecoder.java:187-195 | FINALIZE_FRAME_READ updates the fields as `Finalize` says |
| StompDecoder.StompFrameDecoder.ReadContentState | codec-stomp/src/main/java/io/netty/contrib/handler/codec/stomp/StompFrameDecoder.java:142-186 | READ_CONTENT updates the fields as `ReadBody` says |
| StompDecoder.StompFrameDecoder.ReadLengthContent | codec-stomp/src/main/java/io/netty/contrib/handler/codec/stomp/StompFrameDecoder.java:152-165 | the content-length branch updates the fields as `ReadLengthBody` says |
| StompDecoder.StompFrameDecoder.ReadNulContent | codec-stomp/src/main/java/io/netty/contrib/handler/codec/stomp/StompFrameDecoder.java:166-185 | the NUL-delimited branch updates the fields as `ReadNulBody` says |
| StompDecoder.StompFrameDecoder.BodyStates | codec-stomp/src/main/java/io/netty/contrib/handler/codec/stomp/StompFrameDecoder.java:140-196 | the second `switch` updates the fields as `Body` says |
| StompDecoder.StompFrameDecoder.ReadHeadersState | codec-stomp/src/main/java/io/netty/contrib/handler/codec/stomp/StompFrameDecoder.java:101-134 | READ_HEADERS updates the fields as `ReadHeaderSection` says |
| StompDecoder.StompFrameDecoder.Decode | codec-stomp/src/main/java/io/netty/contrib/handler/codec/stomp/StompFrameDecoder.java:92-208 | one `decode` call changes the fields, the reader offset and the fired frames exactly as `DecodeStep` says |
| StompDecoder.StompFrameDecoder.DecodeAll | codec-stomp/src/main/java/io/netty/contrib/handler/codec/stomp/StompFrameDecoder.java:92-208 | repeating `decode` while it makes progress yields the fields, offset and frames of `Run` |
| DecoderProps.Chunks | codec-stomp/src/main/java/io/netty/contrib/handler/codec/stomp/StompFrameDecoder.java:148-165 | the chunks of a body, joined, are the body |
| DecoderProps.ChunkSizes | codec-stomp/src/main/java/io/netty/contrib/handler/codec/stomp/StompFrameDecoder.java:148-159 | each chunk of a non-empty body holds 1 to `maxChunkSize` bytes and all but the last exactly `maxChunkSize` |
| DecoderProps.ChunkFrames | codec-stomp/src/main/java/io/netty/contrib/handler/codec/stomp/StompFrameDecoder.java:158-165 | one frame per chunk, the last one a successful last-content frame over the last chunk |
| DecoderProps.ChunkFramesContent | codec-stomp/src/main/java/io/netty/contrib/handler/codec/stomp/StompFrameDecoder.java:158-165 | every frame before the last is a successful content frame over its chunk |
| DecoderProps.BadFrameAbsorbs | codec-stomp/src/main/java/io/netty/contrib/handler/codec/stomp/StompFrameDecoder.java:135-137 | in BAD_FRAME every readable byte is discarded and nothing is fired |
| DecoderProps.BadCommandLine | codec-stomp/src/main/java/io/netty/contrib/handler/codec/stomp/StompFrameDecoder.java:210-226 | a command line that is not the exact name of a command other than UNKNOWN fires one failed UNKNOWN headers frame, turns the decoder bad, and the rest of the input yields nothing |
| DecoderProps.CommandLineTooLong | codec-stomp/src/main/java/io/netty/contrib/handler/codec/stomp/StompFrameDecoder.java:122-133 | a command line over the limit fires the same single failed UNKNOWN headers frame with TooLongFrameException |
| DecoderProps.NegativeContentLengthFails | codec-stomp/src/main/java/io/netty/contrib/handler/codec/stomp/StompFrameDecoder.java:242-248 | a negative content-length fails the headers frame, with the headers read, and turns the decoder bad |
| DecoderProps.ZeroContentLength | codec-stomp/src/main/java/io/netty/contrib/handler/codec/stomp/StompFrameDecoder.java:233-235 | content-length 0 fires the headers frame and, on the NUL, an empty last-content frame, with no content frame |
| DecoderProps.FinalizeOnNul | codec-stomp/src/main/java/io/netty/contrib/handler/codec/stomp/StompFrameDecoder.java:187-195 | on NUL exactly one last-content frame is fired (the pending one, or an empty one from the allocator) and every per-frame field is reset |
| DecoderProps.FinalizeOnOtherByte | codec-stomp/src/main/java/io/netty/contrib/handler/codec/stomp/StompFrameDecoder.java:197-207 | on any other byte the pending frame is dropped, a failed empty last-content frame is fired and the decoder turns bad |
| DecoderProps.ContentLengthLastChunk | codec-stomp/src/main/java/io/netty/contrib/handler/codec/stomp/StompFrameDecoder.java:152-161 | the chunk that completes the content-length is kept back and fired as the last-content frame at the NUL |
| DecoderProps.ContentLengthChunk | codec-stomp/src/main/java/io/netty/contrib/handler/codec/stomp/StompFrameDecoder.java:148-164 | a chunk short of the content-length is `maxChunkSize` bytes, fired as a content frame, and the count grows by it |
| DecoderProps.ContentLengthBody | codec-stomp/src/main/java/io/netty/contrib/handler/codec/stomp/StompFrameDecoder.java:142-165 | with a content-length, the body arrives as its chunks of `maxChunkSize`: content frames, then the last-content frame, and decoding starts afresh after the NUL |
| DecoderProps.NoLengthBody | codec-stomp/src/main/java/io/netty/contrib/handler/codec/stomp/StompFrameDecoder.java:166-185 | without a content-length the body up to the NUL is read in one piece whatever `maxChunkSize` is: one last-content frame (empty for an empty body) and a reset |
| DecoderProps.NoLengthPartialBody | codec-stomp/src/main/java/io/netty/contrib/handler/codec/stomp/StompFrameDecoder.java:166-180 | without a content-length and with no NUL yet, every readable byte is fired as one content frame, again with no chunk bound |
| StompEncoder.HeaderLineBytes | codec-stomp/src/main/java/io/netty/contrib/handler/codec/stomp/StompFrameEncoder.java:117-122 | a header line is the name's bytes, `:`, the value's bytes and LF |
| StompEncoder.HeaderLinesAppend | codec-stomp/src/main/java/io/netty/contrib/handler/codec/stomp/StompFrameEncoder.java:117-123 | the lines of two runs of headers are the lines of the first, then of the second |
| StompEncoder.WriteHeaderLine | codec-stomp/src/main/java/io/netty/contrib/handler/codec/stomp/StompFrameEncoder.java:118-121 | one loop iteration appends exactly that header's line |
| StompEncoder.EncodingAllAppend | codec-stomp/src/main/java/io/netty/contrib/handler/codec/stomp/StompFrameEncoder.java:33-55 | the buffers of a stream of frames are written frame by frame, in order |
| StompEncoder.HeadersSubFrameSize | codec-stomp/src/main/java/io/netty/contrib/handler/codec/stomp/StompFrameEncoder.java:91-98 | the estimate is at least 128, at least `size*34+48` when that reaches 128, never strictly between 128 and 256; 128 for up to two headers, 256 for three to six |
| StompEncoder.FullFrameIsHeadersThenLast | codec-stomp/src/main/java/io/netty/contrib/handler/codec/stomp/StompFrameEncoder.java:101-111 | a full frame is written as its headers frame followed by its body as a last-content frame |
| StompEncoder.EncodingIgnoresResult | codec-stomp/src/main/java/io/netty/contrib/handler/codec/stomp/StompFrameEncoder.java:33-55 | the decoder result plays no part in what is written |
| StompEncoder.WriteHeaderLines | codec-stomp/src/main/java/io/netty/contrib/handler/codec/stomp/StompFrameEncoder.java:117-123 | the loop over the entries appends their lines in iteration order |
| StompEncoder.WriteHeaderBlock | codec-stomp/src/main/java/io/netty/contrib/handler/codec/stomp/StompFrameEncoder.java:113-125 | the command's name, LF, the header lines and the blank line are appended |
| StompEncoder.EncodeHeaders | codec-stomp/src/main/java/io/netty/contrib/handler/codec/stomp/StompFrameEncoder.java:113-125 | `encodeHeaders` appends the command line, one `name:value` line per entry, and the blank line |
| StompEncoder.EncodeFullFrame | codec-stomp/src/main/java/io/netty/contrib/handler/codec/stomp/StompFrameEncoder.java:101-111 | `encodeFullFrame` writes the headers block, the payload's bytes and one NUL into a new buffer |
| StompEncoder.WriteBody | codec-stomp/src/main/java/io/netty/contrib/handler/codec/stomp/StompFrameEncoder.java:105-110 | the payload's bytes, then NUL, are appended |
| StompEncoder.EncodeContent | codec-stomp/src/main/java/io/netty/contrib/handler/codec/stomp/StompFrameEncoder.java:127-136 | a last-content frame becomes its payload and one NUL; a plain content frame its payload unchanged |
| StompEncoder.Encode | codec-stomp/src/main/java/io/netty/contrib/handler/codec/stomp/StompFrameEncoder.java:33-55 | every frame yields exactly one buffer, holding its encoding, which the default hooks pass on unchanged |
| StompAggregator.IsStartMessage | codec-stomp/src/main/java/io/netty/contrib/handler/codec/stomp/StompFrameAggregator.java:45-48 | a message starts with a bare headers frame or a full frame, never with a content frame |
| StompAggregator.IsContentMessage | codec-stomp/src/main/java/io/netty/contrib/handler/codec/stomp/StompFrameAggregator.java:50-54 | every frame but a bare headers frame is content, so each frame is a start or content |
| StompAggregator.IsLastContentMessage | codec-stomp/src/main/java/io/netty/contrib/handler/codec/stomp/StompFrameAggregator.java:56-59 | a last-content message is content, and among content exactly the frames other than a plain content frame end the message |
| StompAggregator.IsAggregated | codec-stomp/src/main/java/io/netty/contrib/handler/codec/stomp/StompFrameAggregator.java:61-64 | a frame is already aggregated exactly when it is both a start and content (a full frame), and it then also ends its message |
| StompAggregator.LengthForContent | codec-stomp/src/main/java/io/netty/contrib/handler/codec/stomp/StompFrameAggregator.java:66-69 | the empty last frame contributes no bytes |
| StompAggregator.LengthForAggregation | codec-stomp/src/main/java/io/netty/contrib/handler/codec/stomp/StompFrameAggregator.java:71-74 | a full frame reports the same length as aggregate and as content |
| StompAggregator.IsContentLengthInvalid | codec-stomp/src/main/java/io/netty/contrib/handler/codec/stomp/StompFrameAggregator.java:76-79 | without a content-length the check fires only for a maximum below -1; with a parsable one it fires exactly when the value exceeds the maximum |
| StompAggregator.Accepts | codec-stomp/src/main/java/io/netty/contrib/handler/codec/stomp/StompFrameAggregator.java:45-64 | `acceptInboundMessage`: a full frame is never accepted, a bare headers frame always is, and a content frame only while a message is open |
| StompAggregator.NoContentLengthIsValid | codec-stomp/src/main/java/io/netty/contrib/handler/codec/stomp/StompFrameAggregator.java:76-79 | without a content-length header the up-front length check never fires |
| StompAggregator.DeclaredContentLength | codec-stomp/src/main/java/io/netty/contrib/handler/codec/stomp/StompFrameAggregator.java:76-79 | a decimal content-length makes the message invalid exactly when it is above the maximum |
| StompAggregator.BeginAggregation | codec-stomp/src/main/java/io/netty/contrib/handler/codec/stomp/StompFrameAggregator.java:96-105 | the aggregate is a full frame with the same command and headers, an empty growable payload, and the headers frame's result |
| StompAggregator.Aggregate | codec-stomp/src/main/java/io/netty/contrib/handler/codec/stomp/StompFrameAggregator.java:107-111 | the chunk's bytes are appended at the end of the aggregate and nothing else changes; the aggregate length grows by the chunk's length |
| StompAggregator.Step | codec-stomp/src/main/java/io/netty/contrib/handler/codec/stomp/StompFrameAggregator.java:45-64 | a full frame passes through untouched; outside a message a non-start frame passes through; a start either begins the aggregate of `beginAggregation` or begins nothing; at most one event per frame |
| StompAggregator.StartStep | codec-stomp/src/main/java/io/netty/contrib/handler/codec/stomp/StompFrameAggregator.java:96-105 | a start hands something downstream exactly when it begins no aggregate, and an aggregate it begins is `beginAggregation`'s |
| StompAggregator.ContentStep | codec-stomp/src/main/java/io/netty/contrib/handler/codec/stomp/StompFrameAggregator.java:107-111 | content after a refused message is dropped silently; an aggregate kept is the old one with the chunk appended |
| StompAggregator.Fold | codec-stomp/src/main/java/io/netty/contrib/handler/codec/stomp/StompFrameAggregator.java:45-111 | the aggregator's invariant holds after any stream, and it never hands on more events than frames |
| StompAggregator.FoldAppend | codec-stomp/src/main/java/io/netty/contrib/handler/codec/stomp/StompFrameAggregator.java:45-111 | aggregating `a + b` is aggregating `a`, then `b` from where `a` left off |
| StompAggregator.Aggregator.constructor | codec-stomp/src/main/java/io/netty/contrib/handler/codec/stomp/StompFrameAggregator.java:41-43 | a new aggregator with the given maximum and no message started |
| StompAggregator.Aggregator.ChannelRead | codec-stomp/src/main/java/io/netty/contrib/handler/codec/stomp/StompFrameAggregator.java:45-111 | one frame updates the message in progress and hands on what `Step` says |
| StompAggregator.Aggregator.ChannelReadAll | codec-stomp/src/main/java/io/netty/contrib/handler/codec/stomp/StompFrameAggregator.java:45-111 | a stream of frames updates the aggregator and hands on what `Fold` says |
| StompAggregator.AggregateContent | codec-stomp/src/main/java/io/netty/contrib/handler/codec/stomp/StompFrameAggregator.java:107-111 | inside a message, content that fits completes the aggregate with every chunk's bytes in order and the last chunk's result |
| StompAggregator.DiscardContent | codec-stomp/src/main/java/io/netty/contrib/handler/codec/stomp/StompFrameAggregator.java:50-54 | content after a refused or dropped message is swallowed until the next start |
| StompAggregator.ContentTooLong | codec-stomp/src/main/java/io/netty/contrib/handler/codec/stomp/StompFrameAggregator.java:41-43 | content whose total would pass the maximum yields a single TooLongFrameException and nothing else, and the rest of the message is swallowed |
| StompAggregator.AggregateMessage | codec-stomp/src/main/java/io/netty/contrib/handler/codec/stomp/StompFrameAggregator.java:96-111 | a message that fits comes out as one full frame with its command and headers, all chunk bytes in order and its last chunk's result, and the aggregator ends idle |
| StompAggregator.AggregateTooLong | codec-stomp/src/test/java/io/netty/contrib/handler/codec/stomp/StompFrameAggregatorTest.java:183-188 | a message whose body does not fit yields one TooLongFrameException and no frame |
| StompAggregator.DeclaredTooLong | codec-stomp/src/main/java/io/netty/contrib/handler/codec/stomp/StompFrameAggregator.java:76-79 | a declared content-length above the maximum is refused before any chunk is looked at |
| StompAggregator.FailedStart | codec-stomp/src/test/java/io/netty/contrib/handler/codec/stomp/StompFrameAggregatorTest.java:149-163 | a failed headers frame becomes, at once, a failed full frame with the same command and headers and an empty body |
| StompAggregator.ChunkingIndependent | codec-stomp/src/test/java/io/netty/contrib/handler/codec/stomp/StompFrameAggregatorTest.java:90-105 | however a body is cut into chunks, the aggregate is the same full frame holding the whole body |
| StompAggregator.ChunkFramesMessage | codec-stomp/src/main/java/io/netty/contrib/handler/codec/stomp/StompFrameAggregator.java:56-59 | the decoder's chunk frames form one message's content and their payloads join to the body |
| StompAggregator.ChunksAggregate | codec-stomp/src/test/java/io/netty/contrib/handler/codec/stomp/StompFrameAggregatorTest.java:107-124 | a body the decoder cut into chunks of any size aggregates back to the body |
| StompAggregator.AggregateMessages | codec-stomp/src/test/java/io/netty/contrib/handler/codec/stomp/StompFrameAggregatorTest.java:126-147 | several fitting messages in a row come out as their full frames, one each, in order |
| RoundTrip.EmptyLineRead | codec-stomp/src/main/java/io/netty/contrib/handler/codec/stomp/StompFrameDecoder.java:386-388 | a lone LF is read as the blank line: no name and no chars |
| RoundTrip.HeaderLineIsWire | codec-stomp/src/main/java/io/netty/contrib/handler/codec/stomp/StompFrameEncoder.java:117-122 | the line the encoder writes for a header is the wire form the header parser reads |
| RoundTrip.ValidLineStep | codec-stomp/src/main/java/io/netty/contrib/handler/codec/stomp/StompFrameDecoder.java:389-390 | a valid header line adds its entry and parsing continues after it |
| RoundTrip.BlankLineStep | codec-stomp/src/main/java/io/netty/contrib/handler/codec/stomp/StompFrameDecoder.java:386-388 | the blank line ends the header block with the entries read so far |
| RoundTrip.HeaderLinesRead | codec-stomp/src/main/java/io/netty/contrib/handler/codec/stomp/StompFrameDecoder.java:379-400 | the header lines the encoder writes, then the blank line, are parsed back into exactly those entries, in order |
| RoundTrip.CommandLineReadBack | codec-stomp/src/main/java/io/netty/contrib/handler/codec/stomp/StompFrameDecoder.java:210-226 | the command line the encoder writes is found with nothing to skip and read back as the same command |
| RoundTrip.BodyState | codec-stomp/src/main/java/io/netty/contrib/handler/codec/stomp/StompFrameDecoder.java:228-240 | once the blank line is read, no frame is pending and nothing of the body is read yet |
| RoundTrip.HeaderBlockDone | codec-stomp/src/main/java/io/netty/contrib/handler/codec/stomp/StompFrameDecoder.java:113-121 | the blank line fires the headers frame and the body state runs in the same call |
| RoundTrip.CommandThenBlock | codec-stomp/src/main/java/io/netty/contrib/handler/codec/stomp/StompFrameDecoder.java:104-113 | once the command line is read, the header block is read in the same call |
| RoundTrip.DecodeHeaders | codec-stomp/src/main/java/io/netty/contrib/handler/codec/stomp/StompFrameDecoder.java:101-134 | the first `decode` call on an encoded frame fires the headers frame as written and goes on with the body |
| RoundTrip.DecodeCommand | codec-stomp/src/main/java/io/netty/contrib/handler/codec/stomp/StompFrameDecoder.java:104-111 | the first `decode` call reads the command line the encoder wrote and starts the header block |
| RoundTrip.DecodeHeaderLines | codec-stomp/src/main/java/io/netty/contrib/handler/codec/stomp/StompFrameDecoder.java:113-121 | the header block the encoder wrote is read back and the headers frame is fired |
| RoundTrip.ContentFrames | codec-stomp/src/main/java/io/netty/contrib/handler/codec/stomp/StompFrameDecoder.java:142-195 | the frames the decoder makes of a body form one message's content |
| RoundTrip.ContentFramesCarryBody | codec-stomp/src/main/java/io/netty/contrib/handler/codec/stomp/StompFrameDecoder.java:142-195 | those frames carry the body's bytes in order and the last one reports success |
| RoundTrip.DecodeBody | codec-stomp/src/main/java/io/netty/contrib/handler/codec/stomp/StompFrameDecoder.java:142-195 | a delimited body yields its content frames and decoding starts afresh after the NUL |
| RoundTrip.EmptyBody | codec-stomp/src/main/java/io/netty/contrib/handler/codec/stomp/StompFrameDecoder.java:184-195 | an empty body is the NUL alone, read as an empty last-content frame from the allocator |
| RoundTrip.DecodeEncodedFrame | codec-stomp/src/main/java/io/netty/contrib/handler/codec/stomp/StompFrameDecoder.java:92-208 | decoding the bytes written for a frame yields the headers frame as written, then the body's content frames, then a fresh start after the NUL |
| RoundTrip.EncodeDecodeAggregate | codec-stomp/src/main/java/io/netty/contrib/handler/codec/stomp/StompFrameEncoder.java:101-111 | encode, decode, aggregate: a full frame whose headers and body read back as written, and whose body fits, comes back as the same full frame, and the decoder ends ready for the next frame |
| RoundTrip.AggregatorAcceptsDeclared | codec-stomp/src/main/java/io/netty/contrib/handler/codec/stomp/StompFrameAggregator.java:76-79 | a content-length the decoder accepts for a body that fits is never refused by the aggregator |
| Vectors.OneHeaderWire | codec-stomp/src/main/java/io/netty/contrib/handler/codec/stomp/StompFrameEncoder.java:101-125 | a full frame with one header and no body is written as the command, LF, `name:value`, LF, LF and NUL |
| Vectors.ConnectedWire | codec-stomp/src/test/java/io/netty/contrib/handler/codec/stomp/StompFrameEncoderTest.java:82-93 | CONNECTED with `version:1.2` is written as `CONNECTED\nversion:1.2\n\n\0` |
| Vectors.ConnectColonsVerbatim | codec-stomp/src/test/java/io/netty/contrib/handler/codec/stomp/StompFrameEncoderTest.java:117-133 | CONNECT headers are written verbatim: `colonHeaderName-::colonHeaderValue-:` |
| Vectors.ChunksOfFive | codec-stomp/src/test/java/io/netty/contrib/handler/codec/stomp/StompFrameDecoderTest.java:104-140 | the 17-byte body is cut into `hello`, `, que`, `ue a!`, `!!`: three content frames and a last-content frame |
| Vectors.DecodeByChunks | codec-stomp/src/test/java/io/netty/contrib/handler/codec/stomp/StompFrameDecoderTest.java:104-140 | the encoded SEND frame with content-length 17, decoded with chunk limit 5, yields the SEND headers frame and those four chunk frames |
| Vectors.TooLongForTen | codec-stomp/src/test/java/io/netty/contrib/handler/codec/stomp/StompFrameAggregatorTest.java:183-188 | an aggregator limited to 10 bytes answers a 15-byte body with TooLongFrameException |

## Left out

- Netty internals that are not part of this model are reconstructed as simple rules:
  - `ByteToMessageDecoder`'s cumulation and loop become `Run`: call `decode` again while bytes
    are readable and the last call consumed some. The driver's DecoderException for a call that
    fires a frame but consumes nothing ("decode() did not read anything but decoded a message")
    is not modelled: `Run` just stops after that call, keeping the frames it fired. Two inputs
    reach it. One is a command line over the limit with no CR or LF before it, since the parser
    leaves the reader where the line began. The other is a `content-length` that is a non-zero
    multiple of 2^32, whose `(int)` cast leaves 0 bytes to read, so each call fires an empty
    content frame without reading.
  - `MessageAggregator`'s driver becomes `StompAggregator.Step`: pass through anything not
    accepted; a start inside an open message fails it (`AggregationFailure`); an invalid
    declared length, or a body growing past the maximum, raises TooLongFrameException and
    swallows the rest of the message; a failed start or a failed or last chunk completes it.
  - `DefaultHeaders` is an ordered list of entries.
  - Buffers are byte sequences with an accessible flag and a read-only flag.
- FullStompFrame.java is not part of this model. A full frame is taken to be both a headers frame
  and a last-content frame, as DefaultFullStompFrame's `payload`, `copy` and `send` indicate.
- Reference counting, `touch`, buffer capacities and the size hint passed to `allocate` are left
  out. `HeadersSubFrameSize` is modelled, but only as the number it computes.
- `toString` and `hashCode` are left out: they are presentation only, and `hashCode` is
  consistent with `equals` by construction.
- `getAsString`, `getAllAsString` and `iteratorAsString` are left out. They are string views of
  the same entries through netty helpers that are not part of this model.
- `newContinueResponse`, `closeAfterContinueResponse` and `ignoreContentAfterContinueResponse`
  are left out. The first returns null and the other two are never reached for STOMP, so they
  add no behaviour.
- Frames.Equals: compares decoder results by value. Java compares them with `Objects.equals`,
  and `DecoderResult` keeps identity equality, so two separate `DecoderResult.failure(e)` objects
  are unequal in Java but equal here. The aggregator's copied failure result is treated the same
  way. Results and their causes carry no identity in this model.
- StompHeadersModel.ParseLong: accepts only the ASCII digits `0`-`9`. `Long.parseLong` also
  accepts every other Unicode decimal digit (`Character.digit(c, 10)`), such as full-width
  `１７`. For a `content-length` written in such digits, the decoder and the aggregator here fall
  back to the default where Java parses the number.
- Object identity and aliasing are left out. Frames and headers are values, so "the same headers
  object" and "an independent copy" are the same statement here. The effect of a later mutation
  on a shared object is not captured.
- The unused `INVALID_CHUNK` decoder state is left out.
- Four-byte UTF-8 in the decoder is left out. The decoder treats every lead byte other than
  `110xxxxx` as the start of a three-byte char. The read-back lemmas are therefore stated for
  text without surrogates, and the encoder's four-byte form of a surrogate pair is only defined.
- Lengths beyond Java's `int` range are handled as follows:
  - `ToInt32` models the `(int)` cast of the remaining length.
  - A split by a negative length, which only an overflowing `content-length` can cause, is
    treated as a decode failure (`SplitOutOfBounds`).
  - The round-trip lemmas require the body length to fit in an `int`.
- The encoder writes header names and values without escaping, while the decoder unescapes them
  for every command except CONNECT and CONNECTED. The round trip is therefore stated for headers
  without backslash, colon, CR or LF. The escaped output that the encoder test expects comes
  from a constant that is not part of this model, and no escaping encoder is modelled.
- A backslash at the very end of a header line is dropped without error, because `reset` clears
  the pending escape. The model keeps that behaviour.
- `MessageAggregator`'s constructor refuses a negative maximum. `Aggregator.constructor` takes
  `0 <= maxContentLength` as a precondition rather than modelling the exception.
- Frames.Copy: states only that the copy's result is success. That it holds the same bytes and
  headers and is open is stated in `CopyEquals`.
- DecoderSpec.Finalize, DecoderSpec.ReadBody, DecoderSpec.ReadLengthBody, DecoderSpec.ReadNulBody,
  DecoderSpec.Body, DecoderSpec.HeaderBlock, DecoderSpec.ReadHeaderSection,
  DecoderSpec.DecodeStep and DecoderSpec.Run: each contract only bounds the reader offset. What
  each fires and how the fields change is stated in the `DecoderProps` and `RoundTrip` lemmas.
- LineParser.ParseHeaderLines: its contract only says the reader moves forward and headers only
  grow. The line-by-line behaviour is stated in `RoundTrip.ValidLineStep`,
  `RoundTrip.BlankLineStep` and `RoundTrip.HeaderLinesRead`.
- LineParserProps.Escape: its own contract states only that escaping never shortens a text. The
  round trip is `UnescapeEscape`.
- StompAggregator.Fold: its own contract states only the invariant and the event bound. What
  whole messages become is stated in `AggregateMessage`, `AggregateTooLong` and
  `AggregateMessages`.
- Headers validation with `validateHeaders` on is modelled in `ParseHeaderLines`, but no lemma
  singles out the two exceptions (empty name, second colon).
