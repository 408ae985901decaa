/**
 * The decoder's line tokenizers: Utf8LineParser (command line) and its HeaderParser
 * extension (header lines), as pure step functions and as the byte processor class
 * that the decoder drives over its input.
 */
module LineParser {
  import opened StompTypes
  import opened Utf8
  import opened StompHeadersModel

  /** Which parser is at work: the command parser, or the header parser with or without unescaping. */
  datatype Mode = CommandLine | HeaderLine(unescape: bool)

  /** The mutable fields of a line parser (the last three belong to HeaderParser). */
  datatype LineState = LineState(
    chars: Text,              // the AppendableCharSequence being filled
    lineLength: int,          // bytes counted so far on this line
    interim: JChar,           // a UTF-8 sequence under construction
    nextRead: bool,           // a three-byte sequence waits for its middle byte
    name: Option<Text>,       // the header name, once a separating colon was seen
    valid: bool,              // the line is a well-formed header line so far
    unescapeInProgress: bool) // a backslash waits for the char it escapes

  /** `reset()`: the state at the start of every line. */
  function Reset(): (st: LineState)
    ensures st.chars == [] && st.lineLength == 0 && st.interim == 0 && !st.nextRead
    ensures st.name.None? && !st.valid && !st.unescapeInProgress
  {
    LineState([], 0, 0, false, None, false, false)
  }

  /** What `process(byte)` does: keep going, stop at the line end, or throw. */
  datatype Step = Continue(st: LineState) | Stop | Fail(cause: Cause)

  /** `shouldUnescape(command)`: every command but CONNECT and CONNECTED has its headers unescaped. */
  function ShouldUnescape(c: Command): (b: bool)
    ensures b <==> c != CONNECT && c != CONNECTED
  {
    c != CONNECT && c != CONNECTED
  }

  function Append(st: LineState, c: JChar): (r: Step)
    ensures r.Continue? && r.st.chars == st.chars + [c]
  {
    Continue(st.(chars := st.chars + [c]))
  }

  /**
   * `appendTo(charSeq, chr)`: the command parser appends the char; the header parser, when
   * unescaping, resolves `\\`, `\c`, `\r`, `\n` and rejects any other escaped char.
   */
  function AppendTo(mode: Mode, st: LineState, c: JChar): (r: Step)
    ensures !r.Stop?
    ensures r.Continue? ==> r.st.(chars := st.chars, unescapeInProgress := st.unescapeInProgress) == st
    ensures r.Fail? <==> mode == HeaderLine(true) && st.unescapeInProgress && c != BACKSLASH &&
                         c != 'c' as int && c != 'r' as int && c != 'n' as int
  {
    if !(mode.HeaderLine? && mode.unescape) then Append(st, c)
    else if c == BACKSLASH then
      if st.unescapeInProgress then Append(st.(unescapeInProgress := false), c)
      else Continue(st.(unescapeInProgress := true))
    else if st.unescapeInProgress then
      if c == 'c' as int then Append(st.(unescapeInProgress := false), ':' as int)
      else if c == 'r' as int then Append(st.(unescapeInProgress := false), CR)
      else if c == 'n' as int then Append(st.(unescapeInProgress := false), LF)
      else Fail(InvalidEscape)
    else Append(st, c)
  }

  /**
   * `Utf8LineParser.process(byte)`: CR is counted and dropped, LF ends the line, any other
   * byte is counted against `max` and decoded: a byte below 0x80 is a char, `110xxxxx` opens
   * a two-byte char, any other lead byte a three-byte char.
   */
  function Utf8Process(max: int, mode: Mode, st: LineState, b: byte): Step
  {
    if b == CR then Continue(st.(lineLength := st.lineLength + 1))
    else if b == LF then Stop
    else if st.lineLength + 1 > max then Fail(LineTooLong)
    else
      var st1 := st.(lineLength := st.lineLength + 1);
      if st1.nextRead then
        Continue(st1.(interim := Char(BitOr(st1.interim, (b % 64) * 64)), nextRead := false))
      else if st1.interim != 0 then
        AppendTo(mode, st1.(interim := 0), Char(BitOr(st1.interim, b % 64)))
      else if b < 0x80 then AppendTo(mode, st1, b)
      else if b / 32 == 6 then Continue(st1.(interim := (b % 32) * 64))
      else Continue(st1.(interim := (b % 16) * 4096, nextRead := true))
  }

  /**
   * `HeaderParser.process(byte)`: the first colon after a non-empty name ends the name and is
   * not counted; a colon with nothing before it records an empty name; a later colon makes the
   * line invalid. Everything else is `Utf8Process`.
   */
  function ProcessByte(max: int, mode: Mode, st: LineState, b: byte): (r: Step)
    ensures r.Stop? <==> b == LF
    ensures r.Continue? && r.st.valid ==> st.valid || (mode.HeaderLine? && b == COLON)
    ensures r.Continue? && mode.CommandLine? ==> r.st.name == st.name && r.st.valid == st.valid
  {
    if mode.HeaderLine? && b == COLON then
      if st.name.None? then
        if |st.chars| != 0 then Continue(st.(name := Some(st.chars), chars := [], valid := true))
        else Utf8Process(max, mode, st.(name := Some([])), b)
      else Utf8Process(max, mode, st.(valid := false), b)
    else Utf8Process(max, mode, st, b)
  }

  /** A header line is marked valid only once it has a non-empty name. */
  predicate Consistent(st: LineState)
  {
    st.valid ==> st.name.Some? && |st.name.value| > 0
  }

  lemma ProcessConsistent(max: int, mode: Mode, st: LineState, b: byte)
    requires Consistent(st)
    ensures ProcessByte(max, mode, st, b).Continue? ==> Consistent(ProcessByte(max, mode, st, b).st)
  {
  }

  /** Where a scan of the readable bytes ends. */
  datatype Scan = Found(st: LineState, at: nat) | NoLine(st: LineState) | Failed(cause: Cause)

  /**
   * The cursor's `process(this)` from index `i`: feeds bytes until one stops the parser (`at`
   * is that byte's index) or throws, or the bytes run out.
   */
  function ScanFrom(max: int, mode: Mode, st: LineState, bytes: seq<byte>, i: nat): (r: Scan)
    requires i <= |bytes|
    requires Consistent(st)
    ensures r.Found? ==> i <= r.at < |bytes| && bytes[r.at] == LF && Consistent(r.st)
    ensures r.Found? ==> forall k :: i <= k < r.at ==> bytes[k] != LF
    ensures r.NoLine? ==> forall k :: i <= k < |bytes| ==> bytes[k] != LF
    decreases |bytes| - i, 1
  {
    if i == |bytes| then NoLine(st) else ScanByte(max, mode, st, bytes, i)
  }

  /** `ScanFrom` at a byte that is there: process it, then go on unless it stopped or threw. */
  function ScanByte(max: int, mode: Mode, st: LineState, bytes: seq<byte>, i: nat): (r: Scan)
    requires i < |bytes|
    requires Consistent(st)
    ensures r.Found? ==> i <= r.at < |bytes| && bytes[r.at] == LF && Consistent(r.st)
    ensures r.Found? ==> forall k :: i <= k < r.at ==> bytes[k] != LF
    ensures r.NoLine? ==> forall k :: i <= k < |bytes| ==> bytes[k] != LF
    decreases |bytes| - i, 0
  {
    ProcessConsistent(max, mode, st, bytes[i]);
    match ProcessByte(max, mode, st, bytes[i])
    case Stop => Found(st, i)
    case Fail(c) => Failed(c)
    case Continue(s) => ScanFrom(max, mode, s, bytes, i + 1)
  }

  /** What `parse(buffer)` returns: null (need more input), a line and the new reader offset, or an exception. */
  datatype LineResult = NeedMore | Line(st: LineState, next: nat) | LineFailed(cause: Cause)

  /**
   * `parse(buffer)`: resets, scans from the reader offset and, when a LF was found, moves the
   * reader offset just past it. Without a LF the offset stays where it was.
   */
  function ParseLine(max: int, mode: Mode, bytes: seq<byte>, off: nat): (r: LineResult)
    requires off <= |bytes|
    ensures r.Line? ==> off < r.next <= |bytes| && bytes[r.next - 1] == LF && Consistent(r.st)
    ensures r.Line? ==> forall k :: off <= k < r.next - 1 ==> bytes[k] != LF
    ensures r.NeedMore? ==> forall k :: off <= k < |bytes| ==> bytes[k] != LF
  {
    match ScanFrom(max, mode, Reset(), bytes, off)
    case Found(st, at) => Line(st, at + 1)
    case NoLine(_) => NeedMore
    case Failed(c) => LineFailed(c)
  }

  /** A line is only ever returned up to the first LF, and a LF is never left unreported. */
  lemma ParseLineNeedsLF(max: int, mode: Mode, bytes: seq<byte>, off: nat)
    requires off <= |bytes|
    ensures (forall k :: off <= k < |bytes| ==> bytes[k] != LF) ==> !ParseLine(max, mode, bytes, off).Line?
    ensures (exists k :: off <= k < |bytes| && bytes[k] == LF) ==> !ParseLine(max, mode, bytes, off).NeedMore?
  {
  }

  // ---- the header block ----

  /** The outcome of `parseHeaders`: the headers gathered so far and the reader offset. */
  datatype HeadersResult =
    | HeadersDone(headers: StompHeaders, next: nat)        // true: the empty line was read
    | HeadersIncomplete(headers: StompHeaders, next: nat)  // false: no complete line left
    | HeadersFailed(cause: Cause, headers: StompHeaders, next: nat)

  /**
   * `parseHeaders(frame, buffer)`: one line at a time; the empty line ends the block, a valid
   * line adds `name: value`, an invalid one is skipped or, with validation on, rejected.
   */
  function ParseHeaderLines(max: int, validate: bool, unescape: bool, headers: StompHeaders,
                            bytes: seq<byte>, off: nat): (r: HeadersResult)
    requires off <= |bytes|
    ensures off <= r.next <= |bytes|
    ensures Size(r.headers) >= Size(headers)
    decreases |bytes| - off
  {
    match ParseLine(max, HeaderLine(unescape), bytes, off)
    case NeedMore => HeadersIncomplete(headers, off)
    case LineFailed(c) => HeadersFailed(c, headers, off)
    case Line(st, next) =>
      if st.name.None? && |st.chars| == 0 then HeadersDone(headers, next)
      else if st.valid then
        ParseHeaderLines(max, validate, unescape, Add(headers, st.name.value, st.chars), bytes, next)
      else if validate then
        HeadersFailed(if st.name.None? || |st.name.value| == 0 then InvalidHeaderLine else ProhibitedColon,
                      headers, next)
      else ParseHeaderLines(max, validate, unescape, headers, bytes, next)
  }

  /** The byte-processor object. One class stands for Utf8LineParser and, with `headerMode`, HeaderParser. */
  class Utf8LineParser {
    const maxLineLength: int
    const headerMode: bool
    const validateHeaders: bool

    var chars: Text
    var lineLength: int
    var interim: JChar
    var nextRead: bool
    var name: Option<Text>
    var valid: bool
    var shouldUnescape: bool
    var unescapeInProgress: bool

    function State(): LineState
      reads this
    {
      LineState(chars, lineLength, interim, nextRead, name, valid, unescapeInProgress)
    }

    function CurrentMode(): Mode
      reads this
    {
      if headerMode then HeaderLine(shouldUnescape) else CommandLine
    }

    constructor (maxLineLength: int, headerMode: bool, validateHeaders: bool)
      ensures this.maxLineLength == maxLineLength && this.headerMode == headerMode
      ensures this.validateHeaders == validateHeaders
      ensures State() == Reset() && !shouldUnescape
    {
      this.maxLineLength := maxLineLength;
      this.headerMode := headerMode;
      this.validateHeaders := validateHeaders;
      chars := [];
      lineLength := 0;
      interim := 0;
      nextRead := false;
      name := None;
      valid := false;
      shouldUnescape := false;
      unescapeInProgress := false;
    }

    /** `reset()`. */
    method ResetLine()
      modifies this
      ensures State() == Reset() && shouldUnescape == old(shouldUnescape)
    {
      name := None;
      valid := false;
      unescapeInProgress := false;
      chars := [];
      lineLength := 0;
      interim := 0;
      nextRead := false;
    }

    /** `appendTo(charSeq, chr)`; returns the exception it throws, if any. */
    method AppendChar(c: JChar) returns (failure: Option<Cause>)
      modifies this
      ensures shouldUnescape == old(shouldUnescape)
      ensures var step := AppendTo(CurrentMode(), old(State()), c);
        (step.Continue? ==> failure.None? && State() == step.st) &&
        (step.Fail? ==> failure == Some(step.cause))
    {
      failure := None;
      if !(headerMode && shouldUnescape) {
        chars := chars + [c];
        return;
      }
      if c == BACKSLASH {
        if unescapeInProgress {
          chars := chars + [c];
          unescapeInProgress := false;
        } else {
          unescapeInProgress := true;
        }
        return;
      }
      if unescapeInProgress {
        if c == 'c' as int {
          chars := chars + [':' as int];
        } else if c == 'r' as int {
          chars := chars + [CR];
        } else if c == 'n' as int {
          chars := chars + [LF];
        } else {
          return Some(InvalidEscape);
        }
        unescapeInProgress := false;
        return;
      }
      chars := chars + [c];
    }

    /** `Utf8LineParser.process(byte)`: true to continue, false at the line end, or the exception. */
    method ProcessUtf8(b: byte) returns (r: Result<bool, Cause>)
      modifies this
      ensures shouldUnescape == old(shouldUnescape)
      ensures var step := Utf8Process(maxLineLength, CurrentMode(), old(State()), b);
        (step.Continue? ==> r == Ok(true) && State() == step.st) &&
        (step.Stop? ==> r == Ok(false) && State() == old(State())) &&
        (step.Fail? ==> r == Err(step.cause))
    {
      if b == CR {
        lineLength := lineLength + 1;
        return Ok(true);
      }
      if b == LF {
        return Ok(false);
      }
      lineLength := lineLength + 1;
      if lineLength > maxLineLength {
        return Err(LineTooLong);
      }
      if nextRead {
        interim := Char(BitOr(interim, (b % 64) * 64));
        nextRead := false;
      } else if interim != 0 {
        var c := Char(BitOr(interim, b % 64));
        interim := 0;
        var failure := AppendChar(c);
        if failure.Some? {
          return Err(failure.value);
        }
      } else if b < 0x80 {
        var failure := AppendChar(b);
        if failure.Some? {
          return Err(failure.value);
        }
      } else if b / 32 == 6 {
        interim := (b % 32) * 64;
      } else {
        interim := (b % 16) * 4096;
        nextRead := true;
      }
      return Ok(true);
    }

    /** `process(byte)`: the header parser's colon handling in front of `ProcessUtf8`. */
    method Process(b: byte) returns (r: Result<bool, Cause>)
      modifies this
      ensures shouldUnescape == old(shouldUnescape)
      ensures var step := ProcessByte(maxLineLength, CurrentMode(), old(State()), b);
        (step.Continue? ==> r == Ok(true) && State() == step.st) &&
        (step.Stop? ==> r == Ok(false) && State() == old(State())) &&
        (step.Fail? ==> r == Err(step.cause))
    {
      if headerMode && b == COLON {
        if name.None? {
          if |chars| != 0 {
            name := Some(chars);
            chars := [];
            valid := true;
            return Ok(true);
          } else {
            name := Some([]);
          }
        } else {
          valid := false;
        }
      }
      r := ProcessUtf8(b);
    }

    /** `parse(buffer)`: one line from the reader offset `off` of the readable bytes. */
    method Parse(bytes: seq<byte>, off: nat) returns (r: LineResult)
      requires off <= |bytes|
      modifies this
      ensures shouldUnescape == old(shouldUnescape)
      ensures r == ParseLine(maxLineLength, CurrentMode(), bytes, off)
      ensures r.Line? ==> State() == r.st
    {
      ResetLine();
      var i := off;
      while i < |bytes|
        invariant off <= i <= |bytes|
        invariant shouldUnescape == old(shouldUnescape)
        invariant Consistent(State())
        invariant ScanFrom(maxLineLength, CurrentMode(), State(), bytes, i)
               == ScanFrom(maxLineLength, CurrentMode(), Reset(), bytes, off)
        decreases |bytes| - i
      {
        ProcessConsistent(maxLineLength, CurrentMode(), State(), bytes[i]);
        var more := Process(bytes[i]);
        match more {
          case Err(c) =>
            return LineFailed(c);
          case Ok(going) =>
            if !going {
              return Line(State(), i + 1);
            }
        }
        i := i + 1;
      }
      return NeedMore;
    }

    /** `parseHeaders(frame, buffer)` for a frame with `command`, adding to its `headers`. */
    method ParseHeaders(command: Command, headers: StompHeaders, bytes: seq<byte>, off: nat)
      returns (r: HeadersResult)
      requires headerMode && off <= |bytes|
      modifies this
      ensures r == ParseHeaderLines(maxLineLength, validateHeaders, ShouldUnescape(command), headers, bytes, off)
    {
      shouldUnescape := ShouldUnescape(command);
      var h := headers;
      var pos := off;
      while true
        invariant pos <= |bytes|
        invariant shouldUnescape == ShouldUnescape(command)
        invariant ParseHeaderLines(maxLineLength, validateHeaders, shouldUnescape, h, bytes, pos)
               == ParseHeaderLines(maxLineLength, validateHeaders, shouldUnescape, headers, bytes, off)
        decreases |bytes| - pos
      {
        var line := Parse(bytes, pos);
        match line {
          case NeedMore =>
            return HeadersIncomplete(h, pos);
          case LineFailed(c) =>
            return HeadersFailed(c, h, pos);
          case Line(_, next) =>
            if name.None? && |chars| == 0 {
              return HeadersDone(h, next);
            }
            if valid {
              h := Add(h, name.value, chars);
            } else if validateHeaders {
              if name.None? || |name.value| == 0 {
                return HeadersFailed(InvalidHeaderLine, h, next);
              }
              return HeadersFailed(ProhibitedColon, h, next);
            }
            pos := next;
        }
      }
    }
  }
}
