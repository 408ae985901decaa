/**
 * What the line parsers promise: UTF-8 text reads back as itself, CR is counted but never
 * stored, the line limit, the header-line split at the first colon, and unescaping.
 */
module LineParserProps {
  import opened StompTypes
  import opened Utf8
  import opened LineParser

  function Advance(st: LineState, n: nat): LineState
  {
    st.(lineLength := st.lineLength + n)
  }

  /** No UTF-8 sequence is half read. */
  predicate Clean(st: LineState)
  {
    st.interim == 0 && !st.nextRead
  }

  /** A char the parser passes through as text: no line-end char, no surrogate, no colon in a header. */
  predicate PlainChar(mode: Mode, c: JChar)
  {
    c != LF && c != CR && !IsSurrogate(c) && (mode.HeaderLine? ==> c != ':' as int)
  }

  predicate PlainText(mode: Mode, t: Text)
  {
    forall i :: 0 <= i < |t| ==> PlainChar(mode, t[i])
  }

  /** `appendTo` applied to each char of `t` in turn. */
  function AppendAll(mode: Mode, st: LineState, t: Text): (r: Step)
    ensures !r.Stop?
    decreases |t|
  {
    if t == [] then Continue(st)
    else
      var r := AppendTo(mode, st, t[0]);
      if r.Fail? then r else AppendAll(mode, r.st, t[1..])
  }

  /** `appendTo` neither reads nor writes the line length or the UTF-8 state. */
  lemma AppendToFrame(mode: Mode, st: LineState, c: JChar, n: nat, interim: JChar, nextRead: bool)
    ensures var r := AppendTo(mode, st, c);
      var r' := AppendTo(mode, st.(lineLength := st.lineLength + n, interim := interim, nextRead := nextRead), c);
      r'.Fail? == r.Fail? && (r.Fail? ==> r'.cause == r.cause) &&
      (r.Continue? ==> r'.st == r.st.(lineLength := st.lineLength + n, interim := interim, nextRead := nextRead))
  {
  }

  /** One ASCII char from a clean state. */
  lemma FeedChar1(max: int, mode: Mode, st: LineState, c: JChar)
    requires Clean(st) && PlainChar(mode, c) && c < 0x80 && st.lineLength + 1 <= max
    ensures var r := AppendTo(mode, st, c);
      ProcessByte(max, mode, st, c) == if r.Fail? then r else Continue(Advance(r.st, 1))
  {
    AppendToFrame(mode, st, c, 1, 0, false);
  }

  /** One two-byte char from a clean state. */
  lemma FeedChar2(max: int, mode: Mode, st: LineState, c: JChar)
    requires Clean(st) && PlainChar(mode, c) && 0x80 <= c < 0x800 && st.lineLength + 2 <= max
    ensures var b1: byte := 0xC0 + c / 64;
      var s1 := st.(lineLength := st.lineLength + 1, interim := (c / 64) * 64);
      ProcessByte(max, mode, st, b1) == Continue(s1)
    ensures var s1 := st.(lineLength := st.lineLength + 1, interim := (c / 64) * 64);
      var b2: byte := 0x80 + c % 64;
      var r := AppendTo(mode, st, c);
      ProcessByte(max, mode, s1, b2) == if r.Fail? then r else Continue(Advance(r.st, 2))
  {
    var b2: byte := 0x80 + c % 64;
    var s1 := st.(lineLength := st.lineLength + 1, interim := (c / 64) * 64);
    assert b2 % 64 == c % 64;
    BitOrShift6(c / 64, c % 64);
    assert Char(BitOr(s1.interim, b2 % 64)) == c;
    AppendToFrame(mode, st, c, 2, 0, false);
  }

  /** A three-byte char, first byte: the top four bits go to `interim`, the middle byte is awaited. */
  lemma FeedChar3Lead(max: int, mode: Mode, st: LineState, c: JChar)
    requires Clean(st) && PlainChar(mode, c) && 0x800 <= c && st.lineLength + 3 <= max
    ensures var b1: byte := 0xE0 + c / 4096;
      ProcessByte(max, mode, st, b1) ==
        Continue(st.(lineLength := st.lineLength + 1, interim := (c / 4096) * 4096, nextRead := true))
  {
    var b1: byte := 0xE0 + c / 4096;
    assert b1 / 32 == 7 && b1 % 16 == c / 4096;
  }

  /** A three-byte char, middle byte: the next six bits join `interim`. */
  lemma FeedChar3Middle(max: int, mode: Mode, st: LineState, c: JChar)
    requires Clean(st) && PlainChar(mode, c) && 0x800 <= c && st.lineLength + 3 <= max
    ensures var s1 := st.(lineLength := st.lineLength + 1, interim := (c / 4096) * 4096, nextRead := true);
      var b2: byte := 0x80 + (c / 64) % 64;
      ProcessByte(max, mode, s1, b2) == Continue(st.(lineLength := st.lineLength + 2, interim := (c / 64) * 64))
  {
    var q := c / 64;
    var b2: byte := 0x80 + q % 64;
    assert b2 % 64 == q % 64;
    assert c / 4096 == q / 64;
    BitOrShift12(q / 64, (q % 64) * 64);
    assert (q / 64) * 4096 + (q % 64) * 64 == q * 64;
  }

  /** A three-byte char, last byte: the char is complete and appended. */
  lemma FeedChar3Last(max: int, mode: Mode, st: LineState, c: JChar)
    requires Clean(st) && PlainChar(mode, c) && 0x800 <= c && st.lineLength + 3 <= max
    ensures var s2 := st.(lineLength := st.lineLength + 2, interim := (c / 64) * 64);
      var b3: byte := 0x80 + c % 64;
      var r := AppendTo(mode, st, c);
      ProcessByte(max, mode, s2, b3) == if r.Fail? then r else Continue(Advance(r.st, 3))
  {
    var b3: byte := 0x80 + c % 64;
    assert b3 % 64 == c % 64;
    BitOrShift6(c / 64, c % 64);
    assert (c / 64) * 64 != 0;
    AppendToFrame(mode, st, c, 3, 0, false);
  }

  /** One step of the scan. */
  lemma ScanStep(max: int, mode: Mode, st: LineState, bytes: seq<byte>, i: nat)
    requires i < |bytes| && Consistent(st)
    ensures var r := ProcessByte(max, mode, st, bytes[i]);
      (r.Continue? ==> Consistent(r.st) && ScanFrom(max, mode, st, bytes, i) == ScanFrom(max, mode, r.st, bytes, i + 1)) &&
      (r.Fail? ==> ScanFrom(max, mode, st, bytes, i) == Failed(r.cause))
  {
    ProcessConsistent(max, mode, st, bytes[i]);
  }

  /** The scan after a char whose last byte was appended. */
  predicate FedChar(max: int, mode: Mode, st: LineState, c: JChar, bytes: seq<byte>, i: nat)
    requires Consistent(st) && Clean(st)
    requires i + |EncodeChar(c)| <= |bytes|
  {
    var r := AppendTo(mode, st, c);
    var n := |EncodeChar(c)|;
    (r.Fail? ==> ScanFrom(max, mode, st, bytes, i) == Failed(r.cause)) &&
    (r.Continue? ==>
      (Consistent(Advance(r.st, n)) && Clean(Advance(r.st, n)) &&
       ScanFrom(max, mode, st, bytes, i) == ScanFrom(max, mode, Advance(r.st, n), bytes, i + n)))
  }

  lemma FeedCharTwo(max: int, mode: Mode, st: LineState, c: JChar, bytes: seq<byte>, i: nat)
    requires Consistent(st) && Clean(st) && PlainChar(mode, c) && 0x80 <= c < 0x800
    requires i + 2 <= |bytes| && bytes[i..i + 2] == EncodeChar(c)
    requires st.lineLength + 2 <= max
    ensures FedChar(max, mode, st, c, bytes, i)
  {
    var e := EncodeChar(c);
    assert bytes[i] == e[0] && bytes[i + 1] == e[1];
    FeedChar2(max, mode, st, c);
    ScanStep(max, mode, st, bytes, i);
    var s1 := st.(lineLength := st.lineLength + 1, interim := (c / 64) * 64);
    ScanStep(max, mode, s1, bytes, i + 1);
  }

  lemma FeedCharThree(max: int, mode: Mode, st: LineState, c: JChar, bytes: seq<byte>, i: nat)
    requires Consistent(st) && Clean(st) && PlainChar(mode, c) && 0x800 <= c
    requires i + 3 <= |bytes| && bytes[i..i + 3] == EncodeChar(c)
    requires st.lineLength + 3 <= max
    ensures FedChar(max, mode, st, c, bytes, i)
  {
    var e := EncodeChar(c);
    assert bytes[i] == e[0] && bytes[i + 1] == e[1] && bytes[i + 2] == e[2];
    FeedChar3Lead(max, mode, st, c);
    FeedChar3Middle(max, mode, st, c);
    FeedChar3Last(max, mode, st, c);
    var s1 := st.(lineLength := st.lineLength + 1, interim := (c / 4096) * 4096, nextRead := true);
    var s2 := st.(lineLength := st.lineLength + 2, interim := (c / 64) * 64);
    ScanStep(max, mode, st, bytes, i);
    ScanStep(max, mode, s1, bytes, i + 1);
    ScanStep(max, mode, s2, bytes, i + 2);
  }

  /** Scanning the UTF-8 form of one char appends that char (or throws what `appendTo` throws). */
  lemma FeedChar(max: int, mode: Mode, st: LineState, c: JChar, bytes: seq<byte>, i: nat)
    requires Consistent(st) && Clean(st) && PlainChar(mode, c)
    requires i + |EncodeChar(c)| <= |bytes| && bytes[i..i + |EncodeChar(c)|] == EncodeChar(c)
    requires st.lineLength + |EncodeChar(c)| <= max
    ensures FedChar(max, mode, st, c, bytes, i)
  {
    if c < 0x80 {
      assert bytes[i] == c;
      FeedChar1(max, mode, st, c);
      ScanStep(max, mode, st, bytes, i);
    } else if c < 0x800 {
      FeedCharTwo(max, mode, st, c, bytes, i);
    } else {
      FeedCharThree(max, mode, st, c, bytes, i);
    }
  }

  /** `appendTo` over a text ignores the line length: shifting it shifts the result's. */
  lemma {:induction false} AppendAllFrame(mode: Mode, st: LineState, t: Text, n: nat)
    ensures var r := AppendAll(mode, st, t);
      var r' := AppendAll(mode, Advance(st, n), t);
      r'.Fail? == r.Fail? && (r.Fail? ==> r'.cause == r.cause) &&
      (r.Continue? ==> r'.st == Advance(r.st, n))
    decreases |t|
  {
    if t != [] {
      AppendToFrame(mode, st, t[0], n, st.interim, st.nextRead);
      var r1 := AppendTo(mode, st, t[0]);
      if r1.Continue? {
        AppendAllFrame(mode, r1.st, t[1..], n);
      }
    }
  }

  /** `appendTo` over a text keeps the UTF-8 state and the header-name fields. */
  lemma {:induction false} AppendAllKeeps(mode: Mode, st: LineState, t: Text)
    ensures var r := AppendAll(mode, st, t);
      r.Continue? ==> r.st.(chars := st.chars, unescapeInProgress := st.unescapeInProgress) == st
    decreases |t|
  {
    if t != [] {
      var r1 := AppendTo(mode, st, t[0]);
      if r1.Continue? {
        AppendAllKeeps(mode, r1.st, t[1..]);
      }
    }
  }

  /** The scan after a text whose `n` bytes were all fed in. */
  predicate FedText(max: int, mode: Mode, st: LineState, t: Text, n: nat, bytes: seq<byte>, i: nat)
    requires Consistent(st) && Clean(st)
    requires i + n <= |bytes|
  {
    var r := AppendAll(mode, st, t);
    (r.Fail? ==> ScanFrom(max, mode, st, bytes, i) == Failed(r.cause)) &&
    (r.Continue? ==>
      Consistent(Advance(r.st, n)) && Clean(Advance(r.st, n)) &&
      ScanFrom(max, mode, st, bytes, i) == ScanFrom(max, mode, Advance(r.st, n), bytes, i + n))
  }

  /** The induction step of `FeedText`: one char of `e` bytes, then the rest. */
  lemma FeedTextStep(max: int, mode: Mode, st: LineState, t: Text, e: nat, n: nat, bytes: seq<byte>, i: nat)
    requires Consistent(st) && Clean(st) && t != [] && e == |EncodeChar(t[0])| <= n
    requires i + n <= |bytes|
    requires FedChar(max, mode, st, t[0], bytes, i)
    requires var r1 := AppendTo(mode, st, t[0]);
      r1.Continue? ==> FedText(max, mode, Advance(r1.st, e), t[1..], n - e, bytes, i + e)
    ensures FedText(max, mode, st, t, n, bytes, i)
  {
    var r1 := AppendTo(mode, st, t[0]);
    if r1.Fail? {
      assert AppendAll(mode, st, t) == r1;
    } else {
      var s1 := Advance(r1.st, e);
      assert AppendAll(mode, st, t) == AppendAll(mode, r1.st, t[1..]);
      AppendAllFrame(mode, r1.st, t[1..], e);
      var r2 := AppendAll(mode, r1.st, t[1..]);
      var r2' := AppendAll(mode, s1, t[1..]);
      if r2.Continue? {
        assert r2'.st == Advance(r2.st, e);
        assert Advance(r2'.st, n - e) == Advance(r2.st, n);
      }
    }
  }

  /**
   * Scanning the UTF-8 form of a text that holds no line-end char, no surrogate and, on a
   * header line, no colon: the text goes through `appendTo` char by char, and the line length
   * grows by the number of bytes.
   */
  lemma {:induction false} FeedText(max: int, mode: Mode, st: LineState, t: Text, bytes: seq<byte>, i: nat)
    requires Consistent(st) && Clean(st) && PlainText(mode, t)
    requires i + |JavaUtf8(t)| <= |bytes| && bytes[i..i + |JavaUtf8(t)|] == JavaUtf8(t)
    requires st.lineLength + |JavaUtf8(t)| <= max
    ensures FedText(max, mode, st, t, |JavaUtf8(t)|, bytes, i)
    decreases |t|, 2
  {
    if t == [] {
      assert Advance(st, 0) == st;
    } else {
      JavaUtf8Cons(t);
      FeedTextCons(max, mode, st, t, EncodeChar(t[0]), JavaUtf8(t[1..]), bytes, i);
    }
  }

  /** `FeedText` for a non-empty text whose first char encodes to `e` and the rest to `rest`. */
  lemma {:induction false} FeedTextCons(max: int, mode: Mode, st: LineState, t: Text, e: seq<byte>, rest: seq<byte>,
                                        bytes: seq<byte>, i: nat)
    requires Consistent(st) && Clean(st) && PlainText(mode, t) && t != []
    requires e == EncodeChar(t[0]) && rest == JavaUtf8(t[1..])
    requires i + |e| + |rest| <= |bytes| && bytes[i..i + |e| + |rest|] == e + rest
    requires st.lineLength + |e| + |rest| <= max
    ensures FedText(max, mode, st, t, |e| + |rest|, bytes, i)
    decreases |t|, 1
  {
    SliceSplit(bytes, i, e, rest);
    FeedTextTail(max, mode, st, t, e, rest, bytes, i);
    FeedTextStep(max, mode, st, t, |e|, |e| + |rest|, bytes, i);
  }

  /** The first char of `t` is fed in, and after it, when `appendTo` accepted it, the rest of `t`. */
  lemma {:induction false} FeedTextTail(max: int, mode: Mode, st: LineState, t: Text, e: seq<byte>, rest: seq<byte>,
                                        bytes: seq<byte>, i: nat)
    requires Consistent(st) && Clean(st) && PlainText(mode, t) && t != []
    requires e == EncodeChar(t[0]) && rest == JavaUtf8(t[1..])
    requires i + |e| + |rest| <= |bytes| && bytes[i..i + |e|] == e && bytes[i + |e|..i + |e| + |rest|] == rest
    requires st.lineLength + |e| + |rest| <= max
    ensures FedChar(max, mode, st, t[0], bytes, i)
    ensures var r1 := AppendTo(mode, st, t[0]);
      r1.Continue? ==> FedText(max, mode, Advance(r1.st, |e|), t[1..], |rest|, bytes, i + |e|)
    decreases |t|, 0
  {
    FeedChar(max, mode, st, t[0], bytes, i);
    var r1 := AppendTo(mode, st, t[0]);
    if r1.Continue? {
      assert PlainText(mode, t[1..]) by {
        assert forall k :: 0 <= k < |t[1..]| ==> t[1..][k] == t[k + 1];
      }
      FeedText(max, mode, Advance(r1.st, |e|), t[1..], bytes, i + |e|);
    }
  }

  predicate NoBackslash(t: Text)
  {
    forall i :: 0 <= i < |t| ==> t[i] != BACKSLASH
  }

  /** Without unescaping, or without a backslash to act on, `appendTo` stores the text as it is. */
  lemma {:induction false} AppendAllPlain(mode: Mode, st: LineState, t: Text)
    requires mode != HeaderLine(true) || (NoBackslash(t) && !st.unescapeInProgress)
    ensures AppendAll(mode, st, t) == Continue(st.(chars := st.chars + t))
    decreases |t|
  {
    if t != [] {
      var s1 := st.(chars := st.chars + [t[0]]);
      assert AppendTo(mode, st, t[0]) == Continue(s1);
      assert NoBackslash(t) ==> NoBackslash(t[1..]) by {
        assert forall k :: 0 <= k < |t[1..]| ==> t[1..][k] == t[k + 1];
      }
      AppendAllPlain(mode, s1, t[1..]);
      assert st.chars + [t[0]] + t[1..] == st.chars + t;
    }
  }

  /** How a line ends on the wire: an optional CR, then LF. */
  function LineEnd(cr: bool): (bs: seq<byte>)
    ensures |bs| == (if cr then 2 else 1) && bs[|bs| - 1] == LF
  {
    if cr then [CR, LF] else [LF]
  }

  /** The bytes of a line: the UTF-8 form of `t`, an optional CR, then LF. */
  function LineBytes(t: Text, cr: bool): (bs: seq<byte>)
    ensures |bs| == |JavaUtf8(t)| + (if cr then 2 else 1) && bs[|bs| - 1] == LF
  {
    JavaUtf8(t) + LineEnd(cr)
  }

  /** After the text: an optional CR (counted, not stored), then the LF that ends the scan. */
  lemma ScanLineEnd(max: int, mode: Mode, st: LineState, cr: bool, bytes: seq<byte>, i: nat)
    requires Consistent(st)
    requires i + |LineEnd(cr)| <= |bytes| && bytes[i..i + |LineEnd(cr)|] == LineEnd(cr)
    ensures ScanFrom(max, mode, st, bytes, i) ==
      Found(st.(lineLength := st.lineLength + (if cr then 1 else 0)), i + (if cr then 1 else 0))
  {
    assert bytes[i] == LineEnd(cr)[0];
    ScanStep(max, mode, st, bytes, i);
    if cr {
      assert bytes[i + 1] == LineEnd(cr)[1];
      ScanStep(max, mode, st.(lineLength := st.lineLength + 1), bytes, i + 1);
    }
  }

  /** Feeding the UTF-8 form of plain text stores it as it is and counts its bytes. */
  lemma FeedPlainText(max: int, mode: Mode, st: LineState, t: Text, bytes: seq<byte>, i: nat)
    requires Consistent(st) && Clean(st) && PlainText(mode, t)
    requires mode != HeaderLine(true) || (NoBackslash(t) && !st.unescapeInProgress)
    requires i + |JavaUtf8(t)| <= |bytes| && bytes[i..i + |JavaUtf8(t)|] == JavaUtf8(t)
    requires st.lineLength + |JavaUtf8(t)| <= max
    ensures ScanFrom(max, mode, st, bytes, i) ==
      ScanFrom(max, mode, st.(chars := st.chars + t, lineLength := st.lineLength + |JavaUtf8(t)|), bytes, i + |JavaUtf8(t)|)
  {
    FeedText(max, mode, st, t, bytes, i);
    AppendAllPlain(mode, st, t);
  }

  /**
   * The command parser reads a line back: the UTF-8 form of a text without CR, LF or
   * surrogates, within the line limit, yields that text; the CR before the LF is counted only.
   */
  lemma CommandLineRead(max: int, t: Text, cr: bool, bytes: seq<byte>, off: nat)
    requires PlainText(CommandLine, t) && |JavaUtf8(t)| <= max
    requires off + |LineBytes(t, cr)| <= |bytes| && bytes[off..off + |LineBytes(t, cr)|] == LineBytes(t, cr)
    ensures ParseLine(max, CommandLine, bytes, off) ==
      Line(LineState(t, |LineBytes(t, cr)| - 1, 0, false, None, false, false), off + |LineBytes(t, cr)|)
  {
    var n := |JavaUtf8(t)|;
    var c := if cr then 1 else 0;
    SliceSplit(bytes, off, JavaUtf8(t), LineEnd(cr));
    ScanCommandText(max, t, bytes, off);
    ScanLineEnd(max, CommandLine, LineState(t, n, 0, false, None, false, false), cr, bytes, off + n);
    ParseLineFound(max, CommandLine, bytes, off, LineState(t, n + c, 0, false, None, false, false), off + n + c);
  }

  /** The command's bytes from a fresh parser: stored as they are and counted. */
  lemma ScanCommandText(max: int, t: Text, bytes: seq<byte>, off: nat)
    requires PlainText(CommandLine, t) && |JavaUtf8(t)| <= max
    requires off + |JavaUtf8(t)| <= |bytes| && bytes[off..off + |JavaUtf8(t)|] == JavaUtf8(t)
    ensures ScanFrom(max, CommandLine, Reset(), bytes, off) ==
      ScanFrom(max, CommandLine, LineState(t, |JavaUtf8(t)|, 0, false, None, false, false), bytes, off + |JavaUtf8(t)|)
  {
    FeedPlainText(max, CommandLine, Reset(), t, bytes, off);
    assert Reset().(chars := [] + t, lineLength := |JavaUtf8(t)|) == LineState(t, |JavaUtf8(t)|, 0, false, None, false, false);
  }

  /** A header name and its colon: the name is set aside and the line is marked valid. */
  lemma ScanHeaderName(max: int, unescape: bool, name: Text, bytes: seq<byte>, off: nat)
    requires name != [] && PlainText(HeaderLine(unescape), name)
    requires unescape ==> NoBackslash(name)
    requires |JavaUtf8(name)| <= max
    requires off + |JavaUtf8(name)| < |bytes| && bytes[off..off + |JavaUtf8(name)|] == JavaUtf8(name)
    requires bytes[off + |JavaUtf8(name)|] == COLON
    ensures var nn := |JavaUtf8(name)|;
      ScanFrom(max, HeaderLine(unescape), Reset(), bytes, off) ==
      ScanFrom(max, HeaderLine(unescape), LineState([], nn, 0, false, Some(name), true, false), bytes, off + nn + 1)
  {
    var mode := HeaderLine(unescape);
    var nn := |JavaUtf8(name)|;
    FeedPlainText(max, mode, Reset(), name, bytes, off);
    var s1 := LineState(name, nn, 0, false, None, false, false);
    assert Reset().(chars := [] + name, lineLength := nn) == s1;
    var s2 := LineState([], nn, 0, false, Some(name), true, false);
    assert ProcessByte(max, mode, s1, COLON) == Continue(s2);
    ScanStep(max, mode, s1, bytes, off + nn);
  }

  /** A header value after the colon, up to the line end. */
  lemma ScanHeaderValue(max: int, unescape: bool, name: Text, value: Text, cr: bool, nn: nat, bytes: seq<byte>, at: nat)
    requires name != [] && PlainText(HeaderLine(unescape), value)
    requires unescape ==> NoBackslash(value)
    requires nn + |JavaUtf8(value)| <= max
    requires at + |LineBytes(value, cr)| <= |bytes| && bytes[at..at + |LineBytes(value, cr)|] == LineBytes(value, cr)
    ensures var nv := |JavaUtf8(value)|;
      var c := if cr then 1 else 0;
      ScanFrom(max, HeaderLine(unescape), LineState([], nn, 0, false, Some(name), true, false), bytes, at) ==
      Found(LineState(value, nn + nv + c, 0, false, Some(name), true, false), at + nv + c)
  {
    var nv := |JavaUtf8(value)|;
    SliceSplit(bytes, at, JavaUtf8(value), LineEnd(cr));
    ScanValueText(max, unescape, name, value, nn, bytes, at);
    ScanLineEnd(max, HeaderLine(unescape), LineState(value, nn + nv, 0, false, Some(name), true, false), cr, bytes, at + nv);
  }

  /** The value's bytes after the colon: stored as the value and counted. */
  lemma ScanValueText(max: int, unescape: bool, name: Text, value: Text, nn: nat, bytes: seq<byte>, at: nat)
    requires name != [] && PlainText(HeaderLine(unescape), value)
    requires unescape ==> NoBackslash(value)
    requires nn + |JavaUtf8(value)| <= max
    requires at + |JavaUtf8(value)| <= |bytes| && bytes[at..at + |JavaUtf8(value)|] == JavaUtf8(value)
    ensures var nv := |JavaUtf8(value)|;
      ScanFrom(max, HeaderLine(unescape), LineState([], nn, 0, false, Some(name), true, false), bytes, at) ==
      ScanFrom(max, HeaderLine(unescape), LineState(value, nn + nv, 0, false, Some(name), true, false), bytes, at + nv)
  {
    var s2 := LineState([], nn, 0, false, Some(name), true, false);
    FeedPlainText(max, HeaderLine(unescape), s2, value, bytes, at);
    assert s2.(chars := [] + value, lineLength := nn + |JavaUtf8(value)|) ==
      LineState(value, nn + |JavaUtf8(value)|, 0, false, Some(name), true, false);
  }

  /** The wire form of a header line: the name, a colon, the value and the line end. */
  function HeaderLineWire(name: Text, value: Text, cr: bool): (bs: seq<byte>)
    ensures |bs| == |JavaUtf8(name)| + 1 + |LineBytes(value, cr)|
  {
    JavaUtf8(name) + [COLON] + LineBytes(value, cr)
  }

  /**
   * The header parser reads `name:value` back: a non-empty name and a value without CR, LF,
   * colon or surrogates (and, when unescaping, without backslash), within the line limit,
   * yield a valid line with that name and value. The colon is not counted against the limit.
   */
  lemma HeaderLineRead(max: int, unescape: bool, name: Text, value: Text, cr: bool, bytes: seq<byte>, off: nat)
    requires name != [] && PlainText(HeaderLine(unescape), name) && PlainText(HeaderLine(unescape), value)
    requires unescape ==> NoBackslash(name) && NoBackslash(value)
    requires |JavaUtf8(name)| + |JavaUtf8(value)| <= max
    requires off + |HeaderLineWire(name, value, cr)| <= |bytes|
    requires bytes[off..off + |HeaderLineWire(name, value, cr)|] == HeaderLineWire(name, value, cr)
    ensures var n := |HeaderLineWire(name, value, cr)|;
      ParseLine(max, HeaderLine(unescape), bytes, off) ==
        Line(LineState(value, n - 2, 0, false, Some(name), true, false), off + n)
  {
    var en := JavaUtf8(name);
    var nn := |en|;
    var lv := LineBytes(value, cr);
    SliceSplit(bytes, off, en + [COLON], lv);
    SliceSplit(bytes, off, en, [COLON]);
    assert bytes[off + nn] == COLON;
    var c := if cr then 1 else 0;
    var len := nn + |JavaUtf8(value)| + c;
    HeaderLineScan(max, unescape, name, value, cr, bytes, off);
    ParseLineFound(max, HeaderLine(unescape), bytes, off,
                   LineState(value, len, 0, false, Some(name), true, false), off + len + 1);
  }

  /** The scan behind `HeaderLineRead`: the name up to the colon, then the value up to the LF. */
  lemma HeaderLineScan(max: int, unescape: bool, name: Text, value: Text, cr: bool, bytes: seq<byte>, off: nat)
    requires name != [] && PlainText(HeaderLine(unescape), name) && PlainText(HeaderLine(unescape), value)
    requires unescape ==> NoBackslash(name) && NoBackslash(value)
    requires |JavaUtf8(name)| + |JavaUtf8(value)| <= max
    requires off + |JavaUtf8(name)| + 1 + |LineBytes(value, cr)| <= |bytes|
    requires bytes[off..off + |JavaUtf8(name)|] == JavaUtf8(name) && bytes[off + |JavaUtf8(name)|] == COLON
    requires bytes[off + |JavaUtf8(name)| + 1..off + |JavaUtf8(name)| + 1 + |LineBytes(value, cr)|] == LineBytes(value, cr)
    ensures var len := |JavaUtf8(name)| + |JavaUtf8(value)| + (if cr then 1 else 0);
      ScanFrom(max, HeaderLine(unescape), Reset(), bytes, off) ==
        Found(LineState(value, len, 0, false, Some(name), true, false), off + len + 1)
  {
    var nn := |JavaUtf8(name)|;
    ScanHeaderName(max, unescape, name, bytes, off);
    ScanHeaderValue(max, unescape, name, value, cr, nn, bytes, off + nn + 1);
  }

  /** `parse` returns the line the scan found and moves the reader past its LF. */
  lemma ParseLineFound(max: int, mode: Mode, bytes: seq<byte>, off: nat, st: LineState, at: nat)
    requires off <= |bytes| && ScanFrom(max, mode, Reset(), bytes, off) == Found(st, at)
    ensures ParseLine(max, mode, bytes, off) == Line(st, at + 1)
  {
  }

  // ---- the line limit of the command parser ----

  /** A byte that is counted and checked against the limit before the line end. */
  predicate OverLimitAt(max: int, len: int, bytes: seq<byte>, i: nat, k: nat)
    requires i <= k < |bytes|
  {
    bytes[k] != CR && bytes[k] != LF && len + (k - i) + 1 > max &&
    forall j :: i <= j < k ==> bytes[j] != LF
  }

  /** One byte of the command line other than CR and LF: counted, then checked against the limit. */
  lemma CommandByte(max: int, st: LineState, b: byte)
    requires b != CR && b != LF
    ensures var r := ProcessByte(max, CommandLine, st, b);
      (st.lineLength + 1 > max ==> r == Fail(LineTooLong)) &&
      (st.lineLength + 1 <= max ==> r.Continue? && r.st.lineLength == st.lineLength + 1)
  {
  }

  /**
   * The command parser throws TooLongFrameException exactly when some byte other than CR,
   * before the first LF, brings the count past `max`; CR bytes count but are never checked.
   * A line that is found has one counted byte per byte before its LF.
   */
  lemma {:induction false} CommandScanLimit(max: int, st: LineState, bytes: seq<byte>, i: nat)
    requires i <= |bytes| && Consistent(st)
    ensures var r := ScanFrom(max, CommandLine, st, bytes, i);
      (r.Failed? <==> exists k :: i <= k < |bytes| && OverLimitAt(max, st.lineLength, bytes, i, k)) &&
      (r.Failed? ==> r.cause == LineTooLong) &&
      (r.Found? ==> r.st.lineLength == st.lineLength + (r.at - i))
    decreases |bytes| - i
  {
    if i < |bytes| {
      var b := bytes[i];
      ScanStep(max, CommandLine, st, bytes, i);
      if b == LF {
        assert forall k :: i <= k < |bytes| ==> !OverLimitAt(max, st.lineLength, bytes, i, k);
      } else if b == CR {
        var s1 := st.(lineLength := st.lineLength + 1);
        CommandScanLimit(max, s1, bytes, i + 1);
        OverLimitShift(max, st.lineLength, bytes, i, s1.lineLength, i + 1);
      } else {
        CommandByte(max, st, b);
        if st.lineLength + 1 > max {
          assert OverLimitAt(max, st.lineLength, bytes, i, i);
        } else {
          var s1 := ProcessByte(max, CommandLine, st, b).st;
          CommandScanLimit(max, s1, bytes, i + 1);
          OverLimitShift(max, st.lineLength, bytes, i, s1.lineLength, i + 1);
        }
      }
    }
  }

  /** Past a byte that is neither LF nor over the limit, the search for an offending byte moves on by one. */
  lemma OverLimitShift(max: int, len: int, bytes: seq<byte>, i: nat, len1: int, j: nat)
    requires i < |bytes| && bytes[i] != LF && !OverLimitAt(max, len, bytes, i, i)
    requires len1 == len + 1 && j == i + 1
    ensures (exists k :: i <= k < |bytes| && OverLimitAt(max, len, bytes, i, k)) <==>
            (exists k :: j <= k < |bytes| && OverLimitAt(max, len1, bytes, j, k))
  {
    if exists k :: i <= k < |bytes| && OverLimitAt(max, len, bytes, i, k) {
      var k :| i <= k < |bytes| && OverLimitAt(max, len, bytes, i, k);
      assert OverLimitAt(max, len1, bytes, j, k);
    }
    if exists k :: j <= k < |bytes| && OverLimitAt(max, len1, bytes, j, k) {
      var k :| j <= k < |bytes| && OverLimitAt(max, len1, bytes, j, k);
      assert OverLimitAt(max, len, bytes, i, k);
    }
  }

  /**
   * `parse` on the command line: it fails, and only with the line-too-long error, exactly when
   * a counted byte before the LF passes `max`; a line it returns spans `lineLength` bytes before its LF.
   */
  lemma CommandLineLimit(max: int, bytes: seq<byte>, off: nat)
    requires off <= |bytes|
    ensures var r := ParseLine(max, CommandLine, bytes, off);
      (r.LineFailed? <==> exists k :: off <= k < |bytes| && OverLimitAt(max, 0, bytes, off, k)) &&
      (r.LineFailed? ==> r.cause == LineTooLong) &&
      (r.Line? ==> r.st.lineLength == r.next - 1 - off)
  {
    CommandScanLimit(max, Reset(), bytes, off);
  }

  // ---- unescaping (STOMP 1.2, "Value Encoding") ----

  /** The char an escape sequence `\x` stands for, if `x` is one of `\`, `c`, `r`, `n`. */
  function Escaped(x: JChar): (r: Option<JChar>)
    ensures r.Some? <==> x == BACKSLASH || x == 'c' as int || x == 'r' as int || x == 'n' as int
  {
    if x == BACKSLASH then Some(BACKSLASH)
    else if x == 'c' as int then Some(':' as int)
    else if x == 'r' as int then Some(CR)
    else if x == 'n' as int then Some(LF)
    else None
  }

  /**
   * The reference decoding of an escaped header text, written over the whole text: each escape
   * becomes its char, an unknown escape is an error, and a backslash at the very end is dropped.
   */
  function Unescape(t: Text): Option<Text>
    decreases |t|
  {
    if t == [] then Some([])
    else if t[0] != BACKSLASH then
      match Unescape(t[1..])
      case None => None
      case Some(u) => Some([t[0]] + u)
    else if |t| == 1 then Some([])
    else
      match Escaped(t[1])
      case None => None
      case Some(x) =>
        match Unescape(t[2..])
        case None => None
        case Some(u) => Some([x] + u)
  }

  /** True when `t` ends in a backslash that starts an escape. */
  function DanglingEscape(t: Text): bool
    decreases |t|
  {
    if t == [] then false
    else if t[0] != BACKSLASH then DanglingEscape(t[1..])
    else if |t| == 1 then true
    else DanglingEscape(t[2..])
  }

  /**
   * The header parser's char-by-char unescaping agrees with the reference decoding: it throws
   * exactly when the reference has no result, and otherwise appends the reference's result.
   */
  lemma {:induction false} UnescapeAppendAll(st: LineState, t: Text)
    requires !st.unescapeInProgress
    ensures var r := AppendAll(HeaderLine(true), st, t);
      (r.Fail? <==> Unescape(t).None?) &&
      (r.Fail? ==> r.cause == InvalidEscape) &&
      (r.Continue? ==> r.st.chars == st.chars + Unescape(t).value &&
                       r.st.unescapeInProgress == DanglingEscape(t))
    decreases |t|
  {
    var mode := HeaderLine(true);
    if t == [] {
    } else if t[0] != BACKSLASH {
      var s1 := st.(chars := st.chars + [t[0]]);
      assert AppendAll(mode, st, t) == AppendAll(mode, s1, t[1..]);
      UnescapeAppendAll(s1, t[1..]);
      match Unescape(t[1..]) {
        case None =>
        case Some(u) => assert st.chars + [t[0]] + u == st.chars + ([t[0]] + u);
      }
    } else if |t| == 1 {
      var s1 := st.(unescapeInProgress := true);
      assert AppendAll(mode, st, t) == AppendAll(mode, s1, []);
    } else {
      var s1 := st.(unescapeInProgress := true);
      assert AppendAll(mode, st, t) == AppendAll(mode, s1, t[1..]);
      assert t[1..][0] == t[1] && t[1..][1..] == t[2..];
      match Escaped(t[1]) {
        case None =>
          assert AppendTo(mode, s1, t[1]) == Fail(InvalidEscape);
        case Some(x) =>
          var s2 := st.(chars := st.chars + [x]);
          assert AppendTo(mode, s1, t[1]) == Continue(s2);
          assert AppendAll(mode, s1, t[1..]) == AppendAll(mode, s2, t[2..]);
          UnescapeAppendAll(s2, t[2..]);
          match Unescape(t[2..]) {
            case None =>
            case Some(u) => assert st.chars + [x] + u == st.chars + ([x] + u);
          }
      }
    }
  }

  /** The STOMP 1.2 escaping of a header text: backslash, colon, CR and LF become two-char escapes. */
  function Escape(t: Text): (e: Text)
    ensures |e| >= |t|
    decreases |t|
  {
    if t == [] then []
    else
      var c := t[0];
      var head := if c == BACKSLASH then [BACKSLASH, BACKSLASH]
        else if c == ':' as int then [BACKSLASH, 'c' as int]
        else if c == CR then [BACKSLASH, 'r' as int]
        else if c == LF then [BACKSLASH, 'n' as int]
        else [c];
      head + Escape(t[1..])
  }

  /** Unescaping undoes escaping. */
  lemma {:induction false} UnescapeEscape(t: Text)
    ensures Unescape(Escape(t)) == Some(t)
    decreases |t|
  {
    if t != [] {
      var e := Escape(t);
      var rest := Escape(t[1..]);
      UnescapeEscape(t[1..]);
      var c := t[0];
      if c == BACKSLASH || c == ':' as int || c == CR || c == LF {
        assert e[0] == BACKSLASH && |e| >= 2 && e[2..] == rest;
        assert Escaped(e[1]) == Some(c);
      } else {
        assert e[0] == c && e[1..] == rest;
      }
      assert [c] + t[1..] == t;
    }
  }
}
