/** Basic values shared by the STOMP codec: bytes, Java chars, commands, decoder results. */
module StompTypes {

  /** One octet of the wire, as an unsigned value (Java's signed `byte` is re-read as 0..255). */
  type byte = b: int | 0 <= b < 256

  /** One Java `char`: a UTF-16 code unit, surrogates included. */
  type JChar = c: int | 0 <= c < 0x1_0000

  /** A Java character sequence. */
  type Text = seq<JChar>

  datatype Option<+T> = None | Some(value: T)

  datatype Result<+T, +E> = Ok(value: T) | Err(error: E)

  // Byte values of the framing characters.
  const NUL: byte := 0
  const LF: byte := 10
  const CR: byte := 13
  const COLON: byte := 58
  const BACKSLASH: JChar := 92

  const INT_MIN: int := -0x8000_0000
  const INT_MAX: int := 0x7FFF_FFFF
  const LONG_MIN: int := -0x8000_0000_0000_0000
  const LONG_MAX: int := 0x7FFF_FFFF_FFFF_FFFF

  /** Java's `(int)` narrowing of a long: keep the low 32 bits, two's complement. */
  function ToInt32(x: int): (r: int)
    ensures INT_MIN <= r <= INT_MAX
    ensures INT_MIN <= x <= INT_MAX ==> r == x
    ensures (r - x) % 0x1_0000_0000 == 0
  {
    (x - INT_MIN) % 0x1_0000_0000 + INT_MIN
  }

  function Min(a: int, b: int): int { if a < b then a else b }

  /** A window of `s` that holds `a + b` holds `a`, then `b`. */
  lemma SliceSplit<X>(s: seq<X>, off: nat, a: seq<X>, b: seq<X>)
    requires off + |a| + |b| <= |s| && s[off..off + |a| + |b|] == a + b
    ensures s[off..off + |a|] == a && s[off + |a|..off + |a| + |b|] == b
  {
    assert s[off..off + |a|] == s[off..off + |a| + |b|][..|a|];
    assert s[off + |a|..off + |a| + |b|] == s[off..off + |a| + |b|][|a|..];
  }

  /** Concatenation is associative (stated once so that proofs about buffers need not re-derive it). */
  lemma AppendAssoc<X>(a: seq<X>, b: seq<X>, c: seq<X>)
    ensures a + (b + c) == (a + b) + c
  {
  }

  /** Lifts a Dafny string literal to Java chars (code points above U+FFFF become U+FFFD). */
  function T(s: string): (t: Text)
    ensures |t| == |s|
    ensures forall i :: 0 <= i < |s| && s[i] as int < 0x1_0000 ==> t[i] == s[i] as int
  {
    seq(|s|, i requires 0 <= i < |s| => if s[i] as int < 0x1_0000 then s[i] as int else 0xFFFD)
  }

  /** The bytes of an ASCII string literal (other chars are cut to their low eight bits). */
  function Bytes(s: string): (bs: seq<byte>)
    ensures |bs| == |s|
    ensures forall i :: 0 <= i < |s| && s[i] as int < 256 ==> bs[i] == s[i] as int
  {
    seq(|s|, i requires 0 <= i < |s| => (s[i] as int) % 256)
  }

  /** On strings without supplementary characters the lifting loses nothing. */
  lemma TInjective(s1: string, s2: string)
    requires forall i :: 0 <= i < |s1| ==> s1[i] as int < 0x1_0000
    requires forall i :: 0 <= i < |s2| ==> s2[i] as int < 0x1_0000
    requires T(s1) == T(s2)
    ensures s1 == s2
  {
    assert forall i :: 0 <= i < |s1| ==> s1[i] as int == T(s1)[i] == T(s2)[i] == s2[i] as int;
  }

  /** ASCII case folding as netty's case-insensitive hasher does it (only A-Z are folded). */
  function AsciiLower(c: JChar): (r: JChar)
    ensures 'A' as int <= c <= 'Z' as int ==> r == c + 32
    ensures !('A' as int <= c <= 'Z' as int) ==> r == c
  {
    if 'A' as int <= c <= 'Z' as int then c + 32 else c
  }

  predicate EqualsIgnoreCase(a: Text, b: Text)
  {
    |a| == |b| && forall i :: 0 <= i < |a| ==> AsciiLower(a[i]) == AsciiLower(b[i])
  }

  /** The STOMP commands (io.netty's StompCommand enumeration). */
  datatype Command =
    | STOMP | CONNECT | CONNECTED | SEND | SUBSCRIBE | UNSUBSCRIBE | ACK | NACK
    | BEGIN | ABORT | COMMIT | DISCONNECT | MESSAGE | RECEIPT | ERROR | UNKNOWN

  /** `Enum.name()` of a command, as a Dafny string. */
  function NameString(c: Command): string
  {
    match c
    case STOMP => "STOMP"
    case CONNECT => "CONNECT"
    case CONNECTED => "CONNECTED"
    case SEND => "SEND"
    case SUBSCRIBE => "SUBSCRIBE"
    case UNSUBSCRIBE => "UNSUBSCRIBE"
    case ACK => "ACK"
    case NACK => "NACK"
    case BEGIN => "BEGIN"
    case ABORT => "ABORT"
    case COMMIT => "COMMIT"
    case DISCONNECT => "DISCONNECT"
    case MESSAGE => "MESSAGE"
    case RECEIPT => "RECEIPT"
    case ERROR => "ERROR"
    case UNKNOWN => "UNKNOWN"
  }

  /** `Enum.name()` of a command, as Java chars. */
  function Name(c: Command): Text
  {
    T(NameString(c))
  }

  /** Every command, in declaration order (`StompCommand.values()`). */
  const AllCommands: seq<Command> :=
    [STOMP, CONNECT, CONNECTED, SEND, SUBSCRIBE, UNSUBSCRIBE, ACK, NACK,
     BEGIN, ABORT, COMMIT, DISCONNECT, MESSAGE, RECEIPT, ERROR, UNKNOWN]

  /** `AllCommands` lists every command. */
  lemma AllCommandsComplete(c: Command)
    ensures c in AllCommands
  {
    match c
    case STOMP => assert AllCommands[0] == c;
    case CONNECT => assert AllCommands[1] == c;
    case CONNECTED => assert AllCommands[2] == c;
    case SEND => assert AllCommands[3] == c;
    case SUBSCRIBE => assert AllCommands[4] == c;
    case UNSUBSCRIBE => assert AllCommands[5] == c;
    case ACK => assert AllCommands[6] == c;
    case NACK => assert AllCommands[7] == c;
    case BEGIN => assert AllCommands[8] == c;
    case ABORT => assert AllCommands[9] == c;
    case COMMIT => assert AllCommands[10] == c;
    case DISCONNECT => assert AllCommands[11] == c;
    case MESSAGE => assert AllCommands[12] == c;
    case RECEIPT => assert AllCommands[13] == c;
    case ERROR => assert AllCommands[14] == c;
    case UNKNOWN => assert AllCommands[15] == c;
  }

  /** The first command of `cs` whose name is exactly `t`. */
  function FindCommand(t: Text, cs: seq<Command>): (r: Option<Command>)
    ensures r.Some? ==> r.value in cs && Name(r.value) == t
    ensures r.None? ==> forall c :: c in cs ==> Name(c) != t
  {
    if cs == [] then None
    else if Name(cs[0]) == t then Some(cs[0])
    else FindCommand(t, cs[1..])
  }

  /** `StompCommand.valueOf`: exact, case-sensitive match of an enumeration name. */
  function ValueOf(t: Text): (r: Option<Command>)
    ensures r.Some? ==> Name(r.value) == t
  {
    FindCommand(t, AllCommands)
  }

  lemma NameStringInjective(c1: Command, c2: Command)
    requires NameString(c1) == NameString(c2)
    ensures c1 == c2
  {
  }

  /** Command names are plain ASCII. */
  lemma NameStringAscii(c: Command)
    ensures forall i :: 0 <= i < |NameString(c)| ==> 'A' <= NameString(c)[i] <= 'Z'
  {
  }

  /** Two commands with the same name are the same command. */
  lemma NameInjective(c1: Command, c2: Command)
    requires Name(c1) == Name(c2)
    ensures c1 == c2
  {
    NameStringAscii(c1);
    NameStringAscii(c2);
    TInjective(NameString(c1), NameString(c2));
    NameStringInjective(c1, c2);
  }

  lemma {:induction false} FindCommandName(c: Command, cs: seq<Command>)
    requires c in cs
    ensures FindCommand(Name(c), cs) == Some(c)
  {
    if Name(cs[0]) == Name(c) {
      NameInjective(cs[0], c);
    } else {
      FindCommandName(c, cs[1..]);
    }
  }

  /** `valueOf(c.name()) == c` for every command, and `valueOf` accepts nothing but the names. */
  lemma ValueOfName(c: Command, t: Text)
    ensures ValueOf(Name(c)) == Some(c)
    ensures ValueOf(t).None? <==> forall c' :: Name(c') != t
  {
    FindCommandName(c, AllCommands);
    if ValueOf(t).None? {
      forall c' ensures Name(c') != t {
        AllCommandsComplete(c');
      }
    } else {
      assert Name(ValueOf(t).value) == t;
    }
  }

  /** Why a decode (or a frame operation) failed: the exceptions the codec raises. */
  datatype Cause =
    | LineTooLong                  // TooLongFrameException from the line parser
    | UnknownCommand               // readCommand: the line names UNKNOWN
    | InvalidCommand(line: Text)   // readCommand: the line names no command
    | InvalidHeaderLine            // header line without a name (validation on)
    | ProhibitedColon              // header line with a second ':' (validation on)
    | InvalidEscape                // backslash followed by anything but \ c r n
    | NegativeContentLength        // content-length < 0
    | UnexpectedByte(b: byte)      // a byte other than NUL where the frame must end
    | SplitOutOfBounds             // a negative split length after an int overflow
    | FrameTooLong                 // aggregate above the configured maximum

  /** netty's DecoderResult. */
  datatype DecoderResult = Success | Failure(cause: Cause)
  {
    predicate IsFailure() { Failure? }
  }
}
