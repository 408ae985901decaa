/**
 * The bit arithmetic the line parser uses, and UTF-8 as Java's `String.getBytes(UTF_8)`
 * produces it (the encoder writes header text that way; the decoder reads it back).
 */
module Utf8 {
  import opened StompTypes

  function Pow2(k: nat): (p: nat)
    ensures p >= 1
  {
    if k == 0 then 1 else 2 * Pow2(k - 1)
  }

  /** Bitwise `|` of two non-negative integers. */
  function BitOr(a: nat, b: nat): nat
    decreases a + b
  {
    if a == 0 then b
    else if b == 0 then a
    else 2 * BitOr(a / 2, b / 2) + (if a % 2 == 1 || b % 2 == 1 then 1 else 0)
  }

  /** When the bits of `a` and `b` do not overlap, `a | b` is `a + b`. */
  lemma {:induction false} BitOrDisjoint(q: nat, b: nat, k: nat)
    requires b < Pow2(k)
    ensures BitOr(q * Pow2(k), b) == q * Pow2(k) + b
    decreases k
  {
    var a := q * Pow2(k);
    if a == 0 || b == 0 {
    } else {
      assert k > 0;
      var x := q * Pow2(k - 1);
      assert a == 2 * x;
      assert a / 2 == x && a % 2 == 0;
      assert b / 2 < Pow2(k - 1);
      BitOrDisjoint(q, b / 2, k - 1);
      assert BitOr(a, b) == 2 * BitOr(x, b / 2) + b % 2;
    }
  }

  /** `BitOrDisjoint` for the six-bit groups of UTF-8: `(a << 6) | b` for `b < 64`. */
  lemma BitOrShift6(a: nat, b: nat)
    requires b < 64
    ensures BitOr(a * 64, b) == a * 64 + b
  {
    assert Pow2(6) == 64;
    BitOrDisjoint(a, b, 6);
  }

  /** `(a << 12) | b` for `b < 4096`. */
  lemma BitOrShift12(a: nat, b: nat)
    requires b < 4096
    ensures BitOr(a * 4096, b) == a * 4096 + b
  {
    assert Pow2(12) == 4096 by { assert Pow2(6) == 64; assert Pow2(12) == 64 * Pow2(6) by { Pow2Add(6, 6); } }
    BitOrDisjoint(a, b, 12);
  }

  lemma {:induction false} Pow2Add(j: nat, k: nat)
    ensures Pow2(j + k) == Pow2(j) * Pow2(k)
    decreases j
  {
    if j > 0 {
      Pow2Add(j - 1, k);
    }
  }

  /** Java's `(char)` narrowing of an int that is known to be non-negative. */
  function Char(v: nat): (c: JChar)
    ensures v < 0x1_0000 ==> c == v
  {
    v % 0x1_0000
  }

  predicate IsSurrogate(c: JChar) { 0xD800 <= c <= 0xDFFF }
  predicate IsHighSurrogate(c: JChar) { 0xD800 <= c <= 0xDBFF }
  predicate IsLowSurrogate(c: JChar) { 0xDC00 <= c <= 0xDFFF }

  /** The UTF-8 form of one character of the Basic Multilingual Plane (RFC 3629 section 3). */
  function EncodeChar(c: JChar): (bs: seq<byte>)
    ensures 1 <= |bs| <= 3
    ensures c < 0x80 <==> |bs| == 1
    ensures |bs| == 1 ==> bs[0] == c
    ensures forall i :: 0 < i < |bs| ==> 0x80 <= bs[i] < 0xC0
    ensures |bs| > 1 ==> bs[0] >= 0xC0
  {
    if c < 0x80 then [c]
    else if c < 0x800 then [0xC0 + c / 64, 0x80 + c % 64]
    else [0xE0 + c / 4096, 0x80 + (c / 64) % 64, 0x80 + c % 64]
  }

  /** The four-byte UTF-8 form of a supplementary code point. */
  function EncodeSupplementary(cp: int): (bs: seq<byte>)
    requires 0x1_0000 <= cp < 0x11_0000
    ensures |bs| == 4 && bs[0] >= 0xF0
  {
    [0xF0 + cp / 0x4_0000, 0x80 + (cp / 0x1000) % 64, 0x80 + (cp / 64) % 64, 0x80 + cp % 64]
  }

  /**
   * `String.getBytes(UTF_8)`: surrogate pairs become four bytes, a lone surrogate
   * becomes '?', every other char its one- to three-byte form.
   */
  function JavaUtf8(t: Text): seq<byte>
    decreases |t|, 1
  {
    if t == [] then [] else JavaUtf8First(t)
  }

  /** The encoding of a non-empty text: its first char (or surrogate pair), then the rest. */
  function JavaUtf8First(t: Text): seq<byte>
    requires t != []
    decreases |t|, 0
  {
    if IsHighSurrogate(t[0]) && |t| > 1 && IsLowSurrogate(t[1]) then
      var cp: int := 0x1_0000 + (t[0] as int - 0xD800) * 0x400 + (t[1] as int - 0xDC00);
      EncodeSupplementary(cp) + JavaUtf8(t[2..])
    else if IsSurrogate(t[0]) then ['?' as int] + JavaUtf8(t[1..])
    else EncodeChar(t[0]) + JavaUtf8(t[1..])
  }

  /** Text without surrogates: every char is one BMP scalar value. */
  predicate NoSurrogates(t: Text)
  {
    forall i :: 0 <= i < |t| ==> !IsSurrogate(t[i])
  }

  /** On surrogate-free text the encoding goes char by char. */
  lemma JavaUtf8Cons(t: Text)
    requires t != [] && !IsSurrogate(t[0])
    ensures JavaUtf8(t) == EncodeChar(t[0]) + JavaUtf8(t[1..])
  {
  }

  /** ASCII text encodes to itself. */
  lemma {:induction false} JavaUtf8AsciiText(t: Text)
    requires forall i :: 0 <= i < |t| ==> t[i] < 0x80
    ensures JavaUtf8(t) == t
    decreases |t|
  {
    if t != [] {
      JavaUtf8Cons(t);
      JavaUtf8AsciiText(t[1..]);
    }
  }

  lemma NoSurrogatesAppend(a: Text, b: Text)
    requires NoSurrogates(a) && NoSurrogates(b)
    ensures NoSurrogates(a + b)
  {
    assert forall i :: 0 <= i < |a + b| ==> (a + b)[i] == if i < |a| then a[i] else b[i - |a|];
  }

  /** Encoding distributes over concatenation of surrogate-free text. */
  lemma {:induction false} JavaUtf8Append(a: Text, b: Text)
    requires NoSurrogates(a) && NoSurrogates(b)
    ensures JavaUtf8(a + b) == JavaUtf8(a) + JavaUtf8(b)
    decreases |a|
  {
    if a == [] {
      assert a + b == b;
    } else {
      var ab := a + b;
      assert ab[0] == a[0];
      assert ab[1..] == a[1..] + b;
      assert NoSurrogates(a[1..]) by {
        assert forall k :: 0 <= k < |a[1..]| ==> a[1..][k] == a[k + 1];
      }
      JavaUtf8Cons(a);
      JavaUtf8Cons(ab);
      JavaUtf8Append(a[1..], b);
      AppendAssoc(EncodeChar(a[0]), JavaUtf8(a[1..]), JavaUtf8(b));
    }
  }

  /** Only ASCII chars produce bytes below 0x80: a byte such as LF, CR or ':' stands for that char. */
  lemma {:induction false} JavaUtf8Ascii(t: Text, i: nat)
    requires NoSurrogates(t)
    requires i < |JavaUtf8(t)| && JavaUtf8(t)[i] < 0x80
    ensures JavaUtf8(t)[i] in t
    decreases |t|
  {
    JavaUtf8Cons(t);
    var e := EncodeChar(t[0]);
    if i < |e| {
      assert e == [t[0]];
    } else {
      JavaUtf8Ascii(t[1..], i - |e|);
    }
  }
}
