/**
 * The STOMP header multimap (DefaultStompHeaders over netty's DefaultHeaders):
 * entries kept in insertion order, names compared case-sensitively.
 */
module StompHeadersModel {
  import opened StompTypes

  datatype Header = Header(name: Text, value: Text)

  /** A headers object; its entries in insertion (= iteration) order. */
  datatype StompHeaders = StompHeaders(entries: seq<Header>)

  /** `StompHeaders.CONTENT_LENGTH`. */
  function ContentLength(): (t: Text)
    ensures |t| == 14
  {
    T("content-length")
  }

  /** `new DefaultStompHeaders()`. */
  function Empty(): (h: StompHeaders)
    ensures Size(h) == 0
    ensures forall name :: !Contains(h, name)
  {
    StompHeaders([])
  }

  function Size(h: StompHeaders): nat
  {
    |h.entries|
  }

  /** `contains(name)`: some entry carries exactly this name. */
  function Contains(h: StompHeaders, name: Text): (r: bool)
    ensures r <==> exists v :: Header(name, v) in h.entries
  {
    exists i :: 0 <= i < |h.entries| && h.entries[i].name == name
  }

  /** `getAll(name)`: the values stored under `name`, oldest first. */
  function GetAll(h: StompHeaders, name: Text): (vs: seq<Text>)
    ensures |vs| <= Size(h)
    ensures |vs| == 0 <==> !Contains(h, name)
    ensures forall v :: v in vs ==> Header(name, v) in h.entries
    decreases |h.entries|
  {
    if h.entries == [] then []
    else
      var rest := GetAll(StompHeaders(h.entries[..|h.entries| - 1]), name);
      var last := h.entries[|h.entries| - 1];
      assert forall i :: 0 <= i < |h.entries| - 1 ==> h.entries[..|h.entries| - 1][i] == h.entries[i];
      if last.name == name then rest + [last.value] else rest
  }

  /** `get(name)`: the first value added under `name`, if any. */
  function Get(h: StompHeaders, name: Text): (r: Option<Text>)
    ensures r.Some? <==> Contains(h, name)
    ensures r.Some? ==> r.value == GetAll(h, name)[0]
  {
    var vs := GetAll(h, name);
    if |vs| == 0 then None else Some(vs[0])
  }

  /** `add(name, value)`: appends one entry. */
  function Add(h: StompHeaders, name: Text, value: Text): (r: StompHeaders)
    ensures Size(r) == Size(h) + 1
  {
    StompHeaders(h.entries + [Header(name, value)])
  }

  /** Adding under `name` appends to that name's values and leaves every other name alone. */
  lemma AddGetAll(h: StompHeaders, name: Text, value: Text, other: Text)
    ensures GetAll(Add(h, name, value), name) == GetAll(h, name) + [value]
    ensures other != name ==> GetAll(Add(h, name, value), other) == GetAll(h, other)
    ensures Contains(Add(h, name, value), name)
  {
    var r := Add(h, name, value);
    assert r.entries[..|r.entries| - 1] == h.entries;
    assert r.entries[|r.entries| - 1] == Header(name, value);
  }

  /**
   * `contains(name, value)` and `contains(name, value, ignoreCase)`: some entry with
   * exactly this name has this value, compared exactly or with ASCII case folding.
   */
  function ContainsValue(h: StompHeaders, name: Text, value: Text, ignoreCase: bool): (r: bool)
    ensures !ignoreCase ==> (r <==> Header(name, value) in h.entries)
  {
    exists i :: 0 <= i < |h.entries| && h.entries[i].name == name &&
      (if ignoreCase then EqualsIgnoreCase(h.entries[i].value, value) else h.entries[i].value == value)
  }

  /** The case-sensitive check finds exactly the stored values, the case-insensitive one is wider. */
  lemma ContainsValueCases(h: StompHeaders, name: Text, value: Text)
    ensures ContainsValue(h, name, value, false) <==> value in GetAll(h, name)
    ensures ContainsValue(h, name, value, false) ==> ContainsValue(h, name, value, true)
  {
    GetAllMembers(h, name, value);
    if ContainsValue(h, name, value, false) {
      var i :| 0 <= i < |h.entries| && h.entries[i].name == name && h.entries[i].value == value;
      assert EqualsIgnoreCase(h.entries[i].value, value);
    }
  }

  lemma {:induction false} GetAllMembers(h: StompHeaders, name: Text, value: Text)
    ensures value in GetAll(h, name) <==> Header(name, value) in h.entries
    decreases |h.entries|
  {
    if h.entries != [] {
      var init := StompHeaders(h.entries[..|h.entries| - 1]);
      GetAllMembers(init, name, value);
      assert h.entries == init.entries + [h.entries[|h.entries| - 1]];
    }
  }

  /** The names present in `h`. */
  function Names(h: StompHeaders): (ns: set<Text>)
    ensures forall n :: n in ns <==> Contains(h, n)
  {
    set i | 0 <= i < |h.entries| :: h.entries[i].name
  }

  /**
   * `DefaultHeaders.equals`: same number of entries and, for every name of the left side,
   * the same values in the same order on both sides.
   */
  function Equal(a: StompHeaders, b: StompHeaders): (r: bool)
    ensures r ==> Size(a) == Size(b)
    ensures a.entries == b.entries ==> r
  {
    Size(a) == Size(b) && forall n :: n in Names(a) ==> GetAll(a, n) == GetAll(b, n)
  }

  /** `copy()`: a fresh headers object holding every entry of `h`, added one by one in order. */
  method Copy(h: StompHeaders) returns (c: StompHeaders)
    ensures c.entries == h.entries
    ensures Equal(c, h) && Equal(h, c)
  {
    c := Empty();
    var i := 0;
    while i < |h.entries|
      invariant 0 <= i <= |h.entries|
      invariant c.entries == h.entries[..i]
    {
      c := Add(c, h.entries[i].name, h.entries[i].value);
      i := i + 1;
    }
    assert h.entries[..i] == h.entries;
  }

  /** Equality of headers ignores nothing that `getAll` can observe: equal headers agree on every name. */
  lemma {:induction false} EqualAgrees(a: StompHeaders, b: StompHeaders, n: Text)
    requires Equal(a, b)
    ensures Contains(a, n) ==> GetAll(a, n) == GetAll(b, n) && Get(a, n) == Get(b, n)
  {
    if Contains(a, n) {
      assert n in Names(a);
    }
  }

  /** Name lookup is case-sensitive: a name differing only in case is a different header. */
  lemma CaseSensitiveLookup(value: Text)
    ensures Get(Add(Empty(), T("header-name"), value), T("header-name")) == Some(value)
    ensures Get(Add(Empty(), T("header-name"), value), T("Header-Name")) == None
  {
    var h := Add(Empty(), T("header-name"), value);
    AddGetAll(Empty(), T("header-name"), value, T("Header-Name"));
    assert T("header-name")[0] != T("Header-Name")[0];
  }

  // ---- Long.parseLong, as used by getLong(CONTENT_LENGTH, default) ----

  predicate IsDigit(c: JChar)
  {
    '0' as int <= c <= '9' as int
  }

  /** The value of a run of decimal digits, most significant first. */
  function DigitsValue(s: Text): (v: nat)
    requires forall i :: 0 <= i < |s| ==> IsDigit(s[i])
  {
    if |s| == 0 then 0
    else
      assert IsDigit(s[|s| - 1]);
      DigitsValue(s[..|s| - 1]) * 10 + (s[|s| - 1] - '0' as int)
  }

  /**
   * `Long.parseLong` on ASCII text: an optional sign, at least one digit, a value in the
   * signed 64-bit range; anything else is a NumberFormatException (None).
   */
  function ParseLong(s: Text): (r: Option<int>)
    ensures r.Some? ==> LONG_MIN <= r.value <= LONG_MAX
    ensures |s| == 0 ==> r.None?
  {
    if |s| == 0 then None
    else
      var start := if s[0] == '-' as int || s[0] == '+' as int then 1 else 0;
      var digits := s[start..];
      if |digits| == 0 || !(forall i :: 0 <= i < |digits| ==> IsDigit(digits[i])) then None
      else
        var magnitude: int := DigitsValue(digits);
        var v := if s[0] == '-' as int then -magnitude else magnitude;
        if LONG_MIN <= v <= LONG_MAX then Some(v) else None
  }

  /** The decimal rendering of a natural number (Long.toString for n >= 0). */
  function Decimal(n: nat): (s: Text)
    ensures |s| > 0
    ensures forall i :: 0 <= i < |s| ==> IsDigit(s[i])
  {
    if n < 10 then ['0' as int + n] else Decimal(n / 10) + ['0' as int + n % 10]
  }

  lemma {:induction false} DigitsValueDecimal(n: nat)
    ensures DigitsValue(Decimal(n)) == n
  {
    var s := Decimal(n);
    if n >= 10 {
      DigitsValueDecimal(n / 10);
      assert s[..|s| - 1] == Decimal(n / 10);
    }
  }

  /** Parsing undoes rendering: a content-length written in decimal reads back as itself. */
  lemma ParseLongDecimal(n: nat)
    requires n <= LONG_MAX
    ensures ParseLong(Decimal(n)) == Some(n)
  {
    var s := Decimal(n);
    DigitsValueDecimal(n);
    assert s[0] != '-' as int && s[0] != '+' as int by { assert IsDigit(s[0]); }
    assert s[0..] == s;
  }

  /** `headers.getLong(name, default)`: the first value parsed as a long, or the default. */
  function GetLong(h: StompHeaders, name: Text, default: int): (r: int)
    ensures !Contains(h, name) ==> r == default
    ensures Contains(h, name) && ParseLong(Get(h, name).value).Some? ==> r == ParseLong(Get(h, name).value).value
    ensures Contains(h, name) && ParseLong(Get(h, name).value).None? ==> r == default
  {
    match Get(h, name)
    case None => default
    case Some(v) =>
      match ParseLong(v)
      case None => default
      case Some(n) => n
  }
}
