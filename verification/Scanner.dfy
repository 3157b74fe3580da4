/**
 The scanning primitives of picohttpparser.c as functions of the buffer and a cursor.
 */
module Scanner {
  import opened Bytes

  /**
   What a primitive answers: a new cursor and a value, or the NULL pointer with `*ret` set to
   -1 (`Bad`) or -2 (`More`).
   */
  datatype Scan<+T> = Done(pos: nat, value: T) | Bad | More {
    predicate IsFailure() { !Done? }
    function PropagateFailure<U>(): (r: Scan<U>)
      requires IsFailure()
      ensures r.Bad? == Bad? && r.More? == More?
    {
      if Bad? then Scan.Bad else Scan.More
    }
    function Extract(): (nat, T)
      requires !IsFailure()
    {
      (pos, value)
    }
  }

  /** A token pointer and its length, as offsets into the buffer. */
  datatype Slice = Slice(from: nat, to: nat)

  /** A slice's bytes. */
  function Text(s: seq<byte>, t: Slice): seq<byte>
    requires t.from <= t.to <= |s|
  {
    s[t.from..t.to]
  }

  /** Where a loop over bytes of class `k` that starts at `i` stops. */
  function Span(s: seq<byte>, i: nat, k: ByteClass): (j: nat)
    requires i <= |s|
    ensures i <= j <= |s|
    ensures forall m | i <= m < j :: In(s[m], k)
    ensures j < |s| ==> !In(s[j], k)
    decreases |s| - i
  {
    if i < |s| && In(s[i], k) then Span(s, i + 1, k) else i
  }

  lemma {:induction false} SpanUnique(s: seq<byte>, i: nat, k: ByteClass, j: nat)
    requires i <= j <= |s|
    requires forall m | i <= m < j :: In(s[m], k)
    requires j < |s| ==> !In(s[j], k)
    ensures Span(s, i, k) == j
    decreases j - i
  {
    if i < j {
      SpanUnique(s, i + 1, k, j);
    }
  }

  /** A loop that stopped before the end of the buffer stops there in every longer buffer too. */
  lemma SpanPrefix(s: seq<byte>, u: seq<byte>, i: nat, k: ByteClass)
    requires s <= u && i <= |s|
    ensures Span(s, i, k) < |s| ==> Span(u, i, k) == Span(s, i, k)
    ensures Span(s, i, k) == |s| ==> Span(u, i, k) >= |s| && Span(u, i, k) == Span(u, |s|, k)
  {
    var j := Span(s, i, k);
    if j < |s| {
      SpanUnique(u, i, k, j);
    } else {
      SpanUnique(u, i, k, Span(u, |s|, k));
    }
  }

  /** CHECK_EOF and EXPECT_CHAR. */
  function Expect(s: seq<byte>, i: nat, c: byte): (r: Scan<()>)
    requires i <= |s|
  {
    if i == |s| then More else if s[i] == c then Done(i + 1, ()) else Bad
  }

  /** A run of EXPECT_CHARs. */
  function ExpectAll(s: seq<byte>, i: nat, t: seq<byte>): (r: Scan<()>)
    requires i <= |s|
  {
    if t <= s[i..] then Done(i + |t|, ()) else if s[i..] <= t then More else Bad
  }

  /** A line end that is either CR LF or a lone LF. */
  function Eol(s: seq<byte>, i: nat): (r: Scan<()>)
    requires i < |s|
    ensures r.Done? ==> i < r.pos <= |s|
  {
    if s[i] == CR then Expect(s, i + 1, LF) else if s[i] == LF then Done(i + 1, ()) else Bad
  }

  /** ADVANCE_TOKEN, with the `++buf` that always follows it. */
  function Token(s: seq<byte>, i: nat): (r: Scan<Slice>)
    requires i <= |s|
    ensures r.Done? ==> i < r.pos <= |s|
  {
    var j := Span(s, i, TokenByte);
    if j == |s| then More else if s[j] == SP then Done(j + 1, Slice(i, j)) else Bad
  }

  /** `get_token_to_eol`. */
  function TokenToEol(s: seq<byte>, i: nat): (r: Scan<Slice>)
    requires i <= |s|
    ensures r.Done? ==> i < r.pos <= |s|
  {
    var j := Span(s, i, ValueByte);
    if j == |s| then More else var (p, _) :- Eol(s, j); Done(p, Slice(i, j))
  }

  /** `parse_int`. */
  function Int(s: seq<byte>, i: nat): (r: Scan<nat>)
    requires i <= |s|
    ensures r.Done? ==> i < r.pos < |s|
  {
    var j := Span(s, i, DigitByte);
    if j == |s| then More else if j == i then Bad else Done(j, DecValue(s[i..j]))
  }

  const VERSION: seq<byte> := "HTTP/1."

  /** `parse_http_version`. */
  function HttpVersion(s: seq<byte>, i: nat): (r: Scan<nat>)
    requires i <= |s|
    ensures r.Done? ==> i < r.pos < |s|
  {
    var (p, _) :- ExpectAll(s, i, VERSION);
    Int(s, p)
  }

  // ---------- Numbers as the C library reads them ----------

  /** `isspace`. */
  predicate IsSpace(c: byte) {
    c == ' ' || '\t' <= c <= '\r'
  }

  /** Where a number may start: `std::stoi` and `atoi` skip white space. */
  function SkipSpace(t: seq<byte>, i: nat): (j: nat)
    requires i <= |t|
    ensures i <= j <= |t|
    decreases |t| - i
  {
    if i < |t| && IsSpace(t[i]) then SkipSpace(t, i + 1) else i
  }

  /** The number at `b`, 0 if there is none. */
  function DigitsFrom(t: seq<byte>, b: nat): nat
    requires b <= |t|
  {
    DecValue(t[b..Span(t, b, DigitByte)])
  }

  /** White space, by its codes. */
  predicate WhiteCodes(t: seq<byte>) {
    forall k | 0 <= k < |t| :: t[k] as int == 0x20 || 9 <= t[k] as int <= 13
  }

  predicate DigitCodes(t: seq<byte>) {
    forall k | 0 <= k < |t| :: 0x30 <= t[k] as int <= 0x39
  }

  /** No sign, or one. */
  predicate IsSign(t: seq<byte>) {
    t == [] || t == "+" || t == "-"
  }

  /** The text of a number for the C library: white space, a sign, digits, and something that is not a digit. */
  predicate NumberText(white: seq<byte>, sign: seq<byte>, digits: seq<byte>, rest: seq<byte>) {
    && WhiteCodes(white) && IsSign(sign) && DigitCodes(digits) && (rest != [] ==> !DigitCodes(rest[..1]))
    && (sign == [] && digits == [] && rest != [] ==>
          !WhiteCodes(rest[..1]) && rest[0] != '+' && rest[0] != '-')
  }

  lemma {:induction false} SkipSpaceAt(t: seq<byte>, i: nat, j: nat)
    requires i <= j <= |t| && (forall k | i <= k < j :: IsSpace(t[k])) && (j < |t| ==> !IsSpace(t[j]))
    ensures SkipSpace(t, i) == j
    decreases j - i
  {
    if i < j {
      SkipSpaceAt(t, i + 1, j);
    }
  }

  lemma WhiteSkipped(t: seq<byte>, i: nat)
    requires i <= |t| && WhiteCodes(t[..i]) && (i < |t| ==> !WhiteCodes(t[i..i + 1]))
    ensures SkipSpace(t, 0) == i
  {
    forall k | 0 <= k < i ensures IsSpace(t[k]) {
      assert t[k] == t[..i][k];
    }
    if i < |t| {
      assert t[i] == t[i..i + 1][0];
    }
    SkipSpaceAt(t, 0, i);
  }

  lemma DigitsSpanned(t: seq<byte>, b: nat, e: nat)
    requires b <= e <= |t| && DigitCodes(t[b..e]) && (e < |t| ==> !DigitCodes(t[e..e + 1]))
    ensures Span(t, b, DigitByte) == e && AllIn(t[b..e], DigitByte) && DigitsFrom(t, b) == DecValue(t[b..e])
  {
    forall k | b <= k < e ensures In(t[k], DigitByte) {
      assert t[k] == t[b..e][k - b];
    }
    if e < |t| {
      assert t[e] == t[e..e + 1][0];
    }
    SpanUnique(t, b, DigitByte, e);
  }

  /** The byte behind the white space. */
  lemma SignOrDigit(sign: seq<byte>, digits: seq<byte>, rest: seq<byte>)
    requires NumberText([], sign, digits, rest) && sign + (digits + rest) != []
    ensures var c := (sign + (digits + rest))[0];
            !WhiteCodes([c]) && (sign != [] <==> c == '-' || c == '+') && (sign != [] ==> c == sign[0])
  {
    var c := (sign + (digits + rest))[0];
    assert [c][0] == c;
    if sign == [] {
      if digits != [] {
        assert c == digits[0];
      } else {
        assert rest[..1] == [c];
      }
    }
  }

  /** Where its parts are found. */
  lemma NumberParts(white: seq<byte>, sign: seq<byte>, digits: seq<byte>, rest: seq<byte>)
    requires NumberText(white, sign, digits, rest)
    ensures var t := white + (sign + (digits + rest)); var i := |white|; var b := i + |sign|;
            && SkipSpace(t, 0) == i
            && (sign != [] <==> i < |t| && (t[i] == '-' || t[i] == '+')) && (sign != [] ==> t[i] == sign[0])
            && b <= |t| && Span(t, b, DigitByte) == b + |digits|
            && AllIn(digits, DigitByte) && DigitsFrom(t, b) == DecValue(digits)
  {
    hide WhiteCodes, DigitCodes, DigitsFrom, Span, SkipSpace, IsSign, DecValue;
    var tail := sign + (digits + rest);
    var t := white + tail;
    var i, b := |white|, |white| + |sign|;
    var e := b + |digits|;
    assert t[..i] == white && t[i..] == tail;
    assert t[b..] == digits + rest by {
      assert tail[|sign|..] == digits + rest;
    }
    assert t[b..e] == digits;
    if i < |t| {
      NoWhite();
      SignOrDigit(sign, digits, rest);
      assert t[i] == tail[0] && t[i..i + 1] == [tail[0]];
    }
    WhiteSkipped(t, i);
    if e < |t| {
      assert t[e..e + 1] == rest[..1];
    }
    DigitsSpanned(t, b, e);
  }

  lemma NoWhite()
    ensures WhiteCodes([])
  {
  }
}
