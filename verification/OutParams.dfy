/**
 The out-parameters of `phr_parse_request` and `phr_parse_response` wherever parsing stops, by the bytes of the buffer:
 which of them are set, and to what. Bytes are given by their codes and texts as they are written.
 */
module OutParams {
  import opened Bytes
  import opened Scanner
  import opened Message

  predicate IsLead(t: seq<byte>) {
    t == [] || t == "\n" || t == "\r\n"
  }

  predicate TokenCodes(t: seq<byte>) {
    forall k | 0 <= k < |t| :: 0x21 <= t[k] as int && t[k] as int != 0x7F
  }

  predicate ValueCodes(t: seq<byte>) {
    forall k | 0 <= k < |t| :: t[k] as int == 9 || (0x20 <= t[k] as int && t[k] as int != 0x7F)
  }

  predicate Closes(t: seq<byte>) {
    "\n" <= t || "\r\n" <= t
  }

  /** `s[p..q]` is a token, and a space ends it. */
  predicate TokenAt(s: seq<byte>, p: nat, q: nat) {
    p <= q < |s| && TokenCodes(s[p..q]) && s[q] == ' '
  }

  /** `s[p..q]` is a run of digits, and another byte ends it. */
  predicate NumberAt(s: seq<byte>, p: nat, q: nat) {
    p < q < |s| && DigitCodes(s[p..q]) && !DigitCodes(s[q..q + 1])
  }

  predicate VersionAt(s: seq<byte>, p: nat, q: nat) {
    p + 7 <= |s| && s[p..p + 7] == "HTTP/1." && NumberAt(s, p + 7, q)
  }

  /** `s[p..q]` has no control byte but tabs, and a line end ends it. */
  predicate LineAt(s: seq<byte>, p: nat, q: nat) {
    p <= q < |s| && ValueCodes(s[p..q]) && Closes(s[q..])
  }

  /** What `parse_int` leaves in an `int`. */
  function NumberOf(t: seq<byte>): int {
    if DigitCodes(t) then DigitsAreDigits(t); ToInt(DecValue(t)) else 0
  }

  lemma DigitsAreDigits(t: seq<byte>)
    ensures DigitCodes(t) <==> AllIn(t, DigitByte)
  {
    forall k | 0 <= k < |t| ensures In(t[k], DigitByte) <==> 0x30 <= t[k] as int <= 0x39 {
    }
    if AllIn(t, DigitByte) {
      assert forall k | 0 <= k < |t| :: In(t[k], DigitByte);
    }
  }

  lemma TokenIs(s: seq<byte>, p: nat, q: nat)
    requires p <= |s|
    ensures TokenAt(s, p, q) <==> Token(s, p) == Done(q + 1, Slice(p, q))
  {
    var j := Span(s, p, TokenByte);
    if TokenAt(s, p, q) {
      forall k | p <= k < q ensures In(s[k], TokenByte) {
        assert s[k] == s[p..q][k - p];
      }
      SpanUnique(s, p, TokenByte, q);
    }
    if Token(s, p) == Done(q + 1, Slice(p, q)) {
      forall k | 0 <= k < |s[p..q]| ensures 0x21 <= s[p..q][k] as int && s[p..q][k] as int != 0x7F {
        assert In(s[p + k], TokenByte);
      }
    }
  }

  lemma NumberIs(s: seq<byte>, p: nat, q: nat)
    requires p <= |s|
    ensures NumberAt(s, p, q) <==> Int(s, p).Done? && Int(s, p).pos == q
    ensures NumberAt(s, p, q) ==> NumberOf(s[p..q]) == ToInt(Int(s, p).value)
  {
    if NumberAt(s, p, q) {
      DigitsAreDigits(s[p..q]);
      forall k | p <= k < q ensures In(s[k], DigitByte) {
        assert s[k] == s[p..q][k - p];
      }
      assert s[q..q + 1][0] == s[q];
      SpanUnique(s, p, DigitByte, q);
    }
    if Int(s, p).Done? && Int(s, p).pos == q {
      assert s[q..q + 1][0] == s[q];
      assert AllIn(s[p..q], DigitByte);
      DigitsAreDigits(s[p..q]);
    }
  }

  lemma VersionIs(s: seq<byte>, p: nat, q: nat)
    requires p <= |s|
    ensures VersionAt(s, p, q) <==> HttpVersion(s, p).Done? && HttpVersion(s, p).pos == q
    ensures VersionAt(s, p, q) ==> NumberOf(s[p + 7..q]) == ToInt(HttpVersion(s, p).value)
  {
    hide Int, NumberAt;
    assert |VERSION| == 7;
    assert VERSION <= s[p..] <==> p + 7 <= |s| && s[p..p + 7] == VERSION by {
      if p + 7 <= |s| {
        assert s[p..][..7] == s[p..p + 7];
      }
    }
    if p + 7 <= |s| {
      NumberIs(s, p + 7, q);
    }
  }

  lemma LineIs(s: seq<byte>, p: nat, q: nat)
    requires p <= |s|
    ensures LineAt(s, p, q) <==> TokenToEol(s, p).Done? && TokenToEol(s, p).value == Slice(p, q)
  {
    var j := Span(s, p, ValueByte);
    if LineAt(s, p, q) {
      assert s[q] == s[q..][0];
      assert "\r\n" <= s[q..] ==> s[q + 1] == s[q..][1] == "\r\n"[1];
      forall k | p <= k < q ensures In(s[k], ValueByte) {
        assert s[k] == s[p..q][k - p];
      }
      SpanUnique(s, p, ValueByte, q);
    }
    if TokenToEol(s, p).Done? && TokenToEol(s, p).value == Slice(p, q) {
      forall k | 0 <= k < |s[p..q]|
        ensures var c := s[p..q][k] as int; c == 9 || (0x20 <= c && c != 0x7F)
      {
        assert In(s[p + k], ValueByte);
      }
      assert s[q] == '\n' ==> "\n" <= s[q..];
      assert s[q] == '\r' ==> "\r\n" <= s[q..];
    }
  }

  lemma LeadIs(s: seq<byte>, a: nat, b: nat)
    ensures a <= |s| && IsLead(s[..a]) && TokenAt(s, a, b) <==>
              LeadingEol(s).Done? && LeadingEol(s).pos == a && TokenAt(s, a, b)
  {
    if a <= |s| && TokenAt(s, a, b) {
      assert a > 0 ==> s[0] == s[..a][0];
      assert a == 2 ==> s[1] == s[..a][1];
      if a == 0 {
        assert b > 0 ==> s[0] == s[0..b][0];
      }
    }
  }

  /** The method is set exactly when a token and a space follow an optional line end, whatever comes then. */
  lemma MethodSet(s: seq<byte>, a: nat, b: nat)
    ensures RequestFields(s).verb == Some(Slice(a, b)) <==> a <= |s| && IsLead(s[..a]) && TokenAt(s, a, b)
  {
    hide TokenAt, Token, IsLead, LeadingEol, HttpVersion;
    LeadIs(s, a, b);
    var p := LeadingEol(s);
    if p.Done? {
      TokenIs(s, p.pos, b);
      FromStart(s, p.pos);
    }
  }

  lemma FromStart(s: seq<byte>, p: nat)
    requires p <= |s|
    ensures Token(s, p).Done? ==> Token(s, p).value.from == p && Token(s, p).pos == Token(s, p).value.to + 1
  {
  }

  /** The path is set exactly when the method is and another token and a space follow. */
  lemma PathSet(s: seq<byte>, p: nat, q: nat)
    ensures RequestFields(s).path == Some(Slice(p, q)) <==>
              RequestFields(s).verb.Some? && p == RequestFields(s).verb.value.to + 1 && TokenAt(s, p, q)
  {
    hide TokenAt, Token, LeadingEol, HttpVersion;
    var e := LeadingEol(s);
    if e.Done? {
      FromStart(s, e.pos);
      var t := Token(s, e.pos);
      if t.Done? {
        TokenIs(s, t.pos, q);
        FromStart(s, t.pos);
      }
    }
  }

  /** The minor version is the number behind the path, as soon as that has ended, and -1 before. */
  lemma MinorSet(s: seq<byte>, p: nat)
    requires RequestFields(s).path.Some? ==> p == RequestFields(s).path.value.to + 1
    ensures RequestFields(s).path.Some? ==>
              forall k: nat | VersionAt(s, p, k) :: RequestFields(s).minor == NumberOf(s[p + 7..k])
    ensures RequestFields(s).path.None? || (forall k: nat :: !VersionAt(s, p, k)) ==> RequestFields(s).minor == -1
  {
    hide TokenAt, Token, LeadingEol, HttpVersion, VersionAt, NumberOf;
    var e := LeadingEol(s);
    if e.Done? && Token(s, e.pos).Done? {
      var q := Token(s, e.pos).pos;
      if Token(s, q).Done? {
        FromStart(s, q);
        VersionsAre(s, p);
      }
    }
  }

  lemma VersionsAre(s: seq<byte>, p: nat)
    requires p <= |s|
    ensures forall k: nat | VersionAt(s, p, k) ::
              && p + 7 <= k <= |s| && HttpVersion(s, p).Done? && HttpVersion(s, p).pos == k
              && NumberOf(s[p + 7..k]) == ToInt(HttpVersion(s, p).value)
    ensures (forall k: nat :: !VersionAt(s, p, k)) ==> !HttpVersion(s, p).Done?
  {
    hide HttpVersion, NumberOf;
    forall k: nat | VersionAt(s, p, k)
      ensures HttpVersion(s, p).Done? && HttpVersion(s, p).pos == k
      ensures NumberOf(s[p + 7..k]) == ToInt(HttpVersion(s, p).value)
    {
      VersionIs(s, p, k);
    }
    if HttpVersion(s, p).Done? {
      VersionIs(s, p, HttpVersion(s, p).pos);
    }
  }

  /** Of a response nothing is set before the number of the version has ended. */
  lemma VersionSet(s: seq<byte>)
    ensures (forall k: nat :: !VersionAt(s, 0, k)) ==> ResponseFields(s) == ResponseOut(-1, 0, None)
    ensures forall k: nat | VersionAt(s, 0, k) :: ResponseFields(s).minor == NumberOf(s[7..k])
  {
    hide HttpVersion, VersionAt, Int, NumberOf, TokenToEol;
    VersionsAre(s, 0);
  }

  /** The status is not set before a space and a number that has ended. */
  lemma StatusUnset(s: seq<byte>, k: nat, p: nat)
    requires VersionAt(s, 0, k) && p == k + 1
    requires s[k] != ' ' || forall m: nat :: !NumberAt(s, p, m)
    ensures ResponseFields(s).status == 0 && ResponseFields(s).msg == None
  {
    hide HttpVersion, VersionAt, Int, NumberAt, NumberOf, TokenToEol;
    VersionIs(s, 0, k);
    if s[k] == ' ' && Int(s, p).Done? {
      NumberIs(s, p, Int(s, p).pos);
    }
  }

  /** The message is set when a space stands behind the status and the line has ended. */
  lemma StatusSet(s: seq<byte>, k: nat, m: nat, e: nat)
    requires VersionAt(s, 0, k) && s[k] == ' ' && NumberAt(s, k + 1, m)
    ensures ResponseFields(s).status == NumberOf(s[k + 1..m])
    ensures ResponseFields(s).msg == Some(Slice(m + 1, e)) <==> s[m] == ' ' && LineAt(s, m + 1, e)
  {
    hide HttpVersion, VersionAt, Int, NumberAt, NumberOf, TokenToEol, LineAt;
    VersionIs(s, 0, k);
    NumberIs(s, k + 1, m);
    LineIs(s, m + 1, e);
  }
}
