/**
 What the three verdicts mean. A verdict other than "incomplete" never changes when bytes arrive, and "incomplete"
 is answered exactly while the bytes can still be continued to an acceptable request, response or header block.
 */
module Verdicts {
  import opened Bytes
  import opened Scanner
  import opened Message
  import opened Grammar

  // ---------- Stability under longer buffers ----------

  lemma TokenStable(s: seq<byte>, u: seq<byte>, i: nat)
    requires s <= u && i <= |s|
    ensures !Token(s, i).More? ==> Token(u, i) == Token(s, i)
  {
    SpanPrefix(s, u, i, TokenByte);
  }

  lemma TokenToEolStable(s: seq<byte>, u: seq<byte>, i: nat)
    requires s <= u && i <= |s|
    ensures !TokenToEol(s, i).More? ==> TokenToEol(u, i) == TokenToEol(s, i)
  {
    SpanPrefix(s, u, i, ValueByte);
  }

  lemma IntStable(s: seq<byte>, u: seq<byte>, i: nat)
    requires s <= u && i <= |s|
    ensures !Int(s, i).More? ==> Int(u, i) == Int(s, i)
  {
    SpanPrefix(s, u, i, DigitByte);
    assert s[i..Span(s, i, DigitByte)] == u[i..Span(s, i, DigitByte)];
  }

  lemma ExpectAllStable(s: seq<byte>, u: seq<byte>, i: nat, t: seq<byte>)
    requires s <= u && i <= |s|
    ensures !ExpectAll(s, i, t).More? ==> ExpectAll(u, i, t) == ExpectAll(s, i, t)
  {
    assert s[i..] <= u[i..];
    if t <= u[i..] && |t| <= |s[i..]| {
      assert t == u[i..][..|t|] == s[i..][..|t|];
    }
    if u[i..] <= t {
      assert s[i..] <= t;
    }
    if t <= u[i..] && |s[i..]| < |t| {
      assert s[i..] == t[..|s[i..]|];
    }
  }

  lemma HttpVersionStable(s: seq<byte>, u: seq<byte>, i: nat)
    requires s <= u && i <= |s|
    ensures !HttpVersion(s, i).More? ==> HttpVersion(u, i) == HttpVersion(s, i)
  {
    hide Int;
    ExpectAllStable(s, u, i, VERSION);
    if ExpectAll(s, i, VERSION).Done? {
      IntStable(s, u, i + 7);
    }
  }

  lemma HeaderLineStable(s: seq<byte>, u: seq<byte>, i: nat, first: bool)
    requires s <= u && i < |s|
    ensures !HeaderLine(s, i, first).More? ==> HeaderLine(u, i, first) == HeaderLine(s, i, first)
  {
    hide TokenToEol;
    TokenToEolStable(s, u, i);
    SpanPrefix(s, u, i, NameByte);
    var c := Span(s, i, NameByte);
    if c < |s| {
      SpanPrefix(s, u, c + 1, BlankByte);
      TokenToEolStable(s, u, Span(s, c + 1, BlankByte));
    }
  }

  lemma {:induction false} HeadersStable(s: seq<byte>, u: seq<byte>, i: nat, hs: seq<Header>, cap: nat)
    requires s <= u && i <= |s| && !Headers(s, i, hs, cap).end.More?
    ensures Headers(u, i, hs, cap) == Headers(s, i, hs, cap)
    decreases |s| - i
  {
    hide HeaderLine;
    if i < |s| && !IsLineEnd(s[i]) && |hs| != cap {
      HeaderLineStable(s, u, i, |hs| == 0);
      var r := HeaderLine(s, i, |hs| == 0);
      if r.Done? {
        HeadersStable(s, u, r.pos, hs + [r.value], cap);
      }
    }
  }

  lemma VersionLineStable(s: seq<byte>, u: seq<byte>, i: nat)
    requires s <= u && i <= |s|
    ensures !VersionLine(s, i).More? ==> VersionLine(u, i) == VersionLine(s, i)
  {
    hide HttpVersion;
    HttpVersionStable(s, u, i);
  }

  lemma LeadingEolStable(s: seq<byte>, u: seq<byte>)
    requires s <= u
    ensures !LeadingEol(s).More? ==> LeadingEol(u) == LeadingEol(s)
  {
  }

  lemma RequestLineStable(s: seq<byte>, u: seq<byte>)
    requires s <= u && !ReadRequestLine(s).More?
    ensures ReadRequestLine(u) == ReadRequestLine(s)
  {
    hide LeadingEol, Token, VersionLine;
    LeadingEolStable(s, u);
    var p := LeadingEol(s);
    if p.Done? {
      TokenStable(s, u, p.pos);
      var q := Token(s, p.pos);
      if q.Done? {
        TokenStable(s, u, q.pos);
        var t := Token(s, q.pos);
        if t.Done? {
          VersionLineStable(s, u, t.pos);
        }
      }
    }
  }

  /** A verdict other than -2 on a buffer is the verdict, with the same fields, on every longer buffer. */
  lemma RequestStable(s: seq<byte>, u: seq<byte>, cap: nat)
    requires s <= u && !ParseRequest(s, cap).end.More?
    ensures ParseRequest(u, cap) == ParseRequest(s, cap)
  {
    hide ReadRequestLine, Headers;
    RequestLineStable(s, u);
    if ReadRequestLine(s).Done? {
      HeadersStable(s, u, ReadRequestLine(s).pos, [], cap);
    }
  }

  // ---------- Every incomplete buffer can be completed ----------

  lemma LineFinish(s: seq<byte>, i: nat)
    requires i <= |s| && TokenToEol(s, i).More?
    ensures TokenToEol(s + [LF], i).Done? && TokenToEol(s + [LF], i).pos == |s| + 1
  {
    SpanPrefix(s, s + [LF], i, ValueByte);
  }

  lemma FieldValueFinish(s: seq<byte>, c: nat)
    requires c < |s| && FieldValue(s, c).More?
    ensures FieldValue(s + [LF], c).Done? && FieldValue(s + [LF], c).pos == |s| + 1
  {
    var u := s + [LF];
    SpanPrefix(s, u, c + 1, BlankByte);
    var b := Span(s, c + 1, BlankByte);
    if b < |s| {
      LineFinish(s, b);
    } else {
      SpanUnique(u, b, BlankByte, b);
      SpanUnique(u, b, ValueByte, b);
    }
  }

  lemma HeaderLineFinish(s: seq<byte>, i: nat, first: bool) returns (u: seq<byte>)
    requires i < |s| && HeaderLine(s, i, first).More?
    ensures s <= u && HeaderLine(u, i, first).Done? && HeaderLine(u, i, first).pos == |u|
  {
    hide TokenToEol, FieldValue;
    if !first && IsBlank(s[i]) {
      u := s + [LF];
      LineFinish(s, i);
    } else if Span(s, i, NameByte) == |s| {
      var v := s + [':'];
      SpanPrefix(s, v, i, NameByte);
      SpanUnique(v, |s|, NameByte, |s|);
      SpanUnique(v, |v|, BlankByte, |v|);
      assert FieldValue(v, |s|).More? by {
        EmptyFieldValue(v, |s|);
      }
      u := v + [LF];
      FieldValueFinish(v, |s|);
      SpanPrefix(v, u, i, NameByte);
    } else {
      u := s + [LF];
      SpanPrefix(s, u, i, NameByte);
      FieldValueFinish(s, Span(s, i, NameByte));
    }
  }

  lemma EmptyFieldValue(s: seq<byte>, c: nat)
    requires c + 1 == |s|
    ensures FieldValue(s, c).More?
  {
  }

  lemma {:induction false} HeadersFinish(s: seq<byte>, i: nat, hs: seq<Header>, cap: nat) returns (u: seq<byte>)
    requires i <= |s| && Headers(s, i, hs, cap).end.More?
    ensures s <= u && Headers(u, i, hs, cap).end == Done(|u|, ())
    decreases |s| - i
  {
    hide HeaderLine;
    if i == |s| || IsLineEnd(s[i]) {
      u := s + [LF];
    } else {
      var r := HeaderLine(s, i, |hs| == 0);
      if r.More? {
        var v := HeaderLineFinish(s, i, |hs| == 0);
        u := v + [LF];
        HeaderLineStable(v, u, i, |hs| == 0);
      } else {
        u := HeadersFinish(s, r.pos, hs + [r.value], cap);
        HeaderLineStable(s, u, i, |hs| == 0);
      }
    }
  }

  lemma TokenFinish(s: seq<byte>, i: nat)
    requires i <= |s| && Token(s, i).More?
    ensures Token(s + [SP], i).Done? && Token(s + [SP], i).pos == |s| + 1
  {
    SpanPrefix(s, s + [SP], i, TokenByte);
  }

  lemma VersionLineFinish(s: seq<byte>, i: nat) returns (u: seq<byte>)
    requires i <= |s| && VersionLine(s, i).More?
    ensures s <= u && VersionLine(u, i).Done? && VersionLine(u, i).pos == |u|
  {
    var v := s;
    if ExpectAll(s, i, VERSION).More? {
      var done := |s| - i;
      v := s + VERSION[done..];
      assert VERSION == s[i..] + VERSION[done..] == v[i..];
    }
    assert ExpectAll(v, i, VERSION) == Done(i + 7, ());
    u := VersionTailFinish(v, i);
  }

  lemma VersionTailFinish(s: seq<byte>, i: nat) returns (u: seq<byte>)
    requires i <= |s| && ExpectAll(s, i, VERSION) == Done(i + 7, ()) && i + 7 <= |s|
    requires VersionLine(s, i).More?
    ensures s <= u && VersionLine(u, i).Done? && VersionLine(u, i).pos == |u|
  {
    hide ExpectAll;
    var j := Span(s, i + 7, DigitByte);
    u := if i + 7 == |s| then s + ['0', LF] else s + [LF];
    ExpectAllStable(s, u, i, VERSION);
    SpanPrefix(s, u, i + 7, DigitByte);
    if j == |s| {
      SpanUnique(u, |s|, DigitByte, |u| - 1);
    }
    assert Int(u, i + 7).Done?;
  }

  /** Every stage answers -2 when it starts at the end of the buffer. */
  lemma MoreAtEnd(s: seq<byte>)
    ensures Token(s, |s|).More? && VersionLine(s, |s|).More?
    ensures forall hs, cap :: Headers(s, |s|, hs, cap).end.More?
  {
  }

  lemma RequestLineFinish(s: seq<byte>) returns (u: seq<byte>)
    requires ReadRequestLine(s).More?
    ensures s <= u && ReadRequestLine(u).Done? && ReadRequestLine(u).pos == |u|
  {
    hide Token, VersionLine;
    u := s;
    if LeadingEol(u).More? {
      u := u + [LF];
      MoreAtEnd(u);
    }
    var p := LeadingEol(u).pos;
    if Token(u, p).More? {
      TokenFinish(u, p);
      u := u + [SP];
      MoreAtEnd(u);
    }
    u := PathAndVersionFinish(s, u, p, Token(u, p).pos);
  }

  lemma PathAndVersionFinish(s: seq<byte>, v: seq<byte>, p: nat, q: nat) returns (u: seq<byte>)
    requires s <= v && LeadingEol(v) == Done(p, ()) && Token(v, p).Done? && Token(v, p).pos == q
    requires ReadRequestLine(v).More?
    ensures s <= u && ReadRequestLine(u).Done? && ReadRequestLine(u).pos == |u|
  {
    hide LeadingEol, Token, VersionLine;
    u := v;
    if Token(u, q).More? {
      TokenFinish(u, q);
      u := u + [SP];
      LeadingEolStable(v, u);
      TokenStable(v, u, p);
      MoreAtEnd(u);
    }
    var t := Token(u, q).pos;
    var w := VersionLineFinish(u, t);
    LeadingEolStable(u, w);
    TokenStable(u, w, p);
    TokenStable(u, w, q);
    u := w;
  }

  lemma RequestFinish(s: seq<byte>, cap: nat) returns (u: seq<byte>)
    requires ParseRequest(s, cap).end.More?
    ensures s <= u && ParseRequest(u, cap).end.Done? && ParseRequest(u, cap).end.pos == |u|
  {
    hide ReadRequestLine, Headers;
    var v := s;
    if ReadRequestLine(s).More? {
      v := RequestLineFinish(s);
      MoreAtEnd(v);
    }
    var p := ReadRequestLine(v).pos;
    u := HeadersFinish(v, p, [], cap);
    RequestLineStable(v, u);
  }

  // ---------- The meaning of the three verdicts ----------

  lemma AtStart(s: seq<byte>, t: seq<byte>)
    ensures At(s, 0, t) <==> t <= s
  {
    if |t| <= |s| {
      assert s[0..|t|] == s[..|t|];
    }
  }

  /**
   Success is answered exactly when an acceptable request stands at the front of the buffer; -2 exactly when none
   does yet but some continuation of the buffer is one; -1, therefore, exactly when no continuation ever will be.
   */
  lemma VerdictMeaning(s: seq<byte>, cap: nat)
    ensures ParseRequest(s, cap).end.Done? <==> exists a :: WfRequest(a, cap) && PrintRequest(a) <= s
    ensures ParseRequest(s, cap).end.More? <==>
              && (forall a | WfRequest(a, cap) :: !(PrintRequest(a) <= s))
              && exists a :: WfRequest(a, cap) && s <= PrintRequest(a)
  {
    hide At, PrintRequest, WfRequest, ParseRequest, LineOf, Entries;
    var r := ParseRequest(s, cap).end;
    if r.Done? {
      var a := RequestSound(s, cap);
      AtStart(s, PrintRequest(a));
    }
    forall a | WfRequest(a, cap) && PrintRequest(a) <= s ensures r.Done? {
      AtStart(s, PrintRequest(a));
      RequestComplete(s, cap, a);
    }
    if r.More? {
      var u := RequestFinish(s, cap);
      var a := RequestSound(u, cap);
      AtStart(u, PrintRequest(a));
      assert u == PrintRequest(a);
    }
    forall a | WfRequest(a, cap) && s <= PrintRequest(a) ensures !r.Bad? {
      var u := PrintRequest(a);
      AtStart(u, u);
      RequestComplete(u, cap, a);
      if r.Bad? {
        RequestStable(s, u, cap);
      }
    }
  }

  // ---------- Header blocks ----------

  /** The header lines and the blank line of a block that is acceptable on its own. */
  predicate WfBlock(b: BlockText, cap: nat) {
    WfLines(b.lines, true) && |b.lines| <= cap
  }

  /** The same for a header block on its own. */
  lemma HeadersMeaning(s: seq<byte>, cap: nat)
    ensures Headers(s, 0, [], cap).end.Done? <==> exists b :: WfBlock(b, cap) && PrintBlock(b) <= s
    ensures Headers(s, 0, [], cap).end.More? <==>
              && (forall b | WfBlock(b, cap) :: !(PrintBlock(b) <= s))
              && exists b :: WfBlock(b, cap) && s <= PrintBlock(b)
  {
    hide At, PrintBlock, Headers, Entries, WfLines;
    var r := Headers(s, 0, [], cap).end;
    if r.Done? {
      var b := BlockSound(s, 0, [], cap);
      AtStart(s, PrintBlock(b));
      assert WfBlock(b, cap);
    }
    forall b | WfBlock(b, cap) && PrintBlock(b) <= s ensures r.Done? {
      AtStart(s, PrintBlock(b));
      BlockComplete(s, 0, [], cap, b);
    }
    if r.More? {
      var u := HeadersFinish(s, 0, [], cap);
      var b := BlockSound(u, 0, [], cap);
      AtStart(u, PrintBlock(b));
      assert WfBlock(b, cap) && u == PrintBlock(b);
    }
    forall b | WfBlock(b, cap) && s <= PrintBlock(b) ensures !r.Bad? {
      var u := PrintBlock(b);
      AtStart(u, u);
      BlockComplete(u, 0, [], cap, b);
      if r.Bad? {
        HeadersStable(s, u, 0, [], cap);
      }
    }
  }

  // ---------- Responses ----------

  lemma StatusLineStable(s: seq<byte>, u: seq<byte>)
    requires s <= u && !ReadStatusLine(s).More?
    ensures ReadStatusLine(u) == ReadStatusLine(s)
  {
    hide HttpVersion, Int, TokenToEol;
    HttpVersionStable(s, u, 0);
    var v := HttpVersion(s, 0);
    if v.Done? && s[v.pos] == SP {
      IntStable(s, u, v.pos + 1);
      var n := Int(s, v.pos + 1);
      if n.Done? && s[n.pos] == SP {
        TokenToEolStable(s, u, n.pos + 1);
      }
    }
  }

  lemma ResponseStable(s: seq<byte>, u: seq<byte>, cap: nat)
    requires s <= u && !ParseResponse(s, cap).end.More?
    ensures ParseResponse(u, cap) == ParseResponse(s, cap)
  {
    hide ReadStatusLine, Headers;
    StatusLineStable(s, u);
    if ReadStatusLine(s).Done? {
      HeadersStable(s, u, ReadStatusLine(s).pos, [], cap);
    }
  }

  /** A number that has not ended is ended by a space. */
  lemma IntFinish(s: seq<byte>, i: nat) returns (u: seq<byte>)
    requires i <= |s| && Int(s, i).More?
    ensures s <= u && Int(u, i).Done? && Int(u, i).pos == |u| - 1 && u[|u| - 1] == SP
  {
    u := if i == |s| then s + ['0', SP] else s + [SP];
    SpanPrefix(s, u, i, DigitByte);
    SpanUnique(u, |s|, DigitByte, |u| - 1);
  }

  lemma VersionFinish(s: seq<byte>) returns (u: seq<byte>)
    requires HttpVersion(s, 0).More?
    ensures s <= u && HttpVersion(u, 0).Done? && HttpVersion(u, 0).pos == |u| - 1 && u[|u| - 1] == SP
  {
    hide Int;
    var v := s;
    if ExpectAll(s, 0, VERSION).More? {
      v := s + VERSION[|s|..];
      assert VERSION == s[0..] + VERSION[|s|..] == v[0..];
      IntAtEnd(v);
    }
    assert ExpectAll(v, 0, VERSION) == Done(7, ());
    u := IntFinish(v, 7);
    ExpectAllStable(v, u, 0, VERSION);
  }

  lemma IntAtEnd(s: seq<byte>)
    ensures Int(s, |s|).More? && TokenToEol(s, |s|).More?
  {
  }

  lemma StatusLineFinish(s: seq<byte>) returns (u: seq<byte>)
    requires ReadStatusLine(s).More?
    ensures s <= u && ReadStatusLine(u).Done? && ReadStatusLine(u).pos == |u|
  {
    hide HttpVersion, Int, TokenToEol;
    u := s;
    if HttpVersion(u, 0).More? {
      u := VersionFinish(u);
      IntAtEnd(u);
    }
    var p := HttpVersion(u, 0).pos + 1;
    if Int(u, p).More? {
      var v := IntFinish(u, p);
      HttpVersionStable(u, v, 0);
      u := v;
      IntAtEnd(u);
    }
    var q := Int(u, p).pos + 1;
    var v := u + [LF];
    LineFinish(u, q);
    HttpVersionStable(u, v, 0);
    IntStable(u, v, p);
    u := v;
  }

  lemma ResponseFinish(s: seq<byte>, cap: nat) returns (u: seq<byte>)
    requires ParseResponse(s, cap).end.More?
    ensures s <= u && ParseResponse(u, cap).end.Done? && ParseResponse(u, cap).end.pos == |u|
  {
    hide ReadStatusLine, Headers;
    var v := s;
    if ReadStatusLine(s).More? {
      v := StatusLineFinish(s);
      MoreAtEnd(v);
    }
    u := HeadersFinish(v, ReadStatusLine(v).pos, [], cap);
    StatusLineStable(v, u);
  }

  /** The same for responses. */
  lemma ResponseMeaning(s: seq<byte>, cap: nat)
    ensures ParseResponse(s, cap).end.Done? <==> exists a :: WfResponse(a, cap) && PrintResponse(a) <= s
    ensures ParseResponse(s, cap).end.More? <==>
              && (forall a | WfResponse(a, cap) :: !(PrintResponse(a) <= s))
              && exists a :: WfResponse(a, cap) && s <= PrintResponse(a)
  {
    hide At, PrintResponse, WfResponse, ParseResponse, StatusOf, Entries;
    var r := ParseResponse(s, cap).end;
    if r.Done? {
      var a := ResponseSound(s, cap);
      AtStart(s, PrintResponse(a));
    }
    forall a | WfResponse(a, cap) && PrintResponse(a) <= s ensures r.Done? {
      AtStart(s, PrintResponse(a));
      ResponseComplete(s, cap, a);
    }
    if r.More? {
      var u := ResponseFinish(s, cap);
      var a := ResponseSound(u, cap);
      AtStart(u, PrintResponse(a));
      assert u == PrintResponse(a);
    }
    forall a | WfResponse(a, cap) && s <= PrintResponse(a) ensures !r.Bad? {
      var u := PrintResponse(a);
      AtStart(u, u);
      ResponseComplete(u, cap, a);
      if r.Bad? {
        ResponseStable(s, u, cap);
      }
    }
  }
}
