/**
 The block search of `findchar_fast` and what it means for header names. A byte of 0x80 or above stops a name for the
 scalar loop, whose `char` is signed, but not for the block search, whose bytes are unsigned.
 */
module FastNames {
  import opened Bytes
  import opened Scanner
  import opened Message

  /** Inclusive byte ranges, as `_mm_cmpestri` takes them with _SIDD_CMP_RANGES and _SIDD_UBYTE_OPS. */
  type ByteRanges = seq<(byte, byte)>

  predicate InRanges(c: byte, ranges: ByteRanges) {
    exists k | 0 <= k < |ranges| :: ranges[k].0 <= c <= ranges[k].1
  }

  /** The index `_mm_cmpestri` answers for a block: that of its first byte in the ranges, or the block's length. */
  function FirstInRanges(block: seq<byte>, ranges: ByteRanges): (r: nat)
    ensures r <= |block|
    ensures forall m | 0 <= m < r :: !InRanges(block[m], ranges)
    ensures r < |block| ==> InRanges(block[r], ranges)
  {
    if block == [] || InRanges(block[0], ranges) then 0 else 1 + FirstInRanges(block[1..], ranges)
  }

  /** Where the search stops that skips whole blocks of 16 bytes; the scalar build has none. */
  function FastStop(s: seq<byte>, i: nat, ranges: ByteRanges, sse: bool): (j: nat)
    requires i <= |s|
    ensures i <= j <= |s| && forall m | i <= m < j :: !InRanges(s[m], ranges)
  {
    if !sse then i else
    var t := s[i..i + (|s| - i) / 16 * 16];
    var r := FirstInRanges(t, ranges);
    assert forall m | i <= m < i + r :: s[m] == t[m - i];
    i + r
  }

  lemma FastStopIs(s: seq<byte>, i: nat, ranges: ByteRanges, j: nat)
    requires i <= j <= i + (|s| - i) / 16 * 16 <= |s|
    requires forall m | i <= m < j :: !InRanges(s[m], ranges)
    requires j < i + (|s| - i) / 16 * 16 ==> InRanges(s[j], ranges)
    ensures FastStop(s, i, ranges, true) == j
  {
    var t := s[i..i + (|s| - i) / 16 * 16];
    var r := FirstInRanges(t, ranges);
    if r < |t| {
      assert t[r] == s[i + r];
    }
    if j - i < |t| {
      assert t[j - i] == s[j];
    }
  }

  /** What the search of a header name looks for. */
  const NAME_RANGES: ByteRanges := [(':', ':'), ('\0', '\U{1F}')]

  lemma NameRanges(c: byte)
    ensures In(c, NameByte) <==> !InRanges(c, NAME_RANGES) && c < '\U{80}'
  {
    assert NAME_RANGES[0] == (':', ':') && NAME_RANGES[1] == ('\0', '\U{1F}');
  }

  // ---------- Header lines in both builds ----------

  function NameStop(s: seq<byte>, i: nat, sse: bool): (j: nat)
    requires i <= |s|
    ensures i <= j <= |s|
  {
    Span(s, FastStop(s, i, NAME_RANGES, sse), NameByte)
  }

  /** `Message.HeaderLine` with the search for the end of the name that the build has. */
  function HeaderLineOf(s: seq<byte>, i: nat, first: bool, sse: bool): (r: Scan<Header>)
    requires i < |s|
    ensures r.Done? ==> i < r.pos <= |s|
  {
    if !first && IsBlank(s[i]) then
      var (p, value) :- TokenToEol(s, i);
      Done(p, Header(None, value))
    else if !IsTokenChar(s[i]) then
      Bad
    else
      var c := NameStop(s, i, sse);
      if c == |s| then More else if s[c] != ':' then Bad else
      var (p, value) :- FieldValue(s, c);
      Done(p, Header(Some(Slice(i, c)), value))
  }

  function HeadersOf(s: seq<byte>, i: nat, hs: seq<Header>, cap: nat, sse: bool): (r: HeaderScan)
    requires i <= |s|
    decreases |s| - i
  {
    if i == |s| then HeaderScan(More, hs)
    else if IsLineEnd(s[i]) then HeaderScan(Eol(s, i), hs)
    else if |hs| == cap then HeaderScan(Bad, hs)
    else
      match HeaderLineOf(s, i, |hs| == 0, sse)
      case Done(p, h) => HeadersOf(s, p, hs + [h], cap, sse)
      case Bad => HeaderScan(Bad, hs)
      case More => HeaderScan(More, hs)
  }

  function WithHeadersOf<L>(s: seq<byte>, line: Scan<L>, cap: nat, sse: bool): (r: Parse<L>)
    requires line.Done? ==> line.pos <= |s|
  {
    if !line.Done? then Parse(line, []) else
    var h := HeadersOf(s, line.pos, [], cap, sse);
    match h.end
    case Done(n, _) => Parse(Done(n, line.value), h.headers)
    case Bad => Parse(Bad, h.headers)
    case More => Parse(More, h.headers)
  }

  function ParseRequestOf(s: seq<byte>, cap: nat, sse: bool): Parse<RequestLine> {
    WithHeadersOf(s, ReadRequestLine(s), cap, sse)
  }

  function ParseResponseOf(s: seq<byte>, cap: nat, sse: bool): Parse<StatusLine> {
    WithHeadersOf(s, ReadStatusLine(s), cap, sse)
  }

  function ParseHeadersOf(s: seq<byte>, cap: nat, sse: bool): Parse<()> {
    var h := HeadersOf(s, 0, [], cap, sse);
    Parse(h.end, h.headers)
  }

  // ---------- Where the builds agree ----------

  /** The scalar loop stops at a byte of 0x80 or above that the block search steps over. */
  predicate HighSkipped(s: seq<byte>, i: nat)
    requires i <= |s|
  {
    var c := Span(s, i, NameByte);
    c < |s| && s[c] >= '\U{80}' && c < FastStop(s, i, NAME_RANGES, true)
  }

  lemma StopsAgree(s: seq<byte>, i: nat)
    requires i <= |s|
    ensures NameStop(s, i, false) == Span(s, i, NameByte)
    ensures !HighSkipped(s, i) ==> NameStop(s, i, true) == Span(s, i, NameByte)
  {
    hide FastStop, InRanges;
    var c, f := Span(s, i, NameByte), FastStop(s, i, NAME_RANGES, true);
    assert FastStop(s, i, NAME_RANGES, false) == i by {
      NoFastStop(s, i);
    }
    if c < f {
      NameRanges(s[c]);
    } else {
      SpanUnique(s, f, NameByte, c);
    }
  }

  lemma NoFastStop(s: seq<byte>, i: nat)
    requires i <= |s|
    ensures FastStop(s, i, NAME_RANGES, false) == i
  {
  }

  /** The line has a name that starts as names must. */
  predicate Named(s: seq<byte>, i: nat, first: bool)
    requires i < |s|
  {
    (first || !IsBlank(s[i])) && IsTokenChar(s[i])
  }

  /** The scalar build refuses the line for a byte that the other steps over to something it does not refuse. */
  predicate LineDiffers(s: seq<byte>, i: nat, first: bool)
    requires i < |s|
  {
    Named(s, i, first) && HighSkipped(s, i) && !HeaderLineOf(s, i, first, true).Bad?
  }

  /** Both builds read a line alike exactly when it has no such byte. */
  lemma LineBuilds(s: seq<byte>, i: nat, first: bool)
    requires i < |s|
    ensures HeaderLineOf(s, i, first, false) == HeaderLine(s, i, first)
    ensures HeaderLineOf(s, i, first, true) == HeaderLine(s, i, first) <==> !LineDiffers(s, i, first)
    ensures LineDiffers(s, i, first) ==> HeaderLine(s, i, first).Bad?
  {
    hide FastStop, TokenToEol, FieldValue, IsTokenChar, NameStop;
    StopsAgree(s, i);
  }

  lemma {:induction false} HeadersOfGrows(s: seq<byte>, i: nat, hs: seq<Header>, cap: nat, sse: bool)
    requires i <= |s|
    ensures hs <= HeadersOf(s, i, hs, cap, sse).headers
    decreases |s| - i
  {
    hide HeaderLineOf;
    if i < |s| && !IsLineEnd(s[i]) && |hs| != cap {
      var r := HeaderLineOf(s, i, |hs| == 0, sse);
      if r.Done? {
        HeadersOfGrows(s, r.pos, hs + [r.value], cap, sse);
      }
    }
  }

  /** Among the lines that both builds read alike and the next one there is one that differs. */
  predicate BlockDiffers(s: seq<byte>, i: nat, hs: seq<Header>, cap: nat)
    requires i <= |s|
    decreases |s| - i
  {
    && i < |s| && !IsLineEnd(s[i]) && |hs| != cap
    && var r := HeaderLine(s, i, |hs| == 0);
       LineDiffers(s, i, |hs| == 0) || (r.Done? && BlockDiffers(s, r.pos, hs + [r.value], cap))
  }

  /** Both builds parse a block alike exactly when no line differs; if one does the scalar build refuses the block. */
  lemma {:induction false} BlockBuilds(s: seq<byte>, i: nat, hs: seq<Header>, cap: nat)
    requires i <= |s|
    ensures HeadersOf(s, i, hs, cap, false) == Headers(s, i, hs, cap)
    ensures HeadersOf(s, i, hs, cap, true) == Headers(s, i, hs, cap) <==> !BlockDiffers(s, i, hs, cap)
    ensures BlockDiffers(s, i, hs, cap) ==> Headers(s, i, hs, cap).end.Bad?
    decreases |s| - i
  {
    hide HeaderLine, HeaderLineOf, LineDiffers;
    if i < |s| && !IsLineEnd(s[i]) && |hs| != cap {
      var first := |hs| == 0;
      LineBuilds(s, i, first);
      var r := HeaderLine(s, i, first);
      var t := HeaderLineOf(s, i, first, true);
      if LineDiffers(s, i, first) {
        NotBad(s, i, first);
        if t.Done? {
          HeadersOfGrows(s, t.pos, hs + [t.value], cap, true);
        }
      } else if r.Done? {
        BlockBuilds(s, r.pos, hs + [r.value], cap);
      }
    }
  }

  lemma NotBad(s: seq<byte>, i: nat, first: bool)
    requires i < |s| && LineDiffers(s, i, first)
    ensures !HeaderLineOf(s, i, first, true).Bad?
  {
  }

  lemma WithHeadersBuilds<L>(s: seq<byte>, line: Scan<L>, cap: nat)
    requires line.Done? ==> line.pos <= |s|
    ensures WithHeadersOf(s, line, cap, false) == WithHeaders(s, line, cap)
    ensures WithHeadersOf(s, line, cap, true) == WithHeaders(s, line, cap) <==>
              !(line.Done? && BlockDiffers(s, line.pos, [], cap))
    ensures !WithHeaders(s, line, cap).end.Bad? ==> WithHeadersOf(s, line, cap, true) == WithHeaders(s, line, cap)
  {
    hide Headers, HeadersOf, BlockDiffers;
    if line.Done? {
      BlockBuilds(s, line.pos, [], cap);
      var a, b := Headers(s, line.pos, [], cap), HeadersOf(s, line.pos, [], cap, true);
      assert a.end.Done? && b.end.Done? ==> a.end.value == b.end.value;
    }
  }

  /**
   Whatever the build that is built accepts or wants more of, the other treats alike; and they treat a request alike
   exactly when no header name differs.
   */
  lemma RequestBuilds(s: seq<byte>, cap: nat)
    ensures ParseRequestOf(s, cap, false) == ParseRequest(s, cap)
    ensures ParseRequestOf(s, cap, true) == ParseRequest(s, cap) <==>
              !(ReadRequestLine(s).Done? && BlockDiffers(s, ReadRequestLine(s).pos, [], cap))
    ensures !ParseRequest(s, cap).end.Bad? ==> ParseRequestOf(s, cap, true) == ParseRequest(s, cap)
  {
    hide ReadRequestLine, BlockDiffers;
    WithHeadersBuilds(s, ReadRequestLine(s), cap);
  }

  /** So it is with responses. */
  lemma ResponseBuilds(s: seq<byte>, cap: nat)
    ensures ParseResponseOf(s, cap, false) == ParseResponse(s, cap)
    ensures ParseResponseOf(s, cap, true) == ParseResponse(s, cap) <==>
              !(ReadStatusLine(s).Done? && BlockDiffers(s, ReadStatusLine(s).pos, [], cap))
    ensures !ParseResponse(s, cap).end.Bad? ==> ParseResponseOf(s, cap, true) == ParseResponse(s, cap)
  {
    hide ReadStatusLine, BlockDiffers;
    WithHeadersBuilds(s, ReadStatusLine(s), cap);
  }
}
