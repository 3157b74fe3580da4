/**
 The cursor loops of picohttpparser.c, each proved to compute the function of the whole buffer that specifies it.
 `sse` selects the build: with `__SSE4_2__` blocks of 16 bytes are searched first, without it the loops are scalar.
 */
module Parser {
  import opened Bytes
  import opened Scanner
  import opened Message
  import opened FastNames
  import G = Guard
  import I = Incremental

  // ---------- The fast scanners ----------

  /** Skips whole blocks of 16 bytes that have nothing in the ranges; fewer than 16 bytes may be left unsearched. */
  method FindCharFast(buf: seq<byte>, pos: nat, ranges: ByteRanges, sse: bool) returns (i: nat, found: bool)
    requires pos <= |buf|
    ensures pos <= i <= |buf|
    ensures forall m | pos <= m < i :: !InRanges(buf[m], ranges)
    ensures found ==> i < |buf| && InRanges(buf[i], ranges)
    ensures sse && !found ==> |buf| - i < 16
    ensures !sse ==> i == pos && !found
    ensures i == FastStop(buf, pos, ranges, sse)
  {
    i, found := pos, false;
    if sse && |buf| - i >= 16 {
      ghost var end := pos + (|buf| - pos) / 16 * 16;
      var left := (|buf| - i) / 16 * 16;
      while left != 0 && !found
        invariant pos <= i <= |buf| && left % 16 == 0 && 0 <= left
        invariant forall m | pos <= m < i :: !InRanges(buf[m], ranges)
        invariant found ==> i < |buf| && InRanges(buf[i], ranges)
        invariant !found ==> left <= |buf| - i < left + 16
        invariant i + left == end || (found && i < end)
        decreases left, !found
      {
        ghost var was := i;
        var r := FirstInRanges(buf[i..i + 16], ranges);
        assert forall m | was <= m < was + r :: buf[m] == buf[was..was + 16][m - was];
        if r != 16 {
          i, found := i + r, true;
        } else {
          i, left := i + 16, left - 16;
        }
      }
      FastStopIs(buf, pos, ranges, i);
    }
  }

  /** `IS_PRINTABLE_ASCII`. */
  predicate IsPrintableAscii(c: byte) {
    ' ' <= c < DEL
  }

  const LINE_RANGES: ByteRanges := [('\0', '\U{8}'), ('\U{A}', '\U{1F}'), (DEL, DEL)]
  const TOKEN_RANGES: ByteRanges := [('\0', ' '), (DEL, DEL)]

  lemma RangesAreClasses(c: byte)
    ensures InRanges(c, LINE_RANGES) <==> !In(c, ValueByte)
    ensures InRanges(c, TOKEN_RANGES) <==> !In(c, TokenByte)
  {
    assert LINE_RANGES[0] == ('\0', '\U{8}') && LINE_RANGES[1] == ('\U{A}', '\U{1F}') && LINE_RANGES[2] == (DEL, DEL);
    assert TOKEN_RANGES[0] == ('\0', ' ') && TOKEN_RANGES[1] == (DEL, DEL);
  }

  /** `get_token_to_eol`: block search or eight bytes a round, then byte by byte, then the line end. */
  method GetTokenToEol(buf: seq<byte>, pos: nat, sse: bool) returns (r: Scan<Slice>)
    requires pos <= |buf|
    ensures r == TokenToEol(buf, pos)
  {
    var i, found := FindCharFast(buf, pos, LINE_RANGES, sse);
    forall m | pos <= m <= i && m < |buf| ensures InRanges(buf[m], LINE_RANGES) <==> !In(buf[m], ValueByte) {
      RangesAreClasses(buf[m]);
    }
    while !sse && |buf| - i >= 8 && !found
      invariant pos <= i <= |buf|
      invariant forall m | pos <= m < i :: In(buf[m], ValueByte)
      invariant found ==> i < |buf| && !In(buf[i], ValueByte)
      decreases |buf| - i, !found
    {
      ghost var start := i;
      var k := 0;
      while k < 8 && IsPrintableAscii(buf[i])
        invariant 0 <= k <= 8 && i == start + k
        invariant forall m | pos <= m < i :: In(buf[m], ValueByte)
      {
        k, i := k + 1, i + 1;
      }
      if k < 8 {
        if (buf[i] < ' ' && buf[i] != HT) || buf[i] == DEL {
          found := true;
        } else {
          i := i + 1;
        }
      }
    }
    while !found
      invariant pos <= i <= |buf|
      invariant forall m | pos <= m < i :: In(buf[m], ValueByte)
      invariant found ==> i < |buf| && !In(buf[i], ValueByte)
      decreases |buf| - i, !found
    {
      if i == |buf| {
        SpanUnique(buf, pos, ValueByte, i);
        return More;
      }
      if !IsPrintableAscii(buf[i]) && ((buf[i] < ' ' && buf[i] != HT) || buf[i] == DEL) {
        found := true;
      } else {
        i := i + 1;
      }
    }
    SpanUnique(buf, pos, ValueByte, i);
    if buf[i] == CR {
      var e := ExpectChar(buf, i + 1, LF);
      return if e.Done? then Done(e.pos, Slice(pos, e.pos - 2)) else if e.Bad? then Bad else More;
    } else if buf[i] == LF {
      return Done(i + 1, Slice(pos, i));
    } else {
      return Bad;
    }
  }

  method ExpectChar(buf: seq<byte>, pos: nat, c: byte) returns (r: Scan<()>)
    requires pos <= |buf|
    ensures r == Expect(buf, pos, c)
  {
    if pos == |buf| {
      return More;
    }
    return if buf[pos] != c then Bad else Done(pos + 1, ());
  }

  /** `ADVANCE_TOKEN` and the step over the space it stopped at. */
  method AdvanceToken(buf: seq<byte>, pos: nat, sse: bool) returns (r: Scan<Slice>)
    requires pos <= |buf|
    ensures r == Token(buf, pos)
  {
    var i, found := FindCharFast(buf, pos, TOKEN_RANGES, sse);
    forall m | pos <= m <= i && m < |buf| ensures InRanges(buf[m], TOKEN_RANGES) <==> !In(buf[m], TokenByte) {
      RangesAreClasses(buf[m]);
    }
    while i < |buf| && buf[i] != SP
      invariant pos <= i <= |buf|
      invariant forall m | pos <= m < i :: In(buf[m], TokenByte)
    {
      if !IsPrintableAscii(buf[i]) && (buf[i] < ' ' || buf[i] == DEL) {
        SpanUnique(buf, pos, TokenByte, i);
        return Bad;
      }
      i := i + 1;
    }
    SpanUnique(buf, pos, TokenByte, i);
    return if i == |buf| then More else Done(i + 1, Slice(pos, i));
  }

  // ---------- The scalar parts ----------

  /** `is_complete`. */
  method CheckComplete(buf: seq<byte>, last: nat) returns (r: Scan<()>)
    requires last <= |buf|
    ensures r == G.IsComplete(buf, G.Resume(last), 0)
  {
    var i := if last < 3 then 0 else last - 3;
    var cnt := 0;
    while true
      invariant i <= |buf| && 0 <= cnt < 2
      invariant G.IsComplete(buf, i, cnt) == G.IsComplete(buf, G.Resume(last), 0)
      decreases |buf| - i
    {
      if i == |buf| {
        return More;
      }
      if buf[i] == CR {
        i := i + 1;
        var e := ExpectChar(buf, i, LF);
        if !e.Done? {
          return e;
        }
        i, cnt := e.pos, cnt + 1;
      } else if buf[i] == LF {
        i, cnt := i + 1, cnt + 1;
      } else {
        i, cnt := i + 1, 0;
      }
      if cnt == 2 {
        return Done(i, ());
      }
    }
  }

  /** `parse_int`. The number itself is in `r`; `value` is what the `int` holds that it is computed in. */
  method ParseInt(buf: seq<byte>, pos: nat) returns (r: Scan<nat>, value: int)
    requires pos <= |buf|
    ensures r == Int(buf, pos)
    ensures r.Done? ==> value == ToInt(r.value) && (value == r.value <==> r.value <= INT_MAX)
  {
    if pos == |buf| {
      return More, 0;
    }
    if !IsDigit(buf[pos]) {
      return Bad, 0;
    }
    var i := pos;
    ghost var v := 0;
    value := 0;
    while i < |buf| && IsDigit(buf[i])
      invariant pos <= i <= |buf|
      invariant forall m | pos <= m < i :: In(buf[m], DigitByte)
      invariant AllIn(buf[pos..i], DigitByte) && v == DecValue(buf[pos..i]) && value == ToInt(v)
    {
      DigitStep(buf, pos, i);
      ToIntStep(v, buf[i] as int - '0' as int);
      v := v * 10 + (buf[i] as int - '0' as int);
      value := ToInt(value * 10 + buf[i] as int - '0' as int);
      i := i + 1;
    }
    SpanUnique(buf, pos, DigitByte, i);
    return if i == |buf| then More else Done(i, DecValue(buf[pos..i])), value;
  }

  lemma DigitStep(s: seq<byte>, pos: nat, i: nat)
    requires pos <= i < |s| && AllIn(s[pos..i], DigitByte) && IsDigit(s[i])
    ensures AllIn(s[pos..i + 1], DigitByte)
    ensures DecValue(s[pos..i + 1]) == 10 * DecValue(s[pos..i]) + (s[i] as int - '0' as int)
  {
    var t := s[pos..i + 1];
    assert t[..|t| - 1] == s[pos..i] && t[|t| - 1] == s[i];
    assert t == s[pos..i] + [s[i]];
  }

  /** `parse_http_version`: seven EXPECT_CHARs and a number. */
  method ParseHttpVersion(buf: seq<byte>, pos: nat) returns (r: Scan<nat>, value: int)
    requires pos <= |buf|
    ensures r == HttpVersion(buf, pos)
    ensures r.Done? ==> value == ToInt(r.value)
  {
    var i := pos;
    while i < pos + |VERSION|
      invariant pos <= i <= pos + |VERSION| && i <= |buf|
      invariant buf[pos..i] == VERSION[..i - pos]
    {
      var e := ExpectChar(buf, i, VERSION[i - pos]);
      ExpectAllStep(buf, pos, i);
      if !e.Done? {
        return if e.Bad? then Bad else More, 0;
      }
      i := e.pos;
    }
    assert buf[pos..][..|VERSION|] == buf[pos..i] == VERSION;
    r, value := ParseInt(buf, i);
  }

  lemma ExpectAllStep(s: seq<byte>, pos: nat, i: nat)
    requires pos <= i < pos + |VERSION| && i <= |s| && s[pos..i] == VERSION[..i - pos]
    ensures i == |s| ==> ExpectAll(s, pos, VERSION).More?
    ensures i < |s| && s[i] != VERSION[i - pos] ==> ExpectAll(s, pos, VERSION).Bad?
    ensures i < |s| && s[i] == VERSION[i - pos] ==> s[pos..i + 1] == VERSION[..i + 1 - pos]
  {
    if i == |s| {
      assert s[pos..] == s[pos..i];
    } else {
      assert s[pos..][i - pos] == s[i];
      assert VERSION[..i + 1 - pos] == VERSION[..i - pos] + [VERSION[i - pos]];
      assert s[pos..i + 1] == s[pos..i] + [s[i]];
    }
  }

  /** `parse_headers`: fills the caller's array and counts the entries it completed. */
  method ParseHeaders(buf: seq<byte>, pos: nat, headers: array<Header>, maxHeaders: nat, sse: bool)
    returns (r: Scan<()>, n: nat)
    requires pos <= |buf| && maxHeaders <= headers.Length
    modifies headers
    ensures n <= maxHeaders && HeaderScan(r, headers[..n]) == HeadersOf(buf, pos, [], maxHeaders, sse)
  {
    hide HeaderLineOf, Eol;
    var i := pos;
    n := 0;
    while true
      invariant i <= |buf| && n <= maxHeaders
      invariant HeadersOf(buf, i, headers[..n], maxHeaders, sse) == HeadersOf(buf, pos, [], maxHeaders, sse)
      decreases |buf| - i
    {
      if i == |buf| {
        return More, n;
      }
      if buf[i] == CR || buf[i] == LF {
        r := TakeEol(buf, i);
        return r, n;
      }
      if n == maxHeaders {
        return Bad, n;
      }
      var h := ParseHeaderLine(buf, i, n == 0, sse);
      if !h.Done? {
        return if h.Bad? then Bad else More, n;
      }
      ghost var was := headers[..n];
      headers[n] := h.value;
      i, n := h.pos, n + 1;
      assert headers[..n] == was + [h.value];
    }
  }

  /** The name of a header line up to its colon. */
  method ParseName(buf: seq<byte>, pos: nat, sse: bool) returns (r: Scan<Slice>)
    requires pos <= |buf|
    ensures var c := NameStop(buf, pos, sse);
            r == if c == |buf| then More else if buf[c] != ':' then Bad else Done(c + 1, Slice(pos, c))
  {
    hide FastStop, InRanges;
    var i, found := FindCharFast(buf, pos, NAME_RANGES, sse);
    ghost var start := i;
    while i < |buf| && buf[i] != ':'
      invariant start <= i <= |buf|
      invariant forall m | start <= m < i :: In(buf[m], NameByte)
    {
      if buf[i] < ' ' || buf[i] >= '\U{80}' {
        SpanUnique(buf, start, NameByte, i);
        return Bad;
      }
      i := i + 1;
    }
    SpanUnique(buf, start, NameByte, i);
    return if i == |buf| then More else Done(i + 1, Slice(pos, i));
  }

  /** The blanks after the colon at `pos - 1`, and the value. */
  method ParseValue(buf: seq<byte>, pos: nat, sse: bool) returns (r: Scan<Slice>)
    requires 0 < pos <= |buf|
    ensures r == FieldValue(buf, pos - 1)
  {
    hide TokenToEol;
    var i := pos;
    while i < |buf| && (buf[i] == SP || buf[i] == HT)
      invariant pos <= i <= |buf|
      invariant forall m | pos <= m < i :: In(buf[m], BlankByte)
    {
      i := i + 1;
    }
    SpanUnique(buf, pos, BlankByte, i);
    if i == |buf| {
      return More;
    }
    r := GetTokenToEol(buf, i, sse);
  }

  /** The body of that loop for one line. */
  method ParseHeaderLine(buf: seq<byte>, pos: nat, first: bool, sse: bool) returns (r: Scan<Header>)
    requires pos < |buf|
    ensures r == HeaderLineOf(buf, pos, first, sse)
  {
    hide NameStop, FieldValue, TokenToEol;
    var name, v := None, More;
    if first || !(buf[pos] == SP || buf[pos] == HT) {
      if !IsTokenChar(buf[pos]) {
        return Bad;
      }
      var n := ParseName(buf, pos, sse);
      if !n.Done? {
        return if n.Bad? then Bad else More;
      }
      name := Some(n.value);
      v := ParseValue(buf, n.pos, sse);
    } else {
      v := GetTokenToEol(buf, pos, sse);
    }
    return if v.Done? then Done(v.pos, Header(name, v.value)) else if v.Bad? then Bad else More;
  }

  /** The optional or mandatory line end where the cursor stands. */
  method TakeEol(buf: seq<byte>, pos: nat) returns (r: Scan<()>)
    requires pos < |buf|
    ensures r == Eol(buf, pos)
  {
    if buf[pos] == CR {
      r := ExpectChar(buf, pos + 1, LF);
    } else if buf[pos] == LF {
      r := Done(pos + 1, ());
    } else {
      r := Bad;
    }
  }

  /** The request line; `out` is what the out-parameters hold afterwards. */
  method ParseRequestLine(buf: seq<byte>, sse: bool) returns (r: Scan<RequestLine>, out: RequestOut)
    ensures r == ReadRequestLine(buf) && out == RequestFields(buf)
  {
    hide HttpVersion, Token;
    out := NO_REQUEST;
    if |buf| == 0 {
      return More, out;
    }
    var i := 0;
    if buf[0] == CR || buf[0] == LF {
      var lead := TakeEol(buf, 0);
      if !lead.Done? {
        return if lead.Bad? then Bad else More, out;
      }
      i := lead.pos;
    }
    var verb := AdvanceToken(buf, i, sse);
    if !verb.Done? {
      return if verb.Bad? then Bad else More, out;
    }
    out := out.(verb := Some(verb.value));
    var path := AdvanceToken(buf, verb.pos, sse);
    if !path.Done? {
      return if path.Bad? then Bad else More, out;
    }
    out := out.(path := Some(path.value));
    var minor, value := ParseHttpVersion(buf, path.pos);
    if !minor.Done? {
      return if minor.Bad? then Bad else More, out;
    }
    out := out.(minor := value);
    var e := TakeEol(buf, minor.pos);
    r := if e.Done? then Done(e.pos, RequestLine(verb.value, path.value, minor.value))
         else if e.Bad? then Bad else More;
  }

  /** The C return value of a verdict. */
  function Code<T>(r: Scan<T>): int {
    match r case Done(n, _) => n case Bad => -1 case More => -2
  }

  /**
   `phr_parse_request`. The capacity is read from `numHeaders`; `count` is what is left in it, `out` what is left in the
   other out-parameters.
   */
  method PhrParseRequest(buf: seq<byte>, headers: array<Header>, numHeaders: nat, last: nat, sse: bool)
    returns (ret: int, out: RequestOut, count: nat)
    requires last <= |buf| && numHeaders <= headers.Length
    modifies headers
    ensures var p := I.Guarded(buf, last, ParseRequestOf(buf, numHeaders, sse));
            && ret == Code(p.end)
            && count <= headers.Length && headers[..count] == p.headers
            && (p.end.Done? ==> out == RequestOut(Some(p.end.value.verb), Some(p.end.value.path),
                                                  ToInt(p.end.value.minor)))
    ensures out == if last != 0 && !G.IsComplete(buf, G.Resume(last), 0).Done? then NO_REQUEST else RequestFields(buf)
  {
    hide G.IsComplete, ReadRequestLine, RequestFields, HeadersOf;
    out, count := NO_REQUEST, 0;
    if last != 0 {
      var g := CheckComplete(buf, last);
      if !g.Done? {
        return Code(g), out, 0;
      }
    }
    var l;
    l, out := ParseRequestLine(buf, sse);
    LineFields(buf);
    if !l.Done? {
      return Code(l), out, 0;
    }
    var h;
    h, count := ParseHeaders(buf, l.pos, headers, numHeaders, sse);
    ret := Code(h);
  }

  /** `phr_parse_response`. */
  method PhrParseResponse(buf: seq<byte>, headers: array<Header>, numHeaders: nat, last: nat, sse: bool)
    returns (ret: int, out: ResponseOut, count: nat)
    requires last <= |buf| && numHeaders <= headers.Length
    modifies headers
    ensures var p := I.Guarded(buf, last, ParseResponseOf(buf, numHeaders, sse));
            && ret == Code(p.end)
            && count <= headers.Length && headers[..count] == p.headers
            && (p.end.Done? ==> out == ResponseOut(ToInt(p.end.value.minor), ToInt(p.end.value.status),
                                                   Some(p.end.value.msg)))
    ensures out == if last != 0 && !G.IsComplete(buf, G.Resume(last), 0).Done? then NO_RESPONSE else ResponseFields(buf)
  {
    hide G.IsComplete, ReadStatusLine, ResponseFields, HeadersOf;
    out, count := NO_RESPONSE, 0;
    if last != 0 {
      var g := CheckComplete(buf, last);
      if !g.Done? {
        return Code(g), out, 0;
      }
    }
    var l;
    l, out := ParseStatusLine(buf, sse);
    StatusFields(buf);
    if !l.Done? {
      return Code(l), out, 0;
    }
    var h;
    h, count := ParseHeaders(buf, l.pos, headers, numHeaders, sse);
    ret := Code(h);
  }

  /** `phr_parse_headers`. */
  method PhrParseHeaders(buf: seq<byte>, headers: array<Header>, numHeaders: nat, last: nat, sse: bool)
    returns (ret: int, count: nat)
    requires last <= |buf| && numHeaders <= headers.Length
    modifies headers
    ensures var p := I.Guarded(buf, last, ParseHeadersOf(buf, numHeaders, sse));
            ret == Code(p.end) && count <= headers.Length && headers[..count] == p.headers
  {
    count := 0;
    if last != 0 {
      var g := CheckComplete(buf, last);
      if !g.Done? {
        return Code(g), 0;
      }
    }
    var h;
    h, count := ParseHeaders(buf, 0, headers, numHeaders, sse);
    return Code(h), count;
  }

  method ParseStatusLine(buf: seq<byte>, sse: bool) returns (r: Scan<StatusLine>, out: ResponseOut)
    ensures r == ReadStatusLine(buf) && out == ResponseFields(buf)
  {
    hide HttpVersion, Int, TokenToEol;
    out := NO_RESPONSE;
    var minor, m := ParseHttpVersion(buf, 0);
    if !minor.Done? {
      return if minor.Bad? then Bad else More, out;
    }
    out := out.(minor := m);
    if buf[minor.pos] != SP {
      return Bad, out;
    }
    var status, n := ParseInt(buf, minor.pos + 1);
    if !status.Done? {
      return if status.Bad? then Bad else More, out;
    }
    out := out.(status := n);
    if buf[status.pos] != SP {
      return Bad, out;
    }
    var msg := GetTokenToEol(buf, status.pos + 1, sse);
    if msg.Done? {
      out := out.(msg := Some(msg.value));
    }
    r := if msg.Done? then Done(msg.pos, StatusLine(minor.value, status.value, msg.value))
         else if msg.Bad? then Bad else More;
  }
}
