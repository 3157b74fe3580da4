/**
 `parse_headers`, `parse_request` and `parse_response` of picohttpparser.c as functions of the whole buffer.
 The cursor loops that compute them are in Parser.dfy.
 */
module Message {
  import opened Bytes
  import opened Scanner

  datatype Option<+T> = None | Some(value: T)

  /** `struct phr_header`; no name marks a continuation line. */
  datatype Header = Header(name: Option<Slice>, value: Slice)

  /** The verdict on a header block together with the header entries completed before it. */
  datatype HeaderScan = HeaderScan(end: Scan<()>, headers: seq<Header>)

  datatype RequestLine = RequestLine(verb: Slice, path: Slice, minor: nat)

  datatype StatusLine = StatusLine(minor: nat, status: nat, msg: Slice)

  /** The verdict on a message, and what `*num_headers` and the header array hold when it is given. */
  datatype Parse<+L> = Parse(end: Scan<L>, headers: seq<Header>)

  /** A field line after its name: the colon, blanks that are dropped, the value. */
  function FieldValue(s: seq<byte>, colon: nat): (r: Scan<Slice>)
    requires colon < |s|
    ensures r.Done? ==> colon < r.pos <= |s|
  {
    var b := Span(s, colon + 1, BlankByte);
    if b == |s| then More else TokenToEol(s, b)
  }

  /** One iteration of the loop of `parse_headers` past the blank-line and capacity tests. */
  function HeaderLine(s: seq<byte>, i: nat, first: bool): (r: Scan<Header>)
    requires i < |s|
    ensures r.Done? ==> i < r.pos <= |s|
  {
    if !first && IsBlank(s[i]) then
      var (p, value) :- TokenToEol(s, i);
      Done(p, Header(None, value))
    else if !IsTokenChar(s[i]) then
      Bad
    else
      var c := Span(s, i, NameByte);
      if c == |s| then More else if s[c] != ':' then Bad else
      var (p, value) :- FieldValue(s, c);
      Done(p, Header(Some(Slice(i, c)), value))
  }

  /** `parse_headers` from offset `i`, when `hs` has been collected and the array holds `cap` entries. */
  function Headers(s: seq<byte>, i: nat, hs: seq<Header>, cap: nat): (r: HeaderScan)
    requires i <= |s|
    decreases |s| - i
  {
    if i == |s| then HeaderScan(More, hs)
    else if IsLineEnd(s[i]) then HeaderScan(Eol(s, i), hs)
    else if |hs| == cap then HeaderScan(Bad, hs)
    else
      match HeaderLine(s, i, |hs| == 0)
      case Done(p, h) => Headers(s, p, hs + [h], cap)
      case Bad => HeaderScan(Bad, hs)
      case More => HeaderScan(More, hs)
  }

  /** The empty line some clients send before a request. */
  function LeadingEol(s: seq<byte>): (r: Scan<()>)
    ensures r.Done? ==> r.pos <= |s|
  {
    if s == [] then More else if IsLineEnd(s[0]) then Eol(s, 0) else Done(0, ())
  }

  /** The version and the line end after it, which closes a request line. */
  function VersionLine(s: seq<byte>, i: nat): (r: Scan<nat>)
    requires i <= |s|
    ensures r.Done? ==> i < r.pos <= |s|
  {
    var (v, minor) :- HttpVersion(s, i);
    var (e, _) :- Eol(s, v);
    Done(e, minor)
  }

  /** `parse_request` up to the end of the request line. */
  function ReadRequestLine(s: seq<byte>): (r: Scan<RequestLine>)
    ensures r.Done? ==> r.pos <= |s|
  {
    var (p, _) :- LeadingEol(s);
    var (q, verb) :- Token(s, p);
    var (t, path) :- Token(s, q);
    var (e, minor) :- VersionLine(s, t);
    Done(e, RequestLine(verb, path, minor))
  }

  /** `parse_response` up to the end of the status line. */
  function ReadStatusLine(s: seq<byte>): (r: Scan<StatusLine>)
    ensures r.Done? ==> r.pos <= |s|
  {
    var (p, minor) :- HttpVersion(s, 0);
    var (q, _) :- Expect(s, p, SP);
    var (t, status) :- Int(s, q);
    var (u, _) :- Expect(s, t, SP);
    var (e, msg) :- TokenToEol(s, u);
    Done(e, StatusLine(minor, status, msg))
  }

  // ---------- The out-parameters ----------

  /** `*method`, `*path` and `*minor_version`: the pointers are NULL and the number is -1 until they are set. */
  datatype RequestOut = RequestOut(verb: Option<Slice>, path: Option<Slice>, minor: int)

  const NO_REQUEST := RequestOut(None, None, -1)

  /** What `parse_request` has set when it returns, wherever it does. */
  function RequestFields(s: seq<byte>): RequestOut {
    var p := LeadingEol(s);
    if !p.Done? then NO_REQUEST else
    var q := Token(s, p.pos);
    if !q.Done? then NO_REQUEST else
    var t := Token(s, q.pos);
    if !t.Done? then RequestOut(Some(q.value), None, -1) else
    var v := HttpVersion(s, t.pos);
    RequestOut(Some(q.value), Some(t.value), if v.Done? then ToInt(v.value) else -1)
  }

  /** After a request line that was read they are its fields. */
  lemma LineFields(s: seq<byte>)
    ensures var r := ReadRequestLine(s);
            r.Done? ==>
              RequestFields(s) == RequestOut(Some(r.value.verb), Some(r.value.path), ToInt(r.value.minor))
  {
    hide Token, HttpVersion, LeadingEol;
  }

  /** `*minor_version`, `*status` and `*msg`. */
  datatype ResponseOut = ResponseOut(minor: int, status: int, msg: Option<Slice>)

  const NO_RESPONSE := ResponseOut(-1, 0, None)

  function ResponseFields(s: seq<byte>): ResponseOut {
    var v := HttpVersion(s, 0);
    if !v.Done? then NO_RESPONSE else
    var minor := ToInt(v.value);
    if s[v.pos] != SP then ResponseOut(minor, 0, None) else
    var n := Int(s, v.pos + 1);
    if !n.Done? then ResponseOut(minor, 0, None) else
    var status := ToInt(n.value);
    if s[n.pos] != SP then ResponseOut(minor, status, None) else
    var m := TokenToEol(s, n.pos + 1);
    ResponseOut(minor, status, if m.Done? then Some(m.value) else None)
  }

  lemma StatusFields(s: seq<byte>)
    ensures var r := ReadStatusLine(s);
            r.Done? ==>
              ResponseFields(s) == ResponseOut(ToInt(r.value.minor), ToInt(r.value.status), Some(r.value.msg))
  {
    hide HttpVersion, Int, TokenToEol;
  }

  // ---------- Whole messages ----------

  /** The header block that follows a start line, whichever message it belongs to. */
  function WithHeaders<L>(s: seq<byte>, line: Scan<L>, cap: nat): (r: Parse<L>)
    requires line.Done? ==> line.pos <= |s|
  {
    if !line.Done? then Parse(line, []) else
    var h := Headers(s, line.pos, [], cap);
    match h.end
    case Done(n, _) => Parse(Done(n, line.value), h.headers)
    case Bad => Parse(Bad, h.headers)
    case More => Parse(More, h.headers)
  }

  function ParseRequest(s: seq<byte>, cap: nat): (r: Parse<RequestLine>) {
    WithHeaders(s, ReadRequestLine(s), cap)
  }

  function ParseResponse(s: seq<byte>, cap: nat): (r: Parse<StatusLine>) {
    WithHeaders(s, ReadStatusLine(s), cap)
  }
}
