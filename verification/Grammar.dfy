/**
 The messages picohttpparser accepts, as printed texts: the shape of sections 3.1.1, 3.1.2, 3.2 and 3.2.4 of RFC 7230
 with the liberties the parser takes. A line may end in a lone LF, a leading empty line is skipped, method and path may
 be empty and hold any byte but blanks and controls, only the first byte of a header name is held to the token table,
 and the number behind "HTTP/1." may have any number of digits. A text determines its bytes and the parser's answer.
 */
module Grammar {
  import opened Bytes
  import opened Scanner
  import opened Message

  datatype LineEnd = CrLf | Lf

  datatype HeaderText =
    | Field(name: seq<byte>, blanks: seq<byte>, value: seq<byte>, eol: LineEnd)
    | Continuation(line: seq<byte>, eol: LineEnd)

  /** The header lines and the blank line after them. */
  datatype BlockText = BlockText(lines: seq<HeaderText>, last: LineEnd)

  datatype RequestText = RequestText(lead: Option<LineEnd>, verb: seq<byte>, path: seq<byte>, minor: seq<byte>,
                                     eol: LineEnd, block: BlockText)

  datatype ResponseText = ResponseText(minor: seq<byte>, status: seq<byte>, msg: seq<byte>, eol: LineEnd,
                                       block: BlockText)

  // ---------- Well-formedness ----------

  predicate IsNumeral(t: seq<byte>) {
    t != [] && AllIn(t, DigitByte)
  }

  predicate WfHeader(h: HeaderText, first: bool) {
    match h
    case Field(name, blanks, value, _) =>
      && name != [] && IsTokenChar(name[0]) && AllIn(name, NameByte)
      && AllIn(blanks, BlankByte)
      && AllIn(value, ValueByte) && (value != [] ==> !IsBlank(value[0]))
    case Continuation(line, _) =>
      && !first
      && line != [] && IsBlank(line[0]) && AllIn(line, ValueByte)
  }

  predicate WfLines(lines: seq<HeaderText>, first: bool) {
    lines != [] ==> WfHeader(lines[0], first) && WfLines(lines[1..], false)
  }

  predicate WfRequest(a: RequestText, cap: nat) {
    && AllIn(a.verb, TokenByte) && AllIn(a.path, TokenByte) && IsNumeral(a.minor)
    && WfLines(a.block.lines, true) && |a.block.lines| <= cap
  }

  predicate WfResponse(a: ResponseText, cap: nat) {
    && IsNumeral(a.minor) && IsNumeral(a.status) && AllIn(a.msg, ValueByte)
    && WfLines(a.block.lines, true) && |a.block.lines| <= cap
  }

  /** `tchar` of section 3.2.6 of RFC 7230. */
  predicate IsTchar(c: byte) {
    || c in {'!', '#', '$', '%', '&', '\'', '*', '+', '-', '.', '^', '_', '`', '|', '~'}
    || '0' <= c <= '9' || 'A' <= c <= 'Z' || 'a' <= c <= 'z'
  }

  /** A header name may start with any `tchar` and, beyond RFC 7230, with a double quote. */
  lemma TokenCharRfc(c: byte)
    ensures IsTokenChar(c) <==> IsTchar(c) || c == '"'
  {
  }

  // ---------- Printing ----------

  function PrintEol(e: LineEnd): seq<byte> {
    match e case CrLf => "\r\n" case Lf => "\n"
  }

  function PrintLead(e: Option<LineEnd>): seq<byte> {
    match e case None => [] case Some(l) => PrintEol(l)
  }

  function PrintHeader(h: HeaderText): seq<byte> {
    match h
    case Field(name, blanks, value, eol) => name + ([':'] + (blanks + (value + PrintEol(eol))))
    case Continuation(line, eol) => line + PrintEol(eol)
  }

  function PrintLines(lines: seq<HeaderText>): seq<byte> {
    if lines == [] then [] else PrintHeader(lines[0]) + PrintLines(lines[1..])
  }

  function PrintBlock(b: BlockText): seq<byte> {
    PrintLines(b.lines) + PrintEol(b.last)
  }

  function PrintRequestLine(a: RequestText): seq<byte> {
    PrintLead(a.lead) + (a.verb + ([SP] + (a.path + ([SP] + (VERSION + (a.minor + PrintEol(a.eol)))))))
  }

  function PrintStatusLine(a: ResponseText): seq<byte> {
    VERSION + (a.minor + ([SP] + (a.status + ([SP] + (a.msg + PrintEol(a.eol))))))
  }

  function PrintRequest(a: RequestText): seq<byte> {
    PrintRequestLine(a) + PrintBlock(a.block)
  }

  function PrintResponse(a: ResponseText): seq<byte> {
    PrintStatusLine(a) + PrintBlock(a.block)
  }

  // ---------- What the parser reports about a printed text ----------

  function Entry(h: HeaderText, i: nat): Header {
    match h
    case Field(name, blanks, value, _) =>
      var v := i + |name| + 1 + |blanks|;
      Header(Some(Slice(i, i + |name|)), Slice(v, v + |value|))
    case Continuation(line, _) => Header(None, Slice(i, i + |line|))
  }

  function Entries(lines: seq<HeaderText>, i: nat): (r: seq<Header>)
    ensures |r| == |lines|
  {
    if lines == [] then [] else [Entry(lines[0], i)] + Entries(lines[1..], i + |PrintHeader(lines[0])|)
  }

  function LineOf(a: RequestText): RequestLine
    requires IsNumeral(a.minor)
  {
    var v := |PrintLead(a.lead)|;
    var p := v + |a.verb| + 1;
    RequestLine(Slice(v, v + |a.verb|), Slice(p, p + |a.path|), DecValue(a.minor))
  }

  function StatusOf(a: ResponseText): StatusLine
    requires IsNumeral(a.minor) && IsNumeral(a.status)
  {
    var m := 7 + |a.minor| + 1 + |a.status| + 1;
    StatusLine(DecValue(a.minor), DecValue(a.status), Slice(m, m + |a.msg|))
  }

  // ---------- Each primitive and the text it recognises ----------

  lemma EolComplete(s: seq<byte>, i: nat, e: LineEnd)
    requires At(s, i, PrintEol(e))
    ensures i < |s| && IsLineEnd(s[i]) && Eol(s, i) == Done(i + |PrintEol(e)|, ())
  {
    AtIndex(s, i, PrintEol(e));
  }

  lemma EolSound(s: seq<byte>, i: nat) returns (e: LineEnd)
    requires i < |s| && Eol(s, i).Done?
    ensures At(s, i, PrintEol(e)) && Eol(s, i) == Done(i + |PrintEol(e)|, ())
  {
    e := if s[i] == CR then CrLf else Lf;
    assert s[i..i + |PrintEol(e)|] == PrintEol(e);
  }

  lemma AtSingle(s: seq<byte>, i: nat, c: byte)
    ensures At(s, i, [c]) <==> i < |s| && s[i] == c
  {
    if i < |s| {
      assert s[i..i + 1] == [s[i]];
    }
  }

  lemma ExpectAllAt(s: seq<byte>, i: nat, t: seq<byte>)
    requires i <= |s|
    ensures ExpectAll(s, i, t).Done? <==> At(s, i, t)
  {
    if i + |t| <= |s| {
      assert s[i..][..|t|] == s[i..i + |t|];
    }
  }

  /** A loop over a class runs exactly over a text of that class that something outside the class follows. */
  lemma SpanAt(s: seq<byte>, i: nat, t: seq<byte>, k: ByteClass)
    requires At(s, i, t) && AllIn(t, k)
    requires i + |t| < |s| && !In(s[i + |t|], k)
    ensures Span(s, i, k) == i + |t|
  {
    AtIndex(s, i, t);
    SpanUnique(s, i, k, i + |t|);
  }

  lemma SpanText(s: seq<byte>, i: nat, k: ByteClass) returns (t: seq<byte>)
    requires i <= |s|
    ensures Span(s, i, k) == i + |t| && t == s[i..i + |t|] && At(s, i, t) && AllIn(t, k)
  {
    t := s[i..Span(s, i, k)];
    forall m | 0 <= m < |t| ensures In(t[m], k) {
      assert t[m] == s[i + m];
    }
  }

  lemma TokenComplete(s: seq<byte>, i: nat, t: seq<byte>)
    requires At(s, i, t) && At(s, i + |t|, [SP]) && AllIn(t, TokenByte)
    ensures i <= |s| && Token(s, i) == Done(i + |t| + 1, Slice(i, i + |t|))
  {
    AtSingle(s, i + |t|, SP);
    SpanAt(s, i, t, TokenByte);
  }

  lemma TokenSound(s: seq<byte>, i: nat) returns (t: seq<byte>)
    requires i <= |s| && Token(s, i).Done?
    ensures At(s, i, t) && At(s, i + |t|, [SP]) && AllIn(t, TokenByte)
    ensures Token(s, i) == Done(i + |t| + 1, Slice(i, i + |t|))
  {
    t := SpanText(s, i, TokenByte);
    AtSingle(s, i + |t|, SP);
  }

  lemma IntComplete(s: seq<byte>, i: nat, t: seq<byte>)
    requires At(s, i, t) && IsNumeral(t) && i + |t| < |s| && !IsDigit(s[i + |t|])
    ensures Int(s, i) == Done(i + |t|, DecValue(t))
  {
    SpanAt(s, i, t, DigitByte);
  }

  lemma IntSound(s: seq<byte>, i: nat) returns (t: seq<byte>)
    requires i <= |s| && Int(s, i).Done?
    ensures At(s, i, t) && IsNumeral(t) && Int(s, i) == Done(i + |t|, DecValue(t))
    ensures i + |t| < |s| && !IsDigit(s[i + |t|])
  {
    t := SpanText(s, i, DigitByte);
  }

  lemma LineComplete(s: seq<byte>, i: nat, t: seq<byte>, e: LineEnd)
    requires At(s, i, t) && At(s, i + |t|, PrintEol(e)) && AllIn(t, ValueByte)
    ensures i <= |s| && TokenToEol(s, i) == Done(i + |t| + |PrintEol(e)|, Slice(i, i + |t|))
  {
    EolComplete(s, i + |t|, e);
    SpanAt(s, i, t, ValueByte);
  }

  lemma LineSound(s: seq<byte>, i: nat) returns (t: seq<byte>, e: LineEnd)
    requires i <= |s| && TokenToEol(s, i).Done?
    ensures At(s, i, t) && At(s, i + |t|, PrintEol(e)) && AllIn(t, ValueByte)
    ensures TokenToEol(s, i) == Done(i + |t| + |PrintEol(e)|, Slice(i, i + |t|))
  {
    t := SpanText(s, i, ValueByte);
    e := EolSound(s, i + |t|);
  }

  lemma VersionComplete(s: seq<byte>, i: nat, minor: seq<byte>)
    requires At(s, i, VERSION) && At(s, i + 7, minor) && IsNumeral(minor)
    requires i + 7 + |minor| < |s| && !IsDigit(s[i + 7 + |minor|])
    ensures HttpVersion(s, i) == Done(i + 7 + |minor|, DecValue(minor))
  {
    ExpectAllAt(s, i, VERSION);
    IntComplete(s, i + 7, minor);
  }

  lemma VersionSound(s: seq<byte>, i: nat) returns (minor: seq<byte>)
    requires i <= |s| && HttpVersion(s, i).Done?
    ensures IsNumeral(minor) && HttpVersion(s, i) == Done(i + 7 + |minor|, DecValue(minor))
    ensures At(s, i, VERSION) && At(s, i + 7, minor) && i + 7 + |minor| < |s|
  {
    ExpectAllAt(s, i, VERSION);
    minor := IntSound(s, i + 7);
  }

  // ---------- Header lines ----------

  /** Where the pieces of a printed field stand. */
  ghost predicate FieldAt(s: seq<byte>, i: nat, h: HeaderText)
    requires h.Field?
  {
    var c := i + |h.name|;
    var v := c + 1 + |h.blanks|;
    At(s, i, h.name) && At(s, c, [':']) && At(s, c + 1, h.blanks)
    && At(s, v, h.value) && At(s, v + |h.value|, PrintEol(h.eol))
  }

  lemma FieldLayout(s: seq<byte>, i: nat, h: HeaderText)
    requires h.Field?
    ensures At(s, i, PrintHeader(h)) <==> FieldAt(s, i, h)
    ensures |PrintHeader(h)| == |h.name| + 1 + |h.blanks| + |h.value| + |PrintEol(h.eol)|
  {
    hide At, PrintEol;
    var c := i + |h.name|;
    var v := c + 1 + |h.blanks|;
    var e := PrintEol(h.eol);
    AtConcat(s, i, h.name, [':'] + (h.blanks + (h.value + e)));
    AtConcat(s, c, [':'], h.blanks + (h.value + e));
    AtConcat(s, c + 1, h.blanks, h.value + e);
    AtConcat(s, v, h.value, e);
  }

  lemma HeaderComplete(s: seq<byte>, i: nat, h: HeaderText, first: bool)
    requires WfHeader(h, first) && At(s, i, PrintHeader(h))
    ensures i < |s| && !IsLineEnd(s[i])
    ensures HeaderLine(s, i, first) == Done(i + |PrintHeader(h)|, Entry(h, i))
  {
    hide At, PrintEol;
    match h
    case Continuation(line, eol) =>
      AtConcat(s, i, line, PrintEol(eol));
      LineComplete(s, i, line, eol);
      AtIndex(s, i, line);
    case Field(_, _, _, _) => FieldComplete(s, i, h, first);
  }

  lemma FieldComplete(s: seq<byte>, i: nat, h: HeaderText, first: bool)
    requires h.Field? && WfHeader(h, first) && At(s, i, PrintHeader(h))
    ensures i < |s| && !IsLineEnd(s[i])
    ensures HeaderLine(s, i, first) == Done(i + |PrintHeader(h)|, Entry(h, i))
  {
    hide At, PrintEol, PrintHeader, FieldValue;
    FieldLayout(s, i, h);
    var c := i + |h.name|;
    AtIndex(s, i, h.name);
    AtSingle(s, c, ':');
    SpanAt(s, i, h.name, NameByte);
    FieldValueComplete(s, c, h.blanks, h.value, h.eol);
  }

  lemma FieldValueComplete(s: seq<byte>, c: nat, blanks: seq<byte>, value: seq<byte>, eol: LineEnd)
    requires At(s, c + 1, blanks) && At(s, c + 1 + |blanks|, value)
    requires At(s, c + 1 + |blanks| + |value|, PrintEol(eol))
    requires AllIn(blanks, BlankByte) && AllIn(value, ValueByte) && (value != [] ==> !IsBlank(value[0]))
    ensures c < |s| && FieldValue(s, c) == Done(c + 1 + |blanks| + |value| + |PrintEol(eol)|,
                                                Slice(c + 1 + |blanks|, c + 1 + |blanks| + |value|))
  {
    hide At, PrintEol;
    var b := c + 1 + |blanks|;
    AtIndex(s, b, value);
    EolComplete(s, b + |value|, eol);
    SpanAt(s, c + 1, blanks, BlankByte);
    LineComplete(s, b, value, eol);
  }

  lemma FieldSound(s: seq<byte>, i: nat) returns (h: HeaderText)
    requires i < |s| && IsTokenChar(s[i])
    requires var c := Span(s, i, NameByte); c < |s| && s[c] == ':' && FieldValue(s, c).Done?
    ensures h.Field? && WfHeader(h, true) && FieldAt(s, i, h)
    ensures var c := Span(s, i, NameByte);
            c == i + |h.name| && FieldValue(s, c) == Done(i + |PrintHeader(h)|, Entry(h, i).value)
  {
    hide At, PrintEol, AllIn, IsTokenChar, FieldValue;
    var name := SpanText(s, i, NameByte);
    var c := i + |name|;
    AtSingle(s, c, ':');
    AtIndex(s, i, name);
    var blanks, value, eol := FieldValueSound(s, c);
    h := Field(name, blanks, value, eol);
    FieldLayout(s, i, h);
    assert In(s[i], NameByte) by {
      TokenIsName(s[i]);
    }
  }

  lemma TokenIsName(c: byte)
    requires IsTokenChar(c)
    ensures In(c, NameByte)
  {
  }

  lemma FieldValueSound(s: seq<byte>, c: nat) returns (blanks: seq<byte>, value: seq<byte>, eol: LineEnd)
    requires c < |s| && FieldValue(s, c).Done?
    ensures var v := c + 1 + |blanks|;
            && At(s, c + 1, blanks) && At(s, v, value) && At(s, v + |value|, PrintEol(eol))
            && FieldValue(s, c) == Done(v + |value| + |PrintEol(eol)|, Slice(v, v + |value|))
    ensures AllIn(blanks, BlankByte) && AllIn(value, ValueByte) && (value != [] ==> !IsBlank(value[0]))
  {
    hide At, PrintEol, TokenToEol, AllIn;
    blanks := SpanText(s, c + 1, BlankByte);
    value, eol := LineSound(s, c + 1 + |blanks|);
    AtIndex(s, c + 1 + |blanks|, value);
  }

  lemma ContinuationSound(s: seq<byte>, i: nat) returns (h: HeaderText)
    requires i < |s| && IsBlank(s[i]) && TokenToEol(s, i).Done?
    ensures h.Continuation? && WfHeader(h, false) && At(s, i, PrintHeader(h))
    ensures TokenToEol(s, i) == Done(i + |PrintHeader(h)|, Entry(h, i).value)
  {
    hide At, PrintEol, TokenToEol;
    var line, eol := LineSound(s, i);
    AtConcat(s, i, line, PrintEol(eol));
    AtIndex(s, i, line);
    EolComplete(s, i + |line|, eol);
    h := Continuation(line, eol);
  }

  lemma HeaderSound(s: seq<byte>, i: nat, first: bool) returns (h: HeaderText)
    requires i < |s| && HeaderLine(s, i, first).Done?
    ensures WfHeader(h, first) && At(s, i, PrintHeader(h))
    ensures HeaderLine(s, i, first) == Done(i + |PrintHeader(h)|, Entry(h, i))
  {
    hide At, PrintHeader, TokenToEol, FieldAt, FieldValue;
    if !first && IsBlank(s[i]) {
      h := ContinuationSound(s, i);
    } else {
      h := FieldSound(s, i);
      FieldLayout(s, i, h);
    }
  }

  /** `Headers` reads back every printed block, to which it adds the entries collected before. */
  lemma {:induction false} BlockComplete(s: seq<byte>, i: nat, hs: seq<Header>, cap: nat, b: BlockText)
    requires WfLines(b.lines, hs == []) && At(s, i, PrintBlock(b))
    requires |hs| + |b.lines| <= cap
    ensures i <= |s|
    ensures Headers(s, i, hs, cap) == HeaderScan(Done(i + |PrintBlock(b)|, ()), hs + Entries(b.lines, i))
    decreases |b.lines|
  {
    hide At, PrintEol, PrintHeader, HeaderLine, WfHeader, Entry;
    if b.lines == [] {
      assert PrintBlock(b) == PrintEol(b.last);
      EolComplete(s, i, b.last);
      assert hs + [] == hs;
    } else {
      var h, rest := b.lines[0], BlockText(b.lines[1..], b.last);
      PrintBlockStep(b);
      AtConcat(s, i, PrintHeader(h), PrintBlock(rest));
      HeaderComplete(s, i, h, hs == []);
      var p := i + |PrintHeader(h)|;
      BlockComplete(s, p, hs + [Entry(h, i)], cap, rest);
      assert hs + [Entry(h, i)] + Entries(rest.lines, p) == hs + Entries(b.lines, i);
    }
  }

  lemma PrintBlockStep(b: BlockText)
    requires b.lines != []
    ensures PrintBlock(b) == PrintHeader(b.lines[0]) + PrintBlock(BlockText(b.lines[1..], b.last))
  {
    hide PrintEol, PrintHeader;
  }

  lemma {:induction false} BlockSound(s: seq<byte>, i: nat, hs: seq<Header>, cap: nat) returns (b: BlockText)
    requires i <= |s| && |hs| <= cap && Headers(s, i, hs, cap).end.Done?
    ensures WfLines(b.lines, hs == []) && At(s, i, PrintBlock(b))
    ensures |hs| + |b.lines| <= cap
    ensures Headers(s, i, hs, cap) == HeaderScan(Done(i + |PrintBlock(b)|, ()), hs + Entries(b.lines, i))
    decreases |s| - i
  {
    hide At, PrintEol, PrintHeader, HeaderLine, WfHeader, Entry;
    if IsLineEnd(s[i]) {
      var e := EolSound(s, i);
      b := BlockText([], e);
      assert PrintBlock(b) == PrintEol(e);
      assert hs + [] == hs;
    } else {
      var h := HeaderSound(s, i, hs == []);
      var p := i + |PrintHeader(h)|;
      var rest := BlockSound(s, p, hs + [Entry(h, i)], cap);
      b := BlockText([h] + rest.lines, rest.last);
      assert b.lines[1..] == rest.lines;
      PrintBlockStep(b);
      AtConcat(s, i, PrintHeader(h), PrintBlock(rest));
      assert hs + [Entry(h, i)] + Entries(rest.lines, p) == hs + Entries(b.lines, i);
    }
  }

  // ---------- Start lines ----------

  ghost predicate RequestLineAt(s: seq<byte>, a: RequestText) {
    var v := |PrintLead(a.lead)|;
    var p := v + |a.verb| + 1;
    var n := p + |a.path| + 1;
    && At(s, 0, PrintLead(a.lead)) && At(s, v, a.verb) && At(s, v + |a.verb|, [SP])
    && At(s, p, a.path) && At(s, p + |a.path|, [SP])
    && At(s, n, VERSION) && At(s, n + 7, a.minor) && At(s, n + 7 + |a.minor|, PrintEol(a.eol))
  }

  lemma RequestLineLayout(s: seq<byte>, a: RequestText)
    ensures At(s, 0, PrintRequestLine(a)) <==> RequestLineAt(s, a)
    ensures |PrintRequestLine(a)|
         == |PrintLead(a.lead)| + |a.verb| + 1 + |a.path| + 1 + 7 + |a.minor| + |PrintEol(a.eol)|
  {
    hide At, PrintEol, PrintLead;
    var v := |PrintLead(a.lead)|;
    var p := v + |a.verb| + 1;
    var n := p + |a.path| + 1;
    var e := PrintEol(a.eol);
    AtConcat(s, 0, PrintLead(a.lead), a.verb + ([SP] + (a.path + ([SP] + (VERSION + (a.minor + e))))));
    AtConcat(s, v, a.verb, [SP] + (a.path + ([SP] + (VERSION + (a.minor + e)))));
    AtConcat(s, v + |a.verb|, [SP], a.path + ([SP] + (VERSION + (a.minor + e))));
    AtConcat(s, p, a.path, [SP] + (VERSION + (a.minor + e)));
    AtConcat(s, p + |a.path|, [SP], VERSION + (a.minor + e));
    AtConcat(s, n, VERSION, a.minor + e);
    AtConcat(s, n + 7, a.minor, e);
  }

  lemma RequestLineComplete(s: seq<byte>, a: RequestText, cap: nat)
    requires WfRequest(a, cap) && At(s, 0, PrintRequestLine(a))
    ensures ReadRequestLine(s) == Done(|PrintRequestLine(a)|, LineOf(a))
  {
    hide At, PrintEol, PrintRequestLine, Token, HttpVersion, Eol;
    RequestLineLayout(s, a);
    var v := |PrintLead(a.lead)|;
    var p := v + |a.verb| + 1;
    var n := p + |a.path| + 1;
    TokenComplete(s, v, a.verb);
    TokenComplete(s, p, a.path);
    EolComplete(s, n + 7 + |a.minor|, a.eol);
    VersionComplete(s, n, a.minor);
    LeadComplete(s, a.lead, a.verb);
  }

  lemma LeadComplete(s: seq<byte>, lead: Option<LineEnd>, verb: seq<byte>)
    requires At(s, 0, PrintLead(lead)) && AllIn(verb, TokenByte)
    requires At(s, |PrintLead(lead)|, verb) && At(s, |PrintLead(lead)| + |verb|, [SP])
    ensures LeadingEol(s) == Done(|PrintLead(lead)|, ())
  {
    if lead.Some? {
      EolComplete(s, 0, lead.value);
    } else {
      AtIndex(s, 0, verb);
      AtSingle(s, |verb|, SP);
    }
  }

  lemma LeadSound(s: seq<byte>) returns (lead: Option<LineEnd>)
    requires LeadingEol(s).Done?
    ensures At(s, 0, PrintLead(lead)) && LeadingEol(s) == Done(|PrintLead(lead)|, ())
  {
    if IsLineEnd(s[0]) {
      var e := EolSound(s, 0);
      lead := Some(e);
    } else {
      lead := None;
    }
  }

  lemma RequestLineSound(s: seq<byte>, block: BlockText) returns (a: RequestText)
    requires ReadRequestLine(s).Done?
    requires WfLines(block.lines, true)
    ensures WfRequest(a, |block.lines|) && a.block == block && At(s, 0, PrintRequestLine(a))
    ensures ReadRequestLine(s) == Done(|PrintRequestLine(a)|, LineOf(a))
  {
    hide At, PrintEol, PrintLead, PrintRequestLine, Token, HttpVersion, Eol, LeadingEol;
    var lead := LeadSound(s);
    var p := |PrintLead(lead)|;
    var verb := TokenSound(s, p);
    var q := p + |verb| + 1;
    var path := TokenSound(s, q);
    var t := q + |path| + 1;
    var minor := VersionSound(s, t);
    var eol := EolSound(s, t + 7 + |minor|);
    a := RequestText(lead, verb, path, minor, eol, block);
    RequestLineLayout(s, a);
  }

  ghost predicate StatusLineAt(s: seq<byte>, a: ResponseText) {
    var p := 7 + |a.minor|;
    var t := p + 1 + |a.status|;
    && At(s, 0, VERSION) && At(s, 7, a.minor) && At(s, p, [SP])
    && At(s, p + 1, a.status) && At(s, t, [SP])
    && At(s, t + 1, a.msg) && At(s, t + 1 + |a.msg|, PrintEol(a.eol))
  }

  lemma StatusLineLayout(s: seq<byte>, a: ResponseText)
    ensures At(s, 0, PrintStatusLine(a)) <==> StatusLineAt(s, a)
    ensures |PrintStatusLine(a)| == 7 + |a.minor| + 1 + |a.status| + 1 + |a.msg| + |PrintEol(a.eol)|
  {
    hide At, PrintEol;
    var p := 7 + |a.minor|;
    var t := p + 1 + |a.status|;
    var e := PrintEol(a.eol);
    AtConcat(s, 0, VERSION, a.minor + ([SP] + (a.status + ([SP] + (a.msg + e)))));
    AtConcat(s, 7, a.minor, [SP] + (a.status + ([SP] + (a.msg + e))));
    AtConcat(s, p, [SP], a.status + ([SP] + (a.msg + e)));
    AtConcat(s, p + 1, a.status, [SP] + (a.msg + e));
    AtConcat(s, t, [SP], a.msg + e);
    AtConcat(s, t + 1, a.msg, e);
  }

  lemma StatusLineComplete(s: seq<byte>, a: ResponseText, cap: nat)
    requires WfResponse(a, cap) && At(s, 0, PrintStatusLine(a))
    ensures ReadStatusLine(s) == Done(|PrintStatusLine(a)|, StatusOf(a))
  {
    hide At, PrintEol, PrintStatusLine, Int, HttpVersion, TokenToEol;
    StatusLineLayout(s, a);
    var p := 7 + |a.minor|;
    var t := p + 1 + |a.status|;
    AtSingle(s, p, SP);
    AtSingle(s, t, SP);
    VersionComplete(s, 0, a.minor);
    IntComplete(s, p + 1, a.status);
    LineComplete(s, t + 1, a.msg, a.eol);
  }

  lemma StatusLineSound(s: seq<byte>, block: BlockText) returns (a: ResponseText)
    requires ReadStatusLine(s).Done?
    requires WfLines(block.lines, true)
    ensures WfResponse(a, |block.lines|) && a.block == block && At(s, 0, PrintStatusLine(a))
    ensures ReadStatusLine(s) == Done(|PrintStatusLine(a)|, StatusOf(a))
  {
    hide At, PrintEol, PrintStatusLine, Int, HttpVersion, TokenToEol;
    var minor := VersionSound(s, 0);
    var p := 7 + |minor|;
    AtSingle(s, p, SP);
    var status := IntSound(s, p + 1);
    var t := p + 1 + |status|;
    AtSingle(s, t, SP);
    var msg, eol := LineSound(s, t + 1);
    a := ResponseText(minor, status, msg, eol, block);
    StatusLineLayout(s, a);
  }

  // ---------- Whole messages ----------

  lemma AfterLineComplete<L>(s: seq<byte>, line: Scan<L>, cap: nat, b: BlockText)
    requires line.Done? && line.pos <= |s|
    requires WfLines(b.lines, true) && |b.lines| <= cap && At(s, line.pos, PrintBlock(b))
    ensures WithHeaders(s, line, cap)
         == Parse(Done(line.pos + |PrintBlock(b)|, line.value), Entries(b.lines, line.pos))
  {
    hide At, PrintBlock, WfLines, Entries, Headers;
    BlockComplete(s, line.pos, [], cap, b);
    assert [] + Entries(b.lines, line.pos) == Entries(b.lines, line.pos);
  }

  lemma AfterLineSound<L>(s: seq<byte>, line: Scan<L>, cap: nat) returns (b: BlockText)
    requires line.Done? && line.pos <= |s| && WithHeaders(s, line, cap).end.Done?
    ensures WfLines(b.lines, true) && |b.lines| <= cap && At(s, line.pos, PrintBlock(b))
    ensures WithHeaders(s, line, cap)
         == Parse(Done(line.pos + |PrintBlock(b)|, line.value), Entries(b.lines, line.pos))
  {
    hide At, PrintBlock, WfLines, Entries, Headers;
    b := BlockSound(s, line.pos, [], cap);
    assert [] + Entries(b.lines, line.pos) == Entries(b.lines, line.pos);
  }

  /** Every printed request is parsed to its own fields, whatever follows it in the buffer. */
  lemma RequestComplete(s: seq<byte>, cap: nat, a: RequestText)
    requires WfRequest(a, cap) && At(s, 0, PrintRequest(a))
    ensures ParseRequest(s, cap)
         == Parse(Done(|PrintRequest(a)|, LineOf(a)), Entries(a.block.lines, |PrintRequestLine(a)|))
  {
    hide At, PrintRequestLine, PrintBlock, ReadRequestLine, WithHeaders, LineOf;
    AtConcat(s, 0, PrintRequestLine(a), PrintBlock(a.block));
    RequestLineComplete(s, a, cap);
    AfterLineComplete(s, ReadRequestLine(s), cap, a.block);
  }

  /** Every accepted prefix is a printed request, and the reported fields are that request's. */
  lemma RequestSound(s: seq<byte>, cap: nat) returns (a: RequestText)
    requires ParseRequest(s, cap).end.Done?
    ensures WfRequest(a, cap) && At(s, 0, PrintRequest(a))
    ensures ParseRequest(s, cap)
         == Parse(Done(|PrintRequest(a)|, LineOf(a)), Entries(a.block.lines, |PrintRequestLine(a)|))
  {
    hide At, PrintRequestLine, PrintBlock, ReadRequestLine, LineOf;
    var block := AfterLineSound(s, ReadRequestLine(s), cap);
    a := RequestLineSound(s, block);
    AtConcat(s, 0, PrintRequestLine(a), PrintBlock(block));
  }

  /** Every printed response is parsed to its own fields, whatever follows it in the buffer. */
  lemma ResponseComplete(s: seq<byte>, cap: nat, a: ResponseText)
    requires WfResponse(a, cap) && At(s, 0, PrintResponse(a))
    ensures ParseResponse(s, cap)
         == Parse(Done(|PrintResponse(a)|, StatusOf(a)), Entries(a.block.lines, |PrintStatusLine(a)|))
  {
    hide At, PrintStatusLine, PrintBlock, ReadStatusLine, WithHeaders, StatusOf;
    AtConcat(s, 0, PrintStatusLine(a), PrintBlock(a.block));
    StatusLineComplete(s, a, cap);
    AfterLineComplete(s, ReadStatusLine(s), cap, a.block);
  }

  /** Every accepted prefix is a printed response, and the reported fields are that response's. */
  lemma ResponseSound(s: seq<byte>, cap: nat) returns (a: ResponseText)
    requires ParseResponse(s, cap).end.Done?
    ensures WfResponse(a, cap) && At(s, 0, PrintResponse(a))
    ensures ParseResponse(s, cap)
         == Parse(Done(|PrintResponse(a)|, StatusOf(a)), Entries(a.block.lines, |PrintStatusLine(a)|))
  {
    hide At, PrintStatusLine, PrintBlock, ReadStatusLine, StatusOf;
    var block := AfterLineSound(s, ReadStatusLine(s), cap);
    a := StatusLineSound(s, block);
    AtConcat(s, 0, PrintStatusLine(a), PrintBlock(block));
  }

  // ---------- The reported fields ----------

  /** The slice lies in the buffer and holds `t`. */
  ghost predicate Holds(s: seq<byte>, f: Slice, t: seq<byte>) {
    f.from <= f.to <= |s| && Text(s, f) == t
  }

  ghost predicate Carries(s: seq<byte>, h: Header, t: HeaderText) {
    match t
    case Field(name, _, value, _) => h.name.Some? && Holds(s, h.name.value, name) && Holds(s, h.value, value)
    case Continuation(line, _) => h.name.None? && Holds(s, h.value, line)
  }

  /** The slices of the entries from `lo` on follow one another without overlap and end before `hi`. */
  ghost predicate InOrder(hs: seq<Header>, lo: nat, hi: nat) {
    if hs == [] then lo <= hi else
    var h := hs[0];
    && (h.name.Some? ==> lo <= h.name.value.from < h.name.value.to)
    && (if h.name.Some? then h.name.value.to else lo) <= h.value.from <= h.value.to
    && InOrder(hs[1..], h.value.to + 1, hi)
  }

  lemma EntryCarries(s: seq<byte>, i: nat, h: HeaderText)
    requires At(s, i, PrintHeader(h))
    ensures Carries(s, Entry(h, i), h)
  {
    hide PrintEol;
    if h.Field? {
      FieldLayout(s, i, h);
    } else {
      AtConcat(s, i, h.line, PrintEol(h.eol));
    }
  }

  lemma {:induction false} EntriesCarry(s: seq<byte>, i: nat, lines: seq<HeaderText>)
    requires At(s, i, PrintLines(lines))
    ensures forall k | 0 <= k < |lines| :: Carries(s, Entries(lines, i)[k], lines[k])
    decreases |lines|
  {
    hide At, Carries, Entry, PrintHeader;
    if lines != [] {
      AtConcat(s, i, PrintHeader(lines[0]), PrintLines(lines[1..]));
      EntryCarries(s, i, lines[0]);
      EntriesCarry(s, i + |PrintHeader(lines[0])|, lines[1..]);
    }
  }

  lemma {:induction false} EntriesInOrder(lines: seq<HeaderText>, i: nat, lo: nat, first: bool)
    requires WfLines(lines, first) && lo <= i
    ensures InOrder(Entries(lines, i), lo, i + |PrintLines(lines)|)
    decreases |lines|
  {
    if lines != [] {
      var h := lines[0];
      FieldLength(h);
      EntriesInOrder(lines[1..], i + |PrintHeader(h)|, Entry(h, i).value.to + 1, false);
      assert Entries(lines, i)[1..] == Entries(lines[1..], i + |PrintHeader(h)|);
    }
  }

  lemma FieldLength(h: HeaderText)
    ensures forall i: nat :: Entry(h, i).value.to + 1 <= i + |PrintHeader(h)|
  {
  }

  /** Printing any well-formed request and parsing it gives back its parts, whatever bytes come after it. */
  lemma RequestRoundTrip(a: RequestText, rest: seq<byte>, cap: nat)
    requires WfRequest(a, cap)
    ensures var s := PrintRequest(a) + rest; var r := ParseRequest(s, cap);
            && r.end.Done? && r.end.pos == |PrintRequest(a)|
            && Holds(s, r.end.value.verb, a.verb) && Holds(s, r.end.value.path, a.path)
            && r.end.value.minor == DecValue(a.minor)
            && |r.headers| == |a.block.lines|
            && forall k | 0 <= k < |r.headers| :: Carries(s, r.headers[k], a.block.lines[k])
  {
    hide PrintRequestLine, PrintLines, PrintEol, ParseRequest, Carries, RequestLineAt;
    var s := PrintRequest(a) + rest;
    assert At(s, 0, PrintRequest(a));
    RequestComplete(s, cap, a);
    var n := |PrintRequestLine(a)|;
    AtConcat(s, 0, PrintRequestLine(a), PrintBlock(a.block));
    AtConcat(s, n, PrintLines(a.block.lines), PrintEol(a.block.last));
    EntriesCarry(s, n, a.block.lines);
    StartLineCarries(s, a);
  }

  lemma StartLineCarries(s: seq<byte>, a: RequestText)
    requires IsNumeral(a.minor) && At(s, 0, PrintRequestLine(a))
    ensures Holds(s, LineOf(a).verb, a.verb) && Holds(s, LineOf(a).path, a.path)
  {
    hide PrintRequestLine;
    RequestLineLayout(s, a);
  }

  /** The slices of an accepted request come in order, do not overlap and lie inside the consumed bytes. */
  lemma RequestSlices(s: seq<byte>, cap: nat)
    requires ParseRequest(s, cap).end.Done?
    ensures var r := ParseRequest(s, cap); var line := r.end.value;
            && r.end.pos <= |s| && |r.headers| <= cap
            && line.verb.from <= line.verb.to < line.path.from <= line.path.to
            && InOrder(r.headers, line.path.to + 1, r.end.pos)
  {
    hide ParseRequest, PrintEol, PrintLines, PrintRequestLine, PrintRequest, WfLines, InOrder, Entries;
    var a := RequestSound(s, cap);
    RequestLineLayout(s, a);
    RequestLength(a);
    var n := |PrintRequestLine(a)|;
    EntriesInOrder(a.block.lines, n, LineOf(a).path.to + 1, true);
    InOrderWeaken(Entries(a.block.lines, n), LineOf(a).path.to + 1, n + |PrintLines(a.block.lines)|, |PrintRequest(a)|);
  }

  lemma RequestLength(a: RequestText)
    ensures |PrintRequest(a)| == |PrintRequestLine(a)| + |PrintLines(a.block.lines)| + |PrintEol(a.block.last)|
  {
  }

  lemma {:induction false} InOrderWeaken(hs: seq<Header>, lo: nat, hi: nat, more: nat)
    requires InOrder(hs, lo, hi) && hi <= more
    ensures InOrder(hs, lo, more)
    decreases |hs|
  {
    if hs != [] {
      InOrderWeaken(hs[1..], hs[0].value.to + 1, hi, more);
    }
  }
}
