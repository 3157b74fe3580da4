/**
 The response printers of yta_http.cpp, and that picohttpparser reads their output back.
 */
module Responses {
  import opened Bytes
  import opened Scanner
  import opened Message
  import opened Grammar

  /** A field as the printers write it. */
  datatype Line = Line(name: seq<byte>, value: seq<byte>)

  function FieldOf(l: Line): HeaderText {
    Field(l.name, " ", l.value, CrLf)
  }

  function FieldsOf(ls: seq<Line>): (r: seq<HeaderText>)
    ensures |r| == |ls| && forall k | 0 <= k < |ls| :: r[k] == FieldOf(ls[k])
  {
    if ls == [] then [] else [FieldOf(ls[0])] + FieldsOf(ls[1..])
  }

  function ResponseOf(status: seq<byte>, msg: seq<byte>, ls: seq<Line>): ResponseText {
    ResponseText("1", status, msg, CrLf, BlockText(FieldsOf(ls), CrLf))
  }

  /** Lines of text, each closed, and the blank line. */
  function PrintLineTexts(ls: seq<Line>): seq<byte> {
    if ls == [] then CRLF else ls[0].name + (": " + (ls[0].value + (CRLF + PrintLineTexts(ls[1..]))))
  }

  lemma FieldPrint(l: Line, tail: seq<byte>)
    ensures PrintHeader(FieldOf(l)) + tail == l.name + (": " + (l.value + (CRLF + tail)))
  {
    var e := PrintEol(CrLf);
    assert ([':'] + (" " + (l.value + e))) + tail == ": " + (l.value + (e + tail));
  }

  lemma {:induction false} BlockPrint(ls: seq<Line>)
    ensures PrintBlock(BlockText(FieldsOf(ls), CrLf)) == PrintLineTexts(ls)
    decreases |ls|
  {
    hide PrintHeader, FieldOf;
    if ls == [] {
      assert [] + CRLF == CRLF;
    } else {
      var b := BlockText(FieldsOf(ls), CrLf);
      PrintBlockStep(b);
      assert b.lines[1..] == FieldsOf(ls[1..]);
      BlockPrint(ls[1..]);
      FieldPrint(ls[0], PrintLineTexts(ls[1..]));
    }
  }

  predicate WfLine(l: Line) {
    && l.name != [] && IsTokenChar(l.name[0]) && AllIn(l.name, NameByte)
    && AllIn(l.value, ValueByte) && (l.value != [] ==> !IsBlank(l.value[0]))
  }

  lemma {:induction false} LinesWf(ls: seq<Line>, first: bool)
    requires forall k | 0 <= k < |ls| :: WfLine(ls[k])
    ensures WfLines(FieldsOf(ls), first)
    decreases |ls|
  {
    if ls != [] {
      assert FieldsOf(ls)[1..] == FieldsOf(ls[1..]);
      LinesWf(ls[1..], false);
    }
  }

  /**
   `phr_parse_response` on `text`, whatever follows it, consumes exactly the text and reports this status and these
   fields.
   */
  ghost predicate ReadsBack(text: seq<byte>, status: nat, ls: seq<Line>) {
    forall rest: seq<byte>, cap: nat | cap >= |ls| ::
      var s := text + rest; var r := ParseResponse(s, cap);
      && r.end.Done? && r.end.pos == |text| && r.end.value.minor == 1 && r.end.value.status == status
      && |r.headers| == |ls| && forall k | 0 <= k < |ls| :: Carries(s, r.headers[k], FieldOf(ls[k]))
  }

  lemma PrintedReadsBack(status: seq<byte>, msg: seq<byte>, ls: seq<Line>, text: seq<byte>)
    requires IsNumeral(status) && AllIn(msg, ValueByte) && forall k | 0 <= k < |ls| :: WfLine(ls[k])
    requires text == PrintResponse(ResponseOf(status, msg, ls))
    ensures ReadsBack(text, DecValue(status), ls)
  {
    hide PrintStatusLine, PrintLines, PrintEol, ParseResponse, Carries, FieldOf, WfLine;
    var a := ResponseOf(status, msg, ls);
    LinesWf(ls, true);
    MinorOne();
    forall rest: seq<byte>, cap: nat | cap >= |ls|
      ensures var s := text + rest; var r := ParseResponse(s, cap);
              && r.end.Done? && r.end.pos == |text| && r.end.value.minor == 1 && r.end.value.status == DecValue(status)
              && |r.headers| == |ls| && forall k | 0 <= k < |ls| :: Carries(s, r.headers[k], FieldOf(ls[k]))
    {
      var s := text + rest;
      assert At(s, 0, text);
      ResponseComplete(s, cap, a);
      var n := |PrintStatusLine(a)|;
      AtConcat(s, 0, PrintStatusLine(a), PrintBlock(a.block));
      AtConcat(s, n, PrintLines(a.block.lines), PrintEol(a.block.last));
      EntriesCarry(s, n, a.block.lines);
    }
  }

  lemma MinorOne()
    ensures IsNumeral("1") && DecValue("1") == 1
  {
    var one: seq<byte> := "1";
    assert one[..0] == [] && one[0] == '1';
  }

  // ---------- The texts ----------

  function StatusText(status: seq<byte>, msg: seq<byte>): seq<byte> {
    "HTTP/1.1 " + (status + (" " + (msg + CRLF)))
  }

  function ResponseBytes(status: seq<byte>, msg: seq<byte>, ls: seq<Line>): seq<byte> {
    StatusText(status, msg) + PrintLineTexts(ls)
  }

  lemma ResponseBytesPrinted(status: seq<byte>, msg: seq<byte>, ls: seq<Line>)
    ensures ResponseBytes(status, msg, ls) == PrintResponse(ResponseOf(status, msg, ls))
  {
    hide PrintBlock, PrintLineTexts, FieldsOf;
    BlockPrint(ls);
    var rest := status + (" " + (msg + CRLF));
    assert "HTTP/1.1 " == VERSION + ("1" + [SP]);
    assert (VERSION + ("1" + [SP])) + rest == VERSION + ("1" + ([SP] + rest));
  }

  /** What `strftime` and the table of content types are taken to give: no control bytes and no leading blank. */
  predicate Plain(t: seq<byte>) {
    AllIn(t, ValueByte) && (t != [] ==> !IsBlank(t[0]))
  }

  function RangeText(first: nat, last: nat, size: nat): seq<byte> {
    Decimal(first) + (['-'] + (Decimal(last) + (['/'] + Decimal(size))))
  }

  function Lines200(length: nat, date: seq<byte>, contentType: seq<byte>): seq<Line> {
    [Line("Connection", "keep-alive"), Line("Last-Modified", date), Line("Content-Length", Decimal(length)),
     Line("Content-Type", contentType)]
  }

  function Lines206(length: nat, date: seq<byte>, first: nat, last: nat, size: nat): seq<Line> {
    [Line("Accept-Ranges", "bytes"), Line("Last-Modified", date),
     Line("Content-Range", "bytes " + RangeText(first, last, size)), Line("Content-Length", Decimal(length))]
  }

  function EmptyLines(connection: seq<byte>): seq<Line> {
    [Line("Connection", connection), Line("Content-Length", "0")]
  }

  function Bytes200(length: nat, date: seq<byte>, contentType: seq<byte>): seq<byte> {
    ResponseBytes("200", "OK", Lines200(length, date, contentType))
  }

  function Bytes206(length: nat, date: seq<byte>, first: nat, last: nat, size: nat): seq<byte> {
    ResponseBytes("206", "Partial Content", Lines206(length, date, first, last, size))
  }

  function Bytes304(): seq<byte> { ResponseBytes("304", "Not Modified", EmptyLines("keep-alive")) }

  function Bytes400(): seq<byte> { ResponseBytes("400", "Bad Request", EmptyLines("close")) }

  function Bytes404(): seq<byte> { ResponseBytes("404", "Not Found", EmptyLines("keep-alive")) }

  lemma PrintStep(l: Line, ls: seq<Line>)
    ensures PrintLineTexts([l] + ls) == l.name + (": " + (l.value + ("\r\n" + PrintLineTexts(ls))))
    ensures PrintLineTexts([]) == "\r\n"
  {
    assert ([l] + ls)[1..] == ls;
  }

  lemma TwoTexts(a: Line, b: Line)
    ensures PrintLineTexts([a, b])
            == a.name + (": " + (a.value + ("\r\n" + (b.name + (": " + (b.value + ("\r\n" + "\r\n")))))))
  {
    hide PrintLineTexts;
    PrintStep(a, [b]);
    PrintStep(b, []);
    assert [a] + [b] == [a, b] && [b] + [] == [b];
  }

  lemma FourTexts(a: Line, b: Line, c: Line, d: Line)
    ensures PrintLineTexts([a, b, c, d])
            == a.name + (": " + (a.value + ("\r\n" + (b.name + (": " + (b.value + ("\r\n"
               + PrintLineTexts([c, d]))))))))
  {
    hide PrintLineTexts;
    PrintStep(a, [b, c, d]);
    PrintStep(b, [c, d]);
    assert [a] + [b, c, d] == [a, b, c, d] && [b] + [c, d] == [b, c, d];
  }

  lemma StatusLines()
    ensures StatusText("200", "OK") == "HTTP/1.1 200 OK\r\n"
    ensures StatusText("206", "Partial Content") == "HTTP/1.1 206 Partial Content\r\n"
  {
  }

  lemma NotModifiedLine()
    ensures StatusText("304", "Not Modified") == "HTTP/1.1 304 Not Modified\r\n"
  {
  }

  lemma BadRequestLine()
    ensures StatusText("400", "Bad Request") == "HTTP/1.1 400 Bad Request\r\n"
  {
  }

  lemma NotFoundLine()
    ensures StatusText("404", "Not Found") == "HTTP/1.1 404 Not Found\r\n"
  {
  }

  function EmptyFields(connection: seq<byte>): seq<byte> {
    "Connection" + (": " + (connection + ("\r\n" + ("Content-Length" + (": " + ("0" + ("\r\n" + "\r\n")))))))
  }

  /** The texts of the responses without a body. */
  lemma EmptyTexts()
    ensures Bytes304() == "HTTP/1.1 304 Not Modified\r\n" + EmptyFields("keep-alive")
    ensures Bytes400() == "HTTP/1.1 400 Bad Request\r\n" + EmptyFields("close")
    ensures Bytes404() == "HTTP/1.1 404 Not Found\r\n" + EmptyFields("keep-alive")
  {
    hide PrintLineTexts, StatusText;
    NotModifiedLine();
    BadRequestLine();
    NotFoundLine();
    TwoTexts(Line("Connection", "keep-alive"), Line("Content-Length", "0"));
    TwoTexts(Line("Connection", "close"), Line("Content-Length", "0"));
  }

  /** The text of the header of a whole file. */
  lemma Text200(length: nat, date: seq<byte>, contentType: seq<byte>)
    ensures Bytes200(length, date, contentType)
            == "HTTP/1.1 200 OK\r\n" + ("Connection" + (": " + ("keep-alive" + ("\r\n" + ("Last-Modified" + (": "
               + (date + ("\r\n" + ("Content-Length" + (": " + (Decimal(length) + ("\r\n" + ("Content-Type" + (": "
               + (contentType + ("\r\n" + "\r\n"))))))))))))))))
  {
    hide PrintLineTexts, Decimal, StatusText;
    var a, b := Line("Connection", "keep-alive"), Line("Last-Modified", date);
    var c, d := Line("Content-Length", Decimal(length)), Line("Content-Type", contentType);
    FourTexts(a, b, c, d);
    TwoTexts(c, d);
    StatusLines();
  }

  /** The text of the header of a range. */
  lemma Text206(length: nat, date: seq<byte>, first: nat, last: nat, size: nat)
    ensures var range := Decimal(first) + ("-" + (Decimal(last) + ("/" + Decimal(size))));
            Bytes206(length, date, first, last, size)
            == "HTTP/1.1 206 Partial Content\r\n" + ("Accept-Ranges" + (": " + ("bytes" + ("\r\n" + ("Last-Modified"
               + (": " + (date + ("\r\n" + ("Content-Range" + (": " + (("bytes " + range) + ("\r\n"
               + ("Content-Length" + (": " + (Decimal(length) + ("\r\n" + "\r\n"))))))))))))))))
  {
    hide PrintLineTexts, Decimal, StatusText, RangeText;
    var a, b := Line("Accept-Ranges", "bytes"), Line("Last-Modified", date);
    var c, d := Line("Content-Range", "bytes " + RangeText(first, last, size)), Line("Content-Length", Decimal(length));
    FourTexts(a, b, c, d);
    TwoTexts(c, d);
    StatusLines();
    RangeTextIs(first, last, size);
  }

  lemma RangeTextIs(first: nat, last: nat, size: nat)
    ensures RangeText(first, last, size) == Decimal(first) + ("-" + (Decimal(last) + ("/" + Decimal(size))))
  {
    hide Decimal;
  }

  /** The bytes of `LinesLength` lines and the blank line. */
  lemma LinesLength(l: Line, ls: seq<Line>)
    ensures |PrintLineTexts([l] + ls)| == |l.name| + |l.value| + 4 + |PrintLineTexts(ls)|
  {
    assert ([l] + ls)[1..] == ls;
  }

  lemma FourLines(a: Line, b: Line, c: Line, d: Line)
    ensures |PrintLineTexts([a, b, c, d])| == |a.name| + |a.value| + |b.name| + |b.value| + |c.name| + |c.value|
                                              + |d.name| + |d.value| + 18
  {
    hide PrintLineTexts;
    LinesLength(a, [b, c, d]);
    LinesLength(b, [c, d]);
    LinesLength(c, [d]);
    LinesLength(d, []);
    assert [a] + [b, c, d] == [a, b, c, d] && [b] + [c, d] == [b, c, d] && [c] + [d] == [c, d] && [d] + [] == [d];
    NoLines();
  }

  lemma NoLines()
    ensures |PrintLineTexts([])| == 2
  {
  }

  lemma StatusSize(status: seq<byte>, msg: seq<byte>)
    ensures |StatusText(status, msg)| == 12 + |status| + |msg|
  {
  }

  lemma RangeSize(first: nat, last: nat, size: nat)
    ensures |RangeText(first, last, size)| == 2 + |Decimal(first)| + |Decimal(last)| + |Decimal(size)|
  {
    hide Decimal;
  }

  lemma Size200(length: nat, date: seq<byte>, contentType: seq<byte>)
    ensures |Bytes200(length, date, contentType)| == 94 + |date| + |Decimal(length)| + |contentType|
  {
    hide PrintLineTexts, Decimal, StatusText;
    StatusSize("200", "OK");
    FourLines(Line("Connection", "keep-alive"), Line("Last-Modified", date), Line("Content-Length", Decimal(length)),
              Line("Content-Type", contentType));
  }

  lemma Size206(length: nat, date: seq<byte>, first: nat, last: nat, size: nat)
    ensures |Bytes206(length, date, first, last, size)|
            == 114 + |date| + |Decimal(length)| + |Decimal(first)| + |Decimal(last)| + |Decimal(size)|
  {
    hide PrintLineTexts, Decimal, StatusText, RangeText;
    RangeSize(first, last, size);
    StatusSize("206", "Partial Content");
    FourLines(Line("Accept-Ranges", "bytes"), Line("Last-Modified", date),
              Line("Content-Range", "bytes " + RangeText(first, last, size)), Line("Content-Length", Decimal(length)));
  }

  lemma SizeEmpty(status: seq<byte>, msg: seq<byte>, connection: seq<byte>)
    ensures |ResponseBytes(status, msg, EmptyLines(connection))| == 47 + |status| + |msg| + |connection|
  {
    hide PrintLineTexts;
    var a, b := Line("Connection", connection), Line("Content-Length", "0");
    LinesLength(a, [b]);
    LinesLength(b, []);
    assert [a] + [b] == [a, b] && [b] + [] == [b];
    NoLines();
  }

  // ---------- The printers ----------

  /** `std::copy` to the output pointer, which is advanced. */
  method Put(buf: array<byte>, at: nat, text: seq<byte>) returns (end: nat)
    requires at + |text| <= buf.Length
    modifies buf
    ensures end == at + |text| && buf[..end] == old(buf[..at]) + text
  {
    forall i | 0 <= i < |text| {
      buf[at + i] := text[i];
    }
    end := at + |text|;
    assert buf[..at] == old(buf[..at]);
    assert buf[at..end] == text;
    assert buf[..end] == buf[..at] + buf[at..end];
  }

  /** Writes line `k` of a response of which the part before that line is out. */
  method PutLine(buf: array<byte>, at: nat, l: Line, ghost ls: seq<Line>, ghost k: nat, ghost all: seq<byte>)
    returns (end: nat)
    requires at <= buf.Length && |all| <= buf.Length && k < |ls| && l == ls[k]
    requires buf[..at] + PrintLineTexts(ls[k..]) == all
    modifies buf
    ensures end <= buf.Length && buf[..end] + PrintLineTexts(ls[k + 1..]) == all
  {
    hide PrintLineTexts;
    ghost var before, tail := buf[..at], PrintLineTexts(ls[k + 1..]);
    LineStep(before, ls, k);
    end := Put(buf, at, l.name);
    end := Put(buf, end, ": ");
    end := Put(buf, end, l.value);
    end := Put(buf, end, CRLF);
    assert buf[..end] == before + l.name + ": " + l.value + CRLF;
  }

  /** Writes the blank line. */
  method PutEnd(buf: array<byte>, at: nat, ghost ls: seq<Line>, ghost all: seq<byte>) returns (end: nat)
    requires at <= buf.Length && |all| <= buf.Length && buf[..at] + PrintLineTexts(ls[|ls|..]) == all
    modifies buf
    ensures end == |all| && buf[..end] == all
  {
    assert ls[|ls|..] == [];
    end := Put(buf, at, CRLF);
  }

  lemma LineStep(before: seq<byte>, ls: seq<Line>, k: nat)
    requires k < |ls|
    ensures before + PrintLineTexts(ls[k..])
         == before + ls[k].name + ": " + ls[k].value + CRLF + PrintLineTexts(ls[k + 1..])
  {
    assert ls[k..][1..] == ls[k + 1..];
    var tail := PrintLineTexts(ls[k + 1..]);
    assert before + (ls[k].name + (": " + (ls[k].value + (CRLF + tail))))
        == before + ls[k].name + ": " + ls[k].value + CRLF + tail;
  }

  method Serve200(buf: array<byte>, length: nat, date: seq<byte>, contentType: seq<byte>) returns (end: nat)
    requires |Bytes200(length, date, contentType)| <= buf.Length
    modifies buf
    ensures end == |Bytes200(length, date, contentType)| && buf[..end] == Bytes200(length, date, contentType)
  {
    hide PrintLineTexts, StatusText;
    ghost var ls, all := Lines200(length, date, contentType), Bytes200(length, date, contentType);
    assert ls[0..] == ls;
    end := Put(buf, 0, StatusText("200", "OK"));
    end := PutLine(buf, end, Line("Connection", "keep-alive"), ls, 0, all);
    end := PutLine(buf, end, Line("Last-Modified", date), ls, 1, all);
    end := PutLine(buf, end, Line("Content-Length", Decimal(length)), ls, 2, all);
    end := PutLine(buf, end, Line("Content-Type", contentType), ls, 3, all);
    end := PutEnd(buf, end, ls, all);
  }

  method Serve206(buf: array<byte>, length: nat, date: seq<byte>, first: nat, last: nat, size: nat) returns (end: nat)
    requires |Bytes206(length, date, first, last, size)| <= buf.Length
    modifies buf
    ensures var r := Bytes206(length, date, first, last, size); end == |r| && buf[..end] == r
  {
    hide PrintLineTexts, StatusText, RangeText;
    ghost var ls, all := Lines206(length, date, first, last, size), Bytes206(length, date, first, last, size);
    assert ls[0..] == ls;
    end := Put(buf, 0, StatusText("206", "Partial Content"));
    end := PutLine(buf, end, Line("Accept-Ranges", "bytes"), ls, 0, all);
    end := PutLine(buf, end, Line("Last-Modified", date), ls, 1, all);
    end := PutLine(buf, end, Line("Content-Range", "bytes " + RangeText(first, last, size)), ls, 2, all);
    end := PutLine(buf, end, Line("Content-Length", Decimal(length)), ls, 3, all);
    end := PutEnd(buf, end, ls, all);
  }

  /** The responses without a body differ in the status line and in what they say of the connection. */
  method ServeEmpty(buf: array<byte>, status: seq<byte>, msg: seq<byte>, connection: seq<byte>) returns (end: nat)
    requires |ResponseBytes(status, msg, EmptyLines(connection))| <= buf.Length
    modifies buf
    ensures var r := ResponseBytes(status, msg, EmptyLines(connection)); end == |r| && buf[..end] == r
  {
    hide PrintLineTexts, StatusText;
    ghost var ls, all := EmptyLines(connection), ResponseBytes(status, msg, EmptyLines(connection));
    assert ls[0..] == ls;
    end := Put(buf, 0, StatusText(status, msg));
    end := PutLine(buf, end, Line("Connection", connection), ls, 0, all);
    end := PutLine(buf, end, Line("Content-Length", "0"), ls, 1, all);
    end := PutEnd(buf, end, ls, all);
  }

  // ---------- Reading them back ----------

  lemma Status3(t: seq<byte>, n: nat)
    requires |t| == 3 && AllIn(t, DigitByte)
    requires n == 100 * (t[0] as int - '0' as int) + 10 * (t[1] as int - '0' as int) + (t[2] as int - '0' as int)
    ensures IsNumeral(t) && DecValue(t) == n
  {
    var u, v := t[..2], t[..1];
    assert v[..0] == [] && DecValue(v) == t[0] as int - '0' as int;
    assert u[..1] == v && DecValue(u) == 10 * DecValue(v) + (t[1] as int - '0' as int);
  }

  lemma ReadsBackIf(status: seq<byte>, n: nat, msg: seq<byte>, ls: seq<Line>)
    requires |status| == 3 && AllIn(status, DigitByte) && AllIn(msg, ValueByte)
    requires n == 100 * (status[0] as int - '0' as int) + 10 * (status[1] as int - '0' as int)
                  + (status[2] as int - '0' as int)
    requires forall k | 0 <= k < |ls| :: WfLine(ls[k])
    ensures ReadsBack(ResponseBytes(status, msg, ls), n, ls)
  {
    hide WfLine, ReadsBack, ResponseBytes, PrintResponse, AllIn;
    Status3(status, n);
    ResponseBytesPrinted(status, msg, ls);
    PrintedReadsBack(status, msg, ls, ResponseBytes(status, msg, ls));
  }

  lemma DecimalPlain(n: nat)
    ensures Plain(Decimal(n))
  {
    var t := Decimal(n);
    assert forall k | 0 <= k < |t| :: In(t[k], DigitByte);
  }

  lemma RangePlain(first: nat, last: nat, size: nat)
    ensures Plain("bytes " + RangeText(first, last, size))
  {
    var a, b, c := Decimal(first), Decimal(last), Decimal(size);
    assert forall k | 0 <= k < |a| :: In(a[k], DigitByte);
    assert forall k | 0 <= k < |b| :: In(b[k], DigitByte);
    assert forall k | 0 <= k < |c| :: In(c[k], DigitByte);
    var t := "bytes " + RangeText(first, last, size);
    assert t[0] == 'b';
  }

  lemma ConnectionLine(value: seq<byte>)
    requires Plain(value)
    ensures WfLine(Line("Connection", value))
  {
  }

  lemma LastModifiedLine(value: seq<byte>)
    requires Plain(value)
    ensures WfLine(Line("Last-Modified", value))
  {
  }

  lemma ContentTypeLine(value: seq<byte>)
    requires Plain(value)
    ensures WfLine(Line("Content-Type", value))
  {
  }

  lemma LengthLine(value: seq<byte>)
    requires Plain(value)
    ensures WfLine(Line("Content-Length", value))
  {
  }

  lemma AcceptRangesLine(value: seq<byte>)
    requires Plain(value)
    ensures WfLine(Line("Accept-Ranges", value))
  {
  }

  lemma RangeLine(value: seq<byte>)
    requires Plain(value)
    ensures WfLine(Line("Content-Range", value))
  {
  }

  lemma PlainWords()
    ensures Plain("keep-alive") && Plain("close") && Plain("bytes") && Plain("0")
  {
  }

  lemma Lines200Wf(length: nat, date: seq<byte>, contentType: seq<byte>)
    requires Plain(date) && Plain(contentType)
    ensures forall k | 0 <= k < 4 :: WfLine(Lines200(length, date, contentType)[k])
  {
    hide WfLine, Decimal, Plain;
    PlainWords();
    DecimalPlain(length);
    ConnectionLine("keep-alive");
    LastModifiedLine(date);
    LengthLine(Decimal(length));
    ContentTypeLine(contentType);
  }

  lemma Lines206Wf(length: nat, date: seq<byte>, first: nat, last: nat, size: nat)
    requires Plain(date)
    ensures forall k | 0 <= k < 4 :: WfLine(Lines206(length, date, first, last, size)[k])
  {
    hide WfLine, Decimal, Plain, RangeText;
    PlainWords();
    DecimalPlain(length);
    RangePlain(first, last, size);
    AcceptRangesLine("bytes");
    LastModifiedLine(date);
    RangeLine("bytes " + RangeText(first, last, size));
    LengthLine(Decimal(length));
  }

  /** The output of `serve_200` is read back with its status and its four fields. */
  lemma Read200(length: nat, date: seq<byte>, contentType: seq<byte>)
    requires Plain(date) && Plain(contentType)
    ensures ReadsBack(Bytes200(length, date, contentType), 200, Lines200(length, date, contentType))
  {
    hide ReadsBack, WfLine, Decimal, Plain, ResponseBytes, Lines200;
    Lines200Wf(length, date, contentType);
    Lines200Length(length, date, contentType);
    ReadsBackIf("200", 200, "OK", Lines200(length, date, contentType));
  }

  lemma Lines200Length(length: nat, date: seq<byte>, contentType: seq<byte>)
    ensures |Lines200(length, date, contentType)| == 4
  {
  }

  lemma Lines206Length(length: nat, date: seq<byte>, first: nat, last: nat, size: nat)
    ensures |Lines206(length, date, first, last, size)| == 4
  {
  }

  /** The output of `serve_206` is read back with its status and its four fields. */
  lemma Read206(length: nat, date: seq<byte>, first: nat, last: nat, size: nat)
    requires Plain(date)
    ensures ReadsBack(Bytes206(length, date, first, last, size), 206, Lines206(length, date, first, last, size))
  {
    hide ReadsBack, WfLine, Decimal, Plain, ResponseBytes, Lines206;
    Lines206Wf(length, date, first, last, size);
    Lines206Length(length, date, first, last, size);
    ReadsBackIf("206", 206, "Partial Content", Lines206(length, date, first, last, size));
  }

  lemma ReadEmpty(connection: seq<byte>, status: seq<byte>, n: nat, msg: seq<byte>)
    requires Plain(connection) && |status| == 3 && AllIn(status, DigitByte) && AllIn(msg, ValueByte)
    requires n == 100 * (status[0] as int - '0' as int) + 10 * (status[1] as int - '0' as int)
                  + (status[2] as int - '0' as int)
    ensures ReadsBack(ResponseBytes(status, msg, EmptyLines(connection)), n, EmptyLines(connection))
  {
    hide ReadsBack, WfLine, Plain, ResponseBytes;
    PlainWords();
    ConnectionLine(connection);
    LengthLine("0");
    ReadsBackIf(status, n, msg, EmptyLines(connection));
  }

  /** The responses without a body read back too. */
  lemma ReadErrors()
    ensures ReadsBack(Bytes304(), 304, EmptyLines("keep-alive"))
    ensures ReadsBack(Bytes400(), 400, EmptyLines("close"))
    ensures ReadsBack(Bytes404(), 404, EmptyLines("keep-alive"))
  {
    hide ReadsBack, ResponseBytes, Plain, EmptyLines;
    PlainWords();
    ReadEmpty("keep-alive", "304", 304, "Not Modified");
    ReadEmpty("close", "400", 400, "Bad Request");
    ReadEmpty("keep-alive", "404", 404, "Not Found");
  }

  /** The numbers of a Content-Range value, read by `parse_int` and by taking the rest, are the ones printed. */
  lemma RangeDecodes(first: nat, last: nat, size: nat)
    ensures var t := RangeText(first, last, size);
            var a := |Decimal(first)|; var b := a + 1 + |Decimal(last)|;
            && Int(t, 0) == Done(a, first) && t[a] == '-'
            && Int(t, a + 1) == Done(b, last) && t[b] == '/'
            && IsNumeral(t[b + 1..]) && DecValue(t[b + 1..]) == size
  {
    hide Decimal, At, Int, RangeText;
    var t := RangeText(first, last, size);
    var a := |Decimal(first)|;
    var b := a + 1 + |Decimal(last)|;
    RangeLayout(first, last, size);
    AtSingle(t, a, '-');
    AtSingle(t, b, '/');
    IntComplete(t, 0, Decimal(first));
    IntComplete(t, a + 1, Decimal(last));
    DecimalValue(first);
    DecimalValue(last);
    DecimalValue(size);
  }

  lemma RangeLayout(first: nat, last: nat, size: nat)
    ensures var t := RangeText(first, last, size);
            var a := |Decimal(first)|; var b := a + 1 + |Decimal(last)|;
            && At(t, 0, Decimal(first)) && At(t, a, ['-']) && At(t, a + 1, Decimal(last)) && At(t, b, ['/'])
            && b + 1 <= |t| && t[b + 1..] == Decimal(size)
  {
    hide Decimal, At;
    var t := RangeText(first, last, size);
    var a := |Decimal(first)|;
    var b := a + 1 + |Decimal(last)|;
    AtConcat(t, 0, Decimal(first), ['-'] + (Decimal(last) + (['/'] + Decimal(size))));
    AtConcat(t, a, ['-'], Decimal(last) + (['/'] + Decimal(size)));
    AtConcat(t, a + 1, Decimal(last), ['/'] + Decimal(size));
    AtConcat(t, b, ['/'], Decimal(size));
    AtSelf(t);
    AtTail(t, b + 1, Decimal(size));
  }

  lemma AtSelf(t: seq<byte>)
    ensures At(t, 0, t)
  {
  }

  lemma AtTail(t: seq<byte>, i: nat, u: seq<byte>)
    requires At(t, i, u) && i + |u| == |t|
    ensures t[i..] == u
  {
  }
}
