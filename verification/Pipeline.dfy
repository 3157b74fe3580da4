/**
 One connection: the armed operations of `yta_ctx`, the callbacks of yotta.cpp that re-arm them, and what passes over
 the socket. The kernel is an input: how many bytes it takes or gives, or that it answers with an error or EAGAIN.
 */
module Pipeline {
  import opened Bytes
  import opened Scanner
  import opened Message
  import opened Responses
  import opened Ranges
  import opened Requests
  import I = Incremental
  import U = UrlResolution

  const MAX_BUFFER_SIZE: nat := 2048

  datatype WriteCallback = NoWrite | HeaderWritten | HttpFinish
  datatype WriteType = BasicWrite | SendfileWrite

  /** The read of a `yta_ctx`: whether a callback is set, where in `buf` it reads to, and how much. */
  datatype ReadOp = ReadOp(armed: bool, pos: nat, n: nat)

  /** The write of a `yta_ctx`. */
  datatype WriteOp = WriteOp(callback: WriteCallback, wtype: WriteType, alreadyWritten: nat, toWrite: SizeT)

  /** The part of `user_data` that reading uses. */
  datatype Request = Request(counter: nat, buf: seq<byte>, numHeaders: nat, finalized: bool)

  /** What is in `response_buf`, which has 2048 bytes. */
  type ResponseBuf = t: seq<byte> | |t| <= 2048

  /** The part of `user_data` that writing uses; `text` is `response_buf` up to `response_size`. */
  datatype Response = Response(text: ResponseBuf, content: bool, file: FileBytes, fileSize: SizeT, offset: SizeT)

  /**
   The bytes the socket has taken, the responses whose writing has been armed, what they answered, how often one was
   finished, and the bytes received since the last `accept_logic` with the lengths at which they were parsed.
   */
  datatype Socket = Socket(wire: seq<byte>, log: seq<seq<byte>>, answers: seq<Answer>, finished: nat,
                           received: seq<byte>, lens: seq<nat>)

  datatype Conn = Conn(rd: ReadOp, wr: WriteOp, rq: Request, rs: Response, sock: Socket)

  datatype Status = Continue | Wait | Error | Abort

  /** The kernel's answer to a write: an error, EAGAIN, or a number of bytes taken if that many are on offer. */
  datatype Reply = Fault | Again | Sent(count: nat)

  function Min(a: nat, b: nat): nat { if a < b then a else b }

  // ---------- Arming operations ----------

  /** `yta_async_read` into `buf + pos`. */
  function AsyncRead(pos: nat, n: nat): ReadOp {
    ReadOp(true, pos, n)
  }

  /** `yta_async_write` of the response buffer. */
  function AsyncWrite(rs: Response, cb: WriteCallback): WriteOp {
    WriteOp(cb, BasicWrite, 0, |rs.text|)
  }

  /** `yta_async_sendfile`, which adds the offset to both counters. */
  function AsyncSendfile(rs: Response, cb: WriteCallback): WriteOp {
    WriteOp(cb, SendfileWrite, rs.offset, (rs.fileSize + rs.offset) % SIZE_T)
  }

  // ---------- The callbacks ----------

  /** `accept_logic`. */
  function AcceptLogic(c: Conn): Conn {
    c.(rq := Request(0, c.rq.buf, I.MAX_HEADERS, false), rd := AsyncRead(0, MAX_BUFFER_SIZE),
       sock := c.sock.(received := [], lens := []))
  }

  /** `http_finish_callback`. */
  function FinishCallback(c: Conn): Conn {
    AcceptLogic(c.(sock := c.sock.(finished := c.sock.finished + 1)))
  }

  /** `write_header_callback`. */
  function HeaderCallback(c: Conn): Conn {
    if c.rs.content then c.(wr := AsyncSendfile(c.rs, HttpFinish)) else FinishCallback(c)
  }

  function WithoutBody(rs: Response, text: ResponseBuf): Response {
    rs.(text := text, content := false)
  }

  /** `parse_url` on a file that was found. */
  function WithFile(rs: Response, file: File): Response {
    rs.(file := file.content, fileSize := |file.content|)
  }

  /** What the answers write to `response_buf` fits there. */
  lemma ResponsesFit(file: File, contentType: TypeName, length: SizeT, first: SizeT, last: SizeT)
    ensures |Bytes304()| <= 2048 && |Bytes400()| <= 2048 && |Bytes404()| <= 2048
    ensures |Bytes200(|file.content|, file.date, contentType)| <= 2048
    ensures |Bytes206(length, file.date, first, last, |file.content|)| <= 2048
  {
    hide Bytes200, Bytes206, ResponseBytes, EmptyLines, Decimal;
    Decimal64(length);
    Decimal64(first);
    Decimal64(last);
    Decimal64(|file.content|);
    SizeEmpty("304", "Not Modified", "keep-alive");
    SizeEmpty("400", "Bad Request", "close");
    SizeEmpty("404", "Not Found", "keep-alive");
    Size200(|file.content|, file.date, contentType);
    Size206(length, file.date, first, last, |file.content|);
  }

  const NO_FILE := File([], [], 0)

  /** The response to an answer. The offset is touched only by a range, whose last byte is printed as a `size_t`. */
  function Serve(rs: Response, a: Answer): Response
    requires !a.Thrown?
  {
    match a
    case Malformed => ResponsesFit(NO_FILE, "", 0, 0, 0); WithoutBody(rs, Bytes400())
    case NotFound => ResponsesFit(NO_FILE, "", 0, 0, 0); WithoutBody(rs, Bytes404())
    case BadField(file) => ResponsesFit(NO_FILE, "", 0, 0, 0); WithoutBody(WithFile(rs, file), Bytes400())
    case NotModified(file) => ResponsesFit(NO_FILE, "", 0, 0, 0); WithoutBody(WithFile(rs, file), Bytes304())
    case Whole(file, contentType) =>
      ResponsesFit(file, contentType, 0, 0, 0);
      WithFile(rs, file).(text := Bytes200(|file.content|, file.date, contentType), content := true)
    case Ranged(file, first, last) =>
      var n := Length(first, last);
      ResponsesFit(file, "", n, first, last % SIZE_T);
      Response(Bytes206(n, file.date, first, last % SIZE_T, |file.content|), true, file.content, n, first)
  }

  /** The body that goes with a response. */
  function Body(rs: Response): seq<byte> {
    if !rs.content then [] else
    var lo := Min(rs.offset, |rs.file|);
    rs.file[lo..Min(rs.offset + rs.fileSize, |rs.file|)]
  }

  function Expected(rs: Response): seq<byte> {
    rs.text + Body(rs)
  }

  /** What `read_callback_http` makes of the bytes it has. */
  function ParseCall(rq: Request, n: nat): (p: Parse<RequestLine>)
    requires rq.counter + n <= |rq.buf|
    ensures Within(p, |rq.buf|)
  {
    CallWithin(rq, n);
    I.PhrParseRequest(rq.buf[..rq.counter + n], rq.numHeaders, rq.counter)
  }

  lemma CallWithin(rq: Request, n: nat)
    requires rq.counter + n <= |rq.buf|
    ensures Within(I.PhrParseRequest(rq.buf[..rq.counter + n], rq.numHeaders, rq.counter), |rq.buf|)
  {
    hide ParseRequest, HeadersIn;
    var s := rq.buf[..rq.counter + n];
    var p := I.PhrParseRequest(s, rq.numHeaders, rq.counter);
    if p.end.Done? {
      ParsedIn(s, rq.numHeaders);
      InMore(p.headers, |s|, |rq.buf|);
    }
  }

  /** What is answered after `n` more bytes, if the parser does not want more. */
  function Verdict(rq: Request, n: nat, w: World): Option<Answer>
    requires rq.counter + n <= |rq.buf|
  {
    Decide(w, rq.buf, ParseCall(rq, n))
  }

  predicate IsThrown(a: Option<Answer>) {
    a.Some? && a.value.Thrown?
  }

  function StartResponse(c: Conn): Conn {
    c.(wr := AsyncWrite(c.rs, HeaderWritten), sock := c.sock.(log := c.sock.log + [Expected(c.rs)]))
  }

  /** `read_callback_http` on `n` more bytes, up to the answer. */
  function AfterParse(c: Conn, n: nat, w: World): Conn
    requires c.rq.counter + n <= |c.rq.buf| && !IsThrown(Verdict(c.rq, n, w))
  {
    var p, a := ParseCall(c.rq, n), Verdict(c.rq, n, w);
    var counter := c.rq.counter + n;
    c.(rq := Request(counter, c.rq.buf, |p.headers|, c.rq.finalized || a.Some?),
       rs := if a.Some? then Serve(c.rs, a.value) else c.rs,
       sock := c.sock.(lens := c.sock.lens + [counter],
                       answers := if a.Some? then c.sock.answers + [a.value] else c.sock.answers))
  }

  /** The rest of it: write the response, give up on a full buffer, or read on behind `pos`. */
  function Rearm(c: Conn, pos: nat): Conn {
    if c.rq.finalized then StartResponse(c)
    else if c.rq.counter >= MAX_BUFFER_SIZE then FinishCallback(c)
    else c.(rd := AsyncRead(pos, MAX_BUFFER_SIZE - c.rq.counter))
  }

  function ReadCallback(c: Conn, n: nat, w: World): Conn
    requires c.rq.counter + n <= |c.rq.buf| && !IsThrown(Verdict(c.rq, n, w))
  {
    Rearm(AfterParse(c, n, w), c.rd.pos + n)
  }

  // ---------- The loops, one system call at a time ----------

  /** The kernel has put `data` where the armed read says, and the read callback is cleared. */
  function Received(c: Conn, data: seq<byte>): Conn
    requires c.rd.pos + |data| <= |c.rq.buf|
  {
    c.(rd := c.rd.(armed := false),
       rq := c.rq.(buf := c.rq.buf[..c.rd.pos] + data + c.rq.buf[c.rd.pos + |data|..]),
       sock := c.sock.(received := c.sock.received + data))
  }

  /**
   A successful `read` of `data` in `read_loop`, then the callback. An exception that nobody catches ends the process,
   so that the state does not matter any more.
   */
  function ReadOnce(c: Conn, data: seq<byte>, w: World): (Conn, Status)
    requires c.rd.pos + |data| <= |c.rq.buf| && c.rq.counter + |data| <= |c.rq.buf|
  {
    var d := Received(c, data);
    if IsThrown(Verdict(d.rq, |data|, w)) then (c, Abort) else (ReadCallback(d, |data|, w), Continue)
  }

  function Source(w: WriteOp, rs: Response): seq<byte> {
    if w.wtype.BasicWrite? then rs.text else rs.file
  }

  /** How many bytes are asked for: a difference of `size_t`s. */
  function Asked(w: WriteOp): SizeT {
    (w.toWrite - w.alreadyWritten) % SIZE_T
  }

  /** How many bytes the kernel can take: no more than are asked for and than the source has. */
  function Offered(w: WriteOp, rs: Response): nat {
    var have := |Source(w, rs)|;
    if w.alreadyWritten < have then Min(Asked(w), have - w.alreadyWritten) else 0
  }

  /** The bytes of the next write when it takes `n`. */
  function Chunk(w: WriteOp, rs: Response, n: nat): seq<byte>
    requires 0 < n <= Offered(w, rs)
  {
    Source(w, rs)[w.alreadyWritten..w.alreadyWritten + n]
  }

  /** Clears the write callback and calls it. */
  function Written(c: Conn): Conn {
    var d := c.(wr := c.wr.(callback := NoWrite));
    match c.wr.callback
    case NoWrite => d
    case HeaderWritten => HeaderCallback(d)
    case HttpFinish => FinishCallback(d)
  }

  /** `n` bytes more have been taken. */
  function Advance(c: Conn, n: nat): Conn
    requires 0 < n <= Offered(c.wr, c.rs)
  {
    c.(wr := c.wr.(alreadyWritten := c.wr.alreadyWritten + n),
       sock := c.sock.(wire := c.sock.wire + Chunk(c.wr, c.rs, n)))
  }

  /** `write_handle_basic` and `write_handle_sendfile`; a write of nothing is the failed assertion. */
  function WriteOnce(c: Conn, r: Reply): (Conn, Status) {
    match r
    case Fault => (c, Error)
    case Again => (c, Wait)
    case Sent(k) =>
      var n := Min(k, Offered(c.wr, c.rs));
      if n == 0 then (c, Abort) else
      var d := Advance(c, n);
      (if d.wr.alreadyWritten == d.wr.toWrite then Written(d) else d, Continue)
  }

  /** `write_loop`. */
  function WriteRun(c: Conn, rs: seq<Reply>): (Conn, Status)
    decreases |rs|
  {
    if c.wr.callback.NoWrite? then (c, Continue)
    else if rs == [] then (c, Wait)
    else
      var (d, s) := WriteOnce(c, rs[0]);
      if s.Continue? then WriteRun(d, rs[1..]) else (d, s)
  }

  // ---------- Bytes on the wire ----------

  /** What has gone out of the armed response. */
  function Progress(w: WriteOp, rs: Response): seq<byte> {
    match w.callback
    case NoWrite => []
    case HeaderWritten => rs.text[..Min(w.alreadyWritten, |rs.text|)]
    case HttpFinish =>
      var lo, hi := Min(rs.offset, |rs.file|), Min(w.alreadyWritten, |rs.file|);
      rs.text + (if lo <= hi then rs.file[lo..hi] else [])
  }

  /** The shape of an armed write: first the response buffer, then the file from the offset. */
  predicate Armed(w: WriteOp, rs: Response) {
    match w.callback
    case NoWrite => true
    case HeaderWritten => w.wtype.BasicWrite? && w.toWrite == |rs.text| && w.alreadyWritten < w.toWrite
    case HttpFinish =>
      && w.wtype.SendfileWrite? && rs.content && w.toWrite == (rs.offset + rs.fileSize) % SIZE_T
      && rs.offset <= w.alreadyWritten
      && (w.alreadyWritten == rs.offset || w.alreadyWritten < Min(rs.offset + rs.fileSize, |rs.file| + 1))
  }

  /** The end of an armed write, before it is cut to a `size_t`. */
  function End(w: WriteOp, rs: Response): nat {
    if w.callback.HttpFinish? then rs.offset + rs.fileSize else |rs.text|
  }

  /**
   A sum that does not fit a `size_t` does no harm: as many bytes are asked for as the sum says, and the file ends
   before they are written.
   */
  lemma SumsWrap(w: WriteOp, rs: Response)
    requires Armed(w, rs) && !w.callback.NoWrite?
    ensures w.alreadyWritten <= End(w, rs) && Asked(w) == End(w, rs) - w.alreadyWritten
    ensures w.toWrite == End(w, rs) || (w.toWrite <= w.alreadyWritten && |rs.file| < End(w, rs))
  {
    var e := End(w, rs);
    if e < SIZE_T {
      SmallMod(e);
      SmallMod(e - w.alreadyWritten);
    } else {
      assert w.toWrite == e - SIZE_T by {
        SmallMod(e - SIZE_T);
      }
      LiftMod(w.toWrite - w.alreadyWritten);
    }
  }

  /** A write of `n` bytes stays in the source and completes the armed write exactly at its end. */
  lemma WriteBounds(w: WriteOp, rs: Response, n: nat)
    requires Armed(w, rs) && !w.callback.NoWrite? && 0 < n <= Offered(w, rs)
    ensures w.alreadyWritten + n <= |Source(w, rs)| && w.alreadyWritten + n <= End(w, rs)
    ensures w.alreadyWritten + n == w.toWrite <==> w.alreadyWritten + n == End(w, rs)
  {
    hide Asked;
    SumsWrap(w, rs);
  }

  lemma SmallMod(n: nat)
    ensures n < SIZE_T ==> n % SIZE_T == n && (n + SIZE_T) % SIZE_T == n
  {
  }

  lemma LiftMod(d: int)
    requires 0 - SIZE_T <= d < 0
    ensures d % SIZE_T == if d == 0 - SIZE_T then 0 else d + SIZE_T
  {
  }

  /** There is no body, or it lies in the file and is not empty. */
  predicate BodyFits(rs: Response) {
    rs.content ==> 0 < rs.fileSize && rs.offset + rs.fileSize <= |rs.file|
  }

  /** Waiting for the next request from scratch. */
  predicate Idle(c: Conn) {
    && c.wr.callback.NoWrite?
    && c.rd == ReadOp(true, 0, MAX_BUFFER_SIZE)
    && c.rq.counter == 0 && c.rq.numHeaders == I.MAX_HEADERS && !c.rq.finalized
    && c.sock.received == [] && c.sock.lens == []
  }

  /**
   From socket contents `base` the response of `c` is being sent: it is on the way, or it was finished, once, with
   all of it out.
   */
  ghost predicate Sending(base: seq<byte>, c: Conn, d: Conn) {
    && c.rs == d.rs && Armed(d.wr, d.rs) && d.sock.log == c.sock.log && d.sock.answers == c.sock.answers
    && d.rq.buf == c.rq.buf
    && (if d.wr.callback.NoWrite? then
          BodyFits(c.rs) && d.sock.wire == base + Expected(c.rs) && d.sock.finished == c.sock.finished + 1 && Idle(d)
        else
          d.sock.wire == base + Progress(d.wr, d.rs) && d.sock.finished == c.sock.finished && !d.rd.armed)
  }

  lemma SliceStep(s: seq<byte>, lo: nat, a: nat, b: nat)
    requires lo <= a <= b <= |s|
    ensures s[lo..a] + s[a..b] == s[lo..b]
  {
  }

  /** The bytes of one write continue what has gone out. */
  lemma ProgressStep(w: WriteOp, rs: Response, n: nat)
    requires Armed(w, rs) && !w.callback.NoWrite? && 0 < n <= Offered(w, rs)
    ensures var v := w.(alreadyWritten := w.alreadyWritten + n);
            && Progress(w, rs) + Chunk(w, rs, n) == Progress(v, rs)
            && (v.alreadyWritten != v.toWrite ==> Armed(v, rs))
            && (v.alreadyWritten == v.toWrite && w.callback.HeaderWritten? ==> Progress(v, rs) == rs.text)
            && (v.alreadyWritten == v.toWrite && w.callback.HttpFinish? ==>
                  BodyFits(rs) && Progress(v, rs) == Expected(rs))
  {
    hide Offered, Progress, Chunk, Armed, BodyFits, Expected;
    WriteBounds(w, rs, n);
    ArmedStep(w, rs, n);
    if w.callback.HeaderWritten? {
      HeaderProgress(w, rs, n);
    } else {
      FileProgress(w, rs, n);
    }
  }

  lemma ArmedStep(w: WriteOp, rs: Response, n: nat)
    requires Armed(w, rs) && !w.callback.NoWrite? && 0 < n <= Offered(w, rs)
    requires w.alreadyWritten + n <= |Source(w, rs)| && w.alreadyWritten + n <= End(w, rs)
    requires w.alreadyWritten + n == w.toWrite <==> w.alreadyWritten + n == End(w, rs)
    ensures w.alreadyWritten + n != w.toWrite ==> Armed(w.(alreadyWritten := w.alreadyWritten + n), rs)
  {
    hide Offered;
  }

  lemma HeaderProgress(w: WriteOp, rs: Response, n: nat)
    requires Armed(w, rs) && w.callback.HeaderWritten? && 0 < n <= Offered(w, rs)
    requires w.alreadyWritten + n <= |Source(w, rs)|
    ensures var v := w.(alreadyWritten := w.alreadyWritten + n);
            && Progress(w, rs) + Chunk(w, rs, n) == Progress(v, rs)
            && (v.alreadyWritten == v.toWrite ==> Progress(v, rs) == rs.text)
  {
    hide Offered;
    var a := w.alreadyWritten;
    SliceStep(rs.text, 0, a, a + n);
    assert rs.text[..a] == rs.text[0..a] && rs.text[..a + n] == rs.text[0..a + n];
  }

  lemma FileProgress(w: WriteOp, rs: Response, n: nat)
    requires Armed(w, rs) && w.callback.HttpFinish? && 0 < n <= Offered(w, rs)
    requires w.alreadyWritten + n <= |Source(w, rs)|
    requires w.alreadyWritten + n == w.toWrite <==> w.alreadyWritten + n == End(w, rs)
    ensures var v := w.(alreadyWritten := w.alreadyWritten + n);
            && Progress(w, rs) + Chunk(w, rs, n) == Progress(v, rs)
            && (v.alreadyWritten == v.toWrite ==> BodyFits(rs) && Progress(v, rs) == Expected(rs))
  {
    hide Offered;
    var a := w.alreadyWritten;
    SliceStep(rs.file, rs.offset, a, a + n);
    var out, more := rs.file[rs.offset..a], rs.file[a..a + n];
    assert rs.text + out + more == rs.text + (out + more);
  }

  lemma SendStep(base: seq<byte>, c: Conn, d: Conn, r: Reply)
    requires Sending(base, c, d) && !d.wr.callback.NoWrite?
    ensures Sending(base, c, WriteOnce(d, r).0)
  {
    hide Progress, Chunk, Offered, BodyFits, Armed;
    if r.Sent? && Min(r.count, Offered(d.wr, d.rs)) > 0 {
      var n := Min(r.count, Offered(d.wr, d.rs));
      ProgressStep(d.wr, d.rs, n);
      var e := Advance(d, n);
      assert base + Progress(d.wr, d.rs) + Chunk(d.wr, d.rs, n) == base + Progress(e.wr, d.rs);
      if e.wr.alreadyWritten == e.wr.toWrite {
        WrittenSends(base, c, e);
      }
    }
  }

  lemma WrittenSends(base: seq<byte>, c: Conn, e: Conn)
    requires c.rs == e.rs && e.sock.log == c.sock.log && e.rq.buf == c.rq.buf && e.sock.finished == c.sock.finished
    requires e.sock.answers == c.sock.answers
    requires !e.rd.armed && !e.wr.callback.NoWrite? && e.sock.wire == base + Progress(e.wr, e.rs)
    requires e.wr.callback.HeaderWritten? ==> Progress(e.wr, e.rs) == e.rs.text
    requires e.wr.callback.HttpFinish? ==> BodyFits(e.rs) && Progress(e.wr, e.rs) == Expected(e.rs)
    ensures Sending(base, c, Written(e))
  {
    assert e.rs.text + [] == e.rs.text;
    var s := AsyncSendfile(e.rs, HttpFinish);
    assert Progress(s, e.rs) == e.rs.text;
  }

  /** How many bytes of a response that fits are still to go. */
  function Pending(w: WriteOp, rs: Response): nat
    requires Armed(w, rs) && !w.callback.NoWrite?
  {
    Asked(w) + (if w.callback.HeaderWritten? && rs.content then rs.fileSize else 0)
  }

  lemma PendingStep(c: Conn, r: Reply)
    requires Armed(c.wr, c.rs) && !c.wr.callback.NoWrite? && BodyFits(c.rs) && r.Sent? && r.count > 0
    ensures var (d, s) := WriteOnce(c, r);
            && s.Continue?
            && (if Pending(c.wr, c.rs) <= Min(r.count, Offered(c.wr, c.rs)) then d.wr.callback.NoWrite?
                else !d.wr.callback.NoWrite? && Armed(d.wr, d.rs) && d.rs == c.rs
                     && Pending(d.wr, d.rs) == Pending(c.wr, c.rs) - Min(r.count, Offered(c.wr, c.rs)))
  {
    hide Progress, Chunk, Armed, Offered, Asked;
    OfferedPositive(c);
    var n := Min(r.count, Offered(c.wr, c.rs));
    ProgressStep(c.wr, c.rs, n);
    WriteBounds(c.wr, c.rs, n);
    SumsWrap(c.wr, c.rs);
    var v := c.wr.(alreadyWritten := c.wr.alreadyWritten + n);
    if v.alreadyWritten != v.toWrite {
      SumsWrap(v, c.rs);
    } else if c.wr.callback.HeaderWritten? && c.rs.content {
      SendfileArmed(c.rs);
      SumsWrap(AsyncSendfile(c.rs, HttpFinish), c.rs);
    }
  }

  lemma SendfileArmed(rs: Response)
    requires rs.content && BodyFits(rs)
    ensures Armed(AsyncSendfile(rs, HttpFinish), rs)
  {
  }

  /**
   Whatever the kernel takes at a time, what is on the wire of a response being sent is a prefix of the response and
   the part of the file that goes with it; a finished one is out entirely, is finished once, and its body lay in the
   file; and no response is finished whose body does not.
   */
  lemma {:induction false} WireExact(base: seq<byte>, c: Conn, d: Conn, rs: seq<Reply>)
    requires Sending(base, c, d)
    ensures Sending(base, c, WriteRun(d, rs).0)
    decreases |rs|
  {
    hide Sending, WriteOnce;
    if !d.wr.callback.NoWrite? && rs != [] {
      SendStep(base, c, d, rs[0]);
      if WriteOnce(d, rs[0]).1.Continue? {
        WireExact(base, c, WriteOnce(d, rs[0]).0, rs[1..]);
      }
    }
  }

  /** A response that fits is never aborted, and is finished by any kernel that keeps taking bytes. */
  lemma {:induction false} WriteCompletes(c: Conn, rs: seq<Reply>)
    requires Armed(c.wr, c.rs) && !c.wr.callback.NoWrite? && BodyFits(c.rs)
    requires forall k | 0 <= k < |rs| :: rs[k].Sent? ==> rs[k].count > 0
    ensures !WriteRun(c, rs).1.Abort?
    ensures (forall k | 0 <= k < |rs| :: rs[k].Sent?) && |rs| >= Pending(c.wr, c.rs) ==>
              WriteRun(c, rs).1.Continue? && WriteRun(c, rs).0.wr.callback.NoWrite?
    decreases |rs|
  {
    hide Armed, BodyFits, Offered, Pending, WriteOnce;
    if rs == [] {
      PendingPositive(c.wr, c.rs);
    } else if rs[0].Sent? {
      PendingStep(c, rs[0]);
      OfferedPositive(c);
      var d := WriteOnce(c, rs[0]).0;
      if !d.wr.callback.NoWrite? {
        WriteCompletes(d, rs[1..]);
      }
    } else {
      StopStep(c, rs[0]);
    }
  }

  lemma PendingPositive(w: WriteOp, rs: Response)
    requires Armed(w, rs) && !w.callback.NoWrite? && BodyFits(rs)
    ensures Pending(w, rs) > 0
  {
  }

  lemma OfferedPositive(c: Conn)
    requires Armed(c.wr, c.rs) && !c.wr.callback.NoWrite? && BodyFits(c.rs)
    ensures Offered(c.wr, c.rs) > 0
  {
  }

  lemma StopStep(c: Conn, r: Reply)
    requires !r.Sent?
    ensures !WriteOnce(c, r).1.Continue? && !WriteOnce(c, r).1.Abort?
  {
  }

  // ---------- Responses that do not fit ----------

  /** How many bytes of a response there still are, whether or not they are enough. */
  function Remaining(w: WriteOp, rs: Response): nat
    requires Armed(w, rs) && !w.callback.NoWrite?
  {
    if w.callback.HeaderWritten? then |rs.text| - w.alreadyWritten + |Body(rs)| else
    var end := Min(rs.offset + rs.fileSize, |rs.file|);
    if w.alreadyWritten < end then end - w.alreadyWritten else 0
  }

  /** What can be taken is what there is, first of the header and then of the file. */
  lemma OfferedIs(w: WriteOp, rs: Response)
    requires Armed(w, rs) && !w.callback.NoWrite?
    ensures w.callback.HeaderWritten? ==> Offered(w, rs) == |rs.text| - w.alreadyWritten > 0
    ensures w.callback.HttpFinish? ==> Offered(w, rs) == Remaining(w, rs)
  {
    hide Asked;
    SumsWrap(w, rs);
  }

  lemma RemainingStep(c: Conn, r: Reply)
    requires Armed(c.wr, c.rs) && !c.wr.callback.NoWrite? && !BodyFits(c.rs) && r.Sent? && r.count > 0
    ensures var (d, s) := WriteOnce(c, r);
            if Remaining(c.wr, c.rs) == 0 then s.Abort?
            else s.Continue? && d.rs == c.rs && Armed(d.wr, d.rs) && !d.wr.callback.NoWrite?
                 && Remaining(d.wr, d.rs) < Remaining(c.wr, c.rs)
  {
    hide Progress, Chunk, Offered, Asked, Expected;
    OfferedIs(c.wr, c.rs);
    var n := Min(r.count, Offered(c.wr, c.rs));
    if n > 0 {
      ProgressStep(c.wr, c.rs, n);
      WriteBounds(c.wr, c.rs, n);
    }
  }

  /** A response whose body does not lie in the file, or is empty, ends in the failed assertion. */
  lemma {:induction false} WriteAborts(c: Conn, rs: seq<Reply>)
    requires Armed(c.wr, c.rs) && !c.wr.callback.NoWrite? && !BodyFits(c.rs)
    requires (forall k | 0 <= k < |rs| :: rs[k].Sent? && rs[k].count > 0) && |rs| > Remaining(c.wr, c.rs)
    ensures WriteRun(c, rs).1.Abort?
    decreases |rs|
  {
    hide Armed, BodyFits, Remaining, WriteOnce;
    RemainingStep(c, rs[0]);
    if Remaining(c.wr, c.rs) > 0 {
      WriteAborts(WriteOnce(c, rs[0]).0, rs[1..]);
    }
  }

  // ---------- Whole-file and range responses ----------

  /** Status lines are not empty, so neither is any response. */
  lemma ResponseNotEmpty(rs: Response, a: Answer)
    requires !a.Thrown?
    ensures Serve(rs, a).text != []
  {
    hide ResponseBytes, Length;
    StatusNotEmpty("400", "Bad Request", EmptyLines("close"));
    StatusNotEmpty("404", "Not Found", EmptyLines("keep-alive"));
    StatusNotEmpty("304", "Not Modified", EmptyLines("keep-alive"));
    match a
    case Whole(file, ct) => StatusNotEmpty("200", "OK", Lines200(|file.content|, file.date, ct));
    case Ranged(file, first, last) =>
      StatusNotEmpty("206", "Partial Content",
                     Lines206(Length(first, last), file.date, first, last % SIZE_T, |file.content|));
    case _ =>
  }

  lemma StatusNotEmpty(status: seq<byte>, msg: seq<byte>, ls: seq<Line>)
    ensures ResponseBytes(status, msg, ls) != []
  {
    hide PrintLineTexts;
    assert |"HTTP/1.1 "| == 9;
  }

  /** The status and the fields of the response to an answer. */
  function StatusOf(a: Answer): nat {
    match a
    case Malformed | BadField(_) => 400
    case NotFound => 404
    case NotModified(_) => 304
    case Whole(_, _) => 200
    case Ranged(_, _, _) => 206
    case Thrown => 0
  }

  function LinesOf(a: Answer): seq<Line> {
    match a
    case Malformed | BadField(_) => EmptyLines("close")
    case NotFound | NotModified(_) => EmptyLines("keep-alive")
    case Whole(file, ct) => Lines200(|file.content|, file.date, ct)
    case Ranged(file, first, last) =>
      Lines206(Length(first, last), file.date, first, last % SIZE_T, |file.content|)
    case Thrown => []
  }

  /** The server's own parser reads every header it sends, with its status, its fields and its exact length. */
  lemma AnswerReadsBack(rs: Response, w: World, buf: seq<byte>, p: Parse<RequestLine>)
    requires Within(p, |buf|) && forall name | name in w.files :: Plain(w.files[name].date)
    ensures var a := Decide(w, buf, p);
            a.Some? && !a.value.Thrown? ==> ReadsBack(Serve(rs, a.value).text, StatusOf(a.value), LinesOf(a.value))
  {
    hide ReadsBack, Plain, ResponseBytes, Bytes200, Bytes206, Bytes304, Bytes400, Bytes404, Length, Locate, FieldAnswer;
    ReadErrors();
    var o := Decide(w, buf, p);
    if o.Some? && !o.value.Thrown? {
      var a := o.value;
      if p.end.Done? {
        var found := Locate(w, Text(buf, p.end.value.path));
        if found.Some? {
          LocatedPlain(w, Text(buf, p.end.value.path));
          AnswersFile(w, buf, p.headers, found.value);
        }
      }
      match a
      case Whole(file, ct) => Read200(|file.content|, file.date, ct);
      case Ranged(file, first, last) =>
        Read206(Length(first, last), file.date, first, last % SIZE_T, |file.content|);
      case _ =>
    }
  }

  lemma LocatedPlain(w: World, path: seq<byte>)
    requires forall name | name in w.files :: Plain(w.files[name].date)
    ensures var found := Locate(w, path);
            found.Some? ==> Plain(found.value.file.date) && Plain(found.value.contentType)
  {
    hide Plain, ContentType;
    MimePlain(U.Resolved(path[..U.Query(path)]));
  }

  /** Nothing but its text is sent of an answer without a body, and that says by which status it is answered. */
  lemma BodilessSent(rs: Response, a: Answer)
    requires !a.Whole? && !a.Ranged? && !a.Thrown?
    ensures var sent := Expected(Serve(rs, a));
            match a
            case Malformed | BadField(_) => sent == "HTTP/1.1 400 Bad Request\r\n" + EmptyFields("close")
            case NotFound => sent == "HTTP/1.1 404 Not Found\r\n" + EmptyFields("keep-alive")
            case NotModified(_) => sent == "HTTP/1.1 304 Not Modified\r\n" + EmptyFields("keep-alive")
            case _ => true
  {
    hide ResponseBytes, EmptyFields;
    EmptyTexts();
    var text := Serve(rs, a).text;
    assert text + [] == text;
  }

  /** A whole file is sent after its header exactly when it is not empty and the offset is 0. */
  lemma WholeFileBody(rs: Response, file: File, contentType: TypeName)
    ensures var r := Serve(rs, Whole(file, contentType)); var text := Bytes200(|file.content|, file.date, contentType);
            && (BodyFits(r) <==> rs.offset == 0 && file.content != [])
            && (rs.offset == 0 || file.content == [] <==> Expected(r) == text + file.content)
  {
    hide Bytes200;
    var r := Serve(rs, Whole(file, contentType));
    if rs.offset > 0 && file.content != [] {
      assert |Expected(r)| < |Bytes200(|file.content|, file.date, contentType) + file.content|;
    }
  }

  /** Header and body agree: the announced bytes lie in the file, as many as are announced, and are sent. */
  ghost predicate RangeRight(r: Response, file: File, first: nat, last: int) {
    && first <= last < |file.content| && r.fileSize == last - first + 1 && BodyFits(r)
    && Expected(r) == Bytes206(last - first + 1, file.date, first, last, |file.content|)
                      + file.content[first..last + 1]
  }

  /**
   A range is announced as it is sent exactly when it is not empty and an `int` holds its length. Whatever its numbers,
   no other is finished whose length is announced as that of its interval.
   */
  lemma RangeBody(rs: Response, file: File, value: seq<byte>)
    requires HandleRange(value, |file.content|).Partial?
    ensures var q := HandleRange(value, |file.content|); var r := Serve(rs, Ranged(file, q.first, q.last));
            && (RangeRight(r, file, q.first, q.last) <==> q.first <= q.last < q.first + INT_MAX)
            && (q.first <= q.last < q.first + INT_MAX <==> BodyFits(r) && r.fileSize == q.last - q.first + 1)
  {
    hide Bytes206, HandleRange, Length;
    var q := HandleRange(value, |file.content|);
    LastInFile(value, |file.content|);
    LengthExact(q.first, q.last);
    SmallMod(|file.content|);
    if q.first <= q.last {
      SmallMod(q.last);
    }
  }

  /** In a file of at most 2 GiB: exactly when it starts in the file and is not the whole of a file of 2 GiB. */
  lemma SmallFileRange(rs: Response, file: File, value: seq<byte>)
    requires HandleRange(value, |file.content|).Partial? && 0 < |file.content| <= INT_MAX + 1
    ensures var q := HandleRange(value, |file.content|); var r := Serve(rs, Ranged(file, q.first, q.last));
            && (RangeRight(r, file, q.first, q.last) <==>
                  q.first < |file.content| && !(q.first == 0 && q.last == INT_MAX))
            && (RangeRight(r, file, q.first, q.last) <==> BodyFits(r))
  {
    hide Bytes206, HandleRange, Length, RangeRight;
    RangeInFile(value, |file.content|);
    RangeBody(rs, file, value);
  }
}
