/**
 All runs of one connection: any sequence of readable and writable events, with any amounts of bytes.
 */
module ConnectionRuns {
  import opened Bytes
  import opened Scanner
  import opened Message
  import opened Pipeline
  import opened Requests
  import I = Incremental
  import Ranges
  import Responses

  /** Bytes come in, while the file system is as `w` says, or the socket can be written to. */
  datatype Event = Readable(data: seq<byte>, w: World) | Writable(r: Reply)

  /** One system call made for an event: nothing for an operation that is not armed. A read of nothing is the end. */
  function StepEvent(c: Conn, e: Event): (Conn, Status)
    requires c.rd.armed ==> c.rd.pos + c.rd.n <= |c.rq.buf| && c.rq.counter + c.rd.n <= |c.rq.buf|
  {
    match e
    case Readable(data, w) =>
      if !c.rd.armed then (c, Continue)
      else if data == [] then (c, Error)
      else ReadOnce(c, data[..Min(|data|, c.rd.n)], w)
    case Writable(r) => if c.wr.callback.NoWrite? then (c, Continue) else WriteOnce(c, r)
  }

  function Flat(log: seq<seq<byte>>): seq<byte> {
    if log == [] then [] else Flat(log[..|log| - 1]) + log[|log| - 1]
  }

  /** The calls of the parser since the last `accept_logic`: all incomplete, the capacity going from call to call. */
  ghost predicate CallsSoFar(rq: Request, sock: Socket) {
    if sock.lens == [] then rq.counter == 0 && rq.numHeaders == I.MAX_HEADERS else
    && I.Growing(sock.received, sock.lens)
    && sock.lens[|sock.lens| - 1] == rq.counter
    && rq.numHeaders == |I.CarriedCall(sock.received, sock.lens, |sock.lens| - 1).headers|
    && forall j | 0 <= j < |sock.lens| :: I.CarriedCall(sock.received, sock.lens, j).end.More?
  }

  /**
   The read that is armed goes behind what has been received since the last `accept_logic`, which is what the buffer
   holds, and has room for the rest of the buffer.
   */
  ghost predicate Reading(c: Conn) {
    && c.rd.pos == c.rq.counter && c.rd.n == MAX_BUFFER_SIZE - c.rq.counter && c.rd.n > 0
    && c.rq.counter == |c.sock.received| <= MAX_BUFFER_SIZE == |c.rq.buf|
    && c.rq.buf[..c.rq.counter] == c.sock.received
    && !c.rq.finalized && CallsSoFar(c.rq, c.sock)
  }

  /** The response that is being written is the last in the log, the ones before are out. */
  ghost predicate Writing(c: Conn) {
    && c.sock.log != []
    && c.sock.log[|c.sock.log| - 1] == Expected(c.rs)
    && c.sock.wire == Flat(c.sock.log[..|c.sock.log| - 1]) + Progress(c.wr, c.rs)
  }

  /** The first byte of the last range that was answered on the connection, 0 if none was. */
  function LastFirst(answers: seq<Answer>): Ranges.SizeT {
    if answers == [] then 0
    else if answers[|answers| - 1].Ranged? then answers[|answers| - 1].first
    else LastFirst(answers[..|answers| - 1])
  }

  lemma LastFirstSnoc(answers: seq<Answer>, a: Answer)
    ensures LastFirst(answers + [a]) == if a.Ranged? then a.first else LastFirst(answers)
  {
    assert (answers + [a])[..|answers|] == answers;
  }

  /** Either a read or a write is armed, never both; and nothing but a range ever sets the offset. */
  ghost predicate Inv(c: Conn) {
    && |c.rq.buf| == MAX_BUFFER_SIZE && Armed(c.wr, c.rs)
    && (c.rd.armed <==> c.wr.callback.NoWrite?)
    && (if c.rd.armed then Reading(c) && c.sock.wire == Flat(c.sock.log) else Writing(c))
    && c.rs.offset == LastFirst(c.sock.answers)
  }

  /** `accept_callback_http` on a fresh `user_data`. */
  function Start(buf: seq<byte>): Conn {
    AcceptLogic(Conn(ReadOp(false, 0, 0), WriteOp(NoWrite, BasicWrite, 0, 0), Request(0, buf, 0, false),
                     Response([], false, [], 0, 0), Socket([], [], [], 0, [], [])))
  }

  lemma StartInv(buf: seq<byte>)
    requires |buf| == MAX_BUFFER_SIZE
    ensures Inv(Start(buf))
  {
  }

  // ---------- Reading ----------

  /** More bytes and more calls do not change the calls made before. */
  lemma {:induction false} CarriedExtends(s: seq<byte>, u: seq<byte>, lens: seq<nat>, more: seq<nat>, k: nat)
    requires s <= u && lens <= more && I.Growing(s, lens) && I.Growing(u, more) && k < |lens|
    ensures I.CarriedCall(u, more, k) == I.CarriedCall(s, lens, k)
    ensures I.CarriedCap(u, more, k) == I.CarriedCap(s, lens, k)
    decreases k
  {
    hide I.PhrParseRequest;
    if k > 0 {
      CarriedExtends(s, u, lens, more, k - 1);
    }
    assert u[..more[k]] == s[..lens[k]];
  }

  lemma GrowingSnoc(s: seq<byte>, data: seq<byte>, lens: seq<nat>)
    requires data != [] && (lens == [] ==> s == []) && (lens != [] ==> I.Growing(s, lens) && lens[|lens| - 1] == |s|)
    ensures I.Growing(s + data, lens + [|s| + |data|])
  {
  }

  /** The parser is called as `Incremental.CarriedCall` says, and the invariant goes on if it wants more. */
  lemma CallStep(rq: Request, sock: Socket, data: seq<byte>, p: Parse<RequestLine>, rq': Request, sock': Socket)
    requires data != [] && CallsSoFar(rq, sock) && rq.counter == |sock.received|
    requires sock.lens == [] ==> sock.received == []
    requires rq'.counter == rq.counter + |data| && rq'.numHeaders == |p.headers|
    requires sock'.received == sock.received + data && sock'.lens == sock.lens + [rq'.counter]
    requires p == I.PhrParseRequest(sock'.received, rq.numHeaders, rq.counter)
    ensures I.Growing(sock'.received, sock'.lens)
    ensures p == I.CarriedCall(sock'.received, sock'.lens, |sock.lens|)
    ensures p.end.More? ==> CallsSoFar(rq', sock')
  {
    hide I.PhrParseRequest, I.Growing;
    var s, u, lens, more := sock.received, sock'.received, sock.lens, sock'.lens;
    GrowingSnoc(s, data, lens);
    GrowingFacts(u, more);
    assert u[..|u|] == u;
    if lens != [] {
      forall j | 0 <= j < |lens| ensures I.CarriedCall(u, more, j) == I.CarriedCall(s, lens, j) {
        CarriedExtends(s, u, lens, more, j);
      }
    }
  }

  lemma GrowingFacts(s: seq<byte>, lens: seq<nat>)
    requires I.Growing(s, lens)
    ensures lens != [] && forall k | 0 <= k < |lens| :: lens[k] <= |s| && (k > 0 ==> lens[k - 1] < lens[k])
  {
  }

  lemma ReadStep(c: Conn, data: seq<byte>, w: World)
    requires Inv(c) && c.rd.armed && 0 < |data| <= c.rd.n
    ensures Inv(ReadOnce(c, data, w).0)
  {
    hide Serve, Flat, CallsSoFar, Armed, I.PhrParseRequest, Expected, Progress, Decide, LastFirst;
    var d := Received(c, data);
    var n := c.rq.counter + |data|;
    assert d.rq.buf[..n] == d.sock.received;
    if !IsThrown(Verdict(d.rq, |data|, w)) {
      var p := ParseCall(d.rq, |data|);
      var e := AfterParse(d, |data|, w);
      NoBytesYet(c);
      CallStep(c.rq, c.sock, data, p, e.rq, e.sock);
      DecideSome(w, d.rq.buf, p);
      if !p.end.More? {
        var a := Verdict(d.rq, |data|, w).value;
        ResponseNotEmpty(d.rs, a);
        ServeOffset(d.rs, a);
        LastFirstSnoc(c.sock.answers, a);
        StartWrites(e);
      } else if n == MAX_BUFFER_SIZE {
        RestartInv(e);
      } else {
        ArmedIdle(e);
      }
    }
  }

  lemma DecideSome(w: World, buf: seq<byte>, p: Parse<RequestLine>)
    requires Within(p, |buf|)
    ensures Decide(w, buf, p).Some? <==> !p.end.More?
  {
  }

  lemma ServeOffset(rs: Response, a: Answer)
    requires !a.Thrown?
    ensures Serve(rs, a).offset == if a.Ranged? then a.first else rs.offset
  {
    hide Responses.ResponseBytes, Responses.Bytes200, Responses.Bytes206;
  }

  lemma NoBytesYet(c: Conn)
    requires Reading(c)
    ensures c.sock.lens == [] ==> c.sock.received == []
  {
  }

  lemma ArmedIdle(c: Conn)
    requires c.wr.callback.NoWrite?
    ensures Armed(c.wr, c.rs)
  {
  }

  lemma StartWrites(c: Conn)
    requires |c.rq.buf| == MAX_BUFFER_SIZE && !c.rd.armed && c.rs.text != [] && c.sock.wire == Flat(c.sock.log)
    requires c.rs.offset == LastFirst(c.sock.answers)
    ensures Inv(StartResponse(c))
  {
    hide Expected, Reading, LastFirst, Flat, CallsSoFar, Progress;
    var d := StartResponse(c);
    assert d.sock.log[..|d.sock.log| - 1] == c.sock.log;
    NothingOut(c.rs);
    assert c.sock.wire + [] == c.sock.wire;
  }

  lemma NothingOut(rs: Response)
    ensures Progress(AsyncWrite(rs, HeaderWritten), rs) == []
  {
    assert rs.text[..0] == [];
  }

  lemma RestartInv(c: Conn)
    requires |c.rq.buf| == MAX_BUFFER_SIZE && c.wr.callback.NoWrite? && c.sock.wire == Flat(c.sock.log)
    requires c.rs.offset == LastFirst(c.sock.answers)
    ensures Inv(FinishCallback(c))
  {
    hide Flat, LastFirst;
  }

  // ---------- Writing ----------

  lemma WriteStep(c: Conn, r: Reply)
    requires Inv(c) && !c.wr.callback.NoWrite?
    ensures Inv(WriteOnce(c, r).0)
  {
    hide Armed, Progress, Expected, WriteOnce, BodyFits, LastFirst;
    var base := Flat(c.sock.log[..|c.sock.log| - 1]);
    assert Sending(base, c, c);
    SendStep(base, c, c, r);
    var d := WriteOnce(c, r).0;
    if d.wr.callback.NoWrite? {
      assert d.sock.wire == Flat(d.sock.log);
      IdleReads(d);
    }
  }

  lemma IdleReads(c: Conn)
    requires Idle(c) && |c.rq.buf| == MAX_BUFFER_SIZE
    ensures Reading(c)
  {
  }

  /** `read_loop`: reads while a read is armed; when nothing is left the kernel says EAGAIN. */
  function ReadRun(c: Conn, ins: seq<(seq<byte>, World)>): (r: (Conn, Status))
    requires Inv(c)
    ensures Inv(r.0)
    decreases |ins|
  {
    if !c.rd.armed || ins == [] then (c, Continue)
    else if ins[0].0 == [] then (c, Error)
    else
      var data := ins[0].0[..Min(|ins[0].0|, c.rd.n)];
      ReadStep(c, data, ins[0].1);
      var (d, s) := ReadOnce(c, data, ins[0].1);
      if s.Abort? then (d, s) else ReadRun(d, ins[1..])
  }

  // ---------- Runs ----------

  lemma StepInv(c: Conn, e: Event)
    requires Inv(c)
    ensures Inv(StepEvent(c, e).0)
  {
    hide WriteOnce, ReadOnce, CallsSoFar, Flat, Expected, Progress;
    match e
    case Readable(data, w) =>
      if c.rd.armed && data != [] {
        ReadStep(c, data[..Min(|data|, c.rd.n)], w);
      }
    case Writable(r) =>
      if !c.wr.callback.NoWrite? {
        WriteStep(c, r);
      }
  }

  /** A run goes on until an error or the failed assertion. */
  function Run(c: Conn, es: seq<Event>): (Conn, Status)
    requires Inv(c)
    decreases |es|
  {
    if es == [] then (c, Continue) else
    StepInv(c, es[0]);
    var (d, s) := StepEvent(c, es[0]);
    if s.Error? || s.Abort? then (d, s) else Run(d, es[1..])
  }

  lemma {:induction false} RunInv(c: Conn, es: seq<Event>)
    requires Inv(c)
    ensures Inv(Run(c, es).0)
    decreases |es|
  {
    hide StepEvent, CallsSoFar, Flat, LastFirst, Armed;
    if es != [] {
      StepInv(c, es[0]);
      var (d, s) := StepEvent(c, es[0]);
      if !s.Error? && !s.Abort? {
        RunInv(d, es[1..]);
      }
    }
  }

  /**
   In every state of every run of a connection the bytes on the wire are those of the responses whose writing was
   armed, in order, all of them out but perhaps the last; and the buffer holds what was received since the last
   response, with the read that is armed going right behind it.
   */
  lemma RunWire(buf: seq<byte>, es: seq<Event>)
    requires |buf| == MAX_BUFFER_SIZE
    ensures Inv(Start(buf)) && Inv(Run(Start(buf), es).0)
    ensures var c := Run(Start(buf), es).0;
            && c.sock.wire <= Flat(c.sock.log)
            && (c.rd.armed ==> c.sock.wire == Flat(c.sock.log))
            && (c.rd.armed ==> c.rd.pos == c.rq.counter && c.rd.n == MAX_BUFFER_SIZE - c.rq.counter > 0
                               && c.rq.buf[..c.rq.counter] == c.sock.received)
  {
    hide Run, CallsSoFar, LastFirst;
    StartInv(buf);
    RunInv(Start(buf), es);
    var c := Run(Start(buf), es).0;
    if !c.rd.armed {
      ProgressPrefix(c.wr, c.rs);
    }
  }

  /** In every such state the offset is the first byte of the last range that was answered, or 0 if none was. */
  lemma RunOffset(buf: seq<byte>, es: seq<Event>)
    requires |buf| == MAX_BUFFER_SIZE
    ensures Inv(Start(buf)) && Run(Start(buf), es).0.rs.offset == LastFirst(Run(Start(buf), es).0.sock.answers)
  {
    hide Run, Reading, Writing, LastFirst, Armed;
    StartInv(buf);
    RunInv(Start(buf), es);
  }

  lemma ProgressPrefix(w: WriteOp, rs: Response)
    requires Armed(w, rs)
    ensures Progress(w, rs) <= Expected(rs)
  {
    if w.callback.HeaderWritten? {
      assert Progress(w, rs) <= rs.text;
    } else if w.callback.HttpFinish? {
      var lo, hi := Min(rs.offset, |rs.file|), Min(w.alreadyWritten, |rs.file|);
      assert rs.file[lo..hi] <= Body(rs);
    }
  }

  /** What is answered when `data` comes in. */
  function AnswerTo(c: Conn, data: seq<byte>, w: World): Option<Answer>
    requires c.rd.pos + |data| <= |c.rq.buf| && c.rq.counter + |data| <= |c.rq.buf|
  {
    Verdict(Received(c, data).rq, |data|, w)
  }

  /** What the parser says to all that was received since the last response, and where the answer comes from. */
  lemma AnswerIs(c: Conn, data: seq<byte>, w: World)
    requires Inv(c) && c.rd.armed && 0 < |data| <= c.rd.n
    ensures var buf := Received(c, data).rq.buf; var u := c.sock.received + data;
            && |u| <= |buf| && buf[..|u|] == u
            && var p := I.PhrParseRequest(u, c.rq.numHeaders, c.rq.counter);
            && Within(p, |buf|) && AnswerTo(c, data, w) == Decide(w, buf, p)
            && (AnswerTo(c, data, w).Some? <==> !p.end.More?)
  {
    hide I.PhrParseRequest, Decide, CallsSoFar, Flat, LastFirst, Armed;
    var d := Received(c, data);
    assert d.rq.buf[..c.rq.counter + |data|] == c.sock.received + data;
    DecideSome(w, d.rq.buf, ParseCall(d.rq, |data|));
  }

  /**
   A request that one call of the parser would accept, but whose first bytes came alone, is answered as a bad request
   when it has more header entries than the previous calls left room for, and otherwise as if it had come at once.
   */
  lemma SplitRequestRefused(c: Conn, data: seq<byte>, w: World)
    requires Inv(c) && c.rd.armed && 0 < |data| <= c.rd.n && c.sock.lens != []
    requires ParseRequest(c.sock.received + data, I.MAX_HEADERS).end.Done?
    ensures var s := c.sock.received; var one := ParseRequest(s + data, I.MAX_HEADERS);
            var buf := Received(c, data).rq.buf;
            var held := if |c.sock.lens| == 1 then |ParseRequest(s, I.MAX_HEADERS).headers| else 0;
            && Within(one, |buf|)
            && AnswerTo(c, data, w) == if |one.headers| <= held then Decide(w, buf, one) else Some(Malformed)
  {
    hide ParseRequest, I.PhrParseRequest, Armed, Progress, Expected, Flat, LastFirst, Decide;
    var lens, s, u := c.sock.lens, c.sock.received, c.sock.received + data;
    AnswerIs(c, data, w);
    var p := SplitCall(c, data);
    var buf := Received(c, data).rq.buf;
    OneWithin(u, |buf|);
    if p.end.Bad? {
      assert Decide(w, buf, p) == Some(Malformed) by {
        DecideBad(w, buf, p);
      }
    }
  }

  lemma DecideBad(w: World, buf: seq<byte>, p: Parse<RequestLine>)
    requires p.end.Bad?
    ensures Decide(w, buf, p) == Some(Malformed)
  {
  }

  lemma OneWithin(s: seq<byte>, n: nat)
    requires |s| <= n
    ensures Within(ParseRequest(s, I.MAX_HEADERS), n)
  {
    hide ParseRequest, HeadersIn;
    if ParseRequest(s, I.MAX_HEADERS).end.Done? {
      ParsedIn(s, I.MAX_HEADERS);
      InMore(ParseRequest(s, I.MAX_HEADERS).headers, |s|, n);
    }
  }

  /** The call of the parser on the last piece of a request that came in more than one. */
  lemma SplitCall(c: Conn, data: seq<byte>) returns (p: Parse<RequestLine>)
    requires Inv(c) && c.rd.armed && 0 < |data| <= c.rd.n && c.sock.lens != []
    requires ParseRequest(c.sock.received + data, I.MAX_HEADERS).end.Done?
    ensures var s := c.sock.received; var one := ParseRequest(s + data, I.MAX_HEADERS);
            var held := if |c.sock.lens| == 1 then |ParseRequest(s, I.MAX_HEADERS).headers| else 0;
            && p == I.PhrParseRequest(s + data, c.rq.numHeaders, c.rq.counter)
            && if |one.headers| <= held then p == one else p.end.Bad?
  {
    hide ParseRequest, I.PhrParseRequest, Armed, Progress, Expected, Flat, LastFirst;
    var lens, s, u := c.sock.lens, c.sock.received, c.sock.received + data;
    var n := c.rq.counter + |data|;
    p := I.PhrParseRequest(u, c.rq.numHeaders, c.rq.counter);
    CallStep(c.rq, c.sock, data, p, Request(n, c.rq.buf, |p.headers|, !p.end.More?),
             c.sock.(received := u, lens := lens + [n]));
    var more := lens + [n];
    GrowingFacts(u, more);
    forall j | 0 <= j < |lens| ensures I.CarriedCall(u, more, j).end.More? {
      CarriedExtends(s, u, lens, more, j);
    }
    assert u[..more[|lens|]] == u;
    I.CarriedCapacityExact(u, more, |lens|);
    if |lens| == 1 {
      assert u[..more[0]] == s;
    }
  }

  // ---------- From request to response ----------

  /** The kernel takes something every time. */
  ghost predicate Taking(rs: seq<Reply>) {
    forall k | 0 <= k < |rs| :: rs[k].Sent? && rs[k].count > 0
  }

  /**
   From base contents `base` of the socket, the response `r` is being sent, or was finished with all of it out; and it
   was if its body fits and the kernel took something as often as it has bytes.
   */
  ghost predicate Served(base: Socket, r: Response, e: Conn, rs: seq<Reply>) {
    && e.rs == r && Inv(e)
    && (e.wr.callback.NoWrite? ==> BodyFits(r) && e.sock.wire == base.wire + Expected(r)
                                   && e.sock.finished == base.finished + 1)
    && (!e.wr.callback.NoWrite? ==> base.wire <= e.sock.wire <= base.wire + Expected(r)
                                    && e.sock.finished == base.finished)
    && (BodyFits(r) && Taking(rs) && |rs| >= |Expected(r)| ==> e.wr.callback.NoWrite?)
  }

  /** The last piece of a request, then any schedule of the kernel: the answer goes out, or the process is gone. */
  lemma ResponseServed(c: Conn, data: seq<byte>, w: World, rs: seq<Reply>)
    requires Inv(c) && c.rd.armed && 0 < |data| <= c.rd.n && AnswerTo(c, data, w).Some?
    ensures var a := AnswerTo(c, data, w).value; var (d, s) := ReadOnce(c, data, w);
            && (s.Abort? <==> a.Thrown?) && (s.Continue? <==> !a.Thrown?)
            && (!a.Thrown? ==> d.sock.answers == c.sock.answers + [a]
                               && Served(c.sock, Serve(c.rs, a), WriteRun(d, rs).0, rs))
  {
    hide Serve, Expected, Progress, Armed, BodyFits, Flat, Decide, WriteRun, Sending, CallsSoFar, LastFirst, Inv,
         I.PhrParseRequest;
    ReadStep(c, data, w);
    InvSizes(c);
    AnswerIs(c, data, w);
    var a, d := AnswerTo(c, data, w).value, ReadOnce(c, data, w).0;
    if !a.Thrown? {
      ResponseNotEmpty(c.rs, a);
      assert d.rs == Serve(c.rs, a) && d.sock.wire == c.sock.wire && d.sock.finished == c.sock.finished;
      InvArmed(d);
      JustArmed(d);
      WireExact(c.sock.wire, d, d, rs);
      WriteRunInv(d, rs);
      SendingFacts(c.sock.wire, d, WriteRun(d, rs).0);
      PendingExpected(d);
      if BodyFits(d.rs) && Taking(rs) && |rs| >= |Expected(d.rs)| {
        WriteCompletes(d, rs);
      }
    }
  }

  lemma InvSizes(c: Conn)
    requires Inv(c) && c.rd.armed
    ensures c.rd.pos + c.rd.n == |c.rq.buf| && c.rq.counter == c.rd.pos == |c.sock.received|
    ensures c.wr.callback.NoWrite? && c.rs.offset == LastFirst(c.sock.answers)
  {
  }

  lemma InvArmed(c: Conn)
    requires Inv(c)
    ensures Armed(c.wr, c.rs)
  {
  }

  lemma JustArmed(d: Conn)
    requires !d.rd.armed && d.wr == AsyncWrite(d.rs, HeaderWritten) && Armed(d.wr, d.rs)
    ensures Sending(d.sock.wire, d, d)
  {
    assert d.rs.text[..0] == [] && d.sock.wire + [] == d.sock.wire;
  }

  lemma SendingFacts(base: seq<byte>, d: Conn, e: Conn)
    requires Sending(base, d, e)
    ensures e.rs == d.rs
    ensures e.wr.callback.NoWrite? ==> BodyFits(d.rs) && e.sock.wire == base + Expected(d.rs)
                                       && e.sock.finished == d.sock.finished + 1
    ensures !e.wr.callback.NoWrite? ==> base <= e.sock.wire <= base + Expected(d.rs)
                                        && e.sock.finished == d.sock.finished
  {
    hide Expected, Progress, Armed;
    ProgressPrefix(e.wr, e.rs);
  }

  lemma PendingExpected(d: Conn)
    requires d.wr == AsyncWrite(d.rs, HeaderWritten) && Armed(d.wr, d.rs)
    ensures BodyFits(d.rs) ==> Pending(d.wr, d.rs) == |Expected(d.rs)|
  {
    hide Asked;
    SumsWrap(d.wr, d.rs);
  }

  lemma {:induction false} WriteRunInv(c: Conn, rs: seq<Reply>)
    requires Inv(c)
    ensures Inv(WriteRun(c, rs).0)
    decreases |rs|
  {
    hide Inv, WriteOnce;
    if !c.wr.callback.NoWrite? && rs != [] {
      WriteStep(c, rs[0]);
      if WriteOnce(c, rs[0]).1.Continue? {
        WriteRunInv(WriteOnce(c, rs[0]).0, rs[1..]);
      }
    }
  }

  /**
   A request that is answered with a whole file is served to the end only if the file is not empty and no range has been
   answered on the connection since one from byte 0; then, and if the kernel keeps taking bytes, header and file are
   what goes out.
   */
  lemma WholeFileServed(c: Conn, data: seq<byte>, w: World, rs: seq<Reply>)
    requires Inv(c) && c.rd.armed && 0 < |data| <= c.rd.n && AnswerTo(c, data, w).Some?
    requires AnswerTo(c, data, w).value.Whole?
    ensures var a := AnswerTo(c, data, w).value; var file := a.file;
            var whole := Responses.Bytes200(|file.content|, file.date, a.contentType) + file.content;
            var e := WriteRun(ReadOnce(c, data, w).0, rs).0;
            && (e.wr.callback.NoWrite? ==> LastFirst(c.sock.answers) == 0 && file.content != []
                                           && e.sock.wire == c.sock.wire + whole)
            && (LastFirst(c.sock.answers) == 0 && file.content != [] && Taking(rs) && |rs| >= |whole| ==>
                  e.wr.callback.NoWrite?)
  {
    hide ReadOnce, WriteRun, Expected, BodyFits, Responses.Bytes200, AnswerTo, LastFirst, Inv;
    InvSizes(c);
    ResponseServed(c, data, w, rs);
    var a := AnswerTo(c, data, w).value;
    WholeFileBody(c.rs, a.file, a.contentType);
  }

  /**
   A request that is answered with a range. If the range is not empty and an `int` holds its length, header and body
   agree and go out; if not, they are finished only when the header lies about the length or the interval.
   */
  lemma RangeServed(c: Conn, data: seq<byte>, w: World, rs: seq<Reply>)
    requires Inv(c) && c.rd.armed && 0 < |data| <= c.rd.n && AnswerTo(c, data, w).Some?
    requires AnswerTo(c, data, w).value.Ranged?
    ensures var a := AnswerTo(c, data, w).value; var r := Serve(c.rs, a);
            var e := WriteRun(ReadOnce(c, data, w).0, rs).0;
            && (RangeRight(r, a.file, a.first, a.last) <==> a.first <= a.last < a.first + INT_MAX)
            && (e.wr.callback.NoWrite? ==> BodyFits(r) && e.sock.wire == c.sock.wire + Expected(r))
            && (RangeRight(r, a.file, a.first, a.last) && Taking(rs) && |rs| >= |Expected(r)| ==>
                  e.wr.callback.NoWrite?)
            && (0 < |a.file.content| <= INT_MAX + 1 && !RangeRight(r, a.file, a.first, a.last) ==>
                  !e.wr.callback.NoWrite?)
            && LastFirst(ReadOnce(c, data, w).0.sock.answers) == a.first
  {
    hide ReadOnce, WriteRun, Expected, BodyFits, Responses.Bytes206, Ranges.HandleRange, Serve, Inv, Decide,
         I.PhrParseRequest;
    ResponseServed(c, data, w, rs);
    InvSizes(c);
    AnswerIs(c, data, w);
    var a := AnswerTo(c, data, w).value;
    LastFirstSnoc(c.sock.answers, a);
    var value := DecidedRange(w, Received(c, data).rq.buf,
                              I.PhrParseRequest(c.sock.received + data, c.rq.numHeaders, c.rq.counter));
    RangeBody(c.rs, a.file, value);
    if 0 < |a.file.content| <= INT_MAX + 1 {
      SmallFileRange(c.rs, a.file, value);
    }
  }

  // ---------- Requests that end the process ----------

  /**
   An exception that nobody catches, an empty file, a whole file after a range from past the start of its file, and a
   range of which the file has not as many bytes as are announced.
   */
  predicate EndsProcess(answers: seq<Answer>, a: Answer) {
    match a
    case Thrown => true
    case Whole(file, _) => file.content == [] || LastFirst(answers) > 0
    case Ranged(file, first, last) =>
      var n := Ranges.Length(first, last);
      n == 0 || first + n > |file.content|
    case _ => false
  }

  lemma EndsIs(rs: Response, answers: seq<Answer>, a: Answer)
    requires !a.Thrown? && rs.offset == LastFirst(answers)
    ensures EndsProcess(answers, a) <==> !BodyFits(Serve(rs, a))
  {
    hide LastFirst, Ranges.Length, Responses.ResponseBytes, Responses.Bytes200, Responses.Bytes206;
  }

  /**
   Exactly which answers end the process, connections and all, when the kernel keeps taking bytes: the callback throws,
   or sending comes to a write of no bytes and fails its assertion.
   */
  lemma RequestEndsProcess(c: Conn, data: seq<byte>, w: World, rs: seq<Reply>)
    requires Inv(c) && c.rd.armed && 0 < |data| <= c.rd.n && AnswerTo(c, data, w).Some? && Taking(rs)
    requires var a := AnswerTo(c, data, w).value; a.Thrown? || |rs| > |Expected(Serve(c.rs, a))|
    ensures var (d, s) := ReadOnce(c, data, w);
            s.Abort? || WriteRun(d, rs).1.Abort? <==> EndsProcess(c.sock.answers, AnswerTo(c, data, w).value)
  {
    hide Serve, Expected, Progress, Armed, BodyFits, Flat, Decide, WriteRun, CallsSoFar, LastFirst, Inv, EndsProcess,
         I.PhrParseRequest, Remaining;
    InvSizes(c);
    AnswerIs(c, data, w);
    ReadStep(c, data, w);
    var a, d := AnswerTo(c, data, w).value, ReadOnce(c, data, w).0;
    if a.Thrown? {
      ThrownEnds(c.sock.answers);
    } else {
      ResponseNotEmpty(c.rs, a);
      assert d.rs == Serve(c.rs, a);
      InvArmed(d);
      EndsIs(c.rs, c.sock.answers, a);
      RemainingExpected(d);
      if BodyFits(d.rs) {
        WriteCompletes(d, rs);
      } else {
        WriteAborts(d, rs);
      }
    }
  }

  lemma ThrownEnds(answers: seq<Answer>)
    ensures EndsProcess(answers, Thrown)
  {
  }

  lemma RemainingExpected(d: Conn)
    requires d.wr == AsyncWrite(d.rs, HeaderWritten) && Armed(d.wr, d.rs)
    ensures Remaining(d.wr, d.rs) == |Expected(d.rs)|
  {
  }

  /** A range of a file of less than 2 GiB ends the process exactly when it starts at the end of the file or behind. */
  lemma RangeEndsProcess(c: Conn, data: seq<byte>, w: World)
    requires Inv(c) && c.rd.armed && 0 < |data| <= c.rd.n && AnswerTo(c, data, w).Some?
    requires var a := AnswerTo(c, data, w).value; a.Ranged? && 0 < |a.file.content| <= INT_MAX
    ensures var a := AnswerTo(c, data, w).value;
            EndsProcess(c.sock.answers, a) <==> a.first >= |a.file.content|
  {
    hide Inv, Decide, Ranges.HandleRange, Serve, I.PhrParseRequest, BodyFits, EndsProcess, LastFirst, RangeRight;
    InvSizes(c);
    AnswerIs(c, data, w);
    var a := AnswerTo(c, data, w).value;
    var value := DecidedRange(w, Received(c, data).rq.buf,
                              I.PhrParseRequest(c.sock.received + data, c.rq.numHeaders, c.rq.counter));
    SmallFileRange(c.rs, a.file, value);
    Ranges.LastInFile(value, |a.file.content|);
    EndsIs(c.rs, c.sock.answers, a);
  }

  /** A range in an answer comes from the value of an entry of the request named Range. */
  lemma DecidedRange(w: World, buf: seq<byte>, p: Parse<RequestLine>) returns (value: seq<byte>)
    requires Within(p, |buf|) && Decide(w, buf, p).Some? && Decide(w, buf, p).value.Ranged?
    ensures var a := Decide(w, buf, p).value;
            && Ranges.HandleRange(value, |a.file.content|) == Ranges.Partial(a.first, a.last)
            && exists k :: 0 <= k < |p.headers| && NameText(buf, p.headers[k]) == RANGE
                           && Scanner.Text(buf, p.headers[k].value) == value
  {
    hide Ranges.HandleRange, Locate, FieldsAnswer, FieldAnswer, NameText;
    var found := Locate(w, Text(buf, p.end.value.path)).value;
    FirstDecides(w, buf, p.headers, found);
    var a := Decide(w, buf, p).value;
    var k :| 0 <= k < |p.headers| && FieldAnswer(w, buf, p.headers[k], found.file) == Some(a);
    FieldRange(w, buf, p.headers[k], found.file);
    value := Text(buf, p.headers[k].value);
  }

  lemma FieldRange(w: World, buf: seq<byte>, h: Header, file: File)
    requires HeaderIn(h, |buf|) && FieldAnswer(w, buf, h, file).Some? && FieldAnswer(w, buf, h, file).value.Ranged?
    ensures var a := FieldAnswer(w, buf, h, file).value;
            && NameText(buf, h) == RANGE && a.file == file
            && Ranges.HandleRange(Text(buf, h.value), |file.content|) == Ranges.Partial(a.first, a.last)
  {
    hide Ranges.HandleRange, NameText;
  }
}
