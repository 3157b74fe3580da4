/**
 What becomes of a connection under a schedule of the kernel, said in terms of the schedule alone: pieces that are read,
 pauses, faults and the ends of runs.
 */
module Schedules {
  import opened Bytes
  import opened Message
  import opened Pipeline
  import opened Requests
  import opened ConnectionRuns
  import I = Incremental
  import Responses

  predicate Stopped(s: Status) {
    s.Error? || s.Abort?
  }

  // ---------- Runs in parts ----------

  lemma {:induction false} RunConcat(c: Conn, a: seq<Event>, b: seq<Event>)
    requires Inv(c)
    ensures var (d, s) := Run(c, a); Inv(d) && Run(c, a + b) == if Stopped(s) then (d, s) else Run(d, b)
    decreases |a|
  {
    hide Inv, StepEvent;
    RunInv(c, a);
    if a == [] {
      assert a + b == b;
    } else {
      assert (a + b)[1..] == a[1..] + b;
      FirstStep(c, a[0]);
      var (d, s) := StepEvent(c, a[0]);
      if !Stopped(s) {
        RunConcat(d, a[1..], b);
      }
    }
  }

  lemma FirstStep(c: Conn, e: Event)
    requires Inv(c)
    ensures c.rd.armed ==> c.rd.pos + c.rd.n <= |c.rq.buf| && c.rq.counter + c.rd.n <= |c.rq.buf|
    ensures Inv(StepEvent(c, e).0)
  {
    hide StepEvent, CallsSoFar;
    StepInv(c, e);
  }

  lemma RunOne(c: Conn, e: Event)
    requires Inv(c)
    ensures var (d, s) := Run(c, [e]);
            && (c.rd.armed ==> c.rd.pos + c.rd.n <= |c.rq.buf| && c.rq.counter + c.rd.n <= |c.rq.buf|)
            && d == StepEvent(c, e).0 && (Stopped(s) <==> Stopped(StepEvent(c, e).1))
            && (Stopped(s) ==> s == StepEvent(c, e).1) && (!Stopped(s) ==> s == Continue)
  {
    hide Inv, StepEvent;
    FirstStep(c, e);
    assert [e][1..] == [];
  }

  // ---------- Pieces of a request ----------

  /** Bytes of one read, and what the file system is then. */
  datatype Piece = Piece(data: seq<byte>, w: World)

  function Front(ps: seq<Piece>): seq<Piece>
    requires ps != []
  {
    ps[..|ps| - 1]
  }

  function End(ps: seq<Piece>): Piece
    requires ps != []
  {
    ps[|ps| - 1]
  }

  function Joined(ps: seq<Piece>): seq<byte> {
    if ps == [] then [] else Joined(Front(ps)) + End(ps).data
  }

  function Lengths(ps: seq<Piece>): (r: seq<nat>)
    ensures |r| == |ps|
  {
    if ps == [] then [] else Lengths(Front(ps)) + [|Joined(ps)|]
  }

  function Reads(ps: seq<Piece>): seq<Event> {
    if ps == [] then [] else Reads(Front(ps)) + [Readable(End(ps).data, End(ps).w)]
  }

  lemma {:induction false} PiecesGrow(ps: seq<Piece>)
    requires ps != [] && forall k | 0 <= k < |ps| :: ps[k].data != []
    ensures I.Growing(Joined(ps), Lengths(ps)) && Lengths(ps)[|ps| - 1] == |Joined(ps)|
    decreases |ps|
  {
    hide I.Growing;
    var front := Front(ps);
    if front != [] {
      PiecesGrow(front);
    }
    GrowingSnoc(Joined(front), End(ps).data, Lengths(front));
    assert |Joined(ps)| == |Joined(front)| + |End(ps).data|;
  }

  /** The parser wants more after every piece, when it is called as `read_callback_http` calls it. */
  ghost predicate Waiting(ps: seq<Piece>) {
    && (forall k | 0 <= k < |ps| :: ps[k].data != [])
    && forall k | 0 <= k < |ps| :: WaitsAt(ps, k)
  }

  ghost predicate WaitsAt(ps: seq<Piece>, k: nat)
    requires k < |ps| && forall k | 0 <= k < |ps| :: ps[k].data != []
  {
    PiecesGrow(ps);
    I.CarriedCall(Joined(ps), Lengths(ps), k).end.More?
  }

  lemma WaitingFront(ps: seq<Piece>)
    requires ps != [] && Waiting(ps)
    ensures Waiting(Front(ps))
  {
    hide I.CarriedCall, I.Growing, Joined, Lengths;
    var front := Front(ps);
    if front != [] {
      PiecesGrow(ps);
      PiecesGrow(front);
      FrontOf(ps);
      forall k | 0 <= k < |front| ensures WaitsAt(front, k) {
        assert WaitsAt(ps, k);
        CarriedExtends(Joined(front), Joined(ps), Lengths(front), Lengths(ps), k);
      }
    }
  }

  lemma FrontOf(ps: seq<Piece>)
    requires ps != []
    ensures Joined(Front(ps)) <= Joined(ps) && Lengths(Front(ps)) <= Lengths(ps)
    ensures Joined(ps) == Joined(Front(ps)) + End(ps).data
    ensures Lengths(ps) == Lengths(Front(ps)) + [|Joined(ps)|]
    ensures Reads(ps) == Reads(Front(ps)) + [Readable(End(ps).data, End(ps).w)]
  {
  }

  /** From `c`, which waited for a request, everything in `u` has been read and kept and nothing else has happened. */
  ghost predicate Kept(c: Conn, d: Conn, u: seq<byte>) {
    && |u| < 2048 == |d.rq.buf|
    && d.rq.buf[..|u|] == u && d.rq.counter == |u| && !d.rq.finalized
    && d.rd == ReadOp(true, |u|, 2048 - |u|)
    && d.wr == c.wr && d.rs == c.rs
    && d.sock.wire == c.sock.wire && d.sock.log == c.sock.log && d.sock.answers == c.sock.answers
    && d.sock.finished == c.sock.finished
  }

  /** A full buffer without an answer: the connection starts over. */
  ghost predicate Restarted(c: Conn, d: Conn) {
    && d.rd == ReadOp(true, 0, 2048) && |d.rq.buf| == 2048
    && d.rq.counter == 0 && d.rq.numHeaders == 30 && !d.rq.finalized
    && d.wr == c.wr && d.rs == c.rs
    && d.sock.wire == c.sock.wire && d.sock.log == c.sock.log && d.sock.answers == c.sock.answers
    && d.sock.finished == c.sock.finished + 1
  }

  /** One more piece that leaves the parser wanting more. */
  lemma KeepStep(c: Conn, d: Conn, ps: seq<Piece>)
    requires ps != [] && Waiting(ps) && |Joined(ps)| <= 2048
    requires Inv(d) && Kept(c, d, Joined(Front(ps)))
    requires d.sock.received == Joined(Front(ps)) && d.sock.lens == Lengths(Front(ps))
    ensures |End(ps).data| <= d.rd.n
    ensures d.rd.pos + d.rd.n <= |d.rq.buf| && d.rq.counter + d.rd.n <= |d.rq.buf|
    ensures var (e, s) := ReadOnce(d, End(ps).data, End(ps).w);
            && s.Continue?
            && (if |Joined(ps)| < 2048 then
                  Kept(c, e, Joined(ps)) && e.sock.received == Joined(ps) && e.sock.lens == Lengths(ps)
                else Restarted(c, e))
  {
    hide I.CarriedCall, I.Growing, I.PhrParseRequest, Decide, Armed, Flat, LastFirst, Joined, Lengths;
    var data, w := End(ps).data, End(ps).w;
    FrontOf(ps);
    PiecesGrow(ps);
    assert WaitsAt(ps, |ps| - 1);
    var v := Received(d, data);
    AnswerIs(d, data, w);
    var p := ParseCall(v.rq, |data|);
    assert v.rq.buf[..|Joined(ps)|] == Joined(ps);
    NoBytesYet(d);
    CallStep(d.rq, d.sock, data, p, v.rq.(counter := |Joined(ps)|, numHeaders := |p.headers|),
             v.sock.(lens := Lengths(ps)));
  }

  /**
   From any state that waits for a request, pieces that each leave the parser wanting more and together have fewer than
   2048 bytes are all kept: the buffer holds their concatenation, the armed read goes right behind it, and nothing has
   been answered, written or finished.
   */
  lemma {:induction false} PiecesKept(c: Conn, ps: seq<Piece>)
    requires Inv(c) && Idle(c) && Waiting(ps) && |Joined(ps)| < 2048
    ensures var (d, s) := Run(c, Reads(ps));
            && s.Continue? && Inv(d) && Kept(c, d, Joined(ps))
            && d.sock.received == Joined(ps) && d.sock.lens == Lengths(ps)
    decreases |ps|
  {
    hide Inv, Waiting, Kept, Joined, Lengths, Reads, ReadOnce;
    if ps == [] {
      NoPieces(c);
    } else {
      WaitingFront(ps);
      FrontOf(ps);
      PiecesKept(c, Front(ps));
      LastPiece(c, ps);
    }
  }

  lemma NoPieces(c: Conn)
    requires Inv(c) && Idle(c)
    ensures Run(c, Reads([])) == (c, Continue) && Kept(c, c, Joined([]))
    ensures c.sock.received == Joined([]) && c.sock.lens == Lengths([])
  {
    assert c.rq.buf[..0] == [];
  }

  lemma LastPiece(c: Conn, ps: seq<Piece>)
    requires ps != [] && Waiting(ps) && |Joined(ps)| <= 2048 && Inv(c)
    requires var (d, s) := Run(c, Reads(Front(ps)));
             && s.Continue? && Inv(d) && Kept(c, d, Joined(Front(ps)))
             && d.sock.received == Joined(Front(ps)) && d.sock.lens == Lengths(Front(ps))
    ensures var (e, s) := Run(c, Reads(ps));
            && s.Continue? && Inv(e)
            && (if |Joined(ps)| < 2048 then
                  Kept(c, e, Joined(ps)) && e.sock.received == Joined(ps) && e.sock.lens == Lengths(ps)
                else Restarted(c, e))
  {
    hide Inv, Run, Joined, Lengths, Reads, ReadOnce, Restarted, I.Growing;
    FrontOf(ps);
    var d := Run(c, Reads(Front(ps))).0;
    var e := Readable(End(ps).data, End(ps).w);
    RunConcat(c, Reads(Front(ps)), [e]);
    RunOne(d, e);
    RunInv(c, Reads(ps));
    KeepStep(c, d, ps);
    PieceWhole(End(ps).data, d.rd.n);
  }

  lemma PieceWhole(data: seq<byte>, n: nat)
    requires |data| <= n
    ensures data[..Min(|data|, n)] == data
  {
  }

  /**
   When they fill the buffer exactly the connection starts over. As no read goes beyond the buffer, these two are all
   that pieces without an answer come to.
   */
  lemma FullBufferRestarts(c: Conn, ps: seq<Piece>)
    requires Inv(c) && Idle(c) && Waiting(ps) && |Joined(ps)| == 2048
    ensures var (d, s) := Run(c, Reads(ps)); s.Continue? && Inv(d) && Restarted(c, d)
  {
    hide Inv, Waiting, Kept, Restarted, Idle, Reads, Run;
    WaitingFront(ps);
    assert |End(ps).data| > 0 by {
      LastNotEmpty(ps);
    }
    PiecesKept(c, Front(ps));
    LastPiece(c, ps);
  }

  lemma LastNotEmpty(ps: seq<Piece>)
    requires ps != [] && Waiting(ps)
    ensures End(ps).data != []
  {
    hide WaitsAt;
  }

  lemma StartIdle(buf: seq<byte>)
    requires |buf| == MAX_BUFFER_SIZE
    ensures |buf| == 2048 && Inv(Start(buf)) && Idle(Start(buf))
  {
    StartInv(buf);
  }

  /** The answer has been given and its header is about to be written. */
  ghost predicate Answering(c: Conn, e: Conn, a: Answer)
    requires !a.Thrown?
  {
    && e.rs == Serve(c.rs, a) && e.wr == AsyncWrite(e.rs, HeaderWritten) && !e.rd.armed
    && e.sock.answers == c.sock.answers + [a] && e.sock.log == c.sock.log + [Expected(e.rs)]
    && e.sock.wire == c.sock.wire && e.sock.finished == c.sock.finished
  }

  /** One more piece that brings an answer. */
  lemma AnswerStep(c: Conn, d: Conn, u: seq<byte>, data: seq<byte>, w: World)
    requires Inv(d) && Kept(c, d, u) && data != [] && |u| + |data| <= 2048
    ensures |data| <= d.rd.n && d.rd.pos + d.rd.n <= |d.rq.buf| && d.rq.counter + d.rd.n <= |d.rq.buf|
    ensures var a := AnswerTo(d, data, w);
            a.Some? && !a.value.Thrown? ==>
              ReadOnce(d, data, w).1.Continue? && Answering(c, ReadOnce(d, data, w).0, a.value)
    ensures IsThrown(AnswerTo(d, data, w)) ==> ReadOnce(d, data, w).1.Abort?
  {
    hide I.PhrParseRequest, Decide, Armed, Flat, LastFirst, CallsSoFar, Serve, Expected;
  }

  /**
   A request that comes in pieces after a state that waited for one, all but the last leaving the parser wanting more.
   If one call would accept it, it is answered as if it had come at once when it came in one piece, or when it has no
   more header entries than header lines were complete in the first of two pieces, or none if there are more; otherwise
   it is answered as a bad request. The answer goes out next.
   */
  lemma SplitRequestAnswered(c: Conn, ps: seq<Piece>, data: seq<byte>, w: World)
    requires Inv(c) && Idle(c) && Waiting(ps) && data != [] && |Joined(ps)| + |data| <= 2048
    requires ParseRequest(Joined(ps) + data, 30).end.Done?
    ensures var one := ParseRequest(Joined(ps) + data, 30); var (d, _) := Run(c, Reads(ps));
            var held := if |ps| == 1 then |ParseRequest(Joined(ps), 30).headers| else 0;
            && Inv(d) && |data| <= d.rd.n
            && d.rd.pos + |data| <= |d.rq.buf| && d.rq.counter + |data| <= |d.rq.buf|
            && var buf := Received(d, data).rq.buf;
            && buf[..|Joined(ps) + data|] == Joined(ps) + data && Within(one, |buf|)
            && var a := if ps == [] || |one.headers| <= held then Decide(w, buf, one) else Some(Malformed);
            && a.Some?
            && var (e, s) := Run(c, Reads(ps) + [Readable(data, w)]);
            if a.value.Thrown? then s.Abort? else s.Continue? && Answering(c, e, a.value)
  {
    hide Inv, Run, Idle, Kept, Waiting, Decide, ParseRequest, Reads, Joined, ReadOnce, Answering, I.PhrParseRequest,
         Received;
    PiecesKept(c, ps);
    var d := Run(c, Reads(ps)).0;
    AnswerStep(c, d, Joined(ps), data, w);
    KeptReads(c, d, Joined(ps));
    var buf := Received(d, data).rq.buf;
    AnswerIs(d, data, w);
    OneWithin(Joined(ps) + data, |buf|);
    DecideSome(w, buf, ParseRequest(Joined(ps) + data, 30));
    assert |d.sock.lens| == |ps| && 30 == I.MAX_HEADERS;
    if ps == [] {
      assert Lengths(ps) == [];
      FirstCall(d, data, w);
    } else {
      SplitRequestRefused(d, data, w);
    }
    RunConcat(c, Reads(ps), [Readable(data, w)]);
    RunOne(d, Readable(data, w));
    PieceWhole(data, d.rd.n);
  }

  lemma KeptReads(c: Conn, d: Conn, u: seq<byte>)
    requires Kept(c, d, u)
    ensures d.rd.armed && d.rd.pos + d.rd.n == |d.rq.buf| == 2048 && d.rq.counter == d.rd.pos == |u|
    ensures d.rd.n == 2048 - |u|
  {
  }

  /** The first call of the parser has the whole capacity and no guard. */
  lemma FirstCall(d: Conn, data: seq<byte>, w: World)
    requires Inv(d) && d.rd.armed && 0 < |data| <= d.rd.n && d.sock.lens == []
    ensures d.sock.received == []
    ensures I.PhrParseRequest(d.sock.received + data, d.rq.numHeaders, d.rq.counter)
         == ParseRequest(d.sock.received + data, 30)
  {
    hide ParseRequest, Armed, Flat, LastFirst;
    NoBytesYet(d);
  }

  // ---------- Pauses ----------

  /** When the kernel is not ready to take bytes nothing changes, wherever in a run it says so. */
  lemma AgainChangesNothing(c: Conn, a: seq<Event>, b: seq<Event>)
    requires Inv(c)
    ensures Run(c, a + [Writable(Again)] + b) == Run(c, a + b)
  {
    hide Inv, Run;
    RunConcat(c, a, [Writable(Again)] + b);
    RunConcat(c, a, b);
    assert a + [Writable(Again)] + b == a + ([Writable(Again)] + b);
    var (d, s) := Run(c, a);
    if !Stopped(s) {
      RunConcat(d, [Writable(Again)], b);
      RunOne(d, Writable(Again));
    }
  }

  /** While a response is being written nothing is read. */
  lemma ReadsIgnored(c: Conn, a: seq<Event>, data: seq<byte>, w: World, b: seq<Event>)
    requires Inv(c) && !Stopped(Run(c, a).1) && !Run(c, a).0.rd.armed
    ensures Run(c, a + [Readable(data, w)] + b) == Run(c, a + b)
  {
    hide Inv, Run;
    RunConcat(c, a, [Readable(data, w)] + b);
    RunConcat(c, a, b);
    assert a + [Readable(data, w)] + b == a + ([Readable(data, w)] + b);
    var d := Run(c, a).0;
    RunConcat(d, [Readable(data, w)], b);
    RunOne(d, Readable(data, w));
  }

  /** Writable events at which the kernel takes something or is not ready. */
  predicate Patient(es: seq<Event>) {
    forall k | 0 <= k < |es| :: es[k].Writable? && (es[k].r.Again? || (es[k].r.Sent? && es[k].r.count > 0))
  }

  /** How often it takes something. */
  function Takes(es: seq<Event>): nat {
    if es == [] then 0 else (if es[0].Writable? && es[0].r.Sent? then 1 else 0) + Takes(es[1..])
  }

  lemma {:induction false} NothingToWrite(c: Conn, es: seq<Event>)
    requires Inv(c) && c.wr.callback.NoWrite? && Patient(es)
    ensures Run(c, es) == (c, Continue)
    decreases |es|
  {
    hide Inv;
    if es != [] {
      FirstStep(c, es[0]);
      NothingToWrite(c, es[1..]);
    }
  }

  lemma {:induction false} PatientSends(base: seq<byte>, c: Conn, d: Conn, es: seq<Event>)
    requires Inv(d) && Sending(base, c, d) && !d.wr.callback.NoWrite? && BodyFits(d.rs) && Patient(es)
    requires Takes(es) >= Pending(d.wr, d.rs)
    ensures var (e, s) := Run(d, es); s.Continue? && Sending(base, c, e) && e.wr.callback.NoWrite?
    decreases |es|
  {
    hide Inv, Sending, WriteOnce, BodyFits, Pending, Armed, Offered;
    InvArmed(d);
    PendingPositive(d.wr, d.rs);
    assert es != [];
    var r := es[0].r;
    FirstStep(d, es[0]);
    assert StepEvent(d, es[0]) == WriteOnce(d, r);
    if r.Again? {
      AgainStays(d);
      PatientSends(base, c, d, es[1..]);
    } else {
      PendingStep(d, r);
      OfferedPositive(d);
      SendStep(base, c, d, r);
      var e := WriteOnce(d, r).0;
      if e.wr.callback.NoWrite? {
        NothingToWrite(e, es[1..]);
      } else {
        PatientSends(base, c, e, es[1..]);
      }
    }
  }

  lemma AgainStays(d: Conn)
    ensures WriteOnce(d, Again) == (d, Wait)
  {
  }

  /**
   A response that fits is finished, once and with all of it out, by every schedule in which the kernel takes something
   as often as there are bytes to go, however often it is not ready in between. The connection then waits for the next
   request.
   */
  lemma FinishedPatiently(c: Conn, es: seq<Event>)
    requires Inv(c) && !c.wr.callback.NoWrite? && Armed(c.wr, c.rs) && BodyFits(c.rs) && Patient(es)
    requires Takes(es) >= Pending(c.wr, c.rs)
    ensures var (d, s) := Run(c, es);
            && s.Continue? && Idle(d) && d.sock.wire == Flat(c.sock.log) && d.sock.finished == c.sock.finished + 1
  {
    hide Run, BodyFits, Pending, Armed, Flat, Idle, Progress, Expected, LastFirst;
    var base := Flat(c.sock.log[..|c.sock.log| - 1]);
    LogSplit(c.sock.log);
    assert Sending(base, c, c);
    PatientSends(base, c, c, es);
  }

  lemma LogSplit(log: seq<seq<byte>>)
    requires log != []
    ensures Flat(log) == Flat(log[..|log| - 1]) + log[|log| - 1]
  {
  }

  // ---------- The ends of runs ----------

  /** The kernel reports a fault on a write that is armed, or the end of the input to a read that is. */
  predicate Fails(d: Conn, e: Event) {
    match e
    case Writable(r) => r.Fault? && !d.wr.callback.NoWrite?
    case Readable(data, _) => data == [] && d.rd.armed
  }

  /** A write of nothing, or an exception. */
  predicate Breaks(d: Conn, e: Event)
    requires d.rd.armed ==> d.rd.pos + d.rd.n <= |d.rq.buf| && d.rq.counter + d.rd.n <= |d.rq.buf|
  {
    match e
    case Writable(r) => r.Sent? && !d.wr.callback.NoWrite? && (r.count == 0 || Offered(d.wr, d.rs) == 0)
    case Readable(data, w) => d.rd.armed && data != [] && IsThrown(AnswerTo(d, data[..Min(|data|, d.rd.n)], w))
  }

  lemma StepStops(d: Conn, e: Event)
    requires Inv(d)
    ensures d.rd.armed ==> d.rd.pos + d.rd.n <= |d.rq.buf| && d.rq.counter + d.rd.n <= |d.rq.buf|
    ensures StepEvent(d, e).1.Error? <==> Fails(d, e)
    ensures StepEvent(d, e).1.Abort? <==> Breaks(d, e)
    ensures Stopped(StepEvent(d, e).1) ==> StepEvent(d, e).0 == d
  {
    hide Inv, ReadCallback, Verdict, Advance, Written;
    FirstStep(d, e);
  }

  /** A run has come to event `k` and that ends it, in the state it was in. */
  ghost predicate EndsAt(c: Conn, es: seq<Event>, k: nat, s: Status)
    requires Inv(c) && k < |es|
  {
    RunInv(c, es[..k]);
    var (d, t) := Run(c, es[..k]);
    FirstStep(d, es[k]);
    && t.Continue? && Run(c, es) == (d, s)
    && (if s.Error? then Fails(d, es[k]) else s.Abort? && Breaks(d, es[k]))
  }

  /**
   A run ends in an error exactly at a fault on an armed write or at the end of the input of an armed read, in the
   failed assertion or an uncaught exception exactly at a write of nothing or such an answer; otherwise it goes on.
   */
  lemma {:induction false} RunEnds(c: Conn, es: seq<Event>)
    requires Inv(c)
    ensures var s := Run(c, es).1;
            && (s.Continue? || Stopped(s))
            && (Stopped(s) ==> exists k | 0 <= k < |es| :: EndsAt(c, es, k, s))
    decreases |es|
  {
    hide Inv, StepEvent, Fails, Breaks;
    if es != [] {
      StepStops(c, es[0]);
      FirstStep(c, es[0]);
      assert Run(c, es[..0]) == (c, Continue) by {
        assert es[..0] == [];
      }
      var (d, s) := StepEvent(c, es[0]);
      if Stopped(s) {
        assert EndsAt(c, es, 0, s);
      } else {
        RunEnds(d, es[1..]);
        var t := Run(d, es[1..]).1;
        if Stopped(t) {
          var k :| 0 <= k < |es| - 1 && EndsAt(d, es[1..], k, t);
          FrontStep(c, es, k);
          assert EndsAt(c, es, k + 1, t);
        }
      }
    }
  }

  lemma FrontStep(c: Conn, es: seq<Event>, k: nat)
    requires Inv(c) && k < |es| - 1
    requires c.rd.armed ==> c.rd.pos + c.rd.n <= |c.rq.buf| && c.rq.counter + c.rd.n <= |c.rq.buf|
    requires Inv(StepEvent(c, es[0]).0) && !Stopped(StepEvent(c, es[0]).1)
    ensures Run(c, es[..k + 1]) == Run(StepEvent(c, es[0]).0, es[1..][..k])
    ensures es[k + 1] == es[1..][k]
  {
    hide Inv, StepEvent;
    assert es[..k + 1][0] == es[0] && es[..k + 1][1..] == es[1..][..k];
  }

  /** And it does end there: nothing after such an event is looked at. */
  lemma StopsThere(c: Conn, es: seq<Event>, k: nat)
    requires Inv(c) && k < |es| && Run(c, es[..k]).1.Continue?
    ensures var d := Run(c, es[..k]).0;
            && Inv(d)
            && (d.rd.armed ==> d.rd.pos + d.rd.n <= |d.rq.buf| && d.rq.counter + d.rd.n <= |d.rq.buf|)
            && (Fails(d, es[k]) ==> Run(c, es) == (d, Error))
            && (Breaks(d, es[k]) ==> Run(c, es) == (d, Abort))
  {
    hide Inv, Run, StepEvent, Fails, Breaks;
    var d := Run(c, es[..k]).0;
    RunConcat(c, es[..k], es[k..]);
    assert es == es[..k] + es[k..] && es[k..] == [es[k]] + es[k + 1..];
    StepStops(d, es[k]);
    RunOne(d, es[k]);
    RunConcat(d, [es[k]], es[k + 1..]);
  }

  // ---------- The loops of one epoll event are runs ----------

  function Writes(rs: seq<Reply>): seq<Event> {
    if rs == [] then [] else [Writable(rs[0])] + Writes(rs[1..])
  }

  /**
   `write_loop` does what the run over its answers does, up to the first at which the kernel is not ready; it says how
   it ended: with an error, the failed assertion, a pause, or nothing left to write.
   */
  lemma {:induction false} WriteLoopIsRun(c: Conn, rs: seq<Reply>)
    requires Inv(c)
    ensures var (d, s) := WriteRun(c, rs);
            && (Stopped(s) ==> Run(c, Writes(rs)) == (d, s))
            && (s.Continue? ==> d.wr.callback.NoWrite? && Run(c, Writes(rs)) == (d, Continue))
            && (s.Wait? ==> !d.wr.callback.NoWrite?)
            && (s.Wait? && Again !in rs ==> Run(c, Writes(rs)) == (d, Continue))
            && (s.Wait? && Again in rs ==>
                  exists k | 0 <= k < |rs| :: rs[k].Again? && Run(c, Writes(rs[..k])) == (d, Continue))
    decreases |rs|
  {
    hide Inv, WriteOnce;
    if c.wr.callback.NoWrite? {
      NoWrites(c, rs);
    } else if rs != [] {
      var e := Writable(rs[0]);
      FirstStep(c, e);
      assert StepEvent(c, e) == WriteOnce(c, rs[0]);
      assert Writes(rs)[1..] == Writes(rs[1..]);
      OnceWaits(c, rs[0]);
      var (d, s) := WriteOnce(c, rs[0]);
      if s.Continue? {
        WriteLoopIsRun(d, rs[1..]);
        WritesLater(c, rs, d);
      } else if s.Wait? {
        assert rs[..0] == [];
        assert rs[0].Again? && Run(c, Writes(rs[..0])) == (d, Continue);
      }
    }
  }

  lemma OnceWaits(c: Conn, r: Reply)
    ensures WriteOnce(c, r).1.Wait? <==> r.Again?
    ensures r.Again? ==> WriteOnce(c, r).0 == c
    ensures WriteOnce(c, r).1.Error? <==> r.Fault?
  {
  }

  lemma {:induction false} NoWrites(c: Conn, rs: seq<Reply>)
    requires Inv(c) && c.wr.callback.NoWrite?
    ensures Run(c, Writes(rs)) == (c, Continue)
    decreases |rs|
  {
    hide Inv;
    if rs != [] {
      FirstStep(c, Writable(rs[0]));
      assert Writes(rs)[1..] == Writes(rs[1..]);
      NoWrites(c, rs[1..]);
    }
  }

  lemma WritesLater(c: Conn, rs: seq<Reply>, d: Conn)
    requires Inv(c) && rs != [] && !c.wr.callback.NoWrite? && WriteOnce(c, rs[0]) == (d, Continue) && Inv(d)
    ensures forall k | 0 <= k < |rs| - 1 :: Run(c, Writes(rs[..k + 1])) == Run(d, Writes(rs[1..][..k]))
    ensures forall k | 0 <= k < |rs| - 1 :: rs[1..][k] == rs[k + 1]
  {
    hide Inv, WriteOnce;
    FirstStep(c, Writable(rs[0]));
    forall k | 0 <= k < |rs| - 1 ensures Run(c, Writes(rs[..k + 1])) == Run(d, Writes(rs[1..][..k])) {
      assert rs[..k + 1][1..] == rs[1..][..k] && rs[..k + 1][0] == rs[0];
      assert Writes(rs[..k + 1])[1..] == Writes(rs[1..][..k]);
    }
  }

  /** `read_loop` does what the run over what it reads does. */
  lemma {:induction false} ReadLoopIsRun(c: Conn, ins: seq<(seq<byte>, World)>)
    requires Inv(c)
    ensures var (d, s) := ReadRun(c, ins);
            && (Stopped(s) || s.Continue?)
            && (Stopped(s) || d.rd.armed ==> Run(c, ReadEvents(ins)) == (d, s))
            && (!Stopped(s) && !d.rd.armed ==> exists k | 0 <= k <= |ins| :: Run(c, ReadEvents(ins[..k])) == (d, s))
    decreases |ins|
  {
    hide Inv, ReadOnce;
    if !c.rd.armed {
      assert ins[..0] == [];
      assert Run(c, ReadEvents(ins[..0])) == (c, Continue);
    } else if ins != [] {
      var e := Readable(ins[0].0, ins[0].1);
      FirstStep(c, e);
      StepStops(c, e);
      assert ReadEvents(ins)[1..] == ReadEvents(ins[1..]);
      if ins[0].0 != [] {
        var data := ins[0].0[..Min(|ins[0].0|, c.rd.n)];
        assert StepEvent(c, e) == ReadOnce(c, data, ins[0].1);
        OnceContinues(c, data, ins[0].1);
        var (d, s) := ReadOnce(c, data, ins[0].1);
        if !s.Abort? {
          ReadLoopIsRun(d, ins[1..]);
          EventsLater(c, ins, d);
        }
      }
    }
  }

  function ReadEvents(ins: seq<(seq<byte>, World)>): seq<Event> {
    if ins == [] then [] else [Readable(ins[0].0, ins[0].1)] + ReadEvents(ins[1..])
  }

  lemma OnceContinues(c: Conn, data: seq<byte>, w: World)
    requires c.rd.pos + |data| <= |c.rq.buf| && c.rq.counter + |data| <= |c.rq.buf|
    ensures ReadOnce(c, data, w).1.Continue? || ReadOnce(c, data, w).1.Abort?
  {
    hide ReadCallback, Verdict;
  }

  lemma EventsLater(c: Conn, ins: seq<(seq<byte>, World)>, d: Conn)
    requires Inv(c) && ins != [] && Inv(d)
    requires c.rd.armed ==> c.rd.pos + c.rd.n <= |c.rq.buf| && c.rq.counter + c.rd.n <= |c.rq.buf|
    requires StepEvent(c, Readable(ins[0].0, ins[0].1)) == (d, Continue)
    ensures forall k | 0 <= k <= |ins| - 1 ::
              Run(c, ReadEvents(ins[..k + 1])) == Run(d, ReadEvents(ins[1..][..k]))
  {
    hide Inv, StepEvent;
    FirstStep(c, Readable(ins[0].0, ins[0].1));
    forall k | 0 <= k <= |ins| - 1
      ensures Run(c, ReadEvents(ins[..k + 1])) == Run(d, ReadEvents(ins[1..][..k]))
    {
      assert ins[..k + 1][1..] == ins[1..][..k] && ins[..k + 1][0] == ins[0];
      assert ReadEvents(ins[..k + 1])[1..] == ReadEvents(ins[1..][..k]);
    }
  }
}
