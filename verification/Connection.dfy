/**
 The loops of yta_event_loop.c and the callbacks of yotta.cpp as methods that update one connection in place, each
 proved to do what the functions of Pipeline say.
 */
module Connections {
  import opened Bytes
  import opened Message
  import opened Pipeline
  import opened Ranges
  import opened Requests
  import Scanner
  import F = FastNames
  import I = Incremental
  import Parser
  import Responses
  import R = ConnectionRuns
  import U = UrlResolution

  class Connection {
    // yta_ctx
    var readArmed: bool
    var readPos: nat
    var toRead: nat
    var writeCallback: WriteCallback
    var wtype: WriteType
    var alreadyWritten: nat
    var toWrite: SizeT
    // user_data
    var counter: nat
    const buf: array<byte>
    const headers: array<Header>
    var numHeaders: nat
    var finalized: bool
    var response: Response
    // what the socket has seen
    ghost var sock: Socket

    ghost function View(): Conn
      reads this, buf
    {
      Conn(ReadOp(readArmed, readPos, toRead), WriteOp(writeCallback, wtype, alreadyWritten, toWrite),
           Request(counter, buf[..], numHeaders, finalized), response, sock)
    }

    /** The headers the parser reported fit the array. */
    ghost predicate Valid()
      reads this, buf
    {
      R.Inv(View()) && numHeaders <= headers.Length == I.MAX_HEADERS
    }

    /** `accept_callback_http`. */
    constructor ()
      ensures Valid() && fresh(buf) && fresh(headers) && View() == R.Start(buf[..])
    {
      buf := new byte[MAX_BUFFER_SIZE];
      headers := new Header[I.MAX_HEADERS](_ => Header(None, Scanner.Slice(0, 0)));
      writeCallback, wtype, alreadyWritten, toWrite := NoWrite, BasicWrite, 0, 0;
      response := Response([], false, [], 0, 0);
      counter, numHeaders, finalized := 0, I.MAX_HEADERS, false;
      readArmed, readPos, toRead := true, 0, MAX_BUFFER_SIZE;
      sock := Socket([], [], [], 0, [], []);
      new;
      R.StartInv(buf[..]);
    }

    /** `yta_async_read`. */
    method ArmRead(pos: nat, n: nat)
      modifies this
      ensures View() == old(View()).(rd := AsyncRead(pos, n))
    {
      readArmed, readPos, toRead := true, pos, n;
    }

    /** `yta_async_write` of the response buffer. */
    method ArmWrite(cb: WriteCallback)
      modifies this
      ensures View() == old(View()).(wr := AsyncWrite(old(response), cb))
    {
      wtype, writeCallback, toWrite, alreadyWritten := BasicWrite, cb, |response.text|, 0;
    }

    /** `yta_async_sendfile`. */
    method ArmSendfile(cb: WriteCallback, n: SizeT, offset: SizeT)
      modifies this
      ensures View() == old(View()).(wr := WriteOp(cb, SendfileWrite, offset, (n + offset) % SIZE_T))
    {
      wtype, writeCallback, toWrite, alreadyWritten := SendfileWrite, cb, (n + offset) % SIZE_T, offset;
    }

    /** `accept_logic`. */
    method Accept()
      modifies this
      ensures View() == AcceptLogic(old(View()))
    {
      numHeaders, counter, finalized := I.MAX_HEADERS, 0, false;
      sock := sock.(received := [], lens := []);
      ArmRead(0, MAX_BUFFER_SIZE);
    }

    /** `http_finish_callback`. */
    method Finish()
      modifies this
      ensures View() == FinishCallback(old(View()))
    {
      sock := sock.(finished := sock.finished + 1);
      Accept();
    }

    /** `write_header_callback`. */
    method AfterHeader()
      modifies this
      ensures View() == HeaderCallback(old(View()))
    {
      if response.content {
        ArmSendfile(HttpFinish, response.fileSize, response.offset);
      } else {
        Finish();
      }
    }

    // ---------- Answering a request ----------

    /** `a` has been answered: the response is set and the socket's record says so. */
    static ghost predicate Concluded(a: Answer, rs: Response, sock: Socket, rs': Response, sock': Socket)
      requires !a.Thrown?
    {
      rs' == Serve(rs, a) && sock' == sock.(answers := sock.answers + [a])
    }

    /** `return_400`. */
    method Return400(ghost a: Answer)
      requires a.Malformed? || (a.BadField? && response == WithFile(response, a.file))
      modifies `response, `finalized, `sock
      ensures finalized && Concluded(a, old(response), old(sock), response, sock)
    {
      hide Responses.Bytes200, Responses.Bytes206, Responses.Bytes304, Responses.Bytes400, Responses.Bytes404;
      ResponsesFit(NO_FILE, "", 0, 0, 0);
      response := WithoutBody(response, Responses.Bytes400());
      finalized := true;
      sock := sock.(answers := sock.answers + [a]);
    }

    /** `return_404`. */
    method Return404()
      modifies `response, `finalized, `sock
      ensures finalized && Concluded(NotFound, old(response), old(sock), response, sock)
    {
      hide Responses.Bytes200, Responses.Bytes206, Responses.Bytes304, Responses.Bytes400, Responses.Bytes404;
      ResponsesFit(NO_FILE, "", 0, 0, 0);
      response := WithoutBody(response, Responses.Bytes404());
      finalized := true;
      sock := sock.(answers := sock.answers + [NotFound]);
    }

    method Return304(ghost file: File)
      requires response == WithFile(response, file)
      modifies `response, `finalized, `sock
      ensures finalized && Concluded(NotModified(file), old(response), old(sock), response, sock)
    {
      hide Responses.Bytes200, Responses.Bytes206, Responses.Bytes304, Responses.Bytes400, Responses.Bytes404;
      ResponsesFit(NO_FILE, "", 0, 0, 0);
      response := WithoutBody(response, Responses.Bytes304());
      finalized := true;
      sock := sock.(answers := sock.answers + [NotModified(file)]);
    }

    /** `parse_url`: the file, or the answer 404. */
    method ParseUrl(path: seq<byte>, w: World) returns (found: Option<Found>)
      requires !finalized
      modifies `response, `finalized, `sock
      ensures found == Locate(w, path)
      ensures finalized == found.None?
      ensures if found.None? then Concluded(NotFound, old(response), old(sock), response, sock)
              else response == WithFile(old(response), found.value.file) && sock == old(sock)
    {
      hide U.Opened, U.Resolved, U.Fits, Responses.Bytes404, ContentType;
      var name, length := U.Resolve(path);
      if length == 0 {
        Return404();
        return None;
      }
      var target := U.ReadName(name);
      if target !in w.files {
        Return404();
        return None;
      }
      var file := w.files[target];
      var contentType := ContentType(name[..length]);
      response := WithFile(response, file);
      return Some(Found(file, contentType));
    }

    /** `handle_if_modified_since` on the buffer from the value on. */
    method HandleSince(rest: seq<byte>, file: File, w: World) returns (done: bool)
      requires response == WithFile(response, file)
      modifies `response, `finalized, `sock
      ensures var a := SinceAnswer(w, rest, file);
              && done == a.Some? && !IsThrown(a)
              && if done then finalized && Concluded(a.value, old(response), old(sock), response, sock)
                 else finalized == old(finalized) && response == old(response) && sock == old(sock)
    {
      hide Concluded;
      if rest !in w.stamps {
        Return400(BadField(file));
        return true;
      }
      if w.stamps[rest] >= file.mtime {
        Return304(file);
        return true;
      }
      return false;
    }

    /** `handle_range`. */
    method HandleRangeField(value: seq<byte>, file: File) returns (thrown: bool)
      requires response == WithFile(response, file)
      modifies `response, `finalized, `sock
      ensures var a := RangeAnswerOf(value, file);
              && thrown == a.Thrown?
              && (!thrown ==> finalized && Concluded(a, old(response), old(sock), response, sock))
    {
      hide Responses.Bytes206, Responses.Bytes400, HandleRange, Length;
      var r := ReadRange(value, |file.content|);
      match r
      case BadRange =>
        Return400(BadField(file));
        return false;
      case Throws => return true;
      case Partial(first, last) =>
        var n := Length(first, last);
        ResponsesFit(file, "", n, first, last % SIZE_T);
        var text := Responses.Bytes206(n, file.date, first, last % SIZE_T, |file.content|);
        response := Response(text, true, file.content, n, first);
        finalized := true;
        sock := sock.(answers := sock.answers + [Ranged(file, first, last)]);
        return false;
    }

    /** `parse_headers`. It throws when the number in a range cannot be read. */
    method ParseHeaders(found: Found, w: World) returns (thrown: bool)
      requires !finalized && response == WithFile(response, found.file)
      requires numHeaders <= headers.Length && HeadersIn(headers[..numHeaders], |buf[..]|)
      modifies `response, `finalized, `sock
      ensures var a := FieldsAnswer(w, buf[..], headers[..numHeaders], found);
              && thrown == a.Thrown?
              && (!thrown ==> finalized && Concluded(a, old(response), old(sock), response, sock))
    {
      hide SinceAnswer, RangeAnswerOf, Serve, FieldsAnswer, HeadersIn, Concluded;
      ghost var hs := headers[..numHeaders];
      ghost var all := FieldsAnswer(w, buf[..], hs, found);
      var i := 0;
      assert hs[0..] == hs;
      while i < numHeaders
        invariant 0 <= i <= numHeaders && response == old(response) && sock == old(sock) && !finalized
        invariant HeadersIn(hs[i..], |buf[..]|) && FieldsAnswer(w, buf[..], hs[i..], found) == all
      {
        var h := headers[i];
        FieldsStep(w, buf[..], hs, i, found);
        var name := NameText(buf[..], h);
        if name == IF_MODIFIED_SINCE {
          var done := HandleSince(buf[h.value.from..], found.file, w);
          assert buf[..][h.value.from..] == buf[h.value.from..];
          if done {
            return false;
          }
        } else if name == RANGE {
          thrown := HandleRangeField(Scanner.Text(buf[..], h.value), found.file);
          return;
        }
        i := i + 1;
      }
      FieldsEnd(w, buf[..], hs[i..], found);
      Return200(found);
      return false;
    }

    /** The whole file, when no header decided otherwise. */
    method Return200(found: Found)
      requires response == WithFile(response, found.file)
      modifies `response, `finalized, `sock
      ensures finalized && Concluded(Whole(found.file, found.contentType), old(response), old(sock), response, sock)
    {
      hide Responses.Bytes200;
      var file := found.file;
      ResponsesFit(file, found.contentType, 0, 0, 0);
      var text := Responses.Bytes200(response.fileSize, file.date, found.contentType);
      response := response.(text := text, content := true);
      finalized := true;
      sock := sock.(answers := sock.answers + [Whole(file, found.contentType)]);
    }

    /** The first half of `read_callback_http`: the parser's verdict and what is answered. */
    method Parse(n: nat, w: World) returns (thrown: bool)
      requires counter + n <= buf.Length == MAX_BUFFER_SIZE
      requires numHeaders <= headers.Length && !finalized
      modifies this, headers
      ensures thrown == IsThrown(old(Verdict(View().rq, n, w)))
      ensures !thrown ==> View() == AfterParse(old(View()), n, w)
      ensures numHeaders <= headers.Length
      ensures counter == old(counter) + n && readPos == old(readPos)
    {
      hide I.PhrParseRequest, Serve, AnswerAbout, HeadersIn;
      ghost var p := ParseCall(View().rq, n);
      var ret, out := CallParser(n);
      CodeSign(p.end);
      if ret == -1 {
        Return400(Malformed);
      } else if ret > 0 {
        thrown := AnswerRequest(out.path.value, w);
        return;
      }
      return false;
    }

    /** The call of the parser, with the capacity and the length of the call before. */
    method CallParser(n: nat) returns (ret: int, out: RequestOut)
      requires counter + n <= buf.Length && numHeaders <= headers.Length
      modifies `counter, `numHeaders, `sock, headers
      ensures counter == old(counter) + n && sock == old(sock).(lens := old(sock).lens + [counter])
      ensures var p := old(ParseCall(View().rq, n));
              && ret == Parser.Code(p.end) && (p.end.Done? ==> ret > 0)
              && numHeaders <= headers.Length && headers[..numHeaders] == p.headers
              && (p.end.Done? ==> out.path == Some(p.end.value.path))
    {
      hide ParseRequest, F.ParseRequestOf;
      var prev := counter;
      counter := counter + n;
      assert buf[..][..counter] == buf[..counter];
      I.SuccessPositive(buf[..counter], numHeaders, prev);
      F.RequestBuilds(buf[..counter], numHeaders);
      var count;
      ret, out, count := Parser.PhrParseRequest(buf[..counter], headers, numHeaders, prev, false);
      numHeaders := count;
      sock := sock.(lens := sock.lens + [counter]);
    }

    /** `parse_url` and, unless it has answered, `parse_headers`. */
    method AnswerRequest(path: Scanner.Slice, w: World) returns (thrown: bool)
      requires !finalized && numHeaders <= headers.Length && HeadersIn(headers[..numHeaders], |buf[..]|)
      requires path.from <= path.to <= |buf[..]|
      modifies `response, `finalized, `sock
      ensures var a := AnswerAbout(w, buf[..], headers[..numHeaders], path);
              && thrown == a.Thrown?
              && (!thrown ==> finalized && Concluded(a, old(response), old(sock), response, sock))
    {
      hide Serve, Locate, FieldsAnswer, HeadersIn;
      ghost var rs := response;
      var found := ParseUrl(Scanner.Text(buf[..], path), w);
      if found.None? {
        return false;
      }
      ghost var a := FieldsAnswer(w, buf[..], headers[..numHeaders], found.value);
      AnswersFile(w, buf[..], headers[..numHeaders], found.value);
      thrown := ParseHeaders(found.value, w);
      if !thrown {
        ServeWithFile(rs, found.value.file, a);
      }
    }

    /** Answering about a file does not need what `parse_url` has noted of it. */
    static lemma ServeWithFile(rs: Response, file: File, a: Answer)
      requires match a
               case Whole(f, _) => f == file
               case Ranged(f, _, _) => f == file
               case NotModified(f) => f == file
               case BadField(f) => f == file
               case _ => false
      ensures Serve(WithFile(rs, file), a) == Serve(rs, a)
    {
      hide Responses.Bytes200, Responses.Bytes206, Responses.ResponseBytes;
    }

    static lemma CodeSign(r: Scanner.Scan<RequestLine>)
      ensures Parser.Code(r) == -1 <==> r.Bad?
      ensures Parser.Code(r) == -2 <==> r.More?
    {
    }

    /** `read_callback_http` for `n` more bytes in the buffer. */
    method OnRead(n: nat, w: World) returns (thrown: bool)
      requires counter + n <= buf.Length == MAX_BUFFER_SIZE
      requires numHeaders <= headers.Length == I.MAX_HEADERS && !finalized
      modifies this, headers
      ensures thrown == IsThrown(old(Verdict(View().rq, n, w)))
      ensures !thrown ==> View() == ReadCallback(old(View()), n, w)
      ensures numHeaders <= headers.Length
    {
      hide AfterParse, Expected, Verdict;
      thrown := Parse(n, w);
      if thrown {
        return;
      }
      if finalized {
        sock := sock.(log := sock.log + [Expected(response)]);
        ArmWrite(HeaderWritten);
      } else if counter == MAX_BUFFER_SIZE {
        Finish();
      } else {
        ArmRead(readPos + n, MAX_BUFFER_SIZE - counter);
      }
    }

    /** One round of `read_loop`: the kernel puts `data` where the armed read says, then the callback runs. */
    method ReadRound(data: seq<byte>, w: World) returns (status: Status)
      requires Valid() && readArmed && 0 < |data| <= toRead
      modifies this, buf, headers
      ensures status == ReadOnce(old(View()), data, w).1
      ensures status != Abort ==> Valid() && View() == ReadOnce(old(View()), data, w).0
    {
      hide ReadCallback, Verdict, R.CallsSoFar, R.Flat, R.LastFirst, Armed;
      ghost var c := View();
      R.ReadStep(c, data, w);
      ghost var before := buf[..];
      forall i | 0 <= i < |data| {
        buf[readPos + i] := data[i];
      }
      assert buf[..] == before[..readPos] + data + before[readPos + |data|..];
      readArmed := false;
      sock := sock.(received := sock.received + data);
      var thrown := OnRead(|data|, w);
      status := if thrown then Abort else Continue;
    }

    /** `read_loop`, for any bytes that come in; an empty read or an error ends the connection. */
    method ReadLoop(ins: seq<(seq<byte>, World)>) returns (status: Status)
      requires Valid()
      modifies this, buf, headers
      ensures status == R.ReadRun(old(View()), ins).1
      ensures status != Abort ==> Valid() && View() == R.ReadRun(old(View()), ins).0
    {
      hide ReadOnce, R.CallsSoFar, R.Flat, R.LastFirst, Armed;
      status := Continue;
      var k := 0;
      while readArmed
        invariant k <= |ins| && Valid()
        invariant R.ReadRun(View(), ins[k..]) == R.ReadRun(old(View()), ins)
        decreases |ins| - k
      {
        if k == |ins| {
          return Continue;
        }
        if ins[k].0 == [] {
          return Error;
        }
        var s := ReadRound(ins[k].0[..Min(|ins[k].0|, toRead)], ins[k].1);
        assert ins[k..][1..] == ins[k + 1..];
        if s == Abort {
          return Abort;
        }
        k := k + 1;
      }
    }

    /** `write_handle_basic` and `write_handle_sendfile`, when the kernel answers `r`. */
    method WriteHandle(r: Reply) returns (status: Status)
      requires Armed(View().wr, response)
      modifies this
      ensures (View(), status) == WriteOnce(old(View()), r)
    {
      hide Armed;
      match r
      case Fault => return Error;
      case Again => return Wait;
      case Sent(k) =>
        var w := WriteOp(writeCallback, wtype, alreadyWritten, toWrite);
        var count := Min(k, Offered(w, response));
        if count == 0 {
          return Abort;
        }
        sock := sock.(wire := sock.wire + Chunk(w, response, count));
        alreadyWritten := alreadyWritten + count;
        if alreadyWritten == toWrite {
          var cb := writeCallback;
          writeCallback := NoWrite;
          match cb {
            case NoWrite =>
            case HeaderWritten => AfterHeader();
            case HttpFinish => Finish();
          }
        }
        return Continue;
    }

    /** `write_loop`, for any answers of the kernel; after the last of them it says EAGAIN. */
    method WriteLoop(replies: seq<Reply>) returns (status: Status)
      requires Valid()
      modifies this
      ensures Valid() && (View(), status) == WriteRun(old(View()), replies)
    {
      hide WriteOnce, R.Inv;
      status := Continue;
      var k := 0;
      while status == Continue && writeCallback != NoWrite
        invariant k <= |replies| && Valid() && buf[..] == old(buf[..])
        invariant status == Continue ==> WriteRun(View(), replies[k..]) == WriteRun(old(View()), replies)
        invariant status != Continue ==> (View(), status) == WriteRun(old(View()), replies)
        decreases |replies| - k, status == Continue
      {
        if k == |replies| {
          status := Wait;
        } else {
          ghost var c := View();
          InvArmed(c);
          R.WriteStep(c, replies[k]);
          CapStep(c, replies[k]);
          status := WriteHandle(replies[k]);
          assert replies[k..][1..] == replies[k + 1..];
          k := k + 1;
        }
      }
    }

    static lemma InvArmed(c: Conn)
      requires R.Inv(c)
      ensures Armed(c.wr, c.rs)
    {
    }
  }

  lemma CapStep(c: Conn, r: Reply)
    requires c.rq.numHeaders <= I.MAX_HEADERS
    ensures WriteOnce(c, r).0.rq.numHeaders <= I.MAX_HEADERS
  {
  }
}
