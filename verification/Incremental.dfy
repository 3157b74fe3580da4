/**
 Messages that arrive in pieces: the guarded entry points `phr_parse_request`, `phr_parse_response` and
 `phr_parse_headers`, and what their answers over growing buffers say about the whole message.
 */
module Incremental {
  import opened Bytes
  import opened Scanner
  import opened Message
  import opened Grammar
  import opened Verdicts
  import opened Guard

  /** An entry point: the guard, if bytes were seen before, and then the answer `one` of the parser. */
  function Guarded<L>(s: seq<byte>, last: nat, one: Parse<L>): (r: Parse<L>)
    requires last <= |s|
  {
    var g := IsComplete(s, Resume(last), 0);
    if last != 0 && !g.Done? then Parse(if g.Bad? then Bad else More, []) else one
  }

  /** `phr_parse_request` with header capacity `cap`. */
  function PhrParseRequest(s: seq<byte>, cap: nat, last: nat): Parse<RequestLine>
    requires last <= |s|
  {
    Guarded(s, last, ParseRequest(s, cap))
  }

  /** `phr_parse_response`. */
  function PhrParseResponse(s: seq<byte>, cap: nat, last: nat): Parse<StatusLine>
    requires last <= |s|
  {
    Guarded(s, last, ParseResponse(s, cap))
  }

  /** `phr_parse_headers`. */
  function PhrParseHeaders(s: seq<byte>, cap: nat, last: nat): Parse<()>
    requires last <= |s|
  {
    Guarded(s, last, ParseHeadersOnly(s, cap))
  }

  lemma SuccessPositive(s: seq<byte>, cap: nat, last: nat)
    requires last <= |s|
    ensures var r := PhrParseRequest(s, cap, last).end; r.Done? ==> 0 < r.pos <= |s|
  {
    hide ParseRequest;
    GuardAgrees(s, cap);
  }

  /** One guarded call, given only that the bytes seen before have no end of message among them. */
  lemma GuardedCall<L>(p: seq<byte>, s: seq<byte>, one: Parse<L>)
    requires p <= s && p != [] && IsComplete(p, 0, 0).More? && Agrees(s, one)
    ensures var r := Guarded(s, |p|, one);
            && r.end == (if IsComplete(s, 0, 0).More? then More else one.end)
            && (r.end.Done? ==> r == one)
  {
    hide IsComplete;
    ResumeExact(p, s, 0, 0);
  }

  // ---------- Any number of pieces ----------

  /** The buffer grows: `lens[k]` bytes have arrived when call `k` is made. */
  ghost predicate Growing(s: seq<byte>, lens: seq<nat>) {
    && lens != [] && lens[0] > 0 && lens[|lens| - 1] <= |s|
    && forall j, k | 0 <= j < k < |lens| :: lens[j] < lens[k] <= |s|
  }

  function Before(lens: seq<nat>, k: nat): nat
    requires k < |lens|
  {
    if k == 0 then 0 else lens[k - 1]
  }

  /** While every call has answered -2 there is no end of message in what has arrived. */
  lemma {:induction false} StillIncomplete<L>(s: seq<byte>, lens: seq<nat>, ones: seq<Parse<L>>, k: nat)
    requires Growing(s, lens) && |ones| == |lens| && k < |lens|
    requires forall j | 0 <= j <= k :: Agrees(s[..lens[j]], ones[j])
    requires forall j | 0 <= j <= k :: Guarded(s[..lens[j]], Before(lens, j), ones[j]).end.More?
    ensures IsComplete(s[..lens[k]], 0, 0).More?
    decreases k
  {
    hide IsComplete;
    assert Guarded(s[..lens[k]], Before(lens, k), ones[k]).end.More?;
    if k > 0 {
      StillIncomplete(s, lens, ones, k - 1);
      GuardedCall(s[..lens[k - 1]], s[..lens[k]], ones[k]);
    }
  }

  /** What the call after any number of calls that answered -2 answers. */
  ghost predicate PieceAnswer<L>(b: seq<byte>, first: bool, r: Parse<L>, one: Parse<L>) {
    && r.end == (if !first && IsComplete(b, 0, 0).More? then More else one.end)
    && (r.end.Done? <==> one.end.Done?) && (r.end.Done? ==> r == one)
    && (r.end.Bad? ==> one.end.Bad?)
    && (one.end.More? ==> r.end.More?)
  }

  lemma PiecesAgree<L>(s: seq<byte>, lens: seq<nat>, ones: seq<Parse<L>>, k: nat)
    requires Growing(s, lens) && |ones| == |lens| && k < |lens|
    requires forall j | 0 <= j <= k :: Agrees(s[..lens[j]], ones[j])
    requires forall j | 0 <= j < k :: Guarded(s[..lens[j]], Before(lens, j), ones[j]).end.More?
    ensures PieceAnswer(s[..lens[k]], k == 0, Guarded(s[..lens[k]], Before(lens, k), ones[k]), ones[k])
  {
    hide IsComplete;
    if k > 0 {
      StillIncomplete(s, lens, ones, k - 1);
      GuardedCall(s[..lens[k - 1]], s[..lens[k]], ones[k]);
    }
  }

  /** Call `k` of a caller that keeps the capacity and passes the previous length. */
  function Call(s: seq<byte>, lens: seq<nat>, k: nat, cap: nat): (r: Parse<RequestLine>)
    requires Growing(s, lens) && k < |lens|
  {
    PhrParseRequest(s[..lens[k]], cap, Before(lens, k))
  }

  /**
   Piecemeal parsing agrees with one-shot parsing. After any number of calls that answered -2, the next one answers
   what parsing the whole buffer at once answers, except that an error is reported only once the blank line that ends
   the request is there or a carriage return without its line feed has been seen; a request is never refused or
   accepted because of where it was cut, and its fields are the same.
   */
  lemma PiecemealAgrees(s: seq<byte>, lens: seq<nat>, k: nat, cap: nat)
    requires Growing(s, lens) && k < |lens|
    requires forall j | 0 <= j < k :: Call(s, lens, j, cap).end.More?
    ensures PieceAnswer(s[..lens[k]], k == 0, Call(s, lens, k, cap), ParseRequest(s[..lens[k]], cap))
  {
    hide IsComplete, ParseRequest, Agrees, PieceAnswer, Guarded;
    var ones := seq(|lens|, j requires 0 <= j < |lens| => ParseRequest(s[..lens[j]], cap));
    forall j | 0 <= j <= k ensures Agrees(s[..lens[j]], ones[j]) {
      GuardAgrees(s[..lens[j]], cap);
    }
    forall j | 0 <= j < k ensures Guarded(s[..lens[j]], Before(lens, j), ones[j]).end.More? {
      assert Call(s, lens, j, cap).end.More?;
    }
    PiecesAgree(s, lens, ones, k);
  }

  /** The same for responses. */
  lemma ResponsePiecemealAgrees(s: seq<byte>, lens: seq<nat>, k: nat, cap: nat)
    requires Growing(s, lens) && k < |lens|
    requires forall j | 0 <= j < k :: PhrParseResponse(s[..lens[j]], cap, Before(lens, j)).end.More?
    ensures PieceAnswer(s[..lens[k]], k == 0, PhrParseResponse(s[..lens[k]], cap, Before(lens, k)),
                        ParseResponse(s[..lens[k]], cap))
  {
    hide IsComplete, ParseResponse, Agrees, PieceAnswer, Guarded;
    var ones := seq(|lens|, j requires 0 <= j < |lens| => ParseResponse(s[..lens[j]], cap));
    forall j | 0 <= j <= k ensures Agrees(s[..lens[j]], ones[j]) {
      GuardAgreesResponse(s[..lens[j]], cap);
    }
    forall j | 0 <= j < k ensures Guarded(s[..lens[j]], Before(lens, j), ones[j]).end.More? {
      assert PhrParseResponse(s[..lens[j]], cap, Before(lens, j)).end.More?;
    }
    PiecesAgree(s, lens, ones, k);
  }

  /** The same for header blocks that are not empty. */
  lemma HeadersPiecemealAgrees(s: seq<byte>, lens: seq<nat>, k: nat, cap: nat)
    requires Growing(s, lens) && k < |lens| && !([LF] <= s) && !([CR, LF] <= s)
    requires forall j | 0 <= j < k :: PhrParseHeaders(s[..lens[j]], cap, Before(lens, j)).end.More?
    ensures PieceAnswer(s[..lens[k]], k == 0, PhrParseHeaders(s[..lens[k]], cap, Before(lens, k)),
                        ParseHeadersOnly(s[..lens[k]], cap))
  {
    hide IsComplete, ParseHeadersOnly, Agrees, PieceAnswer, Guarded;
    var ones := seq(|lens|, j requires 0 <= j < |lens| => ParseHeadersOnly(s[..lens[j]], cap));
    forall j | 0 <= j <= k ensures Agrees(s[..lens[j]], ones[j]) {
      GuardAgreesHeaders(s[..lens[j]], cap);
    }
    forall j | 0 <= j < k ensures Guarded(s[..lens[j]], Before(lens, j), ones[j]).end.More? {
      assert PhrParseHeaders(s[..lens[j]], cap, Before(lens, j)).end.More?;
    }
    PiecesAgree(s, lens, ones, k);
  }

  /** While an empty block is cut, the calls that answered -2 saw the first byte alone, or nothing the guard ends at. */
  lemma {:induction false} CutBlockIncomplete(s: seq<byte>, lens: seq<nat>, k: nat, cap: nat)
    requires Growing(s, lens) && k < |lens| && [CR, LF] <= s
    requires forall j | 0 <= j <= k :: PhrParseHeaders(s[..lens[j]], cap, Before(lens, j)).end.More?
    ensures IsComplete(s[..lens[k]], 0, 0).More? && lens[0] == 1
    decreases k
  {
    hide IsComplete, ParseHeadersOnly;
    var b := s[..lens[k]];
    assert PhrParseHeaders(b, cap, Before(lens, k)).end.More?;
    if k == 0 {
      if |b| >= 2 {
        EmptyBlock(b, cap);
      } else {
        FirstByte(b);
      }
    } else {
      CutBlockIncomplete(s, lens, k - 1, cap);
      EmptyBlock(b, cap);
      ResumeExact(s[..lens[k - 1]], b, 0, 0);
    }
  }

  lemma FirstByte(b: seq<byte>)
    requires |b| == 1 && b[0] == CR
    ensures IsComplete(b, 0, 0).More?
  {
  }

  /** A block that is a lone line feed cannot be cut. */
  lemma LfBlock(b: seq<byte>, cap: nat)
    requires [LF] <= b
    ensures PhrParseHeaders(b, cap, 0) == Parse(Done(1, ()), [])
  {
    assert b[0] == LF;
  }

  lemma EmptyBlock(b: seq<byte>, cap: nat)
    requires [CR, LF] <= b
    ensures ParseHeadersOnly(b, cap) == Parse(Done(2, ()), [])
  {
    assert b[0] == CR && b[1] == LF;
  }

  /**
   A header block that is empty is not treated like that once it has been cut, which it can be between its two bytes
   only. Whatever follows it and however that is cut, the guard then looks for an end among bytes that do not belong to
   the block: the call that one-shot parsing would answer with 2 succeeds exactly when two adjacent line ends are found
   before a lone carriage return, is an error exactly when a lone carriage return is found first, and wants more until
   then.
   */
  lemma EmptyBlockCut(s: seq<byte>, lens: seq<nat>, k: nat, cap: nat)
    requires Growing(s, lens) && 0 < k < |lens| && [CR, LF] <= s
    requires forall j | 0 <= j < k :: PhrParseHeaders(s[..lens[j]], cap, Before(lens, j)).end.More?
    ensures var b := s[..lens[k]]; var r := PhrParseHeaders(b, cap, Before(lens, k));
            && lens[0] == 1
            && ParseHeadersOnly(b, cap) == Parse(Done(2, ()), [])
            && (r.end.Done? <==> BlankFirst(b)) && (r.end.Done? ==> r == ParseHeadersOnly(b, cap))
            && (r.end.Bad? <==> CrFirst(b))
            && r.headers == []
  {
    hide IsComplete, ParseHeadersOnly, BlankFirst, CrFirst;
    var b := s[..lens[k]];
    CutBlockIncomplete(s, lens, k - 1, cap);
    EmptyBlock(b, cap);
    ResumeExact(s[..lens[k - 1]], b, 0, 0);
    CompleteFound(b);
    CompleteError(b);
  }

  // ---------- The capacity ----------

  lemma {:induction false} HeadersCapacity(s: seq<byte>, i: nat, hs: seq<Header>, cap: nat, other: nat)
    requires i <= |s| && |hs| <= other && Headers(s, i, hs, cap).end.Done?
    ensures hs <= Headers(s, i, hs, cap).headers
    ensures var r := Headers(s, i, hs, cap);
            if |r.headers| <= other then Headers(s, i, hs, other) == r
            else Headers(s, i, hs, other).end.Bad?
    decreases |s| - i
  {
    hide HeaderLine;
    if !IsLineEnd(s[i]) {
      var r := HeaderLine(s, i, |hs| == 0);
      if |hs| != other {
        HeadersCapacity(s, r.pos, hs + [r.value], cap, other);
      } else {
        HeadersCapacity(s, r.pos, hs + [r.value], cap, other + 1);
      }
    }
  }

  /** An acceptable request is accepted under another capacity exactly when that holds all of its header entries. */
  lemma CapacityExact(s: seq<byte>, cap: nat, other: nat)
    requires ParseRequest(s, cap).end.Done?
    ensures var r := ParseRequest(s, cap);
            if |r.headers| <= other then ParseRequest(s, other) == r else ParseRequest(s, other).end.Bad?
  {
    hide ReadRequestLine, Headers;
    HeadersCapacity(s, ReadRequestLine(s).pos, [], cap, other);
  }

  // ---------- The caller that does not restore the capacity ----------

  /** `MAX_HEADERS` of yotta.cpp, which is `*num_headers` before the first call. */
  const MAX_HEADERS: nat := 30

  /** The value of `*num_headers` when `read_callback_http` makes call `k`: what call `k - 1` left there. */
  function CarriedCap(s: seq<byte>, lens: seq<nat>, k: nat): (cap: nat)
    requires Growing(s, lens) && k < |lens|
    decreases k, 0
  {
    if k == 0 then MAX_HEADERS else |CarriedCall(s, lens, k - 1).headers|
  }

  function CarriedCall(s: seq<byte>, lens: seq<nat>, k: nat): (r: Parse<RequestLine>)
    requires Growing(s, lens) && k < |lens|
    decreases k, 1
  {
    Call(s, lens, k, CarriedCap(s, lens, k))
  }

  lemma {:induction false} CarriedIncomplete(s: seq<byte>, lens: seq<nat>, k: nat)
    requires Growing(s, lens) && k < |lens|
    requires forall j | 0 <= j <= k :: CarriedCall(s, lens, j).end.More?
    ensures IsComplete(s[..lens[k]], 0, 0).More?
    ensures k > 0 ==> CarriedCall(s, lens, k).headers == []
    decreases k
  {
    hide IsComplete, ParseRequest;
    var b, cap := s[..lens[k]], CarriedCap(s, lens, k);
    GuardAgrees(b, cap);
    assert CarriedCall(s, lens, k).end.More?;
    if k > 0 {
      CarriedIncomplete(s, lens, k - 1);
      GuardedCall(s[..lens[k - 1]], b, ParseRequest(b, cap));
      ResumeExact(s[..lens[k - 1]], b, 0, 0);
    }
  }

  /**
   In `read_callback_http` agreement fails. A request that one call would accept, cut so that the earlier calls
   answered -2, is accepted exactly when it has no more header entries than header lines were complete in the first
   piece if there are two pieces, and exactly when it has no header lines at all if there are more; otherwise it is
   answered as a bad request.
   */
  lemma CarriedCapacityExact(s: seq<byte>, lens: seq<nat>, k: nat)
    requires Growing(s, lens) && 0 < k < |lens|
    requires forall j | 0 <= j < k :: CarriedCall(s, lens, j).end.More?
    requires ParseRequest(s[..lens[k]], MAX_HEADERS).end.Done?
    ensures var one := ParseRequest(s[..lens[k]], MAX_HEADERS); var r := CarriedCall(s, lens, k);
            var held := if k == 1 then |ParseRequest(s[..lens[0]], MAX_HEADERS).headers| else 0;
            if |one.headers| <= held then r == one else r.end.Bad?
  {
    hide IsComplete, ParseRequest;
    var b, cap := s[..lens[k]], CarriedCap(s, lens, k);
    CarriedIncomplete(s, lens, k - 1);
    GuardAgrees(b, cap);
    GuardedCall(s[..lens[k - 1]], b, ParseRequest(b, cap));
    GuardAgrees(b, MAX_HEADERS);
    CapacityExact(b, MAX_HEADERS, cap);
  }

  /** One such request: one header, and a first piece of one byte. Called once it is accepted, piecemeal refused. */
  lemma SplitRequestWitness() returns (s: seq<byte>, lens: seq<nat>)
    ensures Growing(s, lens) && |lens| == 2 && lens[1] == |s|
    ensures ParseRequest(s, MAX_HEADERS).end.Done?
    ensures CarriedCall(s, lens, 0).end.More? && CarriedCall(s, lens, 1).end.Bad?
    ensures Call(s, lens, 1, MAX_HEADERS).end.Done?
  {
    hide IsComplete, ParseRequest, PrintRequest, Entries, LineOf;
    var a := WitnessText();
    s := PrintRequest(a);
    AtStart(s, s);
    RequestComplete(s, MAX_HEADERS, a);
    WitnessStart(s[..1]);
    lens := [1, |s|];
    assert s[..|s|] == s;
    assert CarriedCall(s, lens, 0).end.More? && Call(s, lens, 0, MAX_HEADERS).end.More?;
    CarriedCapacityExact(s, lens, 1);
    PiecemealAgrees(s, lens, 1, MAX_HEADERS);
  }

  lemma WitnessText() returns (a: RequestText)
    ensures WfRequest(a, MAX_HEADERS) && |a.block.lines| == 1
    ensures |PrintRequest(a)| > 1 && PrintRequest(a)[..1] == "G"
  {
    a := RequestText(None, "GET", "/", "0", Lf, BlockText([Field("A", [], "b", Lf)], Lf));
    var rest := [SP] + (a.path + ([SP] + (VERSION + (a.minor + PrintEol(a.eol)))));
    assert PrintRequestLine(a) == a.verb + rest;
    assert PrintRequestLine(a)[0] == 'G';
  }

  lemma WitnessStart(s: seq<byte>)
    requires s == "G"
    ensures ParseRequest(s, MAX_HEADERS) == Parse(More, [])
  {
    SpanUnique(s, 0, TokenByte, 1);
  }
}
