/**
 `is_complete`, the guard that keeps a slow sender from having its message parsed again and again: what it looks for,
 that resuming it is exact, and that it sees the ends the parsers see.
 */
module Guard {
  import opened Bytes
  import opened Scanner
  import opened Message

  /** The loop of `is_complete` at cursor `i`, `cnt` line ends after the last other byte. */
  function IsComplete(s: seq<byte>, i: nat, cnt: nat): (r: Scan<()>)
    requires i <= |s| && cnt < 2
    ensures r.Done? ==> i < r.pos <= |s|
    decreases |s| - i
  {
    if i == |s| then More
    else if IsLineEnd(s[i]) then
      var (p, _) :- Eol(s, i);
      if cnt == 1 then Done(p, ()) else IsComplete(s, p, cnt + 1)
    else IsComplete(s, i + 1, 0)
  }

  /** Where the guard resumes when the first `last` bytes have been seen before. */
  function Resume(last: nat): nat {
    if last < 3 then 0 else last - 3
  }

  // ---------- The guard is exact ----------

  /** Once the bytes before are known to be incomplete, the scan may resume three bytes back without its count. */
  lemma {:induction false} ResumeExact(p: seq<byte>, s: seq<byte>, i: nat, cnt: nat)
    requires p <= s && i <= Resume(|p|) <= |p| && cnt < 2
    requires IsComplete(p, i, cnt).More? && (i == 0 ==> cnt == 0)
    ensures IsComplete(s, i, cnt) == IsComplete(s, Resume(|p|), 0)
    decreases |p| - i
  {
    var q := Resume(|p|);
    if i < q {
      var j := if s[i] == CR then i + 2 else i + 1;
      var n := if IsLineEnd(s[i]) then cnt + 1 else 0;
      if j <= q {
        ResumeExact(p, s, j, n);
      } else {
        assert IsComplete(s, q, 0) == IsComplete(s, q + 1, 1);
      }
    }
  }

  // ---------- The guard and the parser see the same end ----------

  lemma {:induction false} SkipText(s: seq<byte>, i: nat, j: nat, cnt: nat)
    requires i < j <= |s| && cnt < 2
    requires forall m | i <= m < j :: !IsLineEnd(s[m])
    ensures IsComplete(s, i, cnt) == IsComplete(s, j, 0)
    decreases j - i
  {
    if i + 1 < j {
      SkipText(s, i + 1, j, 0);
    }
  }

  /** A line that starts with something other than a line end, read to its end. */
  lemma SkipLine(s: seq<byte>, i: nat, b: nat, cnt: nat)
    requires i <= b <= |s| && i < |s| && !IsLineEnd(s[i]) && cnt < 2
    requires forall m | i <= m < b :: !IsLineEnd(s[m])
    ensures TokenToEol(s, b).Done? ==> IsComplete(s, i, cnt) == IsComplete(s, TokenToEol(s, b).pos, 1)
    ensures TokenToEol(s, b).More? ==> IsComplete(s, i, cnt).More?
  {
    var j := Span(s, b, ValueByte);
    assert forall m | b <= m < j :: In(s[m], ValueByte);
    SkipLineTo(s, i, j, cnt);
  }

  lemma SkipLineTo(s: seq<byte>, i: nat, j: nat, cnt: nat)
    requires i <= j <= |s| && i < |s| && !IsLineEnd(s[i]) && cnt < 2
    requires forall m | i <= m < j :: !IsLineEnd(s[m])
    ensures j == |s| ==> IsComplete(s, i, cnt).More?
    ensures j < |s| && IsLineEnd(s[j]) && Eol(s, j).Done? ==> IsComplete(s, i, cnt) == IsComplete(s, Eol(s, j).pos, 1)
    ensures j < |s| && IsLineEnd(s[j]) && Eol(s, j).More? ==> IsComplete(s, i, cnt).More?
  {
    if i < j {
      SkipText(s, i, j, cnt);
    }
  }

  lemma GuardHeaderLine(s: seq<byte>, i: nat, first: bool)
    requires i < |s| && !IsLineEnd(s[i])
    ensures HeaderLine(s, i, first).Done? ==> IsComplete(s, i, 1) == IsComplete(s, HeaderLine(s, i, first).pos, 1)
    ensures HeaderLine(s, i, first).More? ==> IsComplete(s, i, 1).More?
  {
    hide TokenToEol, IsComplete;
    var b := i;
    if !(!first && IsBlank(s[i])) && IsTokenChar(s[i]) {
      var c := Span(s, i, NameByte);
      if c < |s| && s[c] == ':' {
        b := Span(s, c + 1, BlankByte);
      } else {
        b := c;
      }
    }
    if b < |s| {
      SkipLine(s, i, b, 1);
    } else {
      SkipLineTo(s, i, b, 1);
    }
  }

  lemma {:induction false} GuardHeaders(s: seq<byte>, i: nat, hs: seq<Header>, cap: nat)
    requires i <= |s|
    ensures var r := Headers(s, i, hs, cap).end; !r.Bad? ==> IsComplete(s, i, 1) == r
    decreases |s| - i
  {
    hide HeaderLine;
    if i < |s| && !IsLineEnd(s[i]) && |hs| != cap {
      GuardHeaderLine(s, i, |hs| == 0);
      var r := HeaderLine(s, i, |hs| == 0);
      if r.Done? {
        GuardHeaders(s, r.pos, hs + [r.value], cap);
      }
    }
  }

  lemma GuardRequestLine(s: seq<byte>)
    ensures var r := ReadRequestLine(s);
            && (r.Done? ==> IsComplete(s, 0, 0) == IsComplete(s, r.pos, 1))
            && (r.More? ==> IsComplete(s, 0, 0).More?)
  {
    hide IsComplete, Token, VersionLine;
    var lead := LeadingEol(s);
    LeadStep(s);
    if lead.Done? {
      var p := lead.pos;
      TokenNoLineEnd(s, p);
      var verb := Token(s, p);
      if verb.Done? {
        TokenNoLineEnd(s, verb.pos);
        var path := Token(s, verb.pos);
        if path.Done? {
          VersionLineGuard(s, p, path.pos);
        } else if path.More? {
          SkipLineTo(s, p, |s|, if p == 0 then 0 else 1);
        }
      } else if verb.More? && p < |s| {
        SkipLineTo(s, p, |s|, if p == 0 then 0 else 1);
      }
    }
  }

  lemma LeadStep(s: seq<byte>)
    ensures var r := LeadingEol(s);
            && (r.Done? ==> IsComplete(s, 0, 0) == IsComplete(s, r.pos, if r.pos == 0 then 0 else 1))
            && (r.Done? && r.pos == |s| ==> IsComplete(s, 0, 0).More?)
            && (r.More? ==> IsComplete(s, 0, 0).More?)
  {
  }

  lemma TokenNoLineEnd(s: seq<byte>, i: nat)
    requires i <= |s|
    ensures Token(s, i).Done? ==> forall m | i <= m < Token(s, i).pos :: !IsLineEnd(s[m])
    ensures Token(s, i).More? ==> forall m | i <= m < |s| :: !IsLineEnd(s[m])
  {
    var j := Span(s, i, TokenByte);
    assert forall m | i <= m < j :: In(s[m], TokenByte);
  }

  /** A version holds no line end, however much of it is there. */
  lemma VersionText(s: seq<byte>, t: nat)
    requires t <= |s|
    ensures var r := HttpVersion(s, t);
            && (r.Done? ==> forall m | t <= m < r.pos :: !IsLineEnd(s[m]))
            && (r.More? ==> forall m | t <= m < |s| :: !IsLineEnd(s[m]))
  {
    if ExpectAll(s, t, VERSION).Done? {
      assert VERSION == s[t..][..7];
      forall m | t <= m < t + 7 ensures !IsLineEnd(s[m]) {
        assert s[m] == VERSION[m - t];
      }
      IntText(s, t + 7);
    } else if ExpectAll(s, t, VERSION).More? {
      forall m | t <= m < |s| ensures !IsLineEnd(s[m]) {
        assert s[m] == s[t..][m - t] == VERSION[m - t];
      }
    }
  }

  lemma IntText(s: seq<byte>, t: nat)
    requires t <= |s|
    ensures var r := Int(s, t);
            && (r.Done? ==> forall m | t <= m < r.pos :: !IsLineEnd(s[m]))
            && (r.More? ==> forall m | t <= m < |s| :: !IsLineEnd(s[m]))
  {
    assert forall m | t <= m < Span(s, t, DigitByte) :: In(s[m], DigitByte);
  }

  lemma VersionLineGuard(s: seq<byte>, i: nat, t: nat)
    requires i < t <= |s| && forall m | i <= m < t :: !IsLineEnd(s[m])
    ensures var cnt := if i == 0 then 0 else 1; var r := VersionLine(s, t);
            && (r.Done? ==> IsComplete(s, i, cnt) == IsComplete(s, r.pos, 1))
            && (r.More? ==> IsComplete(s, i, cnt).More?)
  {
    hide IsComplete, HttpVersion;
    VersionText(s, t);
    var v := HttpVersion(s, t);
    if !v.Bad? {
      SkipLineTo(s, i, if v.Done? then v.pos else |s|, if i == 0 then 0 else 1);
    }
  }

  lemma GuardStatusLine(s: seq<byte>)
    ensures var r := ReadStatusLine(s);
            && (r.Done? ==> IsComplete(s, 0, 0) == IsComplete(s, r.pos, 1))
            && (r.More? ==> IsComplete(s, 0, 0).More?)
  {
    hide IsComplete, HttpVersion, Int, TokenToEol;
    VersionText(s, 0);
    var v := HttpVersion(s, 0);
    var e := |s|;
    if v.Done? && s[v.pos] == SP {
      var p := v.pos + 1;
      IntText(s, p);
      var n := Int(s, p);
      if n.Done? && s[n.pos] == SP {
        SkipLine(s, 0, n.pos + 1, 0);
        return;
      } else if n.Bad? || n.Done? {
        return;
      }
    } else if v.Bad? || v.Done? {
      return;
    }
    if s == [] {
      NothingYet();
    } else {
      SkipLineTo(s, 0, |s|, 0);
    }
  }

  lemma NothingYet()
    ensures IsComplete([], 0, 0).More?
  {
  }

  // ---------- Guard and parser agree ----------

  /** Where the parser succeeds the guard ends at the same byte; where it wants more so does the guard. */
  ghost predicate Agrees<L>(s: seq<byte>, r: Parse<L>) {
    && (r.end.Done? ==> IsComplete(s, 0, 0) == Done(r.end.pos, ()))
    && (r.end.More? ==> IsComplete(s, 0, 0).More?)
  }

  lemma AgreesAfterLine<L>(s: seq<byte>, line: Scan<L>, cap: nat)
    requires line.Done? ==> line.pos <= |s| && IsComplete(s, 0, 0) == IsComplete(s, line.pos, 1)
    requires line.More? ==> IsComplete(s, 0, 0).More?
    ensures Agrees(s, WithHeaders(s, line, cap))
  {
    hide IsComplete, Headers;
    if line.Done? {
      GuardHeaders(s, line.pos, [], cap);
      var h := Headers(s, line.pos, [], cap).end;
      assert h.Done? ==> h.value == ();
    }
  }

  /** On a request that is not in error the guard gives the parser's own verdict and end position. */
  lemma GuardAgrees(s: seq<byte>, cap: nat)
    ensures Agrees(s, ParseRequest(s, cap))
  {
    hide IsComplete, ReadRequestLine, WithHeaders;
    GuardRequestLine(s);
    AgreesAfterLine(s, ReadRequestLine(s), cap);
  }

  /** So it does on a response. */
  lemma GuardAgreesResponse(s: seq<byte>, cap: nat)
    ensures Agrees(s, ParseResponse(s, cap))
  {
    hide IsComplete, ReadStatusLine, WithHeaders;
    GuardStatusLine(s);
    AgreesAfterLine(s, ReadStatusLine(s), cap);
  }

  /** A header block on its own, as `phr_parse_headers` reads it. */
  function ParseHeadersOnly(s: seq<byte>, cap: nat): Parse<()> {
    var h := Headers(s, 0, [], cap);
    Parse(h.end, h.headers)
  }

  /**
   On a header block on its own they agree exactly when the block is not empty: of an empty one the guard wants a
   second line end that never belongs to it.
   */
  lemma GuardAgreesHeaders(s: seq<byte>, cap: nat)
    ensures Agrees(s, ParseHeadersOnly(s, cap)) <==> !([LF] <= s) && !([CR, LF] <= s)
  {
    if s != [] && IsLineEnd(s[0]) {
      assert Eol(s, 0).Done? <==> [LF] <= s || [CR, LF] <= s;
    } else {
      assert s != [] ==> IsComplete(s, 0, 0) == IsComplete(s, 0, 1);
      GuardHeaders(s, 0, [], cap);
      var h := Headers(s, 0, [], cap).end;
      assert h.Done? ==> h.value == ();
    }
  }

  // ---------- What the guard looks for ----------

  /** `p` is just behind two line ends that stand next to each other. */
  predicate BlankEnd(s: seq<byte>, p: nat)
    requires p <= |s|
  {
    && p >= 2 && s[p - 1] == LF
    && (s[p - 2] == LF || (p >= 3 && s[p - 2] == CR && s[p - 3] == LF))
  }

  /** A carriage return that is known not to be followed by a line feed. */
  predicate BareCr(s: seq<byte>, k: nat)
    requires k < |s|
  {
    s[k] == CR && k + 1 < |s| && s[k + 1] != LF
  }

  ghost predicate NoBlank(s: seq<byte>, n: nat)
    requires n <= |s|
  {
    forall p | 0 <= p < n :: !BlankEnd(s, p)
  }

  ghost predicate NoBareCr(s: seq<byte>, n: nat)
    requires n <= |s|
  {
    forall k | 0 <= k < n :: !BareCr(s, k)
  }

  /** Two adjacent line ends come before any carriage return that stands alone. */
  ghost predicate BlankFirst(s: seq<byte>) {
    exists p | 0 <= p <= |s| :: BlankEnd(s, p) && NoBlank(s, p) && NoBareCr(s, p)
  }

  /** A carriage return stands alone before any two adjacent line ends. */
  ghost predicate CrFirst(s: seq<byte>) {
    exists k | 0 <= k < |s| :: BareCr(s, k) && NoBlank(s, k + 1)
  }

  /** What the guard's loop knows at its cursor. */
  ghost predicate Seen(s: seq<byte>, i: nat, cnt: nat)
    requires i <= |s|
  {
    && cnt < 2 && (cnt == 1 <==> i > 0 && s[i - 1] == LF) && (i > 0 ==> s[i - 1] != CR)
    && NoBareCr(s, i) && NoBlank(s, i) && !BlankEnd(s, i)
  }

  lemma SeenStep(s: seq<byte>, i: nat, cnt: nat)
    requires i < |s| && Seen(s, i, cnt)
    ensures !IsLineEnd(s[i]) ==> Seen(s, i + 1, 0)
    ensures IsLineEnd(s[i]) && Eol(s, i).Done? ==> NoBareCr(s, Eol(s, i).pos) && NoBlank(s, Eol(s, i).pos)
    ensures IsLineEnd(s[i]) && Eol(s, i).Done? ==> (cnt == 1 <==> BlankEnd(s, Eol(s, i).pos))
    ensures IsLineEnd(s[i]) && Eol(s, i).Done? && cnt == 0 ==> Seen(s, Eol(s, i).pos, 1)
    ensures IsLineEnd(s[i]) && Eol(s, i).Bad? ==> BareCr(s, i)
    ensures IsLineEnd(s[i]) && Eol(s, i).More? ==> i + 1 == |s| && s[i] == CR
  {
  }

  lemma {:induction false} CompleteFrom(s: seq<byte>, i: nat, cnt: nat)
    requires i <= |s| && Seen(s, i, cnt)
    ensures var r := IsComplete(s, i, cnt);
            && (r.Done? ==> BlankEnd(s, r.pos) && NoBlank(s, r.pos) && NoBareCr(s, r.pos))
            && (r.Bad? ==> exists k | 0 <= k < |s| :: BareCr(s, k) && NoBlank(s, k + 1))
            && (r.More? ==> NoBlank(s, |s|) && !BlankEnd(s, |s|) && NoBareCr(s, |s|))
    decreases |s| - i
  {
    hide BlankEnd, NoBareCr;
    if i < |s| {
      SeenStep(s, i, cnt);
      if !IsLineEnd(s[i]) {
        CompleteFrom(s, i + 1, 0);
      } else if Eol(s, i).Done? {
        if cnt == 0 {
          CompleteFrom(s, Eol(s, i).pos, 1);
        }
      } else {
        StopAtCr(s, i, cnt);
      }
    }
  }

  lemma StopAtCr(s: seq<byte>, i: nat, cnt: nat)
    requires i < |s| && Seen(s, i, cnt) && s[i] == CR
    ensures NoBlank(s, i + 1)
    ensures i + 1 == |s| ==> !BlankEnd(s, |s|) && NoBareCr(s, |s|)
  {
  }

  /**
   From the start, the guard ends at `p` exactly when `p` is the first place behind two adjacent line ends and no
   carriage return stands alone before it.
   */
  lemma CompleteMeaning(s: seq<byte>, p: nat)
    requires p <= |s|
    ensures IsComplete(s, 0, 0) == Done(p, ()) <==> BlankEnd(s, p) && NoBlank(s, p) && NoBareCr(s, p)
  {
    CompleteFrom(s, 0, 0);
    var r := IsComplete(s, 0, 0);
    assert r.Done? ==> r.value == ();
  }

  /** It answers -1 exactly when a carriage return stands alone before any two adjacent line ends. */
  lemma CompleteError(s: seq<byte>)
    ensures IsComplete(s, 0, 0).Bad? <==> CrFirst(s)
  {
    CompleteFrom(s, 0, 0);
  }

  /** And it succeeds exactly when they come the other way round. */
  lemma CompleteFound(s: seq<byte>)
    ensures IsComplete(s, 0, 0).Done? <==> BlankFirst(s)
  {
    var r := IsComplete(s, 0, 0);
    if r.Done? {
      CompleteMeaning(s, r.pos);
      assert r.value == ();
    }
    if p :| 0 <= p <= |s| && BlankEnd(s, p) && NoBlank(s, p) && NoBareCr(s, p) {
      CompleteMeaning(s, p);
    }
  }

  /** It wants more exactly while there are neither. */
  lemma CompleteWaits(s: seq<byte>)
    ensures IsComplete(s, 0, 0).More? <==> NoBlank(s, |s|) && !BlankEnd(s, |s|) && NoBareCr(s, |s|)
  {
    hide IsComplete, BlankEnd, BareCr;
    assert Seen(s, 0, 0) by {
      SeenFirst(s);
    }
    CompleteFrom(s, 0, 0);
    var r := IsComplete(s, 0, 0);
    if r.Done? && r.pos < |s| {
      assert BlankEnd(s, r.pos);
    }
  }

  lemma SeenFirst(s: seq<byte>)
    ensures Seen(s, 0, 0)
  {
  }
}
