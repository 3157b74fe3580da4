/**
 Which texts the chunked decoder decodes, and to what: a grammar that is exact for it.
 */
module ChunkedGrammar {
  import opened Bytes
  import opened Chunked

  /** A chunk as the decoder reads it: any carriage returns may stand before the line feed after the data. */
  datatype Chunk = Chunk(size: seq<byte>, ext: seq<byte>, data: seq<byte>, crs: nat)

  /** A trailer line; its text starts with neither a carriage return nor a line feed. */
  datatype Trailer = Trailer(crs: nat, text: seq<byte>)

  datatype Body = Body(chunks: seq<Chunk>, lastSize: seq<byte>, lastExt: seq<byte>, trailers: seq<Trailer>, endCrs: nat)

  predicate WfSizeLine(size: seq<byte>, ext: seq<byte>) {
    && 1 <= |size| <= MAX_HEX && AllOf(size, HexKind)
    && AllOf(ext, NotLfKind) && (ext != [] ==> !IsHex(ext[0]))
  }

  predicate WfChunk(c: Chunk) {
    WfSizeLine(c.size, c.ext) && HexValue(0, c.size) == |c.data| && c.data != []
  }

  predicate WfTrailer(t: Trailer) {
    t.text != [] && t.text[0] != CR && AllOf(t.text, NotLfKind)
  }

  predicate WfBody(b: Body) {
    && (forall c | c in b.chunks :: WfChunk(c))
    && WfSizeLine(b.lastSize, b.lastExt) && HexValue(0, b.lastSize) == 0
    && (forall t | t in b.trailers :: WfTrailer(t))
  }

  function Crs(n: nat): (t: seq<byte>)
    ensures |t| == n && AllOf(t, CrKind)
  {
    seq(n, _ => CR)
  }

  // Every printer takes the text that follows.

  function PrintSizeLine(size: seq<byte>, ext: seq<byte>, tail: seq<byte>): seq<byte> {
    size + (ext + ([LF] + tail))
  }

  function PrintChunk(c: Chunk, tail: seq<byte>): seq<byte> {
    PrintSizeLine(c.size, c.ext, c.data + (Crs(c.crs) + ([LF] + tail)))
  }

  function PrintChunks(cs: seq<Chunk>, tail: seq<byte>): seq<byte> {
    if cs == [] then tail else PrintChunk(cs[0], PrintChunks(cs[1..], tail))
  }

  function PrintTrailer(t: Trailer, tail: seq<byte>): seq<byte> {
    Crs(t.crs) + (t.text + ([LF] + tail))
  }

  function PrintTrailers(ts: seq<Trailer>, endCrs: nat, tail: seq<byte>): seq<byte> {
    if ts == [] then Crs(endCrs) + ([LF] + tail) else PrintTrailer(ts[0], PrintTrailers(ts[1..], endCrs, tail))
  }

  function PrintBody(b: Body, consume: bool, tail: seq<byte>): seq<byte> {
    PrintChunks(b.chunks, PrintSizeLine(b.lastSize, b.lastExt,
                                        if consume then PrintTrailers(b.trailers, b.endCrs, tail) else tail))
  }

  function Payload(cs: seq<Chunk>): seq<byte> {
    if cs == [] then [] else cs[0].data + Payload(cs[1..])
  }

  function Start(consume: bool): (d: Decoder)
    ensures Valid(d)
  {
    START.(consumeTrailer := consume)
  }

  // ---------- Every such text is decoded ----------

  /** The state after a size line that says `v`. */
  function Opened(v: nat, consume: bool): Decoder {
    Decoder(v, 0, if v > 0 then InChunkData else if consume then InTrailersHead else InChunkExt, consume)
  }

  function AfterSizeLine(v: nat, consume: bool, tail: seq<byte>): Outcome {
    if v == 0 && !consume then Outcome(Opened(v, consume), [], tail, Complete) else Run(Opened(v, consume), tail)
  }

  lemma SizeLineRun(consume: bool, size: seq<byte>, ext: seq<byte>, tail: seq<byte>)
    requires WfSizeLine(size, ext)
    ensures Run(Start(consume), PrintSizeLine(size, ext, tail)) == AfterSizeLine(HexValue(0, size), consume, tail)
  {
    hide Run, HexValue, AllOf, Pow16;
    var rest := ext + ([LF] + tail);
    SizeRun(Start(consume), size, rest);
    var v := HexValue(0, size);
    var d := Start(consume).(left := v, hexCount := |size|);
    assert rest[0] == (if ext == [] then LF else ext[0]);
    SizeLeave(d, rest);
    var e := Settled(d);
    SkipRun(e, ext, [LF] + tail);
    ExtEnd(e, tail);
  }

  lemma SizeLeave(d: Decoder, s: seq<byte>)
    requires s != [] && d.state.InChunkSize? && d.hexCount > 0 && !IsHex(s[0])
    ensures Run(d, s) == Run(Settled(d), s)
  {
  }

  lemma ExtEnd(d: Decoder, tail: seq<byte>)
    requires d.state.InChunkExt? && d.hexCount == 0
    ensures Run(d, [LF] + tail) == AfterSizeLine(d.left, d.consumeTrailer, tail)
  {
    RunStep(d, [LF] + tail);
    assert ([LF] + tail)[1..] == tail;
    if d.left > 0 || d.consumeTrailer {
      SkipStep(d, [LF] + tail, Opened(d.left, d.consumeTrailer));
    }
  }

  lemma ChunkRun(consume: bool, c: Chunk, tail: seq<byte>)
    requires WfChunk(c)
    ensures Run(Start(consume), PrintChunk(c, tail)) == Prepend(c.data, Run(Start(consume), tail))
  {
    hide Run, HexValue, AllOf, Pow16, OnByte, WfSizeLine, PrintSizeLine;
    var rest := Crs(c.crs) + ([LF] + tail);
    SizeLineRun(consume, c.size, c.ext, c.data + rest);
    var d := Opened(|c.data|, consume);
    DataRun(d, c.data, rest);
    CrlfRun(AfterData(d, |c.data|), c.crs, tail);
  }

  lemma CrlfRun(d: Decoder, n: nat, tail: seq<byte>)
    requires d.state.InChunkCrlf?
    ensures Run(d, Crs(n) + ([LF] + tail)) == Run(d.(state := InChunkSize), tail)
  {
    hide Run, Crs;
    SkipRun(d, Crs(n), [LF] + tail);
    SkipStep(d, [LF] + tail, d.(state := InChunkSize));
    assert ([LF] + tail)[1..] == tail;
  }

  lemma {:induction false} ChunksRun(consume: bool, cs: seq<Chunk>, tail: seq<byte>)
    requires forall c | c in cs :: WfChunk(c)
    ensures Run(Start(consume), PrintChunks(cs, tail)) == Prepend(Payload(cs), Run(Start(consume), tail))
    decreases |cs|
  {
    hide Run, WfChunk, PrintChunk;
    if cs == [] {
      assert Prepend([], Run(Start(consume), tail)) == Run(Start(consume), tail);
    } else {
      ChunkRun(consume, cs[0], PrintChunks(cs[1..], tail));
      ChunksRun(consume, cs[1..], tail);
      PrependTwice(cs[0].data, Payload(cs[1..]), Run(Start(consume), tail));
    }
  }

  const TRAILERS := Opened(0, true)

  lemma {:induction false} TrailersRun(ts: seq<Trailer>, endCrs: nat, tail: seq<byte>)
    requires forall t | t in ts :: WfTrailer(t)
    ensures Run(TRAILERS, PrintTrailers(ts, endCrs, tail)) == Outcome(TRAILERS, [], tail, Complete)
    decreases |ts|
  {
    hide Run, Crs, WfTrailer, PrintTrailer;
    if ts == [] {
      SkipRun(TRAILERS, Crs(endCrs), [LF] + tail);
      RunStep(TRAILERS, [LF] + tail);
      assert ([LF] + tail)[1..] == tail;
    } else {
      TrailerRun(ts[0], PrintTrailers(ts[1..], endCrs, tail));
      TrailersRun(ts[1..], endCrs, tail);
    }
  }

  lemma TrailerRun(t: Trailer, tail: seq<byte>)
    requires WfTrailer(t)
    ensures Run(TRAILERS, PrintTrailer(t, tail)) == Run(TRAILERS, tail)
  {
    hide Run, Crs;
    var mid := TRAILERS.(state := InTrailersMiddle);
    var line := t.text + ([LF] + tail);
    SkipRun(TRAILERS, Crs(t.crs), line);
    assert line[0] == t.text[0] && line[1..] == t.text[1..] + ([LF] + tail);
    SkipStep(TRAILERS, line, mid);
    SkipRun(mid, t.text[1..], [LF] + tail);
    SkipStep(mid, [LF] + tail, TRAILERS);
    assert ([LF] + tail)[1..] == tail;
  }

  /** Every printed body is decoded to its payload, and exactly the bytes after it are left. */
  lemma BodyComplete(b: Body, consume: bool, tail: seq<byte>)
    requires WfBody(b)
    ensures Run(Start(consume), PrintBody(b, consume, tail))
         == Outcome(Opened(0, consume), Payload(b.chunks), tail, Complete)
  {
    hide Run, PrintChunks, PrintSizeLine, PrintTrailers, Payload, WfSizeLine, HexValue, WfChunk, WfTrailer;
    var rest := if consume then PrintTrailers(b.trailers, b.endCrs, tail) else tail;
    ChunksRun(consume, b.chunks, PrintSizeLine(b.lastSize, b.lastExt, rest));
    SizeLineRun(consume, b.lastSize, b.lastExt, rest);
    if consume {
      TrailersRun(b.trailers, b.endCrs, tail);
    }
    assert Payload(b.chunks) + [] == Payload(b.chunks);
  }

  // ---------- Nothing else is ----------

  /** How many bytes of a kind `s` starts with. */
  function Lead(s: seq<byte>, k: Kind): (n: nat)
    ensures n <= |s| && AllOf(s[..n], k)
    ensures n < |s| ==> !Of(s[n], k)
    decreases |s|
  {
    if s == [] || !Of(s[0], k) then 0 else
    var n := 1 + Lead(s[1..], k);
    assert s[..n] == [s[0]] + s[1..][..n - 1];
    n
  }

  /** Splits `s` after the leading bytes of a kind and the line feed that follows them. */
  lemma SplitLine(s: seq<byte>, k: Kind) returns (t: seq<byte>, rest: seq<byte>)
    requires Lead(s, k) < |s| && s[Lead(s, k)] == LF
    ensures s == t + ([LF] + rest) && |t| == Lead(s, k) && AllOf(t, k)
  {
    var n := Lead(s, k);
    t, rest := s[..n], s[n + 1..];
  }

  lemma SizeLineSound(consume: bool, s: seq<byte>) returns (size: seq<byte>, ext: seq<byte>, tail: seq<byte>)
    requires Run(Start(consume), s).verdict.Complete?
    ensures WfSizeLine(size, ext) && s == PrintSizeLine(size, ext, tail)
  {
    hide Run, HexValue, Pow16;
    var n := SizeLength(consume, s);
    size := s[..n];
    var rest := s[n..];
    assert s == size + rest;
    SizeRun(Start(consume), size, rest);
    var d := Start(consume).(left := HexValue(0, size), hexCount := n);
    SizeLeave(d, rest);
    var e := Lead(rest, NotLfKind);
    SkipRun(Settled(d), rest[..e], rest[e..]);
    assert rest == rest[..e] + rest[e..];
    if e == |rest| {
      EmptyRun(Settled(d));
    }
    ext, tail := SplitLine(rest, NotLfKind);
    assert ext != [] ==> ext[0] == rest[0];
  }

  lemma SizeLength(consume: bool, s: seq<byte>) returns (n: nat)
    requires Run(Start(consume), s).verdict.Complete?
    ensures n == Lead(s, HexKind) && 1 <= n <= MAX_HEX && n < |s|
  {
    hide Run, HexValue, Pow16;
    n := Lead(s, HexKind);
    var m := if n > MAX_HEX then MAX_HEX else n;
    assert AllOf(s[..m], HexKind) by {
      assert s[..m] == s[..n][..m];
    }
    SizeRun(Start(consume), s[..m], s[m..]);
    assert s == s[..m] + s[m..];
    var d := Start(consume).(left := HexValue(0, s[..m]), hexCount := m);
    if m == |s| {
      EmptyRun(d);
    } else if n == 0 || n > MAX_HEX {
      assert s[m] == s[m..][0];
      assert n > MAX_HEX ==> s[m] == s[..n][m];
      RunStep(d, s[m..]);
    }
  }

  lemma DataSound(d: Decoder, s: seq<byte>) returns (data: seq<byte>, crs: nat, tail: seq<byte>)
    requires d.state.InChunkData? && d.left > 0 && Run(d, s).verdict.Complete?
    ensures |data| == d.left && s == data + (Crs(crs) + ([LF] + tail))
  {
    hide Run;
    var n := if d.left < |s| then d.left else |s|;
    data := s[..n];
    var rest := s[n..];
    assert s == data + rest;
    DataRun(d, data, rest);
    if n == |s| {
      EmptyRun(AfterData(d, n));
    }
    var e := AfterData(d, n);
    var m := Lead(rest, CrKind);
    SkipRun(e, rest[..m], rest[m..]);
    assert rest == rest[..m] + rest[m..];
    if m == |rest| {
      EmptyRun(e);
    } else {
      RunStep(e, rest[m..]);
    }
    var t;
    t, tail := SplitLine(rest, CrKind);
    crs := m;
    assert t == Crs(crs);
  }

  lemma {:induction false} TrailersSound(s: seq<byte>) returns (ts: seq<Trailer>, endCrs: nat, tail: seq<byte>)
    requires Run(TRAILERS, s).verdict.Complete?
    ensures (forall t | t in ts :: WfTrailer(t)) && s == PrintTrailers(ts, endCrs, tail)
    decreases |s|
  {
    hide Run, Crs;
    var m := Lead(s, CrKind);
    SkipRun(TRAILERS, s[..m], s[m..]);
    assert s == s[..m] + s[m..];
    if m == |s| {
      EmptyRun(TRAILERS);
    }
    CrsText(s[..m]);
    if s[m] == LF {
      var t;
      t, tail := SplitLine(s, CrKind);
      ts, endCrs := [], m;
      CrsText(t);
    } else {
      var text, rest := TrailerSound(s[m..]);
      var t := Trailer(m, text);
      assert s == PrintTrailer(t, rest);
      TrailerRun(t, rest);
      var us;
      us, endCrs, tail := TrailersSound(rest);
      ts := [t] + us;
      assert ts[1..] == us;
    }
  }

  lemma CrsText(t: seq<byte>)
    requires AllOf(t, CrKind)
    ensures t == Crs(|t|)
  {
  }

  lemma TrailerSound(s: seq<byte>) returns (text: seq<byte>, rest: seq<byte>)
    requires s != [] && s[0] != CR && s[0] != LF && Run(TRAILERS, s).verdict.Complete?
    ensures WfTrailer(Trailer(0, text)) && s == text + ([LF] + rest)
  {
    hide Run;
    var mid := TRAILERS.(state := InTrailersMiddle);
    SkipStep(TRAILERS, s, mid);
    var n := Lead(s, NotLfKind);
    assert AllOf(s[1..n], NotLfKind) by {
      assert s[1..n] == s[..n][1..];
    }
    assert s[1..] == s[1..n] + s[n..];
    SkipRun(mid, s[1..n], s[n..]);
    if n == |s| {
      EmptyRun(mid);
    }
    text, rest := SplitLine(s, NotLfKind);
    assert text[0] == s[0];
  }

  /** Whatever is decoded to the end is a printed body with something after it. */
  lemma {:induction false} BodySound(consume: bool, s: seq<byte>) returns (b: Body, tail: seq<byte>)
    requires Run(Start(consume), s).verdict.Complete?
    ensures WfBody(b) && s == PrintBody(b, consume, tail)
    decreases |s|
  {
    hide Run, PrintSizeLine, HexValue, WfTrailer, PrintTrailers, Crs, Pow16, OnByte, AllOf;
    var size, ext, rest := SizeLineSound(consume, s);
    SizeLineRun(consume, size, ext, rest);
    var v := HexValue(0, size);
    if v == 0 {
      var ts, endCrs := [], 0;
      tail := rest;
      if consume {
        ts, endCrs, tail := TrailersSound(rest);
      }
      b := Body([], size, ext, ts, endCrs);
    } else {
      var data, crs, more := DataSound(Opened(v, consume), rest);
      var c := Chunk(size, ext, data, crs);
      ChunkRun(consume, c, more);
      ChunkLonger(c, more);
      var b1;
      b1, tail := BodySound(consume, more);
      b := b1.(chunks := [c] + b1.chunks);
      assert b.chunks[1..] == b1.chunks;
    }
  }

  lemma ChunkLonger(c: Chunk, tail: seq<byte>)
    ensures |tail| < |PrintChunk(c, tail)|
  {
  }

  // ---------- The meaning of the verdicts ----------

  /** Bytes that complete a body from any state. */
  lemma Completable(d: Decoder) returns (t: seq<byte>)
    requires Valid(d)
    ensures Run(d, t).verdict.Complete?
  {
    hide Run, Pow16, PrintBody;
    SettledValid(d);
    match d.state
    case InTrailersHead =>
      t := [LF];
      LastLine(d);
    case InTrailersMiddle =>
      LastLine(d.(state := InTrailersHead));
      t := [LF] + [LF];
      LineFeed(d, d.(state := InTrailersHead), [LF]);
    case InChunkCrlf =>
      t := CompleteStart(d.(state := InChunkSize));
      LineFeed(d, d.(state := InChunkSize), t);
      t := [LF] + t;
    case InChunkData => t := CompleteData(d);
    case InChunkExt => t := CompleteExt(d);
    case InChunkSize =>
      if d.hexCount == 0 {
        t := CompleteStart(d);
      } else {
        t := CompleteExt(Settled(d));
        assert t[0] == LF;
        SizeLeave(d, t);
      }
  }

  lemma LineFeed(d: Decoder, e: Decoder, t: seq<byte>)
    requires OnByte(d, LF) == Next(e, [])
    ensures Run(d, [LF] + t) == Run(e, t)
  {
    hide Run;
    SkipStep(d, [LF] + t, e);
    assert ([LF] + t)[1..] == t;
  }

  lemma LastLine(d: Decoder)
    requires d.state.InTrailersHead?
    ensures Run(d, [LF]).verdict.Complete?
  {
  }

  lemma CompleteStart(d: Decoder) returns (t: seq<byte>)
    requires d.state.InChunkSize? && d.hexCount == 0 && Valid(d)
    ensures Run(d, t).verdict.Complete?
  {
    var b := Body([], ['0'], [], [], 0);
    assert HexValue(0, ['0']) == 0;
    BodyComplete(b, d.consumeTrailer, []);
    t := PrintBody(b, d.consumeTrailer, []);
  }

  lemma CompleteData(d: Decoder) returns (t: seq<byte>)
    requires d.state.InChunkData? && Valid(d)
    ensures Run(d, t).verdict.Complete?
  {
    hide Run, OnByte, Pow16;
    var data: seq<byte> := seq(d.left, _ => '0');
    var e := AfterData(d, d.left);
    t := CompleteStart(e.(state := InChunkSize));
    CrlfRun(e, 0, t);
    DataRun(d, data, Crs(0) + ([LF] + t));
    t := data + (Crs(0) + ([LF] + t));
  }

  lemma CompleteExt(d: Decoder) returns (t: seq<byte>)
    requires d.state.InChunkExt? && Valid(d)
    ensures t != [] && t[0] == LF && Run(d, t).verdict.Complete?
  {
    hide Run, OnByte, Pow16;
    t := [];
    if d.left > 0 {
      t := CompleteData(Opened(d.left, d.consumeTrailer));
    } else if d.consumeTrailer {
      LastLine(Opened(0, true));
      t := [LF];
    }
    ExtEnd(d, t);
    t := [LF] + t;
  }

  /**
   A body is answered to be complete exactly when a printed body stands at the front; incomplete exactly when it is
   not but some continuation of the bytes is; wrong, therefore, exactly when no continuation ever will be.
   */
  lemma DecodeVerdictMeaning(consume: bool, s: seq<byte>)
    ensures var v := Run(Start(consume), s).verdict;
            && (v.Complete? <==> exists b, tail :: WfBody(b) && s == PrintBody(b, consume, tail))
            && (v.Error? <==> forall b, t, tail | WfBody(b) :: s + t != PrintBody(b, consume, tail))
  {
    hide Run, WfBody, PrintBody, Valid;
    var r := Run(Start(consume), s);
    if r.verdict.Complete? {
      var b, tail := BodySound(consume, s);
      assert s + [] == PrintBody(b, consume, tail);
    }
    forall b, t, tail | WfBody(b) && s + t == PrintBody(b, consume, tail)
      ensures !r.verdict.Error?
    {
      BodyComplete(b, consume, tail);
      RunConcat(Start(consume), s, t);
    }
    forall b, tail | WfBody(b) && s == PrintBody(b, consume, tail)
      ensures r.verdict.Complete?
    {
      BodyComplete(b, consume, tail);
    }
    if r.verdict.Incomplete? {
      RunValid(Start(consume), s);
      var t := Completable(r.d);
      RunConcat(Start(consume), s, t);
      var b, tail := BodySound(consume, s + t);
      assert s + t == PrintBody(b, consume, tail);
    }
  }
}
