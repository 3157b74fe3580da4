/**
 The chunked coding of section 4.1 of RFC 7230, and exactly which of its encodings the decoder decodes.
 */
module RfcBodies {
  import opened Bytes
  import opened Chunked
  import opened ChunkedGrammar

  /** A chunk, with its size as it is written: in either case and with any number of leading zeros. */
  datatype RfcChunk = RfcChunk(size: seq<byte>, ext: seq<byte>, data: seq<byte>)

  /** A trailer is given line by line. */
  datatype RfcBody = RfcBody(chunks: seq<RfcChunk>, lastSize: seq<byte>, lastExt: seq<byte>, trailers: seq<seq<byte>>)

  // ---------- The grammar ----------

  // Digits and line ends are written out, and not taken from what the decoder tests for.

  const LINE_END: seq<byte> := "\r\n"
  const LOWER: seq<byte> := "0123456789abcdef"
  const UPPER: seq<byte> := "0123456789ABCDEF"

  /** `c` is the digit for `v`, in either case. */
  predicate IsDigitFor(c: byte, v: nat) {
    v < 16 && (c == LOWER[v] || c == UPPER[v])
  }

  /** `t` is `1*HEXDIG` and denotes `n`. */
  ghost predicate Denotes(t: seq<byte>, n: nat)
    decreases |t|
  {
    t != [] &&
    if |t| == 1 then IsDigitFor(t[0], n)
    else IsDigitFor(t[|t| - 1], n % 16) && Denotes(t[..|t| - 1], n / 16)
  }

  /** What the decoder makes of a digit is what it stands for, and it makes nothing of any other byte. */
  lemma DigitFor(c: byte, v: nat)
    ensures IsDigitFor(c, v) <==> IsHex(c) && DecodeHex(c) == v
  {
    assert LOWER[0] == '0' && LOWER[1] == '1' && LOWER[2] == '2' && LOWER[3] == '3' && LOWER[4] == '4';
    assert LOWER[5] == '5' && LOWER[6] == '6' && LOWER[7] == '7' && LOWER[8] == '8' && LOWER[9] == '9';
    assert LOWER[10] == 'a' && LOWER[11] == 'b' && LOWER[12] == 'c' && LOWER[13] == 'd' && LOWER[14] == 'e';
    assert LOWER[15] == 'f' && UPPER[15] == 'F';
    assert UPPER[0] == '0' && UPPER[1] == '1' && UPPER[2] == '2' && UPPER[3] == '3' && UPPER[4] == '4';
    assert UPPER[5] == '5' && UPPER[6] == '6' && UPPER[7] == '7' && UPPER[8] == '8' && UPPER[9] == '9';
    assert UPPER[10] == 'A' && UPPER[11] == 'B' && UPPER[12] == 'C' && UPPER[13] == 'D' && UPPER[14] == 'E';
  }

  /** A size is read as the number it denotes. */
  lemma {:induction false} SizeDenotes(t: seq<byte>, n: nat)
    ensures Denotes(t, n) <==> t != [] && AllOf(t, HexKind) && HexValue(0, t) == n
    decreases |t|
  {
    hide IsDigitFor, IsHex, DecodeHex;
    if |t| == 1 {
      DigitFor(t[0], n);
      assert t[1..] == [];
    } else if t != [] {
      var u, c := t[..|t| - 1], t[|t| - 1];
      assert t == u + [c];
      SizeDenotes(u, n / 16);
      DigitFor(c, n % 16);
      if AllOf(t, HexKind) {
        assert AllOf(u, HexKind) && Of(c, HexKind);
        HexValueSnoc(0, u, c);
        DigitFor(c, DecodeHex(c));
        assert (16 * HexValue(0, u) + DecodeHex(c)) / 16 == HexValue(0, u);
      }
      if Denotes(t, n) {
        assert n == 16 * (n / 16) + n % 16;
        assert forall m | 0 <= m < |t| :: Of(t[m], HexKind) by {
          forall m | 0 <= m < |t| ensures Of(t[m], HexKind) {
            assert m < |u| ==> t[m] == u[m];
          }
        }
      }
    }
  }

  lemma {:induction false} HexValueSnoc(left: nat, t: seq<byte>, c: byte)
    requires AllOf(t, HexKind) && IsHex(c)
    ensures AllOf(t + [c], HexKind) && HexValue(left, t + [c]) == 16 * HexValue(left, t) + DecodeHex(c)
    decreases |t|
  {
    hide DecodeHex;
    if t != [] {
      assert (t + [c])[1..] == t[1..] + [c];
      HexValueSnoc(left * 16 + DecodeHex(t[0]), t[1..], c);
    }
  }

  /** An extension starts with a semicolon; what is in it does not matter to the decoder. */
  predicate WfExt(ext: seq<byte>) {
    NoLf(ext) && (ext != [] ==> ext[0] == ';')
  }

  predicate NoLf(t: seq<byte>) {
    forall k | 0 <= k < |t| :: t[k] != '\n'
  }

  lemma NoLfIs(t: seq<byte>)
    ensures NoLf(t) <==> AllOf(t, NotLfKind)
  {
    if AllOf(t, NotLfKind) {
      forall k | 0 <= k < |t| ensures t[k] != '\n' {
        assert Of(t[k], NotLfKind);
      }
    }
  }

  ghost predicate WfRfcChunk(c: RfcChunk) {
    Denotes(c.size, |c.data|) && c.data != [] && WfExt(c.ext)
  }

  /** `1*("0")`. */
  predicate IsZeros(t: seq<byte>) {
    t != [] && forall k | 0 <= k < |t| :: t[k] == '0'
  }

  predicate WfRfcTrailer(t: seq<byte>) {
    t != [] && t[0] != '\r' && NoLf(t)
  }

  ghost predicate WfRfc(r: RfcBody) {
    && (forall c | c in r.chunks :: WfRfcChunk(c))
    && IsZeros(r.lastSize) && WfExt(r.lastExt)
    && (forall t | t in r.trailers :: WfRfcTrailer(t))
  }

  function PrintRfcChunks(cs: seq<RfcChunk>, tail: seq<byte>): seq<byte> {
    if cs == [] then tail
    else cs[0].size + (cs[0].ext + (LINE_END + (cs[0].data + (LINE_END + PrintRfcChunks(cs[1..], tail)))))
  }

  function PrintRfcTrailers(ts: seq<seq<byte>>, tail: seq<byte>): seq<byte> {
    if ts == [] then LINE_END + tail else ts[0] + (LINE_END + PrintRfcTrailers(ts[1..], tail))
  }

  /** The line of the last chunk and all that follows it. */
  function PrintLast(r: RfcBody, tail: seq<byte>): seq<byte> {
    r.lastSize + (r.lastExt + (LINE_END + PrintRfcTrailers(r.trailers, tail)))
  }

  function PrintRfc(r: RfcBody, tail: seq<byte>): seq<byte> {
    PrintRfcChunks(r.chunks, PrintLast(r, tail))
  }

  function RfcPayload(cs: seq<RfcChunk>): seq<byte> {
    if cs == [] then [] else cs[0].data + RfcPayload(cs[1..])
  }

  // ---------- How far the decoder reads ----------

  /** The chunks up to the first whose size has more than 16 digits. */
  function Readable(cs: seq<RfcChunk>): (r: seq<RfcChunk>)
    ensures r <= cs
  {
    if cs == [] || |cs[0].size| > 16 then [] else [cs[0]] + Readable(cs[1..])
  }

  /** No size is written with more than 16 digits. */
  predicate ShortSizes(r: RfcBody) {
    (forall c | c in r.chunks :: |c.size| <= 16) && |r.lastSize| <= 16
  }

  lemma {:induction false} ReadableAll(cs: seq<RfcChunk>)
    ensures Readable(cs) == cs <==> forall c | c in cs :: |c.size| <= 16
    decreases |cs|
  {
    if cs != [] {
      var t := cs[1..];
      ReadableAll(t);
      assert cs == [cs[0]] + t;
      if |cs[0].size| <= 16 {
        assert Readable(cs)[1..] == Readable(t);
      } else {
        assert cs[0] in cs;
      }
    }
  }

  lemma LineEndIs()
    ensures LINE_END == CRLF == [CR] + [LF]
  {
  }

  lemma CrLfSplit(t: seq<byte>, tail: seq<byte>)
    ensures t + (CRLF + tail) == (t + [CR]) + ([LF] + tail)
  {
  }

  /** The seventeenth digit of a size is an error. */
  lemma LongSize(consume: bool, size: seq<byte>, tail: seq<byte>)
    requires AllOf(size, HexKind) && |size| > MAX_HEX
    ensures var o := Run(Start(consume), size + tail); o.verdict.Error? && o.out == []
  {
    hide Run, HexValue, Pow16;
    var a, b := size[..MAX_HEX], size[MAX_HEX..];
    assert size + tail == a + (b + tail);
    SizeRun(Start(consume), a, b + tail);
    var d := Start(consume).(left := HexValue(0, a), hexCount := MAX_HEX);
    assert (b + tail)[0] == size[MAX_HEX];
    RunStep(d, b + tail);
  }

  lemma ToChunk(c: RfcChunk, rest: seq<byte>)
    requires WfRfcChunk(c) && |c.size| <= MAX_HEX
    ensures var d := Chunk(c.size, c.ext + [CR], c.data, 1);
            WfChunk(d) && PrintChunk(d, rest) == c.size + (c.ext + (LINE_END + (c.data + (LINE_END + rest))))
  {
    hide Denotes;
    LineEndIs();
    SizeDenotes(c.size, |c.data|);
    NoLfIs(c.ext);
    CrLfSplit([], rest);
    assert CRLF + rest == Crs(1) + ([LF] + rest);
    CrLfSplit(c.ext, c.data + (CRLF + rest));
  }

  /** Chunks are decoded to their data until one has too long a size. */
  lemma {:induction false} RfcChunksRun(consume: bool, cs: seq<RfcChunk>, tail: seq<byte>)
    requires forall c | c in cs :: WfRfcChunk(c)
    ensures var o := Run(Start(consume), PrintRfcChunks(cs, tail));
            if Readable(cs) == cs then o == Prepend(RfcPayload(cs), Run(Start(consume), tail))
            else o.verdict.Error? && o.out == RfcPayload(Readable(cs))
    decreases |cs|
  {
    hide Run, WfRfcChunk, PrintChunk, HexValue;
    if cs == [] {
      assert Prepend([], Run(Start(consume), tail)) == Run(Start(consume), tail);
    } else {
      var c, rest := cs[0], PrintRfcChunks(cs[1..], tail);
      assert c in cs;
      if |c.size| > MAX_HEX {
        HexSize(c);
        LongSize(consume, c.size, c.ext + (LINE_END + (c.data + (LINE_END + rest))));
      } else {
        ToChunk(c, rest);
        ChunkRun(consume, Chunk(c.size, c.ext + [CR], c.data, 1), rest);
        RfcChunksRun(consume, cs[1..], tail);
        assert Readable(cs) == [c] + Readable(cs[1..]) && cs == [c] + cs[1..];
        assert Readable(cs)[1..] == Readable(cs[1..]);
        PrependTwice(c.data, RfcPayload(cs[1..]), Run(Start(consume), tail));
      }
    }
  }

  lemma HexSize(c: RfcChunk)
    requires WfRfcChunk(c)
    ensures AllOf(c.size, HexKind)
  {
    hide Denotes;
    SizeDenotes(c.size, |c.data|);
  }

  // ---------- The last chunk and the trailer ----------

  lemma {:induction false} ZerosValue(t: seq<byte>)
    requires forall k | 0 <= k < |t| :: t[k] == '0'
    ensures AllOf(t, HexKind) && HexValue(0, t) == 0
    decreases |t|
  {
    if t != [] {
      DigitFor('0', 0);
      ZerosValue(t[1..]);
    }
  }

  function ToTrailers(ts: seq<seq<byte>>): seq<Trailer> {
    if ts == [] then [] else [Trailer(0, ts[0] + [CR])] + ToTrailers(ts[1..])
  }

  lemma RfcTrailerWf(t: seq<byte>)
    requires WfRfcTrailer(t)
    ensures WfTrailer(Trailer(0, t + [CR]))
  {
    NoLfIs(t);
  }

  lemma {:induction false} RfcTrailersPrint(ts: seq<seq<byte>>, tail: seq<byte>)
    requires forall t | t in ts :: WfRfcTrailer(t)
    ensures PrintRfcTrailers(ts, tail) == PrintTrailers(ToTrailers(ts), 1, tail)
    ensures forall t | t in ToTrailers(ts) :: WfTrailer(t)
    decreases |ts|
  {
    hide WfTrailer, AllOf, WfRfcTrailer;
    LineEndIs();
    if ts == [] {
      assert CRLF + tail == Crs(1) + ([LF] + tail);
    } else {
      assert ts[0] in ts;
      RfcTrailerWf(ts[0]);
      assert forall t | t in ts[1..] :: t in ts;
      RfcTrailersPrint(ts[1..], tail);
      var rest := PrintRfcTrailers(ts[1..], tail);
      CrLfSplit(ts[0], rest);
      assert ToTrailers(ts)[1..] == ToTrailers(ts[1..]);
      assert Crs(0) + ((ts[0] + [CR]) + ([LF] + rest)) == (ts[0] + [CR]) + ([LF] + rest);
    }
  }

  lemma LastRun(consume: bool, r: RfcBody, tail: seq<byte>)
    requires WfRfc(r)
    ensures var o := Run(Start(consume), PrintLast(r, tail));
            && o.out == []
            && (|r.lastSize| > MAX_HEX ==> o.verdict.Error?)
            && (|r.lastSize| <= MAX_HEX ==>
                  o.verdict.Complete? && o.rest == if consume then tail else PrintRfcTrailers(r.trailers, tail))
  {
    hide Run, PrintTrailers, PrintRfcTrailers, WfTrailer, WfRfcChunk, HexValue, ToTrailers, WfSizeLine;
    var rest := PrintRfcTrailers(r.trailers, tail);
    ZerosValue(r.lastSize);
    LineEndIs();
    if |r.lastSize| > MAX_HEX {
      LongSize(consume, r.lastSize, r.lastExt + (LINE_END + rest));
    } else {
      RfcTrailersPrint(r.trailers, tail);
      CrLfSplit(r.lastExt, rest);
      LastWf(r);
      SizeLineRun(consume, r.lastSize, r.lastExt + [CR], rest);
      if consume {
        TrailersRun(ToTrailers(r.trailers), 1, tail);
      }
    }
  }

  lemma LastWf(r: RfcBody)
    requires WfRfc(r) && |r.lastSize| <= MAX_HEX
    ensures WfSizeLine(r.lastSize, r.lastExt + [CR])
  {
    ZerosValue(r.lastSize);
    NoLfIs(r.lastExt);
  }

  // ---------- The theorem ----------

  /**
   An encoding of section 4.1, with anything after it and cut into any pieces, is decoded to its payload if and only if
   none of its sizes is written with more than 16 digits. What is left then is what follows the body; without
   `consume_trailer` it starts with the trailer and the line end that closes it. Any other encoding is an error, once
   the chunks before the first size that is too long have been decoded.
   */
  lemma RfcDecoded(r: RfcBody, consume: bool, tail: seq<byte>, pieces: seq<seq<byte>>)
    requires WfRfc(r) && Flatten(pieces) == PrintRfc(r, tail)
    ensures var o := Feed(Start(consume), pieces);
            && (o.verdict.Complete? <==> ShortSizes(r))
            && (o.verdict.Error? <==> !ShortSizes(r))
            && o.out == RfcPayload(Readable(r.chunks))
            && (ShortSizes(r) ==>
                  && Readable(r.chunks) == r.chunks
                  && o.rest == if consume then tail else PrintRfcTrailers(r.trailers, tail))
  {
    hide Run, Feed, Flatten, PrintRfcChunks, PrintLast, PrintRfcTrailers, RfcPayload, WfRfcChunk;
    FeedIsRun(Start(consume), pieces);
    ReadableAll(r.chunks);
    RfcChunksRun(consume, r.chunks, PrintLast(r, tail));
    LastRun(consume, r, tail);
    assert RfcPayload(r.chunks) + [] == RfcPayload(r.chunks);
  }

  /** Seventeen zeros and the line ends are an encoding of the empty body that is refused. */
  lemma SeventeenZeros(consume: bool)
    ensures var r := RfcBody([], seq(17, _ => '0'), [], []);
            WfRfc(r) && Run(Start(consume), PrintRfc(r, [])).verdict.Error?
  {
    hide Run;
    var r := RfcBody([], seq(17, _ => '0'), [], []);
    LastRun(consume, r, []);
  }

  // ---------- Every payload has such an encoding ----------

  /** A size without leading zeros; the bits of `mask` say which of its digits are written in upper case. */
  function HexText(n: nat, mask: nat): (t: seq<byte>)
    decreases n
  {
    var c := if mask % 2 == 1 then UPPER[n % 16] else LOWER[n % 16];
    if n < 16 then [c] else HexText(n / 16, mask / 2) + [c]
  }

  lemma {:induction false} HexTextDenotes(n: nat, mask: nat, k: nat)
    requires n < Pow16(k) && k > 0
    ensures Denotes(HexText(n, mask), n) && |HexText(n, mask)| <= k
    decreases n
  {
    if n >= 16 {
      assert Pow16(k) == 16 * Pow16(k - 1);
      assert k > 1 by {
        assert Pow16(0) == 1;
      }
      HexTextDenotes(n / 16, mask / 2, k - 1);
      var t := HexText(n, mask);
      assert t[..|t| - 1] == HexText(n / 16, mask / 2);
    }
  }

  lemma SizeLimit()
    ensures Pow16(MAX_HEX) == SIZE_LIMIT
  {
    assert Pow16(4) == 0x1_0000 && Pow16(8) == 0x1_0000_0000;
    assert Pow16(12) == 0x1_0000_0000_0000 && Pow16(16) == SIZE_LIMIT;
  }

  /** The pieces of a payload as chunks, with their sizes in lower, upper or mixed case. */
  function Encode(datas: seq<seq<byte>>, masks: seq<nat>): seq<RfcChunk>
    requires |masks| == |datas|
  {
    if datas == [] then [] else
    [RfcChunk(HexText(|datas[0]|, masks[0]), [], datas[0])] + Encode(datas[1..], masks[1..])
  }

  lemma {:induction false} EncodeWf(datas: seq<seq<byte>>, masks: seq<nat>)
    requires |masks| == |datas| && forall t | t in datas :: 0 < |t| < SIZE_LIMIT
    ensures var cs := Encode(datas, masks);
            (forall c | c in cs :: WfRfcChunk(c)) && Readable(cs) == cs && RfcPayload(cs) == Flatten(datas)
    decreases |datas|
  {
    hide HexText, Pow16, Denotes;
    if datas != [] {
      var t := datas[0];
      assert t in datas;
      EncodeWf(datas[1..], masks[1..]);
      SizeLimit();
      HexTextDenotes(|t|, masks[0], 16);
      assert Encode(datas, masks)[1..] == Encode(datas[1..], masks[1..]);
    }
  }

  /**
   A payload of any non-empty pieces of less than 2^64 bytes is encoded and decoded, however the encoding is cut and in
   whichever case its sizes are written.
   */
  lemma EncodeDecode(datas: seq<seq<byte>>, masks: seq<nat>, consume: bool, tail: seq<byte>, pieces: seq<seq<byte>>)
    requires |masks| == |datas| && forall t | t in datas :: 0 < |t| < SIZE_LIMIT
    requires Flatten(pieces) == PrintRfc(RfcBody(Encode(datas, masks), ['0'], [], []), tail)
    ensures var o := Feed(Start(consume), pieces); o.verdict.Complete? && o.out == Flatten(datas)
  {
    hide Feed, Flatten, PrintRfc, Encode, RfcPayload, WfRfcChunk;
    EncodeWf(datas, masks);
    ReadableAll(Encode(datas, masks));
    RfcDecoded(RfcBody(Encode(datas, masks), ['0'], [], []), consume, tail, pieces);
  }
}
