/**
 `phr_decode_chunked`: the switch over the decoder's state, working in place on the caller's array, proved to
 compute one `Chunked.Run`.
 */
module ChunkedDecoding {
  import opened Bytes
  import opened Chunked

  /** How a case of the switch is left: by `goto Exit` or `goto Complete`, by `break`, or into the next case. */
  datatype Leave = Stop(verdict: Verdict) | Break | FallThrough

  /**
   What is left to do on `s` in state `d` is to output `out`, and then, unless the call ends here, what is left to do
   on `t` in state `e`.
   */
  ghost predicate Leads(l: Leave, d: Decoder, s: seq<byte>, out: seq<byte>, e: Decoder, t: seq<byte>) {
    Run(d, s) == if l.Stop? then Outcome(e, out, t, l.verdict) else Prepend(out, Run(e, t))
  }

  lemma LeadsStart(d: Decoder, s: seq<byte>)
    ensures Leads(Break, d, s, [], d, s)
  {
    assert Prepend([], Run(d, s)) == Run(d, s);
  }

  lemma LeadsEnd(l: Leave, d: Decoder, s: seq<byte>, out: seq<byte>, e: Decoder, t: seq<byte>)
    requires l.Stop? && Leads(l, d, s, out, e, t)
    ensures Run(d, s) == Outcome(e, out, t, l.verdict)
  {
  }

  lemma LeadsAs(k: Leave, l: Leave, d: Decoder, s: seq<byte>, out: seq<byte>, e: Decoder, t: seq<byte>)
    requires !k.Stop? && !l.Stop? && Leads(k, d, s, out, e, t)
    ensures Leads(l, d, s, out, e, t)
  {
  }

  lemma LeadsOn(k: Leave, l: Leave, d: Decoder, s: seq<byte>, a: seq<byte>, e: Decoder, t: seq<byte>,
                b: seq<byte>, f: Decoder, u: seq<byte>)
    requires !k.Stop? && Leads(k, d, s, a, e, t) && Leads(l, e, t, b, f, u)
    ensures Leads(l, d, s, a + b, f, u)
  {
    PrependTwice(a, b, Run(f, u));
  }

  /** A case that outputs nothing. */
  ghost predicate Skips(l: Leave, d: Decoder, s: seq<byte>, e: Decoder, t: seq<byte>) {
    Run(d, s) == if l.Stop? then Outcome(e, [], t, l.verdict) else Run(e, t)
  }

  lemma SkipsOn(k: Leave, l: Leave, d: Decoder, s: seq<byte>, a: seq<byte>, e: Decoder, t: seq<byte>, f: Decoder,
                u: seq<byte>)
    requires !k.Stop? && Leads(k, d, s, a, e, t) && Skips(l, e, t, f, u)
    ensures Leads(l, d, s, a, f, u)
  {
    assert Prepend([], Run(f, u)) == Run(f, u);
    assert a + [] == a;
    LeadsOn(k, l, d, s, a, e, t, [], f, u);
  }

  /** `memmove(buf + to, buf + from, n)`. */
  method MemMove(buf: array<byte>, to: nat, from: nat, n: nat)
    requires to <= from && from + n <= buf.Length
    modifies buf
    ensures buf[to..to + n] == old(buf[from..from + n])
    ensures buf[..to] == old(buf[..to])
    ensures buf[to + n..] == old(buf[to + n..])
  {
    forall i | 0 <= i < n {
      buf[to + i] := buf[from + i];
    }
  }

  /** Moves `n` bytes down to `dst`, unless they are there; what comes after them stays. */
  method Compact(buf: array<byte>, dst: nat, src: nat, n: nat)
    requires dst <= src && src + n <= buf.Length
    modifies buf
    ensures buf[..dst + n] == old(buf[..dst]) + old(buf[src..src + n])
    ensures buf[src + n..] == old(buf[src + n..])
  {
    if dst != src {
      MemMove(buf, dst, src, n);
    }
    assert buf[..dst + n] == buf[..dst] + buf[dst..dst + n];
    assert buf[src + n..] == buf[dst + n..][src - dst..];
    assert old(buf[src + n..]) == old(buf[dst + n..])[src - dst..];
  }

  class ChunkedDecoder {
    var bytesLeftInChunk: nat
    var consumeTrailer: bool
    var hexCount: nat
    var state: State

    function View(): Decoder
      reads this
    {
      Decoder(bytesLeftInChunk, hexCount, state, consumeTrailer)
    }

    /** A zero-filled decoder. */
    constructor (consumeTrailer: bool)
      ensures View() == START.(consumeTrailer := consumeTrailer) && Valid(View())
    {
      this.bytesLeftInChunk, this.hexCount, this.state, this.consumeTrailer := 0, 0, InChunkSize, consumeTrailer;
    }

    method ChunkSize(buf: array<byte>, bufsz: nat, src0: nat) returns (src: nat, l: Leave)
      requires src0 <= bufsz <= buf.Length && state.InChunkSize? && Valid(View())
      modifies this
      ensures src0 <= src <= bufsz && Valid(View()) && (l.Stop? || (l.FallThrough? && state.InChunkExt?))
      ensures Skips(l, old(View()), buf[src0..bufsz], View(), buf[src..bufsz])
    {
      hide Run, OnByte, Pow16, DecodeHex, IsHex;
      src := src0;
      while true
        invariant src0 <= src <= bufsz && state.InChunkSize? && Valid(View())
        invariant Run(old(View()), buf[src0..bufsz]) == Run(View(), buf[src..bufsz])
        decreases bufsz - src
      {
        ghost var s := buf[src..bufsz];
        if src == bufsz {
          EmptyRun(View());
          return src, Stop(Incomplete);
        }
        SizeStep(View(), s);
        var v := DecodeHex(buf[src]);
        if v == -1 {
          if hexCount == 0 {
            return src, Stop(Error);
          }
          break;
        }
        if hexCount == MAX_HEX {
          return src, Stop(Error);
        }
        bytesLeftInChunk := bytesLeftInChunk * 16 + v;
        hexCount := hexCount + 1;
        src := src + 1;
        assert s[1..] == buf[src..bufsz];
      }
      hexCount := 0;
      state := InChunkExt;
      l := FallThrough;
    }

    method ChunkExt(buf: array<byte>, bufsz: nat, src0: nat) returns (src: nat, l: Leave)
      requires src0 <= bufsz <= buf.Length && state.InChunkExt? && Valid(View())
      modifies this
      ensures src0 <= src <= bufsz && Valid(View()) && (!l.Stop? ==> src0 < src)
      ensures l.FallThrough? ==> state.InChunkData?
      ensures l.Break? ==> state.InTrailersHead?
      ensures Skips(l, old(View()), buf[src0..bufsz], View(), buf[src..bufsz])
    {
      hide Run, Pow16, DecodeHex, IsHex;
      src := src0;
      while true
        invariant src0 <= src <= bufsz && View() == old(View())
        invariant Run(old(View()), buf[src0..bufsz]) == Run(View(), buf[src..bufsz])
        decreases bufsz - src
      {
        if src == bufsz {
          EmptyRun(View());
          return src, Stop(Incomplete);
        }
        if buf[src] == LF {
          break;
        }
        SkipStep(View(), buf[src..bufsz], View());
        assert buf[src..bufsz][1..] == buf[src + 1..bufsz];
        src := src + 1;
      }
      ghost var d, s := View(), buf[src..bufsz];
      RunStep(d, s);
      src := src + 1;
      assert s[1..] == buf[src..bufsz];
      if bytesLeftInChunk == 0 {
        if consumeTrailer {
          state := InTrailersHead;
          SkipStep(d, s, View());
          return src, Break;
        } else {
          return src, Stop(Complete);
        }
      }
      state := InChunkData;
      SkipStep(d, s, View());
      return src, FallThrough;
    }

    method ChunkData(buf: array<byte>, bufsz: nat, src0: nat, dst0: nat) returns (src: nat, dst: nat, l: Leave)
      requires dst0 <= src0 <= bufsz <= buf.Length && state.InChunkData? && Valid(View())
      modifies this, buf
      ensures src0 <= src <= bufsz && dst - dst0 == src - src0 && Valid(View())
      ensures buf[..dst] == old(buf[..dst0]) + old(buf[src0..src]) && buf[src..] == old(buf[src..])
      ensures l == Stop(Incomplete) || (l.FallThrough? && state.InChunkCrlf? && src0 < src)
      ensures Leads(l, old(View()), old(buf[src0..bufsz]), old(buf[src0..src]), View(), buf[src..bufsz])
    {
      hide OnByte, Pow16, Run;
      var avail := bufsz - src0;
      var short := avail < bytesLeftInChunk;
      var n := if short then avail else bytesLeftInChunk;
      ghost var d, data, rest := View(), buf[src0..src0 + n], buf[src0 + n..bufsz];
      assert buf[src0..bufsz] == data + rest;
      DataRun(d, data, rest);
      Compact(buf, dst0, src0, n);
      src, dst := src0 + n, dst0 + n;
      assert buf[src..bufsz] == buf[src..][..bufsz - src] == rest;
      bytesLeftInChunk := bytesLeftInChunk - n;
      if short {
        EmptyRun(View());
        assert rest == [] && data + [] == data;
        return src, dst, Stop(Incomplete);
      }
      state := InChunkCrlf;
      return src, dst, FallThrough;
    }

    method ChunkCrlf(buf: array<byte>, bufsz: nat, src0: nat) returns (src: nat, l: Leave)
      requires src0 <= bufsz <= buf.Length && state.InChunkCrlf? && Valid(View())
      modifies this
      ensures src0 <= src <= bufsz && Valid(View()) && (l.Stop? || (l.Break? && src0 < src))
      ensures Skips(l, old(View()), buf[src0..bufsz], View(), buf[src..bufsz])
    {
      hide Run, Pow16, DecodeHex, IsHex;
      src := src0;
      while true
        invariant src0 <= src <= bufsz && View() == old(View())
        invariant Run(old(View()), buf[src0..bufsz]) == Run(View(), buf[src..bufsz])
        decreases bufsz - src
      {
        if src == bufsz {
          EmptyRun(View());
          return src, Stop(Incomplete);
        }
        if buf[src] != CR {
          break;
        }
        SkipStep(View(), buf[src..bufsz], View());
        assert buf[src..bufsz][1..] == buf[src + 1..bufsz];
        src := src + 1;
      }
      ghost var d, s := View(), buf[src..bufsz];
      RunStep(d, s);
      if buf[src] != LF {
        return src, Stop(Error);
      }
      src := src + 1;
      state := InChunkSize;
      SkipStep(d, s, View());
      assert s[1..] == buf[src..bufsz];
      return src, Break;
    }

    method TrailersHead(buf: array<byte>, bufsz: nat, src0: nat) returns (src: nat, l: Leave)
      requires src0 <= bufsz <= buf.Length && state.InTrailersHead? && Valid(View())
      modifies this
      ensures src0 <= src <= bufsz && Valid(View())
      ensures l.Stop? || (l.FallThrough? && state.InTrailersMiddle? && src0 < src)
      ensures Skips(l, old(View()), buf[src0..bufsz], View(), buf[src..bufsz])
    {
      hide Run, Pow16, DecodeHex, IsHex;
      src := src0;
      while true
        invariant src0 <= src <= bufsz && View() == old(View())
        invariant Run(old(View()), buf[src0..bufsz]) == Run(View(), buf[src..bufsz])
        decreases bufsz - src
      {
        if src == bufsz {
          EmptyRun(View());
          return src, Stop(Incomplete);
        }
        if buf[src] != CR {
          break;
        }
        SkipStep(View(), buf[src..bufsz], View());
        assert buf[src..bufsz][1..] == buf[src + 1..bufsz];
        src := src + 1;
      }
      ghost var d, s := View(), buf[src..bufsz];
      RunStep(d, s);
      src := src + 1;
      assert s[1..] == buf[src..bufsz];
      if buf[src - 1] == LF {
        return src, Stop(Complete);
      }
      state := InTrailersMiddle;
      SkipStep(d, s, View());
      return src, FallThrough;
    }

    method TrailersMiddle(buf: array<byte>, bufsz: nat, src0: nat) returns (src: nat, l: Leave)
      requires src0 <= bufsz <= buf.Length && state.InTrailersMiddle? && Valid(View())
      modifies this
      ensures src0 <= src <= bufsz && Valid(View()) && (l.Stop? || (l.Break? && src0 < src))
      ensures Skips(l, old(View()), buf[src0..bufsz], View(), buf[src..bufsz])
    {
      hide Run, Pow16, DecodeHex, IsHex;
      src := src0;
      while true
        invariant src0 <= src <= bufsz && View() == old(View())
        invariant Run(old(View()), buf[src0..bufsz]) == Run(View(), buf[src..bufsz])
        decreases bufsz - src
      {
        if src == bufsz {
          EmptyRun(View());
          return src, Stop(Incomplete);
        }
        if buf[src] == LF {
          break;
        }
        SkipStep(View(), buf[src..bufsz], View());
        assert buf[src..bufsz][1..] == buf[src + 1..bufsz];
        src := src + 1;
      }
      ghost var d, s := View(), buf[src..bufsz];
      src := src + 1;
      state := InTrailersHead;
      SkipStep(d, s, View());
      assert s[1..] == buf[src..bufsz];
      return src, Break;
    }

    /**
     `phr_decode_chunked(decoder, buf, &bufsz)`: the return value, the decoder, the new size, and the buffer, which
     holds the decoded bytes, then the undecoded ones, and beyond `bufsz` what it held before.
     */
    method Decode(buf: array<byte>, bufsz: nat) returns (ret: int, size: nat)
      requires bufsz <= buf.Length && Valid(View())
      modifies this, buf
      ensures Valid(View())
      ensures var r := Run(old(View()), old(buf[..bufsz]));
              && View() == r.d && size == |r.out| && size + |r.rest| <= bufsz
              && buf[..size] == r.out && buf[size..size + |r.rest|] == r.rest
              && ret == match r.verdict case Incomplete => -2 case Error => -1 case Complete => |r.rest|
      ensures buf[bufsz..] == old(buf[bufsz..])
    {
      hide Run, OnByte, Valid, Leads, Prepend;
      ghost var d0, input := View(), buf[..bufsz];
      var dst, src := 0, 0;
      var l := Break;
      LeadsStart(d0, input);
      assert input == buf[0..bufsz] && buf[..0] == [];
      while !l.Stop?
        invariant 0 <= dst <= src <= bufsz && Valid(View()) && !l.FallThrough?
        invariant Leads(l, d0, input, buf[..dst], View(), buf[src..bufsz])
        invariant buf[bufsz..] == old(buf[bufsz..])
        decreases bufsz - src, !l.Stop?
      {
        src, dst, l := Round(buf, bufsz, src, dst, d0, input, l);
      }
      ghost var rest := buf[src..bufsz];
      LeadsEnd(l, d0, input, buf[..dst], View(), rest);
      ret := match l.verdict case Incomplete => -2 case Error => -1 case Complete => bufsz - src;
      if dst != src {
        MemMove(buf, dst, src, bufsz - src);
        assert buf[bufsz..] == buf[dst + (bufsz - src)..][src - dst..];
      }
      size := dst;
    }

    /** One round of the loop: the case of the current state and those it falls through to. */
    method Round(buf: array<byte>, bufsz: nat, src0: nat, dst0: nat, ghost d0: Decoder, ghost input: seq<byte>,
                 ghost l0: Leave)
      returns (src: nat, dst: nat, l: Leave)
      requires dst0 <= src0 <= bufsz <= buf.Length && Valid(View()) && !l0.Stop?
      requires Leads(l0, d0, input, buf[..dst0], View(), buf[src0..bufsz])
      modifies this, buf
      ensures src0 <= src <= bufsz && dst <= src && Valid(View())
      ensures l.Stop? || (l.Break? && src0 < src)
      ensures Leads(l, d0, input, buf[..dst], View(), buf[src..bufsz])
      ensures buf[bufsz..] == old(buf[bufsz..])
    {
      hide Run, OnByte, Valid, Leads, Prepend, Skips;
      src, dst := src0, dst0;
      if state.InTrailersHead? || state.InTrailersMiddle? {
        src, l := Trailers(buf, bufsz, src, dst, d0, input, l0);
        return;
      }
      src, l := ChunkHead(buf, bufsz, src, dst, d0, input, l0);
      if l.FallThrough? && state.InChunkData? {
        ghost var k, d, s, before, src1 := l, View(), buf[src..bufsz], buf[..dst], src;
        src, dst, l := ChunkData(buf, bufsz, src, dst);
        LeadsOn(k, l, d0, input, before, d, s, old(buf[src1..src]), View(), buf[src..bufsz]);
        assert buf[bufsz..] == buf[src..][bufsz - src..];
        assert old(buf[bufsz..]) == old(buf[src..])[bufsz - src..];
      }
      if l.FallThrough? {
        ghost var k, d, s := l, View(), buf[src..bufsz];
        src, l := ChunkCrlf(buf, bufsz, src);
        SkipsOn(k, l, d0, input, buf[..dst], d, s, View(), buf[src..bufsz]);
      }
    }

    /** The cases of the chunk's first line. */
    method ChunkHead(buf: array<byte>, bufsz: nat, src0: nat, dst: nat, ghost d0: Decoder, ghost input: seq<byte>,
                     ghost l0: Leave)
      returns (src: nat, l: Leave)
      requires dst <= src0 <= bufsz <= buf.Length && Valid(View()) && !l0.Stop?
      requires !state.InTrailersHead? && !state.InTrailersMiddle?
      requires Leads(l0, d0, input, buf[..dst], View(), buf[src0..bufsz])
      modifies this
      ensures src0 <= src <= bufsz && Valid(View()) && (l.Break? ==> src0 < src)
      ensures l.FallThrough? ==> state.InChunkData? || state.InChunkCrlf?
      ensures Leads(l, d0, input, buf[..dst], View(), buf[src..bufsz])
    {
      hide Run, OnByte, Valid, Leads, Prepend, Skips;
      src, l := src0, FallThrough;
      LeadsAs(l0, l, d0, input, buf[..dst], View(), buf[src0..bufsz]);
      if state.InChunkSize? {
        ghost var k, d, s := l, View(), buf[src..bufsz];
        src, l := ChunkSize(buf, bufsz, src);
        SkipsOn(k, l, d0, input, buf[..dst], d, s, View(), buf[src..bufsz]);
      }
      if l.FallThrough? && state.InChunkExt? {
        ghost var k, d, s := l, View(), buf[src..bufsz];
        src, l := ChunkExt(buf, bufsz, src);
        SkipsOn(k, l, d0, input, buf[..dst], d, s, View(), buf[src..bufsz]);
      }
    }

    /** The cases of the trailer. */
    method Trailers(buf: array<byte>, bufsz: nat, src0: nat, dst: nat, ghost d0: Decoder, ghost input: seq<byte>,
                    ghost l0: Leave)
      returns (src: nat, l: Leave)
      requires dst <= src0 <= bufsz <= buf.Length && Valid(View()) && !l0.Stop?
      requires state.InTrailersHead? || state.InTrailersMiddle?
      requires Leads(l0, d0, input, buf[..dst], View(), buf[src0..bufsz])
      modifies this
      ensures src0 <= src <= bufsz && Valid(View()) && (l.Stop? || (l.Break? && src0 < src))
      ensures Leads(l, d0, input, buf[..dst], View(), buf[src..bufsz])
    {
      hide Run, OnByte, Valid, Leads, Prepend, Skips;
      src, l := src0, FallThrough;
      LeadsAs(l0, l, d0, input, buf[..dst], View(), buf[src0..bufsz]);
      if state.InTrailersHead? {
        ghost var k, d, s := l, View(), buf[src..bufsz];
        src, l := TrailersHead(buf, bufsz, src);
        SkipsOn(k, l, d0, input, buf[..dst], d, s, View(), buf[src..bufsz]);
      }
      if l.FallThrough? && state.InTrailersMiddle? {
        ghost var k, d, s := l, View(), buf[src..bufsz];
        src, l := TrailersMiddle(buf, bufsz, src);
        SkipsOn(k, l, d0, input, buf[..dst], d, s, View(), buf[src..bufsz]);
      }
    }
  }
}
