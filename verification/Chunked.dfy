/**
 `phr_decode_chunked` as a fold of a one-byte step, and what the fold keeps however the bytes are cut into calls.
 */
module Chunked {
  import opened Bytes

  datatype State = InChunkSize | InChunkExt | InChunkData | InChunkCrlf | InTrailersHead | InTrailersMiddle

  /** The fields of `struct phr_chunked_decoder`. */
  datatype Decoder = Decoder(left: nat, hexCount: nat, state: State, consumeTrailer: bool)

  /** What one byte does: it is consumed and perhaps passed on, or it is an error and stays, or it ends the body. */
  datatype Step = Next(d: Decoder, out: seq<byte>) | Fail | Finish

  datatype Verdict = Incomplete | Error | Complete

  /** A call's new decoder, the bytes it decodes, the bytes it leaves undecoded and its verdict. */
  datatype Outcome = Outcome(d: Decoder, out: seq<byte>, rest: seq<byte>, verdict: Verdict)

  /** Hexadecimal digits in a `size_t`, and the values it has. */
  const MAX_HEX: nat := 16
  const SIZE_LIMIT: nat := 0x1_0000_0000_0000_0000

  function Pow16(n: nat): (p: nat)
    ensures p > 0
  {
    if n == 0 then 1 else 16 * Pow16(n - 1)
  }

  predicate IsHex(c: byte) {
    '0' <= c <= '9' || 'A' <= c <= 'F' || 'a' <= c <= 'f'
  }

  /** `decode_hex`. */
  function DecodeHex(c: byte): (v: int)
    ensures IsHex(c) ==> 0 <= v < 16
    ensures !IsHex(c) ==> v == -1
  {
    if '0' <= c <= '9' then c as int - '0' as int
    else if 'A' <= c <= 'F' then c as int - 'A' as int + 10
    else if 'a' <= c <= 'f' then c as int - 'a' as int + 10
    else -1
  }

  /**
   What holds of a zero-filled decoder and of every state reached from it. The size being read is below 16 to the
   number of digits read, so it fits 64 bits; there are bytes left while in chunk data and none once past it.
   */
  predicate Valid(d: Decoder) {
    && (if d.state.InChunkSize? then d.hexCount <= MAX_HEX && d.left < Pow16(d.hexCount)
        else d.hexCount == 0 && d.left < SIZE_LIMIT)
    && (d.state.InChunkData? ==> d.left > 0)
    && (d.state.InChunkCrlf? || d.state.InTrailersHead? || d.state.InTrailersMiddle? ==> d.left == 0)
  }

  const START := Decoder(0, 0, InChunkSize, false)

  lemma {:induction false} Pow16Limit(n: nat)
    requires n <= MAX_HEX
    ensures Pow16(n) <= SIZE_LIMIT
    decreases MAX_HEX - n
  {
    if n < MAX_HEX {
      Pow16Limit(n + 1);
    } else {
      assert Pow16(4) == 0x1_0000 && Pow16(8) == 0x1_0000_0000;
      assert Pow16(12) == 0x1_0000_0000_0000 && Pow16(n) == SIZE_LIMIT;
    }
  }

  function OnExt(d: Decoder, c: byte): Step {
    if c != LF then Next(d, [])
    else if d.left > 0 then Next(d.(state := InChunkData), [])
    else if d.consumeTrailer then Next(d.(state := InTrailersHead), [])
    else Finish
  }

  function OnCrlf(d: Decoder, c: byte): Step {
    if c == CR then Next(d, []) else if c == LF then Next(d.(state := InChunkSize), []) else Fail
  }

  /** A byte on which a state falls through to the next one is handled by that state. */
  function OnByte(d: Decoder, c: byte): Step {
    match d.state
    case InChunkSize =>
      if !IsHex(c) then
        if d.hexCount == 0 then Fail else OnExt(d.(hexCount := 0, state := InChunkExt), c)
      else if d.hexCount == MAX_HEX then Fail
      else Next(d.(left := d.left * 16 + DecodeHex(c), hexCount := d.hexCount + 1), [])
    case InChunkExt => OnExt(d, c)
    case InChunkData =>
      if d.left == 0 then OnCrlf(d.(state := InChunkCrlf), c)
      else Next(d.(left := d.left - 1, state := if d.left == 1 then InChunkCrlf else InChunkData), [c])
    case InChunkCrlf => OnCrlf(d, c)
    case InTrailersHead =>
      if c == CR then Next(d, []) else if c == LF then Finish else Next(d.(state := InTrailersMiddle), [])
    case InTrailersMiddle =>
      if c == LF then Next(d.(state := InTrailersHead), []) else Next(d, [])
  }

  lemma OnByteValid(d: Decoder, c: byte)
    requires Valid(d) && OnByte(d, c).Next?
    ensures Valid(OnByte(d, c).d)
  {
    hide Pow16, DecodeHex, IsHex;
    if d.state.InChunkSize? {
      Pow16Limit(d.hexCount);
      Pow16Step(d.hexCount);
    }
  }

  lemma Pow16Step(n: nat)
    ensures Pow16(n + 1) == 16 * Pow16(n)
  {
  }

  /** A decoder that stops in the middle of a size line has moved on to the extension state. */
  function Settled(d: Decoder): Decoder {
    if d.state.InChunkSize? then d.(hexCount := 0, state := InChunkExt) else d
  }

  function Prepend(out: seq<byte>, r: Outcome): Outcome {
    r.(out := out + r.out)
  }

  /** One call on the bytes `s`. */
  function Run(d: Decoder, s: seq<byte>): (r: Outcome)
    ensures r.verdict.Incomplete? ==> r.rest == []
    ensures |r.out| + |r.rest| <= |s|
    decreases |s|
  {
    if s == [] then Outcome(d, [], [], Incomplete)
    else
      match OnByte(d, s[0])
      case Next(e, out) => Prepend(out, Run(e, s[1..]))
      case Fail => Outcome(d, [], s, Error)
      case Finish => Outcome(Settled(d), [], s[1..], Complete)
  }

  /** Every state a decoder reaches between calls is valid; in particular no size overflows. */
  lemma {:induction false} RunValid(d: Decoder, s: seq<byte>)
    requires Valid(d)
    ensures Valid(Run(d, s).d)
    decreases |s|
  {
    hide Valid, OnByte, Pow16;
    if s != [] {
      match OnByte(d, s[0])
      case Next(e, _) =>
        OnByteValid(d, s[0]);
        RunValid(e, s[1..]);
      case Fail =>
      case Finish => SettledValid(d);
    }
  }

  lemma SettledValid(d: Decoder)
    requires Valid(d)
    ensures Valid(Settled(d))
  {
    hide Pow16;
    if d.state.InChunkSize? {
      Pow16Limit(d.hexCount);
    }
  }

  // ---------- One byte of a run ----------

  lemma RunStep(d: Decoder, s: seq<byte>)
    requires s != []
    ensures match OnByte(d, s[0])
            case Next(e, out) => Run(d, s) == Prepend(out, Run(e, s[1..]))
            case Fail => Run(d, s) == Outcome(d, [], s, Error)
            case Finish => Run(d, s) == Outcome(Settled(d), [], s[1..], Complete)
  {
  }

  lemma SkipStep(d: Decoder, s: seq<byte>, e: Decoder)
    requires s != [] && OnByte(d, s[0]) == Next(e, [])
    ensures Run(d, s) == Run(e, s[1..])
  {
    assert Prepend([], Run(e, s[1..])) == Run(e, s[1..]);
  }

  lemma EmptyRun(d: Decoder)
    ensures Run(d, []) == Outcome(d, [], [], Incomplete)
  {
  }

  lemma SizeStep(d: Decoder, s: seq<byte>)
    requires s != [] && d.state.InChunkSize? && Valid(d)
    ensures if IsHex(s[0]) && d.hexCount < MAX_HEX then
              var e := d.(left := d.left * 16 + DecodeHex(s[0]), hexCount := d.hexCount + 1);
              Valid(e) && Run(d, s) == Run(e, s[1..])
            else if IsHex(s[0]) || d.hexCount == 0 then Run(d, s) == Outcome(d, [], s, Error)
            else Valid(Settled(d)) && Run(d, s) == Run(Settled(d), s)
  {
    hide DecodeHex, IsHex, Pow16;
    RunStep(d, s);
    SettledValid(d);
    if IsHex(s[0]) && d.hexCount < MAX_HEX {
      OnByteValid(d, s[0]);
      SkipStep(d, s, OnByte(d, s[0]).d);
    }
  }

  // ---------- Fragmentation ----------

  /**
   Two calls do what one call on the joined bytes does: after "incomplete" the second call goes on where the first
   stopped, with the same outputs, state and leftover; after any other verdict the second piece is left untouched.
   */
  lemma {:induction false} RunConcat(d: Decoder, a: seq<byte>, b: seq<byte>)
    ensures var r := Run(d, a);
            Run(d, a + b) == if r.verdict.Incomplete? then Prepend(r.out, Run(r.d, b)) else r.(rest := r.rest + b)
    decreases |a|
  {
    hide OnByte;
    if a == [] {
      assert a + b == b;
    } else {
      assert (a + b)[1..] == a[1..] + b;
      match OnByte(d, a[0])
      case Next(e, out) =>
        RunConcat(e, a[1..], b);
        var r := Run(e, a[1..]);
        PrependTwice(out, r.out, Run(r.d, b));
      case _ =>
    }
  }

  function Flatten(pieces: seq<seq<byte>>): seq<byte> {
    if pieces == [] then [] else pieces[0] + Flatten(pieces[1..])
  }

  /** A caller that supplies one piece a call while the answer is "incomplete". */
  function Feed(d: Decoder, pieces: seq<seq<byte>>): Outcome
    decreases |pieces|
  {
    if pieces == [] then Outcome(d, [], [], Incomplete) else
    var r := Run(d, pieces[0]);
    if r.verdict.Incomplete? then Prepend(r.out, Feed(r.d, pieces[1..]))
    else r.(rest := r.rest + Flatten(pieces[1..]))
  }

  /** However a body is cut into calls, the answer, the final state, the payload and the leftover are the same. */
  lemma {:induction false} FeedIsRun(d: Decoder, pieces: seq<seq<byte>>)
    ensures Feed(d, pieces) == Run(d, Flatten(pieces))
    decreases |pieces|
  {
    if pieces != [] {
      RunConcat(d, pieces[0], Flatten(pieces[1..]));
      var r := Run(d, pieces[0]);
      if r.verdict.Incomplete? {
        FeedIsRun(r.d, pieces[1..]);
      }
    }
  }

  // ---------- The inner loops ----------

  datatype Kind = HexKind | NotLfKind | CrKind

  predicate Of(c: byte, k: Kind) {
    match k case HexKind => IsHex(c) case NotLfKind => c != LF case CrKind => c == CR
  }

  predicate AllOf(t: seq<byte>, k: Kind) {
    forall m | 0 <= m < |t| :: Of(t[m], k)
  }

  /** The size a run of digits adds up to, after `left`. */
  function HexValue(left: nat, t: seq<byte>): (v: nat)
    requires AllOf(t, HexKind)
    decreases |t|
  {
    if t == [] then left else HexValue(left * 16 + DecodeHex(t[0]), t[1..])
  }

  /** The decoder after `n` more digits that make the size `v`. */
  lemma {:induction false} SizeRun(d: Decoder, t: seq<byte>, rest: seq<byte>)
    requires d.state.InChunkSize? && AllOf(t, HexKind) && d.hexCount + |t| <= MAX_HEX
    ensures Run(d, t + rest) == Run(d.(left := HexValue(d.left, t), hexCount := d.hexCount + |t|), rest)
    decreases |t|
  {
    hide DecodeHex, IsHex, OnExt, OnCrlf;
    if t == [] {
      assert t + rest == rest;
    } else {
      assert (t + rest)[1..] == t[1..] + rest;
      assert Of(t[0], HexKind);
      SkipStep(d, t + rest, OnByte(d, t[0]).d);
      SizeRun(OnByte(d, t[0]).d, t[1..], rest);
    }
  }

  /** The loops that step over carriage returns or over everything but a line feed. */
  lemma {:induction false} SkipRun(d: Decoder, t: seq<byte>, rest: seq<byte>)
    requires match d.state
             case InChunkExt => AllOf(t, NotLfKind)
             case InTrailersMiddle => AllOf(t, NotLfKind)
             case InChunkCrlf => AllOf(t, CrKind)
             case InTrailersHead => AllOf(t, CrKind)
             case _ => false
    ensures Run(d, t + rest) == Run(d, rest)
    decreases |t|
  {
    hide DecodeHex;
    if t == [] {
      assert t + rest == rest;
    } else {
      assert (t + rest)[1..] == t[1..] + rest;
      SkipRun(d, t[1..], rest);
    }
  }

  /** Copying up to all bytes of the chunk. */
  function AfterData(d: Decoder, n: nat): Decoder
    requires d.state.InChunkData? && n <= d.left
  {
    if n == d.left then d.(left := 0, state := InChunkCrlf) else d.(left := d.left - n)
  }

  lemma DataStep(d: Decoder, c: byte, rest: seq<byte>)
    requires d.state.InChunkData? && 0 < d.left
    ensures Run(d, [c] + rest) == Prepend([c], Run(AfterData(d, 1), rest))
  {
    assert ([c] + rest)[1..] == rest;
  }

  lemma PrependTwice(a: seq<byte>, b: seq<byte>, r: Outcome)
    ensures Prepend(a, Prepend(b, r)) == Prepend(a + b, r)
  {
    assert a + (b + r.out) == (a + b) + r.out;
  }

  lemma {:induction false} DataRun(d: Decoder, t: seq<byte>, rest: seq<byte>)
    requires d.state.InChunkData? && 0 < d.left && |t| <= d.left
    ensures Run(d, t + rest) == Prepend(t, Run(AfterData(d, |t|), rest))
    decreases |t|
  {
    hide OnByte, Run;
    if t == [] {
      assert t + rest == rest;
    } else {
      assert t + rest == [t[0]] + (t[1..] + rest);
      DataStep(d, t[0], t[1..] + rest);
      if |t| > 1 {
        DataRun(AfterData(d, 1), t[1..], rest);
        PrependTwice([t[0]], t[1..], Run(AfterData(d, |t|), rest));
        assert [t[0]] + t[1..] == t;
      } else {
        assert t == [t[0]] && t[1..] + rest == rest;
      }
    }
  }
}
