/**
 `handle_range` of yotta.cpp.
 */
module Ranges {
  import opened Bytes
  import opened Scanner
  import opened Message

  const SIZE_T: nat := 0x1_0000_0000_0000_0000

  type SizeT = n: nat | n < 0x1_0000_0000_0000_0000

  /** `std::stoi`; `None` where it throws. */
  function Stoi(t: seq<byte>): (r: Option<int>)
    ensures r.Some? ==> -INT_MAX - 1 <= r.value <= INT_MAX
  {
    var i := SkipSpace(t, 0);
    var signed := i < |t| && (t[i] == '-' || t[i] == '+');
    var b := if signed then i + 1 else i;
    if Span(t, b, DigitByte) == b then None else
    var v: int := DigitsFrom(t, b);
    var n := if signed && t[i] == '-' then -v else v;
    if -INT_MAX - 1 <= n <= INT_MAX then Some(n) else None
  }

  /** What a text of that kind comes to: the number if an `int` holds it, an exception if not or if there is none. */
  lemma StoiReads(white: seq<byte>, sign: seq<byte>, digits: seq<byte>, rest: seq<byte>)
    requires NumberText(white, sign, digits, rest)
    ensures AllIn(digits, DigitByte)
    ensures var v: int := DecValue(digits); var n := if sign == "-" then -v else v;
            Stoi(white + (sign + (digits + rest)))
            == if digits != [] && -2147483648 <= n <= 2147483647 then Some(n) else None
  {
    hide SkipSpace, DigitsFrom;
    NumberParts(white, sign, digits, rest);
  }

  lemma StoiUnsigned(t: seq<byte>)
    requires forall k | 0 <= k < |t| :: t[k] != '-'
    ensures Stoi(t).Some? ==> Stoi(t).value >= 0
  {
  }

  datatype RangeAnswer = BadRange | Throws | Partial(first: int, last: int)

  function Dash(t: seq<byte>, i: nat): (j: nat)
    requires i <= |t|
    ensures i <= j <= |t| && (forall k | i <= k < j :: t[k] != '-') && (j < |t| ==> t[j] == '-')
    decreases |t| - i
  {
    if i < |t| && t[i] != '-' then Dash(t, i + 1) else i
  }

  /** The sanity checks on the two numbers of a range of a file of `size` bytes. */
  function Clip(start: int, end: int, size: nat): RangeAnswer {
    var e := if end <= start then ToInt(size - 1) else end;
    var s := if start < 0 then 0 else start;
    Partial(s, if e >= size then ToInt(size - 1) else e)
  }

  const UNIT: seq<byte> := "bytes="

  function HandleRange(value: seq<byte>, size: nat): (r: RangeAnswer)
    ensures r.Partial? ==> 0 <= r.first <= INT_MAX
  {
    if |value| < 8 || value[..6] != UNIT then BadRange else
    var sep := Dash(value, 6);
    if sep == |value| || sep == 6 then BadRange else
    var start := Stoi(value[6..sep]);
    if start.None? then Throws else
    if sep + 1 == |value| then Clip(start.value, ToInt(size - 1), size) else
    var end := Stoi(value[sep + 1..]);
    if end.None? then Throws else Clip(start.value, end.value, size)
  }

  /** The code of it, up to the answer. `stoi` is the library's. */
  method ReadRange(value: seq<byte>, size: nat) returns (r: RangeAnswer)
    ensures r == HandleRange(value, size)
  {
    hide Stoi;
    if |value| < 8 {
      return BadRange;
    }
    if value[..6] != UNIT {
      return BadRange;
    }
    var sep := 6;
    while sep < |value| && value[sep] != '-'
      invariant 6 <= sep <= |value| && Dash(value, sep) == Dash(value, 6)
    {
      sep := sep + 1;
    }
    if sep == |value| {
      return BadRange;
    }
    if sep == 6 {
      return BadRange;
    }
    var number := Stoi(value[6..sep]);
    if number.None? {
      return Throws;
    }
    var start := number.value;
    var end := 0;
    if sep + 1 == |value| {
      end := ToInt(size - 1);
    } else {
      number := Stoi(value[sep + 1..]);
      if number.None? {
        return Throws;
      }
      end := number.value;
    }
    if end <= start {
      end := ToInt(size - 1);
    }
    if start < 0 {
      start := 0;
    }
    if end >= size {
      end := ToInt(size - 1);
    }
    return Partial(start, end);
  }

  /** The announced length: the difference is taken as an `int` and then becomes a `size_t`. */
  function Length(first: int, last: int): SizeT {
    ToInt(last - first + 1) % SIZE_T
  }

  /** It is the number of bytes from `first` to `last` exactly when that is a number an `int` holds. */
  lemma LengthExact(first: int, last: int)
    requires 0 <= first <= INT_MAX && -INT_MAX - 1 <= last <= INT_MAX
    ensures Length(first, last) == last - first + 1 <==> first - 1 <= last < first + INT_MAX
  {
    var n := last - first + 1;
    if n > INT_MAX {
      assert n == INT_MAX + 1;
      ModUnique(SIZE_T - 0x8000_0000);
    }
  }

  /** The last byte announced lies before the end of the file, whatever its size. */
  lemma LastInFile(value: seq<byte>, size: nat)
    requires HandleRange(value, size).Partial?
    ensures -INT_MAX - 1 <= HandleRange(value, size).last < size
    ensures HandleRange(value, size).last <= INT_MAX
  {
    hide Stoi;
    ToIntBelow(size);
  }

  lemma ToIntBelow(size: nat)
    ensures -INT_MAX - 1 <= ToInt(size - 1) < size && ToInt(size - 1) <= INT_MAX
  {
  }

  /**
   In a file of at most 2 GiB the announced interval is not empty exactly when its first byte is in the file, and then
   its length is announced right unless it is a whole file of 2 GiB, whose length no `int` holds.
   */
  lemma RangeInFile(value: seq<byte>, size: nat)
    requires HandleRange(value, size).Partial? && 0 < size <= INT_MAX + 1
    ensures var r := HandleRange(value, size);
            && 0 <= r.last < size
            && (r.first < size <==> r.first <= r.last)
            && (1 <= Length(r.first, r.last) <= size <==> r.first < size && !(r.first == 0 && r.last == INT_MAX))
            && (1 <= Length(r.first, r.last) <= size ==> Length(r.first, r.last) == r.last - r.first + 1)
  {
    hide Stoi;
    var r := HandleRange(value, size);
    StoiUnsigned(value[6..Dash(value, 6)]);
    if r.first >= size {
      LengthWraps(r.first, r.last);
    } else {
      LengthExact(r.first, r.last);
      if r.first == 0 && r.last == INT_MAX {
        ModUnique(SIZE_T - 0x8000_0000);
      }
    }
  }

  lemma LengthWraps(first: int, last: int)
    requires last < first && 0 <= first <= INT_MAX && 0 <= last
    ensures Length(first, last) == 0 || Length(first, last) > INT_MAX + 1
  {
    var n := last - first + 1;
    if n < 0 {
      ModUnique(n + SIZE_T);
    }
  }

  lemma ModUnique(m: nat)
    requires m < SIZE_T
    ensures (m - SIZE_T) % SIZE_T == m
  {
  }

  // ---------- Section 2.1 of RFC 7233 ----------

  /** The interval RFC 7233 selects for first-byte-pos `a` and last-byte-pos `b`. */
  function RfcRange(a: nat, b: nat, size: nat): RangeAnswer {
    Partial(a, if b < size then b else size - 1)
  }

  function PrintRange(a: nat, b: Option<nat>): seq<byte> {
    "bytes=" + (Decimal(a) + (['-'] + (if b.Some? then Decimal(b.value) else [])))
  }

  /** A printed number is read, or refused by an exception when an `int` does not hold it. */
  lemma StoiDecimal(n: nat)
    ensures Stoi(Decimal(n)) == if n <= 2147483647 then Some(n) else None
  {
    var t := Decimal(n);
    forall k | 0 <= k < |t| ensures 0x30 <= t[k] as int <= 0x39 {
      assert In(t[k], DigitByte);
    }
    StoiReads([], [], t, []);
    assert [] + ([] + (t + [])) == t;
    DecimalValue(n);
  }

  lemma {:induction false} DashAt(t: seq<byte>, i: nat, j: nat)
    requires i <= j < |t| && t[j] == '-' && forall k | i <= k < j :: t[k] != '-'
    ensures Dash(t, i) == j
    decreases j - i
  {
    if i < j {
      DashAt(t, i + 1, j);
    }
  }

  lemma RangeLayout(a: nat, end: seq<byte>)
    ensures var t := "bytes=" + (Decimal(a) + (['-'] + end)); var n := 6 + |Decimal(a)|;
            && n < |t| && t[..6] == "bytes=" && t[6..n] == Decimal(a) && t[n + 1..] == end && Dash(t, 6) == n
  {
    hide Decimal;
    var t := "bytes=" + (Decimal(a) + (['-'] + end));
    var n := 6 + |Decimal(a)|;
    assert t[..6] == "bytes=";
    assert t[6..n] == Decimal(a);
    forall k | 6 <= k < n ensures t[k] != '-' {
      assert t[k] == Decimal(a)[k - 6];
      assert In(Decimal(a)[k - 6], DigitByte);
    }
    assert t[n] == '-' && t[n + 1..] == end;
    DashAt(t, 6, n);
  }

  /**
   What a printed range comes to: an exception if one of its numbers is too large for an `int`; otherwise it starts
   where it says, and ends where it says if that is behind the start and in the file, at the end of the file if not.
   */
  lemma PrintedRange(a: nat, b: Option<nat>, size: nat)
    ensures var r := HandleRange(PrintRange(a, b), size); var eof := ToInt(size - 1);
            if a > 2147483647 || (b.Some? && b.value > 2147483647) then r == Throws
            else r == Partial(a, if b.Some? && a < b.value < size then b.value
                                 else eof)
  {
    hide Stoi, Decimal;
    var end := if b.Some? then Decimal(b.value) else [];
    RangeLayout(a, end);
    StoiDecimal(a);
    ToIntBelow(size);
    if b.Some? {
      StoiDecimal(b.value);
    }
  }

  /** A range without a first byte is a bad request, whatever its suffix. */
  lemma SuffixRange(suffix: seq<byte>, size: nat)
    ensures HandleRange("bytes=-" + suffix, size) == BadRange
  {
    var t := "bytes=-" + suffix;
    assert t[6] == '-' && |t| == 7 + |suffix|;
    assert t[..6] == "bytes=";
  }

  /** So is any other unit, and a text without a dash. */
  lemma OtherRanges(value: seq<byte>, size: nat)
    requires !("bytes=" <= value) || (forall k | 6 <= k < |value| :: value[k] != '-') || |value| < 8
    ensures HandleRange(value, size) == BadRange
  {
  }

  /**
   A range `bytes=a-b` that RFC 7233 finds satisfiable selects the bytes it should exactly when it asks for more than
   one byte or for the last one; any other single byte is widened to the end of the file. Where the end of the file is,
   is computed as an `int`.
   */
  lemma ClosedRangeMeetsRfc(a: nat, b: nat, size: nat)
    requires a <= b <= INT_MAX && a < size
    ensures HandleRange(PrintRange(a, Some(b)), size) == RfcRange(a, b, size) <==> a < b || a == ToInt(size - 1)
    ensures size <= INT_MAX + 1 ==> ToInt(size - 1) == size - 1
  {
    hide HandleRange, PrintRange;
    PrintedRange(a, Some(b), size);
    ToIntExact(size - 1);
  }

  /** A range `bytes=a-` selects the file from byte `a` on exactly when an `int` holds the number of the last byte. */
  lemma OpenRangeMeetsRfc(a: nat, size: nat)
    requires a <= INT_MAX && a < size
    ensures HandleRange(PrintRange(a, None), size) == Partial(a, size - 1) <==> size <= INT_MAX + 1
  {
    hide HandleRange, PrintRange;
    PrintedRange(a, None, size);
    ToIntExact(size - 1);
  }

  lemma ToIntExact(n: nat)
    ensures ToInt(n) == n <==> n <= INT_MAX
    ensures n > INT_MAX ==> ToInt(n) < n
  {
  }
}
