/**
 Bytes as the C sources see them, and the byte classes their scanners test for.
 */
module Bytes {

  /** One `char` of a C buffer: 256 values, written as characters so that literals read as in the source. */
  type byte = c: char | c as int < 256

  const CR: byte := '\r'
  const LF: byte := '\n'
  const SP: byte := ' '
  const HT: byte := '\t'
  const DEL: byte := '\U{7F}'
  const CRLF: seq<byte> := "\r\n"

  /** The classes of byte over which the parser's inner loops run. */
  datatype ByteClass = TokenByte | NameByte | ValueByte | BlankByte | DigitByte

  predicate IsControl(c: byte) {
    c < ' ' || c == DEL
  }

  predicate IsBlank(c: byte) {
    c == ' ' || c == '\t'
  }

  predicate IsDigit(c: byte) {
    '0' <= c <= '9'
  }

  predicate IsLineEnd(c: byte) {
    c == '\r' || c == '\n'
  }

  /** The entries of `token_char_map` that are set. Unlike a token of RFC 7230 they include the double quote. */
  predicate IsTokenChar(c: byte) {
    || '!' <= c <= '\''
    || c == '*' || c == '+' || c == '-' || c == '.'
    || '0' <= c <= '9'
    || 'A' <= c <= 'Z'
    || '^' <= c <= 'z'
    || c == '|' || c == '~'
  }

  /**
   The bytes each loop steps over. A name byte is compared with ' ' as a plain `char`, which is signed,
   so a byte of 0x80 and above stops a name as a control byte does.
   */
  predicate In(c: byte, k: ByteClass) {
    match k
    case TokenByte => c != ' ' && !IsControl(c)
    case NameByte => c != ':' && ' ' <= c < '\U{80}'
    case ValueByte => !IsControl(c) || c == '\t'
    case BlankByte => IsBlank(c)
    case DigitByte => IsDigit(c)
  }

  predicate AllIn(t: seq<byte>, k: ByteClass) {
    forall m | 0 <= m < |t| :: In(t[m], k)
  }

  /** `t` stands in `s` at offset `i`. */
  ghost predicate At(s: seq<byte>, i: nat, t: seq<byte>) {
    i + |t| <= |s| && s[i..i + |t|] == t
  }

  lemma AtConcat(s: seq<byte>, i: nat, a: seq<byte>, b: seq<byte>)
    ensures At(s, i, a + b) <==> At(s, i, a) && At(s, i + |a|, b)
  {
    if At(s, i, a + b) {
      assert s[i..i + |a|] == s[i..i + |a + b|][..|a|];
      assert s[i + |a|..i + |a| + |b|] == s[i..i + |a + b|][|a|..];
    }
    if At(s, i, a) && At(s, i + |a|, b) {
      assert s[i..i + |a + b|] == s[i..i + |a|] + s[i + |a|..i + |a| + |b|];
    }
  }

  lemma AtIndex(s: seq<byte>, i: nat, t: seq<byte>)
    requires At(s, i, t)
    ensures i + |t| <= |s| && forall m | i <= m < i + |t| :: s[m] == t[m - i]
  {
    forall m | i <= m < i + |t| ensures s[m] == t[m - i] {
      assert s[i..i + |t|][m - i] == s[m];
    }
  }

  const INT_MAX: int := 0x7FFF_FFFF

  /** Converting to `int` keeps the low 32 bits. */
  function ToInt(n: int): (r: int)
    ensures -0x8000_0000 <= n <= INT_MAX ==> r == n
  {
    (n + 0x8000_0000) % 0x1_0000_0000 - 0x8000_0000
  }

  /** It is the number an `int` can hold that differs from `n` by a multiple of 2 to the 32. */
  lemma ToIntIs(n: int)
    ensures -2147483648 <= ToInt(n) <= 2147483647 && (n - ToInt(n)) % 4294967296 == 0
  {
  }

  lemma ToIntStep(n: int, d: int)
    ensures ToInt(ToInt(n) * 10 + d) == ToInt(n * 10 + d)
  {
    var k := (n - ToInt(n)) / 0x1_0000_0000;
    assert n == ToInt(n) + k * 0x1_0000_0000;
    var m := ToInt(n) * 10 + d + 0x8000_0000;
    assert n * 10 + d + 0x8000_0000 == m + (10 * k) * 0x1_0000_0000;
    SameRemainder(m, 10 * k);
  }

  lemma SameRemainder(m: int, k: int)
    ensures (m + k * 0x1_0000_0000) % 0x1_0000_0000 == m % 0x1_0000_0000
  {
    var q := 0x1_0000_0000;
    assert m == q * (m / q) + m % q;
    assert m + k * q == q * (m / q + k) + m % q;
  }

  /** The number a run of decimal digits denotes. */
  function DecValue(t: seq<byte>): nat
    requires AllIn(t, DigitByte)
  {
    if t == [] then 0 else 10 * DecValue(t[..|t| - 1]) + (t[|t| - 1] as int - '0' as int)
  }

  /** Appending a digit, by its code. */
  lemma DecValueSnoc(t: seq<byte>, c: byte)
    requires AllIn(t, DigitByte) && 0x30 <= c as int <= 0x39
    ensures AllIn(t + [c], DigitByte) && DecValue([]) == 0 && DecValue(t + [c]) == 10 * DecValue(t) + (c as int - 0x30)
  {
    assert (t + [c])[..|t|] == t;
  }

  /** `sprintf("%d")` of a non-negative number. */
  function Decimal(n: nat): (t: seq<byte>)
    ensures t != [] && AllIn(t, DigitByte)
  {
    if n < 10 then [DigitOf(n)] else Decimal(n / 10) + [DigitOf(n % 10)]
  }

  function DigitOf(d: nat): (c: byte)
    requires d < 10
    ensures IsDigit(c) && c as int - '0' as int == d
  {
    ('0' as int + d) as char
  }

  lemma {:induction false} DecimalValue(n: nat)
    ensures DecValue(Decimal(n)) == n
  {
    if n >= 10 {
      DecimalValue(n / 10);
      var t := Decimal(n);
      assert t[..|t| - 1] == Decimal(n / 10);
    }
  }

  /** No leading zeros are printed. */
  lemma {:induction false} DecimalFirst(n: nat)
    ensures n > 0 ==> Decimal(n)[0] != '0'
  {
    if n >= 10 {
      DecimalFirst(n / 10);
      assert Decimal(n)[0] == Decimal(n / 10)[0];
    }
  }

  function PowerOfTen(k: nat): (r: nat)
    ensures r > 0
  {
    if k == 0 then 1 else 10 * PowerOfTen(k - 1)
  }

  lemma {:induction false} DecimalLength(n: nat, k: nat)
    requires k > 0 && n < PowerOfTen(k)
    ensures |Decimal(n)| <= k
  {
    if n >= 10 {
      assert k > 1 by {
        assert PowerOfTen(0) == 1;
      }
      assert n / 10 < PowerOfTen(k - 1);
      DecimalLength(n / 10, k - 1);
    }
  }

  lemma {:induction false} PowerSum(j: nat, k: nat)
    ensures PowerOfTen(j + k) == PowerOfTen(j) * PowerOfTen(k)
  {
    if j > 0 {
      PowerSum(j - 1, k);
      assert PowerOfTen(j - 1 + k) == PowerOfTen(j - 1) * PowerOfTen(k);
      assert 10 * (PowerOfTen(j - 1) * PowerOfTen(k)) == (10 * PowerOfTen(j - 1)) * PowerOfTen(k);
    }
  }

  /** A number of 64 bits has at most 20 digits. */
  lemma Decimal64(n: nat)
    requires n < 0x1_0000_0000_0000_0000
    ensures |Decimal(n)| <= 20
  {
    hide Decimal;
    assert PowerOfTen(2) == 100;
    assert PowerOfTen(4) == 100 * PowerOfTen(2);
    PowerSum(4, 4);
    PowerSum(8, 8);
    PowerSum(4, 16);
    DecimalLength(n, 20);
  }
}
