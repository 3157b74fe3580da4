/**
 The list of listening descriptors that a new server process is handed through its environment (yta_process.c).
 */
module ListenFds {
  import opened Bytes
  import Scanner

  const PREFIX: seq<byte> := "listen_fds="

  /** Numbers separated by single spaces. */
  function PrintFds(fds: seq<nat>): seq<byte> {
    if fds == [] then [] else if |fds| == 1 then Decimal(fds[0])
    else Decimal(fds[0]) + ([SP] + PrintFds(fds[1..]))
  }

  /** `atoi` on the rest of the string; it skips white space first. */
  function Atoi(t: seq<byte>): int {
    var i := Scanner.SkipSpace(t, 0);
    var signed := i < |t| && (t[i] == '-' || t[i] == '+');
    var n: int := Scanner.DigitsFrom(t, if signed then i + 1 else i);
    if signed && t[i] == '-' then -n else n
  }

  function TokenEnd(env: seq<byte>, i: nat): (j: nat)
    requires i <= |env|
    ensures i <= j <= |env| && (forall k | i <= k < j :: env[k] != SP) && (j < |env| ==> env[j] == SP)
    decreases |env| - i
  {
    if i < |env| && env[i] != SP then TokenEnd(env, i + 1) else i
  }

  /** The numbers the parser's loop reads from offset `i` on. */
  function ParseFds(env: seq<byte>, i: nat): seq<int>
    requires i <= |env|
    decreases |env| - i
  {
    if i == |env| then [] else
    var j := TokenEnd(env, i);
    [Atoi(env[i..])] + (if j == |env| then [] else ParseFds(env, j + 1))
  }

  /** What is printed: the numbers in order, a space between two. */
  lemma PrintedList(n: nat, fds: seq<nat>)
    ensures PrintFds([n]) == Decimal(n)
    ensures fds != [] ==> PrintFds([n] + fds) == Decimal(n) + (" " + PrintFds(fds))
  {
    hide Decimal;
    assert ([n] + fds)[1..] == fds;
  }

  /** What `atoi` comes to: the number, 0 if there is none. */
  lemma AtoiReads(white: seq<byte>, sign: seq<byte>, digits: seq<byte>, rest: seq<byte>)
    requires Scanner.NumberText(white, sign, digits, rest)
    ensures AllIn(digits, DigitByte)
    ensures var v: int := DecValue(digits);
            Atoi(white + (sign + (digits + rest))) == if sign == "-" then -v else v
  {
    hide Scanner.SkipSpace, Scanner.DigitsFrom;
    Scanner.NumberParts(white, sign, digits, rest);
  }

  /** The number of bytes `create_listen_fds_env` allocates for `n` descriptors, with the terminating NUL. */
  function BufferSize(n: nat): int {
    |PREFIX| + 1 + n * 5 + n - 1
  }

  lemma FiveDigits(n: nat)
    requires n < 100000
    ensures |Decimal(n)| <= 5
  {
    assert n / 10 < 10000 && n / 10 / 10 < 1000 && n / 10 / 10 / 10 < 100 && n / 10 / 10 / 10 / 10 < 10;
    assert n >= 10 ==> |Decimal(n)| == |Decimal(n / 10)| + 1;
    assert n / 10 >= 10 ==> |Decimal(n / 10)| == |Decimal(n / 10 / 10)| + 1;
    assert n / 10 / 10 >= 10 ==> |Decimal(n / 10 / 10)| == |Decimal(n / 10 / 10 / 10)| + 1;
    assert n / 10 / 10 / 10 >= 10 ==> |Decimal(n / 10 / 10 / 10)| == |Decimal(n / 10 / 10 / 10 / 10)| + 1;
  }

  /** All digits of the list. */
  function Digits(fds: seq<nat>): nat {
    if fds == [] then 0 else |Decimal(fds[0])| + Digits(fds[1..])
  }

  lemma {:induction false} PrintLength(fds: seq<nat>)
    requires fds != []
    ensures |PrintFds(fds)| == Digits(fds) + |fds| - 1
    decreases |fds|
  {
    hide Decimal;
    if |fds| > 1 {
      PrintLength(fds[1..]);
    } else {
      assert Digits(fds[1..]) == 0;
    }
  }

  lemma {:induction false} FewDigits(fds: seq<nat>)
    requires forall k | 0 <= k < |fds| :: fds[k] < 100000
    ensures Digits(fds) <= 5 * |fds|
    decreases |fds|
  {
    hide Decimal;
    if fds != [] {
      FiveDigits(fds[0]);
      FewDigits(fds[1..]);
    }
  }

  /** The text and its NUL fit exactly when there are no more than five digits a descriptor on average. */
  lemma PrintFits(fds: seq<nat>)
    requires fds != []
    ensures |PREFIX| + |PrintFds(fds)| < BufferSize(|fds|) <==> Digits(fds) <= 5 * |fds|
    ensures (forall k | 0 <= k < |fds| :: fds[k] < 100000) ==> Digits(fds) <= 5 * |fds|
  {
    PrintLength(fds);
    if forall k | 0 <= k < |fds| :: fds[k] < 100000 {
      FewDigits(fds);
    }
  }

  /** `sprintf` of `text` at `at`, with its terminating NUL. */
  method Print(buf: array<byte>, at: nat, text: seq<byte>) returns (end: nat)
    requires at + |text| < buf.Length
    modifies buf
    ensures end == at + |text| && buf[..end] == old(buf[..at]) + text && buf[end] == '\0'
  {
    forall i | 0 <= i < |text| {
      buf[at + i] := text[i];
    }
    end := at + |text|;
    buf[end] := '\0';
    assert buf[..at] == old(buf[..at]);
    assert buf[at..end] == text;
    assert buf[..end] == buf[..at] + buf[at..end];
  }

  /**
   `create_listen_fds_env`. It prints without a look at the size of its buffer: `overflow` says that a number would be
   written over its end.
   */
  method CreateListenFdsEnv(fds: seq<nat>) returns (buf: array<byte>, overflow: bool)
    requires fds != []
    ensures buf.Length == 6 * |fds| + 11 && fresh(buf)
    ensures overflow <==> Digits(fds) > 5 * |fds|
    ensures var all := "listen_fds=" + PrintFds(fds);
            !overflow ==> |all| < buf.Length && buf[..|all|] == all && buf[|all|] == '\0'
  {
    hide Decimal, PrintFds, Digits;
    PrintFits(fds);
    buf, overflow := new byte[BufferSize(|fds|)](_ => '\0'), false;
    var cur := Print(buf, 0, PREFIX);
    ghost var all := PREFIX + PrintFds(fds);
    var i := 0;
    assert fds[0..] == fds;
    while i < |fds| - 1
      invariant i <= |fds| - 1 && 0 <= cur < buf.Length
      invariant buf[..cur] + PrintFds(fds[i..]) == all
    {
      PrintStep(buf[..cur], fds, i);
      var text := Decimal(fds[i]) + [SP];
      if cur + |text| >= buf.Length {
        return buf, true;
      }
      cur := Print(buf, cur, text);
      i := i + 1;
    }
    LastStep(fds);
    var text := Decimal(fds[|fds| - 1]);
    if cur + |text| >= buf.Length {
      return buf, true;
    }
    cur := Print(buf, cur, text);
  }

  lemma PrintStep(before: seq<byte>, fds: seq<nat>, i: nat)
    requires i + 1 < |fds|
    ensures before + PrintFds(fds[i..]) == (before + (Decimal(fds[i]) + [SP])) + PrintFds(fds[i + 1..])
  {
    hide Decimal;
    assert fds[i..][1..] == fds[i + 1..];
    var d, rest := Decimal(fds[i]), PrintFds(fds[i + 1..]);
    assert before + (d + ([SP] + rest)) == (before + (d + [SP])) + rest;
  }

  lemma LastStep(fds: seq<nat>)
    requires fds != []
    ensures PrintFds(fds[|fds| - 1..]) == Decimal(fds[|fds| - 1])
  {
    assert fds[|fds| - 1..] == [fds[|fds| - 1]];
  }

  /**
   `parse_listen_fds_env` on a string; entries that are not there stay 0. The array is filled without a look at its
   length: `overflow` says that the next number would be written behind its end.
   */
  method ParseListenFdsEnv(env: seq<byte>, count: nat) returns (fds: array<int>, overflow: bool)
    ensures fds.Length == count && fresh(fds)
    ensures var r := ParseFds(env, 0);
            && (overflow <==> |r| > count)
            && (overflow ==> fds[..] == r[..count])
            && (!overflow ==> fds[..|r|] == r && forall k | |r| <= k < count :: fds[k] == 0)
  {
    hide Atoi, ParseFds;
    fds, overflow := new int[count](_ => 0), false;
    var iter, cur, n := 0, 0, 0;
    EmptyParse(env);
    while cur < |env|
      invariant 0 <= iter == cur <= |env| && 0 <= n <= count
      invariant fds[..n] + ParseFds(env, cur) == ParseFds(env, 0)
      invariant forall k | n <= k < count :: fds[k] == 0
      decreases |env| - cur
    {
      while cur < |env| && env[cur] != SP
        invariant iter <= cur <= |env| && TokenEnd(env, cur) == TokenEnd(env, iter)
      {
        cur := cur + 1;
      }
      ghost var before := fds[..n];
      ParseStep(before, env, iter);
      if n == count {
        assert fds[..] == fds[..n];
        return fds, true;
      }
      fds[n] := Atoi(env[iter..]);
      n := n + 1;
      assert fds[..n] == before + [Atoi(env[iter..])];
      if cur == |env| {
        break;
      }
      cur := cur + 1;
      iter := cur;
    }
  }

  lemma EmptyParse(env: seq<byte>)
    ensures ParseFds(env, |env|) == []
  {
  }

  lemma ParseUnfold(env: seq<byte>, i: nat)
    requires i < |env|
    ensures var j := TokenEnd(env, i);
            ParseFds(env, i) == [Atoi(env[i..])] + (if j == |env| then [] else ParseFds(env, j + 1))
  {
    hide Atoi, TokenEnd;
  }

  lemma ParseStep(before: seq<int>, env: seq<byte>, i: nat)
    requires i < |env|
    ensures var j := TokenEnd(env, i);
            before + ParseFds(env, i)
            == (before + [Atoi(env[i..])]) + (if j == |env| then [] else ParseFds(env, j + 1))
    ensures |before| < |before + ParseFds(env, i)|
  {
    hide Atoi, ParseFds, TokenEnd;
    ParseUnfold(env, i);
  }

  lemma {:induction false} TokenEndShift(env: seq<byte>, i: nat, j: nat)
    requires i <= j <= |env|
    ensures TokenEnd(env, j) == i + TokenEnd(env[i..], j - i)
    decreases |env| - j
  {
    if j < |env| && env[j] != SP {
      TokenEndShift(env, i, j + 1);
    }
  }

  lemma {:induction false} ParseShift(env: seq<byte>, i: nat, j: nat)
    requires i <= j <= |env|
    ensures ParseFds(env, j) == ParseFds(env[i..], j - i)
    decreases |env| - j
  {
    hide Atoi, TokenEnd, ParseFds;
    TokenEndShift(env, i, j);
    if j == |env| {
      EmptyParse(env);
      EmptyParse(env[i..]);
    } else {
      ParseUnfold(env, j);
      ParseUnfold(env[i..], j - i);
      assert env[j..] == env[i..][j - i..];
      var e := TokenEnd(env, j);
      if e < |env| {
        ParseShift(env, i, e + 1);
      }
    }
  }

  lemma LastWord(word: seq<byte>)
    requires word != [] && forall k | 0 <= k < |word| :: word[k] != ' '
    ensures ParseFds(word, 0) == [Atoi(word)]
  {
    hide Atoi, TokenEnd, ParseFds;
    ParseUnfold(word, 0);
    TokenEndAt(word, 0, |word|);
    assert word[0..] == word;
  }

  /**
   The text is read word by word: a number is read where each starts, and what follows its space is read by itself. A
   word that is empty gives the number behind it once more.
   */
  lemma ParseWord(word: seq<byte>, rest: seq<byte>)
    requires forall k | 0 <= k < |word| :: word[k] != ' '
    ensures ParseFds([], 0) == []
    ensures word != [] ==> ParseFds(word, 0) == [Atoi(word)]
    ensures ParseFds(word + (" " + rest), 0) == [Atoi(word + (" " + rest))] + ParseFds(rest, 0)
  {
    hide Atoi, TokenEnd, ParseFds;
    EmptyParse([]);
    if word != [] {
      LastWord(word);
    }
    FirstWord(word, rest);
  }

  lemma FirstWord(word: seq<byte>, rest: seq<byte>)
    requires forall k | 0 <= k < |word| :: word[k] != ' '
    ensures ParseFds(word + (" " + rest), 0) == [Atoi(word + (" " + rest))] + ParseFds(rest, 0)
  {
    hide Atoi, TokenEnd, ParseFds;
    var env, n := word + (" " + rest), |word|;
    SpaceBehind(word, rest);
    assert env[0..] == env;
    WordEnd(env, n);
    ParseShift(env, n + 1, n + 1);
  }

  lemma SpaceBehind(word: seq<byte>, rest: seq<byte>)
    requires forall k | 0 <= k < |word| :: word[k] != ' '
    ensures var env, n := word + (" " + rest), |word|;
            n < |env| && env[n] == ' ' && (forall k | 0 <= k < n :: env[k] != ' ') && env[n + 1..] == rest
  {
  }

  lemma WordEnd(env: seq<byte>, n: nat)
    requires n < |env| && env[n] == ' ' && forall k | 0 <= k < n :: env[k] != ' '
    ensures ParseFds(env, 0) == [Atoi(env[0..])] + ParseFds(env, n + 1)
  {
    hide Atoi, TokenEnd, ParseFds;
    ParseUnfold(env, 0);
    TokenEndAt(env, 0, n);
  }

  lemma AtoiDecimal(n: nat, rest: seq<byte>)
    requires rest != [] ==> rest[0] == SP
    ensures Atoi(Decimal(n) + rest) == n
  {
    var t := Decimal(n) + rest;
    assert In(Decimal(n)[0], DigitByte);
    assert t[0] == Decimal(n)[0];
    forall m | 0 <= m < |Decimal(n)| ensures In(t[m], DigitByte) {
      assert t[m] == Decimal(n)[m];
    }
    Scanner.SpanUnique(t, 0, DigitByte, |Decimal(n)|);
    assert t[0..|Decimal(n)|] == Decimal(n);
    DecimalValue(n);
  }

  lemma {:induction false} TokenEndAt(env: seq<byte>, i: nat, j: nat)
    requires i <= j <= |env| && (forall k | i <= k < j :: env[k] != SP) && (j < |env| ==> env[j] == SP)
    ensures TokenEnd(env, i) == j
    decreases j - i
  {
    if i < j {
      TokenEndAt(env, i + 1, j);
    }
  }

  lemma DecimalSpaceFree(n: nat)
    ensures forall k | 0 <= k < |Decimal(n)| :: Decimal(n)[k] != ' '
  {
    hide Decimal;
    forall k | 0 <= k < |Decimal(n)| ensures Decimal(n)[k] != ' ' {
      assert In(Decimal(n)[k], DigitByte);
    }
  }

  /** The new process reads back the descriptors the old one printed. */
  lemma {:induction false} FdsRoundTrip(fds: seq<nat>)
    requires fds != []
    ensures ParseFds(PrintFds(fds), 0) == fds
    decreases |fds|
  {
    hide Atoi, Decimal, TokenEnd, ParseFds;
    var first := Decimal(fds[0]);
    DecimalSpaceFree(fds[0]);
    if |fds| == 1 {
      assert first + [] == first;
      AtoiDecimal(fds[0], []);
      LastWord(first);
    } else {
      var rest := PrintFds(fds[1..]);
      AtoiDecimal(fds[0], " " + rest);
      FirstWord(first, rest);
      FdsRoundTrip(fds[1..]);
    }
  }
}
