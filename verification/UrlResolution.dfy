/**
 The part of `parse_url` in yotta.cpp that turns a request path into the name of the file to open.
 */
module UrlResolution {
  import opened Bytes
  import opened Layers
  import opened Paths
  import opened PathCleaning

  const MAX_URL_SIZE: nat := 1024
  const INDEX: Name := "index.html"

  /** The path up to the query string. */
  function Query(path: seq<byte>): (n: nat)
    ensures n <= |path| && (forall k | 0 <= k < n :: path[k] != '?') && (n < |path| ==> path[n] == '?')
    decreases |path|
  {
    if path == [] || path[0] == '?' then 0 else 1 + Query(path[1..])
  }

  predicate EndsInSlash(s: seq<byte>) {
    s != [] && s[|s| - 1] == SLASH
  }

  /** Whether a query-stripped path fits the buffer; if not the answer is 404. */
  predicate Fits(q: seq<byte>) {
    0 < |q| <= MAX_URL_SIZE - 20
  }

  /** Cleaned, with the trailing slash put back unless the cleaned path is a single byte. */
  function Slashed(q: seq<byte>): seq<byte> {
    var c := DOT + Clean(q);
    if EndsInSlash(q) && |c| != 2 then c + [SLASH] else c
  }

  /** Whether index.html is appended. */
  predicate Indexed(q: seq<byte>) {
    EndsInSlash(Slashed(q))
  }

  /** The name that has been assembled when its length is counted. */
  function Resolved(q: seq<byte>): seq<byte> {
    if Indexed(q) then Slashed(q) + INDEX else Slashed(q)
  }

  /** It is what is left of the path with its slash put back, and "index.html" behind a slash. */
  lemma ResolvedText(q: seq<byte>)
    ensures Resolved(q) == Slashed(q) + (if EndsInSlash(Slashed(q)) then "index.html" else [])
  {
    hide Slashed;
    assert Slashed(q) + [] == Slashed(q);
  }

  const NUL: byte := '\0'

  predicate NulFree(s: seq<byte>) {
    forall k | 0 <= k < |s| :: s[k] != NUL
  }

  function StrLen(s: seq<byte>): (n: nat)
    ensures n <= |s| && (forall k | 0 <= k < n :: s[k] != NUL) && (n < |s| ==> s[n] == NUL)
    decreases |s|
  {
    if s == [] || s[0] == NUL then 0 else 1 + StrLen(s[1..])
  }

  /** The C string that starts where `s` does. */
  function CString(s: seq<byte>): seq<byte> {
    s[..StrLen(s)]
  }

  /**
   The name that `open` is given: the array is read up to its first NUL, not up to the length that was counted. Only
   index.html brings a NUL of its own.
   */
  function Opened(q: seq<byte>): seq<byte> {
    CString(if Indexed(q) then Resolved(q) else DOT + Buffer(q))
  }

  lemma CStringFront(s: seq<byte>, n: nat)
    requires n < |s| && s[n] == NUL
    ensures CString(s) == CString(s[..n])
  {
    var k, m := StrLen(s), StrLen(s[..n]);
    assert k <= n;
    assert m <= k ==> m == k || m == n;
    assert m < n ==> s[..n][m] == NUL;
    assert k < n ==> s[..n][k] == NUL;
  }

  /** The buffer arithmetic of `parse_url`. A length of 0 stands for the answer 404. */
  method Resolve(path: seq<byte>) returns (buf: array<byte>, length: nat)
    ensures fresh(buf) && buf.Length == MAX_URL_SIZE
    ensures var q := path[..Query(path)];
            if Fits(q) then
              0 < length < MAX_URL_SIZE && buf[..length] == Resolved(q) && CString(buf[..]) == Opened(q)
            else length == 0
  {
    hide Clean, Buffer, Slashed, Holds, CString;
    buf := new byte[MAX_URL_SIZE](_ => NUL);
    var pos := 0;
    while pos < |path| && path[pos] != '?'
      invariant pos <= |path| && pos <= Query(path)
    {
      pos := pos + 1;
    }
    var q := path[..pos];
    if pos > MAX_URL_SIZE - 20 || pos == 0 {
      return buf, 0;
    }
    buf[0] := '.';
    ghost var before := buf[..];
    var n := CleanPath(q, buf, 1);
    CleanedArray(q, before, buf[..]);
    length := 1 + n;
    assert buf[..length] == [before[0]] + buf[1..length] == DOT + Clean(q);
    length := PutBackSlash(q, buf, length);
    length := PutIndex(q, buf, length);
    if Indexed(q) {
      CStringFront(buf[..], length);
      assert buf[..][..length] == buf[..length];
    }
  }

  /** What stands in the zero-filled array once the path has been cleaned behind the ".". */
  lemma CleanedArray(q: seq<byte>, before: seq<byte>, now: seq<byte>)
    requires |before| == MAX_URL_SIZE && before[0] == '.' && forall i | 0 < i < |before| :: before[i] == NUL
    requires Holds(before, now, 1, Buffer(q)) && 1 + |Buffer(q)| < MAX_URL_SIZE
    ensures now[0] == '.' && CString(now) == CString(DOT + Buffer(q))
  {
    hide Buffer, CString;
    var n := 1 + |Buffer(q)|;
    assert now[n] == before[n];
    CStringFront(now, n);
    assert now[..n] == [now[0]] + now[1..n];
  }

  method PutBackSlash(q: seq<byte>, buf: array<byte>, length0: nat) returns (length: nat)
    requires q != [] && 0 < length0 < buf.Length && buf[..length0] == DOT + Clean(q)
    modifies buf
    ensures length0 <= length <= length0 + 1 && buf[..length] == Slashed(q)
    ensures !Indexed(q) ==> buf[..] == old(buf[..])
  {
    hide Clean;
    length := length0;
    if q[|q| - 1] == SLASH && length != 2 {
      buf[length] := SLASH;
      length := length + 1;
      assert buf[..length] == buf[..length0] + [SLASH];
    }
  }

  /** Copies index.html and its terminating NUL behind a trailing slash. */
  method PutIndex(q: seq<byte>, buf: array<byte>, length0: nat) returns (length: nat)
    requires 0 < length0 && length0 + 11 <= buf.Length && buf[..length0] == Slashed(q)
    modifies buf
    ensures length0 <= length <= length0 + 10 && buf[..length] == Resolved(q)
    ensures if Indexed(q) then buf[length] == NUL else buf[..] == old(buf[..])
  {
    hide Slashed;
    length := length0;
    if buf[length - 1] == SLASH {
      ghost var before := buf[..length];
      forall i | 0 <= i < 10 {
        buf[length0 + i] := INDEX[i];
      }
      buf[length + 10] := NUL;
      length := length + 10;
      assert buf[..length] == before + INDEX;
    }
  }

  /** What `open` reads of its argument. */
  method ReadName(buf: array<byte>) returns (name: seq<byte>)
    ensures name == CString(buf[..])
  {
    var n := 0;
    while n < buf.Length && buf[n] != NUL
      invariant n <= buf.Length && n <= StrLen(buf[..])
    {
      n := n + 1;
    }
    name := buf[..n];
  }

  // ---------- The resolved name ----------

  function IndexPart(q: seq<byte>): seq<Name> {
    if Indexed(q) then [INDEX] else []
  }

  /** Appending the slash and index.html appends a component. */
  lemma IndexComponents(q: seq<byte>, cs: seq<Name>)
    requires EndsInSlash(q) && |DOT + Clean(q)| != 2 ==> Components(DOT + Clean(q)) == cs
    requires !(EndsInSlash(q) && |DOT + Clean(q)| != 2) ==>
               !EndsInSlash(DOT + Clean(q)) && Components(DOT + Clean(q)) == cs
    ensures Components(Resolved(q)) == cs + IndexPart(q)
  {
    hide Clean, Components;
    var c := DOT + Clean(q);
    if EndsInSlash(q) && |c| != 2 {
      assert Resolved(q) == c + ([SLASH] + INDEX);
      ComponentsConcat(c, INDEX);
      SingleComponent(INDEX);
    } else {
      assert cs + [] == cs;
    }
  }

  lemma JoinEnd(rooted: bool, st: seq<Name>, ups: nat)
    requires Normal(rooted, st, ups) && st != []
    ensures Join(st) != [] && !EndsInSlash(Join(st))
  {
    hide Normal, Components;
    NormalInit(rooted, st, ups);
    var j := Join(st);
    assert |st| == 1 ==> j == Last(st);
    assert j[|j| - 1] == Last(st)[|Last(st)| - 1];
  }

  /**
   A rooted request path resolves to "." followed by the names left on its stack, and by index.html exactly when the
   path ends in a slash or cleans to the root: no component is empty, "." or "..", and wherever the server stands, the
   name leads to that directory or below it.
   */
  lemma RootedResolution(q: seq<byte>, d: seq<Name>)
    requires Rooted(q)
    ensures (forall c | c in Stack(q) :: IsName(c))
    ensures Components(Resolved(q)) == [DOT] + Stack(q) + IndexPart(q)
    ensures IndexPart(q) != [] <==> EndsInSlash(q) || Stack(q) == []
    ensures Target(d, Resolved(q)) == d + Stack(q) + IndexPart(q)
  {
    hide Components, Normal, Walk, IsName, Stack, Resolved, Indexed, Join;
    StackNormal(q);
    var st := Stack(q);
    var ups :| Normal(true, st, ups);
    NamesOnly(st, ups);
    RootedComponents(q, ups);
    IndexIsName();
    WalkDown(d, st + IndexPart(q));
    assert [DOT] + st + IndexPart(q) == [DOT] + (st + IndexPart(q));
    assert d + (st + IndexPart(q)) == d + st + IndexPart(q);
  }

  lemma RootedComponents(q: seq<byte>, ups: nat)
    requires Rooted(q) && Normal(true, Stack(q), ups)
    ensures Components(Resolved(q)) == [DOT] + Stack(q) + IndexPart(q) && !Rooted(Resolved(q))
    ensures IndexPart(q) != [] <==> EndsInSlash(q) || Stack(q) == []
  {
    hide Components, Normal, Stack, Join;
    var st := Stack(q);
    var c := DOT + Clean(q);
    assert c == DOT + ([SLASH] + Join(st));
    ComponentsConcat(DOT, Join(st));
    SingleComponent(DOT);
    JoinNothing();
    if st == [] {
      assert c == "./" && Resolved(q) == DOT + ([SLASH] + INDEX);
      ComponentsConcat(DOT, INDEX);
      SingleComponent(INDEX);
      assert [DOT] + [] + [INDEX] == [DOT] + [INDEX];
    } else {
      ComponentsJoin(true, st, ups);
      JoinEnd(true, st, ups);
      assert c[|c| - 1] == Join(st)[|Join(st)| - 1];
      IndexComponents(q, [DOT] + st);
    }
  }

  lemma NamesOnly(st: seq<Name>, ups: nat)
    requires Normal(true, st, ups)
    ensures forall c | c in st :: IsName(c)
  {
  }

  lemma WalkDown(d: seq<Name>, names: seq<Name>)
    requires forall c | c in names :: IsName(c)
    ensures Walk(d, [DOT] + names) == d + names
  {
    hide Walk, IsName;
    WalkConcat(d, [DOT], names);
    WalkDot(d);
    assert Normal(false, names, 0);
    WalkNormal(false, d, names, 0);
    assert d[..|d|] + names[0..] == d + names;
  }

  lemma IndexIsName()
    ensures IsName(INDEX)
  {
    assert |INDEX| == 10;
  }

  lemma WalkDot(d: seq<Name>)
    ensures Walk(d, [DOT]) == d
  {
    assert [DOT][1..] == [];
  }

  /**
   A path that is not rooted is pasted to the "." without a slash. Its resolved name has a ".." component exactly when
   nothing is left of the path or it leads out by two levels or more.
   */
  lemma UnrootedResolution(q: seq<byte>)
    requires !Rooted(q)
    ensures DOTDOT in Components(Resolved(q)) <==> Stack(q) == [] || (|Stack(q)| >= 2 && Stack(q)[1] == DOTDOT)
  {
    hide Components, Fold, Normal, IsName;
    StackNormal(q);
    var st := Stack(q);
    var ups :| Normal(false, st, ups);
    var c := DOT + Clean(q);
    if st == [] {
      assert c == DOTDOT && Resolved(q) == DOTDOT;
      SingleComponent(DOTDOT);
    } else {
      JoinEnd(false, st, ups);
      assert c == DOT + Join(st) && c[|c| - 1] == Join(st)[|Join(st)| - 1];
      PastedComponents(st, ups);
      var cs := [DOT + st[0]] + st[1..];
      IndexComponents(q, cs);
      PastedDotDot(st, ups, IndexPart(q));
    }
  }

  lemma PastedComponents(st: seq<Name>, ups: nat)
    requires Normal(false, st, ups) && st != []
    ensures Components(DOT + Join(st)) == [DOT + st[0]] + st[1..]
  {
    hide Normal, Components, Join;
    SeamSingle(DOT, Join(st));
    ComponentsJoin(false, st, ups);
  }

  lemma PastedDotDot(st: seq<Name>, ups: nat, index: seq<Name>)
    requires Normal(false, st, ups) && st != [] && (index == [] || index == [INDEX])
    ensures DOTDOT in [DOT + st[0]] + st[1..] + index <==> |st| >= 2 && st[1] == DOTDOT
  {
    var cs := [DOT + st[0]] + st[1..] + index;
    assert ups >= 2 ==> st[1] == DOTDOT;
    if |st| >= 2 && st[1] == DOTDOT {
      assert cs[1] == DOTDOT;
    } else {
      assert (DOT + st[0])[1..] == st[0] && DOTDOT[1..] == DOT;
      assert |INDEX| != |DOTDOT|;
    }
  }

  // ---------- The name that is opened ----------

  lemma CStringWhole(s: seq<byte>)
    requires NulFree(s)
    ensures CString(s) == s
  {
  }

  lemma {:induction false} ComponentsNulFree(s: seq<byte>)
    requires NulFree(s)
    ensures forall c | c in Components(s) :: NulFree(c)
    decreases |s|
  {
    hide Components, Cut;
    ComponentsCut(s);
    if Cut(s) < |s| {
      ComponentsNulFree(s[Cut(s) + 1..]);
    }
  }

  lemma {:induction false} JoinNulFree(st: seq<Name>)
    requires forall c | c in st :: NulFree(c)
    ensures NulFree(Join(st))
    decreases |st|
  {
    if |st| > 1 {
      JoinNulFree(Init(st));
      assert NulFree(Last(st));
    } else if |st| == 1 {
      assert st[0] in st;
    }
  }

  lemma {:induction false} LayeredNulFree(rooted: bool, st: seq<Name>, body: seq<byte>, cs: seq<Name>)
    requires (forall c | c in st + cs :: NulFree(c)) && NulFree(body)
    ensures NulFree(Layered(rooted, st, body, cs))
    decreases |cs|
  {
    hide Join, NulFree;
    if cs != [] {
      var u := Push(rooted, st, cs[0]);
      forall c | c in u + cs[1..] ensures NulFree(c) {
        assert c in st + cs;
      }
      JoinNulFree(u);
      OverlayNulFree(Join(u), body);
      LayeredNulFree(rooted, u, Overlay(Join(u), body), cs[1..]);
    }
  }

  lemma OverlayNulFree(top: seq<byte>, bottom: seq<byte>)
    requires NulFree(top) && NulFree(bottom)
    ensures NulFree(Overlay(top, bottom))
  {
  }

  lemma BufferNulFree(q: seq<byte>)
    requires NulFree(q)
    ensures NulFree(Buffer(q)) && NulFree(Resolved(q))
  {
    hide Layered, Components, Clean, NulFree;
    ComponentsNulFree(q);
    NulFreeParts();
    LayeredNulFree(Rooted(q), [], [], Components(q));
    assert [] + Components(q) == Components(q);
    BufferIs(q);
    OverlayNulFree(DOT, Written(q));
    ConcatNulFree(Root(Rooted(q)), Written(q));
    ConcatNulFree(Clean(q), Buffer(q)[|Clean(q)|..]);
    assert Buffer(q) == Clean(q) + Buffer(q)[|Clean(q)|..];
    ConcatNulFree(DOT, Clean(q));
    ConcatNulFree(DOT + Clean(q), [SLASH]);
    ConcatNulFree(Slashed(q), INDEX);
  }

  lemma NulFreeParts()
    ensures NulFree([]) && NulFree([SLASH]) && NulFree(DOT) && NulFree(INDEX)
  {
  }

  lemma ConcatNulFree(a: seq<byte>, b: seq<byte>)
    ensures NulFree(a + b) <==> NulFree(a) && NulFree(b)
  {
    if NulFree(a + b) {
      forall k | 0 <= k < |a| ensures a[k] != NUL {
        assert (a + b)[k] == a[k];
      }
      forall k | 0 <= k < |b| ensures b[k] != NUL {
        assert (a + b)[|a| + k] == b[k];
      }
    }
  }

  /** What is opened for a path without NUL, as are all the parser lets through. */
  lemma OpenedIs(q: seq<byte>)
    requires NulFree(q)
    ensures Opened(q) == if Indexed(q) then Resolved(q) else DOT + Buffer(q)
  {
    hide Buffer, Resolved;
    BufferNulFree(q);
    CStringWhole(if Indexed(q) then Resolved(q) else DOT + Buffer(q));
  }

  /** The name opened is the resolved one exactly when index.html ends it or no front of the path renders longer. */
  lemma OpenedExact(q: seq<byte>)
    requires NulFree(q)
    ensures Opened(q) == Resolved(q) <==> Indexed(q) || NeverLonger(Rooted(q), Components(q), |Clean(q)|)
  {
    hide Buffer, Clean, NeverLonger, Components, Opened;
    OpenedIs(q);
    BufferClean(q);
    if !Indexed(q) {
      assert Resolved(q) == DOT + Clean(q);
      assert (DOT + Clean(q))[1..] == Clean(q) && (DOT + Buffer(q))[1..] == Buffer(q);
    }
  }

  /**
   Whatever stale bytes stand behind the cleaned path, what is opened for a rooted path is "." followed by proper names:
   wherever the server stands, it is that directory or below it.
   */
  lemma RootedOpened(q: seq<byte>, d: seq<Name>)
    requires Rooted(q) && NulFree(q)
    ensures var cs := Components(Opened(q));
            && cs[0] == DOT && (forall k | 1 <= k < |cs| :: IsName(cs[k]))
            && Target(d, Opened(q)) == d + cs[1..]
  {
    hide Components, Normal, Walk, IsName, Buffer, Written, Stack, Clean, Opened;
    OpenedIs(q);
    RootedResolution(q, d);
    var names := Stack(q) + IndexPart(q);
    IndexIsName();
    if Indexed(q) {
      assert Components(Opened(q)) == [DOT] + names;
    } else {
      BufferIs(q);
      names := Components(Written(q));
      assert Opened(q) == DOT + ([SLASH] + Written(q));
      ComponentsConcat(DOT, Written(q));
      SingleComponent(DOT);
      WrittenOfRooted(q);
    }
    assert Components(Opened(q))[1..] == names;
    assert !Rooted(Opened(q));
    WalkDown(d, names);
  }

  lemma WrittenOfRooted(q: seq<byte>)
    requires Rooted(q) && Stack(q) != []
    ensures forall c | c in Components(Written(q)) :: IsName(c)
  {
    hide Components, Layered, IsName, Stack;
    var ups := WrittenNames(q);
    StackOnTop(true, Components(q));
    WrittenDef(q);
    JoinUnrooted(Stack(q), ups, true);
    NormalFloor(Stack(q), ups);
  }

  lemma NormalFloor(st: seq<Name>, ups: nat)
    requires Normal(true, st, ups)
    ensures ups == 0
  {
  }

  /** No front of the path renders to more than `n` bytes, or the longest that does has a slash behind them. */
  predicate Broken(q: seq<byte>, n: nat) {
    var t := Top(Rooted(q), Components(q), n);
    t == [] || t[n] == SLASH
  }

  /**
   When something with a ".." component is opened for a path that is not rooted: what is left of the path must be
   nothing, or lead out by two levels or more, and if these ".."s end the name no stale byte may stand right behind.
   */
  lemma UnrootedOpened(q: seq<byte>)
    requires !Rooted(q) && NulFree(q)
    ensures DOTDOT in Components(Opened(q)) <==>
              || (Stack(q) == [] && Broken(q, 1))
              || (|Stack(q)| >= 2 && Stack(q)[1] == DOTDOT && (Indexed(q) || |Stack(q)| >= 3 || Broken(q, 5)))
  {
    hide Components, Normal, Buffer, Written, Stack, Opened, Broken;
    OpenedIs(q);
    BufferIs(q);
    var ups := WrittenNames(q);
    if Indexed(q) {
      UnrootedResolution(q);
      EmptyNotIndexed(q);
    } else if Stack(q) == [] {
      NothingLeft(q, ups);
    } else {
      assert Root(false) + Written(q) == Written(q);
      SomethingLeft(q, ups);
    }
  }

  lemma EmptyNotIndexed(q: seq<byte>)
    requires !Rooted(q)
    ensures Stack(q) == [] ==> !Indexed(q)
  {
    hide Stack;
    assert Stack(q) == [] ==> Clean(q) == DOT;
    assert DOT + DOT == DOTDOT;
  }

  /** What the byte behind the top `n` bytes says about the component they end in. */
  lemma BrokenIs(q: seq<byte>, n: nat)
    requires !Rooted(q) && n <= |Written(q)|
    ensures Broken(q, n) <==> Components(Written(q)[n..])[0] == []
  {
    hide Components, Layered, Top;
    TopByte(false, Components(q), n);
    var t := Written(q)[n..];
    ComponentsCut(t);
    if t != [] {
      assert t[0] == Written(q)[n];
      assert Cut(t) == 0 <==> t[0] == SLASH;
    }
  }

  lemma NothingLeft(q: seq<byte>, ups: nat)
    requires !Rooted(q) && Stack(q) == [] && Normal(false, [], ups) && NamesFrom(Written(q), ups)
    ensures DOTDOT in Components(DOT + Overlay(DOT, Written(q))) <==> Broken(q, 1)
  {
    hide Components, Written, Stack, Broken, Layered;
    var w := Written(q);
    SingleComponent(DOTDOT);
    if |w| <= 1 {
      assert DOT + DOT == DOTDOT;
      ShortIsBroken(q);
    } else {
      var t := w[1..];
      assert DOT + Overlay(DOT, w) == DOTDOT + t;
      SeamSingle(DOTDOT, t);
      BrokenIs(q, 1);
      forall j | 0 < j < |Components(t)| ensures Components(t)[j] != DOTDOT {
        TailComponents(false, [], 0, w, 1, j);
      }
      SameStart(DOTDOT, Components(t)[0]);
    }
  }

  lemma ShortIsBroken(q: seq<byte>)
    requires !Rooted(q) && |Written(q)| <= 1
    ensures Broken(q, 1)
  {
    hide Components, Layered, Top;
    TopByte(false, Components(q), 1);
  }

  lemma SeamSingle(c: Name, t: seq<byte>)
    requires SlashFree(c)
    ensures Components(c + t) == [c + Components(t)[0]] + Components(t)[1..]
  {
    hide Components;
    SingleComponent(c);
    Seam(c, t);
  }

  lemma SameStart(c: Name, t: Name)
    ensures c + t == c <==> t == []
  {
  }

  lemma SomethingLeft(q: seq<byte>, ups: nat)
    requires !Rooted(q) && Stack(q) != [] && Normal(false, Stack(q), ups) && NamesFrom(Written(q), ups)
    ensures DOTDOT in Components(DOT + Written(q)) <==>
              |Stack(q)| >= 2 && Stack(q)[1] == DOTDOT && (|Stack(q)| >= 3 || Broken(q, 5))
  {
    hide Components, Written, Stack, Broken, Layered, Join, IsName;
    var st, w := Stack(q), Written(q);
    StackOnTop(false, Components(q));
    assert Join(st) <= w by {
      WrittenDef(q);
    }
    var t := w[|Join(st)|..];
    assert w == Join(st) + t;
    JoinUnrooted(st, ups, false);
    JoinSeam(false, st, ups, t);
    var cs := Components(w);
    SeamSingle(DOT, w);
    FirstNotDot(st, ups, cs[0], if |st| == 1 then Components(t)[0] else []);
    forall k | ups <= k < |cs| ensures cs[k] != DOTDOT {
      assert IsName(cs[k]);
      NameFacts(cs[k]);
    }
    assert DOTDOT in Components(DOT + w) <==> exists k :: 1 <= k < |cs| && cs[k] == DOTDOT by {
      InTail(DOT + cs[0], cs);
    }
    if ups >= 2 {
      assert st[1] == DOTDOT;
      if |st| >= 3 {
        assert cs[1] == DOTDOT;
      } else {
        TwoUps(st);
        BrokenIs(q, 5);
        SameStart(DOTDOT, Components(t)[0]);
        assert cs[1] == DOTDOT + Components(t)[0];
      }
    } else if |st| >= 2 {
      assert IsName(st[1]);
      NameFacts(st[1]);
    }
  }

  lemma WrittenDef(q: seq<byte>)
    ensures Written(q) == Layered(Rooted(q), [], [], Components(q))
    ensures Stack(q) == Fold(Rooted(q), [], Components(q))
  {
  }

  lemma InTail(c: Name, cs: seq<Name>)
    requires cs != [] && c != DOTDOT
    ensures DOTDOT in [c] + cs[1..] <==> exists k :: 1 <= k < |cs| && cs[k] == DOTDOT
  {
    if k :| 1 <= k < |cs| && cs[k] == DOTDOT {
      assert ([c] + cs[1..])[k] == DOTDOT;
    }
  }

  lemma FirstNotDot(st: seq<Name>, ups: nat, c: Name, t: Name)
    requires Normal(false, st, ups) && st != [] && c == st[0] + t
    ensures DOT + c != DOTDOT
  {
    assert st[0] != [] && st[0] != DOT;
    assert (DOT + c)[1..] == c && DOTDOT[1..] == DOT;
    assert c[..|st[0]|] == st[0];
    assert DOT[..1] == DOT;
  }

  lemma TwoUps(st: seq<Name>)
    requires |st| == 2 && st[0] == DOTDOT && st[1] == DOTDOT
    ensures |Join(st)| == 5
  {
    assert Init(st) == [DOTDOT];
  }

  // ---------- Paths that are opened under another name than they resolve to ----------

  /** A component that reads as a name. */
  lemma ReadDown(rooted: bool, st: seq<Name>, body: seq<byte>, c: Name, cs: seq<Name>)
    requires IsName(c)
    ensures Layered(rooted, st, body, [c] + cs) == Layered(rooted, st + [c], Overlay(Join(st + [c]), body), cs)
    ensures Fold(rooted, st, [c] + cs) == Fold(rooted, st + [c], cs)
  {
    LayeredHead(rooted, st, body, c, cs);
    assert ([c] + cs)[1..] == cs;
  }

  /** ".." behind a name, which stays in the array. */
  lemma ReadUp(rooted: bool, st: seq<Name>, body: seq<byte>, cs: seq<Name>)
    requires st != [] && Last(st) != DOTDOT && Join(Init(st)) <= body
    ensures Layered(rooted, st, body, [DOTDOT] + cs) == Layered(rooted, Init(st), body, cs)
    ensures Fold(rooted, st, [DOTDOT] + cs) == Fold(rooted, Init(st), cs)
  {
    LayeredHead(rooted, st, body, DOTDOT, cs);
    OverlayPrefix(Join(Init(st)), body);
    assert ([DOTDOT] + cs)[1..] == cs;
  }

  lemma ReadNothing(rooted: bool, st: seq<Name>, body: seq<byte>)
    ensures Layered(rooted, st, body, []) == body && Fold(rooted, st, []) == st
  {
  }

  /** The text of components. */
  lemma {:induction false} ComponentsOf(cs: seq<Name>)
    requires cs != [] && forall c | c in cs :: SlashFree(c)
    ensures Components(Join(cs)) == cs
    decreases |cs|
  {
    hide Components;
    SingleComponent(Last(cs));
    if |cs| == 1 {
      assert cs == [Last(cs)];
    } else {
      ComponentsOf(Init(cs));
      ComponentsConcat(Join(Init(cs)), Last(cs));
      assert cs == Init(cs) + [Last(cs)];
    }
  }

  lemma JoinOne(a: Name)
    ensures Join([a]) == a
  {
  }

  lemma JoinTwo(a: Name, b: Name)
    ensures Join([a, b]) == a + ([SLASH] + b)
  {
    assert Init([a, b]) == [a];
  }

  lemma JoinFour(a: Name, b: Name, c: Name, d: Name)
    ensures Join([a, b, c, d]) == a + ([SLASH] + b) + ([SLASH] + c) + ([SLASH] + d)
  {
    JoinTwo(a, b);
    assert Init([a, b, c]) == [a, b];
    assert Init([a, b, c, d]) == [a, b, c];
  }

  lemma DownUp(a: Name)
    requires IsName(a)
    ensures var q := Join([a, DOTDOT]); !Rooted(q) && Written(q) == a && Stack(q) == []
  {
    hide Components, Layered, Fold, Join;
    ComponentsOf([a, DOTDOT]);
    assert [a, DOTDOT] == [a] + ([DOTDOT] + []);
    JoinOne(a);
    JoinTwo(a, DOTDOT);
    JoinNothing();
    assert [] + [a] == [a] && Init([a]) == [];
    ReadDown(false, [], [], a, [DOTDOT] + []);
    ReadUp(false, [a], a, []);
    ReadNothing(false, [], a);
  }

  lemma DownDownUpUp(a: Name, b: Name)
    requires IsName(a) && IsName(b)
    ensures var q := Join([a, b, DOTDOT, DOTDOT]); !Rooted(q) && Written(q) == a + ([SLASH] + b) && Stack(q) == []
  {
    hide Components, Layered, Fold, Join;
    ComponentsOf([a, b, DOTDOT, DOTDOT]);
    assert [a, b, DOTDOT, DOTDOT] == [a] + ([b] + ([DOTDOT] + ([DOTDOT] + [])));
    JoinOne(a);
    JoinTwo(a, b);
    JoinFour(a, b, DOTDOT, DOTDOT);
    JoinNothing();
    var w := a + ([SLASH] + b);
    assert [] + [a] == [a] && [a] + [b] == [a, b] && Init([a, b]) == [a] && Init([a]) == [];
    ReadDown(false, [], [], a, [b] + ([DOTDOT] + ([DOTDOT] + [])));
    ReadDown(false, [a], a, b, [DOTDOT] + ([DOTDOT] + []));
    ReadUp(false, [a, b], w, [DOTDOT] + []);
    ReadUp(false, [a], w, []);
    ReadNothing(false, [], w);
  }

  lemma RootDownDownUp(a: Name, b: Name)
    requires IsName(a) && IsName(b)
    ensures var q := Join([[], a, b, DOTDOT]); Rooted(q) && Written(q) == a + ([SLASH] + b) && Stack(q) == [a]
  {
    hide Components, Layered, Fold, Join;
    ComponentsOf([[], a, b, DOTDOT]);
    var cs := [a] + ([b] + ([DOTDOT] + []));
    assert [[], a, b, DOTDOT] == [[]] + cs;
    JoinOne(a);
    JoinTwo(a, b);
    JoinFour([], a, b, DOTDOT);
    JoinNothing();
    var w := a + ([SLASH] + b);
    assert [] + [a] == [a] && [a] + [b] == [a, b] && Init([a, b]) == [a];
    LayeredHead(true, [], [], [], cs);
    assert ([[]] + cs)[1..] == cs;
    assert Fold(true, [], [[]] + cs) == Fold(true, [], cs) by {
      FoldConcat(true, [], [[]], cs);
      FoldOne(true, [], []);
    }
    ReadDown(true, [], [], a, [b] + ([DOTDOT] + []));
    ReadDown(true, [a], a, b, [DOTDOT] + []);
    ReadUp(true, [a, b], w, []);
    ReadNothing(true, [a], w);
  }

  /** What is left of this path is the served directory; what is opened is something else in it. */
  lemma OpensBeside()
    ensures Clean("ab/..") == "." && Opened("ab/..") == "..b"
  {
    hide Opened, Buffer, Written, Stack, Join;
    DownUp("ab");
    JoinTwo("ab", "..");
    JoinNothing();
    assert "ab" + ([SLASH] + "..") == "ab/..";
    BufferIs("ab/..");
    OpenedIs("ab/..");
    assert Overlay(DOT, "ab") == ".b";
    assert DOT + ".b" == "..b";
  }

  /** Two directories down and up again: the file that is opened is one level above the served directory. */
  lemma OpensAbove()
    ensures Clean("a/b/../..") == "." && Opened("a/b/../..") == "../b"
  {
    hide Opened, Buffer, Written, Stack, Join;
    DownDownUpUp("a", "b");
    JoinFour("a", "b", "..", "..");
    JoinNothing();
    assert "a" + ([SLASH] + "b") + ([SLASH] + "..") + ([SLASH] + "..") == "a/b/../..";
    BufferIs("a/b/../..");
    OpenedIs("a/b/../..");
    assert Overlay(DOT, "a" + ([SLASH] + "b")) == "./b";
    assert DOT + "./b" == "../b";
  }

  /** A rooted path stays inside, but not where it resolves to. */
  lemma OpensOther()
    ensures Resolved("/x/y/..") == "./x" && Opened("/x/y/..") == "./x/y"
  {
    hide Opened, Buffer, Written, Stack, Join;
    RootDownDownUp("x", "y");
    JoinFour([], "x", "y", "..");
    JoinOne("x");
    assert [] + ([SLASH] + "x") + ([SLASH] + "y") + ([SLASH] + "..") == "/x/y/..";
    BufferIs("/x/y/..");
    OpenedIs("/x/y/..");
    assert Clean("/x/y/..") == "/x";
    assert DOT + "/x" == "./x";
    assert Root(true) + ("x" + ([SLASH] + "y")) == "/x/y" && DOT + "/x/y" == "./x/y";
  }
}
