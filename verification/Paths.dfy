/**
 What `clean_path` of yta_http.cpp computes, as a stack of path components, and the laws of that function.
 */
module Paths {
  import opened Bytes

  type Name = seq<byte>

  const SLASH: byte := '/'
  const DOT: Name := "."
  const DOTDOT: Name := ".."

  predicate SlashFree(s: seq<byte>) {
    forall k | 0 <= k < |s| :: s[k] != SLASH
  }

  /** Where the first component of `s` ends. */
  function Cut(s: seq<byte>): (n: nat)
    ensures n <= |s| && SlashFree(s[..n])
    ensures n < |s| ==> s[n] == SLASH
    decreases |s|
  {
    if s == [] || s[0] == SLASH then 0 else
    var n := 1 + Cut(s[1..]);
    assert s[..n] == [s[0]] + s[1..][..n - 1];
    n
  }

  /** The texts between the slashes of `s`. */
  function Components(s: seq<byte>): (cs: seq<Name>)
    ensures cs != []
    decreases |s|
  {
    var n := Cut(s);
    if n == |s| then [s] else [s[..n]] + Components(s[n + 1..])
  }

  function Init(st: seq<Name>): seq<Name>
    requires st != []
  {
    st[..|st| - 1]
  }

  function Last(st: seq<Name>): Name
    requires st != []
  {
    st[|st| - 1]
  }

  /** What one component does to the stack of a path. */
  function Push(rooted: bool, st: seq<Name>, c: Name): seq<Name> {
    if c == [] || c == DOT then st
    else if c != DOTDOT then st + [c]
    else if st != [] && Last(st) != DOTDOT then Init(st)
    else if rooted then st
    else st + [c]
  }

  function Fold(rooted: bool, st: seq<Name>, cs: seq<Name>): seq<Name>
    decreases |cs|
  {
    if cs == [] then st else Fold(rooted, Push(rooted, st, cs[0]), cs[1..])
  }

  predicate Rooted(p: seq<byte>) {
    p != [] && p[0] == SLASH
  }

  function Stack(p: seq<byte>): seq<Name> {
    Fold(Rooted(p), [], Components(p))
  }

  function Join(st: seq<Name>): seq<byte> {
    if st == [] then [] else if |st| == 1 then st[0] else Join(Init(st)) + ([SLASH] + Last(st))
  }

  function Render(rooted: bool, st: seq<Name>): seq<byte> {
    if rooted then [SLASH] + Join(st) else Join(st)
  }

  /** The cleaned path. */
  function Clean(p: seq<byte>): (r: seq<byte>)
    ensures r != []
  {
    var r := Render(Rooted(p), Stack(p));
    if r == [] then DOT else r
  }

  // ---------- Stacks in normal form ----------

  predicate IsName(c: Name) {
    c != [] && SlashFree(c) && c != DOT && c != DOTDOT
  }

  /** First the components that lead out, of which a rooted path has none, then names. */
  predicate Normal(rooted: bool, st: seq<Name>, ups: nat) {
    && ups <= |st| && (rooted ==> ups == 0)
    && (forall k | 0 <= k < ups :: st[k] == DOTDOT)
    && (forall k | ups <= k < |st| :: IsName(st[k]))
  }

  ghost predicate IsNormal(rooted: bool, st: seq<Name>) {
    exists ups :: Normal(rooted, st, ups)
  }

  function PushUps(rooted: bool, st: seq<Name>, ups: nat, c: Name): nat {
    if c == DOTDOT && |st| == ups && !rooted then ups + 1 else ups
  }

  lemma PushNormal(rooted: bool, st: seq<Name>, ups: nat, c: Name)
    requires Normal(rooted, st, ups) && SlashFree(c)
    ensures Normal(rooted, Push(rooted, st, c), PushUps(rooted, st, ups, c))
  {
  }

  lemma ComponentsSlashFree(s: seq<byte>)
    ensures forall c | c in Components(s) :: SlashFree(c)
    decreases |s|
  {
  }

  lemma {:induction false} FoldNormal(rooted: bool, st: seq<Name>, cs: seq<Name>)
    requires IsNormal(rooted, st) && forall c | c in cs :: SlashFree(c)
    ensures IsNormal(rooted, Fold(rooted, st, cs))
    decreases |cs|
  {
    if cs != [] {
      var ups :| Normal(rooted, st, ups);
      PushNormal(rooted, st, ups, cs[0]);
      FoldNormal(rooted, Push(rooted, st, cs[0]), cs[1..]);
    }
  }

  lemma StackNormal(p: seq<byte>)
    ensures IsNormal(Rooted(p), Stack(p))
  {
    ComponentsSlashFree(p);
    assert Normal(Rooted(p), [], 0);
    FoldNormal(Rooted(p), [], Components(p));
  }

  // ---------- Splitting and joining ----------

  lemma {:induction false} ComponentsConcat(a: seq<byte>, b: seq<byte>)
    ensures Components(a + ([SLASH] + b)) == Components(a) + Components(b)
    decreases |a|
  {
    hide Cut, Components;
    var n := Cut(a);
    CutConcat(a, b);
    ComponentsCut(a);
    ComponentsCut(a + ([SLASH] + b));
    if n < |a| {
      ComponentsConcat(a[n + 1..], b);
      assert [a[..n]] + (Components(a[n + 1..]) + Components(b)) == [a[..n]] + Components(a[n + 1..]) + Components(b);
    }
  }

  lemma ComponentsCut(s: seq<byte>)
    ensures Components(s) == if Cut(s) == |s| then [s] else [s[..Cut(s)]] + Components(s[Cut(s) + 1..])
  {
  }

  /** Where the first component of a joined path ends, and what comes after it. */
  lemma CutConcat(a: seq<byte>, b: seq<byte>)
    ensures var s := a + ([SLASH] + b); var n := Cut(a);
            && n <= |a| && Cut(s) == n && n < |s| && s[..n] == a[..n]
            && (n == |a| ==> a[..n] == a && s[n + 1..] == b)
            && (n < |a| ==> s[n + 1..] == a[n + 1..] + ([SLASH] + b))
  {
    var s := a + ([SLASH] + b);
    CutIs(s, Cut(a));
  }

  lemma {:induction false} CutIs(s: seq<byte>, n: nat)
    requires n <= |s| && (forall k | 0 <= k < n :: s[k] != SLASH) && (n < |s| ==> s[n] == SLASH)
    ensures Cut(s) == n
    decreases n
  {
    if n > 0 {
      CutIs(s[1..], n - 1);
    }
  }

  lemma {:induction false} FoldConcat(rooted: bool, st: seq<Name>, a: seq<Name>, b: seq<Name>)
    ensures Fold(rooted, st, a + b) == Fold(rooted, Fold(rooted, st, a), b)
    decreases |a|
  {
    if a == [] {
      assert a + b == b;
    } else {
      assert (a + b)[1..] == a[1..] + b;
      FoldConcat(rooted, Push(rooted, st, a[0]), a[1..], b);
    }
  }

  lemma SingleComponent(c: seq<byte>)
    requires SlashFree(c)
    ensures Components(c) == [c]
  {
    CutIs(c, |c|);
  }

  lemma FoldOne(rooted: bool, st: seq<Name>, c: Name)
    ensures Fold(rooted, st, [c]) == Push(rooted, st, c)
  {
    assert [c][1..] == [];
  }

  /** A leading or doubled slash adds an empty component, which does nothing. */
  lemma FoldSlash(rooted: bool, st: seq<Name>, s: seq<byte>)
    ensures Fold(rooted, st, Components([SLASH] + s)) == Fold(rooted, st, Components(s))
  {
    ComponentsConcat([], s);
    assert [] + ([SLASH] + s) == [SLASH] + s;
    SingleComponent([]);
    FoldConcat(rooted, st, [[]], Components(s));
    FoldOne(rooted, st, []);
  }

  lemma NormalInit(rooted: bool, st: seq<Name>, ups: nat)
    requires Normal(rooted, st, ups) && st != []
    ensures Normal(rooted, Init(st), if ups == |st| then ups - 1 else ups)
    ensures Push(rooted, Init(st), Last(st)) == st && SlashFree(Last(st)) && Last(st) != []
  {
  }

  /** Reading back the joined form of a stack in normal form gives the stack. */
  lemma {:induction false} FoldJoin(rooted: bool, st: seq<Name>, ups: nat)
    requires Normal(rooted, st, ups)
    ensures Fold(rooted, [], Components(Join(st))) == st
    decreases |st|
  {
    hide Normal, Components;
    if st == [] {
      SingleComponent([]);
      FoldOne(rooted, [], []);
    } else {
      NormalInit(rooted, st, ups);
      SingleComponent(Last(st));
      if |st| == 1 {
        assert Join(st) == Last(st) && Init(st) == [];
        FoldOne(rooted, [], Last(st));
      } else {
        FoldJoin(rooted, Init(st), if ups == |st| then ups - 1 else ups);
        ComponentsConcat(Join(Init(st)), Last(st));
        FoldConcat(rooted, [], Components(Join(Init(st))), [Last(st)]);
        FoldOne(rooted, Init(st), Last(st));
      }
    }
  }

  lemma {:induction false} JoinFirst(st: seq<Name>)
    requires st != [] && st[0] != []
    ensures st[0] <= Join(st)
    decreases |st|
  {
    if |st| > 1 {
      JoinFirst(Init(st));
    }
  }

  lemma JoinUnrooted(st: seq<Name>, ups: nat, rooted: bool)
    requires Normal(rooted, st, ups)
    ensures !Rooted(Join(st)) && (st != [] ==> Join(st) != [])
  {
    if st != [] {
      NormalFirst(rooted, st, ups);
      JoinFirst(st);
      assert Join(st)[0] == st[0][0];
    }
  }

  lemma NormalFirst(rooted: bool, st: seq<Name>, ups: nat)
    requires Normal(rooted, st, ups) && st != []
    ensures st[0] != [] && st[0][0] != SLASH
  {
  }

  lemma DotClean()
    ensures Stack(DOT) == [] && !Rooted(DOT)
  {
    SingleComponent(DOT);
    FoldOne(false, [], DOT);
  }

  /** The cleaned path has the root and the stack of the path. */
  lemma CleanStack(p: seq<byte>)
    ensures Rooted(Clean(p)) == Rooted(p) && Stack(Clean(p)) == Stack(p)
  {
    hide Normal, Components, Fold;
    StackNormal(p);
    var st := Stack(p);
    var ups :| Normal(Rooted(p), st, ups);
    FoldJoin(Rooted(p), st, ups);
    JoinUnrooted(st, ups, Rooted(p));
    if Rooted(p) {
      FoldSlash(true, [], Join(st));
    } else if st == [] {
      DotClean();
    }
  }

  // ---------- The laws ----------

  lemma CleanIdempotent(p: seq<byte>)
    ensures Clean(Clean(p)) == Clean(p)
  {
    CleanStack(p);
  }

  /** Cleaning the front of a path first makes no difference, exactly when that front is not empty. */
  lemma CleanConcat(a: seq<byte>, b: seq<byte>)
    ensures Clean(a + ([SLASH] + b)) == Clean(Clean(a) + ([SLASH] + b)) <==> a != []
  {
    hide Components, Fold, Clean;
    var s, t := a + ([SLASH] + b), Clean(a) + ([SLASH] + b);
    CleanStack(a);
    CleanStack(s);
    CleanStack(t);
    ComponentsConcat(a, b);
    ComponentsConcat(Clean(a), b);
    FoldConcat(Rooted(a), [], Components(a), Components(b));
    FoldConcat(Rooted(a), [], Components(Clean(a)), Components(b));
    if a != [] {
      assert Rooted(s) == Rooted(a) == Rooted(t);
      SameStack(s, t);
    } else {
      assert Rooted(s) && !Rooted(t);
    }
  }

  lemma SameStack(p: seq<byte>, q: seq<byte>)
    ensures Clean(p) == Clean(q) <==> Rooted(p) == Rooted(q) && Stack(p) == Stack(q)
  {
    CleanStack(p);
    CleanStack(q);
  }

  // ---------- What a path means ----------

  /** One step from a directory, given by the names that lead to it from the root. */
  function WalkOne(d: seq<Name>, c: Name): seq<Name> {
    if c == [] || c == DOT then d
    else if c == DOTDOT then if d == [] then d else Init(d)
    else d + [c]
  }

  function Walk(d: seq<Name>, cs: seq<Name>): seq<Name>
    decreases |cs|
  {
    if cs == [] then d else Walk(WalkOne(d, cs[0]), cs[1..])
  }

  /** Where a path leads, without regard to links, for somebody who stands in `d`. */
  function Target(d: seq<Name>, p: seq<byte>): seq<Name> {
    Walk(if Rooted(p) then [] else d, Components(p))
  }

  lemma {:induction false} WalkConcat(d: seq<Name>, a: seq<Name>, b: seq<Name>)
    ensures Walk(d, a + b) == Walk(Walk(d, a), b)
    decreases |a|
  {
    if a == [] {
      assert a + b == b;
    } else {
      assert (a + b)[1..] == a[1..] + b;
      WalkConcat(WalkOne(d, a[0]), a[1..], b);
    }
  }

  lemma WalkSnoc(d: seq<Name>, st: seq<Name>)
    requires st != []
    ensures Walk(d, st) == WalkOne(Walk(d, Init(st)), Last(st))
  {
    assert st == Init(st) + [Last(st)];
    WalkConcat(d, Init(st), [Last(st)]);
    assert [Last(st)][1..] == [];
  }

  lemma WalkPush(rooted: bool, d: seq<Name>, st: seq<Name>, ups: nat, c: Name)
    requires Normal(rooted, st, ups) && (rooted ==> d == [])
    ensures Walk(d, Push(rooted, st, c)) == WalkOne(Walk(d, st), c)
  {
    hide Walk;
    var u := Push(rooted, st, c);
    if u == st + [c] {
      WalkSnoc(d, u);
      assert Init(u) == st;
    } else if st != [] {
      WalkSnoc(d, st);
    }
    EmptyWalk(d);
  }

  lemma EmptyWalk(d: seq<Name>)
    ensures Walk(d, []) == d
  {
  }

  lemma {:induction false} WalkFold(rooted: bool, d: seq<Name>, st: seq<Name>, cs: seq<Name>)
    requires IsNormal(rooted, st) && (rooted ==> d == []) && forall c | c in cs :: SlashFree(c)
    ensures Walk(d, Fold(rooted, st, cs)) == Walk(Walk(d, st), cs)
    decreases |cs|
  {
    hide Normal, WalkOne, Push;
    if cs != [] {
      var ups :| Normal(rooted, st, ups);
      WalkPush(rooted, d, st, ups, cs[0]);
      PushNormal(rooted, st, ups, cs[0]);
      WalkFold(rooted, d, Push(rooted, st, cs[0]), cs[1..]);
    }
  }

  lemma TargetStack(d: seq<Name>, p: seq<byte>)
    ensures Target(d, p) == Walk(if Rooted(p) then [] else d, Stack(p))
  {
    hide Components;
    ComponentsSlashFree(p);
    assert Normal(Rooted(p), [], 0);
    WalkFold(Rooted(p), if Rooted(p) then [] else d, [], Components(p));
  }

  /** A path and its cleaned form lead to the same place from everywhere. */
  lemma CleanMeaning(d: seq<Name>, p: seq<byte>)
    ensures Target(d, Clean(p)) == Target(d, p)
  {
    hide Target, Stack, Clean;
    CleanStack(p);
    TargetStack(d, p);
    TargetStack(d, Clean(p));
  }

  /** Names lead down; components that lead out of the stack lead up. */
  lemma {:induction false} WalkNormal(rooted: bool, d: seq<Name>, st: seq<Name>, ups: nat)
    requires Normal(rooted, st, ups) && ups <= |d|
    ensures Walk(d, st) == d[..|d| - ups] + st[ups..]
    decreases |st|
  {
    hide Walk, IsName;
    if st == [] {
      EmptyWalk(d);
      assert d[..|d|] + [] == d;
    } else {
      WalkSnoc(d, st);
      if ups == |st| {
        assert Normal(rooted, Init(st), ups - 1);
        WalkNormal(rooted, d, Init(st), ups - 1);
        assert Init(d[..|d| - (ups - 1)]) == d[..|d| - ups];
      } else {
        assert Normal(rooted, Init(st), ups);
        WalkNormal(rooted, d, Init(st), ups);
        assert IsName(Last(st));
        NameFacts(Last(st));
        assert st[ups..] == Init(st)[ups..] + [Last(st)];
      }
    }
  }

  lemma NameFacts(c: Name)
    requires IsName(c)
    ensures c != [] && c != DOT && c != DOTDOT
  {
  }

  lemma {:induction false} JoinLength(st: seq<Name>, k: nat)
    requires k < |st|
    ensures |st[k]| <= |Join(st)|
    decreases |st|
  {
    if |st| > 1 && k < |st| - 1 {
      JoinLength(Init(st), k);
    }
  }

  /** Stacks in normal form that lead to the same place from everywhere are the same. */
  lemma NormalFormsDiffer(s: seq<Name>, m: nat, t: seq<Name>, n: nat)
    requires Normal(false, s, m) && Normal(false, t, n)
    requires forall d :: Walk(d, s) == Walk(d, t)
    ensures s == t
  {
    hide Walk, Join, IsName;
    var x: Name := Join(s) + Join(t) + DOT;
    forall k | 0 <= k < |s| ensures s[k] != x {
      JoinLength(s, k);
    }
    forall k | 0 <= k < |t| ensures t[k] != x {
      JoinLength(t, k);
    }
    var d := seq(m + n, _ => x);
    WalkNormal(false, d, s, m);
    WalkNormal(false, d, t, n);
    var u, v := d[..n] + s[m..], d[..m] + t[n..];
    assert u == Walk(d, s) == Walk(d, t) == v;
    SamePadding(x, n, s[m..], m, t[n..], u);
    assert s == s[..m] + s[m..] && t == t[..n] + t[n..];
    assert s[..m] == t[..n];
  }

  lemma SamePadding(x: Name, i: nat, a: seq<Name>, j: nat, b: seq<Name>, u: seq<Name>)
    requires u == seq(i, _ => x) + a == seq(j, _ => x) + b && x !in a && x !in b
    ensures i == j && a == b
  {
    Padding(x, i, a, u);
    Padding(x, j, b, u);
  }

  lemma Padding(x: Name, i: nat, a: seq<Name>, u: seq<Name>)
    requires u == seq(i, _ => x) + a && x !in a
    ensures i <= |u| && u[i..] == a && (forall k | 0 <= k < i :: u[k] == x) && (i < |u| ==> u[i] != x)
  {
  }

  /** Two paths clean to the same text exactly when both or neither are rooted and they lead to the same places. */
  lemma CleanCanonical(p: seq<byte>, q: seq<byte>)
    ensures Clean(p) == Clean(q) <==> Rooted(p) == Rooted(q) && forall d :: Target(d, p) == Target(d, q)
  {
    hide Target, Stack, Clean, Walk, Normal;
    SameStack(p, q);
    forall d
      ensures Target(d, p) == Walk(if Rooted(p) then [] else d, Stack(p))
      ensures Target(d, q) == Walk(if Rooted(q) then [] else d, Stack(q))
    {
      TargetStack(d, p);
      TargetStack(d, q);
    }
    if Rooted(p) == Rooted(q) && forall d :: Target(d, p) == Target(d, q) {
      StackNormal(p);
      StackNormal(q);
      var m :| Normal(Rooted(p), Stack(p), m);
      var n :| Normal(Rooted(p), Stack(q), n);
      if Rooted(p) {
        assert Target([], p) == Target([], q);
        RootedWalk(Stack(p), m);
        RootedWalk(Stack(q), n);
      } else {
        forall d ensures Walk(d, Stack(p)) == Walk(d, Stack(q)) {
          assert Target(d, p) == Target(d, q);
        }
        NormalFormsDiffer(Stack(p), m, Stack(q), n);
      }
    }
  }

  lemma RootedWalk(st: seq<Name>, ups: nat)
    requires Normal(true, st, ups)
    ensures Walk([], st) == st
  {
    WalkNormal(true, [], st, 0);
  }

  // ---------- The shortest path ----------

  /** The length of components when each is followed by a slash. */
  function Spread(cs: seq<Name>): nat
    decreases |cs|
  {
    if cs == [] then 0 else |cs[0]| + 1 + Spread(cs[1..])
  }

  lemma {:induction false} ComponentsSpread(s: seq<byte>)
    ensures Spread(Components(s)) == |s| + 1
    decreases |s|
  {
    hide Cut, Components;
    ComponentsCut(s);
    var n := Cut(s);
    if n < |s| {
      ComponentsSpread(s[n + 1..]);
      assert Components(s)[1..] == Components(s[n + 1..]);
    } else {
      assert Components(s)[1..] == [];
    }
  }

  /** The length of a joined stack and a slash after it. */
  function JoinSpread(st: seq<Name>): nat {
    |Join(st)| + (if st == [] then 0 else 1)
  }

  lemma JoinSnoc(st: seq<Name>, c: Name)
    ensures JoinSpread(st + [c]) == JoinSpread(st) + |c| + 1
  {
    assert Init(st + [c]) == st;
  }

  lemma PushSpread(rooted: bool, st: seq<Name>, c: Name)
    ensures JoinSpread(Push(rooted, st, c)) <= JoinSpread(st) + |c| + 1
  {
    hide JoinSpread;
    JoinSnoc(st, c);
    if st != [] {
      JoinSnoc(Init(st), Last(st));
      assert Init(st) + [Last(st)] == st;
    }
  }

  lemma {:induction false} FoldSpread(rooted: bool, st: seq<Name>, cs: seq<Name>)
    ensures JoinSpread(Fold(rooted, st, cs)) <= JoinSpread(st) + Spread(cs)
    decreases |cs|
  {
    hide Push, JoinSpread;
    if cs != [] {
      PushSpread(rooted, st, cs[0]);
      FoldSpread(rooted, Push(rooted, st, cs[0]), cs[1..]);
    }
  }

  lemma CleanLength(p: seq<byte>)
    requires p != []
    ensures |Clean(p)| <= |p|
  {
    hide Components, Fold;
    if Rooted(p) {
      assert p == [SLASH] + p[1..];
      FoldSlash(true, [], p[1..]);
      FoldSpread(true, [], Components(p[1..]));
      ComponentsSpread(p[1..]);
    } else {
      FoldSpread(false, [], Components(p));
      ComponentsSpread(p);
    }
  }

  /** No path that always leads to the same place, and is rooted if this one is, is shorter than the cleaned one. */
  lemma CleanShortest(p: seq<byte>, q: seq<byte>)
    requires q != [] && Rooted(p) == Rooted(q) && forall d :: Target(d, p) == Target(d, q)
    ensures |Clean(p)| <= |q|
  {
    hide Target, Clean;
    CleanCanonical(p, q);
    CleanLength(q);
  }
}
