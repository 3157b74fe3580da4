/**
 The output array of `clean_path`. Backing up moves the cursor only, so that bytes of longer renderings stay behind
 the cleaned path: every rendering of a front of the path is laid over the ones before it.
 */
module Layers {
  import opened Bytes
  import opened Paths

  /** `top` written over the front of `bottom`. */
  function Overlay(top: seq<byte>, bottom: seq<byte>): (r: seq<byte>)
    ensures top <= r && |r| == if |top| < |bottom| then |bottom| else |top|
  {
    if |top| < |bottom| then top + bottom[|top|..] else top
  }

  /** What is written, without a leading slash, when the components `cs` are read on top of `st` and `body`. */
  function Layered(rooted: bool, st: seq<Name>, body: seq<byte>, cs: seq<Name>): seq<byte>
    decreases |cs|
  {
    if cs == [] then body else
    var u := Push(rooted, st, cs[0]);
    Layered(rooted, u, Overlay(Join(u), body), cs[1..])
  }

  function Root(rooted: bool): seq<byte> {
    if rooted then [SLASH] else []
  }

  /** All that is written for a path, behind its leading slash. */
  function Written(p: seq<byte>): seq<byte> {
    Layered(Rooted(p), [], [], Components(p))
  }

  /** The bytes of the output array that were written: the cleaned path is the front of them. */
  function Buffer(p: seq<byte>): (r: seq<byte>)
    ensures Clean(p) <= r
  {
    Overlay(Clean(p), Root(Rooted(p)) + Written(p))
  }

  // ---------- Reading components ----------

  lemma OverlayPrefix(top: seq<byte>, bottom: seq<byte>)
    requires top <= bottom
    ensures Overlay(top, bottom) == bottom
  {
    assert bottom == top + bottom[|top|..];
  }

  lemma OverlayRoot(rooted: bool, top: seq<byte>, bottom: seq<byte>)
    ensures Overlay(Root(rooted) + top, Root(rooted) + bottom) == Root(rooted) + Overlay(top, bottom)
  {
    var r := Root(rooted);
    if |top| < |bottom| {
      assert (r + bottom)[|r + top|..] == bottom[|top|..];
      assert r + top + bottom[|top|..] == r + (top + bottom[|top|..]);
    }
  }

  lemma LayeredHead(rooted: bool, st: seq<Name>, body: seq<byte>, c: Name, cs: seq<Name>)
    ensures var u := Push(rooted, st, c);
            Layered(rooted, st, body, [c] + cs) == Layered(rooted, u, Overlay(Join(u), body), cs)
  {
    assert ([c] + cs)[1..] == cs;
  }

  /** An empty component writes nothing. */
  lemma LayeredSlash(rooted: bool, st: seq<Name>, body: seq<byte>, s: seq<byte>)
    requires Join(st) <= body
    ensures Layered(rooted, st, body, Components([SLASH] + s)) == Layered(rooted, st, body, Components(s))
  {
    hide Join, Components, Layered, Overlay;
    ComponentsConcat([], s);
    assert [] + ([SLASH] + s) == [SLASH] + s;
    SingleComponent([]);
    OverlayPrefix(Join(st), body);
    LayeredHead(rooted, st, body, [], Components(s));
    PushNothing(rooted, st);
  }

  /** A component at the cursor is laid over what is there. */
  lemma LayeredComponent(rooted: bool, st: seq<Name>, body: seq<byte>, s: seq<byte>)
    ensures var u := Push(rooted, st, s[..Cut(s)]);
            Layered(rooted, st, body, Components(s))
            == Layered(rooted, u, Overlay(Join(u), body), Components(s[Cut(s)..]))
  {
    hide Push, Join, Components, Layered, Overlay, Cut;
    var n := Cut(s);
    var u := Push(rooted, st, s[..n]);
    var b := Overlay(Join(u), body);
    ComponentsCut(s);
    if n == |s| {
      assert s[..n] == s && s[n..] == [] && [s] + [] == [s];
      SingleComponent([]);
      PushNothing(rooted, u);
      OverlayPrefix(Join(u), b);
      LayeredHead(rooted, st, body, s, []);
      LayeredHead(rooted, u, b, [], []);
      var none: seq<Name> := [[]];
      assert none + [] == none;
    } else {
      assert s[n..] == [SLASH] + s[n + 1..];
      LayeredHead(rooted, st, body, s[..n], Components(s[n + 1..]));
      LayeredSlash(rooted, u, b, s[n + 1..]);
    }
  }

  lemma PushNothing(rooted: bool, st: seq<Name>)
    ensures Push(rooted, st, []) == st
  {
  }

  /** The last component is laid on top. */
  lemma {:induction false} LayeredSnoc(rooted: bool, st: seq<Name>, body: seq<byte>, cs: seq<Name>, c: Name)
    ensures Layered(rooted, st, body, cs + [c])
         == Overlay(Join(Fold(rooted, st, cs + [c])), Layered(rooted, st, body, cs))
    decreases |cs|
  {
    hide Push, Join;
    if cs == [] {
      assert cs + [c] == [c] && [c][1..] == [];
      FoldOne(rooted, st, c);
    } else {
      var u := Push(rooted, st, cs[0]);
      assert (cs + [c])[1..] == cs[1..] + [c];
      LayeredSnoc(rooted, u, Overlay(Join(u), body), cs[1..], c);
    }
  }

  /** The final stack is on top of what was written. */
  lemma StackOnTop(rooted: bool, cs: seq<Name>)
    ensures Join(Fold(rooted, [], cs)) <= Layered(rooted, [], [], cs)
  {
    hide Join, Push;
    JoinNothing();
    if cs != [] {
      LayeredSnoc(rooted, [], [], Init(cs), Last(cs));
      assert Init(cs) + [Last(cs)] == cs;
    }
  }

  /** What was written is on top of the array unless nothing is left of a path that is not rooted. */
  lemma BufferIs(p: seq<byte>)
    ensures Buffer(p) == if !Rooted(p) && Stack(p) == [] then Overlay(DOT, Written(p))
                         else Root(Rooted(p)) + Written(p)
  {
    hide Components, Fold, Layered, Normal, Join, Overlay;
    JoinNothing();
    assert Root(false) + Join(Stack(p)) == Join(Stack(p)) && Root(false) + Written(p) == Written(p);
    StackOnTop(Rooted(p), Components(p));
    StackNormal(p);
    var ups :| Normal(Rooted(p), Stack(p), ups);
    JoinUnrooted(Stack(p), ups, Rooted(p));
    OverlayPrefix(Join(Stack(p)), Written(p));
    OverlayRoot(Rooted(p), Join(Stack(p)), Written(p));
  }

  // ---------- What is on top at one place ----------

  /** The rendering of the longest front of `cs` that reaches beyond byte `n`; nothing if none does. */
  function Top(rooted: bool, cs: seq<Name>, n: nat): (r: seq<byte>)
    ensures r == [] || n < |r|
    decreases |cs|
  {
    var j := Join(Fold(rooted, [], cs));
    if n < |j| then j else if cs == [] then [] else Top(rooted, Init(cs), n)
  }

  lemma {:induction false} TopByte(rooted: bool, cs: seq<Name>, n: nat)
    ensures var l := Layered(rooted, [], [], cs); var t := Top(rooted, cs, n);
            && (n < |l| <==> t != [])
            && (n < |l| ==> l[n] == t[n])
    decreases |cs|
  {
    hide Join;
    if cs == [] {
      assert Join([]) == [] by {
        JoinNothing();
      }
    } else {
      LayeredSnoc(rooted, [], [], Init(cs), Last(cs));
      assert Init(cs) + [Last(cs)] == cs;
      TopByte(rooted, Init(cs), n);
    }
  }

  lemma JoinNothing()
    ensures Join([]) == []
  {
  }

  /** No front of the components renders to more than `n` bytes. */
  ghost predicate NeverLonger(rooted: bool, cs: seq<Name>, n: nat) {
    forall k | 0 <= k <= |cs| :: |Render(rooted, Fold(rooted, [], cs[..k]))| <= n
  }

  lemma NeverLongerSnoc(rooted: bool, cs: seq<Name>, n: nat)
    requires cs != []
    ensures NeverLonger(rooted, cs, n) <==>
              NeverLonger(rooted, Init(cs), n) && |Render(rooted, Fold(rooted, [], cs))| <= n
  {
    hide Render, Fold;
    assert cs[..|cs|] == cs;
    forall k | 0 <= k < |cs| ensures Init(cs)[..k] == cs[..k] {
    }
  }

  /** As many bytes are written as the longest rendering of a front has. */
  lemma {:induction false} WrittenLength(rooted: bool, cs: seq<Name>, n: nat)
    ensures |Root(rooted) + Layered(rooted, [], [], cs)| <= n <==> NeverLonger(rooted, cs, n)
    decreases |cs|
  {
    hide Join, NeverLonger, Fold, Layered;
    if cs != [] {
      NeverLongerSnoc(rooted, cs, n);
      LayeredSnoc(rooted, [], [], Init(cs), Last(cs));
      assert Init(cs) + [Last(cs)] == cs;
      WrittenLength(rooted, Init(cs), n);
    } else {
      NeverLongerNothing(rooted, n);
      LayeredNothing(rooted, [], []);
    }
  }

  lemma LayeredNothing(rooted: bool, st: seq<Name>, body: seq<byte>)
    ensures Layered(rooted, st, body, []) == body
  {
  }

  lemma NeverLongerNothing(rooted: bool, n: nat)
    ensures NeverLonger(rooted, [], n) <==> |Root(rooted)| <= n
  {
    var none: seq<Name> := [];
    assert none[..0] == none;
    assert |Render(rooted, Fold(rooted, [], none[..0]))| == |Root(rooted)|;
  }

  /** Nothing stale stands behind a cleaned path exactly when no front of the path renders longer than it. */
  lemma BufferClean(p: seq<byte>)
    ensures Buffer(p) == Clean(p) <==> NeverLonger(Rooted(p), Components(p), |Clean(p)|)
  {
    hide Components, Fold, Layered, Join, NeverLonger;
    assert Clean(p) == Buffer(p)[..|Clean(p)|];
    WrittenLength(Rooted(p), Components(p), |Clean(p)|);
  }

  // ---------- Its components ----------

  /** Where two texts meet, the last component of the one and the first of the other become one. */
  lemma {:induction false} Seam(a: seq<byte>, b: seq<byte>)
    ensures Components(a + b)
         == Init(Components(a)) + [Last(Components(a)) + Components(b)[0]] + Components(b)[1..]
    decreases |a|
  {
    hide Cut, Components;
    var n := Cut(a);
    ComponentsCut(a);
    if n == |a| {
      SeamFlat(a, b);
      assert [a][..0] == [];
      assert [] + [a + Components(b)[0]] + Components(b)[1..] == [a + Components(b)[0]] + Components(b)[1..];
    } else {
      CutFacts(a);
      var h, t := a[..n], a[n + 1..];
      assert a + b == h + ([SLASH] + (t + b));
      ComponentsConcat(h, t + b);
      SingleComponent(h);
      Seam(t, b);
      var c := Components(t);
      assert Init([h] + c) == [h] + Init(c);
    }
  }

  lemma CutFacts(s: seq<byte>)
    ensures SlashFree(s[..Cut(s)]) && (Cut(s) < |s| ==> s[Cut(s)] == SLASH)
  {
  }

  lemma CutSum(a: seq<byte>, b: seq<byte>)
    requires Cut(a) == |a|
    ensures Cut(a + b) == |a| + Cut(b)
  {
    hide Cut;
    var n := Cut(b);
    var s := a + b;
    assert SlashFree(a) by {
      assert a[..|a|] == a;
    }
    forall k | 0 <= k < |a| + n ensures s[k] != SLASH {
      assert k >= |a| ==> s[k] == b[..n][k - |a|];
    }
    CutIs(s, |a| + n);
  }

  lemma SeamFlat(a: seq<byte>, b: seq<byte>)
    requires Cut(a) == |a|
    ensures Components(a + b) == [a + Components(b)[0]] + Components(b)[1..]
  {
    hide Components, Cut, SlashFree;
    var n := Cut(b);
    CutSum(a, b);
    ComponentsCut(b);
    ComponentsCut(a + b);
    assert (a + b)[..|a| + n] == a + b[..n];
    if n < |b| {
      assert (a + b)[|a| + n + 1..] == b[n + 1..];
    } else {
      assert b[..n] == b;
    }
  }

  lemma {:induction false} ComponentsJoin(rooted: bool, st: seq<Name>, ups: nat)
    requires Normal(rooted, st, ups) && st != []
    ensures Components(Join(st)) == st
    decreases |st|
  {
    hide Normal, Components;
    NormalInit(rooted, st, ups);
    SingleComponent(Last(st));
    if |st| == 1 {
      assert st == [Last(st)];
    } else {
      ComponentsJoin(rooted, Init(st), if ups == |st| then ups - 1 else ups);
      ComponentsConcat(Join(Init(st)), Last(st));
      assert st == Init(st) + [Last(st)];
    }
  }

  /** The components of a text that goes on behind a joined stack. */
  lemma JoinSeam(rooted: bool, st: seq<Name>, ups: nat, t: seq<byte>)
    requires Normal(rooted, st, ups) && st != []
    ensures Components(Join(st) + t) == Init(st) + [Last(st) + Components(t)[0]] + Components(t)[1..]
  {
    hide Components, Join, Normal;
    Seam(Join(st), t);
    ComponentsJoin(rooted, st, ups);
  }

  /** From component `ups` on there are names only. */
  ghost predicate NamesFrom(body: seq<byte>, ups: nat) {
    body != [] ==> forall k | ups <= k < |Components(body)| :: IsName(Components(body)[k])
  }

  lemma NameTail(c: Name, t: Name)
    requires IsName(c) && SlashFree(t)
    ensures IsName(c + t)
  {
    assert (c + t)[..|c|] == c;
    assert DOT[..1] == DOT && DOTDOT[..1] == DOT && DOTDOT[..2] == DOTDOT;
  }

  /** The components that come after the seam stood behind the stack before, too. */
  lemma TailComponents(rooted: bool, st: seq<Name>, ups: nat, body: seq<byte>, n: nat, j: nat)
    requires Normal(rooted, st, ups) && Join(st) <= body && |Join(st)| <= n < |body|
    requires NamesFrom(body, ups) && 0 < j < |Components(body[n..])|
    ensures IsName(Components(body[n..])[j])
  {
    hide Components, Join, IsName;
    var m, t := body[..n], body[n..];
    assert body == m + t;
    Seam(m, t);
    var u := m[|Join(st)|..];
    assert m == Join(st) + u;
    if st != [] {
      JoinSeam(rooted, st, ups, u);
      assert |Components(m)| >= |st|;
    }
    NormalBound(rooted, st, ups);
    var k := |Components(m)| - 1 + j;
    assert Components(body)[k] == Components(t)[j];
  }

  lemma NormalBound(rooted: bool, st: seq<Name>, ups: nat)
    requires Normal(rooted, st, ups)
    ensures ups <= |st|
  {
  }

  /** Laying one more rendering on top keeps the components behind the leading ".."s names. */
  lemma NamesStep(rooted: bool, st: seq<Name>, ups: nat, body: seq<byte>, c: Name)
    requires Normal(rooted, st, ups) && SlashFree(c) && Join(st) <= body && NamesFrom(body, ups)
    ensures var u := Push(rooted, st, c);
            NamesFrom(Overlay(Join(u), body), PushUps(rooted, st, ups, c))
  {
    hide Components, Join, IsName, Push, PushUps, Normal;
    PushNormal(rooted, st, ups, c);
    var u, v := Push(rooted, st, c), PushUps(rooted, st, ups, c);
    PushCases(rooted, st, ups, c);
    if Join(u) <= body {
      OverlayPrefix(Join(u), body);
    } else {
      assert u == st + [c] by {
        if st != [] && u == Init(st) {
          JoinInit(st);
        }
      }
      JoinSnocPrefix(st, c);
      NormalAt(rooted, u, v);
      if |body| <= |Join(u)| {
        ComponentsJoin(rooted, u, v);
      } else {
        NamesSeam(rooted, st, ups, body, c, v);
      }
    }
  }

  lemma NamesSeam(rooted: bool, st: seq<Name>, ups: nat, body: seq<byte>, c: Name, v: nat)
    requires Normal(rooted, st, ups) && Join(st) <= body && NamesFrom(body, ups)
    requires Normal(rooted, st + [c], v) && |Join(st)| <= |Join(st + [c])| < |body|
    ensures NamesFrom(Overlay(Join(st + [c]), body), v)
  {
    hide Components, Join, IsName, Normal;
    var u := st + [c];
    var t := body[|Join(u)|..];
    JoinSeam(rooted, u, v, t);
    ComponentsSlashFree(t);
    var b := Overlay(Join(u), body);
    assert Init(u) == st;
    forall k | v <= k < |Components(b)| ensures IsName(Components(b)[k]) {
      NormalAt(rooted, u, v);
      if k < |st| {
        assert Components(b)[k] == u[k];
      } else if k == |st| {
        NameTail(c, Components(t)[0]);
      } else {
        TailComponents(rooted, st, ups, body, |Join(u)|, k - |st|);
      }
    }
  }

  lemma NormalAt(rooted: bool, st: seq<Name>, ups: nat)
    requires Normal(rooted, st, ups)
    ensures forall k | ups <= k < |st| :: IsName(st[k])
  {
  }

  lemma PushCases(rooted: bool, st: seq<Name>, ups: nat, c: Name)
    requires Normal(rooted, st, ups)
    ensures var u := Push(rooted, st, c); u == st || u == st + [c] || (st != [] && u == Init(st))
    ensures PushUps(rooted, st, ups, c) >= ups
  {
  }

  lemma JoinInit(st: seq<Name>)
    requires st != []
    ensures Join(Init(st)) <= Join(st)
  {
  }

  lemma JoinSnocPrefix(st: seq<Name>, c: Name)
    ensures Join(st) <= Join(st + [c])
  {
    assert Init(st + [c]) == st;
  }

  lemma {:induction false} LayeredNames(rooted: bool, st: seq<Name>, ups: nat, body: seq<byte>, cs: seq<Name>)
    requires Normal(rooted, st, ups) && Join(st) <= body && NamesFrom(body, ups) && forall c | c in cs :: SlashFree(c)
    ensures exists n :: Normal(rooted, Fold(rooted, st, cs), n) && NamesFrom(Layered(rooted, st, body, cs), n)
    decreases |cs|
  {
    hide Components, Join, IsName, Push, PushUps, Normal, SlashFree;
    if cs != [] {
      NamesStep(rooted, st, ups, body, cs[0]);
      PushNormal(rooted, st, ups, cs[0]);
      var u := Push(rooted, st, cs[0]);
      var b := Overlay(Join(u), body);
      LayeredNames(rooted, u, PushUps(rooted, st, ups, cs[0]), b, cs[1..]);
      var n :| Normal(rooted, Fold(rooted, u, cs[1..]), n) && NamesFrom(Layered(rooted, u, b, cs[1..]), n);
      assert Fold(rooted, st, cs) == Fold(rooted, u, cs[1..]);
      assert Normal(rooted, Fold(rooted, st, cs), n);
    } else {
      assert Normal(rooted, Fold(rooted, st, cs), ups) && NamesFrom(Layered(rooted, st, body, cs), ups);
    }
  }

  /** Behind the leading ".." components of the stack everything in the array is a name, stale or not. */
  lemma WrittenNames(p: seq<byte>) returns (ups: nat)
    ensures Normal(Rooted(p), Stack(p), ups) && NamesFrom(Written(p), ups)
  {
    hide Components, Layered;
    ComponentsSlashFree(p);
    assert Normal(Rooted(p), [], 0) && Join([]) <= [] && NamesFrom([], 0);
    LayeredNames(Rooted(p), [], 0, [], Components(p));
    ups :| Normal(Rooted(p), Stack(p), ups) && NamesFrom(Written(p), ups);
  }
}
