/**
 `clean_path` of yta_http.cpp: two cursors over the path and over the output, which is written, backtracked over and
 rewritten in place. It computes `Paths.Clean`, writes no more than max(1, length) bytes, and leaves in the array what
 `Layers.Buffer` says.
 */
module PathCleaning {
  import opened Bytes
  import opened Layers
  import opened Paths

  function Room(path: seq<byte>): nat {
    if |path| == 0 then 1 else |path|
  }

  /**
   What ties the cursors together: `buf`, the first bytes of the output, renders a stack in normal form; `dotdot` is
   where its leading ".." components end; the rest of the path completes the stack to that of the whole path; and
   there is room for a slash before the next component.
   */
  ghost predicate Inv(path: seq<byte>, rooted: bool, buf: seq<byte>, r: nat, dotdot: nat, st: seq<Name>, ups: nat) {
    && r <= |path| && |buf| <= r && rooted == Rooted(path)
    && Normal(rooted, st, ups)
    && buf == Render(rooted, st) && dotdot == |Render(rooted, st[..ups])|
    && Fold(rooted, st, Components(path[r..])) == Stack(path)
    && (r < |path| && path[r] != SLASH && st != [] ==> |buf| < r)
  }

  /** What ties the bytes that were written, `body` behind the leading slash, to those that are still to come. */
  ghost predicate Behind(path: seq<byte>, body: seq<byte>, r: nat, st: seq<Name>) {
    var rooted := Rooted(path);
    && r <= |path| && |Root(rooted) + body| <= r && Join(st) <= body
    && Layered(rooted, st, body, Components(path[r..])) == Written(path)
  }

  lemma BehindSlash(path: seq<byte>, body: seq<byte>, r: nat, st: seq<Name>)
    requires Behind(path, body, r, st) && r < |path| && path[r] == SLASH
    ensures Behind(path, body, r + 1, st)
  {
    hide Components, Layered, Written, Join;
    assert path[r..] == [SLASH] + path[r + 1..];
    LayeredSlash(Rooted(path), st, body, path[r + 1..]);
  }

  lemma RenderRoot(rooted: bool, st: seq<Name>)
    ensures Render(rooted, st) == Root(rooted) + Join(st)
  {
    hide Join;
    assert Root(false) + Join(st) == Join(st);
  }

  lemma BehindComponent(path: seq<byte>, body: seq<byte>, r: nat, st: seq<Name>, e: nat)
    requires Behind(path, body, r, st)
    requires r < e <= |path| && (e < |path| ==> path[e] == SLASH) && forall k | r <= k < e :: path[k] != SLASH
    requires |Render(Rooted(path), Push(Rooted(path), st, path[r..e]))| <= e
    ensures var u := Push(Rooted(path), st, path[r..e]); Behind(path, Overlay(Join(u), body), e, u)
  {
    hide Components, Layered, Written, Join, Push, Overlay, Render;
    ComponentAt(path, r, e);
    LayeredComponent(Rooted(path), st, body, path[r..]);
    RenderRoot(Rooted(path), Push(Rooted(path), st, path[r..e]));
  }

  /** `text` stands at `base` of an array that otherwise is as it was in the beginning. */
  ghost predicate Holds(before: seq<byte>, now: seq<byte>, base: nat, text: seq<byte>) {
    && |now| == |before| && base + |text| <= |now| && now[base..base + |text|] == text
    && forall i | 0 <= i < |now| && !(base <= i < base + |text|) :: now[i] == before[i]
  }

  /** Rewriting the first `w` of the bytes lays them over the ones that were there. */
  lemma HoldsOver(before: seq<byte>, now: seq<byte>, base: nat, text: seq<byte>, next: seq<byte>, w: nat)
    requires Holds(before, now, base, text) && |next| == |now| && base + w <= |now|
    requires forall i | 0 <= i < |now| && !(base <= i < base + w) :: next[i] == now[i]
    ensures Holds(before, next, base, Overlay(next[base..base + w], text))
  {
  }

  /** A component has been read and what it renders has been written over what there was. */
  lemma ComponentLaid(path: seq<byte>, before: seq<byte>, now: seq<byte>, next: seq<byte>, base: nat, body: seq<byte>,
                      r: nat, st: seq<Name>, e: nat, w: nat)
    returns (body': seq<byte>)
    requires Holds(before, now, base, Root(Rooted(path)) + body) && Behind(path, body, r, st)
    requires r < e <= |path| && (e < |path| ==> path[e] == SLASH) && forall k | r <= k < e :: path[k] != SLASH
    requires |next| == |now| && w <= e && base + w <= |now|
    requires next[base..base + w] == Render(Rooted(path), Push(Rooted(path), st, path[r..e]))
    requires forall i | 0 <= i < |now| && !(base <= i < base + w) :: next[i] == now[i]
    ensures Holds(before, next, base, Root(Rooted(path)) + body')
    ensures Behind(path, body', e, Push(Rooted(path), st, path[r..e]))
  {
    hide Holds, Behind, Push, Render, Join, Overlay;
    var rooted, u := Rooted(path), Push(Rooted(path), st, path[r..e]);
    body' := Overlay(Join(u), body);
    BehindComponent(path, body, r, st, e);
    HoldsOver(before, now, base, Root(rooted) + body, next, w);
    RenderRoot(rooted, u);
    OverlayRoot(rooted, Join(u), body);
  }

  function Separator(st: seq<Name>): seq<byte> {
    if st == [] then [] else [SLASH]
  }

  lemma RenderSnoc(rooted: bool, st: seq<Name>, c: Name)
    ensures Render(rooted, st + [c]) == Render(rooted, st) + (Separator(st) + c)
  {
    assert Init(st + [c]) == st;
  }

  lemma RenderInit(rooted: bool, st: seq<Name>)
    requires st != []
    ensures Render(rooted, st) == Render(rooted, Init(st)) + (Separator(Init(st)) + Last(st))
  {
    assert st == Init(st) + [Last(st)];
    RenderSnoc(rooted, Init(st), Last(st));
  }

  /** Whether there is something to separate the next component from shows in the length written. */
  lemma {:induction false} RenderGrows(rooted: bool, st: seq<Name>, ups: nat, k: nat)
    requires Normal(rooted, st, ups) && k < |st|
    ensures |Render(rooted, st[..k])| < |Render(rooted, st)|
    decreases |st|
  {
    hide Normal, Render;
    RenderInit(rooted, st);
    NormalInit(rooted, st, ups);
    if k < |st| - 1 {
      assert Init(st)[..k] == st[..k];
      RenderGrows(rooted, Init(st), if ups == |st| then ups - 1 else ups, k);
    } else {
      assert st[..k] == Init(st);
    }
  }

  lemma RenderEmpty(rooted: bool, st: seq<Name>, ups: nat)
    requires Normal(rooted, st, ups)
    ensures |Render(rooted, st)| >= (if rooted then 1 else 0)
    ensures |Render(rooted, st)| == (if rooted then 1 else 0) <==> st == []
  {
    if st != [] {
      RenderGrows(rooted, st, ups, 0);
    }
  }

  /** A component at the cursor is pushed and the cursor moves behind it. */
  lemma FoldComponent(rooted: bool, st: seq<Name>, s: seq<byte>)
    ensures Fold(rooted, st, Components(s)) == Fold(rooted, Push(rooted, st, s[..Cut(s)]), Components(s[Cut(s)..]))
  {
    hide Push;
    var n := Cut(s);
    var u := Push(rooted, st, s[..n]);
    if n == |s| {
      assert s[..n] == s;
      FoldOne(rooted, st, s);
      FoldOne(rooted, u, []);
      SingleComponent([]);
      PushNothing(rooted, u);
    } else {
      FoldSlash(rooted, u, s[n + 1..]);
      assert s[n..] == [SLASH] + s[n + 1..];
      assert Components(s)[1..] == Components(s[n + 1..]);
    }
  }

  lemma SlashStep(path: seq<byte>, rooted: bool, buf: seq<byte>, r: nat, dotdot: nat, st: seq<Name>, ups: nat)
    requires Inv(path, rooted, buf, r, dotdot, st, ups) && r < |path| && path[r] == SLASH
    ensures Inv(path, rooted, buf, r + 1, dotdot, st, ups)
  {
    hide Components, Fold, Stack, Normal, Render;
    assert path[r..] == [SLASH] + path[r + 1..];
    FoldSlash(rooted, st, path[r + 1..]);
  }

  /** The component at the cursor when it ends at `e`. */
  lemma ComponentAt(path: seq<byte>, r: nat, e: nat)
    requires r <= e <= |path| && (e < |path| ==> path[e] == SLASH)
    requires forall k | r <= k < e :: path[k] != SLASH
    ensures Cut(path[r..]) == e - r && path[r..][..e - r] == path[r..e] && path[r..][e - r..] == path[e..]
  {
    CutIs(path[r..], e - r);
  }

  /** Moving over the component that ends at `e` when the output becomes what the new stack renders. */
  lemma ComponentStep(path: seq<byte>, rooted: bool, buf: seq<byte>, r: nat, dotdot: nat, st: seq<Name>, ups: nat,
                      e: nat, buf': seq<byte>, dotdot': nat)
    requires Inv(path, rooted, buf, r, dotdot, st, ups)
    requires r < e <= |path| && (e < |path| ==> path[e] == SLASH) && forall k | r <= k < e :: path[k] != SLASH
    requires var c := path[r..e]; var st' := Push(rooted, st, c); var ups' := PushUps(rooted, st, ups, c);
             && buf' == Render(rooted, st') && |buf'| <= e
             && ups' <= |st'| && dotdot' == |Render(rooted, st'[..ups'])|
    ensures var c := path[r..e];
            Inv(path, rooted, buf', e, dotdot', Push(rooted, st, c), PushUps(rooted, st, ups, c))
  {
    hide Components, Fold, Stack, Normal, Render, Push, PushUps;
    ComponentAt(path, r, e);
    FoldComponent(rooted, st, path[r..]);
    PushNormal(rooted, st, ups, path[r..e]);
  }

  lemma FullPrefix(st: seq<Name>)
    ensures st[..|st|] == st
  {
  }

  /** "..": is there something above the floor to drop? */
  lemma AboveFloor(rooted: bool, st: seq<Name>, ups: nat)
    requires Normal(rooted, st, ups)
    ensures |Render(rooted, st)| > |Render(rooted, st[..ups])| <==> st != [] && Last(st) != DOTDOT
    ensures st != [] && Last(st) != DOTDOT <==> ups < |st|
    ensures ups <= |st|
  {
    if ups < |st| {
      RenderGrows(rooted, st, ups, ups);
    } else {
      FullPrefix(st);
    }
  }

  /** Backs up over the last component and the slash before it. */
  method Backtrack(out: array<byte>, base: nat, w0: nat, dotdot: nat, rooted: bool, ghost st: seq<Name>, ghost ups: nat)
    returns (w: nat)
    requires base + w0 <= out.Length && w0 > dotdot
    requires Normal(rooted, st, ups) && out[base..base + w0] == Render(rooted, st)
    requires dotdot == |Render(rooted, st[..ups])| && ups < |st|
    ensures w < w0 && out[base..base + w] == Render(rooted, Init(st))
  {
    hide Normal, Render;
    ghost var l := |Render(rooted, Init(st))|;
    ghost var buf := out[base..base + w0];
    BytesAboveFloor(rooted, st, ups);
    forall i | l <= i < w0 ensures out[base + i] == buf[i] {
    }
    w := w0 - 1;
    while w > dotdot && out[base + w] != SLASH
      invariant l <= w < w0
    {
      w := w - 1;
    }
    assert out[base..base + w] == buf[..w];
  }

  /** The last component has no slash, and there is one before it unless it stands at the floor. */
  lemma BytesAboveFloor(rooted: bool, st: seq<Name>, ups: nat)
    requires Normal(rooted, st, ups) && ups < |st|
    ensures var buf := Render(rooted, st); var l := |Render(rooted, Init(st))|;
            var floor := |Render(rooted, st[..ups])|;
            && floor <= l < |buf| && buf[..l] == Render(rooted, Init(st))
            && (forall i | l < i < |buf| :: buf[i] != SLASH)
            && (floor < l ==> buf[l] == SLASH)
  {
    hide Normal, Render;
    var l := |Render(rooted, Init(st))|;
    RenderInit(rooted, st);
    NormalInit(rooted, st, ups);
    var buf := Render(rooted, st);
    var sep := Separator(Init(st));
    forall i | l < i < |buf| ensures buf[i] != SLASH {
      assert buf[i] == Last(st)[i - l - |sep|];
    }
    assert Init(st)[..ups] == st[..ups];
    if ups < |st| - 1 {
      RenderGrows(rooted, Init(st), ups, ups);
      assert buf[l] == sep[0];
    } else {
      FullPrefix(Init(st));
    }
  }

  /** Copies the bytes of `path` from `r` on up to `e`. */
  method CopyBytes(path: seq<byte>, r: nat, e: nat, out: array<byte>, at: nat)
    requires r <= e <= |path| && at + (e - r) <= out.Length
    modifies out
    ensures out[at..at + (e - r)] == path[r..e]
    ensures forall i | 0 <= i < out.Length && !(at <= i < at + (e - r)) :: out[i] == old(out[i])
  {
    var n := 0;
    while n < e - r
      invariant 0 <= n <= e - r
      invariant out[at..at + n] == path[r..r + n]
      invariant forall i | 0 <= i < out.Length && !(at <= i < at + n) :: out[i] == old(out[i])
    {
      out[at + n] := path[r + n];
      assert out[at..at + n + 1] == out[at..at + n] + [path[r + n]];
      n := n + 1;
    }
  }

  /** Appends a separator, if there is something before, and the bytes of `path` from `r` on up to `e`. */
  method Append(path: seq<byte>, r: nat, e: nat, slash: bool, out: array<byte>, base: nat, w0: nat) returns (w: nat)
    requires r <= e <= |path| && base + w0 + (if slash then 1 else 0) + (e - r) <= out.Length
    modifies out
    ensures w == w0 + (if slash then 1 else 0) + (e - r)
    ensures out[base..base + w] == old(out[base..base + w0]) + ((if slash then [SLASH] else []) + path[r..e])
    ensures forall i | 0 <= i < out.Length && !(base + w0 <= i < base + w) :: out[i] == old(out[i])
  {
    w := w0;
    if slash {
      out[base + w] := SLASH;
      w := w + 1;
    }
    ghost var now := out[..];
    CopyBytes(path, r, e, out, base + w);
    Appended(old(out[..]), now, out[..], base, w0, slash, path[r..e]);
    w := w + (e - r);
  }

  lemma Appended(before: seq<byte>, now: seq<byte>, next: seq<byte>, base: nat, w: nat, slash: bool, text: seq<byte>)
    requires |next| == |now| == |before| && base + w + (if slash then 1 else 0) + |text| <= |before|
    requires now == if slash then before[base + w := SLASH] else before
    requires var at := base + w + (if slash then 1 else 0);
             && next[at..at + |text|] == text
             && forall i | 0 <= i < |next| && !(at <= i < at + |text|) :: next[i] == now[i]
    ensures var n := w + (if slash then 1 else 0) + |text|;
            next[base..base + n] == before[base..base + w] + ((if slash then [SLASH] else []) + text)
  {
    var at := base + w + (if slash then 1 else 0);
    assert next[base..base + w] == before[base..base + w];
    assert next[base + w..at] == if slash then [SLASH] else [];
    assert next[base..at + |text|] == next[base..base + w] + (next[base + w..at] + next[at..at + |text|]);
  }

  /** All that the loop keeps: the cursors, what has been written, and the array. */
  ghost predicate Working(path: seq<byte>, before: seq<byte>, now: seq<byte>, base: nat, r: nat, dotdot: nat, w: nat,
                          st: seq<Name>, ups: nat, body: seq<byte>)
  {
    && w <= r <= |path| && base + |path| <= |now|
    && Inv(path, Rooted(path), now[base..base + w], r, dotdot, st, ups) && Behind(path, body, r, st)
    && Holds(before, now, base, Root(Rooted(path)) + body)
  }

  lemma WorkingStart(path: seq<byte>, before: seq<byte>, now: seq<byte>, base: nat)
    requires path != [] && base + |path| <= |before|
    requires now == if Rooted(path) then before[base := SLASH] else before
    ensures var k := |Root(Rooted(path))|; Working(path, before, now, base, k, k, k, [], 0, [])
  {
    hide Inv, Behind, Holds;
    var root := Root(Rooted(path));
    InvStart(path);
    assert now[base..base + |root|] == root && root + [] == root;
    HoldsFirst(before, now, base, root);
  }

  lemma WorkingSlash(path: seq<byte>, before: seq<byte>, now: seq<byte>, base: nat, r: nat, dotdot: nat, w: nat,
                     st: seq<Name>, ups: nat, body: seq<byte>)
    requires Working(path, before, now, base, r, dotdot, w, st, ups, body) && r < |path| && path[r] == SLASH
    ensures Working(path, before, now, base, r + 1, dotdot, w, st, ups, body)
  {
    hide Inv, Behind, Holds;
    SlashStep(path, Rooted(path), now[base..base + w], r, dotdot, st, ups);
    BehindSlash(path, body, r, st);
  }

  method CleanPath(path: seq<byte>, out: array<byte>, base: nat) returns (n: nat)
    requires base + Room(path) <= out.Length
    modifies out
    ensures n == |Clean(path)| <= |Buffer(path)| <= Room(path) && out[base..base + n] == Clean(path)
    ensures Holds(old(out[..]), out[..], base, Buffer(path))
  {
    hide Working, Clean, Buffer, Holds;
    ghost var before := out[..];
    if |path| == 0 {
      out[base] := '.';
      BufferOfEmpty();
      HoldsFirst(before, out[..], base, DOT);
      return 1;
    }
    var r, dotdot, w := 0, 0, 0;
    var rooted := path[0] == SLASH;
    if rooted {
      out[base + w] := SLASH;
      w, r, dotdot := w + 1, 1, 1;
    }
    ghost var st: seq<Name>, ups, body: seq<byte> := [], 0, [];
    WorkingStart(path, before, out[..], base);
    while r < |path|
      invariant 0 <= r <= |path| && 0 <= w && 0 <= dotdot
      invariant Working(path, before, out[..], base, r, dotdot, w, st, ups, body)
    {
      if path[r] == SLASH {
        WorkingSlash(path, before, out[..], base, r, dotdot, w, st, ups, body);
        r := r + 1;
      } else {
        r, dotdot, w, st, ups, body := LayComponent(path, out, base, rooted, r, dotdot, w, st, ups, body, before);
      }
    }
    n := EmptyIsDot(path, out, base, w, dotdot, st, ups, body, before);
  }

  /** An empty output becomes ".". */
  method EmptyIsDot(path: seq<byte>, out: array<byte>, base: nat, w: nat, ghost dotdot: nat, ghost st: seq<Name>,
                    ghost ups: nat, ghost body: seq<byte>, ghost before: seq<byte>)
    returns (n: nat)
    requires path != [] && base + |path| <= out.Length
    requires Working(path, before, out[..], base, |path|, dotdot, w, st, ups, body)
    modifies out
    ensures n == |Clean(path)| <= |Buffer(path)| <= |path| && out[base..base + n] == Clean(path)
    ensures Holds(before, out[..], base, Buffer(path))
  {
    hide Behind, Inv, Clean, Buffer, Layers.Written, Overlay, Holds;
    ghost var now := out[..];
    InvEnd(path, Rooted(path), now[base..base + w], dotdot, st, ups);
    BehindEnd(path, body, st);
    n := w;
    if w == 0 {
      out[base] := '.';
      n := 1;
    }
    assert out[..][base..base + n] == out[base..base + n] == Clean(path);
    HoldsOver(before, now, base, Root(Rooted(path)) + body, out[..], n);
    BufferDef(path);
  }

  /** A component at the cursor, and what it leaves in the array. */
  method LayComponent(path: seq<byte>, out: array<byte>, base: nat, rooted: bool, r0: nat, dotdot0: nat, w0: nat,
                      ghost st0: seq<Name>, ghost ups0: nat, ghost body0: seq<byte>, ghost before: seq<byte>)
    returns (r: nat, dotdot: nat, w: nat, ghost st: seq<Name>, ghost ups: nat, ghost body: seq<byte>)
    requires Working(path, before, out[..], base, r0, dotdot0, w0, st0, ups0, body0)
    requires r0 < |path| && path[r0] != SLASH && rooted == Rooted(path)
    modifies out
    ensures r0 < r <= |path| && Working(path, before, out[..], base, r, dotdot, w, st, ups, body)
  {
    hide Inv, Push, Behind, Holds, Render;
    ghost var now := out[..];
    assert now[base..base + w0] == out[base..base + w0];
    r, dotdot, w, st, ups := Component(path, out, base, rooted, r0, dotdot0, w0, st0, ups0);
    InvRender(path, rooted, out[base..base + w], r, dotdot, st, ups);
    assert out[..][base..base + w] == out[base..base + w];
    body := ComponentLaid(path, before, now, out[..], base, body0, r0, st0, r, w);
  }

  lemma HoldsFirst(before: seq<byte>, now: seq<byte>, base: nat, text: seq<byte>)
    requires base + |text| <= |before| && |text| <= 1
    requires now == if text == [] then before else before[base := text[0]]
    ensures Holds(before, now, base, text)
  {
  }

  lemma BufferDef(path: seq<byte>)
    ensures Buffer(path) == Overlay(Clean(path), Root(Rooted(path)) + Written(path))
    ensures |Clean(path)| <= |Buffer(path)|
    ensures path != [] && |Root(Rooted(path)) + Written(path)| <= |path| ==> |Buffer(path)| <= |path|
  {
    hide Clean, Written;
    if path != [] {
      CleanLength(path);
    }
  }

  lemma BehindEnd(path: seq<byte>, body: seq<byte>, st: seq<Name>)
    requires Behind(path, body, |path|, st)
    ensures body == Written(path) && |Root(Rooted(path)) + body| <= |path|
  {
    hide Components, Written, Join, Push, Layered;
    assert path[|path|..] == [];
    SingleComponent([]);
    var none: seq<Name> := [[]];
    assert none == [[]] + [];
    LayeredHead(Rooted(path), st, body, [], []);
    PushNothing(Rooted(path), st);
    OverlayPrefix(Join(st), body);
    LayeredNothing(Rooted(path), st, body);
  }

  lemma BufferOfEmpty()
    ensures Clean([]) == DOT && Buffer([]) == DOT
  {
    hide Components;
    SingleComponent([]);
    FoldOne(false, [], []);
    BufferIs([]);
    LayeredHead(false, [], [], [], []);
    var none: seq<Name> := [[]];
    assert none == [[]] + [];
  }

  lemma InvStart(path: seq<byte>)
    requires path != []
    ensures var rooted := Rooted(path); var k := |Root(rooted)|;
            Inv(path, rooted, Root(rooted), k, k, [], 0) && Behind(path, [], k, [])
  {
    hide Components, Fold, Layered;
    assert path[0..] == path;
    if Rooted(path) {
      assert path == [SLASH] + path[1..];
      FoldSlash(true, [], path[1..]);
      LayeredSlash(true, [], [], path[1..]);
    }
  }

  lemma InvEnd(path: seq<byte>, rooted: bool, buf: seq<byte>, dotdot: nat, st: seq<Name>, ups: nat)
    requires Inv(path, rooted, buf, |path|, dotdot, st, ups)
    ensures Clean(path) == if buf == [] then DOT else buf
  {
    hide Components, Fold;
    assert path[|path|..] == [];
    SingleComponent([]);
    FoldOne(rooted, st, []);
  }

  // ---------- The branches for a cursor that stands on a component ----------

  /** What the branches read off the cursors. */
  lemma InvReading(path: seq<byte>, rooted: bool, buf: seq<byte>, r: nat, dotdot: nat, st: seq<Name>, ups: nat)
    requires Inv(path, rooted, buf, r, dotdot, st, ups) && r < |path| && path[r] != SLASH
    ensures |buf| + |Separator(st)| <= r
    ensures (rooted && |buf| != 1) || (!rooted && |buf| != 0) <==> st != []
    ensures |buf| > dotdot <==> st != [] && Last(st) != DOTDOT
    ensures !rooted ==> (|buf| > 0 <==> st != [])
    ensures ups <= |st| && (ups < |st| <==> st != [] && Last(st) != DOTDOT) && (rooted ==> ups == 0)
    ensures buf == Render(rooted, st) && dotdot == |Render(rooted, st[..ups])| && Normal(rooted, st, ups)
  {
    hide Components, Fold, Stack, Render;
    RenderEmpty(rooted, st, ups);
    AboveFloor(rooted, st, ups);
  }

  lemma DotStep(path: seq<byte>, rooted: bool, buf: seq<byte>, r: nat, dotdot: nat, st: seq<Name>, ups: nat)
    requires Inv(path, rooted, buf, r, dotdot, st, ups) && r < |path| && path[r] != SLASH
    requires path[r] == '.' && (r + 1 == |path| || path[r + 1] == SLASH)
    ensures path[r..r + 1] == DOT
    ensures Inv(path, rooted, buf, r + 1, dotdot, Push(rooted, st, DOT), PushUps(rooted, st, ups, DOT))
  {
    hide Components, Fold, Stack, Render, Normal;
    InvReading(path, rooted, buf, r, dotdot, st, ups);
    assert path[r..r + 1] == DOT;
    ComponentStep(path, rooted, buf, r, dotdot, st, ups, r + 1, buf, dotdot);
  }

  /** ".." over a name drops it; on the floor of a rooted path it does nothing; otherwise it is kept. */
  lemma DotDotStep(path: seq<byte>, rooted: bool, buf: seq<byte>, r: nat, dotdot: nat, st: seq<Name>, ups: nat,
                   buf': seq<byte>, dotdot': nat)
    requires Inv(path, rooted, buf, r, dotdot, st, ups) && r < |path| && path[r] != SLASH
    requires r + 2 <= |path| && path[r..r + 2] == DOTDOT && (r + 2 == |path| || path[r + 2] == SLASH)
    requires if |buf| > dotdot then st != [] && buf' == Render(rooted, Init(st)) && |buf'| < |buf| && dotdot' == dotdot
             else if rooted then buf' == buf && dotdot' == dotdot
             else buf' == buf + (Separator(st) + DOTDOT) && dotdot' == |buf'|
    ensures Inv(path, rooted, buf', r + 2, dotdot', Push(rooted, st, DOTDOT), PushUps(rooted, st, ups, DOTDOT))
  {
    hide Components, Fold, Stack, Render, Normal;
    InvReading(path, rooted, buf, r, dotdot, st, ups);
    if |buf| > dotdot {
      assert Init(st)[..ups] == st[..ups];
    } else {
      RenderSnoc(rooted, st, DOTDOT);
      FullPrefix(st + [DOTDOT]);
    }
    ComponentStep(path, rooted, buf, r, dotdot, st, ups, r + 2, buf', dotdot');
  }

  lemma NameStep(path: seq<byte>, rooted: bool, buf: seq<byte>, r: nat, dotdot: nat, st: seq<Name>, ups: nat, e: nat,
                 buf': seq<byte>)
    requires Inv(path, rooted, buf, r, dotdot, st, ups)
    requires r < e <= |path| && (e < |path| ==> path[e] == SLASH) && forall k | r <= k < e :: path[k] != SLASH
    requires path[r..e] != DOT && path[r..e] != DOTDOT && buf' == buf + (Separator(st) + path[r..e])
    ensures Inv(path, rooted, buf', e, dotdot, Push(rooted, st, path[r..e]), PushUps(rooted, st, ups, path[r..e]))
  {
    hide Components, Fold, Stack, Render, Normal;
    var c := path[r..e];
    InvReading(path, rooted, buf, r, dotdot, st, ups);
    RenderSnoc(rooted, st, c);
    assert (st + [c])[..ups] == st[..ups];
    ComponentStep(path, rooted, buf, r, dotdot, st, ups, e, buf', dotdot);
  }

  lemma InvRender(path: seq<byte>, rooted: bool, buf: seq<byte>, r: nat, dotdot: nat, st: seq<Name>, ups: nat)
    requires Inv(path, rooted, buf, r, dotdot, st, ups)
    ensures buf == Render(rooted, st) && |buf| <= r <= |path| && rooted == Rooted(path)
  {
  }

  /** The branches for a component at the cursor. */
  method Component(path: seq<byte>, out: array<byte>, base: nat, rooted: bool, r0: nat, dotdot0: nat, w0: nat,
                   ghost st0: seq<Name>, ghost ups0: nat)
    returns (r: nat, dotdot: nat, w: nat, ghost st: seq<Name>, ghost ups: nat)
    requires base + |path| <= out.Length && r0 < |path| && path[r0] != SLASH && base + w0 <= out.Length
    requires Inv(path, rooted, out[base..base + w0], r0, dotdot0, st0, ups0)
    modifies out
    ensures r0 < r <= |path| && (r < |path| ==> path[r] == SLASH) && forall k | r0 <= k < r :: path[k] != SLASH
    ensures base + w <= out.Length && st == Push(rooted, st0, path[r0..r])
    ensures Inv(path, rooted, out[base..base + w], r, dotdot, st, ups)
    ensures forall i | 0 <= i < out.Length && !(base <= i < base + w) :: out[i] == old(out[i])
  {
    hide Normal, Render, Inv, Push, PushUps;
    r, dotdot, w := r0, dotdot0, w0;
    ghost var buf := out[base..base + w0];
    InvReading(path, rooted, buf, r0, dotdot0, st0, ups0);
    ghost var c;
    if path[r] == '.' && (r + 1 == |path| || path[r + 1] == SLASH) {
      DotStep(path, rooted, buf, r, dotdot, st0, ups0);
      r := r + 1;
      c := path[r0..r];
    } else if path[r] == '.' && path[r + 1] == '.' && (r + 2 == |path| || path[r + 2] == SLASH) {
      r := r + 2;
      c := path[r0..r];
      assert c == DOTDOT;
      if w > dotdot {
        w := Backtrack(out, base, w, dotdot, rooted, st0, ups0);
      } else if !rooted {
        w := Append(path, r0, r, w > 0, out, base, w);
        dotdot := w;
      }
      DotDotStep(path, rooted, buf, r0, dotdot0, st0, ups0, out[base..base + w], dotdot);
    } else {
      while r < |path| && path[r] != SLASH
        invariant r0 <= r <= |path|
        invariant forall k | r0 <= k < r :: path[k] != SLASH
      {
        r := r + 1;
      }
      c := path[r0..r];
      NotDots(path, r0, r);
      w := Append(path, r0, r, (rooted && w != 1) || (!rooted && w != 0), out, base, w);
      NameStep(path, rooted, buf, r0, dotdot, st0, ups0, r, out[base..base + w]);
    }
    st, ups := Push(rooted, st0, c), PushUps(rooted, st0, ups0, c);
  }

  lemma NotDots(path: seq<byte>, r: nat, e: nat)
    requires r < e <= |path| && (e < |path| ==> path[e] == SLASH) && forall k | r <= k < e :: path[k] != SLASH
    requires !(path[r] == '.' && (r + 1 == |path| || path[r + 1] == SLASH))
    requires !(path[r] == '.' && path[r + 1] == '.' && (r + 2 == |path| || path[r + 2] == SLASH))
    ensures path[r..e] != [] && path[r..e] != DOT && path[r..e] != DOTDOT
  {
    var c := path[r..e];
    assert c[0] == path[r];
    assert |c| > 1 ==> c[1] == path[r + 1];
  }
}
