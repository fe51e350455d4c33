/** How a tree value lies in memory: which cell each node must hold, link by link. */
module AvlMemory {
  import opened AvlShape
  import opened AvlRebalance

  /** The contents of one node. */
  datatype Cell = Cell(key: int, bal: int, l: TNode?, r: TNode?)

  type Mem = map<TNode, Cell>

  /** A `posix_tnode **`: the root pointer or a link field of a node. */
  datatype Link = RootLink | LeftOf(n: TNode) | RightOf(n: TNode)

  function Ref(t: Tree): TNode? {
    if t.Leaf? then null else t.id
  }

  ghost predicate Rep(m: Mem, t: Tree) {
    match t
    case Leaf => true
    case Node(n, k, b, l, r) => n in m && m[n] == Cell(k, b, Ref(l), Ref(r)) && Rep(m, l) && Rep(m, r)
  }

  /** The cell of a node on a path whose link on the side taken is `below`. */
  function FrameCell(f: Frame, below: TNode?): Cell {
    if f.left then Cell(f.key, f.bal, below, Ref(f.sib)) else Cell(f.key, f.bal, Ref(f.sib), below)
  }

  function Head(ctx: seq<Frame>, p: TNode?): TNode? {
    if |ctx| == 0 then p else ctx[0].id
  }

  /** The path is laid out in memory and its last link holds `p`. */
  ghost predicate RepCtx(m: Mem, ctx: seq<Frame>, p: TNode?) {
    |ctx| == 0 ||
    (&& ctx[0].id in m && m[ctx[0].id] == FrameCell(ctx[0], Head(ctx[1..], p))
     && Rep(m, ctx[0].sib)
     && RepCtx(m, ctx[1..], p))
  }

  /** The link a path ends in. */
  function LinkOf(ctx: seq<Frame>): Link {
    if |ctx| == 0 then RootLink
    else
      var f := ctx[|ctx| - 1];
      if f.left then LeftOf(f.id) else RightOf(f.id)
  }

  lemma {:induction false} RepPlug(m: Mem, ctx: seq<Frame>, t: Tree)
    ensures Rep(m, Plug(ctx, t)) <==> RepCtx(m, ctx, Ref(t)) && Rep(m, t)
    ensures Ref(Plug(ctx, t)) == Head(ctx, Ref(t))
  {
    if |ctx| > 0 {
      RepPlug(m, ctx[1..], t);
    }
  }

  lemma {:induction false} RepAppend(m: Mem, a: seq<Frame>, b: seq<Frame>, p: TNode?)
    ensures RepCtx(m, a + b, p) <==> RepCtx(m, a, Head(b, p)) && RepCtx(m, b, p)
    ensures Head(a + b, p) == Head(a, Head(b, p))
  {
    if |a| == 0 {
      assert a + b == b;
    } else {
      assert (a + b)[1..] == a[1..] + b;
      RepAppend(m, a[1..], b, p);
    }
  }

  lemma RepOne(m: Mem, f: Frame, p: TNode?)
    ensures RepCtx(m, [f], p) <==> f.id in m && m[f.id] == FrameCell(f, p) && Rep(m, f.sib)
  {
    assert [f][1..] == [];
    assert RepCtx(m, [], p);
  }

  /** Cells outside a tree, or outside a path, do not matter to it. */
  lemma {:induction false} RepElsewhere(m: Mem, m': Mem, t: Tree)
    requires Rep(m, t) && forall n :: n in Ids(t) && n in m ==> n in m' && m'[n] == m[n]
    ensures Rep(m', t)
  {
    if t.Node? {
      RepElsewhere(m, m', t.l);
      RepElsewhere(m, m', t.r);
    }
  }

  lemma {:induction false} RepCtxElsewhere(m: Mem, m': Mem, ctx: seq<Frame>, p: TNode?)
    requires RepCtx(m, ctx, p) && forall n :: n in Foot(ctx) && n in m ==> n in m' && m'[n] == m[n]
    ensures RepCtx(m', ctx, p)
  {
    if |ctx| > 0 {
      RepElsewhere(m, m', ctx[0].sib);
      RepCtxElsewhere(m, m', ctx[1..], p);
    }
  }

  /** Every node of the tree, or of the path, has a cell. */
  lemma {:induction false} RepHasIds(m: Mem, t: Tree)
    requires Rep(m, t)
    ensures Ids(t) <= m.Keys
  {
    if t.Node? {
      RepHasIds(m, t.l);
      RepHasIds(m, t.r);
    }
  }

  lemma {:induction false} RepHasFoot(m: Mem, ctx: seq<Frame>, p: TNode?)
    requires RepCtx(m, ctx, p)
    ensures Foot(ctx) <= m.Keys
  {
    if |ctx| > 0 {
      RepHasIds(m, ctx[0].sib);
      RepHasFoot(m, ctx[1..], p);
    }
  }

  /** Memory after storing `v` through a link. */
  function Stored(m: Mem, link: Link, v: TNode?): Mem
    requires link != RootLink ==> link.n in m
  {
    match link
    case RootLink => m
    case LeftOf(n) => m[n := m[n].(l := v)]
    case RightOf(n) => m[n := m[n].(r := v)]
  }

  /** A path is apart from a set of nodes hanging below it, and shares no node itself. */
  ghost predicate Apart(ctx: seq<Frame>, below: set<TNode>) {
    |ctx| == 0 ||
    (&& Distinct(ctx[0].sib) && ctx[0].id !in Ids(ctx[0].sib)
     && ({ctx[0].id} + Ids(ctx[0].sib)) !! (Foot(ctx[1..]) + below)
     && Apart(ctx[1..], below))
  }

  lemma {:induction false} ApartPlug(ctx: seq<Frame>, t: Tree)
    ensures Distinct(Plug(ctx, t)) <==> Distinct(t) && Apart(ctx, Ids(t))
  {
    if |ctx| > 0 {
      ApartPlug(ctx[1..], t);
      PlugIds(ctx[1..], t);
    }
  }

  lemma {:induction false} ApartAppend(a: seq<Frame>, b: seq<Frame>, below: set<TNode>)
    ensures Apart(a + b, below) <==> Apart(a, Foot(b) + below) && Apart(b, below)
  {
    if |a| == 0 {
      assert a + b == b;
    } else {
      assert (a + b)[1..] == a[1..] + b;
      ApartAppend(a[1..], b, below);
      FootAppend(a[1..], b);
    }
  }

  lemma {:induction false} ApartShrinks(ctx: seq<Frame>, below: set<TNode>, less: set<TNode>)
    requires Apart(ctx, below) && less <= below
    ensures Apart(ctx, less) && Foot(ctx) !! below
  {
    if |ctx| > 0 { ApartShrinks(ctx[1..], below, less); }
  }

  lemma {:induction false} ApartGrows(ctx: seq<Frame>, below: set<TNode>, n: TNode)
    requires Apart(ctx, below) && n !in Foot(ctx)
    ensures Apart(ctx, below + {n})
  {
    if |ctx| > 0 { ApartGrows(ctx[1..], below, n); }
  }

  lemma ApartOne(f: Frame, below: set<TNode>)
    ensures Apart([f], below) <==>
      Distinct(f.sib) && f.id !in Ids(f.sib) && ({f.id} + Ids(f.sib)) !! below
    ensures Foot([f]) == {f.id} + Ids(f.sib)
  {
    assert [f][1..] == [];
    assert Foot([]) == {} && Apart([], below);
  }

  /** Storing through the last link of a path retargets the path and nothing else. */
  lemma StoredAtEnd(m: Mem, ctx: seq<Frame>, p: TNode?, v: TNode?, below: set<TNode>)
    requires RepCtx(m, ctx, p) && Apart(ctx, below)
    ensures LinkOf(ctx) != RootLink ==> LinkOf(ctx).n in m && LinkOf(ctx).n in Foot(ctx)
    ensures RepCtx(Stored(m, LinkOf(ctx), v), ctx, v)
  {
    if |ctx| > 0 {
      var a, f := ctx[..|ctx| - 1], ctx[|ctx| - 1];
      assert ctx == a + [f];
      RepAppend(m, a, [f], p);
      ApartAppend(a, [f], below);
      ApartOne(f, below);
      FootAppend(a, [f]);
      RepOne(m, f, p);
      var m' := Stored(m, LinkOf(ctx), v);
      ApartShrinks(a, Foot([f]) + below, {});
      RepCtxElsewhere(m, m', a, f.id);
      RepElsewhere(m, m', f.sib);
      RepOne(m', f, v);
      RepAppend(m', a, [f], v);
    }
  }

  /** Memory after writing one field of a node. */
  function SetL(m: Mem, n: TNode, v: TNode?): Mem requires n in m { m[n := m[n].(l := v)] }

  function SetR(m: Mem, n: TNode, v: TNode?): Mem requires n in m { m[n := m[n].(r := v)] }

  function SetB(m: Mem, n: TNode, b: int): Mem requires n in m { m[n := m[n].(bal := b)] }

  /** Exchanging the tree at the end of a path for another arrangement of its nodes. */
  lemma Rearranged(m: Mem, m': Mem, top: seq<Frame>, x: Tree, t: Tree)
    requires RepCtx(m, top, Ref(x)) && Rep(m, x) && Apart(top, Ids(x))
    requires Ids(t) == Ids(x) && m'.Keys == m.Keys
    requires forall n :: n in m && n !in Ids(x) ==> m'[n] == m[n]
    requires Rep(m', t)
    ensures LinkOf(top) != RootLink ==> LinkOf(top).n in m'
    ensures RepCtx(Stored(m', LinkOf(top), Ref(t)), top, Ref(t))
    ensures Rep(Stored(m', LinkOf(top), Ref(t)), t)
  {
    hide Ids, Foot, Rep, RepCtx, Apart, LinkOf;
    ApartShrinks(top, Ids(x), {});
    RepHasFoot(m, top, Ref(x));
    RepCtxElsewhere(m, m', top, Ref(x));
    StoredAtEnd(m', top, Ref(x), Ref(t), Ids(x));
    RepElsewhere(m', Stored(m', LinkOf(top), Ref(t)), t);
  }

  /** Changing the key or balance of one node on a path. */
  lemma Reframed(m: Mem, a: seq<Frame>, f: Frame, b: seq<Frame>, t: Tree, g: Frame)
    requires RepCtx(m, a + [f] + b, Ref(t)) && Rep(m, t) && Apart(a + [f] + b, Ids(t))
    requires g.id == f.id && g.left == f.left && g.sib == f.sib
    ensures f.id in m && m[f.id] == FrameCell(f, Head(b, Ref(t))) && f.id !in Ids(t)
    ensures var m' := m[f.id := FrameCell(g, Head(b, Ref(t)))];
      RepCtx(m', a + [g] + b, Ref(t)) && Rep(m', t) && Apart(a + [g] + b, Ids(t))
    ensures Foot(a + [g] + b) == Foot(a + [f] + b)
    ensures Head(a + [g] + b, Ref(t)) == Head(a + [f] + b, Ref(t))
  {
    hide Ids, Foot, Rep, RepCtx, Apart;
    var p := Ref(t);
    var m' := m[f.id := FrameCell(g, Head(b, p))];
    RepAppend(m, a + [f], b, p);
    RepAppend(m, a, [f], Head(b, p));
    RepOne(m, f, Head(b, p));
    ApartAppend(a + [f], b, Ids(t));
    ApartAppend(a, [f], Foot(b) + Ids(t));
    ApartOne(f, Foot(b) + Ids(t));
    ApartOne(g, Foot(b) + Ids(t));
    ApartShrinks(a, Foot([f]) + (Foot(b) + Ids(t)), {});
    RepCtxElsewhere(m, m', a, f.id);
    RepElsewhere(m, m', f.sib);
    RepCtxElsewhere(m, m', b, p);
    RepElsewhere(m, m', t);
    RepOne(m', g, Head(b, p));
    RepAppend(m', a, [g], Head(b, p));
    RepAppend(m', a + [g], b, p);
    ApartAppend(a, [g], Foot(b) + Ids(t));
    ApartAppend(a + [g], b, Ids(t));
    FootAppend(a + [f], b); FootAppend(a, [f]);
    FootAppend(a + [g], b); FootAppend(a, [g]);
  }

  function CellOf(t: Tree): Cell requires t.Node? { Cell(t.key, t.bal, Ref(t.l), Ref(t.r)) }

  /** Every node that had a cell still has one, with the same key. */
  ghost predicate KeysKept(m: Mem, m': Mem) {
    forall n :: n in m ==> n in m' && m'[n].key == m[n].key
  }

  lemma KeptTrans(m0: Mem, m1: Mem, m2: Mem)
    ensures KeysKept(m0, m0)
    ensures KeysKept(m0, m1) && KeysKept(m1, m2) ==> KeysKept(m0, m2)
  {
  }

  /** A rotation rewrote the three nodes that changed places; the rest is as before. */
  ghost predicate Rewritten(m: Mem, m': Mem, t: Tree)
    requires t.Node?
  {
    && m'.Keys == m.Keys && KeysKept(m, m')
    && t.id in m' && m'[t.id] == CellOf(t)
    && (t.l.Node? ==> t.l.id in m' && m'[t.l.id] == CellOf(t.l))
    && (t.r.Node? ==> t.r.id in m' && m'[t.r.id] == CellOf(t.r))
    && forall n :: n in m && n != t.id && (t.l.Node? ==> n != t.l.id) && (t.r.Node? ==> n != t.r.id)
                   ==> m'[n] == m[n]
  }

  /** Whatever hangs two levels below the new top was not touched. */
  lemma RewrittenRep(m: Mem, m': Mem, t: Tree)
    requires t.Node? && Distinct(t) && Rewritten(m, m', t)
    requires t.l.Node? ==> Rep(m, t.l.l) && Rep(m, t.l.r)
    requires t.r.Node? ==> Rep(m, t.r.l) && Rep(m, t.r.r)
    ensures Rep(m', t)
  {
    hide Ids, Distinct;
    UnfoldIds(t);
    if t.l.Node? { UnfoldIds(t.l); }
    if t.r.Node? { UnfoldIds(t.r); }
    if t.l.Node? {
      RepElsewhere(m, m', t.l.l);
      RepElsewhere(m, m', t.l.r);
    }
    if t.r.Node? {
      RepElsewhere(m, m', t.r.l);
      RepElsewhere(m, m', t.r.r);
    }
  }

  /** Memory after the field writes of the right-left rotation. */
  function WriteRL(m: Mem, x: TNode, y: TNode, z: TNode, l: TNode?, r: TNode?, b: int): Mem
    requires x in m && y in m && z in m
  {
    var m1 := SetR(SetL(SetL(SetR(m, x, l), z, x), y, r), z, y);
    SetB(SetB(SetB(m1, x, if b < 0 then 1 else 0), y, if b > 0 then -1 else 0), z, 0)
  }

  lemma RepNode(m: Mem, t: Tree)
    requires Rep(m, t) && t.Node?
    ensures t.id in m && m[t.id] == CellOf(t) && Rep(m, t.l) && Rep(m, t.r)
  {
  }

  lemma RepChild(m: Mem, t: Tree)
    requires Rep(m, t)
    ensures t.Node? ==> t.id in m && m[t.id] == CellOf(t) && t.id in Ids(t)
  {
  }

  lemma WriteRLRewrites(m: Mem, x: Tree)
    requires x.Node? && x.r.Node? && x.r.l.Node? && Rep(m, x) && Distinct(x)
    ensures x.id in m && x.r.id in m && x.r.l.id in m
    ensures var z := x.r.l;
      Rewritten(m, WriteRL(m, x.id, x.r.id, z.id, Ref(z.l), Ref(z.r), z.bal), RotRL(x))
  {
    RepNode(m, x); RepNode(m, x.r); RepNode(m, x.r.l);
    UnfoldIds(x); UnfoldIds(x.r); UnfoldIds(x.r.l);
    hide Rep, Ids, Distinct;
    var z := x.r.l;
    var m' := WriteRL(m, x.id, x.r.id, z.id, Ref(z.l), Ref(z.r), z.bal);
    assert m'.Keys == m.Keys;
  }

  /** Memory after the field writes of the left-right rotation. */
  function WriteLR(m: Mem, x: TNode, y: TNode, z: TNode, l: TNode?, r: TNode?, b: int): Mem
    requires x in m && y in m && z in m
  {
    var m1 := SetR(SetL(SetL(SetR(m, y, l), z, y), x, r), z, x);
    SetB(SetB(SetB(m1, x, if b > 0 then -1 else 0), y, if b < 0 then 1 else 0), z, 0)
  }

  lemma WriteLRRewrites(m: Mem, x: Tree)
    requires x.Node? && x.l.Node? && x.l.r.Node? && Rep(m, x) && Distinct(x)
    ensures x.id in m && x.l.id in m && x.l.r.id in m
    ensures var z := x.l.r;
      Rewritten(m, WriteLR(m, x.id, x.l.id, z.id, Ref(z.l), Ref(z.r), z.bal), RotLR(x))
  {
    RepNode(m, x); RepNode(m, x.l); RepNode(m, x.l.r);
    UnfoldIds(x); UnfoldIds(x.l); UnfoldIds(x.l.r);
    hide Rep, Ids, Distinct;
    var z := x.l.r;
    var m' := WriteLR(m, x.id, x.l.id, z.id, Ref(z.l), Ref(z.r), z.bal);
    assert m'.Keys == m.Keys;
  }

  /** Memory after the field writes of the right-right rotation. */
  function WriteRR(m: Mem, x: TNode, y: TNode, l: TNode?, xb: int, yb: int): Mem
    requires x in m && y in m
  {
    SetB(SetB(SetL(SetR(m, x, l), y, x), x, xb), y, yb)
  }

  lemma WriteRRCells(m: Mem, x: TNode, y: TNode, l: TNode?, xb: int, yb: int)
    requires x in m && y in m && x != y
    ensures WriteRR(m, x, y, l, xb, yb) == m[x := Cell(m[x].key, xb, m[x].l, l)][y := Cell(m[y].key, yb, x, m[y].r)]
  {
  }

  lemma WriteRRRewrites(m: Mem, x: Tree, xb: int, yb: int)
    requires x.Node? && x.r.Node? && Rep(m, x) && Distinct(x)
    ensures x.id in m && x.r.id in m
    ensures Rewritten(m, WriteRR(m, x.id, x.r.id, Ref(x.r.l), xb, yb), RotRR(x, xb, yb))
  {
    hide Rep, Ids, Distinct, WriteRR;
    RepNode(m, x);
    RepNode(m, x.r);
    UnfoldIds(x);
    UnfoldIds(x.r);
    RepChild(m, x.r.r);
    WriteRRCells(m, x.id, x.r.id, Ref(x.r.l), xb, yb);
    assert WriteRR(m, x.id, x.r.id, Ref(x.r.l), xb, yb).Keys == m.Keys;
  }

  /** Memory after the field writes of the left-left rotation. */
  function WriteLL(m: Mem, x: TNode, y: TNode, r: TNode?, xb: int, yb: int): Mem
    requires x in m && y in m
  {
    SetB(SetB(SetR(SetL(m, x, r), y, x), x, xb), y, yb)
  }

  lemma WriteLLCells(m: Mem, x: TNode, y: TNode, r: TNode?, xb: int, yb: int)
    requires x in m && y in m && x != y
    ensures WriteLL(m, x, y, r, xb, yb) == m[x := Cell(m[x].key, xb, r, m[x].r)][y := Cell(m[y].key, yb, m[y].l, x)]
  {
  }

  lemma WriteLLRewrites(m: Mem, x: Tree, xb: int, yb: int)
    requires x.Node? && x.l.Node? && Rep(m, x) && Distinct(x)
    ensures x.id in m && x.l.id in m
    ensures Rewritten(m, WriteLL(m, x.id, x.l.id, Ref(x.l.r), xb, yb), RotLL(x, xb, yb))
  {
    hide Rep, Ids, Distinct, WriteLL;
    RepNode(m, x);
    RepNode(m, x.l);
    UnfoldIds(x);
    UnfoldIds(x.l);
    RepChild(m, x.l.l);
    WriteLLCells(m, x.id, x.l.id, Ref(x.l.r), xb, yb);
    assert WriteLL(m, x.id, x.l.id, Ref(x.l.r), xb, yb).Keys == m.Keys;
  }

  /** Memory after the node at the end of a path is bypassed in favour of its only child
      and freed. */
  lemma OnlyChild(m: Mem, t: Tree, u: Tree)
    requires t.Node? && Rep(m, t) && Distinct(t) && ((t.l == Leaf && u == t.r) || (t.r == Leaf && u == t.l))
    ensures t.id in m && t.id !in Ids(u) && Ids(t) == {t.id} + Ids(u) && Rep(m, u) && Distinct(u)
  {
  }

  lemma RootIff(ctx: seq<Frame>)
    ensures LinkOf(ctx) == RootLink <==> |ctx| == 0
  {
  }

  /** A link changes the cell it is in and no other, and no key. */
  lemma StoredOthers(m: Mem, link: Link, v: TNode?)
    requires link != RootLink ==> link.n in m
    ensures var m' := Stored(m, link, v);
      && m'.Keys == m.Keys && KeysKept(m', m) && forall n :: n in m && (link == RootLink || n != link.n) ==> m'[n] == m[n]
  {
  }

  lemma {:induction false} ApartIds(ctx: seq<Frame>, below: set<TNode>)
    requires Apart(ctx, below)
    ensures Foot(ctx) !! below
  {
    if |ctx| > 0 { ApartIds(ctx[1..], below); }
  }

  lemma Unlinked(m: Mem, ctx: seq<Frame>, t: Tree, u: Tree)
    requires RepCtx(m, ctx, Ref(t)) && Rep(m, t) && Apart(ctx, Ids(t)) && Distinct(t) && t.Node?
    requires m.Keys == Foot(ctx) + Ids(t)
    requires (t.l == Leaf && u == t.r) || (t.r == Leaf && u == t.l)
    ensures LinkOf(ctx) == RootLink <==> |ctx| == 0
    ensures LinkOf(ctx) != RootLink ==> LinkOf(ctx).n in m && LinkOf(ctx).n != t.id
    ensures var m' := Stored(m, LinkOf(ctx), Ref(u)) - {t.id};
      && RepCtx(m', ctx, Ref(u)) && Rep(m', u) && Apart(ctx, Ids(u)) && Distinct(u)
      && m'.Keys == Foot(ctx) + Ids(u) && m'.Keys == m.Keys - {t.id} && KeysKept(m', m)
  {
    hide Foot, Apart, RepCtx, Rep, Distinct, Ids, LinkOf, Stored, KeysKept;
    OnlyChild(m, t, u);
    RootIff(ctx);
    StoredAtEnd(m, ctx, t.id, Ref(u), Ids(t));
    ApartShrinks(ctx, Ids(t), Ids(u));
    ApartIds(ctx, Ids(t));
    var m1 := Stored(m, LinkOf(ctx), Ref(u));
    StoredOthers(m, LinkOf(ctx), Ref(u));
    UnlinkedKeys(m, m1, Foot(ctx), Ids(u), t.id);
    RepElsewhere(m, m1 - {t.id}, u);
    RepCtxElsewhere(m1, m1 - {t.id}, ctx, Ref(u));
  }

  lemma UnlinkedKeys(m: Mem, m1: Mem, foot: set<TNode>, ids: set<TNode>, n: TNode)
    requires m.Keys == foot + ({n} + ids) && n !in foot && n !in ids && m1.Keys == m.Keys && KeysKept(m1, m)
    ensures (m1 - {n}).Keys == foot + ids == m.Keys - {n} && KeysKept(m1 - {n}, m)
  {
  }

  /** Memory after a new node without children was linked to the end of a path. */
  lemma LinkedNew(m: Mem, ctx: seq<Frame>, n: TNode, key: int)
    requires RepCtx(m, ctx, null) && Apart(ctx, Ids(Leaf)) && m.Keys == Foot(ctx) + Ids(Leaf) && n !in m
    ensures LinkOf(ctx) != RootLink ==> LinkOf(ctx).n in m
    ensures var t, m' := Node(n, key, 0, Leaf, Leaf), Stored(m, LinkOf(ctx), n)[n := Cell(key, 0, null, null)];
      && RepCtx(m', ctx, n) && Rep(m', t) && Apart(ctx, Ids(t)) && Distinct(t)
      && m'.Keys == Foot(ctx) + Ids(t) == m.Keys + {n} && KeysKept(m, m')
  {
    hide Foot, Apart, RepCtx, LinkOf, Stored;
    StoredAtEnd(m, ctx, null, n, {});
    StoredOthers(m, LinkOf(ctx), n);
    ApartGrows(ctx, {}, n);
    var m1 := Stored(m, LinkOf(ctx), n);
    RepCtxElsewhere(m1, m1[n := Cell(key, 0, null, null)], ctx, n);
    assert Ids(Node(n, key, 0, Leaf, Leaf)) == {} + {n};
  }
}
