/** The balance repair of tsearch() and tdelete() as functions of the recorded path,
    and why repairing only the part below the remembered link is enough. */
module AvlRebalance {
  import opened Arithmetic
  import opened AvlShape

  // ----- rotations -----

  /** Right-left: the left grandchild z of the right child y comes up. */
  function RotRL(x: Tree): Tree
    requires x.Node? && x.r.Node? && x.r.l.Node?
  {
    var y, z := x.r, x.r.l;
    Node(z.id, z.key, 0,
         Node(x.id, x.key, if z.bal < 0 then 1 else 0, x.l, z.l),
         Node(y.id, y.key, if z.bal > 0 then -1 else 0, z.r, y.r))
  }

  /** Left-right: the right grandchild z of the left child y comes up. */
  function RotLR(x: Tree): Tree
    requires x.Node? && x.l.Node? && x.l.r.Node?
  {
    var y, z := x.l, x.l.r;
    Node(z.id, z.key, 0,
         Node(y.id, y.key, if z.bal < 0 then 1 else 0, y.l, z.l),
         Node(x.id, x.key, if z.bal > 0 then -1 else 0, z.r, x.r))
  }

  /** Right-right: the right child comes up; the two nodes get the given balances. */
  function RotRR(x: Tree, xb: int, yb: int): Tree
    requires x.Node? && x.r.Node?
  {
    Node(x.r.id, x.r.key, yb, Node(x.id, x.key, xb, x.l, x.r.l), x.r.r)
  }

  /** Left-left: the left child comes up; the two nodes get the given balances. */
  function RotLL(x: Tree, xb: int, yb: int): Tree
    requires x.Node? && x.l.Node?
  {
    Node(x.l.id, x.l.key, yb, x.l.l, Node(x.id, x.key, xb, x.l.r, x.r))
  }

  lemma RotRLKeeps(x: Tree)
    requires x.Node? && x.r.Node? && x.r.l.Node?
    ensures Ids(RotRL(x)) == Ids(x) && (Distinct(x) ==> Distinct(RotRL(x)))
    ensures KeySeq(RotRL(x)) == KeySeq(x)
  {
    hide Ids, Distinct, KeySeq;
    var t, y, z := RotRL(x), x.r, x.r.l;
    UnfoldIds(x); UnfoldIds(y); UnfoldIds(z); UnfoldIds(t); UnfoldIds(t.l); UnfoldIds(t.r);
    UnfoldKeys(x); UnfoldKeys(y); UnfoldKeys(z); UnfoldKeys(t); UnfoldKeys(t.l); UnfoldKeys(t.r);
    DoubleKeys(KeySeq(x.l), x.key, KeySeq(z.l), z.key, KeySeq(z.r), y.key, KeySeq(y.r));
  }

  lemma RotLRKeeps(x: Tree)
    requires x.Node? && x.l.Node? && x.l.r.Node?
    ensures Ids(RotLR(x)) == Ids(x) && (Distinct(x) ==> Distinct(RotLR(x)))
    ensures KeySeq(RotLR(x)) == KeySeq(x)
  {
    hide Ids, Distinct, KeySeq;
    var t, y, z := RotLR(x), x.l, x.l.r;
    UnfoldIds(x); UnfoldIds(y); UnfoldIds(z); UnfoldIds(t); UnfoldIds(t.l); UnfoldIds(t.r);
    UnfoldKeys(x); UnfoldKeys(y); UnfoldKeys(z); UnfoldKeys(t); UnfoldKeys(t.l); UnfoldKeys(t.r);
    DoubleKeys(KeySeq(y.l), y.key, KeySeq(z.l), z.key, KeySeq(z.r), x.key, KeySeq(x.r));
  }

  lemma RotRRKeeps(x: Tree, xb: int, yb: int)
    requires x.Node? && x.r.Node?
    ensures var t := RotRR(x, xb, yb);
      Ids(t) == Ids(x) && (Distinct(x) ==> Distinct(t)) && KeySeq(t) == KeySeq(x)
  {
    hide Ids, Distinct, KeySeq;
    var t, y := RotRR(x, xb, yb), x.r;
    UnfoldIds(x); UnfoldIds(y); UnfoldIds(t); UnfoldIds(t.l);
    UnfoldKeys(x); UnfoldKeys(y); UnfoldKeys(t); UnfoldKeys(t.l);
    SingleKeys(KeySeq(x.l) + [x.key], KeySeq(y.l), y.key, KeySeq(y.r));
    assert KeySeq(x.l) + [x.key] + KeySeq(y.l) + [y.key] + KeySeq(y.r)
        == (KeySeq(x.l) + [x.key] + KeySeq(y.l)) + ([y.key] + KeySeq(y.r));
  }

  lemma RotLLKeeps(x: Tree, xb: int, yb: int)
    requires x.Node? && x.l.Node?
    ensures var t := RotLL(x, xb, yb);
      Ids(t) == Ids(x) && (Distinct(x) ==> Distinct(t)) && KeySeq(t) == KeySeq(x)
  {
    hide Ids, Distinct, KeySeq;
    var t, y := RotLL(x, xb, yb), x.l;
    UnfoldIds(x); UnfoldIds(y); UnfoldIds(t); UnfoldIds(t.r);
    UnfoldKeys(x); UnfoldKeys(y); UnfoldKeys(t); UnfoldKeys(t.r);
    SingleKeys(KeySeq(y.l) + [y.key], KeySeq(y.r), x.key, KeySeq(x.r));
    assert KeySeq(y.l) + [y.key] + KeySeq(y.r) + [x.key] + KeySeq(x.r)
        == (KeySeq(y.l) + [y.key] + KeySeq(y.r)) + ([x.key] + KeySeq(x.r));
  }

  // ----- deletion -----

  /** The condition under which tdelete() forgets the path above a node it steps
      through: the node, or the child on the side not taken, is evenly balanced. */
  predicate Absorbs(f: Frame) {
    || f.bal == 0
    || (f.left && f.bal < 0 && f.sib.Node? && f.sib.bal == 0)
    || (!f.left && f.bal > 0 && f.sib.Node? && f.sib.bal == 0)
  }

  /** The nodes a rotation at this frame dereferences exist. */
  predicate Rotatable(f: Frame) {
    && (f.left && f.bal < 0 ==> f.sib.Node? && (f.sib.bal > 0 ==> f.sib.l.Node?))
    && (!f.left && f.bal > 0 ==> f.sib.Node? && (f.sib.bal < 0 ==> f.sib.r.Node?))
  }

  /** What one round of tdelete()'s replay makes of the node it passes through when the
      subtree on the side taken has lost one level. */
  function Shrink(f: Frame): (r: seq<Frame>)
    requires Rotatable(f)
    ensures 1 <= |r| <= 2
    ensures r[|r| - 1].id == f.id && r[|r| - 1].left == f.left
  {
    if f.left then
      if f.bal < 0 then
        var y := f.sib;
        if y.bal > 0 then
          var z := y.l;
          [Frame(true, z.id, z.key, 0, Node(y.id, y.key, if z.bal > 0 then -1 else 0, z.r, y.r)),
           Frame(true, f.id, f.key, if z.bal < 0 then 1 else 0, z.l)]
        else
          [Frame(true, y.id, y.key, if y.bal < 0 then 0 else 1, y.r),
           Frame(true, f.id, f.key, if y.bal < 0 then 0 else -1, y.l)]
      else [f.(bal := f.bal - 1)]
    else
      if f.bal > 0 then
        var y := f.sib;
        if y.bal < 0 then
          var z := y.r;
          [Frame(false, z.id, z.key, 0, Node(y.id, y.key, if z.bal < 0 then 1 else 0, y.l, z.l)),
           Frame(false, f.id, f.key, if z.bal > 0 then -1 else 0, z.r)]
        else
          [Frame(false, y.id, y.key, if y.bal > 0 then 0 else -1, y.l),
           Frame(false, f.id, f.key, if y.bal > 0 then 0 else 1, y.r)]
      else [f.(bal := f.bal + 1)]
  }

  lemma PlugOne(f: Frame, t: Tree)
    ensures Plug([f], t) == Fill(f, t)
    ensures Pre([f]) == PreKeys(f) && Post([f]) == PostKeys(f) && Foot([f]) == FrameIds(f)
  {
    assert [f][1..] == [];
  }

  lemma PlugTwo(f: Frame, g: Frame, t: Tree)
    ensures Plug([f, g], t) == Fill(f, Fill(g, t))
    ensures Pre([f, g]) == Pre([f]) + Pre([g])
    ensures Post([f, g]) == Post([g]) + Post([f])
    ensures Foot([f, g]) == Foot([f]) + Foot([g])
  {
    assert [f, g] == [f] + [g];
    PlugAppend([f], [g], t);
    PlugOne(f, Fill(g, t));
    PlugOne(g, t);
    PrePostAppend([f], [g]);
    FootAppend([f], [g]);
  }

  /** Balance and height of a node put together from balanced parts. */
  lemma Join(n: TNode, k: int, b: int, l: Tree, r: Tree)
    requires Balanced(l) && Balanced(r) && b == Height(l) - Height(r) && -1 <= b <= 1
    ensures Balanced(Node(n, k, b, l, r))
    ensures Height(Node(n, k, b, l, r)) == 1 + Max(Height(l), Height(r))
  {
  }

  lemma UnfoldShape(x: Tree)
    requires x.Node?
    ensures Height(x) == 1 + Max(Height(x.l), Height(x.r))
    ensures Balanced(x) <==> (&& Balanced(x.l) && Balanced(x.r) && -1 <= x.bal <= 1
                              && x.bal == Height(x.l) - Height(x.r))
  {
  }

  lemma Taller(x: Tree)
    ensures Height(x) == 0 <==> x.Leaf?
  {
  }

  lemma UnfoldIds(x: Tree)
    requires x.Node?
    ensures Ids(x) == {x.id} + Ids(x.l) + Ids(x.r)
    ensures Distinct(x) <==> (&& Distinct(x.l) && Distinct(x.r)
                              && x.id !in Ids(x.l) && x.id !in Ids(x.r) && Ids(x.l) !! Ids(x.r))
  {
  }

  /** The replay of one step, seen on the subtree at that step. */
  lemma ShrinkIsRotation(f: Frame, u: Tree)
    requires Rotatable(f)
    ensures var x, y := Fill(f, u), f.sib;
      Plug(Shrink(f), u) ==
        if f.left && f.bal < 0 then
          if y.bal > 0 then RotRL(x)
          else RotRR(x, if y.bal < 0 then 0 else -1, if y.bal < 0 then 0 else 1)
        else if !f.left && f.bal > 0 then
          if y.bal < 0 then RotLR(x)
          else RotLL(x, if y.bal > 0 then 0 else 1, if y.bal > 0 then 0 else -1)
        else Fill(f.(bal := if f.left then f.bal - 1 else f.bal + 1), u)
  {
    hide Plug;
    if |Shrink(f)| == 2 {
      PlugTwo(Shrink(f)[0], Shrink(f)[1], u);
    } else {
      PlugOne(Shrink(f)[0], u);
    }
  }

  /** One frame: the loss of a level below is repaired, and is passed on upwards
      exactly when the frame does not absorb it. */
  lemma ShrinkFrame(f: Frame, t: Tree, u: Tree)
    requires Balanced(Fill(f, t)) && Balanced(u) && Height(u) + 1 == Height(t)
    ensures Rotatable(f) && Balanced(Plug(Shrink(f), u))
    ensures Height(Plug(Shrink(f), u)) == Height(Fill(f, t)) - (if Absorbs(f) then 0 else 1)
  {
    if f.left { ShrinkLeft(f, t, u); } else { ShrinkRight(f, t, u); }
  }

  lemma ShrinkLeft(f: Frame, t: Tree, u: Tree)
    requires f.left
    requires Balanced(Fill(f, t)) && Balanced(u) && Height(u) + 1 == Height(t)
    ensures Rotatable(f) && Balanced(Plug(Shrink(f), u))
    ensures Height(Plug(Shrink(f), u)) == Height(Fill(f, t)) - (if Absorbs(f) then 0 else 1)
  {
    hide Plug, Balanced, Height, Rotatable, Shrink, Absorbs;
    UnfoldShape(Fill(f, t));
    Taller(f.sib);
    if f.bal >= 0 {
      ShrinkLeftInPlace(f, t, u);
    } else if f.sib.bal > 0 {
      ShrinkLeftTwice(f, t, u);
    } else {
      ShrinkLeftOnce(f, t, u);
    }
  }

  lemma ShrinkLeftInPlace(f: Frame, t: Tree, u: Tree)
    requires f.left && f.bal >= 0
    requires Balanced(Fill(f, t)) && Balanced(u) && Height(u) + 1 == Height(t)
    ensures Rotatable(f) && Balanced(Plug(Shrink(f), u))
    ensures Height(Plug(Shrink(f), u)) == Height(Fill(f, t)) - (if Absorbs(f) then 0 else 1)
  {
    hide Plug, Balanced, Height;
    UnfoldShape(Fill(f, t));
    Taller(f.sib);
    PlugOne(f.(bal := f.bal - 1), u);
    Join(f.id, f.key, f.bal - 1, u, f.sib);
  }

  lemma ShrinkLeftTwice(f: Frame, t: Tree, u: Tree)
    requires f.left && f.bal < 0 && f.sib.Node? && f.sib.bal > 0
    requires Balanced(Fill(f, t)) && Balanced(u) && Height(u) + 1 == Height(t)
    ensures Rotatable(f) && Balanced(Plug(Shrink(f), u))
    ensures Height(Plug(Shrink(f), u)) == Height(Fill(f, t)) - (if Absorbs(f) then 0 else 1)
  {
    hide Plug, Balanced, Height;
    UnfoldShape(Fill(f, t));
    var y, z := f.sib, f.sib.l;
    Taller(y);
    UnfoldShape(y);
    Taller(z);
    UnfoldShape(z);
    var xb, yb := if z.bal < 0 then 1 else 0, if z.bal > 0 then -1 else 0;
    Join(f.id, f.key, xb, u, z.l);
    Join(y.id, y.key, yb, z.r, y.r);
    Join(z.id, z.key, 0, Node(f.id, f.key, xb, u, z.l), Node(y.id, y.key, yb, z.r, y.r));
    PlugTwo(Shrink(f)[0], Shrink(f)[1], u);
  }

  lemma ShrinkLeftOnce(f: Frame, t: Tree, u: Tree)
    requires f.left && f.bal < 0 && f.sib.Node? && f.sib.bal <= 0
    requires Balanced(Fill(f, t)) && Balanced(u) && Height(u) + 1 == Height(t)
    ensures Rotatable(f) && Balanced(Plug(Shrink(f), u))
    ensures Height(Plug(Shrink(f), u)) == Height(Fill(f, t)) - (if Absorbs(f) then 0 else 1)
  {
    hide Plug, Balanced, Height;
    UnfoldShape(Fill(f, t));
    var y := f.sib;
    Taller(y);
    UnfoldShape(y);
    var xb, yb := if y.bal < 0 then 0 else -1, if y.bal < 0 then 0 else 1;
    Join(f.id, f.key, xb, u, y.l);
    Join(y.id, y.key, yb, Node(f.id, f.key, xb, u, y.l), y.r);
    PlugTwo(Shrink(f)[0], Shrink(f)[1], u);
  }

  lemma ShrinkRight(f: Frame, t: Tree, u: Tree)
    requires !f.left
    requires Balanced(Fill(f, t)) && Balanced(u) && Height(u) + 1 == Height(t)
    ensures Rotatable(f) && Balanced(Plug(Shrink(f), u))
    ensures Height(Plug(Shrink(f), u)) == Height(Fill(f, t)) - (if Absorbs(f) then 0 else 1)
  {
    hide Plug, Balanced, Height, Rotatable, Shrink, Absorbs;
    UnfoldShape(Fill(f, t));
    Taller(f.sib);
    if f.bal <= 0 {
      ShrinkRightInPlace(f, t, u);
    } else if f.sib.bal < 0 {
      ShrinkRightTwice(f, t, u);
    } else {
      ShrinkRightOnce(f, t, u);
    }
  }

  lemma ShrinkRightInPlace(f: Frame, t: Tree, u: Tree)
    requires !f.left && f.bal <= 0
    requires Balanced(Fill(f, t)) && Balanced(u) && Height(u) + 1 == Height(t)
    ensures Rotatable(f) && Balanced(Plug(Shrink(f), u))
    ensures Height(Plug(Shrink(f), u)) == Height(Fill(f, t)) - (if Absorbs(f) then 0 else 1)
  {
    hide Plug, Balanced, Height;
    UnfoldShape(Fill(f, t));
    Taller(f.sib);
    PlugOne(f.(bal := f.bal + 1), u);
    Join(f.id, f.key, f.bal + 1, f.sib, u);
  }

  lemma ShrinkRightTwice(f: Frame, t: Tree, u: Tree)
    requires !f.left && f.bal > 0 && f.sib.Node? && f.sib.bal < 0
    requires Balanced(Fill(f, t)) && Balanced(u) && Height(u) + 1 == Height(t)
    ensures Rotatable(f) && Balanced(Plug(Shrink(f), u))
    ensures Height(Plug(Shrink(f), u)) == Height(Fill(f, t)) - (if Absorbs(f) then 0 else 1)
  {
    hide Plug, Balanced, Height;
    UnfoldShape(Fill(f, t));
    var y, z := f.sib, f.sib.r;
    Taller(y);
    UnfoldShape(y);
    Taller(z);
    UnfoldShape(z);
    var xb, yb := if z.bal > 0 then -1 else 0, if z.bal < 0 then 1 else 0;
    Join(f.id, f.key, xb, z.r, u);
    Join(y.id, y.key, yb, y.l, z.l);
    Join(z.id, z.key, 0, Node(y.id, y.key, yb, y.l, z.l), Node(f.id, f.key, xb, z.r, u));
    PlugTwo(Shrink(f)[0], Shrink(f)[1], u);
  }

  lemma ShrinkRightOnce(f: Frame, t: Tree, u: Tree)
    requires !f.left && f.bal > 0 && f.sib.Node? && f.sib.bal >= 0
    requires Balanced(Fill(f, t)) && Balanced(u) && Height(u) + 1 == Height(t)
    ensures Rotatable(f) && Balanced(Plug(Shrink(f), u))
    ensures Height(Plug(Shrink(f), u)) == Height(Fill(f, t)) - (if Absorbs(f) then 0 else 1)
  {
    hide Plug, Balanced, Height;
    UnfoldShape(Fill(f, t));
    var y := f.sib;
    Taller(y);
    UnfoldShape(y);
    var xb, yb := if y.bal > 0 then 0 else 1, if y.bal > 0 then 0 else -1;
    Join(f.id, f.key, xb, y.r, u);
    Join(y.id, y.key, yb, y.l, Node(f.id, f.key, xb, y.r, u));
    PlugTwo(Shrink(f)[0], Shrink(f)[1], u);
  }

  function PreKeys(f: Frame): seq<int> { if f.left then [] else KeySeq(f.sib) + [f.key] }

  function PostKeys(f: Frame): seq<int> { if f.left then [f.key] + KeySeq(f.sib) else [] }

  ghost function FrameIds(f: Frame): set<TNode> { {f.id} + Ids(f.sib) }

  /** Neither the nodes, nor their keys in symmetric order, change in a rotation. */
  lemma ShrinkKeeps(f: Frame)
    requires Rotatable(f)
    ensures Pre(Shrink(f)) == Pre([f]) && Post(Shrink(f)) == Post([f])
    ensures Foot(Shrink(f)) == Foot([f])
  {
    ShrinkKeepsKeys(f);
    ShrinkKeepsIds(f);
    PlugOne(f, Leaf);
    SumUp(Shrink(f));
  }

  lemma SumUp(s: seq<Frame>)
    requires 1 <= |s| <= 2
    ensures Pre(s) == if |s| == 2 then PreKeys(s[0]) + PreKeys(s[1]) else PreKeys(s[0])
    ensures Post(s) == if |s| == 2 then PostKeys(s[1]) + PostKeys(s[0]) else PostKeys(s[0])
    ensures Foot(s) == FrameIds(s[0]) + FrameIds(s[|s| - 1])
  {
    hide Pre, Post, Foot, Plug, KeySeq, PreKeys, PostKeys, FrameIds;
    PlugOne(s[0], Leaf);
    if |s| == 2 {
      PlugOne(s[1], Leaf);
      PlugTwo(s[0], s[1], Leaf);
      assert s == [s[0], s[1]];
    } else {
      assert s == [s[0]];
    }
  }

  lemma ShrinkKeepsIds(f: Frame)
    requires Rotatable(f)
    ensures FrameIds(Shrink(f)[0]) + FrameIds(Shrink(f)[|Shrink(f)| - 1]) == FrameIds(f)
  {
    var y := f.sib;
    if f.left && f.bal < 0 {
      UnfoldIds(y);
      if y.bal > 0 {
        UnfoldIds(y.l);
        UnfoldIds(Shrink(f)[0].sib);
      }
    } else if !f.left && f.bal > 0 {
      UnfoldIds(y);
      if y.bal < 0 {
        UnfoldIds(y.r);
        UnfoldIds(Shrink(f)[0].sib);
      }
    }
  }

  ghost predicate SameKeys(s: seq<Frame>, f: Frame)
    requires 1 <= |s| <= 2
  {
    if |s| == 2
    then PreKeys(s[0]) + PreKeys(s[1]) == PreKeys(f) && PostKeys(s[1]) + PostKeys(s[0]) == PostKeys(f)
    else PreKeys(s[0]) == PreKeys(f) && PostKeys(s[0]) == PostKeys(f)
  }

  lemma ShrinkKeepsKeys(f: Frame)
    requires Rotatable(f)
    ensures SameKeys(Shrink(f), f)
  {
    if f.left { ShrinkKeepsKeysLeft(f); } else { ShrinkKeepsKeysRight(f); }
  }

  lemma ShrinkKeepsKeysLeft(f: Frame)
    requires Rotatable(f) && f.left
    ensures SameKeys(Shrink(f), f)
  {
    hide KeySeq;
    var y := f.sib;
    if f.bal < 0 {
      UnfoldKeys(y);
      if y.bal > 0 {
        var z := y.l;
        UnfoldKeys(z);
        UnfoldKeys(Shrink(f)[0].sib);
        DoubleKeys([], f.key, KeySeq(z.l), z.key, KeySeq(z.r), y.key, KeySeq(y.r));
        assert [f.key] + KeySeq(f.sib) == [] + [f.key] + KeySeq(f.sib);
      } else {
        SingleKeys([f.key], KeySeq(y.l), y.key, KeySeq(y.r));
      }
    }
  }

  lemma ShrinkKeepsKeysRight(f: Frame)
    requires Rotatable(f) && !f.left
    ensures SameKeys(Shrink(f), f)
  {
    hide KeySeq;
    var y := f.sib;
    if f.bal > 0 {
      UnfoldKeys(y);
      if y.bal < 0 {
        var z := y.r;
        UnfoldKeys(z);
        UnfoldKeys(Shrink(f)[0].sib);
        DoubleKeys(KeySeq(y.l), y.key, KeySeq(z.l), z.key, KeySeq(z.r), f.key, []);
        assert KeySeq(f.sib) + [f.key] == KeySeq(f.sib) + [f.key] + [];
      } else {
        SingleKeys(KeySeq(y.l), [y.key], f.key, KeySeq(y.r));
      }
    }
  }

  lemma UnfoldKeys(x: Tree)
    requires x.Node?
    ensures KeySeq(x) == KeySeq(x.l) + [x.key] + KeySeq(x.r)
  {
  }

  lemma SingleKeys(a: seq<int>, b: seq<int>, q: int, c: seq<int>)
    ensures (a + b) + ([q] + c) == a + (b + [q] + c)
    ensures (a + b) + (c + [q]) == (a + b + c) + [q]
  {
  }

  predicate AllRotatable(ctx: seq<Frame>) {
    forall i :: 0 <= i < |ctx| ==> Rotatable(ctx[i])
  }

  /** The whole replay: every recorded step is repaired on its own. */
  function ShrinkAll(ctx: seq<Frame>): seq<Frame>
    requires AllRotatable(ctx)
  {
    if |ctx| == 0 then [] else ShrinkAll(ctx[..|ctx| - 1]) + Shrink(ctx[|ctx| - 1])
  }

  lemma {:induction false} ShrinkAllKeeps(ctx: seq<Frame>)
    requires AllRotatable(ctx)
    ensures Pre(ShrinkAll(ctx)) == Pre(ctx) && Post(ShrinkAll(ctx)) == Post(ctx)
    ensures Foot(ShrinkAll(ctx)) == Foot(ctx)
  {
    if |ctx| > 0 {
      var a, f := ctx[..|ctx| - 1], ctx[|ctx| - 1];
      assert ctx == a + [f];
      ShrinkAllKeeps(a);
      ShrinkKeeps(f);
      PrePostAppend(ShrinkAll(a), Shrink(f));
      PrePostAppend(a, [f]);
      FootAppend(ShrinkAll(a), Shrink(f));
      FootAppend(a, [f]);
    }
  }

  /** A path none of whose nodes absorbs the loss passes it all the way up. */
  lemma {:induction false} ShrinkPasses(ctx: seq<Frame>, t: Tree, u: Tree)
    requires Balanced(Plug(ctx, t)) && Balanced(u) && Height(u) + 1 == Height(t)
    requires forall i :: 0 <= i < |ctx| ==> !Absorbs(ctx[i])
    ensures AllRotatable(ctx)
    ensures Balanced(Plug(ShrinkAll(ctx), u))
    ensures Height(Plug(ShrinkAll(ctx), u)) + 1 == Height(Plug(ctx, t))
  {
    if |ctx| > 0 {
      var a, f := ctx[..|ctx| - 1], ctx[|ctx| - 1];
      assert ctx == a + [f];
      PlugAppend(a, [f], t);
      assert Plug([f], t) == Fill(f, t);
      PlugBalanced(a, Fill(f, t));
      ShrinkFrame(f, t, u);
      ShrinkPasses(a, Fill(f, t), Plug(Shrink(f), u));
      PlugAppend(ShrinkAll(a), Shrink(f), u);
    }
  }

  lemma {:induction false} ShrinkAllCons(f: Frame, rest: seq<Frame>)
    requires Rotatable(f) && AllRotatable(rest)
    ensures AllRotatable([f] + rest)
    ensures ShrinkAll([f] + rest) == Shrink(f) + ShrinkAll(rest)
    decreases |rest|
  {
    hide Shrink, Rotatable, ShrinkAll;
    if |rest| == 0 {
      assert [f] + rest == [] + [f] && rest == [];
      ShrinkAllSnoc([], f);
      ShrinkNone();
    } else {
      var r, g := rest[..|rest| - 1], rest[|rest| - 1];
      assert rest == r + [g];
      ShrinkAllSnoc(r, g);
      ShrinkAllCons(f, r);
      ShrinkAllSnoc([f] + r, g);
      assert [f] + rest == ([f] + r) + [g];
      assert (Shrink(f) + ShrinkAll(r)) + Shrink(g) == Shrink(f) + (ShrinkAll(r) + Shrink(g));
    }
  }

  lemma ShrinkNone()
    ensures ShrinkAll([]) == []
  {
  }

  lemma ShrinkAllSnoc(a: seq<Frame>, f: Frame)
    requires AllRotatable(a) && Rotatable(f)
    ensures AllRotatable(a + [f])
    ensures ShrinkAll(a + [f]) == ShrinkAll(a) + Shrink(f)
  {
    assert (a + [f])[..|a|] == a;
  }

  /** Where tdelete() starts its replay: at the top of the tree, or at the last node
      that absorbed. Below it no node absorbs. */
  predicate DeleteStart(ctx: seq<Frame>, s: nat) {
    && s <= |ctx|
    && (s == 0 || (s < |ctx| && Absorbs(ctx[s])))
    && forall i :: s < i < |ctx| ==> !Absorbs(ctx[i])
  }

  /** The replayed part on its own: repaired, and of unchanged height if its first node
      absorbs. */
  lemma ReplayPart(low: seq<Frame>, t: Tree, u: Tree)
    requires |low| > 0 && (forall i :: 0 < i < |low| ==> !Absorbs(low[i]))
    requires Balanced(Plug(low, t)) && Balanced(u) && Height(u) + 1 == Height(t)
    ensures AllRotatable(low)
    ensures Balanced(Plug(ShrinkAll(low), u))
    ensures Absorbs(low[0]) ==> Height(Plug(ShrinkAll(low), u)) == Height(Plug(low, t))
  {
    var f, rest := low[0], low[1..];
    assert low == [f] + rest;
    ShrinkPasses(rest, t, u);
    ShrinkFrame(f, Plug(rest, t), Plug(ShrinkAll(rest), u));
    ShrinkAllCons(f, rest);
    PlugAppend(Shrink(f), ShrinkAll(rest), u);
  }

  /** Replaying only below the remembered link leaves the whole tree an AVL tree. */
  lemma DeleteRestores(ctx: seq<Frame>, s: nat, t: Tree, u: Tree)
    requires DeleteStart(ctx, s)
    requires Balanced(Plug(ctx, t)) && Balanced(u) && Height(u) + 1 == Height(t)
    ensures AllRotatable(ctx[s..])
    ensures Balanced(Plug(ctx[..s] + ShrinkAll(ctx[s..]), u))
  {
    hide Plug, Balanced, Height, Rotatable, Shrink, Absorbs;
    var top, low := ctx[..s], ctx[s..];
    assert ctx == top + low;
    PlugAppend(top, low, t);
    PlugBalanced(top, Plug(low, t));
    if |low| > 0 {
      ReplayPart(low, t, u);
      PlugAppend(top, ShrinkAll(low), u);
      DeleteTop(top, Plug(low, t), Plug(ShrinkAll(low), u));
    } else {
      PlugNone(u);
      assert top + ShrinkAll(low) == [];
    }
  }

  lemma PlugNone(t: Tree)
    ensures Plug([], t) == t
  {
  }

  lemma DeleteTop(top: seq<Frame>, t: Tree, u: Tree)
    requires Balanced(Plug(top, t)) && Balanced(u)
    requires |top| == 0 || Height(u) == Height(t)
    ensures Balanced(Plug(top, u))
  {
    if |top| > 0 { PlugSameHeight(top, t, u); }
  }

  // ----- insertion -----

  /** tsearch()'s balance pass: one level gained on the side taken. */
  function Grow(f: Frame): Frame {
    f.(bal := if f.left then f.bal + 1 else f.bal - 1)
  }

  function GrowAll(ctx: seq<Frame>): (r: seq<Frame>)
    ensures |r| == |ctx|
    ensures forall i :: 0 <= i < |r| ==> r[i] == Grow(ctx[i])
  {
    if |ctx| == 0 then [] else [Grow(ctx[0])] + GrowAll(ctx[1..])
  }

  lemma {:induction false} GrowAllKeeps(ctx: seq<Frame>)
    ensures Pre(GrowAll(ctx)) == Pre(ctx) && Post(GrowAll(ctx)) == Post(ctx)
    ensures Foot(GrowAll(ctx)) == Foot(ctx)
  {
    if |ctx| > 0 {
      assert GrowAll(ctx)[1..] == GrowAll(ctx[1..]);
      GrowAllKeeps(ctx[1..]);
    }
  }

  /** The nodes a rotation of this tree dereferences exist. */
  predicate Turnable(x: Tree) {
    && x.Node?
    && (x.bal > 1 ==> x.l.Node? && (x.l.bal < 0 ==> x.l.r.Node?))
    && (x.bal < -1 ==> x.r.Node? && (x.r.bal > 0 ==> x.r.l.Node?))
  }

  /** tsearch()'s final rotation at the remembered root. */
  function Turn(x: Tree): Tree
    requires Turnable(x)
  {
    if x.bal > 1 then
      if x.l.bal < 0 then RotLR(x) else RotLL(x, 0, 0)
    else if x.bal < -1 then
      if x.r.bal > 0 then RotRL(x) else RotRR(x, 0, 0)
    else x
  }

  lemma TurnKeeps(x: Tree)
    requires Turnable(x)
    ensures KeySeq(Turn(x)) == KeySeq(x) && Ids(Turn(x)) == Ids(x)
    ensures Distinct(x) ==> Distinct(Turn(x))
  {
    hide Ids, Distinct, KeySeq, RotLR, RotLL, RotRL, RotRR;
    if x.bal > 1 {
      if x.l.bal < 0 { RotLRKeeps(x); } else { RotLLKeeps(x, 0, 0); }
    } else if x.bal < -1 {
      if x.r.bal > 0 { RotRLKeeps(x); } else { RotRRKeeps(x, 0, 0); }
    }
  }

  lemma DoubleKeys(a: seq<int>, p: int, b: seq<int>, q: int, c: seq<int>, r: int, d: seq<int>)
    ensures (a + [p] + b) + [q] + (c + [r] + d) == (a + [p] + (b + [q] + c)) + [r] + d
    ensures (a + [p] + b) + [q] + (c + [r] + d) == a + [p] + ((b + [q] + c) + [r] + d)
  {
  }

  /** A path of evenly balanced nodes grows by one level, and leans where it grew. */
  lemma {:induction false} GrowLower(ctx: seq<Frame>, n: TNode, k: int)
    requires Balanced(Plug(ctx, Leaf))
    requires forall i :: 0 <= i < |ctx| ==> ctx[i].bal == 0
    ensures var t := Plug(GrowAll(ctx), Node(n, k, 0, Leaf, Leaf));
      && Balanced(t) && t.Node?
      && Height(t) == Height(Plug(ctx, Leaf)) + 1
      && (t.bal == 0 ==> Height(t) == 1)
  {
    if |ctx| > 0 {
      assert forall i :: 0 <= i < |ctx[1..]| ==> ctx[1..][i] == ctx[i + 1];
      GrowLower(ctx[1..], n, k);
      assert GrowAll(ctx)[1..] == GrowAll(ctx[1..]);
    }
  }

  /** Where tsearch() starts its balance pass: at the top, or at the last node that was
      not evenly balanced. Below it every node is evenly balanced. */
  predicate InsertStart(ctx: seq<Frame>, s: nat) {
    && s <= |ctx|
    && (s == 0 || (s < |ctx| && ctx[s].bal != 0))
    && forall i :: s < i < |ctx| ==> ctx[i].bal == 0
  }

  /** At a node leaning to one side: the growth of a child is absorbed by at most one
      single or double rotation; at an evenly balanced one it is not, and no rotation
      happens. */
  lemma GrowFrame(f: Frame, t: Tree, u: Tree)
    requires Balanced(Fill(f, t)) && Balanced(u) && u.Node?
    requires Height(u) == Height(t) + 1 && (u.bal == 0 ==> Height(u) == 1)
    ensures Turnable(Fill(Grow(f), u)) && Balanced(Turn(Fill(Grow(f), u)))
    ensures Height(Turn(Fill(Grow(f), u))) == Height(Fill(f, t)) + (if f.bal == 0 then 1 else 0)
  {
    if f.left { GrowLeft(f, t, u); } else { GrowRight(f, t, u); }
  }

  lemma GrowLeft(f: Frame, t: Tree, u: Tree)
    requires f.left
    requires Balanced(Fill(f, t)) && Balanced(u) && u.Node?
    requires Height(u) == Height(t) + 1 && (u.bal == 0 ==> Height(u) == 1)
    ensures Turnable(Fill(Grow(f), u)) && Balanced(Turn(Fill(Grow(f), u)))
    ensures Height(Turn(Fill(Grow(f), u))) == Height(Fill(f, t)) + (if f.bal == 0 then 1 else 0)
  {
    hide Balanced, Height;
    UnfoldShape(Fill(f, t));
    UnfoldShape(u);
    if f.bal + 1 <= 1 {
      Join(f.id, f.key, f.bal + 1, u, f.sib);
    } else if u.bal < 0 {
      var z := u.r;
      Taller(z);
      UnfoldShape(z);
      var xb, yb := if z.bal > 0 then -1 else 0, if z.bal < 0 then 1 else 0;
      Join(u.id, u.key, yb, u.l, z.l);
      Join(f.id, f.key, xb, z.r, f.sib);
      Join(z.id, z.key, 0, Node(u.id, u.key, yb, u.l, z.l), Node(f.id, f.key, xb, z.r, f.sib));
    } else {
      Join(f.id, f.key, 0, u.r, f.sib);
      Join(u.id, u.key, 0, u.l, Node(f.id, f.key, 0, u.r, f.sib));
    }
  }

  lemma GrowRight(f: Frame, t: Tree, u: Tree)
    requires !f.left
    requires Balanced(Fill(f, t)) && Balanced(u) && u.Node?
    requires Height(u) == Height(t) + 1 && (u.bal == 0 ==> Height(u) == 1)
    ensures Turnable(Fill(Grow(f), u)) && Balanced(Turn(Fill(Grow(f), u)))
    ensures Height(Turn(Fill(Grow(f), u))) == Height(Fill(f, t)) + (if f.bal == 0 then 1 else 0)
  {
    hide Balanced, Height;
    UnfoldShape(Fill(f, t));
    UnfoldShape(u);
    if f.bal - 1 >= -1 {
      Join(f.id, f.key, f.bal - 1, f.sib, u);
    } else if u.bal > 0 {
      var z := u.l;
      Taller(z);
      UnfoldShape(z);
      var xb, yb := if z.bal < 0 then 1 else 0, if z.bal > 0 then -1 else 0;
      Join(u.id, u.key, yb, z.r, u.r);
      Join(f.id, f.key, xb, f.sib, z.l);
      Join(z.id, z.key, 0, Node(f.id, f.key, xb, f.sib, z.l), Node(u.id, u.key, yb, z.r, u.r));
    } else {
      Join(f.id, f.key, 0, f.sib, u.l);
      Join(u.id, u.key, 0, Node(f.id, f.key, 0, f.sib, u.l), u.r);
    }
  }

  /** The subtree tsearch() leaves at the remembered link. */
  ghost function Inserted(low: seq<Frame>, n: TNode, k: int): Tree
    requires Turnable(Plug(GrowAll(low), Node(n, k, 0, Leaf, Leaf)))
  {
    Turn(Plug(GrowAll(low), Node(n, k, 0, Leaf, Leaf)))
  }

  lemma InsertRestores(ctx: seq<Frame>, s: nat, n: TNode, k: int)
    requires InsertStart(ctx, s) && Balanced(Plug(ctx, Leaf))
    ensures Turnable(Plug(GrowAll(ctx[s..]), Node(n, k, 0, Leaf, Leaf)))
    ensures Balanced(Plug(ctx[..s], Inserted(ctx[s..], n, k)))
  {
    var top, low := ctx[..s], ctx[s..];
    var new_ := Node(n, k, 0, Leaf, Leaf);
    assert ctx == top + low;
    PlugAppend(top, low, Leaf);
    PlugBalanced(top, Plug(low, Leaf));
    if |low| > 0 {
      var rest := low[1..];
      assert forall i :: 0 <= i < |rest| ==> rest[i] == ctx[s + 1 + i];
      assert Plug(low, Leaf) == Fill(low[0], Plug(rest, Leaf));
      PlugBalanced([low[0]], Plug(rest, Leaf));
      GrowLower(rest, n, k);
      assert GrowAll(low)[1..] == GrowAll(rest);
      GrowFrame(low[0], Plug(rest, Leaf), Plug(GrowAll(rest), new_));
      DeleteTop(top, Plug(low, Leaf), Inserted(low, n, k));
    } else {
      assert GrowAll(low) == [];
      assert top == [];
    }
  }
}
