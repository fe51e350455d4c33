/** tsearch(), tfind() and tdelete() on heap nodes. */
module SearchTrees {
  import opened Arithmetic
  import opened AvlShape
  import opened AvlRebalance
  import opened AvlMemory
  import opened PathRecorder

  function Dirs(ctx: seq<Frame>): (d: seq<bool>)
    ensures |d| == |ctx|
  {
    seq(|ctx|, i requires 0 <= i < |ctx| => ctx[i].left)
  }

  function Range(s: seq<int>): set<int> { set k | k in s }

  /** Everything before the path is smaller than `k`, everything after it larger. */
  predicate Between(ctx: seq<Frame>, k: int) {
    Below(Pre(ctx), k) && Above(Post(ctx), k)
  }

  predicate Below(s: seq<int>, k: int) { forall i :: 0 <= i < |s| ==> s[i] < k }

  predicate Above(s: seq<int>, k: int) { forall i :: 0 <= i < |s| ==> k < s[i] }

  function LeftFrame(t: Tree): Frame requires t.Node? { Frame(true, t.id, t.key, t.bal, t.r) }

  function RightFrame(t: Tree): Frame requires t.Node? { Frame(false, t.id, t.key, t.bal, t.l) }

  /** Moving the end of a path one link down describes the same tree. */
  lemma StepDown(ctx: seq<Frame>, t: Tree)
    requires t.Node?
    ensures Plug(ctx + [LeftFrame(t)], t.l) == Plug(ctx, t)
    ensures Plug(ctx + [RightFrame(t)], t.r) == Plug(ctx, t)
  {
    PlugAppend(ctx, [LeftFrame(t)], t.l);
    PlugAppend(ctx, [RightFrame(t)], t.r);
    PlugOne(LeftFrame(t), t.l);
    PlugOne(RightFrame(t), t.r);
  }

  /** A part of a sorted sequence is sorted. */
  lemma SortedPart(a: seq<int>, b: seq<int>, c: seq<int>)
    requires Sorted(a + b + c)
    ensures Sorted(b)
  {
    var w := a + b + c;
    forall i, j | 0 <= i < j < |b| ensures b[i] < b[j] {
      assert w[|a| + i] == b[i] && w[|a| + j] == b[j];
    }
  }

  lemma KeysAround(t: Tree)
    requires t.Node? && Sorted(KeySeq(t))
    ensures Below(KeySeq(t.l), t.key) && Above(KeySeq(t.r), t.key)
  {
    var w, b, c := KeySeq(t), KeySeq(t.l), KeySeq(t.r);
    assert w[|b|] == t.key;
    forall i | 0 <= i < |c| ensures t.key < c[i] { assert w[|b| + 1 + i] == c[i]; }
    forall i | 0 <= i < |b| ensures b[i] < t.key { assert w[i] == b[i]; }
  }

  /** Comparing with the key at the end of the path keeps the search confined. */
  lemma StepBetween(ctx: seq<Frame>, t: Tree, k: int)
    requires t.Node? && Sorted(KeySeq(Plug(ctx, t))) && Between(ctx, k)
    ensures k < t.key ==> Between(ctx + [LeftFrame(t)], k)
    ensures t.key < k ==> Between(ctx + [RightFrame(t)], k)
  {
    LocalSorted(ctx, t);
    KeysAround(t);
    FrameKeys(ctx, t);
    AroundAppend(Pre(ctx), KeySeq(t.l), t.key, KeySeq(t.r), Post(ctx), k);
  }

  lemma LocalSorted(ctx: seq<Frame>, t: Tree)
    requires Sorted(KeySeq(Plug(ctx, t)))
    ensures Sorted(KeySeq(t))
  {
    PlugKeys(ctx, t);
    SortedPart(Pre(ctx), KeySeq(t), Post(ctx));
  }

  lemma AroundAppend(a: seq<int>, b: seq<int>, x: int, c: seq<int>, d: seq<int>, k: int)
    requires Below(a, k) && Below(b, x) && Above(c, x) && Above(d, k)
    ensures k < x ==> Above([x] + c + d, k)
    ensures x < k ==> Below(a + (b + [x]), k)
  {
  }

  lemma FrameKeys(ctx: seq<Frame>, t: Tree)
    requires t.Node?
    ensures Pre(ctx + [LeftFrame(t)]) == Pre(ctx)
    ensures Post(ctx + [LeftFrame(t)]) == [t.key] + KeySeq(t.r) + Post(ctx)
    ensures Pre(ctx + [RightFrame(t)]) == Pre(ctx) + (KeySeq(t.l) + [t.key])
    ensures Post(ctx + [RightFrame(t)]) == Post(ctx)
  {
    PlugOne(LeftFrame(t), Leaf);
    PrePostAppend(ctx, [LeftFrame(t)]);
    PlugOne(RightFrame(t), Leaf);
    PrePostAppend(ctx, [RightFrame(t)]);
  }

  /** An empty link with the key between its neighbours: the key is absent. */
  lemma AbsentAt(ctx: seq<Frame>, k: int)
    requires Between(ctx, k)
    ensures k !in KeySeq(Plug(ctx, Leaf))
  {
    PlugKeys(ctx, Leaf);
    assert KeySeq(Plug(ctx, Leaf)) == Pre(ctx) + Post(ctx);
  }

  /** tdelete()'s return value: nothing found, a non-pointer for the root, or the parent of
      the node that held the key. */
  datatype Deleted = Missing | WasRoot | Under(parent: TNode)

  function ParentOf(ctx: seq<Frame>): Deleted {
    if |ctx| == 0 then WasRoot else Under(ctx[|ctx| - 1].id)
  }

  class SearchTree {
    var root: TNode?
    ghost var mem: Mem
    ghost var tree: Tree

    /** The ghost cells are what the nodes hold. */
    ghost predicate InSync()
      reads this`mem, mem.Keys
    {
      forall n :: n in mem ==> n.key == mem[n].key && n.balance == mem[n].bal
                               && n.llink == mem[n].l && n.rlink == mem[n].r
    }

    /** The heap holds the tree whose path `ctx` ends in `t`, and nothing else. */
    ghost predicate Holds(ctx: seq<Frame>, t: Tree)
      reads this`root, this`mem, mem.Keys
    {
      && InSync()
      && RepCtx(mem, ctx, Ref(t)) && Rep(mem, t)
      && Apart(ctx, Ids(t)) && Distinct(t)
      && root == Head(ctx, Ref(t))
      && mem.Keys == Foot(ctx) + Ids(t)
    }

    ghost predicate Valid()
      reads this, mem.Keys
    {
      && InSync() && root == Ref(tree) && Rep(mem, tree) && Distinct(tree) && mem.Keys == Ids(tree)
      && Balanced(tree) && Sorted(KeySeq(tree))
    }

    /** The set of keys the tree stands for. */
    ghost function Contents(): set<int>
      reads this
    {
      Range(KeySeq(tree))
    }

    lemma Focus(ctx: seq<Frame>, t: Tree)
      requires Plug(ctx, t) == tree
      ensures Holds(ctx, t) <==>
        InSync() && root == Ref(tree) && Rep(mem, tree) && Distinct(tree) && mem.Keys == Ids(tree)
    {
      RepPlug(mem, ctx, t);
      ApartPlug(ctx, t);
      PlugIds(ctx, t);
    }

    function Load(link: Link): TNode?
      reads this, if link.RootLink? then {} else {link.n}
    {
      match link
      case RootLink => root
      case LeftOf(n) => n.llink
      case RightOf(n) => n.rlink
    }

    /** The link at the end of a path holds the root of what hangs there. */
    lemma LoadEnd(ctx: seq<Frame>, t: Tree)
      requires Holds(ctx, t)
      ensures LinkOf(ctx) != RootLink ==> LinkOf(ctx).n in mem
      ensures Load(LinkOf(ctx)) == Ref(t)
    {
      if |ctx| > 0 {
        var a, f := ctx[..|ctx| - 1], ctx[|ctx| - 1];
        assert ctx == a + [f];
        RepAppend(mem, a, [f], Ref(t));
        RepOne(mem, f, Ref(t));
      }
    }

    /** `*link = v` */
    method Store(link: Link, v: TNode?)
      requires InSync() && (link != RootLink ==> link.n in mem)
      modifies this, mem.Keys
      ensures InSync() && mem == Stored(old(mem), link, v) && tree == old(tree)
      ensures root == if link == RootLink then v else old(root)
    {
      match link {
        case RootLink => root := v;
        case LeftOf(n) =>
          n.llink := v;
          mem := mem[n := mem[n].(l := v)];
        case RightOf(n) =>
          n.rlink := v;
          mem := mem[n := mem[n].(r := v)];
      }
    }

    constructor ()
      ensures Valid() && Contents() == {}
    {
      root := null;
      mem, tree := map[], Leaf;
    }

    lemma AtRoot(k: int)
      requires Valid()
      ensures Plug([], tree) == tree && Between([], k) && Load(RootLink) == Ref(tree)
      ensures LinkOf([]) == RootLink && InsertStart([], 0) && DeleteStart([], 0) && Dirs([]) == []
    {
    }

    /** What the code reads at a node at the end of a path, and where its links lead. */
    lemma Visit(ctx: seq<Frame>, t: Tree, k: int)
      requires Valid() && Plug(ctx, t) == tree && t.Node? && Between(ctx, k)
      ensures t.id in mem && t.id.key == t.key && t.id.balance == t.bal && t.key in KeySeq(tree)
      ensures Plug(ctx + [LeftFrame(t)], t.l) == tree && Plug(ctx + [RightFrame(t)], t.r) == tree
      ensures k < t.key ==> Between(ctx + [LeftFrame(t)], k)
      ensures t.key < k ==> Between(ctx + [RightFrame(t)], k)
      ensures t.id.llink == Ref(t.l) && t.id.rlink == Ref(t.r) && Height(t) >= 1
    {
      hide Plug, KeySeq, RepCtx, Apart, Foot, Ids, Distinct, Balanced, Between, Sorted;
      KeyHere(ctx, t);
      StepDown(ctx, t);
      StepBetween(ctx, t, k);
      Focus(ctx, t);
    }

    /** tfind() */
    method Find(k: int) returns (r: TNode?)
      requires Valid()
      ensures r == null <==> k !in Contents()
      ensures r != null ==> r in mem && r.key == k
    {
      hide Plug, Pre, Post, KeySeq, Rep, RepCtx, Apart, Foot, Ids, Distinct, Balanced, Height, Between, Sorted;
      var link := RootLink;
      ghost var ctx, t := [], tree;
      AtRoot(k);
      while Load(link) != null
        invariant Plug(ctx, t) == tree && Between(ctx, k)
        invariant (link != RootLink ==> link.n in mem) && Load(link) == Ref(t)
        decreases t
      {
        var n := Load(link);
        Visit(ctx, t, k);
        if k == n.key { return n; }
        if k < n.key {
          link, ctx, t := LeftOf(n), ctx + [LeftFrame(t)], t.l;
        } else {
          link, ctx, t := RightOf(n), ctx + [RightFrame(t)], t.r;
        }
      }
      AbsentAt(ctx, k);
      r := null;
    }

    lemma KeyHere(ctx: seq<Frame>, t: Tree)
      requires t.Node? && Plug(ctx, t) == tree
      ensures t.key in KeySeq(tree)
    {
      PlugKeys(ctx, t);
      assert KeySeq(t)[|KeySeq(t.l)|] == t.key;
    }

    // ----- tsearch() -----

    /** First pass of tsearch(): down to the key or to the empty link it belongs in,
        remembering the last link whose node was not evenly balanced. */
    method FindSlot(k: int, path: Path)
      returns (rootp: Link, leaf: Link, hit: TNode?, ghost ctx: seq<Frame>, ghost s: nat, ghost t: Tree)
      requires Valid() && |mem| < TWO_64 && path.Recording() && path.Pending() == []
      modifies path, path.steps
      ensures Plug(ctx, t) == tree && Between(ctx, k) && s <= |ctx|
      ensures leaf == LinkOf(ctx) && rootp == LinkOf(ctx[..s])
      ensures hit != null ==> t.Node? && hit == t.id && t.key == k
      ensures hit == null ==> t == Leaf && InsertStart(ctx, s)
      ensures hit == null ==> path.Valid() && path.Pending() == Dirs(ctx[s..])
      ensures path.steps == old(path.steps)
    {
      hide Plug, Pre, Post, KeySeq, Rep, RepCtx, Apart, Foot, Ids, Distinct, Balanced, Height, Between, Sorted;
      hide InsertStart, LinkOf, Dirs;
      rootp, leaf, hit := RootLink, RootLink, null;
      ctx, s, t := [], 0, tree;
      AtRoot(k);
      while Load(leaf) != null
        invariant Valid() && Plug(ctx, t) == tree && Between(ctx, k) && s <= |ctx|
        invariant leaf == LinkOf(ctx) && (leaf != RootLink ==> leaf.n in mem) && Load(leaf) == Ref(t)
        invariant InsertStart(ctx, s) && rootp == LinkOf(ctx[..s])
        invariant path.Recording() && path.Pending() == Dirs(ctx[s..]) && path.steps == old(path.steps)
        decreases t
      {
        var n := Load(leaf);
        Visit(ctx, t, k);
        DepthBound(ctx, t);
        if k == n.key {
          hit := n;
          return;
        }
        InsertStep(ctx, s, if k < n.key then LeftFrame(t) else RightFrame(t));
        Note(path, n.balance != 0, k < n.key);
        if n.balance != 0 {
          rootp, s := leaf, |ctx|;
        }
        if k < n.key {
          leaf, ctx, t := LeftOf(n), ctx + [LeftFrame(t)], t.l;
        } else {
          leaf, ctx, t := RightOf(n), ctx + [RightFrame(t)], t.r;
        }
      }
    }

    // ----- rotations -----

    /** The path may be cut anywhere. */
    lemma Refocus(a: seq<Frame>, b: seq<Frame>, t: Tree)
      ensures Holds(a + b, t) <==> Holds(a, Plug(b, t))
    {
      hide Ids, Foot, Rep, RepCtx, Apart, Distinct, Plug;
      RepAppend(mem, a, b, Ref(t));
      RepPlug(mem, b, t);
      ApartAppend(a, b, Ids(t));
      ApartPlug(b, t);
      FootAppend(a, b);
      PlugIds(b, t);
    }

    /** The fields of the node a tree starts with. */
    lemma Peek(t: Tree)
      requires InSync() && Rep(mem, t) && t.Node?
      ensures t.id in mem && t.id.key == t.key && t.id.balance == t.bal
      ensures t.id.llink == Ref(t.l) && t.id.rlink == Ref(t.r)
      ensures Rep(mem, t.l) && Rep(mem, t.r)
    {
    }

    method SetLeft(n: TNode, v: TNode?)
      requires InSync() && n in mem
      modifies this`mem, n
      ensures InSync() && mem == SetL(old(mem), n, v)
    {
      n.llink := v;
      mem := SetL(mem, n, v);
    }

    method SetRight(n: TNode, v: TNode?)
      requires InSync() && n in mem
      modifies this`mem, n
      ensures InSync() && mem == SetR(old(mem), n, v)
    {
      n.rlink := v;
      mem := SetR(mem, n, v);
    }

    method SetBalance(n: TNode, b: int)
      requires InSync() && n in mem
      modifies this`mem, n
      ensures InSync() && mem == SetB(old(mem), n, b)
    {
      n.balance := b;
      mem := SetB(mem, n, b);
    }

    method MoveRL(x: TNode, y: TNode, z: TNode)
      requires InSync() && x in mem && y in mem && z in mem && x != y && y != z && x != z
      modifies this`mem, x, y, z
      ensures InSync() && mem == old(WriteRL(mem, x, y, z, z.llink, z.rlink, z.balance))
    {
      SetRight(x, z.llink);
      SetLeft(z, x);
      SetLeft(y, z.rlink);
      SetRight(z, y);
      SetBalance(x, if z.balance < 0 then 1 else 0);
      SetBalance(y, if z.balance > 0 then -1 else 0);
      SetBalance(z, 0);
    }

    method TurnRL(link: Link, ghost top: seq<Frame>, ghost x: Tree)
      requires Holds(top, x) && link == LinkOf(top) && x.Node? && x.r.Node? && x.r.l.Node?
      modifies this, mem.Keys
      ensures Holds(top, RotRL(x)) && tree == old(tree) && mem.Keys == old(mem.Keys) && KeysKept(old(mem), mem)
    {
      hide Ids, Foot, Apart, Distinct, RepCtx, Rep, WriteRL;
      ghost var m := mem;
      LoadEnd(top, x);
      Peek(x); Peek(x.r); Peek(x.r.l);
      UnfoldIds(x); UnfoldIds(x.r); UnfoldIds(x.r.l);
      WriteRLRewrites(m, x);
      RotRLKeeps(x);
      var xn := Load(link);
      var yn := xn.rlink;
      var zn := yn.llink;
      MoveRL(xn, yn, zn);
      Finish(link, zn, m, top, x, RotRL(x));
    }

    method MoveLR(x: TNode, y: TNode, z: TNode)
      requires InSync() && x in mem && y in mem && z in mem && x != y && y != z && x != z
      modifies this`mem, x, y, z
      ensures InSync() && mem == old(WriteLR(mem, x, y, z, z.llink, z.rlink, z.balance))
    {
      SetRight(y, z.llink);
      SetLeft(z, y);
      SetLeft(x, z.rlink);
      SetRight(z, x);
      SetBalance(x, if z.balance > 0 then -1 else 0);
      SetBalance(y, if z.balance < 0 then 1 else 0);
      SetBalance(z, 0);
    }

    method TurnLR(link: Link, ghost top: seq<Frame>, ghost x: Tree)
      requires Holds(top, x) && link == LinkOf(top) && x.Node? && x.l.Node? && x.l.r.Node?
      modifies this, mem.Keys
      ensures Holds(top, RotLR(x)) && tree == old(tree) && mem.Keys == old(mem.Keys) && KeysKept(old(mem), mem)
    {
      hide Ids, Foot, Apart, Distinct, RepCtx, Rep, WriteLR;
      ghost var m := mem;
      LoadEnd(top, x);
      Peek(x); Peek(x.l); Peek(x.l.r);
      UnfoldIds(x); UnfoldIds(x.l); UnfoldIds(x.l.r);
      WriteLRRewrites(m, x);
      RotLRKeeps(x);
      var xn := Load(link);
      var yn := xn.llink;
      var zn := yn.rlink;
      MoveLR(xn, yn, zn);
      Finish(link, zn, m, top, x, RotLR(x));
    }

    method MoveRR(x: TNode, y: TNode, xb: int, yb: int)
      requires InSync() && x in mem && y in mem && x != y
      modifies this`mem, x, y
      ensures InSync() && mem == old(WriteRR(mem, x, y, y.llink, xb, yb))
    {
      SetRight(x, y.llink);
      SetLeft(y, x);
      SetBalance(x, xb);
      SetBalance(y, yb);
    }

    method TurnRR(link: Link, xb: int, yb: int, ghost top: seq<Frame>, ghost x: Tree)
      requires Holds(top, x) && link == LinkOf(top) && x.Node? && x.r.Node?
      modifies this, mem.Keys
      ensures Holds(top, RotRR(x, xb, yb)) && tree == old(tree) && mem.Keys == old(mem.Keys) && KeysKept(old(mem), mem)
    {
      hide Ids, Foot, Apart, Distinct, RepCtx, Rep, WriteRR;
      ghost var m := mem;
      LoadEnd(top, x);
      Peek(x); Peek(x.r);
      UnfoldIds(x); UnfoldIds(x.r);
      if x.r.r.Node? { Peek(x.r.r); }
      WriteRRRewrites(m, x, xb, yb);
      RotRRKeeps(x, xb, yb);
      var xn := Load(link);
      var yn := xn.rlink;
      MoveRR(xn, yn, xb, yb);
      Finish(link, yn, m, top, x, RotRR(x, xb, yb));
    }

    method MoveLL(x: TNode, y: TNode, xb: int, yb: int)
      requires InSync() && x in mem && y in mem && x != y
      modifies this`mem, x, y
      ensures InSync() && mem == old(WriteLL(mem, x, y, y.rlink, xb, yb))
    {
      SetLeft(x, y.rlink);
      SetRight(y, x);
      SetBalance(x, xb);
      SetBalance(y, yb);
    }

    method TurnLL(link: Link, xb: int, yb: int, ghost top: seq<Frame>, ghost x: Tree)
      requires Holds(top, x) && link == LinkOf(top) && x.Node? && x.l.Node?
      modifies this, mem.Keys
      ensures Holds(top, RotLL(x, xb, yb)) && tree == old(tree) && mem.Keys == old(mem.Keys) && KeysKept(old(mem), mem)
    {
      hide Ids, Foot, Apart, Distinct, RepCtx, Rep, WriteLL;
      ghost var m := mem;
      LoadEnd(top, x);
      Peek(x); Peek(x.l);
      UnfoldIds(x); UnfoldIds(x.l);
      if x.l.l.Node? { Peek(x.l.l); }
      WriteLLRewrites(m, x, xb, yb);
      RotLLKeeps(x, xb, yb);
      var xn := Load(link);
      var yn := xn.llink;
      MoveLL(xn, yn, xb, yb);
      Finish(link, yn, m, top, x, RotLL(x, xb, yb));
    }

    /** Hooks a rearranged subtree back in where it came from. */
    method Finish(link: Link, v: TNode, ghost m: Mem, ghost top: seq<Frame>, ghost x: Tree, ghost t: Tree)
      requires InSync() && link == LinkOf(top) && t.Node? && v == t.id && root == Head(top, Ref(x))
      requires RepCtx(m, top, Ref(x)) && Rep(m, x) && Apart(top, Ids(x)) && m.Keys == Foot(top) + Ids(x)
      requires Ids(t) == Ids(x) && Distinct(t) && Rewritten(m, mem, t)
      requires t.l.Node? ==> Rep(m, t.l.l) && Rep(m, t.l.r)
      requires t.r.Node? ==> Rep(m, t.r.l) && Rep(m, t.r.r)
      modifies this, mem.Keys
      ensures Holds(top, t) && tree == old(tree) && mem.Keys == old(mem.Keys) && KeysKept(old(mem), mem)
    {
      hide Foot, Apart, RepCtx, Rep;
      UnfoldIds(t);
      if t.l.Node? { UnfoldIds(t.l); }
      if t.r.Node? { UnfoldIds(t.r); }
      hide Ids, Distinct;
      RewrittenRep(m, mem, t);
      Rearranged(m, mem, top, x, t);
      Store(link, v);
    }

    // ----- tsearch(), second pass -----

    /** Hangs a fresh node into an empty link. */
    method LinkNew(leaf: Link, node: TNode, ghost ctx: seq<Frame>)
      requires Holds(ctx, Leaf) && leaf == LinkOf(ctx) && node !in mem
      requires node.llink == null && node.rlink == null && node.balance == 0
      modifies this, mem.Keys
      ensures Holds(ctx, Node(node, node.key, 0, Leaf, Leaf)) && tree == old(tree)
      ensures mem.Keys == old(mem.Keys) + {node} && KeysKept(old(mem), mem)
      ensures mem[node].key == node.key == old(node.key)
    {
      hide Foot, Apart, RepCtx, Rep, Ids, Distinct, LinkOf, Stored, KeysKept;
      LoadEnd(ctx, Leaf);
      ghost var m := mem;
      LinkedNew(m, ctx, node, node.key);
      RootIff(ctx);
      Store(leaf, node);
      mem := mem[node := Cell(node.key, 0, null, null)];
    }

    /** The link in the middle of a path holds the next node of the path. */
    lemma LoadMiddle(ctx: seq<Frame>, s: nat, t: Tree)
      requires Holds(ctx, t) && s <= |ctx|
      ensures LinkOf(ctx[..s]) != RootLink ==> LinkOf(ctx[..s]).n in mem
      ensures Load(LinkOf(ctx[..s])) == Head(ctx[s..], Ref(t))
    {
      hide Foot, Apart, RepCtx, Rep, Ids, Distinct, Plug, LinkOf;
      assert ctx[..s] + ctx[s..] == ctx;
      Refocus(ctx[..s], ctx[s..], t);
      RepPlug(mem, ctx[s..], t);
      LoadEnd(ctx[..s], Plug(ctx[s..], t));
    }

    /** No node of a path occurs in the tree below it. */
    lemma OnPath(ctx: seq<Frame>, i: nat, t: Tree)
      requires Holds(ctx, t) && t.Node? && i <= |ctx|
      ensures Head(ctx[i..], t.id) == t.id ==> i == |ctx|
    {
      if i < |ctx| {
        FootHas(ctx, i);
        ApartShrinks(ctx, Ids(t), {});
      }
    }

    /** One round of the balance pass: adjust the node, step on to the next one. */
    method Bump(n: TNode, left: bool, ghost a: seq<Frame>, ghost f: Frame, ghost b: seq<Frame>, ghost t: Tree)
      returns (next: TNode?)
      requires Holds(a + [f] + b, t) && t.Node? && n == f.id && left == f.left
      modifies this, mem.Keys
      ensures Holds(a + [Grow(f)] + b, t) && tree == old(tree) && mem.Keys == old(mem.Keys) && KeysKept(old(mem), mem)
      ensures next == Head(b, t.id) && (next == t.id ==> b == [])
    {
      hide Foot, Apart, RepCtx, Rep, Ids, Distinct, Plug;
      Reframed(mem, a, f, b, t, Grow(f));
      if left {
        SetBalance(n, n.balance + 1);
        next := n.llink;
      } else {
        SetBalance(n, n.balance - 1);
        next := n.rlink;
      }
      assert (a + [Grow(f)] + b)[|a| + 1..] == b;
      OnPath(a + [Grow(f)] + b, |a| + 1, t);
    }

    /** The balance pass of tsearch() along the recorded path. */
    method GrowPath(rootp: Link, leaf: Link, path: Path, ghost ctx: seq<Frame>, ghost s: nat, ghost t: Tree)
      requires Holds(ctx, t) && t.Node? && s <= |ctx|
      requires rootp == LinkOf(ctx[..s]) && leaf == LinkOf(ctx)
      requires path.Valid() && path.Pending() == Dirs(ctx[s..])
      modifies this, mem.Keys, path, path.steps
      ensures Holds(ctx[..s] + GrowAll(ctx[s..]), t) && tree == old(tree) && mem.Keys == old(mem.Keys) && KeysKept(old(mem), mem)
    {
      hide Foot, Apart, RepCtx, Rep, Ids, Distinct, Plug, LinkOf, GrowAll, Holds, InSync, KeysKept;
      ghost var i := s;
      GrownEnds(ctx, s);
      LoadEnd(ctx, t);
      LoadMiddle(ctx, s, t);
      OnPath(ctx, s, t);
      KeptTrans(mem, mem, mem);
      var n := Load(rootp);
      while n != Load(leaf)
        invariant s <= i <= |ctx|
        invariant Holds(Grown(ctx, s, i), t) && tree == old(tree)
        invariant mem.Keys == old(mem.Keys) && KeysKept(old(mem), mem)
        invariant n == Head(ctx[i..], t.id) && (n == t.id ==> i == |ctx|)
        invariant leaf != RootLink ==> leaf.n in mem
        invariant leaf == LinkOf(Grown(ctx, s, i))
        invariant Load(leaf) == t.id
        invariant path.Valid() && path.Pending() == Dirs(ctx[i..]) && path.steps == old(path.steps)
        decreases |ctx| - i
      {
        GrownStep(ctx, s, i);
        var left := path.TookLeft();
        Uncons(left, path.Pending(), ctx[i].left, Dirs(ctx[i + 1..]));
        ghost var m := mem;
        n := Bump(n, left, ctx[..s] + GrowAll(ctx[s..i]), ctx[i], ctx[i + 1..], t);
        i := i + 1;
        KeptTrans(old(mem), m, mem);
        LoadEnd(Grown(ctx, s, i), t);
      }
    }

    /** The rotation at the remembered root, if the balance pass made one necessary. */
    method TurnAt(rootp: Link, ghost top: seq<Frame>, ghost x: Tree)
      requires Holds(top, x) && rootp == LinkOf(top) && Turnable(x)
      modifies this, mem.Keys
      ensures Holds(top, Turn(x)) && tree == old(tree) && mem.Keys == old(mem.Keys) && KeysKept(old(mem), mem)
    {
      hide Foot, Apart, RepCtx, Ids, Distinct, Plug, LinkOf, RotLR, RotLL, RotRL, RotRR;
      LoadEnd(top, x);
      Peek(x);
      var n := Load(rootp);
      if n.balance > 1 {
        Peek(x.l);
        if n.llink.balance < 0 {
          TurnLR(rootp, top, x);
        } else {
          TurnLL(rootp, 0, 0, top, x);
        }
      } else if n.balance < -1 {
        Peek(x.r);
        if n.rlink.balance > 0 {
          TurnRL(rootp, top, x);
        } else {
          TurnRR(rootp, 0, 0, top, x);
        }
      }
    }

    /** tsearch() once the empty link is found. */
    method AddAt(k: int, rootp: Link, leaf: Link, path: Path, ghost ctx: seq<Frame>, ghost s: nat) returns (r: TNode)
      requires Valid() && Plug(ctx, Leaf) == tree && Between(ctx, k) && InsertStart(ctx, s)
      requires s <= |ctx| && leaf == LinkOf(ctx) && rootp == LinkOf(ctx[..s])
      requires path.Valid() && path.Pending() == Dirs(ctx[s..])
      modifies this, mem.Keys, path, path.steps
      ensures Valid() && Contents() == old(Contents()) + {k} && KeysKept(old(mem), mem)
      ensures fresh(r) && mem.Keys == old(mem.Keys) + {r} && r.key == k
    {
      hide Plug, Pre, Post, KeySeq, Rep, RepCtx, Apart, Foot, Ids, Distinct, Balanced, Height, Between, Sorted;
      hide InsertStart, LinkOf, Dirs, Turn, Turnable, GrowAll, Holds;
      Focus(ctx, Leaf);
      InsertKeys(ctx, s, k);
      r := new TNode(k);
      ghost var n := Node(r, k, 0, Leaf, Leaf);
      InsertRestores(ctx, s, r, k);
      InsertedKeys(ctx, s, r, k);
      LinkNew(leaf, r, ctx);
      GrowPath(rootp, leaf, path, ctx, s, n);
      Refocus(ctx[..s], GrowAll(ctx[s..]), n);
      TurnAt(rootp, ctx[..s], Plug(GrowAll(ctx[s..]), n));
      tree := Plug(ctx[..s], Inserted(ctx[s..], r, k));
      Focus(ctx[..s], Inserted(ctx[s..], r, k));
    }

    /** tsearch() */
    method Insert(k: int) returns (r: TNode)
      requires Valid() && |mem| < TWO_64
      modifies this, mem.Keys
      ensures Valid() && Contents() == old(Contents()) + {k}
      ensures r in mem && r.key == k
      ensures k in old(Contents()) ==> r in old(mem) && unchanged(this) && unchanged(old(mem.Keys))
      ensures k !in old(Contents()) ==> fresh(r) && mem.Keys == old(mem.Keys) + {r} && |mem| == |old(mem)| + 1
      ensures forall n :: n in old(mem) ==> n.key == old(n.key)
    {
      hide Plug, Pre, Post, KeySeq, Rep, RepCtx, Apart, Foot, Ids, Distinct, Balanced, Height, Between, Sorted;
      hide InsertStart, LinkOf, Dirs;
      var path := new Path();
      var rootp, leaf, hit, ctx, s, t := FindSlot(k, path);
      if hit != null {
        Visit(ctx, t, k);
        assert Range(KeySeq(tree)) + {k} == Range(KeySeq(tree));
        return hit;
      }
      AbsentAt(ctx, k);
      r := AddAt(k, rootp, leaf, path, ctx, s);
      assert |mem.Keys| == |old(mem.Keys)| + 1;
    }

    // ----- tdelete() -----

    /** GO_LEFT() and GO_RIGHT(): record the step, forgetting the path above a node that
        absorbs the loss of a level. */
    method Go(left: bool, leaf: Link, rootp: Link, path: Path, ghost ctx: seq<Frame>, ghost s: nat, ghost t: Tree)
      returns (leaf': Link, rootp': Link, ghost s': nat)
      requires Valid() && |mem| < TWO_64 && Plug(ctx, t) == tree && t.Node?
      requires leaf == LinkOf(ctx) && s <= |ctx| && rootp == LinkOf(ctx[..s]) && DeleteStart(ctx, s)
      requires path.Recording() && path.Pending() == Dirs(ctx[s..])
      modifies path, path.steps
      ensures var ctx' := ctx + [SideFrame(t, left)];
        && leaf' == LinkOf(ctx') && s' <= |ctx'| && rootp' == LinkOf(ctx'[..s']) && DeleteStart(ctx', s')
        && path.Recording() && path.Pending() == Dirs(ctx'[s'..])
      ensures path.steps == old(path.steps)
    {
      hide Plug, KeySeq, Rep, RepCtx, Apart, Foot, Ids, Distinct, Height, Sorted;
      hide DeleteStart, LinkOf, Dirs;
      AtNode(ctx, t);
      LoadEnd(ctx, t);
      DeleteStep(ctx, s, SideFrame(t, left));
      var n := Load(leaf);
      var absorbs :=
        if left then n.balance == 0 || (n.balance < 0 && n.rlink.balance == 0)
        else n.balance == 0 || (n.balance > 0 && n.llink.balance == 0);
      Note(path, absorbs, left);
      rootp', s' := if absorbs then leaf else rootp, if absorbs then |ctx| else s;
      leaf' := if left then LeftOf(n) else RightOf(n);
    }

    /** What tdelete() reads at a node on its way down. */
    lemma AtNode(ctx: seq<Frame>, t: Tree)
      requires Valid() && |mem| < TWO_64 && Plug(ctx, t) == tree && t.Node?
      ensures Holds(ctx, t) && |ctx| < 128
      ensures t.id in mem && t.id.key == t.key && t.id.balance == t.bal && -1 <= t.bal <= 1
      ensures t.id.llink == Ref(t.l) && t.id.rlink == Ref(t.r)
      ensures t.bal < 0 ==> t.r.Node? && t.r.id in mem && t.r.id.balance == t.r.bal
      ensures t.bal > 0 ==> t.l.Node? && t.l.id in mem && t.l.id.balance == t.l.bal
    {
      Focus(ctx, t);
      DepthBound(ctx, t);
      PlugBalanced(ctx, t);
      Peek(t);
      Taller(t.l);
      Taller(t.r);
      if t.l.Node? { Peek(t.l); }
      if t.r.Node? { Peek(t.r); }
    }

    /** First pass of tdelete(): down to the node holding the key. */
    method FindVictim(k: int, path: Path)
      returns (rootp: Link, leaf: Link, result: Deleted, ghost ctx: seq<Frame>, ghost s: nat, ghost t: Tree)
      requires Valid() && |mem| < TWO_64 && path.Recording() && path.Pending() == []
      modifies path, path.steps
      ensures Plug(ctx, t) == tree && Between(ctx, k) && path.steps == old(path.steps)
      ensures result == Missing ==> t == Leaf
      ensures result != Missing ==>
        && t.Node? && t.key == k && leaf == LinkOf(ctx) && s <= |ctx| && rootp == LinkOf(ctx[..s])
        && DeleteStart(ctx, s) && path.Recording() && path.Pending() == Dirs(ctx[s..])
        && result == ParentOf(ctx)
    {
      hide Plug, Pre, Post, KeySeq, Rep, RepCtx, Apart, Foot, Ids, Distinct, Balanced, Height, Between, Sorted;
      hide DeleteStart, LinkOf, Dirs;
      rootp, leaf, result := RootLink, RootLink, WasRoot;
      ctx, s, t := [], 0, tree;
      AtRoot(k);
      while true
        invariant Valid() && Plug(ctx, t) == tree && Between(ctx, k) && s <= |ctx|
        invariant leaf == LinkOf(ctx) && (leaf != RootLink ==> leaf.n in mem) && Load(leaf) == Ref(t)
        invariant DeleteStart(ctx, s) && rootp == LinkOf(ctx[..s]) && result == ParentOf(ctx)
        invariant path.Recording() && path.Pending() == Dirs(ctx[s..]) && path.steps == old(path.steps)
        decreases t
      {
        var n := Load(leaf);
        if n == null {
          result := Missing;
          return;
        }
        Visit(ctx, t, k);
        if k == n.key { return; }
        result := Under(n);
        leaf, rootp, s := Go(k < n.key, leaf, rootp, path, ctx, s, t);
        if k < n.key {
          ctx, t := ctx + [LeftFrame(t)], t.l;
        } else {
          ctx, t := ctx + [RightFrame(t)], t.r;
        }
        Focus(ctx, t);
        LoadEnd(ctx, t);
      }
    }

    /** From the node to delete to its in-order predecessor: once left, then right to the end. */
    method GoToPredecessor(leaf0: Link, rootp0: Link, path: Path, ghost ctx0: seq<Frame>, ghost s0: nat, ghost t0: Tree)
      returns (leaf: Link, rootp: Link, ghost ctx: seq<Frame>, ghost s: nat, ghost t: Tree)
      requires Valid() && |mem| < TWO_64 && Plug(ctx0, t0) == tree && t0.Node? && t0.l.Node?
      requires leaf0 == LinkOf(ctx0) && s0 <= |ctx0| && rootp0 == LinkOf(ctx0[..s0]) && DeleteStart(ctx0, s0)
      requires path.Recording() && path.Pending() == Dirs(ctx0[s0..])
      modifies path, path.steps
      ensures Plug(ctx, t) == tree && t.Node? && t.r == Leaf && path.steps == old(path.steps)
      ensures leaf == LinkOf(ctx) && s <= |ctx| && rootp == LinkOf(ctx[..s]) && DeleteStart(ctx, s)
      ensures path.Recording() && path.Pending() == Dirs(ctx[s..])
      ensures ctx0 + [LeftFrame(t0)] <= ctx && Post(ctx) == Post(ctx0 + [LeftFrame(t0)])
    {
      hide Plug, Pre, Post, KeySeq, Rep, RepCtx, Apart, Foot, Ids, Distinct, Balanced, Height, Sorted;
      hide DeleteStart, LinkOf, Dirs;
      StepDown(ctx0, t0);
      leaf, rootp, s := Go(true, leaf0, rootp0, path, ctx0, s0, t0);
      ctx, t := ctx0 + [LeftFrame(t0)], t0.l;
      AtNode(ctx, t);
      LoadEnd(ctx, t);
      while Load(leaf).rlink != null
        invariant Valid() && Plug(ctx, t) == tree && t.Node? && s <= |ctx|
        invariant leaf == LinkOf(ctx) && rootp == LinkOf(ctx[..s]) && DeleteStart(ctx, s)
        invariant (leaf != RootLink ==> leaf.n in mem) && Load(leaf) == t.id && t.id.rlink == Ref(t.r)
        invariant path.Recording() && path.Pending() == Dirs(ctx[s..]) && path.steps == old(path.steps)
        invariant ctx0 + [LeftFrame(t0)] <= ctx && Post(ctx) == Post(ctx0 + [LeftFrame(t0)])
        decreases t
      {
        StepDown(ctx, t);
        FrameKeys(ctx, t);
        leaf, rootp, s := Go(false, leaf, rootp, path, ctx, s, t);
        ctx, t := ctx + [RightFrame(t)], t.r;
        AtNode(ctx, t);
        LoadEnd(ctx, t);
      }
    }

    /** `*leaf = child` and free the node that was there. */
    method Unlink(leaf: Link, child: TNode?, ghost ctx: seq<Frame>, ghost t: Tree, ghost u: Tree)
      requires Holds(ctx, t) && t.Node? && leaf == LinkOf(ctx) && child == Ref(u)
      requires (t.l == Leaf && u == t.r) || (t.r == Leaf && u == t.l)
      modifies this, mem.Keys
      ensures Holds(ctx, u) && tree == old(tree) && mem.Keys == old(mem.Keys) - {t.id}
      ensures KeysKept(mem, old(mem))
    {
      hide Foot, Apart, RepCtx, Rep, Ids, Distinct, LinkOf, KeysKept, Stored;
      Unlinked(mem, ctx, t, u);
      Store(leaf, child);
      mem := mem - {t.id};
    }

    /** `*keyp = key` for a node on the path. */
    method Rekey(n: TNode, key: int, ghost a: seq<Frame>, ghost f: Frame, ghost b: seq<Frame>, ghost t: Tree)
      requires Holds(a + [f] + b, t) && n == f.id
      modifies this`mem, n`key
      ensures Holds(a + [f.(key := key)] + b, t) && tree == old(tree) && mem.Keys == old(mem.Keys)
    {
      hide Foot, Apart, RepCtx, Rep, Ids, Distinct, Plug;
      Reframed(mem, a, f, b, t, f.(key := key));
      n.key := key;
      mem := mem[n := mem[n].(key := key)];
    }

    /** One round of tdelete()'s replay. */
    method Repair(n: Link, left: bool, ghost top: seq<Frame>, ghost f: Frame, ghost u: Tree) returns (next: Link)
      requires Holds(top, Fill(f, u)) && n == LinkOf(top) && Rotatable(f) && left == f.left
      modifies this, mem.Keys
      ensures Holds(top + Shrink(f), u) && tree == old(tree) && mem.Keys == old(mem.Keys)
      ensures next == if left then LeftOf(f.id) else RightOf(f.id)
    {
      hide Plug, Foot, Apart, RepCtx, Ids, Distinct, LinkOf, RotLR, RotLL, RotRL, RotRR, Shrink, KeysKept;
      ghost var x := Fill(f, u);
      LoadEnd(top, x);
      Peek(x);
      ShrinkIsRotation(f, u);
      var xn := Load(n);
      if left {
        if xn.balance < 0 {
          Peek(x.r);
          var yn := xn.rlink;
          if yn.balance > 0 {
            TurnRL(n, top, x);
          } else if yn.balance < 0 {
            TurnRR(n, 0, 0, top, x);
          } else {
            TurnRR(n, -1, 1, top, x);
          }
        } else {
          Lean(xn, xn.balance - 1, top, f, u);
        }
        next := LeftOf(xn);
      } else {
        if xn.balance > 0 {
          Peek(x.l);
          var yn := xn.llink;
          if yn.balance < 0 {
            TurnLR(n, top, x);
          } else if yn.balance > 0 {
            TurnLL(n, 0, 0, top, x);
          } else {
            TurnLL(n, 1, -1, top, x);
          }
        } else {
          Lean(xn, xn.balance + 1, top, f, u);
        }
        next := RightOf(xn);
      }
      Refocus(top, Shrink(f), u);
    }

    method Lean(n: TNode, v: int, ghost top: seq<Frame>, ghost f: Frame, ghost u: Tree)
      requires Holds(top, Fill(f, u)) && n == f.id
      modifies this, mem.Keys
      ensures Holds(top, Fill(f.(bal := v), u)) && tree == old(tree) && mem.Keys == old(mem.Keys)
    {
      ghost var g := f.(bal := v);
      hide Foot, Apart, RepCtx, Rep, Ids, Distinct, Plug;
      PlugOne(f, u);
      PlugOne(g, u);
      Refocus(top, [f], u);
      assert top + [f] + [] == top + [f] && top + [g] + [] == top + [g];
      Reframed(mem, top, f, [], u, g);
      SetBalance(n, v);
      Refocus(top, [g], u);
    }

    /** A link in the middle of a path is not the link at its end. */
    lemma LinksDiffer(ctx: seq<Frame>, t: Tree)
      requires Holds(ctx, t)
      ensures forall i :: 0 <= i < |ctx| ==> LinkOf(ctx[..i]) != LinkOf(ctx)
      ensures ctx[..|ctx|] == ctx
    {
      forall i | 0 <= i < |ctx| ensures LinkOf(ctx[..i]) != LinkOf(ctx) {
        if i > 0 {
          var z := |ctx| - 1;
          assert ctx == ctx[..z] + [ctx[z]];
          ApartAppend(ctx[..z], [ctx[z]], Ids(t));
          ApartShrinks(ctx[..z], Foot([ctx[z]]) + Ids(t), {});
          FootHas(ctx[..z], i - 1);
          FootHas([ctx[z]], 0);
        }
      }
    }

    /** Second pass of tdelete(): walk the recorded path again and repair every node on it. */
    method Replay(rootp: Link, leaf: Link, path: Path, ghost ctx: seq<Frame>, ghost s: nat, ghost t: Tree)
      requires Holds(ctx, t) && s <= |ctx| && AllRotatable(ctx[s..])
      requires rootp == LinkOf(ctx[..s]) && leaf == LinkOf(ctx)
      requires path.Valid() && path.Pending() == Dirs(ctx[s..])
      modifies this, mem.Keys, path, path.steps
      ensures Holds(ctx[..s] + ShrinkAll(ctx[s..]), t) && tree == old(tree) && mem.Keys == old(mem.Keys)
    {
      hide Foot, Apart, RepCtx, Rep, Ids, Distinct, Plug, LinkOf, ShrinkAll, Shrink, Rotatable, Holds, InSync, Dirs;
      ghost var i := s;
      MendedEnds(ctx, s);
      LinksDiffer(ctx, t);
      var n := rootp;
      while n != leaf
        invariant s <= i <= |ctx|
        invariant Holds(Mended(ctx, s, i) + ctx[i..], t) && tree == old(tree) && mem.Keys == old(mem.Keys)
        invariant n == LinkOf(Mended(ctx, s, i)) == LinkOf(ctx[..i])
        invariant path.Valid() && path.Pending() == Dirs(ctx[i..]) && path.steps == old(path.steps)
        decreases |ctx| - i
      {
        MendedStep(ctx, s, i, t);
        var left := path.TookLeft();
        Uncons(left, path.Pending(), ctx[i].left, Dirs(ctx[i + 1..]));
        Refocus(Mended(ctx, s, i), ctx[i..], t);
        n := Repair(n, left, Mended(ctx, s, i), ctx[i], Plug(ctx[i + 1..], t));
        i := i + 1;
        Refocus(Mended(ctx, s, i), ctx[i..], t);
      }
    }

    /** The heap holds `tree` as an AVL tree. */
    ghost predicate Sound()
      reads this, mem.Keys
    {
      InSync() && root == Ref(tree) && Rep(mem, tree) && Distinct(tree) && mem.Keys == Ids(tree) && Balanced(tree)
    }

    /** Unlinks the node at the end of the path and repairs the balances. */
    method CutAt(rootp: Link, leaf: Link, child: TNode?, path: Path,
                 ghost ctx: seq<Frame>, ghost s: nat, ghost t: Tree, ghost u: Tree)
      requires Holds(ctx, t) && t.Node? && Balanced(Plug(ctx, t)) && child == Ref(u)
      requires (t.l == Leaf && u == t.r) || (t.r == Leaf && u == t.l)
      requires s <= |ctx| && rootp == LinkOf(ctx[..s]) && leaf == LinkOf(ctx) && DeleteStart(ctx, s)
      requires path.Valid() && path.Pending() == Dirs(ctx[s..])
      modifies this, mem.Keys, path, path.steps
      ensures Sound() && KeySeq(tree) == Pre(ctx) + KeySeq(u) + Post(ctx)
      ensures mem.Keys == old(mem.Keys) - {t.id}
    {
      hide Plug, Pre, Post, KeySeq, Rep, RepCtx, Apart, Foot, Ids, Distinct, Balanced, Height;
      hide DeleteStart, LinkOf, Dirs, Holds, InSync, ShrinkAll, AllRotatable, KeysKept;
      CutHeight(ctx, t, u);
      DeleteRestores(ctx, s, t, u);
      DeleteKeys(ctx, s, u);
      Unlink(leaf, child, ctx, t, u);
      Replay(rootp, leaf, path, ctx, s, u);
      tree := Plug(ctx[..s] + ShrinkAll(ctx[s..]), u);
      Focus(ctx[..s] + ShrinkAll(ctx[s..]), u);
    }

    /** tdelete() of a node that has a left child: its predecessor gives up key and place. */
    method CutPredecessor(leaf0: Link, rootp0: Link, path: Path, ghost ctx0: seq<Frame>, ghost s0: nat, ghost t0: Tree)
      returns (ghost gone: TNode)
      requires Valid() && |mem| < TWO_64 && Plug(ctx0, t0) == tree && t0.Node? && t0.l.Node?
      requires leaf0 == LinkOf(ctx0) && s0 <= |ctx0| && rootp0 == LinkOf(ctx0[..s0]) && DeleteStart(ctx0, s0)
      requires path.Recording() && path.Pending() == Dirs(ctx0[s0..])
      modifies this, mem.Keys, path, path.steps
      ensures Sound() && Removed(KeySeq(tree), old(KeySeq(tree)), t0.key)
      ensures gone in old(mem) && gone !in Foot(ctx0) && mem.Keys == old(mem.Keys) - {gone}
    {
      hide Plug, Pre, Post, KeySeq, Rep, RepCtx, Apart, Foot, Ids, Distinct, Balanced, Height;
      hide DeleteStart, LinkOf, Dirs, Holds, InSync, KeysKept, Removed;
      AtNode(ctx0, t0);
      LoadEnd(ctx0, t0);
      var n := Load(leaf0);
      var leaf, rootp, ctx, s, t := GoToPredecessor(leaf0, rootp0, path, ctx0, s0, t0);
      AtNode(ctx, t);
      LoadEnd(ctx, t);
      ghost var f, b := LeftFrame(t0), ctx[|ctx0| + 1..];
      assert ctx == ctx0 + [f] + b;
      gone := t.id;
      assert ctx0 + ([f] + b) == ctx;
      OffPath(ctx0, [f] + b, t);
      PredecessorKeys(ctx0, t0, b, t);
      RekeyKeeps(ctx0, f, b, t, s, t.key);
      var p := Load(leaf);
      Rekey(n, p.key, ctx0, f, b, t);
      CutAt(rootp, leaf, p.llink, path, ctx0 + [f.(key := t.key)] + b, s, t, t.l);
    }

    lemma OffPath(a: seq<Frame>, b: seq<Frame>, t: Tree)
      requires Holds(a + b, t) && t.Node?
      ensures t.id !in Foot(a)
    {
      FootAppend(a, b);
      ApartShrinks(a + b, Ids(t), {});
    }

    /** The parent tdelete() reports really was the parent of the node with the key. */
    lemma ParentHere(ctx: seq<Frame>, t: Tree)
      requires Valid() && Plug(ctx, t) == tree && t.Node?
      ensures |ctx| == 0 ==> root == t.id
      ensures |ctx| > 0 ==> var p := ctx[|ctx| - 1].id;
        p in mem && p in Foot(ctx) && (p.llink == t.id || p.rlink == t.id)
      ensures t.id in mem && t.id.key == t.key && t.id !in Foot(ctx)
    {
      hide Rep, Ids, Distinct, Balanced, Sorted, KeySeq;
      Focus(ctx, t);
      LoadEnd(ctx, t);
      Peek(t);
      assert ctx + [] == ctx;
      OffPath(ctx, [], t);
      if |ctx| > 0 { FootHas(ctx, |ctx| - 1); }
    }

    /** tdelete() */
    method Delete(k: int) returns (r: Deleted)
      requires Valid() && |mem| < TWO_64
      modifies this, mem.Keys
      ensures Valid() && Contents() == old(Contents()) - {k}
      ensures r == Missing <==> k !in old(Contents())
      ensures r == Missing ==> unchanged(this) && unchanged(old(mem.Keys))
      ensures r != Missing ==> mem.Keys < old(mem.Keys) && |mem| == |old(mem)| - 1
      ensures r == WasRoot ==> old(root) != null && old(root.key) == k
      ensures r.Under? ==> r.parent in old(mem) && r.parent in mem
      ensures r.Under? ==> exists c :: c in old(mem) && old(c.key) == k
                                      && (old(r.parent.llink) == c || old(r.parent.rlink) == c)
    {
      hide Plug, Pre, Post, KeySeq, Rep, RepCtx, Apart, Foot, Ids, Distinct, Balanced, Height, Between, Sorted;
      hide DeleteStart, LinkOf, Dirs, Removed, Holds;
      var path := new Path();
      var rootp, leaf, result, ctx, s, t := FindVictim(k, path);
      if result == Missing {
        AbsentAt(ctx, k);
        assert Range(KeySeq(tree)) - {k} == Range(KeySeq(tree));
        return Missing;
      }
      ParentHere(ctx, t);
      KeyHere(ctx, t);
      AtNode(ctx, t);
      LoadEnd(ctx, t);
      ghost var gone := t.id;
      var n := Load(leaf);
      ghost var keys := KeySeq(tree);
      if n.llink == null {
        SimpleKeys(ctx, t);
        CutAt(rootp, leaf, n.rlink, path, ctx, s, t, t.r);
      } else {
        gone := CutPredecessor(leaf, rootp, path, ctx, s, t);
      }
      RemovedSorted(KeySeq(tree), keys, k);
      assert |mem.Keys| == |old(mem.Keys)| - 1;
      r := result;
    }

    method DoSearch(k: int) returns (reply: Reply)
      requires Valid()
      ensures Fits(reply, Search(k), mem.Keys, mem.Keys) && Says(reply, mem.Keys) == (k in Contents())
    {
      hide Valid, Contents;
      var n := Find(k);
      reply := Found(n);
    }

    method DoPut(k: int) returns (reply: Reply)
      requires Valid() && |mem| < TWO_64
      modifies this, mem.Keys
      ensures Valid() && Contents() == Step(old(Contents()), Put(k))
      ensures Fits(reply, Put(k), old(mem.Keys), mem.Keys) && Says(reply, old(mem.Keys)) == (k in old(Contents()))
      ensures reply.Kept? ==> reply.n.key == k
      ensures |mem| <= |old(mem)| + 1 && fresh(mem.Keys - old(mem.Keys))
    {
      hide Valid, Contents;
      var n := Insert(k);
      reply := Kept(n);
    }

    method DoDrop(k: int) returns (reply: Reply)
      requires Valid() && |mem| < TWO_64
      modifies this, mem.Keys
      ensures Valid() && Contents() == Step(old(Contents()), Drop(k))
      ensures Fits(reply, Drop(k), old(mem.Keys), mem.Keys) && Says(reply, old(mem.Keys)) == (k in old(Contents()))
      ensures reply.Kept? ==> reply.n.key == k
      ensures |mem| <= |old(mem)| + 1 && fresh(mem.Keys - old(mem.Keys))
    {
      hide Valid, Contents;
      var r := Delete(k);
      reply := Dropped(r);
    }

    /** One call of one of the three operations. */
    method Do(op: Op) returns (reply: Reply)
      requires Valid() && |mem| < TWO_64
      modifies this, mem.Keys
      ensures Valid() && Contents() == Step(old(Contents()), op)
      ensures Fits(reply, op, old(mem.Keys), mem.Keys) && Says(reply, old(mem.Keys)) == (op.k in old(Contents()))
      ensures reply.Kept? ==> reply.n.key == op.k
      ensures |mem| <= |old(mem)| + 1 && fresh(mem.Keys - old(mem.Keys))
    {
      hide Valid, Contents, Says;
      match op {
        case Search(k) => reply := DoSearch(k);
        case Put(k) => reply := DoPut(k);
        case Drop(k) => reply := DoDrop(k);
      }
    }

    /** Any run of the three operations behaves as on a finite set. `nodes` are the nodes of the
        tree before and after every call. */
    method Run(ops: seq<Op>) returns (replies: seq<Reply>, ghost nodes: seq<set<TNode>>)
      requires Valid() && |mem| + |ops| < TWO_64
      modifies this, mem.Keys
      ensures Valid() && Contents() == After(old(Contents()), ops)
      ensures |replies| == |ops| && History(replies, ops, nodes) && nodes[0] == old(mem.Keys) && nodes[|ops|] == mem.Keys
      ensures Said(replies, nodes) == Answers(old(Contents()), ops)
    {
      hide Valid, Range, KeySeq, Says, Fits;
      replies, nodes := [], [mem.Keys];
      for i := 0 to |ops|
        invariant Valid() && Contents() == After(old(Contents()), ops[..i])
        invariant |replies| == i && History(replies, ops[..i], nodes) && nodes[0] == old(mem.Keys) && nodes[i] == mem.Keys
        invariant Said(replies, nodes) == Answers(old(Contents()), ops[..i])
        invariant |mem| <= |old(mem)| + i && fresh(mem.Keys - old(mem.Keys))
      {
        assert ops[..i + 1] == ops[..i] + [ops[i]];
        ghost var before := mem.Keys;
        var reply := Do(ops[i]);
        OneMoreReply(replies, nodes, ops[..i], reply, mem.Keys, ops[i]);
        replies, nodes := replies + [reply], nodes + [mem.Keys];
      }
      assert ops[..|ops|] == ops;
    }
  }

  /** One call of tfind(), tsearch() or tdelete(). */
  datatype Op = Search(k: int) | Put(k: int) | Drop(k: int)

  /** The set after a run of operations on it. */
  ghost function After(s: set<int>, ops: seq<Op>): set<int> {
    if |ops| == 0 then s else Step(After(s, ops[..|ops| - 1]), ops[|ops| - 1])
  }

  ghost function Step(s: set<int>, op: Op): set<int> {
    match op
    case Search(_) => s
    case Put(k) => s + {k}
    case Drop(k) => s - {k}
  }

  /** What a call returns: tfind() the node or nothing, tsearch() the node that has the key
      now, tdelete() the parent of the one deleted. */
  datatype Reply = Found(hit: TNode?) | Kept(n: TNode) | Dropped(r: Deleted)

  /** Whether the key was there, read off a reply: tsearch() returns a node that was there
      before exactly if it was. */
  ghost predicate Says(reply: Reply, before: set<TNode>) {
    match reply
    case Found(hit) => hit != null
    case Kept(n) => n in before
    case Dropped(r) => r != Missing
  }

  /** The reply is one for the operation, and the nodes change as it says. */
  ghost predicate Fits(reply: Reply, op: Op, before: set<TNode>, after: set<TNode>) {
    match op
    case Search(_) => reply.Found? && after == before && (reply.hit != null ==> reply.hit in before)
    case Put(_) => reply.Kept? && after == before + {reply.n}
    case Drop(_) => reply.Dropped? && (if reply.r == Missing then after == before else after < before)
  }

  ghost predicate History(replies: seq<Reply>, ops: seq<Op>, nodes: seq<set<TNode>>) {
    && |replies| == |ops| && |nodes| == |ops| + 1
    && forall i :: 0 <= i < |ops| ==> Fits(replies[i], ops[i], nodes[i], nodes[i + 1])
  }

  ghost function Said(replies: seq<Reply>, nodes: seq<set<TNode>>): seq<bool>
    requires |replies| < |nodes|
  {
    seq(|replies|, i requires 0 <= i < |replies| => Says(replies[i], nodes[i]))
  }

  lemma OneMoreReply(replies: seq<Reply>, nodes: seq<set<TNode>>, ops: seq<Op>, reply: Reply, after: set<TNode>, op: Op)
    requires History(replies, ops, nodes) && Fits(reply, op, nodes[|ops|], after)
    ensures History(replies + [reply], ops + [op], nodes + [after])
    ensures Said(replies + [reply], nodes + [after]) == Said(replies, nodes) + [Says(reply, nodes[|ops|])]
  {
    hide Says, Fits;
    forall i | 0 <= i < |ops| + 1
      ensures Fits((replies + [reply])[i], (ops + [op])[i], (nodes + [after])[i], (nodes + [after])[i + 1])
    {
      if i < |ops| { assert Fits(replies[i], ops[i], nodes[i], nodes[i + 1]); }
    }
  }

  /** For each operation of the run, whether its key was there. */
  ghost function Answers(s: set<int>, ops: seq<Op>): seq<bool> {
    if |ops| == 0 then []
    else Answers(s, ops[..|ops| - 1]) + [ops[|ops| - 1].k in After(s, ops[..|ops| - 1])]
  }

  /** One occurrence of the key is gone, the rest is in place. */
  ghost predicate Removed(after: seq<int>, before: seq<int>, k: int) {
    exists a: seq<int>, b: seq<int> {:trigger a + [k] + b} :: before == a + [k] + b && after == a + b
  }

  lemma RemovedSorted(after: seq<int>, before: seq<int>, k: int)
    requires Removed(after, before, k) && Sorted(before)
    ensures Sorted(after) && Range(after) == Range(before) - {k}
  {
    var a: seq<int>, b: seq<int> :| before == a + [k] + b && after == a + b;
    assert before[|a|] == k;
    forall i, j | 0 <= i < j < |after| ensures after[i] < after[j] {
      assert after[i] == before[if i < |a| then i else i + 1] && after[j] == before[if j < |a| then j else j + 1];
    }
    forall x ensures x in after <==> x in before && x != k {
      if x in after {
        var i :| 0 <= i < |after| && after[i] == x;
        assert before[if i < |a| then i else i + 1] == x;
      }
    }
  }

  lemma LeafKeys()
    ensures KeySeq(Leaf) == []
  {
  }

  lemma RemovedFirst(p: seq<int>, k: int, q: seq<int>, r: seq<int>)
    ensures Removed(p + q + r, p + ([] + [k] + q) + r, k)
  {
    assert p + ([] + [k] + q) + r == p + [k] + (q + r) && p + q + r == p + (q + r);
  }

  lemma SimpleKeys(ctx: seq<Frame>, t: Tree)
    requires t.Node? && t.l == Leaf
    ensures Removed(Pre(ctx) + KeySeq(t.r) + Post(ctx), KeySeq(Plug(ctx, t)), t.key)
  {
    hide KeySeq, Pre, Post, Plug, Removed;
    PlugKeys(ctx, t);
    UnfoldKeys(t);
    LeafKeys();
    RemovedFirst(Pre(ctx), t.key, KeySeq(t.r), Post(ctx));
  }

  /** The keys after the predecessor's key took the place of the deleted one. */
  lemma PredecessorKeys(a: seq<Frame>, t0: Tree, b: seq<Frame>, t: Tree)
    requires t0.Node? && t.Node? && t.r == Leaf
    requires Post(a + [LeftFrame(t0)] + b) == Post(a + [LeftFrame(t0)])
    ensures var f := LeftFrame(t0); var c := a + [f.(key := t.key)] + b;
      Removed(Pre(c) + KeySeq(t.l) + Post(c), KeySeq(Plug(a + [f] + b, t)), t0.key)
  {
    var f := LeftFrame(t0);
    var g := f.(key := t.key);
    PlugKeys(a + [f] + b, t);
    UnfoldKeys(t);
    assert KeySeq(t.r) == [];
    PlugOne(f, Leaf);
    PlugOne(g, Leaf);
    PrePostAppend(a + [f], b);
    PrePostAppend(a + [g], b);
    PrePostAppend(a, [f]);
    PrePostAppend(a, [g]);
    hide KeySeq, Pre, Post, Plug;
    ShiftKeys(Pre(a + [f] + b), KeySeq(t.l), t.key, Post(b), t0.key, KeySeq(t0.r), Post(a));
  }

  lemma ShiftKeys(p: seq<int>, q: seq<int>, y: int, e: seq<int>, x: int, r: seq<int>, c: seq<int>)
    requires e + (([x] + r) + c) == ([x] + r) + c
    ensures Removed(p + q + (e + (([y] + r) + c)), p + (q + [y] + []) + (e + (([x] + r) + c)), x)
  {
    assert |e| == 0;
    var a, b := p + q + [y], r + c;
    assert p + (q + [y] + []) + (e + (([x] + r) + c)) == a + [x] + b;
    assert p + q + (e + (([y] + r) + c)) == a + b;
  }

  lemma {:induction false} RekeyBalanced(a: seq<Frame>, f: Frame, b: seq<Frame>, t: Tree, key: int)
    requires Balanced(Plug(a + [f] + b, t))
    ensures Balanced(Plug(a + [f.(key := key)] + b, t))
  {
    var g := f.(key := key);
    PlugAppend(a + [f], b, t);
    PlugAppend(a + [g], b, t);
    PlugAppend(a, [f], Plug(b, t));
    PlugAppend(a, [g], Plug(b, t));
    PlugOne(f, Plug(b, t));
    PlugOne(g, Plug(b, t));
    PlugBalanced(a, Fill(f, Plug(b, t)));
    PlugSameHeight(a, Fill(f, Plug(b, t)), Fill(g, Plug(b, t)));
  }

  lemma RekeyKeeps(a: seq<Frame>, f: Frame, b: seq<Frame>, t: Tree, s: nat, key: int)
    requires Balanced(Plug(a + [f] + b, t)) && s <= |a + [f] + b| && DeleteStart(a + [f] + b, s)
    ensures var c, d := a + [f] + b, a + [f.(key := key)] + b;
      && Balanced(Plug(d, t)) && DeleteStart(d, s)
      && LinkOf(d) == LinkOf(c) && LinkOf(d[..s]) == LinkOf(c[..s]) && Dirs(d[s..]) == Dirs(c[s..])
  {
    RekeyBalanced(a, f, b, t, key);
    var c, d := a + [f] + b, a + [f.(key := key)] + b;
    hide Plug, Balanced;
    assert forall i :: 0 <= i < |c| ==> d[i] == if i == |a| then c[i].(key := key) else c[i];
  }

  lemma CutHeight(ctx: seq<Frame>, t: Tree, u: Tree)
    requires t.Node? && Balanced(Plug(ctx, t))
    requires (t.l == Leaf && u == t.r) || (t.r == Leaf && u == t.l)
    ensures Balanced(u) && Height(u) + 1 == Height(t)
  {
    PlugBalanced(ctx, t);
    Taller(t.l);
    Taller(t.r);
  }

  lemma DeleteKeys(ctx: seq<Frame>, s: nat, u: Tree)
    requires s <= |ctx| && AllRotatable(ctx[s..])
    ensures KeySeq(Plug(ctx[..s] + ShrinkAll(ctx[s..]), u)) == Pre(ctx) + KeySeq(u) + Post(ctx)
  {
    var top, low := ctx[..s], ctx[s..];
    assert ctx == top + low;
    PlugKeys(top + ShrinkAll(low), u);
    PrePostAppend(top, ShrinkAll(low));
    PrePostAppend(top, low);
    ShrinkAllKeeps(low);
  }

  /** Putting the key between its neighbours keeps the order and adds just that key. */
  lemma InsertKeys(ctx: seq<Frame>, s: nat, k: int)
    requires Sorted(KeySeq(Plug(ctx, Leaf))) && Between(ctx, k)
    ensures Sorted(Pre(ctx) + [k] + Post(ctx))
    ensures Range(Pre(ctx) + [k] + Post(ctx)) == Range(KeySeq(Plug(ctx, Leaf))) + {k}
  {
    PlugKeys(ctx, Leaf);
    assert KeySeq(Leaf) == [];
    hide Pre, Post, KeySeq, Plug, Sorted, Range, Below, Above;
    assert Pre(ctx) + [] + Post(ctx) == Pre(ctx) + Post(ctx);
    SortedInsert(Pre(ctx), Post(ctx), k);
  }

  lemma SortedInsert(a: seq<int>, b: seq<int>, k: int)
    requires Sorted(a + b) && Below(a, k) && Above(b, k)
    ensures Sorted(a + [k] + b) && Range(a + [k] + b) == Range(a + b) + {k}
  {
    var w, v := a + b, a + [k] + b;
    forall i, j | 0 <= i < j < |v| ensures v[i] < v[j] {
      if i != |a| && j != |a| {
        assert v[i] == w[if i < |a| then i else i - 1] && v[j] == w[if j < |a| then j else j - 1];
      }
    }
    assert forall x :: x in v <==> x in w || x == k;
  }

  lemma InsertedKeys(ctx: seq<Frame>, s: nat, n: TNode, k: int)
    requires s <= |ctx| && Turnable(Plug(GrowAll(ctx[s..]), Node(n, k, 0, Leaf, Leaf)))
    ensures KeySeq(Plug(ctx[..s], Inserted(ctx[s..], n, k))) == Pre(ctx) + [k] + Post(ctx)
  {
    var top, low := ctx[..s], ctx[s..];
    assert ctx == top + low;
    GrownKeys(low, n, k);
    PrePostAppend(top, low);
    PlugKeys(top, Inserted(low, n, k));
    hide Pre, Post, Plug, KeySeq, Inserted;
    SplitKeys(Pre(top), Pre(low), k, Post(low), Post(top));
  }

  lemma GrownKeys(low: seq<Frame>, n: TNode, k: int)
    requires Turnable(Plug(GrowAll(low), Node(n, k, 0, Leaf, Leaf)))
    ensures KeySeq(Inserted(low, n, k)) == Pre(low) + [k] + Post(low)
  {
    var t := Node(n, k, 0, Leaf, Leaf);
    assert KeySeq(t) == [k];
    TurnKeeps(Plug(GrowAll(low), t));
    PlugKeys(GrowAll(low), t);
    GrowAllKeeps(low);
  }

  lemma SplitKeys(a: seq<int>, b: seq<int>, k: int, c: seq<int>, d: seq<int>)
    ensures a + (b + [k] + c) + d == (a + b) + [k] + (c + d)
  {
  }

  function SideFrame(t: Tree, left: bool): Frame
    requires t.Node?
  {
    if left then LeftFrame(t) else RightFrame(t)
  }

  lemma DeleteStep(ctx: seq<Frame>, s: nat, f: Frame)
    requires DeleteStart(ctx, s)
    ensures var s' := if Absorbs(f) then |ctx| else s;
      && DeleteStart(ctx + [f], s')
      && LinkOf((ctx + [f])[..s']) == (if Absorbs(f) then LinkOf(ctx) else LinkOf(ctx[..s]))
      && Dirs((ctx + [f])[s'..]) == (if Absorbs(f) then [] else Dirs(ctx[s..])) + [f.left]
    ensures LinkOf(ctx + [f]) == if f.left then LeftOf(f.id) else RightOf(f.id)
  {
    PathStep(ctx, s, f, Absorbs(f));
  }

  /** The path above step `i`, with the steps from `s` on already repaired. */
  ghost function Mended(ctx: seq<Frame>, s: nat, i: nat): seq<Frame>
    requires s <= i <= |ctx| && AllRotatable(ctx[s..])
  {
    RotatablePart(ctx, s, i);
    ctx[..s] + ShrinkAll(ctx[s..i])
  }

  lemma RotatablePart(ctx: seq<Frame>, s: nat, i: nat)
    requires s <= i <= |ctx| && AllRotatable(ctx[s..])
    ensures AllRotatable(ctx[s..i])
  {
    assert forall j :: 0 <= j < i - s ==> ctx[s..i][j] == ctx[s..][j];
  }

  lemma MendedEnds(ctx: seq<Frame>, s: nat)
    requires s <= |ctx| && AllRotatable(ctx[s..])
    ensures Mended(ctx, s, s) == ctx[..s] && Mended(ctx, s, s) + ctx[s..] == ctx
    ensures Mended(ctx, s, |ctx|) + ctx[|ctx|..] == ctx[..s] + ShrinkAll(ctx[s..])
  {
    assert ctx[s..s] == [] && ShrinkAll([]) == [];
    assert ctx[s..|ctx|] == ctx[s..] && ctx[|ctx|..] == [];
  }

  lemma MendedNext(ctx: seq<Frame>, s: nat, i: nat)
    requires s <= i < |ctx| && AllRotatable(ctx[s..])
    ensures Rotatable(ctx[i]) && Mended(ctx, s, i + 1) == Mended(ctx, s, i) + Shrink(ctx[i])
    ensures LinkOf(ctx[..i + 1]) == LinkOf(Mended(ctx, s, i + 1))
                                 == if ctx[i].left then LeftOf(ctx[i].id) else RightOf(ctx[i].id)
  {
    assert ctx[s..][i - s] == ctx[i];
    RotatablePart(ctx, s, i);
    RotatablePart(ctx, s, i + 1);
    assert ctx[s..i + 1] == ctx[s..i] + [ctx[i]];
    hide Rotatable, Shrink;
    ShrinkAllSnoc(ctx[s..i], ctx[i]);
  }

  lemma DirsNext(ctx: seq<Frame>, i: nat)
    requires i < |ctx|
    ensures Dirs(ctx[i..]) == [ctx[i].left] + Dirs(ctx[i + 1..])
  {
    assert ctx[i..] == [ctx[i]] + ctx[i + 1..];
  }

  lemma PlugNext(ctx: seq<Frame>, i: nat, t: Tree)
    requires i < |ctx|
    ensures Plug(ctx[i..], t) == Fill(ctx[i], Plug(ctx[i + 1..], t))
  {
    assert ctx[i..][1..] == ctx[i + 1..];
  }

  lemma MendedStep(ctx: seq<Frame>, s: nat, i: nat, t: Tree)
    requires s <= i < |ctx| && AllRotatable(ctx[s..])
    ensures Rotatable(ctx[i]) && Mended(ctx, s, i + 1) == Mended(ctx, s, i) + Shrink(ctx[i])
    ensures Dirs(ctx[i..]) == [ctx[i].left] + Dirs(ctx[i + 1..])
    ensures Plug(ctx[i..], t) == Fill(ctx[i], Plug(ctx[i + 1..], t))
    ensures LinkOf(ctx[..i + 1]) == LinkOf(Mended(ctx, s, i + 1))
                                 == if ctx[i].left then LeftOf(ctx[i].id) else RightOf(ctx[i].id)
  {
    hide Rotatable, Shrink, Plug, Dirs, LinkOf, Mended;
    MendedNext(ctx, s, i);
    DirsNext(ctx, i);
    PlugNext(ctx, i, t);
  }

  lemma {:induction false} FootHas(ctx: seq<Frame>, i: nat)
    requires i < |ctx|
    ensures ctx[i].id in Foot(ctx)
  {
    if i > 0 { FootHas(ctx[1..], i - 1); }
  }

  /** The path with the steps from `s` to `i` already adjusted. */
  ghost function Grown(ctx: seq<Frame>, s: nat, i: nat): seq<Frame>
    requires s <= i <= |ctx|
  {
    ctx[..s] + GrowAll(ctx[s..i]) + ctx[i..]
  }

  lemma GrownEnds(ctx: seq<Frame>, s: nat)
    requires s <= |ctx|
    ensures Grown(ctx, s, s) == ctx
    ensures Grown(ctx, s, |ctx|) == ctx[..s] + GrowAll(ctx[s..])
  {
    assert ctx[s..s] == [] && GrowAll([]) == [];
    assert ctx[s..|ctx|] == ctx[s..] && ctx[|ctx|..] == [];
  }

  lemma GrownStep(ctx: seq<Frame>, s: nat, i: nat)
    requires s <= i < |ctx|
    ensures Grown(ctx, s, i) == (ctx[..s] + GrowAll(ctx[s..i])) + [ctx[i]] + ctx[i + 1..]
    ensures Grown(ctx, s, i + 1) == (ctx[..s] + GrowAll(ctx[s..i])) + [Grow(ctx[i])] + ctx[i + 1..]
    ensures Dirs(ctx[i..]) == [ctx[i].left] + Dirs(ctx[i + 1..])
    ensures LinkOf(Grown(ctx, s, i + 1)) == LinkOf(Grown(ctx, s, i))
  {
    var g := GrowAll(ctx[s..i + 1]);
    assert g == GrowAll(ctx[s..i]) + [Grow(ctx[i])];
    assert ctx[i..] == [ctx[i]] + ctx[i + 1..];
  }

  lemma Uncons(a: bool, s: seq<bool>, b: bool, t: seq<bool>)
    requires [a] + s == [b] + t
    ensures a == b && s == t
  {
    assert a == ([a] + s)[0] && s == ([a] + s)[1..];
    assert b == ([b] + t)[0] && t == ([b] + t)[1..];
  }

  /** Records a step, forgetting the earlier ones first if asked to. */
  method Note(path: Path, forget: bool, left: bool)
    requires path.Recording() && |path.Pending()| < 128
    modifies path, path.steps
    ensures path.Recording() && path.steps == old(path.steps)
    ensures path.Pending() == (if forget then [] else old(path.Pending())) + [left]
  {
    if forget { path.Reset(); }
    if left { path.TakingLeft(); } else { path.TakingRight(); }
  }

  /** One step of a path that restarts at the new node if `restart` holds. */
  lemma PathStep(ctx: seq<Frame>, s: nat, f: Frame, restart: bool)
    requires s <= |ctx|
    ensures var s' := if restart then |ctx| else s;
      && LinkOf((ctx + [f])[..s']) == (if restart then LinkOf(ctx) else LinkOf(ctx[..s]))
      && Dirs((ctx + [f])[s'..]) == (if restart then [] else Dirs(ctx[s..])) + [f.left]
    ensures LinkOf(ctx + [f]) == if f.left then LeftOf(f.id) else RightOf(f.id)
  {
    if restart {
      assert (ctx + [f])[..|ctx|] == ctx && (ctx + [f])[|ctx|..] == [f];
    } else {
      assert (ctx + [f])[..s] == ctx[..s] && (ctx + [f])[s..] == ctx[s..] + [f];
    }
  }

  lemma InsertStep(ctx: seq<Frame>, s: nat, f: Frame)
    requires InsertStart(ctx, s)
    ensures var s' := if f.bal != 0 then |ctx| else s;
      && InsertStart(ctx + [f], s')
      && LinkOf((ctx + [f])[..s']) == (if f.bal != 0 then LinkOf(ctx) else LinkOf(ctx[..s]))
      && Dirs((ctx + [f])[s'..]) == (if f.bal != 0 then [] else Dirs(ctx[s..])) + [f.left]
    ensures LinkOf(ctx + [f]) == if f.left then LeftOf(f.id) else RightOf(f.id)
  {
    PathStep(ctx, s, f, f.bal != 0);
  }
}
