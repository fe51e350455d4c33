/** The value side of the tsearch(3) family: trees with their stored balance
    fields, the path from the root to a link as a sequence of frames, and the
    effect of the two balance-repairing passes on such a path. */
module AvlShape {
  import opened Arithmetic

  /** One heap node of the tree (`posix_tnode`). Keys stand for their rank in the
      caller's total order. */
  class TNode {
    var key: int
    var llink: TNode?
    var rlink: TNode?
    var balance: int

    constructor (k: int)
      ensures key == k && llink == null && rlink == null && balance == 0
    {
      key, llink, rlink, balance := k, null, null, 0;
    }
  }

  /** The tree hanging off a link: which node sits where, and what it stores. */
  datatype Tree = Leaf | Node(id: TNode, key: int, bal: int, l: Tree, r: Tree)

  function Height(t: Tree): nat {
    match t
    case Leaf => 0
    case Node(_, _, _, l, r) => 1 + Max(Height(l), Height(r))
  }

  /** Every stored balance is left height minus right height, and is -1, 0 or 1. */
  predicate Balanced(t: Tree) {
    match t
    case Leaf => true
    case Node(_, _, b, l, r) =>
      && Balanced(l) && Balanced(r)
      && b == Height(l) - Height(r)
      && -1 <= b <= 1
  }

  ghost function Ids(t: Tree): set<TNode> {
    match t
    case Leaf => {}
    case Node(n, _, _, l, r) => {n} + Ids(l) + Ids(r)
  }

  /** No node is shared between two places of the tree. */
  ghost predicate Distinct(t: Tree) {
    match t
    case Leaf => true
    case Node(n, _, _, l, r) =>
      && Distinct(l) && Distinct(r)
      && n !in Ids(l) && n !in Ids(r) && Ids(l) !! Ids(r)
  }

  /** The keys in symmetric order. */
  function KeySeq(t: Tree): seq<int> {
    match t
    case Leaf => []
    case Node(_, k, _, l, r) => KeySeq(l) + [k] + KeySeq(r)
  }

  predicate Sorted(s: seq<int>) {
    forall i, j :: 0 <= i < j < |s| ==> s[i] < s[j]
  }

  // ----- paths -----

  /** One step of a path: the node stepped through, the side taken, and the subtree
      left behind on the other side. */
  datatype Frame = Frame(left: bool, id: TNode, key: int, bal: int, sib: Tree)

  function Fill(f: Frame, t: Tree): Tree {
    if f.left then Node(f.id, f.key, f.bal, t, f.sib) else Node(f.id, f.key, f.bal, f.sib, t)
  }

  /** The whole tree whose path `ctx` (outermost step first) ends in `t`. */
  function Plug(ctx: seq<Frame>, t: Tree): Tree {
    if |ctx| == 0 then t else Fill(ctx[0], Plug(ctx[1..], t))
  }

  lemma {:induction false} PlugAppend(a: seq<Frame>, b: seq<Frame>, t: Tree)
    ensures Plug(a + b, t) == Plug(a, Plug(b, t))
  {
    if |a| == 0 {
      assert a + b == b;
    } else {
      assert (a + b)[1..] == a[1..] + b;
      PlugAppend(a[1..], b, t);
    }
  }

  lemma {:induction false} PlugHeight(ctx: seq<Frame>, t: Tree)
    ensures Height(Plug(ctx, t)) >= |ctx| + Height(t)
  {
    if |ctx| > 0 { PlugHeight(ctx[1..], t); }
  }

  lemma {:induction false} PlugBalanced(ctx: seq<Frame>, t: Tree)
    requires Balanced(Plug(ctx, t))
    ensures Balanced(t)
  {
    if |ctx| > 0 { PlugBalanced(ctx[1..], t); }
  }

  /** A subtree may be exchanged for a balanced one of the same height without
      touching anything above it. */
  lemma {:induction false} PlugSameHeight(ctx: seq<Frame>, t: Tree, u: Tree)
    requires Balanced(Plug(ctx, t)) && Balanced(u) && Height(u) == Height(t)
    ensures Balanced(Plug(ctx, u)) && Height(Plug(ctx, u)) == Height(Plug(ctx, t))
  {
    if |ctx| > 0 { PlugSameHeight(ctx[1..], t, u); }
  }

  /** Keys left of, and right of, the end of a path. */
  function Pre(ctx: seq<Frame>): seq<int> {
    if |ctx| == 0 then [] else (if ctx[0].left then [] else KeySeq(ctx[0].sib) + [ctx[0].key]) + Pre(ctx[1..])
  }

  function Post(ctx: seq<Frame>): seq<int> {
    if |ctx| == 0 then [] else Post(ctx[1..]) + (if ctx[0].left then [ctx[0].key] + KeySeq(ctx[0].sib) else [])
  }

  lemma FillKeys(f: Frame, t: Tree)
    ensures KeySeq(Fill(f, t)) ==
      (if f.left then [] else KeySeq(f.sib) + [f.key]) + KeySeq(t) + if f.left then [f.key] + KeySeq(f.sib) else []
  {
    hide KeySeq;
    UnfoldFill(f, t);
    if f.left { assert KeySeq(t) + [f.key] + KeySeq(f.sib) == [] + KeySeq(t) + ([f.key] + KeySeq(f.sib)); }
  }

  lemma UnfoldFill(f: Frame, t: Tree)
    ensures KeySeq(Fill(f, t)) ==
      if f.left then KeySeq(t) + [f.key] + KeySeq(f.sib) else KeySeq(f.sib) + [f.key] + KeySeq(t)
  {
  }

  lemma Regroup(a: seq<int>, p: seq<int>, k: seq<int>, q: seq<int>, b: seq<int>)
    ensures a + (p + k + q) + b == (a + p) + k + (q + b)
  {
  }

  lemma {:induction false} PlugKeys(ctx: seq<Frame>, t: Tree)
    ensures KeySeq(Plug(ctx, t)) == Pre(ctx) + KeySeq(t) + Post(ctx)
  {
    if |ctx| > 0 {
      var f, rest := ctx[0], ctx[1..];
      PlugKeys(rest, t);
      var a := if f.left then [] else KeySeq(f.sib) + [f.key];
      var b := if f.left then [f.key] + KeySeq(f.sib) else [];
      FillKeys(f, Plug(rest, t));
      assert Pre(ctx) == a + Pre(rest) && Post(ctx) == Post(rest) + b;
      hide Pre, Post, KeySeq;
      Regroup(a, Pre(rest), KeySeq(t), Post(rest), b);
    }
  }

  lemma {:induction false} PrePostAppend(a: seq<Frame>, b: seq<Frame>)
    ensures Pre(a + b) == Pre(a) + Pre(b)
    ensures Post(a + b) == Post(b) + Post(a)
  {
    if |a| == 0 {
      assert a + b == b;
    } else {
      assert (a + b)[1..] == a[1..] + b;
      PrePostAppend(a[1..], b);
      var p := if a[0].left then [] else KeySeq(a[0].sib) + [a[0].key];
      var q := if a[0].left then [a[0].key] + KeySeq(a[0].sib) else [];
      assert p + (Pre(a[1..]) + Pre(b)) == (p + Pre(a[1..])) + Pre(b);
      assert (Post(b) + Post(a[1..])) + q == Post(b) + (Post(a[1..]) + q);
    }
  }

  ghost function Foot(ctx: seq<Frame>): set<TNode> {
    if |ctx| == 0 then {} else {ctx[0].id} + Ids(ctx[0].sib) + Foot(ctx[1..])
  }

  lemma {:induction false} PlugIds(ctx: seq<Frame>, t: Tree)
    ensures Ids(Plug(ctx, t)) == Foot(ctx) + Ids(t)
  {
    if |ctx| > 0 { PlugIds(ctx[1..], t); }
  }

  lemma {:induction false} FootAppend(a: seq<Frame>, b: seq<Frame>)
    ensures Foot(a + b) == Foot(a) + Foot(b)
  {
    if |a| == 0 {
      assert a + b == b;
    } else {
      assert (a + b)[1..] == a[1..] + b;
      FootAppend(a[1..], b);
    }
  }

  // ----- size and depth -----

  function Fib(n: nat): nat {
    if n < 2 then n else Fib(n - 1) + Fib(n - 2)
  }

  lemma NodeSize(t: Tree)
    requires t.Node? && Distinct(t)
    ensures |Ids(t)| == 1 + |Ids(t.l)| + |Ids(t.r)|
  {
    assert Ids(t) == {t.id} + (Ids(t.l) + Ids(t.r));
    assert t.id !in Ids(t.l) + Ids(t.r);
  }

  /** An AVL tree of height h has at least Fib(h+2) - 1 nodes. */
  lemma {:induction false} MinimalSize(t: Tree)
    requires Balanced(t) && Distinct(t)
    ensures |Ids(t)| + 1 >= Fib(Height(t) + 2)
  {
    if t.Leaf? {
      FibTwo();
    } else {
      hide Ids, Fib;
      MinimalSize(t.l);
      MinimalSize(t.r);
      NodeSize(t);
      var low := if Height(t.l) < Height(t.r) then Height(t.l) else Height(t.r);
      FibStep(Height(t), low);
    }
  }

  lemma FibTwo()
    ensures Fib(2) == 1
  {
  }

  lemma FibStep(h: nat, low: nat)
    requires h == low + 1 || h == low + 2
    ensures Fib(h + 2) <= Fib(h + 1) + Fib(low + 2)
  {
    FibGrows(h, low + 2);
  }

  lemma {:induction false} FibGrows(a: nat, b: nat)
    requires a <= b && 1 <= a
    ensures Fib(a) <= Fib(b)
    decreases b
  {
    if a < b { FibGrows(a, b - 1); }
  }

  lemma {:induction false} FibDoubles(n: nat)
    ensures Fib(2 * n + 1) >= Pow2(n)
  {
    if n > 0 {
      FibDoubles(n - 1);
      assert Fib(2 * n + 1) == Fib(2 * n) + Fib(2 * n - 1);
      FibGrows(2 * n - 1, 2 * n);
    }
  }

  lemma TallTree(h: nat, n: nat)
    requires h >= 2 * n
    ensures Fib(h + 1) >= Pow2(n)
  {
    FibDoubles(n);
    FibGrows(2 * n + 1, h + 1);
  }

  /** Every root-to-link path of a tree that fits a 64-bit address space fits the
      128-bit path recorder. */
  lemma DepthBound(ctx: seq<Frame>, t: Tree)
    requires Balanced(Plug(ctx, t)) && Distinct(Plug(ctx, t)) && |Ids(Plug(ctx, t))| < TWO_64
    ensures |ctx| + Height(t) <= 128
  {
    var h := Height(Plug(ctx, t));
    PlugHeight(ctx, t);
    MinimalSize(Plug(ctx, t));
    if h > 128 {
      Pow2Of64();
      TallTree(h + 1, 65);
    }
  }
}
