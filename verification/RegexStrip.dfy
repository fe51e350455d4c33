/** The strip: the flat operator sequence a regular expression is compiled into, and its
    meaning as a nondeterministic machine. A state is a position in the strip, "immediately
    preceding execution of that operator". */
module RegexStrip {
  import opened RegexLanguage

  /** Strip operators with their operands; offsets are distances in the strip. */
  datatype Sop =
    | OEnd
    | OChar(c: char)
    | OAny
    | OAnyOf(s: set<char>)
    | OPlus_(k: nat)   // + prefix, forward to suffix
    | O_Plus(k: nat)   // + suffix, back to prefix
    | OQuest_(k: nat)  // ? prefix, forward to suffix
    | O_Quest(k: nat)  // ? suffix, back to prefix
    | OLParen(no: nat)
    | ORParen(no: nat)
    | OCh_(k: nat)     // begin choice, forward to OOR2
    | OOr1(k: nat)     // end of a branch, back to OOR1 or OCH_
    | OOr2(k: nat)     // begin of a branch, forward to OOR2 or O_CH
    | O_Ch(k: nat)     // end choice, back to OOR1

  type Strip = seq<Sop>

  predicate Eats(op: Sop, c: char) {
    match op
    case OChar(d) => c == d
    case OAny => true
    case OAnyOf(s) => c in s
    case _ => false
  }

  /** From the OOR2 after a branch, along the chain to the O_CH that ends the choice. */
  function ChainEnd(strip: Strip, p: nat): nat
    decreases |strip| - p
  {
    if p < |strip| && strip[p].OOr2? && strip[p].k > 0 then ChainEnd(strip, p + strip[p].k) else p
  }

  /** A move that consumes nothing. */
  predicate Free(strip: Strip, p: nat, q: int) {
    p < |strip| &&
    match strip[p]
    case OPlus_(_) => q == p + 1
    case O_Plus(k) => q == p + 1 || q == p - k
    case OQuest_(k) => q == p + 1 || q == p + k
    case O_Quest(_) => q == p + 1
    case OLParen(_) => q == p + 1
    case ORParen(_) => q == p + 1
    case OCh_(k) => q == p + 1 || q == p + k
    case OOr1(_) => q == ChainEnd(strip, p + 1)
    case OOr2(k) => q == p + 1 || (q == p + k && p + k < |strip| && !strip[p + k].O_Ch?)
    case O_Ch(_) => q == p + 1
    case _ => false
  }

  /** One step of the machine: from (p, v) to (q, w), `v` and `w` being the input left. */
  predicate Moves(strip: Strip, p: nat, v: string, q: nat, w: string) {
    || (Free(strip, p, q) && w == v)
    || (p < |strip| && |v| > 0 && Eats(strip[p], v[0]) && q == p + 1 && w == v[1..])
  }

  /** A run of `n` steps from `p` that ends in `r` with the input consumed. */
  ghost predicate Runs(strip: Strip, p: nat, v: string, r: nat, n: nat)
    decreases n
  {
    if n == 0 then p == r && v == ""
    else exists q: nat, w: string :: Moves(strip, p, v, q, w) && Runs(strip, q, w, r, n - 1)
  }

  ghost predicate Reaches(strip: Strip, p: nat, v: string, r: nat) {
    exists n: nat :: Runs(strip, p, v, r, n)
  }

  /** The strings that take the machine from state `p` to state `r`. */
  ghost predicate Accepts(strip: Strip, w: string) {
    |strip| >= 2 && Reaches(strip, 1, w, |strip| - 1)
  }

  lemma {:induction false} RunsThen(strip: Strip, p: nat, u: string, q: nat, n: nat, v: string, r: nat, m: nat)
    requires Runs(strip, p, u, q, n) && Runs(strip, q, v, r, m)
    ensures Runs(strip, p, u + v, r, n + m)
    decreases n
  {
    if n == 0 {
      assert u + v == v;
    } else {
      var q1: nat, u1: string :| Moves(strip, p, u, q1, u1) && Runs(strip, q1, u1, q, n - 1);
      RunsThen(strip, q1, u1, q, n - 1, v, r, m);
      assert Moves(strip, p, u + v, q1, u1 + v) by {
        if !(Free(strip, p, q1) && u1 == u) {
          assert (u + v)[1..] == u[1..] + v;
        }
      }
    }
  }

  lemma ReachesThen(strip: Strip, p: nat, u: string, q: nat, v: string, r: nat)
    requires Reaches(strip, p, u, q) && Reaches(strip, q, v, r)
    ensures Reaches(strip, p, u + v, r)
  {
    var n: nat :| Runs(strip, p, u, q, n);
    var m: nat :| Runs(strip, q, v, r, m);
    RunsThen(strip, p, u, q, n, v, r, m);
  }

  lemma ReachesFree(strip: Strip, p: nat, q: nat)
    requires Free(strip, p, q)
    ensures Reaches(strip, p, "", q)
  {
    assert Runs(strip, q, "", q, 0);
    assert Moves(strip, p, "", q, "");
    assert Runs(strip, p, "", q, 1);
  }

  lemma ReachesEats(strip: Strip, p: nat, c: char)
    requires p < |strip| && Eats(strip[p], c)
    ensures Reaches(strip, p, [c], p + 1)
  {
    assert [c][1..] == "";
    assert Runs(strip, p + 1, "", p + 1, 0);
    assert Moves(strip, p, [c], p + 1, "");
    assert Runs(strip, p, [c], p + 1, 1);
  }

  lemma ReachesSelf(strip: Strip, p: nat)
    ensures Reaches(strip, p, "", p)
  {
    assert Runs(strip, p, "", p, 0);
  }

  // ----- blocks -----

  /** The block `c` occupies the strip from position `a` on. */
  predicate At(strip: Strip, a: nat, c: Strip) {
    a + |c| <= |strip| && strip[a..a + |c|] == c
  }

  /** A run from `b` on follows after a prefix of `v` taken from the language. */
  ghost predicate Follows(strip: Strip, b: nat, l: Lang, v: string, r: nat, n: nat) {
    exists i: nat, m: nat :: i <= |v| && v[..i] in l && m <= n && Runs(strip, b, v[i..], r, m)
  }

  /** Every run that enters the block at its start and ends outside it leaves the block at
      its end, having read a string of the language. */
  ghost predicate Sound(c: Strip, l: Lang) {
    forall strip: Strip, a: nat, v: string, r: nat, n: nat
      {:trigger At(strip, a, c), Runs(strip, a, v, r, n)} ::
      At(strip, a, c) && Runs(strip, a, v, r, n) && !(a <= r < a + |c|)
      ==> Follows(strip, a + |c|, l, v, r, n)
  }

  /** Every string of the language takes the machine through the block. */
  ghost predicate Complete(c: Strip, l: Lang) {
    forall strip: Strip, a: nat, w: string {:trigger At(strip, a, c), w in l} ::
      At(strip, a, c) && w in l ==> Reaches(strip, a, w, a + |c|)
  }

  ghost predicate Implements(c: Strip, l: Lang) { Sound(c, l) && Complete(c, l) }

  lemma AtParts(strip: Strip, a: nat, c: Strip, d: Strip)
    ensures At(strip, a, c + d) <==> At(strip, a, c) && At(strip, a + |c|, d)
  {
    if At(strip, a, c) && At(strip, a + |c|, d) {
      assert strip[a..a + |c| + |d|] == strip[a..a + |c|] + strip[a + |c|..a + |c| + |d|];
    }
    if At(strip, a, c + d) {
      assert strip[a..a + |c|] == (c + d)[..|c|];
      assert strip[a + |c|..a + |c| + |d|] == (c + d)[|c|..];
    }
  }

  lemma AtOp(strip: Strip, a: nat, op: Sop)
    ensures At(strip, a, [op]) <==> a < |strip| && strip[a] == op
  {
    if a < |strip| { assert strip[a..a + 1] == [strip[a]]; }
  }

  lemma FollowsCat(strip: Strip, b: nat, k: Lang, l: Lang, v: string, i: nat, r: nat, m: nat, n: nat)
    requires i <= |v| && v[..i] in k && m <= n && Follows(strip, b, l, v[i..], r, m)
    ensures Follows(strip, b, Cat(k, l), v, r, n)
  {
    var j: nat, m': nat :| j <= |v[i..]| && v[i..][..j] in l && m' <= m && Runs(strip, b, v[i..][j..], r, m');
    assert v[..i + j] == v[..i] + v[i..][..j];
    CatIntro(k, l, v[..i], v[i..][..j]);
    assert v[i..][j..] == v[i + j..];
  }

  lemma FollowsMono(strip: Strip, b: nat, k: Lang, l: Lang, v: string, r: nat, m: nat, n: nat)
    requires Follows(strip, b, k, v, r, m) && m <= n && k <= l
    ensures Follows(strip, b, l, v, r, n)
  {
    var i: nat, m': nat :| i <= |v| && v[..i] in k && m' <= m && Runs(strip, b, v[i..], r, m');
  }

  lemma FollowsNow(strip: Strip, b: nat, l: Lang, v: string, r: nat, n: nat)
    requires "" in l && Runs(strip, b, v, r, n)
    ensures Follows(strip, b, l, v, r, n)
  {
    assert v[..0] == "" && v[0..] == v;
  }

  /** Using and establishing the two halves for one strip and one run at a time. */
  lemma UseSound(c: Strip, l: Lang, strip: Strip, a: nat, v: string, r: nat, n: nat)
    requires Sound(c, l) && At(strip, a, c) && Runs(strip, a, v, r, n) && !(a <= r < a + |c|)
    ensures Follows(strip, a + |c|, l, v, r, n)
  {
  }

  lemma UseComplete(c: Strip, l: Lang, strip: Strip, a: nat, w: string)
    requires Complete(c, l) && At(strip, a, c) && w in l
    ensures Reaches(strip, a, w, a + |c|)
  {
  }

  lemma FirstMove(strip: Strip, p: nat, v: string, r: nat, n: nat) returns (q: nat, w: string)
    requires Runs(strip, p, v, r, n) && p != r
    ensures n > 0 && Moves(strip, p, v, q, w) && Runs(strip, q, w, r, n - 1)
  {
    q, w :| Moves(strip, p, v, q, w) && Runs(strip, q, w, r, n - 1);
  }

  lemma ImplementsEmpty()
    ensures Implements([], Unit())
  {
    hide Runs, Reaches;
    forall strip: Strip, a: nat, v: string, r: nat, n: nat | At(strip, a, []) && Runs(strip, a, v, r, n)
      ensures Follows(strip, a, Unit(), v, r, n)
    {
      FollowsNow(strip, a, Unit(), v, r, n);
    }
    forall strip: Strip, a: nat, w: string | At(strip, a, []) && w in Unit() ensures Reaches(strip, a, w, a) {
      ReachesSelf(strip, a);
    }
  }

  // One operator that reads one character.

  lemma EaterSound(op: Sop, l: Lang, strip: Strip, a: nat, v: string, r: nat, n: nat)
    requires op.OChar? || op.OAny? || op.OAnyOf?
    requires forall w: string :: w in l <==> |w| == 1 && Eats(op, w[0])
    requires At(strip, a, [op]) && Runs(strip, a, v, r, n) && r != a
    ensures Follows(strip, a + 1, l, v, r, n)
  {
    hide Runs;
    AtOp(strip, a, op);
    var q, w := FirstMove(strip, a, v, r, n);
    assert v[..1] in l && v[1..] == w;
  }

  lemma ImplementsEater(op: Sop, l: Lang)
    requires op.OChar? || op.OAny? || op.OAnyOf?
    requires forall w: string :: w in l <==> |w| == 1 && Eats(op, w[0])
    ensures Implements([op], l)
  {
    hide Runs, Reaches, At, Follows, Eats;
    forall strip: Strip, a: nat, v: string, r: nat, n: nat
      | At(strip, a, [op]) && Runs(strip, a, v, r, n) && !(a <= r < a + 1)
      ensures Follows(strip, a + 1, l, v, r, n)
    {
      EaterSound(op, l, strip, a, v, r, n);
    }
    forall strip: Strip, a: nat, w: string | At(strip, a, [op]) && w in l ensures Reaches(strip, a, w, a + 1) {
      AtOp(strip, a, op);
      ReachesEats(strip, a, w[0]);
      assert w == [w[0]];
    }
  }

  // One operator that reads nothing and only goes on.

  lemma MarkSound(op: Sop, strip: Strip, a: nat, v: string, r: nat, n: nat)
    requires op.OLParen? || op.ORParen?
    requires At(strip, a, [op]) && Runs(strip, a, v, r, n) && r != a
    ensures Follows(strip, a + 1, Unit(), v, r, n)
  {
    hide Runs, Follows;
    AtOp(strip, a, op);
    var q, w := FirstMove(strip, a, v, r, n);
    FollowsNow(strip, a + 1, Unit(), v, r, n - 1);
    FollowsMono(strip, a + 1, Unit(), Unit(), v, r, n - 1, n);
  }

  lemma ImplementsMark(op: Sop)
    requires op.OLParen? || op.ORParen?
    ensures Implements([op], Unit())
  {
    hide Runs, Reaches, At, Follows;
    forall strip: Strip, a: nat, v: string, r: nat, n: nat
      | At(strip, a, [op]) && Runs(strip, a, v, r, n) && !(a <= r < a + 1)
      ensures Follows(strip, a + 1, Unit(), v, r, n)
    {
      MarkSound(op, strip, a, v, r, n);
    }
    forall strip: Strip, a: nat, w: string | At(strip, a, [op]) && w in Unit() ensures Reaches(strip, a, w, a + 1) {
      AtOp(strip, a, op);
      ReachesFree(strip, a, a + 1);
    }
  }

  // Two blocks in a row.

  lemma CatSound(c: Strip, k: Lang, d: Strip, l: Lang, strip: Strip, a: nat, v: string, r: nat, n: nat)
    requires Sound(c, k) && Sound(d, l)
    requires At(strip, a, c + d) && Runs(strip, a, v, r, n) && !(a <= r < a + |c + d|)
    ensures Follows(strip, a + |c + d|, Cat(k, l), v, r, n)
  {
    hide Runs, At, Sound;
    AtParts(strip, a, c, d);
    UseSound(c, k, strip, a, v, r, n);
    var i: nat, m: nat :| i <= |v| && v[..i] in k && m <= n && Runs(strip, a + |c|, v[i..], r, m);
    UseSound(d, l, strip, a + |c|, v[i..], r, m);
    FollowsCat(strip, a + |c| + |d|, k, l, v, i, r, m, n);
  }

  lemma CatComplete(c: Strip, k: Lang, d: Strip, l: Lang, strip: Strip, a: nat, w: string)
    requires Complete(c, k) && Complete(d, l) && At(strip, a, c + d) && w in Cat(k, l)
    ensures Reaches(strip, a, w, a + |c + d|)
  {
    hide Reaches, At, Complete;
    AtParts(strip, a, c, d);
    var i := CatElim(k, l, w);
    UseComplete(c, k, strip, a, w[..i]);
    UseComplete(d, l, strip, a + |c|, w[i..]);
    ReachesThen(strip, a, w[..i], a + |c|, w[i..], a + |c| + |d|);
    assert w[..i] + w[i..] == w;
  }

  lemma ImplementsCat(c: Strip, k: Lang, d: Strip, l: Lang)
    requires Implements(c, k) && Implements(d, l)
    ensures Implements(c + d, Cat(k, l))
  {
    hide Runs, Reaches, At, Follows, Cat;
    forall strip: Strip, a: nat, v: string, r: nat, n: nat
      | At(strip, a, c + d) && Runs(strip, a, v, r, n) && !(a <= r < a + |c + d|)
      ensures Follows(strip, a + |c + d|, Cat(k, l), v, r, n)
    {
      CatSound(c, k, d, l, strip, a, v, r, n);
    }
    forall strip: Strip, a: nat, w: string | At(strip, a, c + d) && w in Cat(k, l)
      ensures Reaches(strip, a, w, a + |c + d|)
    {
      CatComplete(c, k, d, l, strip, a, w);
    }
  }

  // A loop.

  function PlusCode(c: Strip): Strip { [OPlus_(|c| + 1)] + c + [O_Plus(|c| + 1)] }

  lemma AtPlus(strip: Strip, a: nat, c: Strip)
    requires At(strip, a, PlusCode(c))
    ensures a + |c| + 1 < |strip| && At(strip, a + 1, c)
    ensures strip[a] == OPlus_(|c| + 1) && strip[a + |c| + 1] == O_Plus(|c| + 1)
  {
    AtParts(strip, a, [OPlus_(|c| + 1)] + c, [O_Plus(|c| + 1)]);
    AtParts(strip, a, [OPlus_(|c| + 1)], c);
    AtOp(strip, a, OPlus_(|c| + 1));
    AtOp(strip, a + |c| + 1, O_Plus(|c| + 1));
  }

  lemma {:induction false} PlusSound(c: Strip, l: Lang, strip: Strip, a: nat, v: string, r: nat, n: nat)
    requires Sound(c, l) && At(strip, a, PlusCode(c)) && Runs(strip, a, v, r, n) && !(a <= r < a + |PlusCode(c)|)
    ensures Follows(strip, a + |PlusCode(c)|, Repeat(l, 1, INFINITY), v, r, n)
    decreases n
  {
    hide Runs, At, Sound, Repeat, Cat;
    AtPlus(strip, a, c);
    var e := a + |c| + 1;
    var q, w := FirstMove(strip, a, v, r, n);
    UseSound(c, l, strip, a + 1, v, r, n - 1);
    var i: nat, m: nat :| i <= |v| && v[..i] in l && m <= n - 1 && Runs(strip, e, v[i..], r, m);
    var q', w' := FirstMove(strip, e, v[i..], r, m);
    RepeatPeel(l, 1, INFINITY);
    RepeatOptional(l, INFINITY);
    if q' == a {
      PlusSound(c, l, strip, a, v[i..], r, m - 1);
      FollowsMono(strip, e + 1, Repeat(l, 1, INFINITY), Repeat(l, 0, INFINITY), v[i..], r, m - 1, m);
    } else {
      FollowsNow(strip, e + 1, Repeat(l, 0, INFINITY), v[i..], r, m - 1);
      FollowsMono(strip, e + 1, Repeat(l, 0, INFINITY), Repeat(l, 0, INFINITY), v[i..], r, m - 1, m);
    }
    FollowsCat(strip, e + 1, l, Repeat(l, 0, INFINITY), v, i, r, m, n);
  }

  lemma {:induction false} PlusComplete(c: Strip, l: Lang, strip: Strip, a: nat, w: string, k: nat)
    requires Complete(c, l) && At(strip, a, PlusCode(c)) && k >= 1 && w in Pow(l, k)
    ensures Reaches(strip, a, w, a + |PlusCode(c)|)
    decreases k
  {
    hide Reaches, At, Complete, Cat;
    AtPlus(strip, a, c);
    var e := a + |c| + 1;
    var i := CatElim(l, Pow(l, k - 1), w);
    UseComplete(c, l, strip, a + 1, w[..i]);
    ReachesFree(strip, a, a + 1);
    ReachesThen(strip, a, "", a + 1, w[..i], e);
    assert "" + w[..i] == w[..i];
    if k == 1 {
      ReachesFree(strip, e, e + 1);
      ReachesThen(strip, a, w[..i], e, "", e + 1);
    } else {
      ReachesFree(strip, e, a);
      ReachesThen(strip, a, w[..i], e, "", a);
      assert w[..i] + "" == w[..i];
      PlusComplete(c, l, strip, a, w[i..], k - 1);
      ReachesThen(strip, a, w[..i], a, w[i..], e + 1);
    }
    assert w[..i] + w[i..] == w;
  }

  lemma ImplementsPlus(c: Strip, l: Lang)
    requires Implements(c, l)
    ensures Implements(PlusCode(c), Repeat(l, 1, INFINITY))
  {
    hide Runs, Reaches, At, Follows, PlusCode, Repeat;
    forall strip: Strip, a: nat, v: string, r: nat, n: nat
      | At(strip, a, PlusCode(c)) && Runs(strip, a, v, r, n) && !(a <= r < a + |PlusCode(c)|)
      ensures Follows(strip, a + |PlusCode(c)|, Repeat(l, 1, INFINITY), v, r, n)
    {
      PlusSound(c, l, strip, a, v, r, n);
    }
    forall strip: Strip, a: nat, w: string | At(strip, a, PlusCode(c)) && w in Repeat(l, 1, INFINITY)
      ensures Reaches(strip, a, w, a + |PlusCode(c)|)
    {
      var k := RepeatElim(l, 1, INFINITY, w);
      PlusComplete(c, l, strip, a, w, k);
    }
  }

  // A bypass.

  function QuestCode(c: Strip): Strip { [OQuest_(|c| + 1)] + c + [O_Quest(|c| + 1)] }

  lemma AtQuest(strip: Strip, a: nat, c: Strip)
    requires At(strip, a, QuestCode(c))
    ensures a + |c| + 1 < |strip| && At(strip, a + 1, c)
    ensures strip[a] == OQuest_(|c| + 1) && strip[a + |c| + 1] == O_Quest(|c| + 1)
  {
    AtParts(strip, a, [OQuest_(|c| + 1)] + c, [O_Quest(|c| + 1)]);
    AtParts(strip, a, [OQuest_(|c| + 1)], c);
    AtOp(strip, a, OQuest_(|c| + 1));
    AtOp(strip, a + |c| + 1, O_Quest(|c| + 1));
  }

  lemma QuestSound(c: Strip, l: Lang, strip: Strip, a: nat, v: string, r: nat, n: nat)
    requires Sound(c, l) && At(strip, a, QuestCode(c)) && Runs(strip, a, v, r, n) && !(a <= r < a + |QuestCode(c)|)
    ensures Follows(strip, a + |QuestCode(c)|, l + Unit(), v, r, n)
  {
    hide Runs, At, Sound;
    AtQuest(strip, a, c);
    var e := a + |c| + 1;
    var q, w := FirstMove(strip, a, v, r, n);
    if q == a + 1 {
      UseSound(c, l, strip, a + 1, v, r, n - 1);
      var i: nat, m: nat :| i <= |v| && v[..i] in l && m <= n - 1 && Runs(strip, e, v[i..], r, m);
      var q', w' := FirstMove(strip, e, v[i..], r, m);
    } else {
      var q', w' := FirstMove(strip, e, v, r, n - 1);
      FollowsNow(strip, e + 1, Unit(), v, r, n - 2);
      FollowsMono(strip, e + 1, Unit(), l + Unit(), v, r, n - 2, n);
    }
  }

  lemma QuestComplete(c: Strip, l: Lang, strip: Strip, a: nat, w: string)
    requires Complete(c, l) && At(strip, a, QuestCode(c)) && w in l + Unit()
    ensures Reaches(strip, a, w, a + |QuestCode(c)|)
  {
    hide Reaches, At, Complete;
    AtQuest(strip, a, c);
    var e := a + |c| + 1;
    ReachesFree(strip, e, e + 1);
    if w in l {
      UseComplete(c, l, strip, a + 1, w);
      ReachesFree(strip, a, a + 1);
      ReachesThen(strip, a, "", a + 1, w, e);
      ReachesThen(strip, a, "" + w, e, "", e + 1);
      assert "" + w + "" == w;
    } else {
      ReachesFree(strip, a, e);
      ReachesThen(strip, a, "", e, "", e + 1);
    }
  }

  lemma ImplementsQuest(c: Strip, l: Lang)
    requires Implements(c, l)
    ensures Implements(QuestCode(c), l + Unit())
  {
    hide Runs, Reaches, At, Follows, QuestCode;
    forall strip: Strip, a: nat, v: string, r: nat, n: nat
      | At(strip, a, QuestCode(c)) && Runs(strip, a, v, r, n) && !(a <= r < a + |QuestCode(c)|)
      ensures Follows(strip, a + |QuestCode(c)|, l + Unit(), v, r, n)
    {
      QuestSound(c, l, strip, a, v, r, n);
    }
    forall strip: Strip, a: nat, w: string | At(strip, a, QuestCode(c)) && w in l + Unit()
      ensures Reaches(strip, a, w, a + |QuestCode(c)|)
    {
      QuestComplete(c, l, strip, a, w);
    }
  }

  // A choice.

  /** The second and later branches of a choice. */
  function TailCode(cs: seq<Strip>): Strip
    requires |cs| >= 1
  {
    if |cs| == 1 then [OOr2(|cs[0]| + 1)] + cs[0] + [O_Ch(|cs[0]| + 2)]
    else [OOr2(|cs[0]| + 2)] + cs[0] + [OOr1(|cs[0]| + 2)] + TailCode(cs[1..])
  }

  function ChoiceCode(cs: seq<Strip>): Strip
    requires |cs| >= 2
  {
    [OCh_(|cs[0]| + 2)] + cs[0] + [OOr1(|cs[0]| + 1)] + TailCode(cs[1..])
  }

  ghost function Union(ls: seq<Lang>): Lang {
    if |ls| == 0 then iset{} else ls[0] + Union(ls[1..])
  }

  ghost predicate AllSound(cs: seq<Strip>, ls: seq<Lang>) {
    |cs| == |ls| && forall i :: 0 <= i < |cs| ==> Sound(cs[i], ls[i])
  }

  ghost predicate AllComplete(cs: seq<Strip>, ls: seq<Lang>) {
    |cs| == |ls| && forall i :: 0 <= i < |cs| ==> Complete(cs[i], ls[i])
  }

  lemma At4(strip: Strip, a: nat, op: Sop, c: Strip, op': Sop, d: Strip)
    requires At(strip, a, [op] + c + [op'] + d)
    ensures a + |c| + 1 < |strip| && strip[a] == op && strip[a + |c| + 1] == op'
    ensures At(strip, a + 1, c) && At(strip, a + |c| + 2, d)
  {
    AtParts(strip, a, [op] + c + [op'], d);
    AtParts(strip, a, [op] + c, [op']);
    AtParts(strip, a, [op], c);
    AtOp(strip, a, op);
    AtOp(strip, a + |c| + 1, op');
  }

  lemma AtTail(strip: Strip, p: nat, cs: seq<Strip>)
    requires |cs| >= 1 && At(strip, p, TailCode(cs))
    ensures var c := cs[0]; var last := |cs| == 1;
      && p + |c| + 1 < |strip| && At(strip, p + 1, c)
      && strip[p] == OOr2(|c| + if last then 1 else 2)
      && strip[p + |c| + 1] == (if last then O_Ch(|c| + 2) else OOr1(|c| + 2))
      && (!last ==> At(strip, p + |c| + 2, TailCode(cs[1..])))
      && |TailCode(cs)| == |c| + 2 + if last then 0 else |TailCode(cs[1..])|
  {
    var c := cs[0];
    if |cs| == 1 {
      assert [OOr2(|c| + 1)] + c + [O_Ch(|c| + 2)] + [] == TailCode(cs);
      At4(strip, p, OOr2(|c| + 1), c, O_Ch(|c| + 2), []);
    } else {
      At4(strip, p, OOr2(|c| + 2), c, OOr1(|c| + 2), TailCode(cs[1..]));
    }
  }

  /** Every chain of OOR2 offsets ends at the O_CH of its choice. */
  lemma {:induction false} ChainFinds(strip: Strip, p: nat, cs: seq<Strip>)
    requires |cs| >= 1 && At(strip, p, TailCode(cs))
    ensures ChainEnd(strip, p) == p + |TailCode(cs)| - 1
    ensures ChainEnd(strip, p) < |strip| && strip[ChainEnd(strip, p)].O_Ch?
    decreases |cs|
  {
    hide At, TailCode;
    AtTail(strip, p, cs);
    if |cs| > 1 { ChainFinds(strip, p + |cs[0]| + 2, cs[1..]); }
  }

  /** Out of a branch that ends at `e`, over the O_CH at `h`, to what follows the choice. */
  lemma LeaveBranch(strip: Strip, e: nat, h: nat, l: Lang, v: string, r: nat, n: nat)
    requires e < |strip| && h < |strip| && strip[h].O_Ch? && r != e && r != h
    requires e == h || (strip[e].OOr1? && ChainEnd(strip, e + 1) == h)
    requires Follows(strip, e, l, v, r, n)
    ensures Follows(strip, h + 1, l, v, r, n)
  {
    hide Runs;
    var i: nat, m: nat :| i <= |v| && v[..i] in l && m <= n && Runs(strip, e, v[i..], r, m);
    var q, w := FirstMove(strip, e, v[i..], r, m);
    if e != h {
      var q', w' := FirstMove(strip, h, w, r, m - 1);
    }
  }

  lemma {:induction false} TailSound(cs: seq<Strip>, ls: seq<Lang>, strip: Strip, p: nat, v: string, r: nat, n: nat)
    requires |cs| >= 1 && AllSound(cs, ls) && At(strip, p, TailCode(cs))
    requires Runs(strip, p, v, r, n) && !(p <= r < p + |TailCode(cs)|)
    ensures Follows(strip, p + |TailCode(cs)|, Union(ls), v, r, n)
    decreases |cs|
  {
    hide Runs, At, Sound, TailCode, Follows;
    AtTail(strip, p, cs);
    ChainFinds(strip, p, cs);
    var h := p + |TailCode(cs)| - 1;
    var e := p + |cs[0]| + 1;
    var q, w := FirstMove(strip, p, v, r, n);
    assert Union(ls) == ls[0] + Union(ls[1..]);
    if q == p + 1 {
      UseSound(cs[0], ls[0], strip, p + 1, v, r, n - 1);
      LeaveBranch(strip, e, h, ls[0], v, r, n - 1);
      FollowsMono(strip, h + 1, ls[0], Union(ls), v, r, n - 1, n);
    } else {
      TailSound(cs[1..], ls[1..], strip, e + 1, v, r, n - 1);
      FollowsMono(strip, h + 1, Union(ls[1..]), Union(ls), v, r, n - 1, n);
    }
  }

  lemma ReachesBranch(strip: Strip, p: nat, e: nat, h: nat, w: string)
    requires Free(strip, p, p + 1) && Reaches(strip, p + 1, w, e)
    requires e < |strip| && h < |strip| && strip[h].O_Ch?
    requires e == h || (strip[e].OOr1? && ChainEnd(strip, e + 1) == h)
    ensures Reaches(strip, p, w, h + 1)
  {
    hide Reaches;
    ReachesFree(strip, p, p + 1);
    ReachesThen(strip, p, "", p + 1, w, e);
    assert "" + w == w && w + "" == w;
    if e != h {
      ReachesFree(strip, e, h);
      ReachesThen(strip, p, w, e, "", h);
    }
    ReachesFree(strip, h, h + 1);
    ReachesThen(strip, p, w, h, "", h + 1);
  }

  lemma {:induction false} TailComplete(cs: seq<Strip>, ls: seq<Lang>, strip: Strip, p: nat, w: string)
    requires |cs| >= 1 && AllComplete(cs, ls) && At(strip, p, TailCode(cs)) && w in Union(ls)
    ensures Reaches(strip, p, w, p + |TailCode(cs)|)
    decreases |cs|
  {
    hide Reaches, At, Complete, TailCode;
    AtTail(strip, p, cs);
    ChainFinds(strip, p, cs);
    var h := p + |TailCode(cs)| - 1;
    var e := p + |cs[0]| + 1;
    if w in ls[0] {
      UseComplete(cs[0], ls[0], strip, p + 1, w);
      ReachesBranch(strip, p, e, h, w);
    } else {
      assert |cs| > 1;
      AtTail(strip, e + 1, cs[1..]);
      TailComplete(cs[1..], ls[1..], strip, e + 1, w);
      ReachesFree(strip, p, e + 1);
      ReachesThen(strip, p, "", e + 1, w, h + 1);
      assert "" + w == w;
    }
  }

  lemma ChoiceSound(cs: seq<Strip>, ls: seq<Lang>, strip: Strip, a: nat, v: string, r: nat, n: nat)
    requires |cs| >= 2 && AllSound(cs, ls) && At(strip, a, ChoiceCode(cs))
    requires Runs(strip, a, v, r, n) && !(a <= r < a + |ChoiceCode(cs)|)
    ensures Follows(strip, a + |ChoiceCode(cs)|, Union(ls), v, r, n)
  {
    hide Runs, At, Sound, TailCode, Follows;
    At4(strip, a, OCh_(|cs[0]| + 2), cs[0], OOr1(|cs[0]| + 1), TailCode(cs[1..]));
    ChainFinds(strip, a + |cs[0]| + 2, cs[1..]);
    var h := a + |ChoiceCode(cs)| - 1;
    var e := a + |cs[0]| + 1;
    var q, w := FirstMove(strip, a, v, r, n);
    assert Union(ls) == ls[0] + Union(ls[1..]);
    if q == a + 1 {
      UseSound(cs[0], ls[0], strip, a + 1, v, r, n - 1);
      LeaveBranch(strip, e, h, ls[0], v, r, n - 1);
      FollowsMono(strip, h + 1, ls[0], Union(ls), v, r, n - 1, n);
    } else {
      TailSound(cs[1..], ls[1..], strip, e + 1, v, r, n - 1);
      FollowsMono(strip, h + 1, Union(ls[1..]), Union(ls), v, r, n - 1, n);
    }
  }

  lemma ChoiceComplete(cs: seq<Strip>, ls: seq<Lang>, strip: Strip, a: nat, w: string)
    requires |cs| >= 2 && AllComplete(cs, ls) && At(strip, a, ChoiceCode(cs)) && w in Union(ls)
    ensures Reaches(strip, a, w, a + |ChoiceCode(cs)|)
  {
    hide Reaches, At, Complete, TailCode;
    At4(strip, a, OCh_(|cs[0]| + 2), cs[0], OOr1(|cs[0]| + 1), TailCode(cs[1..]));
    ChainFinds(strip, a + |cs[0]| + 2, cs[1..]);
    var h := a + |ChoiceCode(cs)| - 1;
    var e := a + |cs[0]| + 1;
    if w in ls[0] {
      UseComplete(cs[0], ls[0], strip, a + 1, w);
      ReachesBranch(strip, a, e, h, w);
    } else {
      TailComplete(cs[1..], ls[1..], strip, e + 1, w);
      ReachesFree(strip, a, e + 1);
      ReachesThen(strip, a, "", e + 1, w, h + 1);
      assert "" + w == w;
    }
  }

  lemma ImplementsChoice(cs: seq<Strip>, ls: seq<Lang>)
    requires |cs| >= 2 && AllSound(cs, ls) && AllComplete(cs, ls)
    ensures Implements(ChoiceCode(cs), Union(ls))
  {
    hide Runs, Reaches, At, Follows, ChoiceCode, Union, AllSound, AllComplete;
    forall strip: Strip, a: nat, v: string, r: nat, n: nat
      | At(strip, a, ChoiceCode(cs)) && Runs(strip, a, v, r, n) && !(a <= r < a + |ChoiceCode(cs)|)
      ensures Follows(strip, a + |ChoiceCode(cs)|, Union(ls), v, r, n)
    {
      ChoiceSound(cs, ls, strip, a, v, r, n);
    }
    forall strip: Strip, a: nat, w: string | At(strip, a, ChoiceCode(cs)) && w in Union(ls)
      ensures Reaches(strip, a, w, a + |ChoiceCode(cs)|)
    {
      ChoiceComplete(cs, ls, strip, a, w);
    }
  }
}
