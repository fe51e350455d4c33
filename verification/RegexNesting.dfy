/** pluscount: how deep the loops of a strip nest. */
module RegexNesting {
  import opened Arithmetic
  import opened RegexLanguage
  import opened RegexStrip
  import opened RegexCode
  import opened RegexMust

  // ----- loop depth of an expression -----

  function AltsDepth(x: Alts): nat {
    match x
    case One(b) => BranchDepth(b)
    case Or(b, rest) => Max(BranchDepth(b), AltsDepth(rest))
  }

  function BranchDepth(x: Branch): nat {
    match x
    case Empty => 0
    case Snoc(init, last) => Max(BranchDepth(init), ExpDepth(last))
  }

  function ExpDepth(x: Exp): nat {
    match x
    case Plain(a) => AtomDepth(a)
    case Star(a) => AtomDepth(a) + 1
    case Rep(a, _, hi) => if hi == 0 then 0 else if hi == INFINITY then AtomDepth(a) + 1 else AtomDepth(a)
  }

  function AtomDepth(x: Atom): nat { if x.Group? then AltsDepth(x.alts) else 0 }

  // ----- the count -----

  datatype Count = Count(nest: int, max: int)

  function Counted(op: Sop, n: Count): Count {
    match op
    case OPlus_(_) => n.(nest := n.nest + 1)
    case O_Plus(_) => Count(n.nest - 1, if n.nest > n.max then n.nest else n.max)
    case _ => n
  }

  /** The count from `p` on, up to the first end marker. */
  function CountFrom(strip: Strip, p: nat, n: Count): Count
    requires p <= |strip|
    decreases |strip| - p
  {
    if p == |strip| || strip[p].OEnd? then n else CountFrom(strip, p + 1, Counted(strip[p], n))
  }

  method PlusCount(strip: Strip) returns (n: Count)
    requires Finished(strip)
    ensures n == CountFrom(strip, 1, Count(0, 0))
  {
    n := Count(0, 0);
    var scan := 1;
    while !strip[scan].OEnd?
      invariant 1 <= scan < |strip| && CountFrom(strip, 1, Count(0, 0)) == CountFrom(strip, scan, n)
      decreases |strip| - scan
    {
      n := Counted(strip[scan], n);
      scan := scan + 1;
    }
  }

  /** Going over a block of depth `d`. */
  function Over(n: Count, d: nat): Count {
    if d > 0 && n.nest + d > n.max then n.(max := n.nest + d) else n
  }

  ghost predicate Nests(c: Strip, d: nat) {
    forall strip: Strip, a: nat, n: Count {:trigger At(strip, a, c), CountFrom(strip, a, n)} ::
      At(strip, a, c) ==> CountFrom(strip, a, n) == CountFrom(strip, a + |c|, Over(n, d))
  }

  lemma UseNests(c: Strip, d: nat, strip: Strip, a: nat, n: Count)
    requires Nests(c, d) && At(strip, a, c)
    ensures CountFrom(strip, a, n) == CountFrom(strip, a + |c|, Over(n, d))
  {
  }

  lemma CountOne(strip: Strip, p: nat, n: Count)
    requires p < |strip| && !strip[p].OEnd?
    ensures CountFrom(strip, p, n) == CountFrom(strip, p + 1, Counted(strip[p], n))
  {
  }

  lemma NestsOp(op: Sop)
    requires !op.OEnd? && !op.OPlus_? && !op.O_Plus?
    ensures Nests([op], 0)
  {
    forall strip: Strip, a: nat, n: Count | At(strip, a, [op])
      ensures CountFrom(strip, a, n) == CountFrom(strip, a + 1, n)
    {
      AtOp(strip, a, op);
    }
  }

  lemma NestsEmpty()
    ensures Nests([], 0)
  {
  }

  lemma NestsCat(c: Strip, d: nat, c': Strip, d': nat)
    requires Nests(c, d) && Nests(c', d')
    ensures Nests(c + c', Max(d, d'))
  {
    hide CountFrom;
    forall strip: Strip, a: nat, n: Count | At(strip, a, c + c')
      ensures CountFrom(strip, a, n) == CountFrom(strip, a + |c + c'|, Over(n, Max(d, d')))
    {
      AtParts(strip, a, c, c');
      UseNests(c, d, strip, a, n);
      UseNests(c', d', strip, a + |c|, Over(n, d));
    }
  }

  lemma NestsPlus(c: Strip, d: nat)
    requires Nests(c, d)
    ensures Nests(PlusCode(c), d + 1)
  {
    hide CountFrom;
    forall strip: Strip, a: nat, n: Count | At(strip, a, PlusCode(c))
      ensures CountFrom(strip, a, n) == CountFrom(strip, a + |PlusCode(c)|, Over(n, d + 1))
    {
      AtPlus(strip, a, c);
      var n1 := n.(nest := n.nest + 1);
      CountOne(strip, a, n);
      UseNests(c, d, strip, a + 1, n1);
      CountOne(strip, a + 1 + |c|, Over(n1, d));
    }
  }

  lemma NestsWrap(op: Sop, c: Strip, d: nat, op': Sop)
    requires Nests(c, d)
    requires !op.OEnd? && !op.OPlus_? && !op.O_Plus? && !op'.OEnd? && !op'.OPlus_? && !op'.O_Plus?
    ensures Nests([op] + c + [op'], d)
  {
    hide Nests;
    NestsOp(op);
    NestsOp(op');
    NestsCat([op], 0, c, d);
    NestsCat([op] + c, d, [op'], 0);
  }

  // ----- choices -----

  ghost predicate AllNest(cs: seq<Strip>, ds: seq<nat>) {
    |cs| == |ds| && forall i :: 0 <= i < |cs| ==> Nests(cs[i], ds[i])
  }

  function Maximum(ds: seq<nat>): nat { if |ds| == 0 then 0 else Max(ds[0], Maximum(ds[1..])) }

  lemma {:induction false} NestsTail(cs: seq<Strip>, ds: seq<nat>)
    requires |cs| >= 1 && AllNest(cs, ds)
    ensures Nests(TailCode(cs), Maximum(ds))
    decreases |cs|
  {
    hide Nests;
    var c := cs[0];
    if |cs| == 1 {
      NestsWrap(OOr2(|c| + 1), c, ds[0], O_Ch(|c| + 2));
      assert Maximum(ds[1..]) == 0;
    } else {
      NestsWrap(OOr2(|c| + 2), c, ds[0], OOr1(|c| + 2));
      NestsTail(cs[1..], ds[1..]);
      NestsCat([OOr2(|c| + 2)] + c + [OOr1(|c| + 2)], ds[0], TailCode(cs[1..]), Maximum(ds[1..]));
    }
  }

  lemma NestsChoice(cs: seq<Strip>, ds: seq<nat>)
    requires |cs| >= 2 && AllNest(cs, ds)
    ensures Nests(ChoiceCode(cs), Maximum(ds))
  {
    hide Nests, TailCode;
    var c := cs[0];
    NestsWrap(OCh_(|c| + 2), c, ds[0], OOr1(|c| + 1));
    NestsTail(cs[1..], ds[1..]);
    NestsCat([OCh_(|c| + 2)] + c + [OOr1(|c| + 1)], ds[0], TailCode(cs[1..]), Maximum(ds[1..]));
  }

  lemma NestsOpt(c: Strip, d: nat)
    requires Nests(c, d)
    ensures Nests(OptCode(c), d)
  {
    hide Nests, ChoiceCode;
    NestsEmpty();
    NestsChoice([c, []], [d, 0]);
    assert [d, 0][1..] == [0] && [0][1..] == [];
  }

  // ----- every expression -----

  lemma {:induction false} RepNests(c: Strip, d: nat, lo: nat, hi: nat)
    requires Nests(c, d) && Bounds(lo, hi)
    ensures Nests(RepCode(c, lo, hi), if hi == 0 then 0 else if hi == INFINITY then d + 1 else d)
    decreases lo + hi + if lo == 0 then 2 else 0
  {
    hide Nests, OptCode, PlusCode;
    if hi == 0 {
      NestsEmpty();
    } else if lo == 0 {
      RepNests(c, d, 1, hi);
      NestsOpt(RepCode(c, 1, hi), if hi == INFINITY then d + 1 else d);
    } else if lo == 1 && hi == 1 {
    } else if lo == 1 && hi < INFINITY {
      NestsOpt(c, d);
      RepNests(c, d, 1, hi - 1);
      NestsCat(OptCode(c), d, RepCode(c, 1, hi - 1), d);
    } else if lo == 1 {
      NestsPlus(c, d);
    } else {
      var hi' := if hi == INFINITY then hi else hi - 1;
      RepNests(c, d, lo - 1, hi');
      NestsCat(c, d, RepCode(c, lo - 1, hi'), if hi == INFINITY then d + 1 else d);
    }
  }

  ghost function Depths(x: Alts): (ds: seq<nat>)
    ensures |ds| >= 1 && Maximum(ds) == AltsDepth(x)
  {
    match x
    case One(b) => assert [BranchDepth(b)][1..] == []; [BranchDepth(b)]
    case Or(b, rest) => assert ([BranchDepth(b)] + Depths(rest))[1..] == Depths(rest); [BranchDepth(b)] + Depths(rest)
  }

  lemma {:induction false} AltsNest(x: Alts)
    requires WfAlts(x)
    ensures Nests(AltsCode(x), AltsDepth(x))
    decreases x, 1
  {
    hide Nests, Maximum, ChoiceCode;
    match x
    case One(b) => BranchNests(b);
    case Or(_, _) =>
      BranchesNest(x);
      NestsChoice(Codes(x), Depths(x));
  }

  lemma {:induction false} BranchesNest(x: Alts)
    requires WfAlts(x)
    ensures AllNest(Codes(x), Depths(x))
    decreases x, 0
  {
    hide Nests, Maximum;
    BranchNests(x.b);
    if x.Or? { BranchesNest(x.rest); }
  }

  lemma {:induction false} BranchNests(x: Branch)
    requires WfBranch(x)
    ensures Nests(BranchCode(x), BranchDepth(x))
  {
    hide Nests;
    match x
    case Empty => NestsEmpty();
    case Snoc(init, last) =>
      BranchNests(init);
      ExpNests(last);
      NestsCat(BranchCode(init), BranchDepth(init), ExpCode(last), ExpDepth(last));
  }

  lemma {:induction false} ExpNests(x: Exp)
    requires WfExp(x)
    ensures Nests(ExpCode(x), ExpDepth(x))
  {
    hide Nests, RepCode, PlusCode;
    AtomNests(x.a);
    match x
    case Plain(a) =>
    case Star(a) =>
      var p := PlusCode(AtomCode(a));
      NestsPlus(AtomCode(a), AtomDepth(a));
      NestsWrap(OQuest_(|p| + 1), p, AtomDepth(a) + 1, O_Quest(|p| + 1));
    case Rep(a, lo, hi) => RepNests(AtomCode(a), AtomDepth(a), lo, hi);
  }

  lemma {:induction false} AtomNests(x: Atom)
    requires WfAtom(x)
    ensures Nests(AtomCode(x), AtomDepth(x))
  {
    hide Nests;
    match x
    case Chr(c) => NestsOp(OChar(c));
    case Any => NestsOp(OAny);
    case Set(s) => SetNests(s);
    case EmptyGroup(no) =>
      NestsEmpty();
      NestsWrap(OLParen(no), [], 0, ORParen(no));
    case Group(no, alts) =>
      AltsNest(alts);
      NestsWrap(OLParen(no), AltsCode(alts), AltsDepth(alts), ORParen(no));
  }

  lemma SetNests(s: set<char>)
    ensures Nests(SetCode(s), 0)
  {
    hide Nests;
    if |s| == 1 {
      var c :| c in s && SetCode(s) == [OChar(c)];
      NestsOp(OChar(c));
    } else {
      NestsOp(OAnyOf(s));
    }
  }

  /** Every loop that is opened is closed, and the count is the loop depth of the expression. */
  lemma CountsDepth(x: Alts)
    requires WfAlts(x)
    ensures CountFrom(Compiled(x), 1, Count(0, 0)) == Count(0, AltsDepth(x))
  {
    hide AltsCode, AltsDepth, Nests;
    AltsNest(x);
    CompiledAt(x);
    UseNests(AltsCode(x), AltsDepth(x), Compiled(x), 1, Count(0, 0));
  }
}
