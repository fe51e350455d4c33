/** The parentheses of a strip: they nest with everything else that comes in pairs, their
    operand is the number of their group, and what they enclose is the code of that group. */
module RegexGroups {
  import opened RegexLanguage
  import opened RegexStrip
  import opened RegexCode
  import opened RegexLexis
  import opened RegexGrammar

  // ----- pairs nest -----

  datatype Pair = Loop | Maybe | Choice | Paren(no: nat)

  /** The pairs still open, the innermost first; or a close that does not fit. */
  datatype Stack = Stack(open: seq<Pair>) | Clash

  function Open(st: Stack, p: Pair): Stack { if st.Clash? then Clash else Stack([p] + st.open) }

  predicate Inside(st: Stack, p: Pair) { st.Stack? && |st.open| > 0 && st.open[0] == p }

  function Close(st: Stack, p: Pair): Stack { if Inside(st, p) then Stack(st.open[1..]) else Clash }

  function Passed(op: Sop, st: Stack): Stack {
    match op
    case OPlus_(_) => Open(st, Loop)
    case O_Plus(_) => Close(st, Loop)
    case OQuest_(_) => Open(st, Maybe)
    case O_Quest(_) => Close(st, Maybe)
    case OCh_(_) => Open(st, Choice)
    case OOr1(_) => if Inside(st, Choice) then st else Clash
    case OOr2(_) => if Inside(st, Choice) then st else Clash
    case O_Ch(_) => Close(st, Choice)
    case OLParen(n) => Open(st, Paren(n))
    case ORParen(n) => Close(st, Paren(n))
    case _ => st
  }

  function Pass(c: Strip, st: Stack): Stack { if c == [] then st else Pass(c[1..], Passed(c[0], st)) }

  lemma {:induction false} PassCat(a: Strip, b: Strip, st: Stack)
    ensures Pass(a + b, st) == Pass(b, Pass(a, st))
  {
    if a == [] {
      assert a + b == b;
    } else {
      assert (a + b)[1..] == a[1..] + b;
      PassCat(a[1..], b, Passed(a[0], st));
    }
  }

  lemma PassOp(op: Sop, st: Stack)
    ensures Pass([op], st) == Passed(op, st)
  {
    assert [op][1..] == [];
  }

  /** Whatever is open before a block is open after it. */
  ghost predicate Balanced(c: Strip) { forall st: Stack :: Pass(c, st) == st }

  lemma BalancedCat(a: Strip, b: Strip)
    requires Balanced(a) && Balanced(b)
    ensures Balanced(a + b)
  {
    hide Pass;
    forall st: Stack ensures Pass(a + b, st) == st { PassCat(a, b, st); }
  }

  lemma BalancedOp(op: Sop)
    requires forall st: Stack :: Passed(op, st) == st
    ensures Balanced([op])
  {
    hide Passed, Pass;
    forall st: Stack ensures Pass([op], st) == st { PassOp(op, st); }
  }

  lemma BalancedPair(op: Sop, c: Strip, op': Sop)
    requires Balanced(c) && forall st: Stack :: Passed(op', Passed(op, st)) == st
    ensures Balanced([op] + c + [op'])
  {
    hide Passed, Pass;
    forall st: Stack ensures Pass([op] + c + [op'], st) == st {
      PassCat([op] + c, [op'], st);
      PassCat([op], c, st);
      PassOp(op, st);
      PassOp(op', Passed(op, st));
    }
  }

  predicate Opens(op: Sop, op': Sop) {
    || (op.OPlus_? && op'.O_Plus?)
    || (op.OQuest_? && op'.O_Quest?)
    || (op.OLParen? && op' == ORParen(op.no))
  }

  lemma PairCloses(op: Sop, op': Sop)
    requires Opens(op, op')
    ensures forall st: Stack :: Passed(op', Passed(op, st)) == st
  {
    forall st: Stack ensures Passed(op', Passed(op, st)) == st {
      var p := if op.OPlus_? then Loop else if op.OQuest_? then Maybe else Paren(op.no);
      if st.Stack? { assert ([p] + st.open)[1..] == st.open; }
    }
  }

  ghost predicate AllBalanced(cs: seq<Strip>) { forall i :: 0 <= i < |cs| ==> Balanced(cs[i]) }

  lemma {:induction false} TailPasses(cs: seq<Strip>, st: Stack)
    requires |cs| >= 1 && AllBalanced(cs)
    ensures Pass(TailCode(cs), Open(st, Choice)) == st
    decreases |cs|
  {
    hide Pass, Passed;
    var c, u := cs[0], Open(st, Choice);
    ChoicePasses(st);
    if |cs| == 1 {
      Passes3(OOr2(|c| + 1), c, O_Ch(|c| + 2), u);
    } else {
      TailPasses(cs[1..], st);
      Passes3(OOr2(|c| + 2), c, OOr1(|c| + 2), u);
      PassCat([OOr2(|c| + 2)] + c + [OOr1(|c| + 2)], TailCode(cs[1..]), u);
    }
  }

  lemma ChoicePasses(st: Stack)
    ensures var u := Open(st, Choice); forall k: nat ::
      && Passed(OOr1(k), u) == u && Passed(OOr2(k), u) == u && Passed(O_Ch(k), u) == st && Passed(OCh_(k), st) == u
  {
    if st.Stack? { assert ([Choice] + st.open)[1..] == st.open; }
  }

  lemma Passes3(op: Sop, c: Strip, op': Sop, st: Stack)
    requires Balanced(c)
    ensures Pass([op] + c + [op'], st) == Passed(op', Passed(op, st))
  {
    hide Passed, Pass;
    PassCat([op] + c, [op'], st);
    PassCat([op], c, st);
    PassOp(op, st);
    PassOp(op', Passed(op, st));
  }

  lemma ChoiceBalanced(cs: seq<Strip>)
    requires |cs| >= 2 && AllBalanced(cs)
    ensures Balanced(ChoiceCode(cs))
  {
    hide Pass, Passed, TailCode;
    var c := cs[0];
    forall st: Stack ensures Pass(ChoiceCode(cs), st) == st {
      ChoicePasses(st);
      TailPasses(cs[1..], st);
      Passes3(OCh_(|c| + 2), c, OOr1(|c| + 1), st);
      PassCat([OCh_(|c| + 2)] + c + [OOr1(|c| + 1)], TailCode(cs[1..]), st);
    }
  }

  lemma NoneBalanced()
    ensures Balanced([])
  {
  }

  lemma OptBalanced(c: Strip)
    requires Balanced(c)
    ensures Balanced(OptCode(c))
  {
    NoneBalanced();
    hide Balanced;
    ChoiceBalanced([c, []]);
  }

  lemma PlusBalanced(c: Strip)
    requires Balanced(c)
    ensures Balanced(PlusCode(c)) && Balanced(QuestCode(c))
  {
    PairCloses(OPlus_(|c| + 1), O_Plus(|c| + 1));
    PairCloses(OQuest_(|c| + 1), O_Quest(|c| + 1));
    hide Balanced, Passed;
    BalancedPair(OPlus_(|c| + 1), c, O_Plus(|c| + 1));
    BalancedPair(OQuest_(|c| + 1), c, O_Quest(|c| + 1));
  }

  lemma {:induction false} RepBalanced(c: Strip, lo: nat, hi: nat)
    requires Balanced(c) && Bounds(lo, hi)
    ensures Balanced(RepCode(c, lo, hi))
    decreases lo + hi + if lo == 0 then 2 else 0
  {
    NoneBalanced();
    hide Balanced, OptCode, PlusCode;
    if hi == 0 {
    } else if lo == 0 {
      RepBalanced(c, 1, hi);
      OptBalanced(RepCode(c, 1, hi));
    } else if lo == 1 && hi == 1 {
    } else if lo == 1 && hi < INFINITY {
      OptBalanced(c);
      RepBalanced(c, 1, hi - 1);
      BalancedCat(OptCode(c), RepCode(c, 1, hi - 1));
    } else if lo == 1 {
      PlusBalanced(c);
    } else {
      RepBalanced(c, lo - 1, if hi == INFINITY then hi else hi - 1);
      BalancedCat(c, RepCode(c, lo - 1, if hi == INFINITY then hi else hi - 1));
    }
  }

  // ----- what the parentheses enclose -----

  /** The groups of an expression, at every depth. */
  ghost function AltsGroups(x: Alts): set<Atom> { BranchGroups(x.b) + if x.Or? then AltsGroups(x.rest) else {} }

  ghost function BranchGroups(b: Branch): set<Atom> {
    if b.Snoc? then BranchGroups(b.init) + AtomGroups(b.last.a) else {}
  }

  ghost function AtomGroups(a: Atom): set<Atom> {
    match a
    case EmptyGroup(_) => {a}
    case Group(_, x) => {a} + AltsGroups(x)
    case _ => {}
  }

  ghost predicate GroupAt(c: Strip, i: nat, g: Atom) {
    && (g.Group? || g.EmptyGroup?) && WfAtom(g) && At(c, i, AtomCode(g)) && c[i] == OLParen(g.no)
  }

  /** Every opening parenthesis is where one of the groups begins. */
  ghost predicate Encloses(c: Strip, gs: set<Atom>) {
    forall i: nat :: i < |c| && c[i].OLParen? ==> exists g :: g in gs && GroupAt(c, i, g)
  }

  lemma EnclosesCat(a: Strip, b: Strip, gs: set<Atom>)
    requires Encloses(a, gs) && Encloses(b, gs)
    ensures Encloses(a + b, gs)
  {
    hide AtomCode;
    var c := a + b;
    forall i: nat | i < |c| && c[i].OLParen? ensures exists g :: g in gs && GroupAt(c, i, g) {
      if i < |a| {
        var g :| g in gs && GroupAt(a, i, g);
        AtFront(a, b, i, AtomCode(g));
        assert GroupAt(c, i, g);
      } else {
        var g :| g in gs && GroupAt(b, i - |a|, g);
        AtBack(a, b, i - |a|, AtomCode(g));
        assert GroupAt(c, i, g);
      }
    }
  }

  lemma AtFront(a: Strip, b: Strip, i: nat, c: Strip)
    requires At(a, i, c)
    ensures At(a + b, i, c)
  {
    assert (a + b)[i..i + |c|] == a[i..i + |c|];
  }

  lemma AtBack(a: Strip, b: Strip, i: nat, c: Strip)
    requires At(b, i, c)
    ensures At(a + b, |a| + i, c)
  {
    assert (a + b)[|a| + i..|a| + i + |c|] == b[i..i + |c|];
  }

  lemma EnclosesNone(gs: set<Atom>)
    ensures Encloses([], gs)
  {
  }

  lemma EnclosesPair(op: Sop, c: Strip, op': Sop, gs: set<Atom>)
    requires Encloses(c, gs) && !op.OLParen? && !op'.OLParen?
    ensures Encloses([op] + c + [op'], gs)
  {
    assert Encloses([op], gs) && Encloses([op'], gs);
    hide Encloses;
    EnclosesCat([op], c, gs);
    EnclosesCat([op] + c, [op'], gs);
  }

  ghost predicate AllEnclose(cs: seq<Strip>, gs: set<Atom>) { forall i :: 0 <= i < |cs| ==> Encloses(cs[i], gs) }

  lemma {:induction false} TailEncloses(cs: seq<Strip>, gs: set<Atom>)
    requires |cs| >= 1 && AllEnclose(cs, gs)
    ensures Encloses(TailCode(cs), gs)
    decreases |cs|
  {
    hide Encloses;
    var c := cs[0];
    if |cs| == 1 {
      EnclosesPair(OOr2(|c| + 1), c, O_Ch(|c| + 2), gs);
    } else {
      TailEncloses(cs[1..], gs);
      EnclosesPair(OOr2(|c| + 2), c, OOr1(|c| + 2), gs);
      EnclosesCat([OOr2(|c| + 2)] + c + [OOr1(|c| + 2)], TailCode(cs[1..]), gs);
    }
  }

  lemma ChoiceEncloses(cs: seq<Strip>, gs: set<Atom>)
    requires |cs| >= 2 && AllEnclose(cs, gs)
    ensures Encloses(ChoiceCode(cs), gs)
  {
    hide Encloses, TailCode;
    var c := cs[0];
    TailEncloses(cs[1..], gs);
    EnclosesPair(OCh_(|c| + 2), c, OOr1(|c| + 1), gs);
    EnclosesCat([OCh_(|c| + 2)] + c + [OOr1(|c| + 1)], TailCode(cs[1..]), gs);
  }

  lemma OptEncloses(c: Strip, gs: set<Atom>)
    requires Encloses(c, gs)
    ensures Encloses(OptCode(c), gs)
  {
    EnclosesNone(gs);
    hide Encloses;
    ChoiceEncloses([c, []], gs);
  }

  lemma {:induction false} RepEncloses(c: Strip, lo: nat, hi: nat, gs: set<Atom>)
    requires Encloses(c, gs) && Bounds(lo, hi)
    ensures Encloses(RepCode(c, lo, hi), gs)
    decreases lo + hi + if lo == 0 then 2 else 0
  {
    EnclosesNone(gs);
    hide Encloses, OptCode;
    if hi == 0 {
    } else if lo == 0 {
      RepEncloses(c, 1, hi, gs);
      OptEncloses(RepCode(c, 1, hi), gs);
    } else if lo == 1 && hi == 1 {
    } else if lo == 1 && hi < INFINITY {
      OptEncloses(c, gs);
      RepEncloses(c, 1, hi - 1, gs);
      EnclosesCat(OptCode(c), RepCode(c, 1, hi - 1), gs);
    } else if lo == 1 {
      EnclosesPair(OPlus_(|c| + 1), c, O_Plus(|c| + 1), gs);
    } else {
      RepEncloses(c, lo - 1, if hi == INFINITY then hi else hi - 1, gs);
      EnclosesCat(c, RepCode(c, lo - 1, if hi == INFINITY then hi else hi - 1), gs);
    }
  }

  lemma GroupEncloses(g: Atom, c: Strip, gs: set<Atom>)
    requires (g.Group? || g.EmptyGroup?) && WfAtom(g) && g in gs
    requires AtomCode(g) == [OLParen(g.no)] + c + [ORParen(g.no)] && Encloses(c, gs)
    ensures Encloses(AtomCode(g), gs)
  {
    var s := AtomCode(g);
    hide AtomCode;
    assert s[0..0 + |s|] == s;
    assert GroupAt(s, 0, g);
    assert Encloses([ORParen(g.no)], gs);
    EnclosesCat(c, [ORParen(g.no)], gs);
    forall i: nat | i < |s| && s[i].OLParen? ensures exists h :: h in gs && GroupAt(s, i, h) {
      if i > 0 {
        var t := c + [ORParen(g.no)];
        assert s == [OLParen(g.no)] + t;
        assert t[i - 1] == s[i];
        var h :| h in gs && GroupAt(t, i - 1, h);
        AtBack([OLParen(g.no)], t, i - 1, AtomCode(h));
        assert GroupAt(s, i, h);
      }
    }
  }

  // ----- expressions -----

  /** Pairs nest, and every parenthesis is that of a group. */
  ghost predicate Grouped(c: Strip, gs: set<Atom>) { Balanced(c) && Encloses(c, gs) }

  lemma {:induction false} AltsGrouped(x: Alts, gs: set<Atom>)
    requires WfAlts(x) && AltsGroups(x) <= gs
    ensures Grouped(AltsCode(x), gs)
    decreases x, 1
  {
    hide Balanced, Encloses, ChoiceCode;
    BranchesGrouped(x, gs);
    if x.Or? {
      ChoiceBalanced(Codes(x));
      ChoiceEncloses(Codes(x), gs);
    } else {
      assert Codes(x)[0] == BranchCode(x.b);
    }
  }

  lemma {:induction false} BranchesGrouped(x: Alts, gs: set<Atom>)
    requires WfAlts(x) && AltsGroups(x) <= gs
    ensures AllBalanced(Codes(x)) && AllEnclose(Codes(x), gs)
    decreases x, 0
  {
    hide Balanced, Encloses;
    BranchGrouped(x.b, gs);
    if x.Or? { BranchesGrouped(x.rest, gs); }
  }

  lemma {:induction false} BranchGrouped(x: Branch, gs: set<Atom>)
    requires WfBranch(x) && BranchGroups(x) <= gs
    ensures Grouped(BranchCode(x), gs)
  {
    NoneBalanced();
    EnclosesNone(gs);
    hide Balanced, Encloses, ExpCode;
    if x.Snoc? {
      BranchGrouped(x.init, gs);
      ExpGrouped(x.last, gs);
      BalancedCat(BranchCode(x.init), ExpCode(x.last));
      EnclosesCat(BranchCode(x.init), ExpCode(x.last), gs);
    }
  }

  lemma {:induction false} ExpGrouped(x: Exp, gs: set<Atom>)
    requires WfExp(x) && AtomGroups(x.a) <= gs
    ensures Grouped(ExpCode(x), gs)
  {
    hide Balanced, Encloses, AtomCode, RepCode;
    AtomGrouped(x.a, gs);
    var c := AtomCode(x.a);
    match x
    case Plain(_) =>
    case Star(_) =>
      PlusBalanced(c);
      PlusBalanced(PlusCode(c));
      EnclosesPair(OPlus_(|c| + 1), c, O_Plus(|c| + 1), gs);
      var p := PlusCode(c);
      EnclosesPair(OQuest_(|p| + 1), p, O_Quest(|p| + 1), gs);
    case Rep(_, lo, hi) =>
      RepBalanced(c, lo, hi);
      RepEncloses(c, lo, hi, gs);
  }

  lemma {:induction false} AtomGrouped(x: Atom, gs: set<Atom>)
    requires WfAtom(x) && AtomGroups(x) <= gs
    ensures Grouped(AtomCode(x), gs)
  {
    NoneBalanced();
    EnclosesNone(gs);
    hide Balanced, AltsCode, Pass;
    if x.Group? || x.EmptyGroup? {
      hide Encloses;
      PairCloses(OLParen(x.no), ORParen(x.no));
      if x.Group? { AltsGrouped(x.alts, gs); }
      var c := if x.Group? then AltsCode(x.alts) else [];
      BalancedPair(OLParen(x.no), c, ORParen(x.no));
      GroupEncloses(x, c, gs);
    } else {
      BalancedOp(AtomCode(x)[0]);
    }
  }

  // ----- the groups are numbered from 1 in the order of their opening parentheses -----

  ghost function AltsNumbers(x: Alts): seq<nat> { BranchNumbers(x.b) + if x.Or? then AltsNumbers(x.rest) else [] }

  ghost function BranchNumbers(b: Branch): seq<nat> {
    if b.Snoc? then BranchNumbers(b.init) + AtomNumbers(b.last.a) else []
  }

  ghost function AtomNumbers(a: Atom): seq<nat> {
    match a
    case EmptyGroup(n) => [n]
    case Group(n, x) => [n] + AltsNumbers(x)
    case _ => []
  }

  /** n + 1, …, m */
  ghost predicate Counts(ns: seq<nat>, n: nat, m: nat) {
    m == n + |ns| && forall i :: 0 <= i < |ns| ==> ns[i] == n + 1 + i
  }

  lemma {:induction false} AltsNumbered(x: Alts, s: string, i: nat, j: nat, inGroup: bool, n: nat, m: nat)
    requires AltsSpelled(x, s, i, j, inGroup, n, m)
    ensures Counts(AltsNumbers(x), n, m)
    decreases x
  {
    hide BranchSpelled;
    match x
    case One(b) => BranchNumbered(b, s, i, j, n, m);
    case Or(b, rest) =>
      var k: nat, l: nat :| BranchSpelled(b, s, i, k, n, l) && k < |s| && s[k] == '|'
                            && AltsSpelled(rest, s, k + 1, j, inGroup, l, m);
      BranchNumbered(b, s, i, k, n, l);
      AltsNumbered(rest, s, k + 1, j, inGroup, l, m);
  }

  lemma {:induction false} BranchNumbered(x: Branch, s: string, i: nat, j: nat, n: nat, m: nat)
    requires BranchSpelled(x, s, i, j, n, m)
    ensures Counts(BranchNumbers(x), n, m)
    decreases x
  {
    hide AtomSpelled, SuffixSpelled;
    if x.Snoc? {
      var k: nat, l: nat :| BranchSpelled(x.init, s, i, k, n, l) && ExpSpelled(x.last, s, k, j, l, m);
      BranchNumbered(x.init, s, i, k, n, l);
      var e: nat :| AtomSpelled(x.last.a, s, k, e, l, m) && SuffixSpelled(x.last, s, e, j);
      AtomNumbered(x.last.a, s, k, e, l, m);
    }
  }

  lemma {:induction false} AtomNumbered(x: Atom, s: string, i: nat, j: nat, n: nat, m: nat)
    requires AtomSpelled(x, s, i, j, n, m)
    ensures Counts(AtomNumbers(x), n, m)
    decreases x
  {
    hide AltsSpelled, BracketSpelled;
    if x.Group? { AltsNumbered(x.alts, s, i + 1, j - 1, true, n + 1, m); }
  }

  /** In the program for a pattern the pairs nest, every parenthesis opens the code of the
      group whose number it holds, and the groups are numbered from 1 in order. */
  lemma CompiledGroups(x: Alts, pattern: string, nsub: nat)
    requires WfAlts(x) && AltsSpelled(x, pattern, 0, |pattern|, false, 0, nsub)
    ensures Pass(Compiled(x), Stack([])) == Stack([])
    ensures Encloses(Compiled(x), AltsGroups(x))
    ensures Counts(AltsNumbers(x), 0, nsub)
  {
    BalancedOp(OEnd);
    hide AltsCode, Encloses, Pass, AltsSpelled;
    AltsGrouped(x, AltsGroups(x));
    AltsNumbered(x, pattern, 0, |pattern|, false, 0, nsub);
    EnclosesPair(OEnd, AltsCode(x), OEnd, AltsGroups(x));
    BalancedCat([OEnd], AltsCode(x));
    BalancedCat([OEnd] + AltsCode(x), [OEnd]);
  }
}
