/** The strip each expression compiles to, and that it means the same. */
module RegexCode {
  import opened RegexLanguage
  import opened RegexStrip

  /** Bounds repeat() may be called with. */
  predicate Bounds(lo: nat, hi: nat) { lo <= hi <= INFINITY && lo < INFINITY }

  /** x? is compiled as (x|). */
  function OptCode(c: Strip): Strip { ChoiceCode([c, []]) }

  /** The strip repeat() turns an operand into. */
  function RepCode(c: Strip, lo: nat, hi: nat): Strip
    requires Bounds(lo, hi)
    decreases lo + hi + if lo == 0 then 2 else 0
  {
    if hi == 0 then []
    else if lo == 0 then OptCode(RepCode(c, 1, hi))
    else if lo == 1 && hi == 1 then c
    else if lo == 1 && hi < INFINITY then OptCode(c) + RepCode(c, 1, hi - 1)
    else if lo == 1 then PlusCode(c)
    else c + RepCode(c, lo - 1, if hi == INFINITY then hi else hi - 1)
  }

  predicate WfAlts(x: Alts) {
    match x
    case One(b) => WfBranch(b)
    case Or(b, rest) => WfBranch(b) && WfAlts(rest)
  }

  predicate WfBranch(x: Branch) { x.Snoc? ==> WfBranch(x.init) && WfExp(x.last) }

  predicate WfExp(x: Exp) { WfAtom(x.a) && (x.Rep? ==> Bounds(x.lo, x.hi)) }

  predicate WfAtom(x: Atom) { x.Group? ==> WfAlts(x.alts) }

  /** The strips of the branches, in order. */
  ghost function Codes(x: Alts): (cs: seq<Strip>)
    requires WfAlts(x)
    ensures |cs| >= if x.One? then 1 else 2
    decreases x, 0
  {
    match x
    case One(b) => [BranchCode(b)]
    case Or(b, rest) => [BranchCode(b)] + Codes(rest)
  }

  ghost function AltsCode(x: Alts): Strip
    requires WfAlts(x)
    decreases x, 1
  {
    if x.One? then BranchCode(x.b) else ChoiceCode(Codes(x))
  }

  ghost function BranchCode(x: Branch): Strip
    requires WfBranch(x)
  {
    match x
    case Empty => []
    case Snoc(init, last) => BranchCode(init) + ExpCode(last)
  }

  ghost function ExpCode(x: Exp): Strip
    requires WfExp(x)
  {
    match x
    case Plain(a) => AtomCode(a)
    case Star(a) => QuestCode(PlusCode(AtomCode(a)))
    case Rep(a, lo, hi) => RepCode(AtomCode(a), lo, hi)
  }

  ghost function AtomCode(x: Atom): Strip
    requires WfAtom(x)
  {
    match x
    case Chr(c) => [OChar(c)]
    case Any => [OAny]
    case Set(s) => SetCode(s)
    case EmptyGroup(no) => [OLParen(no)] + [] + [ORParen(no)]
    case Group(no, alts) => [OLParen(no)] + AltsCode(alts) + [ORParen(no)]
  }

  /** A set of one character is compiled as that character. */
  ghost function SetCode(s: set<char>): Strip {
    if |s| == 1 then
      var c :| c in s;
      [OChar(c)]
    else [OAnyOf(s)]
  }

  // ----- the strip means what the expression means -----

  lemma OptImplements(c: Strip, l: Lang)
    requires Implements(c, l)
    ensures Implements(OptCode(c), l + Unit())
  {
    hide Sound, Complete, ChoiceCode;
    ImplementsEmpty();
    ImplementsChoice([c, []], [l, Unit()]);
    assert Union([l, Unit()]) == l + Unit() by {
      assert [l, Unit()][1..] == [Unit()] && [Unit()][1..] == [];
      assert Union([]) == iset{};
    }
  }

  /** repeat(): the union of the powers from `lo` to `hi`, through every recursive rewrite. */
  lemma {:induction false} RepImplements(c: Strip, l: Lang, lo: nat, hi: nat)
    requires Implements(c, l) && Bounds(lo, hi)
    ensures Implements(RepCode(c, lo, hi), Repeat(l, lo, hi))
    decreases lo + hi + if lo == 0 then 2 else 0
  {
    hide Implements, Repeat, OptCode, PlusCode;
    if hi == 0 {
      RepeatNone(l);
      ImplementsEmpty();
    } else if lo == 0 {
      RepImplements(c, l, 1, hi);
      OptImplements(RepCode(c, 1, hi), Repeat(l, 1, hi));
      RepeatOptional(l, hi);
    } else if lo == 1 && hi == 1 {
      RepeatOnce(l);
    } else if lo == 1 && hi < INFINITY {
      OptImplements(c, l);
      RepImplements(c, l, 1, hi - 1);
      ImplementsCat(OptCode(c), l + Unit(), RepCode(c, 1, hi - 1), Repeat(l, 1, hi - 1));
      RepeatHead(l, hi);
    } else if lo == 1 {
      ImplementsPlus(c, l);
    } else {
      var hi' := if hi == INFINITY then hi else hi - 1;
      RepImplements(c, l, lo - 1, hi');
      ImplementsCat(c, l, RepCode(c, lo - 1, hi'), Repeat(l, lo - 1, hi'));
      RepeatPeel(l, lo, hi);
    }
  }

  lemma StarImplements(c: Strip, l: Lang)
    requires Implements(c, l)
    ensures Implements(QuestCode(PlusCode(c)), Repeat(l, 0, INFINITY))
  {
    hide Implements, Repeat;
    ImplementsPlus(c, l);
    ImplementsQuest(PlusCode(c), Repeat(l, 1, INFINITY));
    RepeatOptional(l, INFINITY);
  }

  lemma SetImplements(s: set<char>)
    ensures Implements(SetCode(s), AtomLang(Set(s)))
  {
    hide Implements;
    if |s| == 1 {
      var c :| c in s && SetCode(s) == [OChar(c)];
      Singleton(s, c);
      ImplementsEater(OChar(c), AtomLang(Set(s)));
    } else {
      ImplementsEater(OAnyOf(s), AtomLang(Set(s)));
    }
  }

  lemma Singleton(s: set<char>, c: char)
    requires |s| == 1 && c in s
    ensures s == {c}
  {
    assert |s - {c}| == 0;
  }

  lemma GroupImplements(no: nat, c: Strip, l: Lang)
    requires Implements(c, l)
    ensures Implements([OLParen(no)] + c + [ORParen(no)], l)
  {
    hide Implements;
    ImplementsMark(OLParen(no));
    ImplementsMark(ORParen(no));
    ImplementsCat([OLParen(no)], Unit(), c, l);
    CatUnit(l);
    ImplementsCat([OLParen(no)] + c, l, [ORParen(no)], Unit());
  }

  ghost function Langs(x: Alts): (ls: seq<Lang>)
    ensures |ls| >= 1
  {
    match x
    case One(b) => [BranchLang(b)]
    case Or(b, rest) => [BranchLang(b)] + Langs(rest)
  }

  lemma {:induction false} LangsUnion(x: Alts)
    ensures Union(Langs(x)) == AltsLang(x)
  {
    match x
    case One(b) => assert [BranchLang(b)][1..] == [] && Union([]) == iset{};
    case Or(b, rest) =>
      LangsUnion(rest);
      assert Langs(x)[1..] == Langs(rest);
  }

  /** The strip of any expression accepts exactly the expression's language. */
  lemma {:induction false} AltsImplements(x: Alts)
    requires WfAlts(x)
    ensures Implements(AltsCode(x), AltsLang(x))
    decreases x, 1
  {
    hide Implements, Union, ChoiceCode, Sound, Complete;
    match x
    case One(b) => BranchImplements(b);
    case Or(_, _) =>
      BranchesImplement(x);
      LangsUnion(x);
      ImplementsChoice(Codes(x), Langs(x));
  }

  lemma {:induction false} BranchesImplement(x: Alts)
    requires WfAlts(x)
    ensures AllSound(Codes(x), Langs(x)) && AllComplete(Codes(x), Langs(x))
    decreases x, 0
  {
    hide Sound, Complete;
    BranchImplements(x.b);
    if x.Or? { BranchesImplement(x.rest); }
  }

  lemma {:induction false} BranchImplements(x: Branch)
    requires WfBranch(x)
    ensures Implements(BranchCode(x), BranchLang(x))
  {
    hide Implements, Cat;
    match x
    case Empty => ImplementsEmpty();
    case Snoc(init, last) =>
      BranchImplements(init);
      ExpImplements(last);
      ImplementsCat(BranchCode(init), BranchLang(init), ExpCode(last), ExpLang(last));
  }

  lemma {:induction false} ExpImplements(x: Exp)
    requires WfExp(x)
    ensures Implements(ExpCode(x), ExpLang(x))
  {
    hide Implements, Repeat, RepCode, QuestCode, PlusCode;
    AtomImplements(x.a);
    match x
    case Plain(a) =>
    case Star(a) => StarImplements(AtomCode(a), AtomLang(a));
    case Rep(a, lo, hi) => RepImplements(AtomCode(a), AtomLang(a), lo, hi);
  }

  lemma {:induction false} AtomImplements(x: Atom)
    requires WfAtom(x)
    ensures Implements(AtomCode(x), AtomLang(x))
  {
    hide Implements;
    match x
    case Chr(c) => ImplementsEater(OChar(c), AtomLang(x));
    case Any => ImplementsEater(OAny, AtomLang(x));
    case Set(s) => SetImplements(s);
    case EmptyGroup(no) =>
      ImplementsEmpty();
      GroupImplements(no, [], Unit());
    case Group(no, alts) =>
      AltsImplements(alts);
      GroupImplements(no, AltsCode(alts), AltsLang(alts));
  }

  /** The finished strip of an expression. */
  ghost function Compiled(x: Alts): Strip
    requires WfAlts(x)
  {
    [OEnd] + AltsCode(x) + [OEnd]
  }

  /** The machine accepts a string exactly if it is in the language of the expression. */
  lemma CompiledAccepts(x: Alts, w: string)
    requires WfAlts(x)
    ensures Accepts(Compiled(x), w) <==> w in AltsLang(x)
  {
    hide AltsCode, AltsLang, Sound, Complete;
    AltsImplements(x);
    BlockAccepts(AltsCode(x), AltsLang(x), w);
  }

  /** Between two end markers, a block accepts exactly the language it implements. */
  lemma BlockAccepts(c: Strip, l: Lang, w: string)
    requires Implements(c, l)
    ensures Accepts([OEnd] + c + [OEnd], w) <==> w in l
  {
    hide Sound, Complete, Runs;
    var strip := [OEnd] + c + [OEnd];
    assert strip[0..0 + |strip|] == strip;
    AtParts(strip, 0, [OEnd] + c, [OEnd]);
    AtParts(strip, 0, [OEnd], c);
    hide At;
    if w in l { UseComplete(c, l, strip, 1, w); }
    if Accepts(strip, w) {
      var n: nat :| Runs(strip, 1, w, |strip| - 1, n);
      UseSound(c, l, strip, 1, w, |strip| - 1, n);
      var i: nat, m: nat :| i <= |w| && w[..i] in l && m <= n && Runs(strip, 1 + |c|, w[i..], |strip| - 1, m);
      StuckAtEnd(strip, w[i..], m);
      assert w[..i] == w;
    }
  }

  lemma StuckAtEnd(strip: Strip, v: string, n: nat)
    requires |strip| > 0 && strip[|strip| - 1] == OEnd && Runs(strip, |strip| - 1, v, |strip| - 1, n)
    ensures v == ""
  {
  }
}
