/** The concrete syntax of extended regular expressions: a relation saying which text spells
    which expression, and the deterministic reading of a text that regcomp() performs. */
module RegexGrammar {
  import opened RegexLanguage
  import RegexStrip
  import opened RegexCode
  import opened RegexLexis

  /** A repetition operator stands at `i`; `{` is one only if a digit follows. */
  predicate RepOpAt(s: string, i: nat) {
    i < |s| && (s[i] == '*' || s[i] == '+' || s[i] == '?' || (s[i] == '{' && DigitAt(s, i + 1)))
  }

  /** A character that stands for itself at `i`. */
  predicate OrdinaryAt(s: string, i: nat) {
    && i < |s|
    && s[i] !in {'(', ')', '^', '$', '|', '*', '+', '?', '.', '[', '\\'}
    && (s[i] == '{' ==> !DigitAt(s, i + 1))
  }

  // ----- regcomp()'s reading -----

  // With `strict`, as regcomp() reads, a branch that emits nothing is an error.

  ghost function ReadAtom(s: string, i: nat, n: nat, strict: bool): (r: Reading<Atom>)
    requires i < |s|
    ensures (r.Read? ==> i < r.next <= |s| && WfAtom(r.v)) && (r.Bad? ==> r.code != 0)
    decreases |s| - i, 0
  {
    var c := s[i];
    if c == '(' then
      if i + 1 == |s| then Bad(REG_EPAREN)
      else if s[i + 1] == ')' then Read(EmptyGroup(n + 1), i + 2, n + 1)
      else
        match ReadAlts(s, i + 1, true, n + 1, strict)
        case Read(x, j, n') => if j < |s| && s[j] == ')' then Read(Group(n + 1, x), j + 1, n') else Bad(REG_EPAREN)
        case Bad(e) => Bad(e)
        case Beyond => Beyond
    else if c == '^' || c == '$' then Beyond
    else if c == '.' then Read(Any, i + 1, n)
    else if c == '[' then
      match ReadBracket(s, i + 1)
      case Read(t, j, _) => Read(Set(t), j, n)
      case Bad(e) => Bad(e)
      case Beyond => Beyond
    else if c == '\\' then if i + 1 < |s| then Read(Chr(s[i + 1]), i + 2, n) else Bad(REG_EESCAPE)
    else if OrdinaryAt(s, i) then Read(Chr(c), i + 1, n)
    else Bad(if c == ')' then REG_EPAREN else if c == '|' then REG_EMPTY else REG_BADRPT)
  }

  /** The repetition operator after an atom, if any. */
  function ReadSuffix(s: string, i: nat, a: Atom, n: nat): (r: Reading<Exp>)
    requires i <= |s| && WfAtom(a)
    ensures (r.Read? ==> i <= r.next <= |s| && WfExp(r.v)) && (r.Bad? ==> r.code != 0)
  {
    if !RepOpAt(s, i) then Read(Plain(a), i, n)
    else if s[i] == '*' then Read(Star(a), i + 1, n)
    else if s[i] == '+' then Read(Rep(a, 1, INFINITY), i + 1, n)
    else if s[i] == '?' then Read(Rep(a, 0, 1), i + 1, n)
    else
      match ReadBounds(s, i + 1)
      case Read(b, j, _) => Read(Rep(a, b.0, b.1), j, n)
      case Bad(e) => Bad(e)
      case Beyond => Beyond
  }

  ghost function ReadExp(s: string, i: nat, n: nat, strict: bool): (r: Reading<Exp>)
    requires i < |s|
    ensures (r.Read? ==> i < r.next <= |s| && WfExp(r.v)) && (r.Bad? ==> r.code != 0)
    decreases |s| - i, 1
  {
    match ReadAtom(s, i, n, strict)
    case Read(a, j, n') =>
      var r := ReadSuffix(s, j, a, n');
      if r.Read? && RepOpAt(s, r.next) then Bad(REG_BADRPT) else r
    case Bad(e) => Bad(e)
    case Beyond => Beyond
  }

  /** A branch goes on until `|`, the end, or the `)` of the enclosing group. */
  predicate BranchEnds(s: string, i: nat, inGroup: bool) {
    i >= |s| || s[i] == '|' || (inGroup && s[i] == ')')
  }

  ghost function ReadBranch(s: string, i: nat, inGroup: bool, n: nat, acc: Branch, strict: bool): (r: Reading<Branch>)
    requires i <= |s| && WfBranch(acc)
    ensures (r.Read? ==> i <= r.next <= |s| && WfBranch(r.v) && BranchEnds(s, r.next, inGroup)) && (r.Bad? ==> r.code != 0)
    decreases |s| - i, 2
  {
    if BranchEnds(s, i, inGroup) then Read(acc, i, n)
    else
      match ReadExp(s, i, n, strict)
      case Read(e, j, n') => ReadBranch(s, j, inGroup, n', Snoc(acc, e), strict)
      case Bad(e) => Bad(e)
      case Beyond => Beyond
  }

  /** The branch emits something. */
  ghost predicate Emits(b: Branch) requires WfBranch(b) { BranchCode(b) != [] }

  ghost function ReadAlts(s: string, i: nat, inGroup: bool, n: nat, strict: bool): (r: Reading<Alts>)
    requires i <= |s|
    ensures (r.Read? ==> i <= r.next <= |s| && WfAlts(r.v)) && (r.Bad? ==> r.code != 0)
    decreases |s| - i, 3
  {
    match ReadBranch(s, i, inGroup, n, Empty, strict)
    case Read(b, j, n') =>
      if strict && !Emits(b) then Bad(REG_EMPTY)
      else if j < |s| && s[j] == '|' then
        match ReadAlts(s, j + 1, inGroup, n', strict)
        case Read(x, k, m) => Read(Or(b, x), k, m)
        case Bad(e) => Bad(e)
        case Beyond => Beyond
      else Read(One(b), j, n')
    case Bad(e) => Bad(e)
    case Beyond => Beyond
  }

  /** One step of ReadAlts, as regcomp() reads: the first branch, and what it leads to. */
  lemma AltsStep(s: string, i: nat, inGroup: bool, n: nat)
    requires i <= |s|
    ensures var r, whole := ReadBranch(s, i, inGroup, n, Empty, true), ReadAlts(s, i, inGroup, n, true);
      && (r.Bad? ==> whole == Bad(r.code)) && (r.Beyond? ==> whole == Beyond)
      && (r.Read? && !Emits(r.v) ==> whole == Bad(REG_EMPTY))
      && (r.Read? && Emits(r.v) && !(r.next < |s| && s[r.next] == '|') ==> whole == Read(One(r.v), r.next, r.nsub))
      && (r.Read? && Emits(r.v) && r.next < |s| && s[r.next] == '|' ==>
            var x := ReadAlts(s, r.next + 1, inGroup, r.nsub, true);
            whole == if x.Read? then Read(Or(r.v, x.v), x.next, x.nsub) else x)
  {
    hide ReadBranch, Emits;
  }

  // ----- the grammar as a relation -----

  ghost predicate SuffixSpelled(x: Exp, s: string, i: nat, j: nat) {
    match x
    case Plain(_) => i == j
    case Star(_) => j == i + 1 <= |s| && s[i] == '*'
    case Rep(_, lo, hi) =>
      || (lo == 1 && hi == INFINITY && j == i + 1 <= |s| && s[i] == '+')
      || (lo == 0 && hi == 1 && j == i + 1 <= |s| && s[i] == '?')
      || (i < |s| && s[i] == '{' && BoundsSpelled(lo, hi, s, i + 1, j))
  }

  /** The text from `i` to `j` spells the atom, given that `n` groups were opened before it
      and `m` after it. */
  ghost predicate AtomSpelled(x: Atom, s: string, i: nat, j: nat, n: nat, m: nat)
    decreases x
  {
    i < j <= |s| &&
    match x
    case Chr(c) =>
      m == n && ((j == i + 1 && OrdinaryAt(s, i) && s[i] == c) || (j == i + 2 && s[i] == '\\' && s[i + 1] == c))
    case Any => m == n && j == i + 1 && s[i] == '.'
    case Set(t) => m == n && s[i] == '[' && BracketSpelled(t, s, i + 1, j)
    case EmptyGroup(no) => no == m == n + 1 && j == i + 2 && s[i] == '(' && s[i + 1] == ')'
    case Group(no, alts) =>
      && no == n + 1 && i + 2 < j && s[i] == '(' && s[i + 1] != ')' && s[j - 1] == ')'
      && AltsSpelled(alts, s, i + 1, j - 1, true, n + 1, m)
  }

  /** An atom, at most one repetition operator, and no second one right after. */
  ghost predicate ExpSpelled(x: Exp, s: string, i: nat, j: nat, n: nat, m: nat)
    decreases x
  {
    j <= |s| && !RepOpAt(s, j) && exists k: nat :: AtomSpelled(x.a, s, i, k, n, m) && SuffixSpelled(x, s, k, j)
  }

  ghost predicate BranchSpelled(x: Branch, s: string, i: nat, j: nat, n: nat, m: nat)
    decreases x
  {
    match x
    case Empty => i == j <= |s| && n == m
    case Snoc(init, last) => exists k: nat, l: nat :: BranchSpelled(init, s, i, k, n, l) && ExpSpelled(last, s, k, j, l, m)
  }

  ghost predicate AltsSpelled(x: Alts, s: string, i: nat, j: nat, inGroup: bool, n: nat, m: nat)
    decreases x
  {
    match x
    case One(b) =>
      && BranchSpelled(b, s, i, j, n, m)
      && j <= |s| && BranchEnds(s, j, inGroup) && !(j < |s| && s[j] == '|')
    case Or(b, rest) =>
      exists k: nat, l: nat :: BranchSpelled(b, s, i, k, n, l) && k < |s| && s[k] == '|'
                               && AltsSpelled(rest, s, k + 1, j, inGroup, l, m)
  }

  /** The whole text spells the expression. */
  ghost predicate Spelled(x: Alts, s: string) {
    exists m :: AltsSpelled(x, s, 0, |s|, false, 0, m)
  }

  // ----- the reading follows the grammar -----

  lemma SuffixReads(s: string, i: nat, a: Atom, n: nat, x: Exp, j: nat)
    requires i <= |s| && WfAtom(a)
    ensures ReadSuffix(s, i, a, n) == Read(x, j, n) && !RepOpAt(s, j) && j <= |s|
       <==> x.a == a && SuffixSpelled(x, s, i, j) && !RepOpAt(s, j) && j <= |s|
  {
    hide BoundsSpelled, ReadBounds;
    if ReadSuffix(s, i, a, n) == Read(x, j, n) && RepOpAt(s, i) && s[i] == '{' {
      BoundsSound(s, i + 1);
    }
    if SuffixSpelled(x, s, i, j) && x.Rep? && i < |s| && s[i] == '{' {
      BoundsComplete(x.lo, x.hi, s, i + 1, j);
    }
  }

  // Soundness: whatever is read is spelled.

  lemma {:induction false} AtomSound(s: string, i: nat, n: nat)
    requires i < |s| && ReadAtom(s, i, n, false).Read?
    ensures var r := ReadAtom(s, i, n, false); AtomSpelled(r.v, s, i, r.next, n, r.nsub)
    decreases |s| - i, 0
  {
    hide ReadBracket, BracketSpelled, ReadAlts, AltsSpelled;
    if s[i] == '[' { BracketReads(s, i + 1, ReadBracket(s, i + 1).v, ReadBracket(s, i + 1).next); }
    if s[i] == '(' && i + 1 < |s| && s[i + 1] != ')' {
      AltsSound(s, i + 1, true, n + 1);
    }
  }

  lemma {:induction false} ExpSound(s: string, i: nat, n: nat)
    requires i < |s| && ReadExp(s, i, n, false).Read?
    ensures var r := ReadExp(s, i, n, false); ExpSpelled(r.v, s, i, r.next, n, r.nsub)
    decreases |s| - i, 1
  {
    hide AtomSpelled, ReadAtom, SuffixSpelled;
    AtomSound(s, i, n);
    var r1 := ReadAtom(s, i, n, false);
    var r := ReadSuffix(s, r1.next, r1.v, r1.nsub);
    SuffixReads(s, r1.next, r1.v, r1.nsub, r.v, r.next);
  }

  lemma {:induction false} BranchSound(s: string, i0: nat, i: nat, inGroup: bool, n0: nat, n: nat, acc: Branch)
    requires i <= |s| && WfBranch(acc) && BranchSpelled(acc, s, i0, i, n0, n)
    requires ReadBranch(s, i, inGroup, n, acc, false).Read?
    ensures var r := ReadBranch(s, i, inGroup, n, acc, false); BranchSpelled(r.v, s, i0, r.next, n0, r.nsub)
    decreases |s| - i, 2
  {
    hide ExpSpelled, ReadExp;
    if !BranchEnds(s, i, inGroup) {
      ExpSound(s, i, n);
      var r1 := ReadExp(s, i, n, false);
      assert BranchSpelled(Snoc(acc, r1.v), s, i0, r1.next, n0, r1.nsub);
      BranchSound(s, i0, r1.next, inGroup, n0, r1.nsub, Snoc(acc, r1.v));
    }
  }

  lemma {:induction false} AltsSound(s: string, i: nat, inGroup: bool, n: nat)
    requires i <= |s| && ReadAlts(s, i, inGroup, n, false).Read?
    ensures var r := ReadAlts(s, i, inGroup, n, false); AltsSpelled(r.v, s, i, r.next, inGroup, n, r.nsub)
    decreases |s| - i, 3
  {
    hide BranchSpelled, ReadBranch, Emits;
    var r1 := ReadBranch(s, i, inGroup, n, Empty, false);
    assert BranchSpelled(Empty, s, i, i, n, n) by { EmptySpelled(s, i, n); }
    BranchSound(s, i, i, inGroup, n, n, Empty);
    if r1.next < |s| && s[r1.next] == '|' {
      AltsSound(s, r1.next + 1, inGroup, r1.nsub);
    }
  }

  lemma EmptySpelled(s: string, i: nat, n: nat)
    requires i <= |s|
    ensures BranchSpelled(Empty, s, i, i, n, n)
  {
  }

  // Completeness: whatever is spelled is read.

  lemma {:induction false} AtomComplete(x: Atom, s: string, i: nat, j: nat, n: nat, m: nat)
    requires AtomSpelled(x, s, i, j, n, m)
    ensures ReadAtom(s, i, n, false) == Read(x, j, m)
    decreases x
  {
    hide ReadBracket, BracketSpelled, ReadAlts, AltsSpelled;
    if x.Set? { BracketReads(s, i + 1, x.s, j); }
    if x.Group? { AltsComplete(x.alts, s, i + 1, j - 1, true, n + 1, m); }
  }

  lemma {:induction false} ExpComplete(x: Exp, s: string, i: nat, j: nat, n: nat, m: nat)
    requires ExpSpelled(x, s, i, j, n, m)
    ensures i < |s| && ReadExp(s, i, n, false) == Read(x, j, m)
    decreases x
  {
    hide ReadAtom, SuffixSpelled, AtomSpelled;
    var k: nat :| AtomSpelled(x.a, s, i, k, n, m) && SuffixSpelled(x, s, k, j);
    AtomComplete(x.a, s, i, k, n, m);
    AtomHere(x.a, s, i, k, n, m);
    SuffixReads(s, k, x.a, m, x, j);
  }

  lemma AtomHere(x: Atom, s: string, i: nat, j: nat, n: nat, m: nat)
    requires AtomSpelled(x, s, i, j, n, m)
    ensures i < j <= |s| && s[i] != '|' && s[i] != ')'
  {
  }

  lemma ExpHere(x: Exp, s: string, i: nat, j: nat, n: nat, m: nat)
    requires ExpSpelled(x, s, i, j, n, m)
    ensures i < |s| && s[i] != '|' && s[i] != ')'
  {
    hide AtomSpelled;
    var k: nat :| AtomSpelled(x.a, s, i, k, n, m) && SuffixSpelled(x, s, k, j);
    AtomHere(x.a, s, i, k, n, m);
  }

  /** Reading a spelled branch arrives at its end with the branch in hand. */
  lemma {:induction false} BranchArrives(x: Branch, s: string, i: nat, j: nat, inGroup: bool, n: nat, m: nat)
    requires i <= |s| && BranchSpelled(x, s, i, j, n, m)
    ensures j <= |s| && WfBranch(x)
    ensures ReadBranch(s, i, inGroup, n, Empty, false) == ReadBranch(s, j, inGroup, m, x, false)
    decreases x
  {
    if x.Snoc? {
      var k: nat, l: nat :| BranchSpelled(x.init, s, i, k, n, l) && ExpSpelled(x.last, s, k, j, l, m);
      hide ExpSpelled, ReadExp, BranchSpelled;
      BranchArrives(x.init, s, i, k, inGroup, n, l);
      ExpHere(x.last, s, k, j, l, m);
      ExpComplete(x.last, s, k, j, l, m);
    }
  }

  lemma {:induction false} AltsComplete(x: Alts, s: string, i: nat, j: nat, inGroup: bool, n: nat, m: nat)
    requires i <= |s| && AltsSpelled(x, s, i, j, inGroup, n, m)
    ensures ReadAlts(s, i, inGroup, n, false) == Read(x, j, m)
    decreases x
  {
    hide BranchSpelled, Emits;
    match x
    case One(b) => BranchArrives(b, s, i, j, inGroup, n, m);
    case Or(b, rest) =>
      var k: nat, l: nat :| BranchSpelled(b, s, i, k, n, l) && k < |s| && s[k] == '|'
                            && AltsSpelled(rest, s, k + 1, j, inGroup, l, m);
      BranchArrives(b, s, i, k, inGroup, n, l);
      AltsComplete(rest, s, k + 1, j, inGroup, l, m);
  }

  /** Reading without `strict` finds the expression that a text spells, and only that. */
  lemma ReadsSpelled(s: string, x: Alts)
    ensures Spelled(x, s) <==> (exists m :: ReadAlts(s, 0, false, 0, false) == Read(x, |s|, m))
  {
    hide ReadAlts, AltsSpelled;
    if Spelled(x, s) {
      var m: nat :| AltsSpelled(x, s, 0, |s|, false, 0, m);
      AltsComplete(x, s, 0, |s|, false, 0, m);
    }
    if exists m :: ReadAlts(s, 0, false, 0, false) == Read(x, |s|, m) {
      AltsSound(s, 0, false, 0);
    }
  }

  /** No text spells two expressions. */
  lemma SpelledOnce(s: string, x: Alts, y: Alts)
    requires Spelled(x, s) && Spelled(y, s)
    ensures x == y
  {
    hide ReadAlts, Spelled;
    ReadsSpelled(s, x);
    ReadsSpelled(s, y);
  }

  // ----- branches that emit nothing -----

  /** Some piece of the branch is not bounded by {0} or {0,0}. */
  predicate Visible(b: Branch) { b.Snoc? && (Visible(b.init) || !(b.last.Rep? && b.last.hi == 0)) }

  /** Every branch, at every depth, is visible. */
  predicate AltsVisible(x: Alts) {
    Visible(x.b) && PiecesVisible(x.b) && (x.Or? ==> AltsVisible(x.rest))
  }

  predicate PiecesVisible(b: Branch) { b.Snoc? ==> PiecesVisible(b.init) && AtomVisible(b.last.a) }

  predicate AtomVisible(a: Atom) { a.Group? ==> AltsVisible(a.alts) }

  lemma {:induction false} EmitsIff(b: Branch)
    requires WfBranch(b)
    ensures Emits(b) <==> Visible(b)
  {
    if b.Snoc? {
      EmitsIff(b.init);
      ExpEmits(b.last);
    }
  }

  lemma ExpEmits(x: Exp)
    requires WfExp(x)
    ensures ExpCode(x) != [] <==> !(x.Rep? && x.hi == 0)
  {
    hide AltsCode;
    if x.Rep? { RepEmits(AtomCode(x.a), x.lo, x.hi); }
  }

  lemma {:induction false} RepEmits(c: RegexStrip.Strip, lo: nat, hi: nat)
    requires c != [] && Bounds(lo, hi)
    ensures RepCode(c, lo, hi) != [] <==> hi > 0
  {
  }

  // With `strict` the reading is the same, except that it fails if some branch is not visible.

  lemma {:induction false} AtomStrict(s: string, i: nat, n: nat)
    requires i < |s|
    ensures var r, l := ReadAtom(s, i, n, true), ReadAtom(s, i, n, false);
      (r.Read? <==> l.Read? && AtomVisible(l.v)) && (r.Read? ==> r == l)
    decreases |s| - i, 0
  {
    hide ReadBracket, ReadAlts, AltsVisible;
    if s[i] == '(' && i + 1 < |s| && s[i + 1] != ')' { AltsStrict(s, i + 1, true, n + 1); }
  }

  lemma {:induction false} ExpStrict(s: string, i: nat, n: nat)
    requires i < |s|
    ensures var r, l := ReadExp(s, i, n, true), ReadExp(s, i, n, false);
      (r.Read? <==> l.Read? && AtomVisible(l.v.a)) && (r.Read? ==> r == l)
    decreases |s| - i, 1
  {
    hide ReadAtom, AtomVisible, ReadBounds;
    AtomStrict(s, i, n);
  }

  lemma {:induction false} BranchStrict(s: string, i: nat, inGroup: bool, n: nat, acc: Branch)
    requires i <= |s| && WfBranch(acc)
    ensures var r, l := ReadBranch(s, i, inGroup, n, acc, true), ReadBranch(s, i, inGroup, n, acc, false);
      && (PiecesVisible(acc) ==> (r.Read? <==> l.Read? && PiecesVisible(l.v)))
      && (!PiecesVisible(acc) && l.Read? ==> !PiecesVisible(l.v))
      && (r.Read? && l.Read? && PiecesVisible(l.v) ==> r == l)
    decreases |s| - i, 2
  {
    hide ReadExp, AtomVisible;
    if !BranchEnds(s, i, inGroup) {
      ExpStrict(s, i, n);
      var l := ReadExp(s, i, n, false);
      if l.Read? { BranchStrict(s, l.next, inGroup, l.nsub, Snoc(acc, l.v)); }
    }
  }

  lemma {:induction false} AltsStrict(s: string, i: nat, inGroup: bool, n: nat)
    requires i <= |s|
    ensures var r, l := ReadAlts(s, i, inGroup, n, true), ReadAlts(s, i, inGroup, n, false);
      (r.Read? <==> l.Read? && AltsVisible(l.v)) && (r.Read? ==> r == l)
    decreases |s| - i, 3
  {
    hide ReadBranch, Emits, Visible, PiecesVisible;
    BranchStrict(s, i, inGroup, n, Empty);
    NoPieces();
    var l := ReadBranch(s, i, inGroup, n, Empty, false);
    if l.Read? {
      EmitsIff(l.v);
      if l.next < |s| && s[l.next] == '|' { AltsStrict(s, l.next + 1, inGroup, l.nsub); }
    }
  }

  lemma NoPieces()
    ensures PiecesVisible(Empty)
  {
  }

  /** regcomp() accepts a text exactly if it spells an expression every branch of which, at
      every depth, is visible. */
  lemma AcceptedIff(s: string, x: Alts)
    requires Spelled(x, s)
    ensures ReadAlts(s, 0, false, 0, true).Read? <==> AltsVisible(x)
  {
    hide ReadAlts, AltsVisible, Spelled;
    ReadsSpelled(s, x);
    AltsStrict(s, 0, false, 0);
  }

  // ----- a pattern that is refused though it has a meaning -----

  /** a{0} */
  ghost function NoTimes(): Alts { One(Snoc(Empty, Rep(Chr('a'), 0, 0))) }

  /** `a{0}` spells an expression, whose language is the empty text alone; it is refused as
      an empty branch, and no other reading of it would be accepted. */
  lemma ZeroRefused()
    ensures Spelled(NoTimes(), "a{0}") && (forall w: string :: w in AltsLang(NoTimes()) <==> w == "")
    ensures ReadAlts("a{0}", 0, false, 0, true) == Bad(REG_EMPTY)
    ensures forall x :: Spelled(x, "a{0}") ==> !AltsVisible(x)
  {
    ZeroSpelled();
    hide ReadAlts, Spelled, AltsLang;
    ReadsSpelled("a{0}", NoTimes());
    FirstInvisible("a{0}", 0, false, 0);
    ZeroLang();
    forall x | Spelled(x, "a{0}") ensures x == NoTimes() { SpelledOnce("a{0}", x, NoTimes()); }
  }

  /** A first branch that is not visible is the first error, if its pieces have none. */
  lemma FirstInvisible(s: string, i: nat, inGroup: bool, n: nat)
    requires i <= |s|
    ensures var r, l := ReadAlts(s, i, inGroup, n, true), ReadAlts(s, i, inGroup, n, false);
      l.Read? && PiecesVisible(l.v.b) && !Visible(l.v.b) ==> r == Bad(REG_EMPTY)
  {
    hide ReadBranch, Emits, Visible, PiecesVisible;
    BranchStrict(s, i, inGroup, n, Empty);
    NoPieces();
    var l := ReadBranch(s, i, inGroup, n, Empty, false);
    if l.Read? { EmitsIff(l.v); }
  }

  lemma ZeroSpelled()
    ensures Spelled(NoTimes(), "a{0}")
  {
    var s := "a{0}";
    assert Value(s, 2, 3) == 0;
    assert NumeralSpelled(0, s, 2, 3);
    assert SuffixSpelled(Rep(Chr('a'), 0, 0), s, 1, 4);
    assert AtomSpelled(Chr('a'), s, 0, 1, 0, 0);
    assert ExpSpelled(Rep(Chr('a'), 0, 0), s, 0, 4, 0, 0);
    EmptySpelled(s, 0, 0);
    assert BranchSpelled(Snoc(Empty, Rep(Chr('a'), 0, 0)), s, 0, 4, 0, 0);
    assert AltsSpelled(NoTimes(), s, 0, 4, false, 0, 0);
  }

  lemma ZeroLang()
    ensures forall w: string :: w in AltsLang(NoTimes()) <==> w == ""
  {
    hide Cat, Repeat, AtomLang;
    var x := Rep(Chr('a'), 0, 0);
    assert AltsLang(NoTimes()) == Cat(BranchLang(Empty), ExpLang(x));
    CatUnit(ExpLang(x));
    RepeatNone(AtomLang(x.a));
  }
}
