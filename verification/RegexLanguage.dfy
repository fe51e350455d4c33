/** Extended regular expressions as section 9.4 of IEEE Std 1003.1 (Base Definitions)
    defines them, and the set of strings each stands for. */
module RegexLanguage {

  /** INFINITY of utils.h: the upper bound of `x{m,}`, one more than the largest count. */
  const INFINITY: nat := 256

  type Lang = iset<string>

  ghost function Unit(): Lang { iset{""} }

  /** A string of the first language followed by one of the second. */
  ghost function Cat(a: Lang, b: Lang): Lang {
    iset w: string | exists i :: 0 <= i <= |w| && w[..i] in a && w[i..] in b
  }

  ghost function Pow(a: Lang, k: nat): Lang {
    if k == 0 then Unit() else Cat(a, Pow(a, k - 1))
  }

  predicate Within(k: nat, lo: nat, hi: nat) { lo <= k && (hi == INFINITY || k <= hi) }

  /** Between `lo` and `hi` repetitions; no upper bound for INFINITY. */
  ghost function Repeat(a: Lang, lo: nat, hi: nat): Lang {
    iset w: string | Repeats(a, lo, hi, w)
  }

  ghost predicate Repeats(a: Lang, lo: nat, hi: nat, w: string) {
    exists k: nat :: Within(k, lo, hi) && w in Pow(a, k)
  }

  /** One or more alternatives. */
  datatype Alts = One(b: Branch) | Or(b: Branch, rest: Alts)

  /** A concatenation. */
  datatype Branch = Empty | Snoc(init: Branch, last: Exp)

  /** An atom with at most one repetition operator. `+` and `?` are {1,} and {0,1}. */
  datatype Exp = Plain(a: Atom) | Star(a: Atom) | Rep(a: Atom, lo: nat, hi: nat)

  datatype Atom = Chr(c: char) | Any | Set(s: set<char>) | EmptyGroup(no: nat) | Group(no: nat, alts: Alts)

  ghost function AltsLang(x: Alts): Lang {
    match x
    case One(b) => BranchLang(b)
    case Or(b, rest) => BranchLang(b) + AltsLang(rest)
  }

  ghost function BranchLang(x: Branch): Lang {
    match x
    case Empty => Unit()
    case Snoc(init, last) => Cat(BranchLang(init), ExpLang(last))
  }

  ghost function ExpLang(x: Exp): Lang {
    match x
    case Plain(a) => AtomLang(a)
    case Star(a) => Repeat(AtomLang(a), 0, INFINITY)
    case Rep(a, lo, hi) => Repeat(AtomLang(a), lo, hi)
  }

  ghost function AtomLang(x: Atom): Lang {
    match x
    case Chr(c) => iset w: string | |w| == 1 && w[0] == c
    case Any => iset w: string | |w| == 1
    case Set(s) => iset w: string | |w| == 1 && w[0] in s
    case EmptyGroup(_) => Unit()
    case Group(_, alts) => AltsLang(alts)
  }

  // ----- laws of the operators -----

  lemma CatIntro(a: Lang, b: Lang, u: string, v: string)
    requires u in a && v in b
    ensures u + v in Cat(a, b)
  {
    var w := u + v;
    assert w[..|u|] == u && w[|u|..] == v;
  }

  lemma CatElim(a: Lang, b: Lang, w: string) returns (i: nat)
    requires w in Cat(a, b)
    ensures i <= |w| && w[..i] in a && w[i..] in b
  {
    i :| 0 <= i <= |w| && w[..i] in a && w[i..] in b;
  }

  lemma CatUnit(a: Lang)
    ensures Cat(Unit(), a) == a && Cat(a, Unit()) == a
  {
    forall w: string ensures w in Cat(Unit(), a) <==> w in a {
      if w in Cat(Unit(), a) {
        var i := CatElim(Unit(), a, w);
        assert w[i..] == w;
      }
      if w in a {
        CatIntro(Unit(), a, "", w);
        assert "" + w == w;
      }
    }
    forall w: string ensures w in Cat(a, Unit()) <==> w in a {
      if w in Cat(a, Unit()) {
        var i := CatElim(a, Unit(), w);
        assert w[..i] == w;
      }
      if w in a {
        CatIntro(a, Unit(), w, "");
        assert w + "" == w;
      }
    }
  }

  lemma PowOne(a: Lang)
    ensures Pow(a, 1) == a
  {
    assert Pow(a, 0) == Unit();
    CatUnit(a);
  }

  lemma RepeatIntro(a: Lang, lo: nat, hi: nat, k: nat, w: string)
    requires Within(k, lo, hi) && w in Pow(a, k)
    ensures w in Repeat(a, lo, hi)
  {
  }

  lemma RepeatElim(a: Lang, lo: nat, hi: nat, w: string) returns (k: nat)
    requires w in Repeat(a, lo, hi)
    ensures Within(k, lo, hi) && w in Pow(a, k)
  {
    k :| Within(k, lo, hi) && w in Pow(a, k);
  }

  // ----- how repeat() unfolds a bounded repetition -----

  lemma RepeatNone(a: Lang)
    ensures Repeat(a, 0, 0) == Unit()
  {
    forall w: string ensures w in Repeat(a, 0, 0) <==> w in Unit() {
      if w in Repeat(a, 0, 0) { var k := RepeatElim(a, 0, 0, w); }
      if w in Unit() { RepeatIntro(a, 0, 0, 0, w); }
    }
  }

  lemma RepeatOnce(a: Lang)
    ensures Repeat(a, 1, 1) == a
  {
    PowOne(a);
    forall w: string ensures w in Repeat(a, 1, 1) <==> w in a {
      if w in Repeat(a, 1, 1) { var k := RepeatElim(a, 1, 1, w); }
      if w in a { RepeatIntro(a, 1, 1, 1, w); }
    }
  }

  /** x{0,n} is (x{1,n}|). */
  lemma RepeatOptional(a: Lang, hi: nat)
    requires hi >= 1
    ensures Repeat(a, 0, hi) == Repeat(a, 1, hi) + Unit()
  {
    forall w: string ensures w in Repeat(a, 0, hi) <==> w in Repeat(a, 1, hi) + Unit() {
      if w in Repeat(a, 0, hi) {
        var k := RepeatElim(a, 0, hi, w);
        if k > 0 { RepeatIntro(a, 1, hi, k, w); }
      }
      if w in Repeat(a, 1, hi) {
        var k := RepeatElim(a, 1, hi, w);
        RepeatIntro(a, 0, hi, k, w);
      }
      if w in Unit() { RepeatIntro(a, 0, hi, 0, w); }
    }
  }

  /** x{m,n} is xx{m-1,n-1} for m >= 1. */
  lemma RepeatPeel(a: Lang, lo: nat, hi: nat)
    requires 1 <= lo && 1 <= hi && (hi == INFINITY || lo <= hi < INFINITY)
    ensures Repeat(a, lo, hi) == Cat(a, Repeat(a, lo - 1, if hi == INFINITY then hi else hi - 1))
  {
    var hi' := if hi == INFINITY then hi else hi - 1;
    forall w: string ensures w in Repeat(a, lo, hi) <==> w in Cat(a, Repeat(a, lo - 1, hi')) {
      if w in Repeat(a, lo, hi) {
        var k := RepeatElim(a, lo, hi, w);
        var i := CatElim(a, Pow(a, k - 1), w);
        RepeatIntro(a, lo - 1, hi', k - 1, w[i..]);
      }
      if w in Cat(a, Repeat(a, lo - 1, hi')) {
        var i := CatElim(a, Repeat(a, lo - 1, hi'), w);
        var k := RepeatElim(a, lo - 1, hi', w[i..]);
        assert w in Pow(a, k + 1);
        RepeatIntro(a, lo, hi, k + 1, w);
      }
    }
  }

  /** x{1,n} is x?x{1,n-1} for n >= 2. */
  lemma RepeatHead(a: Lang, hi: nat)
    requires 2 <= hi < INFINITY
    ensures Repeat(a, 1, hi) == Cat(a + Unit(), Repeat(a, 1, hi - 1))
  {
    hide Repeat, Cat;
    forall w: string ensures w in Repeat(a, 1, hi) <==> w in Cat(a + Unit(), Repeat(a, 1, hi - 1)) {
      if w in Repeat(a, 1, hi) { HeadOff(a, hi, w); }
      if w in Cat(a + Unit(), Repeat(a, 1, hi - 1)) { HeadOn(a, hi, w); }
    }
  }

  lemma HeadOff(a: Lang, hi: nat, w: string)
    requires 2 <= hi < INFINITY && w in Repeat(a, 1, hi)
    ensures w in Cat(a + Unit(), Repeat(a, 1, hi - 1))
  {
    hide Repeat, Cat, Pow;
    RepeatPeel(a, 1, hi);
    RepeatOptional(a, hi - 1);
    var i := CatElim(a, Repeat(a, 0, hi - 1), w);
    if w[i..] in Repeat(a, 1, hi - 1) {
      CatIntro(a + Unit(), Repeat(a, 1, hi - 1), w[..i], w[i..]);
      assert w[..i] + w[i..] == w;
    } else {
      assert w[i..] == "" && w[..i] == w;
      PowOne(a);
      RepeatIntro(a, 1, hi - 1, 1, w);
      CatIntro(a + Unit(), Repeat(a, 1, hi - 1), "", w);
      assert "" + w == w;
    }
  }

  lemma HeadOn(a: Lang, hi: nat, w: string)
    requires 2 <= hi < INFINITY && w in Cat(a + Unit(), Repeat(a, 1, hi - 1))
    ensures w in Repeat(a, 1, hi)
  {
    hide Repeat, Cat, Pow;
    RepeatPeel(a, 1, hi);
    var i := CatElim(a + Unit(), Repeat(a, 1, hi - 1), w);
    var k := RepeatElim(a, 1, hi - 1, w[i..]);
    if w[..i] in a {
      RepeatIntro(a, 0, hi - 1, k, w[i..]);
      CatIntro(a, Repeat(a, 0, hi - 1), w[..i], w[i..]);
      assert w[..i] + w[i..] == w;
    } else {
      assert w[i..] == w;
      RepeatIntro(a, 1, hi, k, w);
    }
  }
}
