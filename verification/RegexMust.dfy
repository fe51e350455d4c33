/** The literal every match must contain, and how deep the loops nest: two scans over the
    finished strip. */
module RegexMust {
  import opened RegexLanguage
  import opened RegexStrip
  import opened RegexCode
  import opened RegexLinks

  /** Where the scan stands: the literal being collected, and the longest one collected. */
  datatype Run = Run(run: string, best: string)

  datatype Scanned = Must(best: string) | Broken

  function Close(m: Run): Run { Run("", if |m.run| > |m.best| then m.run else m.best) }

  /** The operator that ends the choice or bypass at `p`, along its OOR2s; -1 if there is none. */
  function Skip(strip: Strip, p: nat): (q: int)
    requires p < |strip|
    ensures q == -1 || p < q < |strip|
    decreases |strip| - p
  {
    var k := match strip[p] case OQuest_(k) => k case OCh_(k) => k case OOr2(k) => k case _ => 0;
    if k == 0 || p + k >= |strip| then -1
    else if strip[p + k].O_Quest? || strip[p + k].O_Ch? then p + k
    else if strip[p + k].OOr2? then Skip(strip, p + k)
    else -1
  }

  /** The scan of findmust from `p` on. */
  function ScanFrom(strip: Strip, p: nat, m: Run): Scanned
    requires p <= |strip|
    decreases |strip| - p
  {
    if p == |strip| then Broken
    else
      match strip[p]
      case OChar(c) => ScanFrom(strip, p + 1, m.(run := m.run + [c]))
      case OPlus_(_) => ScanFrom(strip, p + 1, m)
      case OLParen(_) => ScanFrom(strip, p + 1, m)
      case ORParen(_) => ScanFrom(strip, p + 1, m)
      case OQuest_(_) => var q := Skip(strip, p); if q < 0 then Broken else ScanFrom(strip, q, Close(m))
      case OCh_(_) => var q := Skip(strip, p); if q < 0 then Broken else ScanFrom(strip, q, Close(m))
      case OEnd => Must(Close(m).best)
      case _ => ScanFrom(strip, p + 1, Close(m))
  }

  // ----- what the scan knows -----

  predicate EndsWith(u: string, r: string) { |r| <= |u| && u[|u| - |r|..] == r }

  predicate OccursAt(u: string, b: string, i: nat) { i + |b| <= |u| && u[i..i + |b|] == b }

  ghost predicate Holds(u: string, b: string) { exists i: nat :: OccursAt(u, b, i) }

  ghost predicate Held(m: Run, u: string) { EndsWith(u, m.run) && Holds(u, m.best) }

  /** Reading a string of the language takes texts that `m` describes to texts `m'` describes. */
  ghost predicate Keeps(l: Lang, m: Run, m': Run) {
    forall u: string, v: string {:trigger Held(m', u + v)} :: Held(m, u) && v in l ==> Held(m', u + v)
  }

  /** The scan goes over the block, wherever it stands, from `m` to `m'`. */
  ghost predicate ScansTo(c: Strip, m: Run, m': Run) {
    forall strip: Strip, a: nat {:trigger At(strip, a, c)} ::
      At(strip, a, c) ==> ScanFrom(strip, a, m) == ScanFrom(strip, a + |c|, m')
  }

  ghost predicate ScansOver(c: Strip, l: Lang, m: Run) {
    exists m': Run :: ScansTo(c, m, m') && Keeps(l, m, m')
  }

  ghost predicate Scannable(c: Strip, l: Lang) { forall m: Run :: ScansOver(c, l, m) }

  lemma HoldsMore(u: string, v: string, b: string)
    requires Holds(u, b)
    ensures Holds(u + v, b)
  {
    var i: nat :| OccursAt(u, b, i);
    assert OccursAt(u + v, b, i);
  }

  lemma CloseHeld(m: Run, u: string, v: string)
    requires Held(m, u)
    ensures Held(Close(m), u + v)
  {
    assert OccursAt(u, m.run, |u| - |m.run|);
    HoldsMore(u, v, Close(m).best);
  }

  lemma CloseKeeps(l: Lang, m: Run)
    ensures Keeps(l, m, Close(m))
  {
    forall u: string, v: string | Held(m, u) && v in l ensures Held(Close(m), u + v) {
      CloseHeld(m, u, v);
    }
  }

  lemma KeepsUnit(m: Run)
    ensures Keeps(Unit(), m, m)
  {
    hide Held;
    forall u: string, v: string | Held(m, u) && v in Unit() ensures Held(m, u + v) {
      assert u + v == u;
    }
  }

  lemma ScanEmpty()
    ensures Scannable([], Unit())
  {
    forall m: Run ensures ScansOver([], Unit(), m) {
      assert ScansTo([], m, m);
      KeepsUnit(m);
    }
  }

  lemma ScanChar(c: char, l: Lang)
    requires forall v :: v in l ==> v == [c]
    ensures Scannable([OChar(c)], l)
  {
    forall m: Run ensures ScansOver([OChar(c)], l, m) {
      var m' := m.(run := m.run + [c]);
      forall strip: Strip, a: nat | At(strip, a, [OChar(c)])
        ensures ScanFrom(strip, a, m) == ScanFrom(strip, a + 1, m')
      {
        AtOp(strip, a, OChar(c));
      }
      forall u: string, v: string | Held(m, u) && v in l ensures Held(m', u + v) {
        HoldsMore(u, v, m.best);
        assert (u + [c])[|u + [c]| - |m'.run|..] == u[|u| - |m.run|..] + [c];
      }
      assert ScansTo([OChar(c)], m, m') && Keeps(l, m, m');
    }
  }

  /** Operators that break a literal. */
  lemma ScanBreak(op: Sop, l: Lang)
    requires op.OAny? || op.OAnyOf?
    ensures Scannable([op], l)
  {
    forall m: Run ensures ScansOver([op], l, m) {
      forall strip: Strip, a: nat | At(strip, a, [op])
        ensures ScanFrom(strip, a, m) == ScanFrom(strip, a + 1, Close(m))
      {
        AtOp(strip, a, op);
      }
      assert ScansTo([op], m, Close(m));
      CloseKeeps(l, m);
    }
  }

  /** Operators that do not. */
  lemma ScanMark(op: Sop)
    requires op.OLParen? || op.ORParen?
    ensures Scannable([op], Unit())
  {
    forall m: Run ensures ScansOver([op], Unit(), m) {
      forall strip: Strip, a: nat | At(strip, a, [op])
        ensures ScanFrom(strip, a, m) == ScanFrom(strip, a + 1, m)
      {
        AtOp(strip, a, op);
      }
      assert ScansTo([op], m, m);
      KeepsUnit(m);
    }
  }

  lemma ScansCat(c: Strip, d: Strip, m: Run, m1: Run, m2: Run)
    requires ScansTo(c, m, m1) && ScansTo(d, m1, m2)
    ensures ScansTo(c + d, m, m2)
  {
    hide ScanFrom;
    forall strip: Strip, a: nat | At(strip, a, c + d)
      ensures ScanFrom(strip, a, m) == ScanFrom(strip, a + |c + d|, m2)
    {
      AtParts(strip, a, c, d);
    }
  }

  lemma KeepsCat(l: Lang, k: Lang, m: Run, m1: Run, m2: Run)
    requires Keeps(l, m, m1) && Keeps(k, m1, m2)
    ensures Keeps(Cat(l, k), m, m2)
  {
    hide Held, Cat;
    forall u: string, v: string | Held(m, u) && v in Cat(l, k) ensures Held(m2, u + v) {
      var i := CatElim(l, k, v);
      assert Held(m1, u + v[..i]);
      assert Held(m2, (u + v[..i]) + v[i..]);
      assert (u + v[..i]) + v[i..] == u + v;
    }
  }

  lemma ScanCat(c: Strip, l: Lang, d: Strip, k: Lang)
    requires Scannable(c, l) && Scannable(d, k)
    ensures Scannable(c + d, Cat(l, k))
  {
    hide ScansTo, Keeps, Cat;
    forall m: Run ensures ScansOver(c + d, Cat(l, k), m) {
      assert ScansOver(c, l, m);
      var m1: Run :| ScansTo(c, m, m1) && Keeps(l, m, m1);
      assert ScansOver(d, k, m1);
      var m2: Run :| ScansTo(d, m1, m2) && Keeps(k, m1, m2);
      ScansCat(c, d, m, m1, m2);
      KeepsCat(l, k, m, m1, m2);
    }
  }

  /** A literal may run into a loop, but not out of it. */
  lemma ScanPlus(c: Strip, l: Lang)
    requires Scannable(c, l)
    ensures Scannable(PlusCode(c), Repeat(l, 1, INFINITY))
  {
    hide ScansTo, Keeps, Close, Repeat, PlusCode;
    forall m: Run ensures ScansOver(PlusCode(c), Repeat(l, 1, INFINITY), m) {
      assert ScansOver(c, l, m);
      var m1: Run :| ScansTo(c, m, m1) && Keeps(l, m, m1);
      PlusScans(c, m, m1);
      PlusKeeps(l, m, m1);
    }
  }

  lemma PlusScans(c: Strip, m: Run, m1: Run)
    requires ScansTo(c, m, m1)
    ensures ScansTo(PlusCode(c), m, Close(m1))
  {
    hide Close;
    forall strip: Strip, a: nat | At(strip, a, PlusCode(c))
      ensures ScanFrom(strip, a, m) == ScanFrom(strip, a + |PlusCode(c)|, Close(m1))
    {
      AtPlus(strip, a, c);
      assert ScanFrom(strip, a, m) == ScanFrom(strip, a + 1, m);
      assert ScanFrom(strip, a + 1, m) == ScanFrom(strip, a + 1 + |c|, m1);
      assert ScanFrom(strip, a + 1 + |c|, m1) == ScanFrom(strip, a + 2 + |c|, Close(m1));
    }
  }

  lemma PlusKeeps(l: Lang, m: Run, m1: Run)
    requires Keeps(l, m, m1)
    ensures Keeps(Repeat(l, 1, INFINITY), m, Close(m1))
  {
    hide Held, Cat, Close, Repeat;
    forall u: string, v: string | Held(m, u) && v in Repeat(l, 1, INFINITY) ensures Held(Close(m1), u + v) {
      var k := RepeatElim(l, 1, INFINITY, v);
      var i := CatElim(l, Pow(l, k - 1), v);
      assert Held(m1, u + v[..i]);
      CloseHeld(m1, u + v[..i], v[i..]);
      assert (u + v[..i]) + v[i..] == u + v;
    }
  }

  /** What may be left out adds nothing, whatever is in it. */
  lemma ScanQuest(c: Strip, l: Lang)
    ensures Scannable(QuestCode(c), l)
  {
    hide Keeps, Close;
    forall m: Run ensures ScansOver(QuestCode(c), l, m) {
      forall strip: Strip, a: nat | At(strip, a, QuestCode(c))
        ensures ScanFrom(strip, a, m) == ScanFrom(strip, a + |QuestCode(c)|, Close(Close(m)))
      {
        AtQuest(strip, a, c);
        assert Skip(strip, a) == a + |c| + 1;
      }
      assert ScansTo(QuestCode(c), m, Close(Close(m)));
      CloseTwice(m);
      CloseKeeps(l, m);
    }
  }

  lemma CloseTwice(m: Run)
    ensures Close(Close(m)) == Close(m)
  {
  }

  lemma ScanChoice(cs: seq<Strip>, l: Lang)
    requires |cs| >= 2
    ensures Scannable(ChoiceCode(cs), l)
  {
    hide Keeps, Close, ChoiceCode, TailCode, Skip;
    forall m: Run ensures ScansOver(ChoiceCode(cs), l, m) {
      forall strip: Strip, a: nat | At(strip, a, ChoiceCode(cs))
        ensures ScanFrom(strip, a, m) == ScanFrom(strip, a + |ChoiceCode(cs)|, Close(Close(m)))
      {
        SkipChoice(strip, a, cs);
        var q := Skip(strip, a);
        assert ScanFrom(strip, a, m) == ScanFrom(strip, q, Close(m));
        assert ScanFrom(strip, q, Close(m)) == ScanFrom(strip, q + 1, Close(Close(m)));
      }
      assert ScansTo(ChoiceCode(cs), m, Close(Close(m)));
      CloseTwice(m);
      CloseKeeps(l, m);
    }
  }

  lemma {:induction false} SkipTail(strip: Strip, p: nat, cs: seq<Strip>)
    requires |cs| >= 1 && At(strip, p, TailCode(cs))
    ensures p < |strip| && strip[p].OOr2?
    ensures var q := Skip(strip, p); q == p + |TailCode(cs)| - 1 && strip[q].O_Ch?
    decreases |cs|
  {
    hide At, TailCode;
    AtTail(strip, p, cs);
    if |cs| > 1 { SkipTail(strip, p + |cs[0]| + 2, cs[1..]); }
  }

  lemma SkipChoice(strip: Strip, a: nat, cs: seq<Strip>)
    requires |cs| >= 2 && At(strip, a, ChoiceCode(cs))
    ensures a < |strip| && strip[a].OCh_?
    ensures var q := Skip(strip, a); a < q == a + |ChoiceCode(cs)| - 1 && strip[q].O_Ch?
  {
    hide At, TailCode;
    At4(strip, a, OCh_(|cs[0]| + 2), cs[0], OOr1(|cs[0]| + 1), TailCode(cs[1..]));
    SkipTail(strip, a + |cs[0]| + 2, cs[1..]);
  }

  // ----- every expression -----

  lemma {:induction false} RepScan(c: Strip, l: Lang, lo: nat, hi: nat)
    requires Scannable(c, l) && Bounds(lo, hi)
    ensures Scannable(RepCode(c, lo, hi), Repeat(l, lo, hi))
    decreases lo + hi
  {
    hide Scannable, Repeat, ChoiceCode, PlusCode;
    if hi == 0 {
      RepeatNone(l);
      ScanEmpty();
    } else if lo == 0 {
      ScanChoice([RepCode(c, 1, hi), []], Repeat(l, 0, hi));
    } else if lo == 1 && hi == 1 {
      RepeatOnce(l);
    } else if lo == 1 && hi < INFINITY {
      ScanChoice([c, []], l + Unit());
      RepScan(c, l, 1, hi - 1);
      ScanCat(OptCode(c), l + Unit(), RepCode(c, 1, hi - 1), Repeat(l, 1, hi - 1));
      RepeatHead(l, hi);
    } else if lo == 1 {
      ScanPlus(c, l);
    } else {
      var hi' := if hi == INFINITY then hi else hi - 1;
      RepScan(c, l, lo - 1, hi');
      ScanCat(c, l, RepCode(c, lo - 1, hi'), Repeat(l, lo - 1, hi'));
      RepeatPeel(l, lo, hi);
    }
  }

  lemma {:induction false} AltsScan(x: Alts)
    requires WfAlts(x)
    ensures Scannable(AltsCode(x), AltsLang(x))
    decreases x, 1
  {
    hide Scannable, ChoiceCode;
    match x
    case One(b) => BranchScan(b);
    case Or(_, _) => ScanChoice(Codes(x), AltsLang(x));
  }

  lemma {:induction false} BranchScan(x: Branch)
    requires WfBranch(x)
    ensures Scannable(BranchCode(x), BranchLang(x))
  {
    hide Scannable, Cat;
    match x
    case Empty => ScanEmpty();
    case Snoc(init, last) =>
      BranchScan(init);
      ExpScan(last);
      ScanCat(BranchCode(init), BranchLang(init), ExpCode(last), ExpLang(last));
  }

  lemma {:induction false} ExpScan(x: Exp)
    requires WfExp(x)
    ensures Scannable(ExpCode(x), ExpLang(x))
  {
    hide Scannable, Repeat, RepCode, QuestCode, PlusCode;
    AtomScan(x.a);
    match x
    case Plain(a) =>
    case Star(a) => ScanQuest(PlusCode(AtomCode(a)), ExpLang(x));
    case Rep(a, lo, hi) => RepScan(AtomCode(a), AtomLang(a), lo, hi);
  }

  lemma {:induction false} AtomScan(x: Atom)
    requires WfAtom(x)
    ensures Scannable(AtomCode(x), AtomLang(x))
  {
    hide Scannable;
    match x
    case Chr(c) => ScanChar(c, AtomLang(x));
    case Any => ScanBreak(OAny, AtomLang(x));
    case Set(s) => SetScan(s);
    case EmptyGroup(no) =>
      ScanEmpty();
      GroupScan(no, [], Unit());
    case Group(no, alts) =>
      AltsScan(alts);
      GroupScan(no, AltsCode(alts), AltsLang(alts));
  }

  lemma SetScan(s: set<char>)
    ensures Scannable(SetCode(s), AtomLang(Set(s)))
  {
    hide Scannable;
    if |s| == 1 {
      var c :| c in s && SetCode(s) == [OChar(c)];
      Singleton(s, c);
      ScanChar(c, AtomLang(Set(s)));
    } else {
      ScanBreak(OAnyOf(s), AtomLang(Set(s)));
    }
  }

  lemma GroupScan(no: nat, c: Strip, l: Lang)
    requires Scannable(c, l)
    ensures Scannable([OLParen(no)] + c + [ORParen(no)], l)
  {
    hide Scannable;
    ScanMark(OLParen(no));
    ScanMark(ORParen(no));
    ScanCat([OLParen(no)], Unit(), c, l);
    CatUnit(l);
    ScanCat([OLParen(no)] + c, l, [ORParen(no)], Unit());
  }

  /** The scan of a compiled expression never breaks off, and the literal it finds is in every
      string of the expression's language. */
  lemma MustHolds(x: Alts, w: string)
    requires WfAlts(x)
    ensures ScanFrom(Compiled(x), 1, Run("", "")).Must?
    ensures w in AltsLang(x) ==> Holds(w, ScanFrom(Compiled(x), 1, Run("", "")).best)
  {
    hide AltsCode, AltsLang, Held, Close, ScanFrom, At, Holds;
    AltsScan(x);
    var m := Run("", "");
    assert ScansOver(AltsCode(x), AltsLang(x), m);
    var m': Run :| ScansTo(AltsCode(x), m, m') && Keeps(AltsLang(x), m, m');
    var strip := Compiled(x);
    CompiledAt(x);
    ScanEnd(strip, 1 + |AltsCode(x)|, m');
    if w in AltsLang(x) {
      NothingHeld();
      assert Held(m', "" + w);
      assert "" + w == w;
      CloseHeld(m', w, "");
      assert w + "" == w;
      HeldBest(Close(m'), w);
    }
  }

  lemma CompiledAt(x: Alts)
    requires WfAlts(x)
    ensures At(Compiled(x), 1, AltsCode(x))
  {
    hide AltsCode;
  }

  lemma ScanEnd(strip: Strip, p: nat, m: Run)
    requires p < |strip| && strip[p] == OEnd
    ensures ScanFrom(strip, p, m) == Must(Close(m).best)
  {
  }

  lemma NothingHeld()
    ensures Held(Run("", ""), "")
  {
    assert OccursAt("", "", 0);
  }

  lemma HeldBest(m: Run, u: string)
    requires Held(m, u)
    ensures Holds(u, m.best)
  {
  }

  // ----- findmust -----

  /** The characters of the literal operators, in order. */
  function Chars(s: Strip): string {
    if |s| == 0 then "" else (if s[0].OChar? then [s[0].c] else "") + Chars(s[1..])
  }

  lemma {:induction false} CharsSnoc(s: Strip, op: Sop)
    ensures Chars(s + [op]) == Chars(s) + if op.OChar? then [op.c] else ""
  {
    if |s| == 0 {
      assert s + [op] == [op] && [op][1..] == [];
      assert Chars([]) == "";
    } else {
      CharsSnoc(s[1..], op);
      assert (s + [op])[1..] == s[1..] + [op];
    }
  }

  /** A finished strip: end markers around operators that know their partners. */
  predicate Finished(strip: Strip) {
    && |strip| >= 2 && strip[0] == OEnd && strip[|strip| - 1] == OEnd && Linked(strip)
  }

  /** findmust's inner loop: over a choice or bypass to the operator that ends it. */
  method SkipOver(strip: Strip, p: nat) returns (scan: nat)
    requires Finished(strip) && p < |strip| && (strip[p].OQuest_? || strip[p].OCh_?)
    ensures scan == Skip(strip, p) && p < scan < |strip| && (strip[scan].O_Quest? || strip[scan].O_Ch?)
  {
    assert LinkedAt(strip, p);
    scan := p + strip[p].k;
    while !strip[scan].O_Quest? && !strip[scan].O_Ch?
      invariant p < scan < |strip|
      invariant strip[scan].O_Quest? || strip[scan].O_Ch? || strip[scan].OOr2?
      invariant Skip(strip, p) == if strip[scan].OOr2? then Skip(strip, scan) else scan
      decreases |strip| - scan
    {
      assert LinkedAt(strip, scan);
      scan := scan + strip[scan].k;
    }
  }

  /** findmust: `start` and `mlen` locate the longest run of literal operators found outside
      choices and bypasses, `newstart` and `newlen` the one being collected. */
  method FindMust(strip: Strip) returns (must: string)
    requires Finished(strip)
    ensures ScanFrom(strip, 1, Run("", "")) == Must(must)
  {
    var start, mlen, newstart, newlen, scan := 0, 0, 0, 0, 1;
    ghost var m, e := Run("", ""), 0;
    assert strip[0..0] == [];
    while !strip[scan].OEnd?
      invariant 1 <= scan < |strip|
      invariant ScanFrom(strip, 1, Run("", "")) == ScanFrom(strip, scan, m)
      invariant newlen == |m.run| && newstart <= scan && (newlen > 0 ==> Chars(strip[newstart..scan]) == m.run)
      invariant mlen == |m.best| && start <= e <= |strip| && (mlen > 0 ==> Chars(strip[start..e]) == m.best)
      decreases |strip| - scan
    {
      hide Chars, ScanFrom, Skip, Linked;
      var s := strip[scan];
      ScanStep(strip, scan, m);
      RunStep(strip, newstart, scan, m.run);
      if s.OChar? {
        if newlen == 0 { newstart := scan; }
        newlen := newlen + 1;
        m := m.(run := m.run + [s.c]);
        scan := scan + 1;
      } else if s.OPlus_? || s.OLParen? || s.ORParen? {
        scan := scan + 1;
      } else {
        if newlen > mlen { start, mlen, e := newstart, newlen, scan; }
        newlen := 0;
        m := Close(m);
        if s.OQuest_? || s.OCh_? {
          scan := SkipOver(strip, scan);
        } else {
          scan := scan + 1;
        }
      }
    }
    ScanEnd(strip, scan, m);
    if newlen > mlen { start, mlen, e := newstart, newlen, scan; }
    must := Collect(strip, start, mlen, e, Close(m).best);
  }

  /** The operator at `p` is not the last one, and the scan goes on behind it. */
  lemma ScanStep(strip: Strip, p: nat, m: Run)
    requires Finished(strip) && 1 <= p < |strip| && !strip[p].OEnd?
    ensures p + 1 < |strip|
    ensures var s := strip[p];
      ScanFrom(strip, p, m) ==
        if s.OChar? then ScanFrom(strip, p + 1, m.(run := m.run + [s.c]))
        else if s.OPlus_? || s.OLParen? || s.ORParen? then ScanFrom(strip, p + 1, m)
        else if s.OQuest_? || s.OCh_? then
          var q := Skip(strip, p);
          if q < 0 then Broken else ScanFrom(strip, q, Close(m))
        else ScanFrom(strip, p + 1, Close(m))
  {
  }

  /** One more operator of a run of literals. */
  lemma RunStep(strip: Strip, newstart: nat, p: nat, run: string)
    requires p < |strip| && newstart <= p && (|run| > 0 ==> Chars(strip[newstart..p]) == run)
    ensures var s := strip[p]; var from := if |run| == 0 && s.OChar? then p else newstart;
      var run' := run + if s.OChar? then [s.c] else "";
      |run'| > 0 ==> Chars(strip[from..p + 1]) == run'
  {
    var s := strip[p];
    CharsSnoc(strip[newstart..p], s);
    assert strip[newstart..p + 1] == strip[newstart..p] + [s];
    CharsSnoc([], s);
    assert strip[p..p + 1] == [] + [s];
  }

  /** The second half of findmust: the first `mlen` literal operators from `start` on. */
  method Collect(strip: Strip, start: nat, mlen: nat, ghost e: nat, ghost best: string) returns (must: string)
    requires start <= e <= |strip| && mlen == |best| && (mlen > 0 ==> Chars(strip[start..e]) == best)
    ensures must == best
  {
    hide Chars;
    must := "";
    var i, scan := mlen, start;
    while i > 0
      invariant 0 <= i <= mlen && start <= scan <= e && must == best[..mlen - i]
      invariant i > 0 ==> Chars(strip[scan..e]) == best[mlen - i..]
      decreases e - scan
    {
      CharsFirst(strip, scan, e);
      var s := strip[scan];
      scan := scan + 1;
      if s.OChar? {
        must := must + [s.c];
        i := i - 1;
        assert best[mlen - i..] == best[mlen - i - 1..][1..];
      }
    }
  }

  lemma CharsFirst(strip: Strip, scan: nat, e: nat)
    requires scan <= e <= |strip|
    ensures scan == e ==> Chars(strip[scan..e]) == ""
    ensures scan < e ==>
      Chars(strip[scan..e]) == (if strip[scan].OChar? then [strip[scan].c] else "") + Chars(strip[scan + 1..e])
  {
    if scan < e { assert strip[scan..e][1..] == strip[scan + 1..e]; }
  }
}
