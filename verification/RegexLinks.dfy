/** Every operator of a finished strip that goes with another one knows where it is, in both
    directions, whatever was inserted, patched or copied around it. */
module RegexLinks {
  import opened RegexLanguage
  import opened RegexStrip
  import opened RegexCode

  /** The operator at `i` and its partners point at each other. */
  predicate LinkedAt(s: Strip, i: nat)
    requires i < |s|
  {
    match s[i]
    case OPlus_(k) => k > 0 && i + k < |s| && s[i + k] == O_Plus(k)
    case O_Plus(k) => 0 < k <= i && s[i - k] == OPlus_(k)
    case OQuest_(k) => k > 0 && i + k < |s| && s[i + k] == O_Quest(k)
    case O_Quest(k) => 0 < k <= i && s[i - k] == OQuest_(k)
    case OCh_(k) => k > 1 && i + k < |s| && s[i + k].OOr2? && s[i + k - 1] == OOr1(k - 1)
    case OOr1(k) => 0 < k <= i && (s[i - k] == OCh_(k + 1) || s[i - k].OOr1?) && i + 1 < |s| && s[i + 1].OOr2?
    case OOr2(k) =>
      && k > 0 && i + k < |s| && 0 < i && s[i - 1].OOr1?
      && (s[i + k] == O_Ch(k + 1) || (s[i + k].OOr2? && s[i + k - 1] == OOr1(k)))
    case O_Ch(k) => 1 < k <= i && s[i - k].OOr1? && s[i - k + 1] == OOr2(k - 1)
    case _ => true
  }

  predicate LinkedFrom(s: Strip, a: nat) { forall i :: a <= i < |s| ==> LinkedAt(s, i) }

  predicate Linked(s: Strip) { LinkedFrom(s, 0) }

  lemma LinkedShift(a: Strip, b: Strip, j: nat)
    requires LinkedFrom(b, j)
    ensures LinkedFrom(a + b, |a| + j)
  {
    forall i | |a| + j <= i < |a + b| ensures LinkedAt(a + b, i) {
      ShiftAt(a, b, i - |a|);
    }
  }

  lemma ShiftAt(a: Strip, b: Strip, i: nat)
    requires i < |b| && LinkedAt(b, i)
    ensures LinkedAt(a + b, |a| + i)
  {
    assert forall j :: 0 <= j < |b| ==> (a + b)[|a| + j] == b[j];
  }

  lemma LinkedPrefix(a: Strip, b: Strip, i: nat)
    requires i < |a| && LinkedAt(a, i)
    ensures LinkedAt(a + b, i)
  {
  }

  lemma LinkedAppend(a: Strip, b: Strip, j: nat)
    requires LinkedFrom(a, j) && Linked(b)
    ensures LinkedFrom(a + b, j)
  {
    LinkedShift(a, b, 0);
    forall i | j <= i < |a + b| ensures LinkedAt(a + b, i) {
      if i < |a| { LinkedPrefix(a, b, i); }
    }
  }

  /** An operator before and one after a linked block, each checked on its own. */
  lemma LinkedWrap(s: Strip, op: Sop, c: Strip, op': Sop)
    requires Linked(c) && s == [op] + c + [op'] && LinkedAt(s, 0) && LinkedAt(s, |c| + 1)
    ensures Linked(s)
  {
    forall i | 0 <= i < |s| ensures LinkedAt(s, i) {
      if 0 < i <= |c| {
        ShiftAt([op], c, i - 1);
        LinkedPrefix([op] + c, [op'], i);
      }
    }
  }

  lemma PlusLinked(c: Strip)
    requires Linked(c)
    ensures Linked(PlusCode(c))
  {
    LinkedWrap(PlusCode(c), OPlus_(|c| + 1), c, O_Plus(|c| + 1));
  }

  lemma QuestLinked(c: Strip)
    requires Linked(c)
    ensures Linked(QuestCode(c))
  {
    LinkedWrap(QuestCode(c), OQuest_(|c| + 1), c, O_Quest(|c| + 1));
  }

  predicate AllLinked(cs: seq<Strip>) { forall i :: 0 <= i < |cs| ==> Linked(cs[i]) }

  lemma TailStarts(cs: seq<Strip>)
    requires |cs| >= 1
    ensures |TailCode(cs)| > 1 && TailCode(cs)[0].OOr2?
  {
  }

  /** A branch in the middle of a chain: OOR1 of the previous one, OOR2, body, own OOR1. */
  lemma MiddleLinked(q: nat, c: Strip, rest: Strip)
    requires Linked(c) && |rest| > 0 && rest[0].OOr2?
    requires LinkedFrom([OOr1(|c| + 2)] + rest, 1)
    ensures LinkedFrom([OOr1(q), OOr2(|c| + 2)] + c + [OOr1(|c| + 2)] + rest, 1)
  {
    var a := [OOr1(q), OOr2(|c| + 2)] + c;
    var s := a + ([OOr1(|c| + 2)] + rest);
    assert s == [OOr1(q), OOr2(|c| + 2)] + c + [OOr1(|c| + 2)] + rest;
    LinkedShift(a, [OOr1(|c| + 2)] + rest, 1);
    assert LinkedAt(s, 1) && LinkedAt(s, |c| + 2);
    forall i | 1 <= i < |s| ensures LinkedAt(s, i) {
      if 2 <= i < |c| + 2 {
        ShiftAt([OOr1(q), OOr2(|c| + 2)], c, i - 2);
        LinkedPrefix(a, [OOr1(|c| + 2)] + rest, i);
      }
    }
  }

  lemma LastLinked(q: nat, c: Strip)
    requires Linked(c)
    ensures LinkedFrom([OOr1(q), OOr2(|c| + 1)] + c + [O_Ch(|c| + 2)], 1)
  {
    var a, z := [OOr1(q), OOr2(|c| + 1)], [O_Ch(|c| + 2)];
    var s := a + c + z;
    assert LinkedAt(s, 1) && LinkedAt(s, |c| + 2);
    forall i | 1 <= i < |s| ensures LinkedAt(s, i) {
      if 2 <= i < |c| + 2 {
        ShiftAt(a, c, i - 2);
        LinkedPrefix(a + c, z, i);
      }
    }
  }

  lemma {:induction false} TailLinked(q: nat, cs: seq<Strip>)
    requires |cs| >= 1 && AllLinked(cs)
    ensures LinkedFrom([OOr1(q)] + TailCode(cs), 1)
    decreases |cs|
  {
    hide LinkedFrom, LinkedAt;
    var c := cs[0];
    if |cs| == 1 {
      LastLinked(q, c);
      assert [OOr1(q)] + TailCode(cs) == [OOr1(q), OOr2(|c| + 1)] + c + [O_Ch(|c| + 2)];
    } else {
      TailLinked(|c| + 2, cs[1..]);
      TailStarts(cs[1..]);
      MiddleLinked(q, c, TailCode(cs[1..]));
      assert [OOr1(q)] + TailCode(cs) == [OOr1(q), OOr2(|c| + 2)] + c + [OOr1(|c| + 2)] + TailCode(cs[1..]);
    }
  }

  lemma ChoiceLinked(cs: seq<Strip>)
    requires |cs| >= 2 && AllLinked(cs)
    ensures Linked(ChoiceCode(cs))
  {
    hide TailCode;
    var c, t := cs[0], TailCode(cs[1..]);
    TailLinked(|c| + 1, cs[1..]);
    TailStarts(cs[1..]);
    var a := [OCh_(|c| + 2)] + c;
    var s := a + ([OOr1(|c| + 1)] + t);
    assert s == ChoiceCode(cs);
    LinkedShift(a, [OOr1(|c| + 1)] + t, 1);
    assert LinkedAt(s, 0) && LinkedAt(s, |c| + 1);
    forall i | 0 <= i < |s| ensures LinkedAt(s, i) {
      if 0 < i <= |c| {
        ShiftAt([OCh_(|c| + 2)], c, i - 1);
        LinkedPrefix(a, [OOr1(|c| + 1)] + t, i);
      }
    }
  }

  lemma {:induction false} RepLinked(c: Strip, lo: nat, hi: nat)
    requires Linked(c) && Bounds(lo, hi)
    ensures Linked(RepCode(c, lo, hi))
    decreases lo + hi + if lo == 0 then 2 else 0
  {
    hide LinkedAt, PlusCode, ChoiceCode;
    if hi == 0 {
    } else if lo == 0 {
      RepLinked(c, 1, hi);
      ChoiceLinked([RepCode(c, 1, hi), []]);
    } else if lo == 1 && hi == 1 {
    } else if lo == 1 && hi < INFINITY {
      ChoiceLinked([c, []]);
      RepLinked(c, 1, hi - 1);
      LinkedAppend(OptCode(c), RepCode(c, 1, hi - 1), 0);
    } else if lo == 1 {
      PlusLinked(c);
    } else {
      RepLinked(c, lo - 1, if hi == INFINITY then hi else hi - 1);
      LinkedAppend(c, RepCode(c, lo - 1, if hi == INFINITY then hi else hi - 1), 0);
    }
  }

  lemma {:induction false} AltsLinked(x: Alts)
    requires WfAlts(x)
    ensures Linked(AltsCode(x))
    decreases x, 1
  {
    hide ChoiceCode, LinkedAt;
    if x.One? {
      BranchLinked(x.b);
    } else {
      BranchesLinked(x);
      ChoiceLinked(Codes(x));
    }
  }

  lemma {:induction false} BranchesLinked(x: Alts)
    requires WfAlts(x)
    ensures AllLinked(Codes(x))
    decreases x, 0
  {
    hide Linked;
    BranchLinked(x.b);
    if x.Or? { BranchesLinked(x.rest); }
  }

  lemma {:induction false} BranchLinked(x: Branch)
    requires WfBranch(x)
    ensures Linked(BranchCode(x))
  {
    hide LinkedAt;
    if x.Snoc? {
      BranchLinked(x.init);
      ExpLinked(x.last);
      LinkedAppend(BranchCode(x.init), ExpCode(x.last), 0);
    }
  }

  lemma {:induction false} ExpLinked(x: Exp)
    requires WfExp(x)
    ensures Linked(ExpCode(x))
  {
    hide Linked, PlusCode, QuestCode, RepCode;
    AtomLinked(x.a);
    match x
    case Plain(a) =>
    case Star(a) =>
      PlusLinked(AtomCode(a));
      QuestLinked(PlusCode(AtomCode(a)));
    case Rep(a, lo, hi) => RepLinked(AtomCode(a), lo, hi);
  }

  lemma {:induction false} AtomLinked(x: Atom)
    requires WfAtom(x)
    ensures Linked(AtomCode(x))
  {
    match x
    case Chr(_) =>
    case Any =>
    case Set(_) =>
    case EmptyGroup(no) => LinkedWrap(AtomCode(x), OLParen(no), [], ORParen(no));
    case Group(no, alts) =>
      AltsLinked(alts);
      LinkedWrap(AtomCode(x), OLParen(no), AltsCode(alts), ORParen(no));
  }

  /** The finished strip is well bracketed with exact offsets. */
  lemma CompiledLinked(x: Alts)
    requires WfAlts(x)
    ensures Linked(Compiled(x))
  {
    hide AltsCode;
    AltsLinked(x);
    LinkedWrap(Compiled(x), OEnd, AltsCode(x), OEnd);
  }
}
