/** regcomp followed by regexec. */
module RegexSearch {
  import opened RegexLanguage
  import opened RegexStrip
  import opened RegexCode
  import opened RegexLinks
  import opened RegexGrammar
  import opened RegexMust
  import opened RegexStates
  import opened RegexEngine
  import opened RegexLeftmost
  import opened RegexTables
  import opened RegexProgram

  /** Some part of the text is in the language. */
  ghost predicate Occurs(x: Alts, text: string) {
    exists i: nat, j: nat :: OccursBetween(x, text, i, j)
  }

  ghost predicate OccursBetween(x: Alts, text: string, i: nat, j: nat) {
    i <= j <= |text| && text[i..j] in AltsLang(x)
  }

  ghost predicate LongestSpan(x: Alts, text: string, i: nat, j: nat) {
    OccursBetween(x, text, i, j) && forall e: nat :: j < e ==> !OccursBetween(x, text, i, e)
  }

  datatype Answer = BadPattern | NotModelled | Answer(result: RegexEngine.Result)

  /** What regexec is to say of an expression in a text: whether some part of the text is in
      its language, and of which span, one as long as its start allows. */
  ghost predicate Right(r: RegexEngine.Result, x: Alts, text: string, where: bool) {
    && (!r.NoMatch? <==> Occurs(x, text))
    && (r.At? <==> where && Occurs(x, text))
    && (r.At? ==> LongestSpan(x, text, r.so, r.eo) && WfAlts(x) && Starts(Compiled(x), text, r.so))
  }

  ghost predicate Starts(strip: Strip, text: string, so: nat) {
    |strip| >= 2 && exists c: nat, e: nat :: Reports(strip, text, c, e, so)
  }

  ghost predicate Answers(a: Answer, pattern: string, text: string, where: bool) {
    && (a.Answer? <==> exists x :: Accepted(x, pattern))
    && (a.Answer? ==> forall x :: Accepted(x, pattern) ==> Right(a.result, x, text, where))
  }

  lemma MeansMatches(p: Program, x: Alts, pattern: string, text: string)
    requires Means(p, x, pattern)
    ensures Usable(p.strip, p.must)
    ensures (exists i: nat, j: nat :: MatchAt(p.strip, text, i, j)) <==> Occurs(x, text)
  {
    hide Accepts, AltsLang, AltsSpelled, Finished, Holds, Compiled;
    if i: nat, j: nat :| MatchAt(p.strip, text, i, j) { assert OccursBetween(x, text, i, j); }
    if i: nat, j: nat :| OccursBetween(x, text, i, j) { assert MatchAt(p.strip, text, i, j); }
  }

  /** A pattern that is accepted spells one expression, and the answer is right for it. */
  method Search(pattern: string, text: string, where: bool, notbol: bool, noteol: bool) returns (a: Answer)
    ensures Answers(a, pattern, text, where)
  {
    hide Accepts, AltsLang, AltsSpelled, AltsVisible, ReadAlts, Finished, Holds, Reports, Compiled, Accepted;
    var r := Compile(pattern);
    if r.Rejected? { return BadPattern; }
    if r.NotModelled? { return Answer.NotModelled; }
    ghost var x :| Means(r.program, x, pattern);
    MeansMatches(r.program, x, pattern, text);
    var m := Matcher(r.program.strip, r.program.must, text, where, notbol, noteol);
    a := Answer(m);
    OnlyOne(x, pattern, r.program.nsub);
    if m.At? {
      SpanOccurs(r.program, x, pattern, text, m.so, m.eo);
      AtLeastTwo(r.program.strip);
    }
  }

  lemma AtLeastTwo(strip: Strip)
    requires Finished(strip)
    ensures |strip| >= 2
  {
  }

  lemma OnlyOne(x: Alts, pattern: string, n: nat)
    requires AltsSpelled(x, pattern, 0, |pattern|, false, 0, n) && AltsVisible(x)
    ensures forall y :: Accepted(y, pattern) <==> y == x
  {
    hide AltsSpelled, AltsVisible;
    assert Spelled(x, pattern);
    forall y | Spelled(y, pattern) ensures y == x { SpelledOnce(pattern, x, y); }
  }

  lemma SpanOccurs(p: Program, x: Alts, pattern: string, text: string, so: nat, eo: nat)
    requires Means(p, x, pattern) && Longest(p.strip, text, so, |text| + 1, Some(eo))
    ensures LongestSpan(x, text, so, eo)
  {
    hide Accepts, AltsLang, AltsSpelled, AltsVisible, Finished, Holds, Compiled;
    forall e: nat | eo < e ensures !OccursBetween(x, text, so, e) {
      assert MatchAt(p.strip, text, so, e) <==> OccursBetween(x, text, so, e);
    }
  }

  // ----- the answer is determined -----

  lemma ReportsOnce(strip: Strip, text: string, c: nat, e: nat, so: nat, c': nat, e': nat, so': nat)
    requires |strip| >= 2 && Reports(strip, text, c, e, so) && Reports(strip, text, c', e', so')
    ensures c == c' && e == e' && so == so'
  {
    hide Accepts, Live, Cold;
    assert !(e < e') && !(e' < e);
    assert !(c < c') && !(c' < c);
    assert !(so < so') && !(so' < so);
  }

  lemma RightOnce(r: RegexEngine.Result, r': RegexEngine.Result, x: Alts, text: string, where: bool)
    requires Right(r, x, text, where) && Right(r', x, text, where)
    ensures r == r'
  {
    hide OccursBetween, Reports, Compiled;
    if r.At? {
      var s := Compiled(x);
      var c: nat, e: nat :| Reports(s, text, c, e, r.so);
      var c': nat, e': nat :| Reports(s, text, c', e', r'.so);
      ReportsOnce(s, text, c, e, r.so, c', e', r'.so);
      assert !(r.eo < r'.eo) && !(r'.eo < r.eo);
    }
  }

  /** Two answers that the contract allows are the same answer. */
  lemma AnswersOnce(a: Answer, a': Answer, pattern: string, text: string, where: bool)
    requires Answers(a, pattern, text, where) && Answers(a', pattern, text, where) && a.Answer?
    ensures a == a'
  {
    hide Right, Accepted;
    var x :| Accepted(x, pattern);
    RightOnce(a.result, a'.result, x, text, where);
  }

  // ----- which patterns have their leftmost match reported -----

  /** No part of the text before `so` begins a string of the language. */
  ghost predicate NoneBefore(x: Alts, text: string, so: nat) {
    forall i: nat, j: nat :: i < so ==> !OccursBetween(x, text, i, j)
  }

  ghost predicate AnswersLeftmost(pattern: string, x: Alts) {
    forall a: Answer, text: string :: Answers(a, pattern, text, true) && a.Answer? && a.result.At? ==>
      NoneBefore(x, text, a.result.so)
  }

  lemma OccursIs(x: Alts, text: string, i: nat, j: nat)
    requires WfAlts(x)
    ensures OccursBetween(x, text, i, j) <==> MatchAt(Compiled(x), text, i, j)
  {
    hide Accepts, AltsLang, Compiled;
    if i <= j <= |text| { CompiledAccepts(x, text[i..j]); }
  }

  lemma NoneBeforeIs(x: Alts, text: string, so: nat)
    requires WfAlts(x)
    ensures NoneBefore(x, text, so) <==> forall i: nat :: i < so ==> !StartsAt(Compiled(x), text, i)
  {
    hide MatchAt, OccursBetween, Compiled;
    if NoneBefore(x, text, so) {
      forall i: nat, j: nat | i < so ensures !MatchAt(Compiled(x), text, i, j) { OccursIs(x, text, i, j); }
    }
    if forall i: nat :: i < so ==> !StartsAt(Compiled(x), text, i) {
      forall i: nat, j: nat | i < so ensures !OccursBetween(x, text, i, j) {
        OccursIs(x, text, i, j);
        assert !StartsAt(Compiled(x), text, i);
      }
    }
  }

  /** For a pattern that is accepted, every span reported in every text starts where the
      leftmost one does exactly if its program cannot be mistaken. */
  lemma PatternLeftmost(pattern: string, x: Alts)
    requires Accepted(x, pattern)
    ensures WfAlts(x) && |Compiled(x)| >= 2
    ensures AnswersLeftmost(pattern, x) <==> !Confusable(Compiled(x))
  {
    AcceptedWf(x, pattern);
    hide Accepted, Answers, Compiled, Confusable, NoneBefore;
    if Confusable(Compiled(x)) {
      var a, text := SomeMistake(pattern, x);
    } else {
      forall a: Answer, text: string | Answers(a, pattern, text, true) && a.Answer? && a.result.At?
        ensures NoneBefore(x, text, a.result.so)
      {
        NoMistake(pattern, x, a, text);
      }
    }
  }

  /** The same condition, on sets of states of the program. */
  lemma PatternTable(pattern: string, x: Alts)
    requires Accepted(x, pattern)
    ensures WfAlts(x) && Finished(Compiled(x))
    ensures AnswersLeftmost(pattern, x) <==> exists table, dead :: SureTable(Compiled(x), table, dead)
  {
    PatternLeftmost(pattern, x);
    CompiledLinked(x);
    hide Accepted, AnswersLeftmost, SureTable, Confusable, AlwaysLeftmost, AltsCode, Linked;
    LeftmostIff(Compiled(x));
    TableIff(Compiled(x));
  }

  lemma AcceptedWf(x: Alts, pattern: string)
    requires Accepted(x, pattern)
    ensures WfAlts(x) && |Compiled(x)| >= 2
  {
    hide ReadAlts, AltsCode, AltsSpelled;
    ReadsSpelled(pattern, x);
  }

  lemma NoMistake(pattern: string, x: Alts, a: Answer, text: string)
    requires Accepted(x, pattern) && Answers(a, pattern, text, true) && a.Answer? && a.result.At?
    requires WfAlts(x) && |Compiled(x)| >= 2 && !Confusable(Compiled(x))
    ensures NoneBefore(x, text, a.result.so)
  {
    hide Accepted, Confusable, Compiled, Reports, LongestSpan;
    var c: nat, e: nat :| Reports(Compiled(x), text, c, e, a.result.so);
    SureLeftmost(Compiled(x), text, c, e, a.result.so);
    NoneBeforeIs(x, text, a.result.so);
  }

  lemma SomeMistake(pattern: string, x: Alts) returns (a: Answer, text: string)
    requires Accepted(x, pattern) && WfAlts(x) && |Compiled(x)| >= 2 && Confusable(Compiled(x))
    ensures Answers(a, pattern, text, true) && a.Answer? && a.result.At? && !NoneBefore(x, text, a.result.so)
  {
    hide Compiled, Mistaken, Spelled, AltsVisible, MatchAt, OccursBetween;
    var s := Compiled(x);
    var u: string, i: nat, q: nat, v: string :| Mistaken(s, u, i, q, v);
    text := u + v;
    var c, e, so := MistakeReports(s, u, i, q, v);
    NoneBeforeIs(x, text, so);
    var j: nat :| MatchAt(s, text, so, j);
    OccursIs(x, text, so, j);
    var eo := LongestFrom(x, text, so, j);
    a := Answer(At(so, eo));
    assert Right(a.result, x, text, true);
    forall y | Accepted(y, pattern) ensures y == x { SpelledOnce(pattern, x, y); }
  }

  lemma {:induction false} LongestFrom(x: Alts, text: string, i: nat, j: nat) returns (e: nat)
    requires OccursBetween(x, text, i, j)
    ensures LongestSpan(x, text, i, e)
    decreases |text| - j
  {
    hide AltsLang;
    if k: nat :| j < k && OccursBetween(x, text, i, k) { e := LongestFrom(x, text, i, k); } else { e := j; }
  }

  // ----- a match that is not the leftmost one -----

  /** (()|b)c */
  ghost function Odd(): Alts { One(Snoc(Snoc(Empty, Plain(Group(1, OddGroup()))), Plain(Chr('c')))) }

  ghost function OddGroup(): Alts { Or(OddEmpty(), One(OddLetter())) }

  ghost function OddEmpty(): Branch { Snoc(Empty, Plain(EmptyGroup(2))) }

  ghost function OddLetter(): Branch { Snoc(Empty, Plain(Chr('b'))) }

  ghost function OddChoice(): Strip {
    [OCh_(4), OLParen(2), ORParen(2), OOr1(3), OOr2(2), OChar('b'), O_Ch(3)]
  }

  ghost function OddStrip(): Strip {
    [OEnd, OLParen(1), OCh_(4), OLParen(2), ORParen(2), OOr1(3), OOr2(2), OChar('b'), O_Ch(3), ORParen(1), OChar('c'),
     OEnd]
  }

  lemma OddBranches()
    ensures BranchCode(OddEmpty()) == [OLParen(2), ORParen(2)] && BranchCode(OddLetter()) == [OChar('b')]
  {
    assert BranchCode(Empty) == [];
  }

  lemma OddGroupCode()
    ensures AltsCode(OddGroup()) == OddChoice()
  {
    OddBranches();
    hide BranchCode;
    var e, b := [OLParen(2), ORParen(2)], [OChar('b')];
    assert Codes(One(OddLetter())) == [b];
    assert Codes(OddGroup()) == [e, b];
    assert [e, b][1..] == [b];
    assert TailCode([b]) == [OOr2(2), OChar('b'), O_Ch(3)];
  }

  lemma OddCompiled()
    ensures WfAlts(Odd()) && Compiled(Odd()) == OddStrip()
  {
    OddBranchCode();
    hide BranchCode;
    OneCode(Odd().b);
  }

  lemma OddBranchCode()
    ensures WfAlts(Odd()) && BranchCode(Odd().b) == [OLParen(1)] + OddChoice() + [ORParen(1)] + [OChar('c')]
  {
    OddGroupCode();
    hide AltsCode, OddChoice;
    var g := Group(1, OddGroup());
    assert AtomCode(g) == [OLParen(1)] + OddChoice() + [ORParen(1)];
    assert BranchCode(Empty) == [];
    assert BranchCode(Snoc(Empty, Plain(g))) == AtomCode(g);
  }

  lemma OneCode(b: Branch)
    requires WfBranch(b)
    ensures AltsCode(One(b)) == BranchCode(b)
  {
  }

  ghost predicate Fits(s: Strip) { s == OddStrip() && Finished(s) }

  lemma OddFits()
    ensures Fits(OddStrip())
  {
    var s := OddStrip();
    forall i | 0 <= i < |s| ensures LinkedAt(s, i) {}
  }

  lemma FreeThen(s: Strip, p: nat, q: nat)
    requires Fresh(s, p) && Free(s, p, q)
    ensures Fresh(s, q)
  {
    hide Reaches;
    ReachesFree(s, p, q);
    ReachesThen(s, 1, "", p, "", q);
    assert "" + "" == "";
  }

  /** A set that free moves do not lead out of is what a step from it, on a character that
      leads nowhere else, comes to. */
  lemma StepIs(s: Strip, bef: set<nat>, ch: Input, aft: set<nat>, r: set<nat>)
    requires Finished(s) && States(s, bef) && States(s, r) && aft <= r && Done(s, bef, ch, r, Last(s))
    requires forall q: nat :: q in r ==> Reached(s, bef, ch, aft, q)
    ensures forall q: nat :: q in r <==> Reached(s, bef, ch, aft, q)
  {
    hide Reached;
    forall q: nat | Reached(s, bef, ch, aft, q) ensures q in r { ClosedReached(s, bef, ch, aft, r, q); }
  }

  lemma OddFree(s: Strip)
    requires Fits(s)
    ensures Free(s, 1, 2) && Free(s, 2, 3) && Free(s, 3, 4) && Free(s, 4, 5) && Free(s, 5, 8) && Free(s, 8, 9)
    ensures Free(s, 9, 10) && Free(s, 2, 6) && Free(s, 6, 7)
  {
    assert ChainEnd(s, 8) == 8;
    assert ChainEnd(s, 6) == 8;
  }

  /** Before anything is read all states but the last are reached. */
  lemma OddFresh(s: Strip)
    requires Fits(s)
    ensures IsFresh(s, Upto(10))
  {
    OneFresh(s);
    hide Free, Fresh, Finished;
    OddFree(s);
    FreeThen(s, 1, 2);
    FreeThen(s, 2, 3);
    FreeThen(s, 3, 4);
    FreeThen(s, 4, 5);
    FreeThen(s, 5, 8);
    FreeThen(s, 8, 9);
    FreeThen(s, 9, 10);
    FreeThen(s, 2, 6);
    FreeThen(s, 6, 7);
    OddDone(s, {}, Nothing, Upto(10));
    forall q: nat ensures q in Upto(10) <==> Fresh(s, q) {
      if Fresh(s, q) { FreshStays(s, q); }
    }
  }

  lemma OneFresh(s: Strip)
    ensures Fresh(s, 1)
  {
    ReachesSelf(s, 1);
  }

  lemma FreshStays(s: Strip, q: nat)
    requires Finished(s) && Last(s) == 11 && Done(s, {}, Nothing, Upto(10), 11) && Fresh(s, q)
    ensures q in Upto(10)
  {
    hide Reaches;
    ClosedHolds(s, {}, Nothing, Upto(10), 1, q);
  }

  lemma OddDone(s: Strip, bef: set<nat>, ch: Input, r: set<nat>)
    requires Fits(s) && bef <= Upto(10) && Upto(10) <= r <= Upto(11)
    requires ch == Letter('c') ==> 11 in r
    requires ch.Letter? ==> ch.c == 'b' || ch.c == 'c'
    ensures Done(s, bef, ch, r, 11)
  {
    OddFree(s);
    assert ChainEnd(s, 6) == 8;
    forall p | 1 <= p < 11 ensures Settled(s, bef, ch, r, p) { assert LinkedAt(s, p); }
  }

  /** In "bc" the states after the b are those of a fresh start, so the match of the whole
      text is given up for the one that begins at the c. */
  lemma OddReported()
    ensures Finished(Compiled(Odd())) && Reports(Compiled(Odd()), "bc", 1, 2, 1)
    ensures MatchAt(Compiled(Odd()), "bc", 0, 2) && MatchAt(Compiled(Odd()), "bc", 1, 2)
  {
    OddCompiled();
    OddFits();
    OddTracks(OddStrip());
    OddReports(OddStrip());
  }

  lemma OddSpelled()
    ensures Accepted(Odd(), "(()|b)c")
  {
    OddGroupSpelled();
    hide AltsSpelled;
    var s := "(()|b)c";
    var g := Group(1, OddGroup());
    assert AtomSpelled(g, s, 0, 6, 0, 2);
    PlainSpelled(g, s, 0, 6, 0, 2);
    assert AtomSpelled(Chr('c'), s, 6, 7, 2, 2);
    PlainSpelled(Chr('c'), s, 6, 7, 2, 2);
    hide ExpSpelled;
    EmptySpelled(s, 0, 0);
    assert BranchSpelled(Snoc(Empty, Plain(g)), s, 0, 6, 0, 2);
    assert BranchSpelled(Snoc(Snoc(Empty, Plain(g)), Plain(Chr('c'))), s, 0, 7, 0, 2);
    WholeSpelled(Odd().b, s, 2);
    OddVisible();
  }

  lemma WholeSpelled(b: Branch, s: string, m: nat)
    requires BranchSpelled(b, s, 0, |s|, 0, m)
    ensures Spelled(One(b), s)
  {
    assert AltsSpelled(One(b), s, 0, |s|, false, 0, m);
  }

  lemma PlainSpelled(a: Atom, s: string, i: nat, j: nat, n: nat, m: nat)
    requires AtomSpelled(a, s, i, j, n, m) && !RepOpAt(s, j)
    ensures ExpSpelled(Plain(a), s, i, j, n, m)
  {
    hide AtomSpelled;
    AtomHere(a, s, i, j, n, m);
    assert SuffixSpelled(Plain(a), s, j, j);
  }

  lemma OddGroupSpelled()
    ensures AltsSpelled(OddGroup(), "(()|b)c", 1, 5, true, 1, 2)
  {
    var s := "(()|b)c";
    assert AtomSpelled(EmptyGroup(2), s, 1, 3, 1, 2);
    PlainSpelled(EmptyGroup(2), s, 1, 3, 1, 2);
    assert AtomSpelled(Chr('b'), s, 4, 5, 2, 2);
    PlainSpelled(Chr('b'), s, 4, 5, 2, 2);
    hide ExpSpelled;
    EmptySpelled(s, 1, 1);
    EmptySpelled(s, 4, 2);
    assert BranchSpelled(OddEmpty(), s, 1, 3, 1, 2);
    assert BranchSpelled(OddLetter(), s, 4, 5, 2, 2);
    assert AltsSpelled(One(OddLetter()), s, 4, 5, true, 2, 2);
  }

  lemma OddVisible()
    ensures AltsVisible(Odd())
  {
    assert AltsVisible(One(OddLetter()));
    assert AltsVisible(OddGroup());
  }

  /** Asked for `(()|b)c` in "bc", regcomp and regexec report the span from 1 to 2 although
      the whole text matches. */
  lemma NotLeftmost(a: Answer)
    requires Answers(a, "(()|b)c", "bc", true)
    ensures a == Answer(At(1, 2)) && OccursBetween(Odd(), "bc", 0, 2)
  {
    hide Accepted, Compiled, Reports, MatchAt, OccursBetween;
    OddSpelled();
    OddReported();
    AcceptedWf(Odd(), "(()|b)c");
    OccursIs(Odd(), "bc", 0, 2);
    OccursIs(Odd(), "bc", 1, 2);
    OddLongest();
    RightOnce(a.result, At(1, 2), Odd(), "bc", true);
  }

  lemma OddLongest()
    ensures OccursBetween(Odd(), "bc", 1, 2) ==> LongestSpan(Odd(), "bc", 1, 2)
  {
    hide AltsLang;
  }

  lemma OddTracks(s: Strip)
    requires Fits(s)
    ensures IsFresh(s, Upto(10)) && TracksAll(s, "bc", 0, Upto(10)) && TracksAll(s, "bc", 1, Upto(10))
    ensures TracksAll(s, "bc", 2, Upto(11))
  {
    hide Reached, Live, Free, Done, Linked, Fresh;
    OddFresh(s);
    FreshTracks(s, "bc", 0, Upto(10));
    OddDone(s, Upto(10), Letter('b'), Upto(10));
    GivenReached(s, Upto(10), Letter('b'), Upto(10));
    StepIs(s, Upto(10), Letter('b'), Upto(10), Upto(10));
    TracksAllNext(s, "bc", 0, Upto(10), Upto(10), Upto(10));
    OddDone(s, Upto(10), Letter('c'), Upto(11));
    GivenReached(s, Upto(10), Letter('c'), Upto(10));
    SeedReached(s, Upto(10), Letter('c'), Upto(10), 11);
    StepIs(s, Upto(10), Letter('c'), Upto(10), Upto(11));
    TracksAllNext(s, "bc", 1, Upto(10), Upto(10), Upto(11));
  }

  lemma SeedReached(s: Strip, bef: set<nat>, ch: Input, aft: set<nat>, q: nat)
    requires Seed(s, bef, ch, aft, q)
    ensures Reached(s, bef, ch, aft, q)
  {
    ReachesSelf(s, q);
  }

  lemma OddReports(s: Strip)
    requires Fits(s) && IsFresh(s, Upto(10)) && TracksAll(s, "bc", 0, Upto(10)) && TracksAll(s, "bc", 1, Upto(10))
    requires TracksAll(s, "bc", 2, Upto(11))
    ensures Reports(s, "bc", 1, 2, 1) && MatchAt(s, "bc", 0, 2) && MatchAt(s, "bc", 1, 2)
  {
    hide Reaches, Live, Cold, Free, Linked;
    ColdIs(s, "bc", 1, Upto(10), Upto(10));
    ColdIs(s, "bc", 2, Upto(11), Upto(10));
    assert 11 in Upto(11);
    OddMatches(s);
    assert StartsAt(s, "bc", 1);
  }

  lemma OddMatches(s: Strip)
    requires Fits(s) && IsFresh(s, Upto(10))
    ensures MatchAt(s, "bc", 0, 2) && MatchAt(s, "bc", 1, 2)
  {
    hide Reaches, Linked;
    assert Fresh(s, 10) && Fresh(s, 7);
    ReachesEats(s, 10, 'c');
    ReachesThen(s, 1, "", 10, "c", 11);
    assert "" + "c" == "c" == "bc"[1..2];
    ReachesEats(s, 7, 'b');
    ReachesThen(s, 1, "", 7, "b", 8);
    assert "" + "b" == "b";
    OddFree(s);
    ReachesFree(s, 8, 9);
    assert "b" + "" == "b";
    ReachesThen(s, 1, "b", 8, "", 9);
    ReachesFree(s, 9, 10);
    ReachesThen(s, 1, "b", 9, "", 10);
    ReachesThen(s, 1, "b", 10, "c", 11);
    assert "b" + "c" == "bc" == "bc"[0..2];
  }
}
