/** regcomp: from the pattern to the finished program. */
module RegexProgram {
  import opened RegexLanguage
  import opened RegexStrip
  import opened RegexCode
  import opened RegexLinks
  import opened RegexLexis
  import opened RegexGrammar
  import opened RegexErrors
  import opened RegexCompiler
  import opened RegexMust
  import opened RegexNesting

  /** What regcomp leaves for regexec. */
  datatype Program = Program(strip: Strip, nsub: nat, must: string, nplus: nat)

  datatype Outcome = Good(program: Program) | Rejected(error: nat) | NotModelled

  /** What a pattern must spell to be accepted: an expression without a branch that emits
      nothing. */
  ghost predicate Accepted(x: Alts, pattern: string) { Spelled(x, pattern) && AltsVisible(x) }

  /** The program stands for the expression that the pattern spells. */
  ghost predicate Means(p: Program, x: Alts, pattern: string) {
    && AltsSpelled(x, pattern, 0, |pattern|, false, 0, p.nsub) && AltsVisible(x)
    && WfAlts(x) && p.strip == Compiled(x) && Finished(p.strip)
    && (forall w: string :: Accepts(p.strip, w) <==> w in AltsLang(x))
    && (forall w: string :: w in AltsLang(x) ==> Holds(w, p.must))
    && p.nplus == AltsDepth(x)
  }

  lemma CompiledMeans(x: Alts, must: string)
    requires WfAlts(x) && ScanFrom(Compiled(x), 1, Run("", "")) == Must(must)
    ensures Finished(Compiled(x))
    ensures forall w: string :: Accepts(Compiled(x), w) <==> w in AltsLang(x)
    ensures forall w: string :: w in AltsLang(x) ==> Holds(w, must)
    ensures CountFrom(Compiled(x), 1, Count(0, 0)) == Count(0, AltsDepth(x))
  {
    hide AltsLang, Accepts, ScanFrom, CountFrom, Holds, AltsCode, AltsDepth;
    CompiledLinked(x);
    CountsDepth(x);
    forall w: string
      ensures Accepts(Compiled(x), w) <==> w in AltsLang(x)
      ensures w in AltsLang(x) ==> Holds(w, must)
    {
      CompiledAccepts(x, w);
      MustHolds(x, w);
    }
  }

  /** regcomp for an extended expression: a program comes out exactly for the patterns that
      spell an expression with no branch that emits nothing, and it is a program for that
      expression. Otherwise the code is that of the error which the pattern has. */
  method Compile(pattern: string) returns (r: Outcome)
    ensures r.Good? <==> exists x :: Accepted(x, pattern)
    ensures r.Good? ==> exists x :: Means(r.program, x, pattern)
    ensures r.NotModelled? <==> Unmodelled(pattern)
    ensures forall e: nat :: r == Rejected(e) <==> ErrorSpelled(pattern, e)
  {
    hide ErrorSpelled, Unmodelled, ReadAlts, Compiled, AltsCode, Accepted, AltsSpelled, AltsVisible, Finished, ScanFrom,
      CountFrom, AltsDepth;
    ReadingSpelled(pattern);
    FaultIff(pattern, 0);
    forall e: nat ensures ReadAlts(pattern, 0, false, 0, true) == Bad(e) <==> ErrorSpelled(pattern, e) {
      FaultIff(pattern, e);
    }
    var p := new Parse(pattern);
    p.Emit(OEnd);
    p.Ere(false);
    p.Emit(OEnd);
    if p.error != 0 {
      return if p.beyond then NotModelled else Rejected(p.error);
    }
    ghost var x := ReadAlts(pattern, 0, false, 0, true).v;
    assert p.strip == Compiled(x) by { CompiledIs(x); }
    ghost var scanned := ScanFrom(Compiled(x), 1, Run("", ""));
    MustHolds(x, "");
    CompiledMeans(x, scanned.best);
    var must := FindMust(p.strip);
    var n := PlusCount(p.strip);
    // iflags has BAD set exactly if a loop were left open
    assert n.nest == 0;
    r := Good(Program(p.strip, p.nsub, must, n.max));
    assert Means(r.program, x, pattern);
  }

  lemma CompiledIs(x: Alts)
    requires WfAlts(x)
    ensures Compiled(x) == [OEnd] + AltsCode(x) + [OEnd]
  {
  }

  /** Reading the pattern and its spelling an accepted expression are the same thing. */
  lemma ReadingSpelled(pattern: string)
    ensures var r := ReadAlts(pattern, 0, false, 0, true);
      && (r.Read? <==> exists x :: Accepted(x, pattern))
      && (r.Read? ==> AltsSpelled(r.v, pattern, 0, |pattern|, false, 0, r.nsub) && AltsVisible(r.v))
  {
    hide ReadAlts, AltsSpelled, Spelled, AltsVisible;
    var r := ReadAlts(pattern, 0, false, 0, true);
    AltsStrict(pattern, 0, false, 0);
    if r.Read? {
      AltsSound(pattern, 0, false, 0);
      ReadsAll(pattern, 0, 0);
      SpelledIs(r.v, pattern, r.nsub);
      assert Accepted(r.v, pattern);
    }
    if x :| Accepted(x, pattern) { AcceptedIff(pattern, x); }
  }

  /** Outside groups nothing stops the reading before the end. */
  lemma {:induction false} ReadsAll(s: string, i: nat, n: nat)
    requires i <= |s|
    ensures var r := ReadAlts(s, i, false, n, true); r.Read? ==> r.next == |s|
    decreases |s| - i
  {
    hide ReadBranch, Emits;
    var r := ReadBranch(s, i, false, n, Empty, true);
    if r.Read? && r.next < |s| { ReadsAll(s, r.next + 1, r.nsub); }
  }

  lemma SpelledIs(x: Alts, s: string, m: nat)
    requires AltsSpelled(x, s, 0, |s|, false, 0, m)
    ensures Spelled(x, s)
  {
  }
}
