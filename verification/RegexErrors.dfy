/** Which error a pattern has, said with the grammar alone: where it stops being spelled, how many
    groups are open there, and what stands in that place. */
module RegexErrors {
  import opened RegexLanguage
  import opened RegexCode
  import opened RegexLexis
  import opened RegexGrammar

  // ----- bracket expressions -----

  /** Where the members of the bracket expression after `i` begin: behind `^` and a first `]` or
      `-`. */
  function MembersFrom(s: string, i: nat): nat {
    var k := if i < |s| && s[i] == '^' then i + 1 else i;
    if k < |s| && (s[k] == ']' || s[k] == '-') then k + 1 else k
  }

  /** No member can stand here: the text ends, a `-` is out of place, or a range is out of order. */
  predicate NoMember(s: string, b: nat, e: nat) {
    || (b == |s| && e == REG_EBRACK)
    || (b < |s| && s[b] == '-' && !SeeTwo(s, b, '-', ']') && e == REG_ERANGE)
    || (MemberAt(s, b) && RangeAt(s, b) && !SeeTwo(s, b + 2, '[', '.') && s[b] > s[b + 2] && e == REG_ERANGE)
  }

  ghost predicate BracketOffends(s: string, i: nat, e: nat) {
    exists b: nat, u: set<char> :: TermsSpelled(u, s, MembersFrom(s, i), b) && NoMember(s, b, e)
  }

  /** A member that is not modelled: a name in [: :], [= =] or [. .], or a range up to one. */
  predicate OddMember(s: string, b: nat) {
    || SeeTwo(s, b, '[', ':') || SeeTwo(s, b, '[', '=') || SeeTwo(s, b, '[', '.')
    || (MemberAt(s, b) && RangeAt(s, b) && SeeTwo(s, b + 2, '[', '.'))
  }

  ghost predicate BracketBeyond(s: string, i: nat) {
    exists b: nat, u: set<char> :: TermsSpelled(u, s, MembersFrom(s, i), b) && OddMember(s, b)
  }

  lemma {:induction false} TermsArrive(t: set<char>, s: string, i: nat, j: nat, acc: set<char>)
    requires TermsSpelled(t, s, i, j)
    ensures i <= j <= |s| && ReadTerms(s, i, acc) == ReadTerms(s, j, acc + t)
    decreases j - i
  {
    hide TermSpelled, ReadTerm;
    if i == j && t == {} {
      assert acc + t == acc;
    } else {
      var k: nat, u: set<char>, v: set<char> :| FirstTerm(u, s, i, k, j) && TermsSpelled(v, s, k, j) && t == u + v;
      TermsArrive(v, s, k, j, acc + u);
      TermHere(u, s, i, k);
      assert acc + u + v == acc + t;
    }
  }

  lemma TermHere(t: set<char>, s: string, i: nat, j: nat)
    requires TermSpelled(t, s, i, j)
    ensures i < |s| && !TermsEnd(s, i) && ReadTerm(s, i) == Read(t, j, 0)
  {
    TermComplete(t, s, i, j);
  }

  /** Reading the members stops where one cannot be read. */
  lemma {:induction false} TermsStop(s: string, i: nat, acc: set<char>) returns (b: nat, u: set<char>)
    requires i <= |s|
    ensures i <= b <= |s| && TermsSpelled(u, s, i, b)
    ensures TermsEnd(s, b) || (b < |s| && !TermsEnd(s, b) && !ReadTerm(s, b).Read?)
    decreases |s| - i
  {
    hide TermSpelled, ReadTerm;
    if TermsEnd(s, i) || !ReadTerm(s, i).Read? {
      b, u := i, {};
    } else {
      TermSound(s, i);
      var r := ReadTerm(s, i);
      var v;
      b, v := TermsStop(s, r.next, acc + r.v);
      u := r.v + v;
      assert FirstTerm(r.v, s, i, r.next, b);
    }
  }

  lemma BracketAt(s: string, i: nat, b: nat, u: set<char>)
    requires i <= |s| && TermsSpelled(u, s, MembersFrom(s, i), b)
    ensures b <= |s|
    ensures var r := ReadBracket(s, i);
      && (TermsEnd(s, b) && b < |s| ==> r.Read?)
      && (b == |s| ==> r == Bad(REG_EBRACK))
      && (b < |s| && !TermsEnd(s, b) && ReadTerm(s, b).Bad? ==> r == Bad(ReadTerm(s, b).code))
      && (b < |s| && !TermsEnd(s, b) && ReadTerm(s, b).Beyond? ==> r == Beyond)
  {
    hide TermsSpelled, ReadTerm;
    var k := if i < |s| && s[i] == '^' then i + 1 else i;
    var acc := if k < |s| && (s[k] == ']' || s[k] == '-') then {s[k]} else {};
    TermsArrive(u, s, MembersFrom(s, i), b, acc);
    if b < |s| || b == |s| {
      if TermsEnd(s, b) { NoTerms(s, b, acc + u); }
    }
    if WordMarkAt(s, i) { MarkIs(s, i, b, u); }
  }

  /** A word mark is an unmodelled member at the start. */
  lemma MarkIs(s: string, i: nat, b: nat, u: set<char>)
    requires WordMarkAt(s, i) && TermsSpelled(u, s, MembersFrom(s, i), b)
    ensures b == i && !TermsEnd(s, b) && ReadTerm(s, b).Beyond?
  {
    assert SeeTwo(s, i, '[', ':');
  }

  lemma NoMemberIs(s: string, b: nat, e: nat)
    requires b <= |s|
    ensures NoMember(s, b, e) <==>
      || (b == |s| && e == REG_EBRACK)
      || (b < |s| && !TermsEnd(s, b) && ReadTerm(s, b) == Bad(e))
    ensures OddMember(s, b) <==> b < |s| && !TermsEnd(s, b) && ReadTerm(s, b).Beyond?
  {
  }

  lemma BracketFaults(s: string, i: nat, e: nat)
    requires i <= |s|
    ensures ReadBracket(s, i) == Bad(e) <==> BracketOffends(s, i, e)
    ensures ReadBracket(s, i).Beyond? <==> BracketBeyond(s, i)
  {
    hide TermsSpelled, ReadTerm, ReadBracket, NoMember, OddMember;
    var b, u := TermsStop(s, MembersFrom(s, i), {});
    BracketAt(s, i, b, u);
    NoMemberIs(s, b, e);
    if b': nat, u': set<char> :| TermsSpelled(u', s, MembersFrom(s, i), b') && NoMember(s, b', e) {
      BracketAt(s, i, b', u');
      NoMemberIs(s, b', e);
    }
    if b': nat, u': set<char> :| TermsSpelled(u', s, MembersFrom(s, i), b') && OddMember(s, b') {
      BracketAt(s, i, b', u');
      NoMemberIs(s, b', e);
    }
  }

  // ----- bounds -----

  /** All the digits from `i` on. */
  predicate Digits(s: string, i: nat, j: nat) {
    i < j <= |s| && (forall k :: i <= k < j ==> Digit(s[k])) && !DigitAt(s, j)
  }

  ghost predicate TooLarge(s: string, i: nat) { exists j: nat :: Digits(s, i, j) && Value(s, i, j) > DUPMAX }

  ghost predicate BraceAfter(s: string, k: nat) { exists m: nat :: k <= m < |s| && s[m] == '}' }

  /** No `}` in its place; the error depends on whether there is one further on. */
  ghost predicate BraceMissing(s: string, k: nat, e: nat) {
    !(k < |s| && s[k] == '}') && e == if BraceAfter(s, k) then REG_BADBR else REG_EBRACE
  }

  ghost predicate BoundsOffend(s: string, i: nat, e: nat) {
    || (TooLarge(s, i) && e == REG_BADBR)
    || exists lo: nat, j: nat :: NumeralSpelled(lo, s, i, j) && AfterFirst(s, lo, j, e)
  }

  ghost predicate AfterFirst(s: string, lo: nat, j: nat, e: nat) {
    if j < |s| && s[j] == ',' then
      if DigitAt(s, j + 1) then AtSecond(s, lo, j + 1, e) else BraceMissing(s, j + 1, e)
    else BraceMissing(s, j, e)
  }

  ghost predicate AtSecond(s: string, lo: nat, i: nat, e: nat) {
    || (TooLarge(s, i) && e == REG_BADBR)
    || exists hi: nat, k: nat :: NumeralSpelled(hi, s, i, k) && AfterSecond(s, lo, hi, k, e)
  }

  ghost predicate AfterSecond(s: string, lo: nat, hi: nat, k: nat, e: nat) {
    if lo > hi then e == REG_BADBR else BraceMissing(s, k, e)
  }

  lemma {:induction false} DigitsEnd(s: string, i: nat, j: nat) returns (e: nat)
    requires i <= j <= |s| && (forall k :: i <= k < j ==> Digit(s[k]))
    ensures j <= e <= |s| && (forall k :: i <= k < e ==> Digit(s[k])) && !DigitAt(s, e)
    decreases |s| - j
  {
    if DigitAt(s, j) { e := DigitsEnd(s, i, j + 1); } else { e := j; }
  }

  lemma CountBad(s: string, i: nat)
    requires i <= |s| && DigitAt(s, i)
    ensures ReadCount(s, i).Bad? <==> TooLarge(s, i)
  {
    hide Value, ReadCount;
    var e := DigitsEnd(s, i, i + 1);
    assert Digits(s, i, e);
    forall j: nat | Digits(s, i, j) ensures j == e { assert !(j < e) && !(e < j); }
    CountReads(s, i, Value(s, i, e), e);
    if ReadCount(s, i).Read? {
      var r := ReadCount(s, i);
      CountReads(s, i, r.v, r.next);
      assert Digits(s, i, r.next);
    }
  }

  lemma BraceIs(s: string, k: nat, e: nat)
    ensures !(k < |s| && s[k] == '}') ==> (BraceMissing(s, k, e) <==> e == MissingBrace(s, k))
  {
  }

  lemma BoundsFaults(s: string, i: nat, e: nat)
    requires i <= |s| && DigitAt(s, i)
    ensures ReadBounds(s, i) == Bad(e) <==> BoundsOffend(s, i, e)
  {
    hide NumeralSpelled, ReadCount, TooLarge, AfterFirst, ReadBounds;
    CountBad(s, i);
    var r := ReadCount(s, i);
    FirstCount(s, i, e);
    forall lo: nat, j: nat ensures NumeralSpelled(lo, s, i, j) <==> r == Read(lo, j, 0) { CountReads(s, i, lo, j); }
  }

  lemma FirstCount(s: string, i: nat, e: nat)
    requires i <= |s| && DigitAt(s, i)
    ensures var r := ReadCount(s, i);
      && (r.Bad? ==> ReadBounds(s, i) == Bad(REG_BADBR))
      && (r.Read? ==> (ReadBounds(s, i) == Bad(e) <==> AfterFirst(s, r.v, r.next, e)))
  {
    hide NumeralSpelled, ReadCount, AtSecond, BraceMissing, MissingBrace;
    var r := ReadCount(s, i);
    if r.Read? {
      var j := r.next;
      BraceIs(s, j, e);
      BraceHere(s, j, e);
      BraceIs(s, j + 1, e);
      BraceHere(s, j + 1, e);
      if j < |s| && s[j] == ',' && DigitAt(s, j + 1) {
        SecondCount(s, r.v, j + 1, e);
      }
    }
  }

  lemma SecondCount(s: string, lo: nat, i: nat, e: nat)
    requires i <= |s| && DigitAt(s, i)
    ensures var q := ReadCount(s, i);
      AtSecond(s, lo, i, e) <==>
        if !q.Read? || lo > q.v then e == REG_BADBR
        else !(q.next < |s| && s[q.next] == '}') && e == MissingBrace(s, q.next)
  {
    hide NumeralSpelled, ReadCount, TooLarge, BraceMissing, MissingBrace;
    CountBad(s, i);
    var q := ReadCount(s, i);
    if q.Read? {
      BraceIs(s, q.next, e);
      BraceHere(s, q.next, e);
      CountReads(s, i, q.v, q.next);
    }
    if hi: nat, k: nat :| NumeralSpelled(hi, s, i, k) && AfterSecond(s, lo, hi, k, e) { CountReads(s, i, hi, k); }
  }

  lemma BraceHere(s: string, k: nat, e: nat)
    ensures BraceMissing(s, k, e) ==> !(k < |s| && s[k] == '}')
  {
  }

  // ----- how far a pattern is spelled -----

  /** A branch is to begin at `i`, inside `d` open groups and after `n` opened ones: at the start,
      behind a `|` that ends a visible branch, or behind the `(` of a group that is not empty. */
  ghost predicate BranchStart(s: string, i: nat, d: nat, n: nat)
    decreases i, 0
  {
    || (i == 0 && d == 0 && n == 0)
    || (exists j: nat, m: nat, b: Branch :: j < i && BranchStart(s, j, d, m) && BehindBar(b, s, j, i, m, n))
    || (d > 0 && n > 0 && 0 < i < |s| && s[i - 1] == '(' && s[i] != ')' && PieceStart(s, i - 1, d - 1, n - 1))
  }

  /** A piece is to begin at `i`: what stands since the start of the branch is spelled. */
  ghost predicate PieceStart(s: string, i: nat, d: nat, n: nat)
    decreases i, 1
  {
    exists j: nat, m: nat, b: Branch :: j <= i && BranchStart(s, j, d, m) && GoodPieces(b, s, j, i, m, n)
  }

  /** Pieces in which every branch is visible. */
  ghost predicate GoodPieces(b: Branch, s: string, i: nat, j: nat, n: nat, m: nat) {
    BranchSpelled(b, s, i, j, n, m) && PiecesVisible(b)
  }

  ghost predicate BehindBar(b: Branch, s: string, i: nat, j: nat, n: nat, m: nat) {
    0 < j <= |s| && s[j - 1] == '|' && GoodPieces(b, s, i, j - 1, n, m) && Visible(b)
  }

  // ----- what is wrong there -----

  /** No piece can begin at `i`, or it goes wrong inside. */
  ghost predicate PieceOffends(s: string, i: nat, n: nat, e: nat) {
    i < |s| &&
    (|| (s[i] == ')' && e == REG_EPAREN)
     || (s[i] == '(' && i + 1 == |s| && e == REG_EPAREN)
     || ((s[i] == '*' || s[i] == '+' || s[i] == '?' || (s[i] == '{' && DigitAt(s, i + 1))) && e == REG_BADRPT)
     || (s[i] == '\\' && i + 1 == |s| && e == REG_EESCAPE)
     || (s[i] == '[' && BracketOffends(s, i + 1, e))
     || exists a: Atom, k: nat, m: nat :: AtomSpelled(a, s, i, k, n, m) && AtomVisible(a) && SuffixOffends(s, k, e))
  }

  /** After an atom: bounds that are wrong, or a second operator. */
  ghost predicate SuffixOffends(s: string, k: nat, e: nat) {
    || (k < |s| && s[k] == '{' && DigitAt(s, k + 1) && BoundsOffend(s, k + 1, e))
    || (e == REG_BADRPT && exists x: Exp, j: nat :: !x.Plain? && SuffixSpelled(x, s, k, j) && RepOpAt(s, j))
  }

  ghost predicate PieceBeyond(s: string, i: nat) {
    i < |s| && (s[i] == '^' || s[i] == '$' || (s[i] == '[' && BracketBeyond(s, i + 1)))
  }

  /** A branch ends at `i` and cannot: it is empty, or the text ends inside a group. */
  ghost predicate EndOffends(s: string, i: nat, d: nat, e: nat) {
    exists j: nat, m: nat, b: Branch, n: nat ::
      j <= i && BranchStart(s, j, d, m) && GoodPieces(b, s, j, i, m, n) && BadEnd(b, s, i, d, e)
  }

  predicate BadEnd(b: Branch, s: string, i: nat, d: nat, e: nat) {
    BranchEnds(s, i, d > 0) && if Visible(b) then i == |s| && d > 0 && e == REG_EPAREN else e == REG_EMPTY
  }

  /** The pattern has the error `e`. */
  ghost predicate ErrorSpelled(s: string, e: nat) {
    exists i: nat, d: nat :: i <= |s| && (EndOffends(s, i, d, e) || PieceFaulty(s, i, d, e))
  }

  ghost predicate PieceFaulty(s: string, i: nat, d: nat, e: nat) {
    exists n: nat :: PieceStart(s, i, d, n) && !BranchEnds(s, i, d > 0) && PieceOffends(s, i, n, e)
  }

  /** The pattern has something that is not modelled, and no error before it. */
  ghost predicate Unmodelled(s: string) {
    exists i: nat, d: nat, n: nat :: PieceStart(s, i, d, n) && !BranchEnds(s, i, d > 0) && PieceBeyond(s, i)
  }

  // ----- the reading fails there -----

  datatype Fault = Coded(e: nat) | Outside

  predicate Fails<T>(r: Reading<T>, f: Fault) { if f.Coded? then r.Bad? && r.code == f.e else r.Beyond? }

  ghost predicate Faulty(s: string, f: Fault) { if f.Coded? then ErrorSpelled(s, f.e) else Unmodelled(s) }

  lemma AtomGood(a: Atom, s: string, i: nat, j: nat, n: nat, m: nat)
    requires AtomSpelled(a, s, i, j, n, m) && AtomVisible(a)
    ensures i < |s| && ReadAtom(s, i, n, true) == Read(a, j, m)
  {
    hide ReadAtom, AtomSpelled, AtomVisible;
    AtomHere(a, s, i, j, n, m);
    AtomComplete(a, s, i, j, n, m);
    AtomStrict(s, i, n);
  }

  lemma ExpGood(x: Exp, s: string, i: nat, j: nat, n: nat, m: nat)
    requires ExpSpelled(x, s, i, j, n, m) && AtomVisible(x.a)
    ensures i < |s| && ReadExp(s, i, n, true) == Read(x, j, m)
  {
    hide ReadExp, ExpSpelled, AtomVisible;
    ExpComplete(x, s, i, j, n, m);
    ExpStrict(s, i, n);
  }

  /** Reading a spelled and visible branch arrives at its end. */
  lemma {:induction false} PiecesArrive(x: Branch, s: string, i: nat, j: nat, inGroup: bool, n: nat, m: nat)
    requires i <= |s| && GoodPieces(x, s, i, j, n, m)
    ensures j <= |s| && WfBranch(x)
    ensures ReadBranch(s, i, inGroup, n, Empty, true) == ReadBranch(s, j, inGroup, m, x, true)
    decreases x
  {
    assert BranchSpelled(x, s, i, j, n, m);
    if x.Snoc? {
      var k: nat, l: nat :| BranchSpelled(x.init, s, i, k, n, l) && ExpSpelled(x.last, s, k, j, l, m);
      hide ExpSpelled, ReadExp, BranchSpelled, AtomVisible;
      PiecesArrive(x.init, s, i, k, inGroup, n, l);
      ExpHere(x.last, s, k, j, l, m);
      ExpGood(x.last, s, k, j, l, m);
    }
  }

  /** A fault in a branch is a fault of the whole pattern. */
  lemma {:induction false} BranchFails(s: string, i: nat, d: nat, n: nat, f: Fault)
    requires i <= |s| && BranchStart(s, i, d, n) && Fails(ReadAlts(s, i, d > 0, n, true), f)
    ensures Fails(ReadAlts(s, 0, false, 0, true), f)
    decreases i, 0
  {
    if i == 0 && d == 0 && n == 0 {
    } else if j: nat, m: nat, b: Branch :| j < i && BranchStart(s, j, d, m) && BehindBar(b, s, j, i, m, n) {
      hide ReadAlts, BranchStart, GoodPieces;
      FullRead(b, s, j, i - 1, d > 0, m, n);
      AltsStep(s, j, d > 0, m);
      BranchFails(s, j, d, m, f);
    } else {
      hide ReadAlts, PieceStart, BranchStart;
      GroupFails(s, i - 1, n - 1, f);
      PieceFails(s, i - 1, d - 1, n - 1, f);
    }
  }

  /** A full branch is read as a whole. */
  lemma FullRead(b: Branch, s: string, i: nat, j: nat, inGroup: bool, n: nat, m: nat)
    requires i <= |s| && GoodPieces(b, s, i, j, n, m) && BranchEnds(s, j, inGroup)
    ensures j <= |s| && WfBranch(b) && ReadBranch(s, i, inGroup, n, Empty, true) == Read(b, j, m)
    ensures Emits(b) <==> Visible(b)
  {
    hide ReadExp, GoodPieces, Emits, Visible;
    PiecesArrive(b, s, i, j, inGroup, n, m);
    EmitsIff(b);
  }

  lemma GroupFails(s: string, i: nat, n: nat, f: Fault)
    requires i + 1 < |s| && s[i] == '(' && s[i + 1] != ')'
    requires
      var r := ReadAlts(s, i + 1, true, n + 1, true);
      Fails(r, f) || (r.Read? && r.next == |s| && f == Coded(REG_EPAREN))
    ensures Fails(ReadExp(s, i, n, true), f) && !BranchEnds(s, i, true)
  {
    hide ReadAlts;
  }

  /** A fault in a piece is a fault of the whole pattern. */
  lemma {:induction false} PieceFails(s: string, i: nat, d: nat, n: nat, f: Fault)
    requires i < |s| && PieceStart(s, i, d, n) && !BranchEnds(s, i, d > 0) && Fails(ReadExp(s, i, n, true), f)
    ensures Fails(ReadAlts(s, 0, false, 0, true), f)
    decreases i, 1
  {
    var j: nat, m: nat, b: Branch :| j <= i && BranchStart(s, j, d, m) && GoodPieces(b, s, j, i, m, n);
    hide ReadAlts, BranchStart, GoodPieces, ReadExp;
    PiecesArrive(b, s, j, i, d > 0, m, n);
    AltsStep(s, j, d > 0, m);
    BranchFails(s, j, d, m, f);
  }

  /** A group whose text runs out is not closed. */
  lemma {:induction false} GroupRunsOut(s: string, i: nat, d: nat, n: nat)
    requires i <= |s| && d > 0 && BranchStart(s, i, d, n)
    requires var r := ReadAlts(s, i, true, n, true); r.Read? && r.next == |s|
    ensures Fails(ReadAlts(s, 0, false, 0, true), Coded(REG_EPAREN))
    decreases i
  {
    assert BranchStart(s, i, d, n);
    if j: nat, m: nat, b: Branch :| j < i && BranchStart(s, j, d, m) && BehindBar(b, s, j, i, m, n) {
      hide ReadAlts, BranchStart, GoodPieces;
      FullRead(b, s, j, i - 1, true, m, n);
      AltsStep(s, j, true, m);
      GroupRunsOut(s, j, d, m);
    } else {
      hide ReadAlts, PieceStart, BranchStart;
      GroupFails(s, i - 1, n - 1, Coded(REG_EPAREN));
      PieceFails(s, i - 1, d - 1, n - 1, Coded(REG_EPAREN));
    }
  }

  lemma EndFails(s: string, i: nat, d: nat, e: nat)
    requires i <= |s| && EndOffends(s, i, d, e)
    ensures ReadAlts(s, 0, false, 0, true) == Bad(e)
  {
    hide ReadAlts, BranchStart, GoodPieces, Visible;
    var j: nat, m: nat, b: Branch, n: nat :|
      j <= i && BranchStart(s, j, d, m) && GoodPieces(b, s, j, i, m, n) && BadEnd(b, s, i, d, e);
    FullRead(b, s, j, i, d > 0, m, n);
    AltsStep(s, j, d > 0, m);
    if Visible(b) {
      GroupRunsOut(s, j, d, m);
    } else {
      BranchFails(s, j, d, m, Coded(e));
    }
  }

  lemma PieceOffendsFails(s: string, i: nat, n: nat, e: nat)
    requires PieceOffends(s, i, n, e)
    ensures s[i] != '|' ==> Fails(ReadExp(s, i, n, true), Coded(e))
  {
    hide AtomSpelled, AtomVisible, SuffixOffends, BracketOffends, ReadBracket, ReadSuffix;
    if s[i] == '[' { BracketFaults(s, i + 1, e); }
    if a: Atom, k: nat, m: nat :| AtomSpelled(a, s, i, k, n, m) && AtomVisible(a) && SuffixOffends(s, k, e) {
      AtomGood(a, s, i, k, n, m);
      SuffixFails(s, k, a, m, e);
    }
  }

  lemma SuffixFails(s: string, k: nat, a: Atom, m: nat, e: nat)
    requires k <= |s| && WfAtom(a)
    ensures SuffixOffends(s, k, e) <==>
      var r := ReadSuffix(s, k, a, m);
      r == Bad(e) || (r.Read? && RepOpAt(s, r.next) && e == REG_BADRPT)
  {
    hide BoundsOffend, ReadBounds, BoundsSpelled;
    if k < |s| && s[k] == '{' && DigitAt(s, k + 1) {
      BoundsFaults(s, k + 1, e);
      if ReadBounds(s, k + 1).Read? { BoundsSound(s, k + 1); }
    }
    if x: Exp, j: nat :| !x.Plain? && SuffixSpelled(x, s, k, j) && RepOpAt(s, j) {
      if x.Rep? && k < |s| && s[k] == '{' { BoundsComplete(x.lo, x.hi, s, k + 1, j); }
    }
    var r := ReadSuffix(s, k, a, m);
    if r.Read? && RepOpAt(s, r.next) { SuffixThere(s, k, a, m); }
  }

  /** An operator that was read is spelled. */
  lemma SuffixThere(s: string, k: nat, a: Atom, m: nat)
    requires k <= |s| && WfAtom(a) && ReadSuffix(s, k, a, m).Read?
    ensures var r := ReadSuffix(s, k, a, m);
      SuffixSpelled(r.v, s, k, r.next) && (RepOpAt(s, r.next) ==> !r.v.Plain?)
  {
    hide BoundsSpelled, ReadBounds;
    if k < |s| && s[k] == '{' && DigitAt(s, k + 1) && ReadBounds(s, k + 1).Read? { BoundsSound(s, k + 1); }
  }

  // ----- and where the reading fails, the pattern is at fault -----

  lemma AtFault(s: string, i: nat, d: nat, n: nat, f: Fault)
    requires i <= |s| && PieceStart(s, i, d, n) && !BranchEnds(s, i, d > 0)
    requires if f.Coded? then PieceOffends(s, i, n, f.e) else PieceBeyond(s, i)
    ensures Faulty(s, f)
  {
    hide PieceStart, PieceOffends, PieceBeyond, BranchEnds, EndOffends;
    if f.Coded? { assert PieceFaulty(s, i, d, f.e); }
  }

  /** Inside a group alternatives end at its `)` or with the text. */
  lemma {:induction false} AltsStop(s: string, i: nat, n: nat)
    requires i <= |s|
    ensures var r := ReadAlts(s, i, true, n, true); r.Read? ==> r.next == |s| || (r.next < |s| && s[r.next] == ')')
    decreases |s| - i
  {
    hide ReadBranch, ReadAlts, Emits;
    AltsStep(s, i, true, n);
    var r := ReadBranch(s, i, true, n, Empty, true);
    if r.Read? && r.next < |s| && s[r.next] == '|' { AltsStop(s, r.next + 1, r.nsub); }
  }

  lemma GroupOpens(s: string, i: nat, d: nat, n: nat)
    requires i + 1 < |s| && s[i] == '(' && s[i + 1] != ')' && PieceStart(s, i, d, n)
    ensures BranchStart(s, i + 1, d + 1, n + 1)
  {
    hide PieceStart;
  }

  lemma {:induction false} AtomFault(s: string, i: nat, d: nat, n: nat, f: Fault)
    requires i < |s| && PieceStart(s, i, d, n) && !BranchEnds(s, i, d > 0) && Fails(ReadAtom(s, i, n, true), f)
    ensures Faulty(s, f)
    decreases |s| - i, 0
  {
    hide PieceStart, ReadAlts, ReadBracket, BracketOffends, BracketBeyond, Faulty, BranchStart;
    if s[i] == '(' && i + 1 < |s| {
      GroupOpens(s, i, d, n);
      AltsStop(s, i + 1, n + 1);
      AltsFault(s, i + 1, d + 1, n + 1, f);
    } else {
      if s[i] == '[' { BracketFaults(s, i + 1, if f.Coded? then f.e else 0); }
      AtFault(s, i, d, n, f);
    }
  }

  lemma {:induction false} ExpFault(s: string, i: nat, d: nat, n: nat, f: Fault)
    requires i < |s| && PieceStart(s, i, d, n) && !BranchEnds(s, i, d > 0) && Fails(ReadExp(s, i, n, true), f)
    ensures Faulty(s, f)
    decreases |s| - i, 1
  {
    hide PieceStart, ReadAtom, Faulty, ReadBounds, SuffixOffends, AtomSpelled, AtomVisible;
    var r := ReadAtom(s, i, n, true);
    if r.Read? {
      AtomStrict(s, i, n);
      AtomSound(s, i, n);
      SuffixFails(s, r.next, r.v, r.nsub, if f.Coded? then f.e else 0);
      AtFault(s, i, d, n, f);
    } else {
      AtomFault(s, i, d, n, f);
    }
  }

  lemma OneMorePiece(s: string, i: nat, b: Branch, x: Exp, k: nat, j: nat, n: nat, l: nat, m: nat)
    requires GoodPieces(b, s, i, k, n, l) && ExpSpelled(x, s, k, j, l, m) && AtomVisible(x.a)
    ensures GoodPieces(Snoc(b, x), s, i, j, n, m)
  {
    hide ExpSpelled, AtomVisible;
    assert BranchSpelled(Snoc(b, x), s, i, j, n, m);
  }

  lemma {:induction false} PiecesFault(s: string, j: nat, m: nat, b: Branch, i: nat, d: nat, n: nat, f: Fault)
    requires j <= i <= |s| && BranchStart(s, j, d, m) && GoodPieces(b, s, j, i, m, n) && WfBranch(b)
    requires Fails(ReadBranch(s, i, d > 0, n, b, true), f)
    ensures Faulty(s, f)
    decreases |s| - i, 2
  {
    hide BranchStart, GoodPieces, ReadExp, Faulty, ExpSpelled, AtomVisible;
    assert PieceStart(s, i, d, n);
    hide PieceStart;
    var r := ReadExp(s, i, n, true);
    if r.Read? {
      ExpStrict(s, i, n);
      ExpSound(s, i, n);
      OneMorePiece(s, j, b, r.v, i, r.next, m, n, r.nsub);
      PiecesFault(s, j, m, Snoc(b, r.v), r.next, d, r.nsub, f);
    } else {
      ExpFault(s, i, d, n, f);
    }
  }

  lemma BranchIsGood(s: string, i: nat, inGroup: bool, n: nat)
    requires i <= |s|
    ensures var r := ReadBranch(s, i, inGroup, n, Empty, true);
      r.Read? ==> GoodPieces(r.v, s, i, r.next, n, r.nsub) && BranchEnds(s, r.next, inGroup)
  {
    hide ReadBranch, BranchSpelled, PiecesVisible;
    BranchStrict(s, i, inGroup, n, Empty);
    NoPieces();
    EmptySpelled(s, i, n);
    if ReadBranch(s, i, inGroup, n, Empty, true).Read? { BranchSound(s, i, i, inGroup, n, n, Empty); }
  }

  lemma NoneYet(s: string, i: nat, n: nat)
    requires i <= |s|
    ensures GoodPieces(Empty, s, i, i, n, n)
  {
  }

  lemma EndFault(s: string, j: nat, m: nat, b: Branch, i: nat, d: nat, n: nat, e: nat)
    requires j <= i <= |s| && BranchStart(s, j, d, m) && GoodPieces(b, s, j, i, m, n) && BadEnd(b, s, i, d, e)
    ensures Faulty(s, Coded(e))
  {
    hide BranchStart, GoodPieces, BadEnd, PieceFaulty;
    assert EndOffends(s, i, d, e);
  }

  lemma NextStarts(s: string, j: nat, m: nat, b: Branch, i: nat, d: nat, n: nat)
    requires j <= i < |s| && s[i] == '|' && BranchStart(s, j, d, m) && GoodPieces(b, s, j, i, m, n) && Visible(b)
    ensures BranchStart(s, i + 1, d, n)
  {
    hide GoodPieces, Visible;
    assert BehindBar(b, s, j, i + 1, m, n);
  }

  lemma {:induction false} AltsFault(s: string, i: nat, d: nat, n: nat, f: Fault)
    requires i <= |s| && BranchStart(s, i, d, n)
    ensures var r := ReadAlts(s, i, d > 0, n, true);
      && (Fails(r, f) ==> Faulty(s, f))
      && (d > 0 && r.Read? && r.next == |s| ==> Faulty(s, Coded(REG_EPAREN)))
    decreases |s| - i, 3
  {
    hide ReadBranch, ReadAlts, Faulty, BranchStart, GoodPieces, Emits, Visible;
    AltsStep(s, i, d > 0, n);
    var r := ReadBranch(s, i, d > 0, n, Empty, true);
    NoneYet(s, i, n);
    if r.Read? {
      BranchIsGood(s, i, d > 0, n);
      EmitsIff(r.v);
      if !Visible(r.v) {
        EndFault(s, i, n, r.v, r.next, d, r.nsub, REG_EMPTY);
      } else if r.next < |s| && s[r.next] == '|' {
        NextStarts(s, i, n, r.v, r.next, d, r.nsub);
        AltsFault(s, r.next + 1, d, r.nsub, f);
      } else if d > 0 && r.next == |s| {
        EndFault(s, i, n, r.v, r.next, d, r.nsub, REG_EPAREN);
      }
    } else if Fails(r, f) {
      PiecesFault(s, i, n, Empty, i, d, n, f);
    }
  }

  // ----- the two together -----

  /** regcomp() gives the error that the pattern has, and no other; and it meets something that is
      not modelled exactly if the pattern has it and no error before it. */
  lemma FaultIff(s: string, e: nat)
    ensures ReadAlts(s, 0, false, 0, true) == Bad(e) <==> ErrorSpelled(s, e)
    ensures ReadAlts(s, 0, false, 0, true).Beyond? <==> Unmodelled(s)
  {
    hide ReadAlts, PieceStart, PieceOffends, PieceBeyond, EndOffends;
    StartsHere(s);
    AltsFault(s, 0, 0, 0, Coded(e));
    AltsFault(s, 0, 0, 0, Outside);
    if i: nat, d: nat :| i <= |s| && (EndOffends(s, i, d, e) || PieceFaulty(s, i, d, e)) {
      if EndOffends(s, i, d, e) {
        EndFails(s, i, d, e);
      } else {
        var n: nat :| PieceStart(s, i, d, n) && !BranchEnds(s, i, d > 0) && PieceOffends(s, i, n, e);
        PieceOffendsFails(s, i, n, e);
        PieceFails(s, i, d, n, Coded(e));
      }
    }
    if i: nat, d: nat, n: nat :| PieceStart(s, i, d, n) && !BranchEnds(s, i, d > 0) && PieceBeyond(s, i) {
      BeyondFails(s, i, n);
      PieceFails(s, i, d, n, Outside);
    }
  }

  lemma StartsHere(s: string)
    ensures BranchStart(s, 0, 0, 0)
  {
  }

  lemma BeyondFails(s: string, i: nat, n: nat)
    requires PieceBeyond(s, i)
    ensures i < |s| && Fails(ReadExp(s, i, n, true), Outside)
  {
    hide BracketBeyond, ReadBracket;
    if s[i] == '[' { BracketFaults(s, i + 1, 0); }
  }

  /** No pattern has two errors, and one that has an error is not accepted. */
  lemma OneError(s: string, e: nat, e': nat)
    requires ErrorSpelled(s, e)
    ensures (ErrorSpelled(s, e') <==> e' == e) && !Unmodelled(s)
    ensures forall x :: Spelled(x, s) ==> !AltsVisible(x)
  {
    hide ReadAlts, ErrorSpelled, Unmodelled, Spelled, AltsVisible;
    FaultIff(s, e);
    FaultIff(s, e');
    forall x | Spelled(x, s) ensures !AltsVisible(x) { AcceptedIff(s, x); }
  }

  // ----- the errors of some patterns, by number -----

  /** A pattern that begins with an operator of repetition has nothing to repeat. */
  lemma RepeatsNothing(s: string)
    requires |s| > 0 && (s[0] == '*' || s[0] == '+' || s[0] == '?')
    ensures ErrorSpelled(s, 13)
  {
    hide BranchStart, GoodPieces;
    Begins(s);
    assert PieceOffends(s, 0, 0, REG_BADRPT);
    assert PieceFaulty(s, 0, 0, REG_BADRPT);
  }

  /** Characters that only stand for themselves. */
  predicate Plainly(s: string, i: nat, j: nat) {
    i <= j <= |s| && forall k :: i <= k < j ==> s[k] != '{' && OrdinaryAt(s, k)
  }

  ghost function Letters(s: string, i: nat, j: nat): Branch
    requires i <= j <= |s|
    decreases j - i
  {
    if i == j then Empty else Snoc(Letters(s, i, j - 1), Plain(Chr(s[j - 1])))
  }

  lemma {:induction false} LettersSpelled(s: string, i: nat, j: nat, n: nat)
    requires Plainly(s, i, j) && !RepOpAt(s, j)
    ensures GoodPieces(Letters(s, i, j), s, i, j, n, n) && (i < j ==> Visible(Letters(s, i, j)))
    decreases j - i
  {
    if i < j {
      LettersSpelled(s, i, j - 1, n);
      var x := Plain(Chr(s[j - 1]));
      assert AtomSpelled(x.a, s, j - 1, j, n, n) && SuffixSpelled(x, s, j, j);
      OneMorePiece(s, i, Letters(s, i, j - 1), x, j - 1, j, n, n, n);
    }
  }

  /** A group that is not closed, with plain text inside. */
  lemma Unclosed(s: string)
    requires |s| > 1 && s[0] == '(' && Plainly(s, 1, |s|)
    ensures ErrorSpelled(s, 8)
  {
    hide BranchStart, GoodPieces, Letters, Visible;
    Begins(s);
    GroupOpens(s, 0, 0, 0);
    LettersSpelled(s, 1, |s|, 1);
    EndFault(s, 1, 1, Letters(s, 1, |s|), |s|, 1, 1, REG_EPAREN);
  }

  /** Plain text, and then a `)` without a group or a `\\` with nothing behind it. */
  lemma Stray(s: string)
    requires |s| > 0 && Plainly(s, 0, |s| - 1)
    ensures s[|s| - 1] == ')' ==> ErrorSpelled(s, 8)
    ensures s[|s| - 1] == '\\' ==> ErrorSpelled(s, 5)
  {
    var i := |s| - 1;
    if s[i] == ')' || s[i] == '\\' {
      hide BranchStart, GoodPieces, Letters;
      StartsHere(s);
      LettersSpelled(s, 0, i, 0);
      assert PieceStart(s, i, 0, 0);
      var e := if s[i] == ')' then REG_EPAREN else REG_EESCAPE;
      assert PieceOffends(s, i, 0, e);
      assert PieceFaulty(s, i, 0, e);
    }
  }

  /** The empty pattern, and a bracket or bounds that the pattern ends in. */
  lemma CutOff(c: char)
    requires OrdinaryAt([c], 0) && c != '{'
    ensures ErrorSpelled("", 14) && ErrorSpelled("[", 7) && ErrorSpelled([c, '{', '1'], 9)
  {
    hide BranchStart, GoodPieces;
    Begins("");
    EndFault("", 0, 0, Empty, 0, 0, 0, REG_EMPTY);
    Begins("[");
    assert TermsSpelled({}, "[", MembersFrom("[", 1), 1) && NoMember("[", 1, REG_EBRACK);
    AtFault("[", 0, 0, 0, Coded(REG_EBRACK));
    var s := [c, '{', '1'];
    Begins(s);
    assert Value(s, 2, 3) == 1;
    assert NumeralSpelled(1, s, 2, 3) && AfterFirst(s, 1, 3, REG_EBRACE);
    assert AtomSpelled(Chr(c), s, 0, 1, 0, 0) && SuffixOffends(s, 1, REG_EBRACE);
    AtFault(s, 0, 0, 0, Coded(REG_EBRACE));
  }

  lemma Begins(s: string)
    ensures BranchStart(s, 0, 0, 0) && GoodPieces(Empty, s, 0, 0, 0, 0) && PieceStart(s, 0, 0, 0)
  {
    hide BranchStart, GoodPieces;
    StartsHere(s);
    NoneYet(s, 0, 0);
  }

  /** A range whose ends are out of order, and bounds that are. */
  lemma OutOfOrder(a: char, b: char)
    requires a > b && OrdinaryAt([a], 0) && a !in {'{', '-', ']'} && OrdinaryAt([b], 0) && b != ']'
    ensures ErrorSpelled(['[', a, '-', b, ']'], 11) && ErrorSpelled([a, '{', '2', ',', '1', '}'], 10)
  {
    hide BranchStart, GoodPieces;
    var s := ['[', a, '-', b, ']'];
    Begins(s);
    assert TermsSpelled({}, s, MembersFrom(s, 1), 1) && NoMember(s, 1, REG_ERANGE);
    AtFault(s, 0, 0, 0, Coded(REG_ERANGE));
    var t := [a, '{', '2', ',', '1', '}'];
    Begins(t);
    assert Value(t, 2, 3) == 2 && Value(t, 4, 5) == 1;
    assert NumeralSpelled(2, t, 2, 3) && NumeralSpelled(1, t, 4, 5) && AfterSecond(t, 2, 1, 5, REG_BADBR);
    assert AfterFirst(t, 2, 3, REG_BADBR);
    assert AtomSpelled(Chr(a), t, 0, 1, 0, 0) && SuffixOffends(t, 1, REG_BADBR);
    AtFault(t, 0, 0, 0, Coded(REG_BADBR));
  }
}
