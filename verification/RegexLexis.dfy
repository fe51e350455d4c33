/** The smallest parts of an extended regular expression, the counts of a bounded repetition
    and the bracket expressions: which text spells which, and how regcomp() reads them. */
module RegexLexis {
  import opened RegexLanguage
  import opened RegexCode

  /** DUPMAX of utils.h. */
  const DUPMAX: nat := 255

  const REG_BADPAT: nat := 2
  const REG_EESCAPE: nat := 5
  const REG_EBRACK: nat := 7
  const REG_EPAREN: nat := 8
  const REG_EBRACE: nat := 9
  const REG_BADBR: nat := 10
  const REG_ERANGE: nat := 11
  const REG_BADRPT: nat := 13
  const REG_EMPTY: nat := 14

  /** The outcome of reading a construct at a position: what it is, where it ends and how
      many groups have been opened so far; the first error; or a construct that is not
      modelled (anchors, word boundaries, named classes and collating elements). */
  datatype Reading<T> = Read(v: T, next: nat, nsub: nat) | Bad(code: nat) | Beyond

  predicate Digit(c: char) { '0' <= c <= '9' }

  function DigitValue(c: char): nat requires Digit(c) { c as int - '0' as int }

  predicate DigitAt(s: string, i: nat) { i < |s| && Digit(s[i]) }

  // ----- counts -----

  /** A decimal numeral: reads digits while the value so far is at most DUPMAX. */
  function ReadDigits(s: string, i: nat, count: nat): (r: (nat, nat))
    requires i <= |s|
    ensures i <= r.1 <= |s|
    decreases |s| - i
  {
    if DigitAt(s, i) && count <= DUPMAX then ReadDigits(s, i + 1, count * 10 + DigitValue(s[i])) else (count, i)
  }

  function ReadCount(s: string, i: nat): (r: Reading<nat>)
    requires i <= |s|
    ensures r.Read? ==> i < r.next <= |s| && r.v <= DUPMAX && r.nsub == 0
    ensures !r.Read? ==> r == Bad(REG_BADBR)
  {
    var (count, j) := ReadDigits(s, i, 0);
    if j > i && count <= DUPMAX then Read(count, j, 0) else Bad(REG_BADBR)
  }

  /** The error when no `}` stands where it should: which one depends on whether there is
      one further on. */
  function MissingBrace(s: string, i: nat): (code: nat)
    ensures code == if exists k: nat :: i <= k < |s| && s[k] == '}' then REG_BADBR else REG_EBRACE
    decreases |s| - i
  {
    if i >= |s| then REG_EBRACE else if s[i] == '}' then REG_BADBR else MissingBrace(s, i + 1)
  }

  /** What follows the `{` of a bounded repetition, through the `}`. */
  function ReadBounds(s: string, i: nat): (r: Reading<(nat, nat)>)
    requires i <= |s|
    ensures r.Read? ==> i < r.next <= |s| && Bounds(r.v.0, r.v.1) && r.nsub == 0
    ensures !r.Beyond? && (r.Bad? ==> r.code != 0)
  {
    match ReadCount(s, i)
    case Read(lo, j, _) =>
      if j < |s| && s[j] == ',' then
        if DigitAt(s, j + 1) then
          match ReadCount(s, j + 1)
          case Read(hi, k, _) =>
            if lo > hi then Bad(REG_BADBR)
            else if k < |s| && s[k] == '}' then Read((lo, hi), k + 1, 0)
            else Bad(MissingBrace(s, k))
          case _ => Bad(REG_BADBR)
        else if j + 1 < |s| && s[j + 1] == '}' then Read((lo, INFINITY), j + 2, 0)
        else Bad(MissingBrace(s, j + 1))
      else if j < |s| && s[j] == '}' then Read((lo, lo), j + 1, 0)
      else Bad(MissingBrace(s, j))
    case _ => Bad(REG_BADBR)
  }

  // ----- bracket expressions -----

  predicate SeeTwo(s: string, i: nat, a: char, b: char) { i + 1 < |s| && s[i] == a && s[i + 1] == b }

  function CharRange(a: char, b: char): set<char> { set c: char | InRange(c, a, b) }

  predicate InRange(c: char, a: char, b: char) { a <= c <= b }

  /** Every value of an unsigned char. */
  function Universe(): set<char> { CharRange(0 as char, 255 as char) }

  /** One term of a bracketed list: a character or a range. */
  function ReadTerm(s: string, i: nat): (r: Reading<set<char>>)
    requires i < |s|
    ensures (r.Read? ==> i < r.next <= |s| && r.nsub == 0) && (r.Bad? ==> r.code != 0)
  {
    if s[i] == '-' then Bad(REG_ERANGE)
    else if SeeTwo(s, i, '[', ':') || SeeTwo(s, i, '[', '=') || SeeTwo(s, i, '[', '.') then Beyond
    else if i + 2 < |s| && s[i + 1] == '-' && s[i + 2] != ']' then
      if SeeTwo(s, i + 2, '[', '.') then Beyond
      else if s[i] <= s[i + 2] then Read(CharRange(s[i], s[i + 2]), i + 3, 0) else Bad(REG_ERANGE)
    else Read({s[i]}, i + 1, 0)
  }

  function ReadTerms(s: string, i: nat, acc: set<char>): (r: Reading<set<char>>)
    requires i <= |s|
    ensures (r.Read? ==> i <= r.next <= |s| && r.nsub == 0) && (r.Bad? ==> r.code != 0)
    decreases |s| - i
  {
    if i < |s| && s[i] != ']' && !SeeTwo(s, i, '-', ']') then
      match ReadTerm(s, i)
      case Read(t, j, _) => ReadTerms(s, j, acc + t)
      case Bad(e) => Bad(e)
      case Beyond => Beyond
    else Read(acc, i, 0)
  }

  /** [[:<:]] or [[:>:]], seen from after the first bracket. */
  predicate WordMarkAt(s: string, i: nat) {
    && i + 5 < |s| && s[i] == '[' && s[i + 1] == ':' && (s[i + 2] == '<' || s[i + 2] == '>')
    && s[i + 3] == ':' && s[i + 4] == ']' && s[i + 5] == ']'
  }

  /** The list of a bracket expression. */
  function ReadList(s: string, i: nat): (r: Reading<set<char>>)
    requires i <= |s|
    ensures (r.Read? ==> i <= r.next <= |s| && r.nsub == 0) && (r.Bad? ==> r.code != 0)
  {
    var lead := i < |s| && (s[i] == ']' || s[i] == '-');
    match ReadTerms(s, if lead then i + 1 else i, if lead then {s[i]} else {})
    case Read(t, k, _) => if k < |s| && s[k] == '-' then Read(t + {'-'}, k + 1, 0) else Read(t, k, 0)
    case Bad(e) => Bad(e)
    case Beyond => Beyond
  }

  /** What follows the `[` of a bracket expression, through the `]`: the set it denotes. */
  function ReadBracket(s: string, i: nat): (r: Reading<set<char>>)
    requires i <= |s|
    ensures (r.Read? ==> i < r.next <= |s| && r.nsub == 0) && (r.Bad? ==> r.code != 0)
  {
    if WordMarkAt(s, i) then Beyond
    else
      var neg := i < |s| && s[i] == '^';
      match ReadList(s, if neg then i + 1 else i)
      case Read(t, e, _) =>
        if e < |s| && s[e] == ']' then Read(if neg then Universe() - t else t, e + 1, 0) else Bad(REG_EBRACK)
      case Bad(e) => Bad(e)
      case Beyond => Beyond
  }

  // ----- numerals and bounds as relations -----

  /** The value of the digits from `i` to `j`. */
  function Value(s: string, i: nat, j: nat): nat
    requires i <= j <= |s| && forall k :: i <= k < j ==> Digit(s[k])
  {
    if i == j then 0 else Value(s, i, j - 1) * 10 + DigitValue(s[j - 1])
  }

  /** The text from `i` to `j` is a numeral for `v`, at most DUPMAX, and no digit follows. */
  predicate NumeralSpelled(v: nat, s: string, i: nat, j: nat) {
    && i < j <= |s| && (forall k :: i <= k < j ==> Digit(s[k])) && !DigitAt(s, j)
    && Value(s, i, j) == v && v <= DUPMAX
  }

  /** `m}`, `m,}` or `m,n}` */
  ghost predicate BoundsSpelled(lo: nat, hi: nat, s: string, i: nat, j: nat) {
    || (lo == hi && i < j <= |s| && s[j - 1] == '}' && NumeralSpelled(lo, s, i, j - 1))
    || (hi == INFINITY && i + 1 < j <= |s| && s[j - 2] == ',' && s[j - 1] == '}' && NumeralSpelled(lo, s, i, j - 2))
    || (lo <= hi && exists k: nat :: TwoCounts(lo, hi, s, i, k, j))
  }

  ghost predicate TwoCounts(lo: nat, hi: nat, s: string, i: nat, k: nat, j: nat) {
    && i < k < j <= |s| && s[k] == ',' && s[j - 1] == '}'
    && NumeralSpelled(lo, s, i, k) && k + 1 < j && NumeralSpelled(hi, s, k + 1, j - 1)
  }

  // ----- bracket expressions as a relation -----

  /** A character that a member may begin with. A `-` or `]` cannot be one, and `[:`, `[=` and
      `[.` introduce what is not modelled. */
  predicate MemberAt(s: string, i: nat) {
    && i < |s| && s[i] != '-' && s[i] != ']'
    && !SeeTwo(s, i, '[', ':') && !SeeTwo(s, i, '[', '=') && !SeeTwo(s, i, '[', '.')
  }

  /** A `-` between two characters makes a range of them. */
  predicate RangeAt(s: string, i: nat) { i + 2 < |s| && s[i + 1] == '-' && s[i + 2] != ']' }

  /** One member of a list: a range in the order of the characters, or a character that no range
      begins with. */
  ghost predicate TermSpelled(t: set<char>, s: string, i: nat, j: nat) {
    MemberAt(s, i) &&
    if RangeAt(s, i) then
      j == i + 3 && s[i] <= s[i + 2] && !SeeTwo(s, i + 2, '[', '.') && t == CharRange(s[i], s[i + 2])
    else j == i + 1 && t == {s[i]}
  }

  /** Members one after the other; their set is the union. */
  ghost predicate TermsSpelled(t: set<char>, s: string, i: nat, j: nat)
    decreases j - i
  {
    || (i == j <= |s| && t == {})
    || (exists k: nat, u: set<char>, v: set<char> :: FirstTerm(u, s, i, k, j) && TermsSpelled(v, s, k, j) && t == u + v)
  }

  ghost predicate FirstTerm(t: set<char>, s: string, i: nat, k: nat, j: nat) {
    i < k <= j && TermSpelled(t, s, i, k)
  }

  /** A list is not empty. Before its members there may be a `]` or `-`, after them a `-`. */
  ghost predicate ListSpelled(t: set<char>, s: string, i: nat, j: nat) {
    i < j <= |s| && exists a: nat, b: nat, u: set<char> :: ListParts(t, s, i, a, b, j, u)
  }

  ghost predicate ListParts(t: set<char>, s: string, i: nat, a: nat, b: nat, j: nat, u: set<char>)
    requires i < j <= |s|
  {
    && (a == i || (a == i + 1 && s[i] in {']', '-'}))
    && TermsSpelled(u, s, a, b)
    && (j == b || (j == b + 1 && s[b] == '-'))
    && t == (if a == i then {} else {s[i]}) + u + (if j == b then {} else {'-'})
  }

  /** What follows the `[`: a `^` if the set is to be inverted, a list, and `]`. */
  ghost predicate BracketSpelled(t: set<char>, s: string, i: nat, j: nat) {
    && i < j <= |s| && s[j - 1] == ']'
    && if s[i] == '^' then exists u :: ListSpelled(u, s, i + 1, j - 1) && t == Universe() - u
       else ListSpelled(t, s, i, j - 1)
  }

  // ----- the bracket expressions read are those spelled -----

  /** Where the reading of members stops. */
  predicate TermsEnd(s: string, i: nat) { i >= |s| || s[i] == ']' || SeeTwo(s, i, '-', ']') }

  lemma TermSound(s: string, i: nat)
    requires i < |s| && s[i] != ']' && ReadTerm(s, i).Read?
    ensures TermSpelled(ReadTerm(s, i).v, s, i, ReadTerm(s, i).next)
  {
  }

  lemma TermComplete(t: set<char>, s: string, i: nat, j: nat)
    requires TermSpelled(t, s, i, j)
    ensures ReadTerm(s, i) == Read(t, j, 0)
  {
  }

  lemma {:induction false} TermsSound(s: string, i: nat, acc: set<char>) returns (u: set<char>)
    requires i <= |s| && ReadTerms(s, i, acc).Read?
    ensures var r := ReadTerms(s, i, acc); TermsSpelled(u, s, i, r.next) && r.v == acc + u && TermsEnd(s, r.next)
    decreases |s| - i
  {
    hide TermSpelled, ReadTerm;
    if TermsEnd(s, i) {
      u := {};
    } else {
      TermSound(s, i);
      var r := ReadTerm(s, i);
      var v := TermsSound(s, r.next, acc + r.v);
      u := r.v + v;
      assert FirstTerm(r.v, s, i, r.next, ReadTerms(s, i, acc).next);
      assert acc + r.v + v == acc + (r.v + v);
    }
  }

  lemma {:induction false} TermsComplete(t: set<char>, s: string, i: nat, j: nat, acc: set<char>)
    requires TermsSpelled(t, s, i, j) && TermsEnd(s, j)
    ensures i <= j <= |s| && ReadTerms(s, i, acc) == Read(acc + t, j, 0)
    ensures MemberAt(s, i) || (i == j && t == {})
    decreases j - i
  {
    if i == j && t == {} {
      assert acc + t == acc;
    } else {
      var k: nat, u: set<char>, v: set<char> :| FirstTerm(u, s, i, k, j) && TermsSpelled(v, s, k, j) && t == u + v;
      TermsComplete(v, s, k, j, acc + u);
      TermComplete(u, s, i, k);
      assert acc + u + v == acc + t;
    }
  }

  lemma ListComplete(t: set<char>, s: string, i: nat, j: nat)
    requires ListSpelled(t, s, i, j) && j < |s| && s[j] == ']'
    ensures ReadList(s, i) == Read(t, j, 0)
  {
    hide TermsSpelled, ReadTerms, MemberAt;
    var a: nat, b: nat, u: set<char> :| ListParts(t, s, i, a, b, j, u);
    var acc := if a == i then {} else {s[i]};
    TermsComplete(u, s, a, b, acc);
    MemberIs(s, a);
    assert j == b ==> t == acc + u;
    if a == b == i {
      NoTerms(s, j, {'-'});
      assert t == {'-'};
    }
  }

  lemma NoTerms(s: string, i: nat, acc: set<char>)
    requires i <= |s| && TermsEnd(s, i)
    ensures ReadTerms(s, i, acc) == Read(acc, i, 0)
  {
  }

  lemma MemberIs(s: string, i: nat)
    ensures MemberAt(s, i) ==> i < |s| && s[i] != ']' && s[i] != '-'
  {
  }

  lemma ListSound(s: string, i: nat)
    requires i <= |s| && ReadList(s, i).Read? && ReadList(s, i).next < |s| && s[ReadList(s, i).next] == ']'
    ensures ListSpelled(ReadList(s, i).v, s, i, ReadList(s, i).next)
  {
    hide TermsSpelled;
    var lead := i < |s| && (s[i] == ']' || s[i] == '-');
    var a := if lead then i + 1 else i;
    var acc := if lead then {s[i]} else {};
    var u := TermsSound(s, a, acc);
    var r := ReadTerms(s, a, acc);
    assert ListParts(ReadList(s, i).v, s, i, a, r.next, ReadList(s, i).next, u);
  }

  /** A bracket expression is read as the set that it spells, and nothing else is. */
  lemma BracketReads(s: string, i: nat, t: set<char>, j: nat)
    requires i <= |s|
    ensures ReadBracket(s, i) == Read(t, j, 0) <==> BracketSpelled(t, s, i, j)
  {
    hide ReadList, ListSpelled;
    var k := if i < |s| && s[i] == '^' then i + 1 else i;
    if ReadBracket(s, i) == Read(t, j, 0) { ListSound(s, k); }
    if BracketSpelled(t, s, i, j) {
      var u := t;
      if k > i { u :| ListSpelled(u, s, k, j - 1) && t == Universe() - u; }
      ListComplete(u, s, k, j - 1);
      if WordMarkAt(s, i) { NoWordMark(s, i); }
    }
  }

  lemma NoWordMark(s: string, i: nat)
    requires i <= |s| && WordMarkAt(s, i)
    ensures ReadList(s, i).Beyond?
  {
    assert SeeTwo(s, i, '[', ':');
  }

  // ----- the numerals and bounds read are those spelled -----

  /** Reading on from `j` with the value of the digits so far. */
  lemma {:induction false} DigitsSound(s: string, i: nat, j: nat)
    requires i <= j <= |s| && (forall k :: i <= k < j ==> Digit(s[k]))
    ensures var r := ReadDigits(s, j, Value(s, i, j));
      && j <= r.1 <= |s| && (forall k :: i <= k < r.1 ==> Digit(s[k])) && r.0 == Value(s, i, r.1)
      && (r.0 <= DUPMAX ==> !DigitAt(s, r.1))
    decreases |s| - j
  {
    if DigitAt(s, j) && Value(s, i, j) <= DUPMAX { DigitsSound(s, i, j + 1); }
  }

  /** A numeral whose value fits is read to its end. */
  lemma {:induction false} DigitsComplete(s: string, i: nat, j: nat, e: nat)
    requires i <= j <= e <= |s| && (forall k :: i <= k < e ==> Digit(s[k])) && !DigitAt(s, e)
    requires Value(s, i, e) <= DUPMAX
    ensures ReadDigits(s, j, Value(s, i, j)) == (Value(s, i, e), e)
    decreases e - j
  {
    if j < e {
      ValueGrows(s, i, j, e);
      DigitsComplete(s, i, j + 1, e);
    }
  }

  lemma {:induction false} ValueGrows(s: string, i: nat, j: nat, e: nat)
    requires i <= j <= e <= |s| && forall k :: i <= k < e ==> Digit(s[k])
    ensures Value(s, i, j) <= Value(s, i, e)
    decreases e - j
  {
    if j < e { ValueGrows(s, i, j, e - 1); }
  }

  lemma CountReads(s: string, i: nat, v: nat, j: nat)
    requires i <= |s|
    ensures ReadCount(s, i) == Read(v, j, 0) <==> NumeralSpelled(v, s, i, j)
  {
    if ReadCount(s, i) == Read(v, j, 0) { DigitsSound(s, i, i); }
    if NumeralSpelled(v, s, i, j) { DigitsComplete(s, i, i, j); }
  }

  lemma BoundsSound(s: string, i: nat)
    requires i <= |s| && ReadBounds(s, i).Read?
    ensures var r := ReadBounds(s, i); BoundsSpelled(r.v.0, r.v.1, s, i, r.next)
  {
    hide NumeralSpelled, ReadCount;
    var r1 := ReadCount(s, i);
    CountReads(s, i, r1.v, r1.next);
    var j := r1.next;
    if j < |s| && s[j] == ',' && DigitAt(s, j + 1) {
      var r2 := ReadCount(s, j + 1);
      CountReads(s, j + 1, r2.v, r2.next);
      assert TwoCounts(r1.v, r2.v, s, i, j, r2.next + 1);
    }
  }

  lemma BoundsComplete(lo: nat, hi: nat, s: string, i: nat, j: nat)
    requires i <= |s| && BoundsSpelled(lo, hi, s, i, j)
    ensures ReadBounds(s, i) == Read((lo, hi), j, 0) && DigitAt(s, i)
  {
    if exists k: nat :: TwoCounts(lo, hi, s, i, k, j) {
      var k: nat :| TwoCounts(lo, hi, s, i, k, j);
      CountReads(s, i, lo, k);
      CountReads(s, k + 1, hi, j - 1);
    } else if NumeralSpelled(lo, s, i, j - 1) {
      CountReads(s, i, lo, j - 1);
    } else {
      CountReads(s, i, lo, j - 2);
    }
  }
}
