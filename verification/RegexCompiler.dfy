/** regcomp() for extended expressions: the recursive-descent parser that appends to, inserts
    into, patches and copies parts of the strip while it reads the pattern. */
module RegexCompiler {
  import opened RegexLanguage
  import opened RegexStrip
  import opened RegexCode
  import opened RegexLexis
  import opened RegexGrammar

  /** Where the scanner is sent once an error is set. */
  const NULS: string := seq(10, _ => '\0')

  /** The operator with another operand (dofwd). */
  function WithOffset(op: Sop, v: nat): Sop {
    match op
    case OPlus_(_) => OPlus_(v)
    case OQuest_(_) => OQuest_(v)
    case OCh_(_) => OCh_(v)
    case OOr2(_) => OOr2(v)
    case _ => op
  }

  /** The part of a choice built so far: every branch closed by its OOR1. */
  function OpenCode(cs: seq<Strip>): Strip
    requires |cs| >= 1
  {
    var c := cs[|cs| - 1];
    if |cs| == 1 then [OCh_(|c| + 2)] + c + [OOr1(|c| + 1)]
    else OpenCode(cs[..|cs| - 1]) + ([OOr2(|c| + 2)] + c + [OOr1(|c| + 2)])
  }

  lemma {:induction false} OpenTail(cs: seq<Strip>, ds: seq<Strip>)
    requires |cs| >= 1 && |ds| >= 1
    ensures OpenCode(cs) + TailCode(ds) == ChoiceCode(cs + ds)
    decreases |cs|
  {
    var z := |cs| - 1;
    var c := cs[z];
    if z == 0 {
      assert (cs + ds)[1..] == ds;
    } else {
      var init := cs[..z];
      assert cs + ds == init + ([c] + ds) && ([c] + ds)[1..] == ds;
      OpenTail(init, [c] + ds);
      assert OpenCode(init) + ([OOr2(|c| + 2)] + c + [OOr1(|c| + 2)]) + TailCode(ds)
          == OpenCode(init) + ([OOr2(|c| + 2)] + c + [OOr1(|c| + 2)] + TailCode(ds));
    }
  }

  class Parse {
    ghost const text: string
    var input: string
    var next: nat
    var end: nat
    var error: nat
    var strip: Strip
    var nsub: nat
    var beyond: bool  // a construct that is not modelled was met; the reading stopped there

    ghost predicate Valid()
      reads this
    {
      if error == 0 then input == text + ['\0'] && end == |text| && next <= end && !beyond
      else input == NULS && end == 0 && next <= 1
    }

    constructor (pattern: string)
      ensures Valid() && text == pattern && error == 0 && next == 0 && strip == [] && nsub == 0 && !beyond
    {
      text, input, next, end := pattern, pattern + ['\0'], 0, |pattern|;
      error, strip, nsub, beyond := 0, [], 0, false;
    }

    // ----- scanner -----

    predicate More() reads this { next < end }

    function Peek(): char
      requires next < |input|
      reads this
    {
      input[next]
    }

    predicate See(c: char)
      requires Valid()
      reads this
    {
      More() && Peek() == c
    }

    method SetError(e: nat)
      requires Valid() && e != 0
      modifies this
      ensures Valid() && error == (if old(error) == 0 then e else old(error)) && error != 0
      ensures strip == old(strip) && nsub == old(nsub) && next == 0 && beyond == old(beyond)
    {
      if error == 0 { error := e; }
      input, next, end := NULS, 0, 0;
    }

    /** REQUIRE: go on if the condition holds, otherwise record the error. */
    method Require(ok: bool, e: nat)
      requires Valid() && e != 0
      modifies this
      ensures Valid() && strip == old(strip) && nsub == old(nsub) && beyond == old(beyond)
      ensures ok ==> unchanged(this)
      ensures !ok ==> error != 0 && next == 0 && error == if old(error) == 0 then e else old(error)
    {
      if !ok { SetError(e); }
    }

    method Unmodelled()
      requires Valid()
      modifies this
      ensures Valid() && error != 0 && beyond && strip == old(strip) && nsub == old(nsub)
    {
      SetError(REG_BADPAT);
      beyond := true;
    }

    // ----- strip building -----

    /** doemit */
    method Emit(op: Sop)
      modifies this`strip
      ensures strip == if error == 0 then old(strip) + [op] else old(strip)
    {
      if error != 0 { return; }
      strip := strip + [op];
    }

    /** doinsert: emit at the end, then move the block from `pos` on up by one. */
    method Insert(op: Sop, pos: nat)
      requires error == 0 ==> pos <= |strip|
      modifies this`strip
      ensures strip == if error == 0 then old(strip)[..pos] + [op] + old(strip)[pos..] else old(strip)
    {
      if error != 0 { return; }
      var sn := |strip|;
      Emit(op);
      var s := strip[sn];
      strip := strip[..pos] + [s] + strip[pos..sn];
    }

    /** dofwd with the distance from `pos` to the end of the strip (AHEAD). */
    method Ahead(pos: nat)
      requires error == 0 ==> pos < |strip|
      modifies this`strip
      ensures strip == if error == 0 then old(strip)[pos := WithOffset(old(strip)[pos], |old(strip)| - pos)] else old(strip)
    {
      if error != 0 { return; }
      strip := strip[pos := WithOffset(strip[pos], |strip| - pos)];
    }

    /** dupl: append a copy of a part of the strip. */
    method Dupl(start: nat, finish: nat) returns (copy: nat)
      requires start <= finish <= |strip|
      modifies this`strip
      ensures copy == |old(strip)| && strip == old(strip) + old(strip)[start..finish]
    {
      copy := |strip|;
      strip := strip + strip[start..finish];
    }

    /** Makes the block from `pos` on optional, as (y|). */
    method MakeOptional(pos: nat)
      requires error == 0 ==> pos <= |strip|
      modifies this`strip
      ensures strip == if error == 0 then old(strip)[..pos] + OptCode(old(strip)[pos..]) else old(strip)
    {
      ghost var a, c := if error == 0 then strip[..pos] else [], if error == 0 then strip[pos..] else [];
      Insert(OCh_(if pos <= |strip| then |strip| - pos + 1 else 0), pos);
      CloseOptional(pos, a, c);
    }

    /** The end of an optional block whose OCH_ stands at `pos`. */
    method CloseOptional(pos: nat, ghost a: Strip, ghost c: Strip)
      requires error == 0 ==> pos == |a| && exists k: nat :: strip == a + [OCh_(k)] + c
      modifies this`strip
      ensures strip == if error == 0 then a + OptCode(c) else old(strip)
    {
      hide OptCode;
      if error != 0 { return; }
      ghost var k: nat :| strip == a + [OCh_(k)] + c;
      Emit(OOr1(|strip| - pos));
      Ahead(pos);
      ghost var b := [OCh_(|c| + 2)] + c + [OOr1(|c| + 1)];
      assert strip == a + b;
      Emit(OOr2(0));
      Ahead(|strip| - 1);
      assert strip == a + b + [OOr2(1)];
      Emit(O_Ch(2));
      OptIs(c);
      assert a + b + [OOr2(1)] + [O_Ch(2)] == a + (b + [OOr2(1)] + [O_Ch(2)]);
    }

    /** repeat: x{from,to} for the operand from `start` to the end of the strip. */
    method Repeat(start: nat, from: nat, to: nat)
      requires error == 0 ==> start <= |strip| && Bounds(from, to)
      modifies this`strip
      ensures strip == if error == 0 then old(strip)[..start] + RepCode(old(strip)[start..], from, to) else old(strip)
      decreases from + to + if from == 0 then 2 else 0
    {
      hide OptCode, PlusCode, ChoiceCode, RepCode;
      if error != 0 { return; }
      ghost var a, c := strip[..start], strip[start..];
      var finish := |strip|;
      Cut(strip, start);
      RepIs(c, from, to);
      if from == 0 && to == 0 {
        strip := strip[..start];
      } else if from == 0 {
        Insert(OCh_(finish - start + 1), start);
        ghost var h := a + [OCh_(finish - start + 1)];
        assert strip == h + c && strip[..start + 1] == h && strip[start + 1..] == c;
        Repeat(start + 1, 1, to);
        CloseOptional(start, a, RepCode(c, 1, to));
      } else if from == 1 && to == 1 {
      } else if from == 1 && to < INFINITY {
        MakeOptional(start);
        OptIs(c);
        ghost var h := strip;
        assert strip[start + 1..finish + 1] == c;
        var copy := Dupl(start + 1, finish + 1);
        assert copy == finish + 4;
        assert strip[..copy] == h && strip[copy..] == c;
        Repeat(copy, 1, to - 1);
        Assoc(a, OptCode(c), RepCode(c, 1, to - 1));
      } else if from == 1 {
        MakePlus(start);
      } else {
        var copy := Dupl(start, finish);
        assert strip[..copy] == a + c && strip[copy..] == c;
        Repeat(copy, from - 1, if to == INFINITY then to else to - 1);
        Assoc(a, c, RepCode(c, from - 1, if to == INFINITY then to else to - 1));
      }
    }

    /** Makes the block from `pos` on a loop. */
    method MakePlus(pos: nat)
      requires error == 0 ==> pos <= |strip|
      modifies this`strip
      ensures strip == if error == 0 then old(strip)[..pos] + PlusCode(old(strip)[pos..]) else old(strip)
    {
      if error != 0 { return; }
      Insert(OPlus_(|strip| - pos + 1), pos);
      Emit(O_Plus(|strip| - pos));
    }

    /** The `*` case: a loop inside a bypass. */
    method MakeStar(pos: nat)
      requires error == 0 ==> pos <= |strip|
      modifies this`strip
      ensures strip == if error == 0 then old(strip)[..pos] + QuestCode(PlusCode(old(strip)[pos..])) else old(strip)
    {
      if error != 0 { return; }
      ghost var a, c := strip[..pos], strip[pos..];
      MakePlus(pos);
      assert strip[..pos] == a && strip[pos..] == PlusCode(c);
      Insert(OQuest_(|strip| - pos + 1), pos);
      Emit(O_Quest(|strip| - pos));
    }

    /** p_count */
    method Count() returns (count: nat)
      requires Valid() && error == 0
      modifies this
      ensures Valid() && strip == old(strip) && nsub == old(nsub) && beyond == old(beyond)
      ensures match ReadCount(text, old(next))
        case Read(v, j, _) => error == 0 && count == v && next == j
        case _ => error == REG_BADBR
    {
      count := 0;
      var ndigits := 0;
      while More() && Digit(Peek()) && count <= DUPMAX
        invariant Valid() && error == 0 && strip == old(strip) && nsub == old(nsub)
        invariant old(next) <= next && ndigits == next - old(next)
        invariant ReadDigits(text, old(next), 0) == ReadDigits(text, next, count)
        decreases end - next
      {
        count := count * 10 + DigitValue(Peek());
        next := next + 1;
        ndigits := ndigits + 1;
      }
      Require(ndigits > 0 && count <= DUPMAX, REG_BADBR);
    }

    // ----- parser -----

    /** p_b_term */
    method Term() returns (t: set<char>)
      requires Valid() && error == 0 && More()
      modifies this
      ensures Valid() && strip == old(strip) && nsub == old(nsub)
      ensures match ReadTerm(text, old(next))
        case Read(v, j, _) => error == 0 && next == j && t == v
        case Bad(e) => error == e && !beyond
        case Beyond => error != 0 && beyond
    {
      t := {};
      if Peek() == '-' {
        SetError(REG_ERANGE);
        return;
      }
      if next + 1 < end && Peek() == '[' && input[next + 1] in {':', '=', '.'} {
        Unmodelled();
        return;
      }
      var start := Peek();
      var finish := start;
      next := next + 1;
      if next + 1 < end && Peek() == '-' && input[next + 1] != ']' {
        next := next + 1;
        if next + 1 < end && Peek() == '[' && input[next + 1] == '.' {
          Unmodelled();
          return;
        }
        finish := Peek();
        next := next + 1;
      }
      Require(start <= finish, REG_ERANGE);
      t := CharRange(start, finish);
      assert start == finish ==> t == {start};
    }

    /** The loop over the terms of a bracketed list. */
    method Terms(first: set<char>) returns (cs: set<char>)
      requires Valid() && error == 0
      modifies this
      ensures Valid() && strip == old(strip) && nsub == old(nsub)
      ensures match ReadTerms(text, old(next), first)
        case Read(v, j, _) => error == 0 && next == j && cs == v
        case Bad(e) => error == e && !beyond
        case Beyond => error != 0 && beyond
    {
      cs := first;
      while More() && Peek() != ']' && !(next + 1 < end && Peek() == '-' && input[next + 1] == ']')
        invariant Valid() && strip == old(strip) && nsub == old(nsub)
        invariant ReadTerms(text, old(next), first) ==
          if error == 0 then ReadTerms(text, next, cs) else if beyond then Beyond else Bad(error)
        decreases end - next
      {
        var t := Term();
        cs := cs + t;
      }
    }

    /** p_bracket */
    method Bracket()
      requires Valid() && error == 0
      modifies this
      ensures Valid() && nsub == old(nsub)
      ensures match ReadBracket(text, old(next))
        case Read(v, j, _) => error == 0 && next == j && strip == old(strip) + SetCode(v)
        case Bad(e) => error == e && !beyond && strip == old(strip)
        case Beyond => error != 0 && beyond && strip == old(strip)
    {
      hide SetCode, ReadList, WordMarkAt;
      var mark := AtWordMark();
      if mark {
        Unmodelled();
        return;
      }
      var invert := See('^');
      if invert { next := next + 1; }
      var cs := List();
      Require(See(']'), REG_EBRACK);
      if error != 0 { return; }
      next := next + 1;
      if invert { cs := Universe() - cs; }
      EmitSet(cs);
    }

    /** The part of p_bracket between the `^` and the `]`. */
    method List() returns (cs: set<char>)
      requires Valid() && error == 0
      modifies this
      ensures Valid() && strip == old(strip) && nsub == old(nsub)
      ensures match ReadList(text, old(next))
        case Read(v, j, _) => error == 0 && next == j && cs == v
        case Bad(e) => error == e && !beyond
        case Beyond => error != 0 && beyond
    {
      hide ReadTerms;
      cs := {};
      if See(']') {
        cs := {']'};
        next := next + 1;
      } else if See('-') {
        cs := {'-'};
        next := next + 1;
      }
      cs := Terms(cs);
      if See('-') {
        cs := cs + {'-'};
        next := next + 1;
      }
    }

    method AtWordMark() returns (mark: bool)
      requires Valid() && error == 0
      ensures mark == WordMarkAt(text, next)
    {
      mark := next + 5 < end && WordMarkAt(input, next);
    }

    /** A set of one character goes out as that character. */
    method EmitSet(cs: set<char>)
      requires error == 0
      modifies this`strip
      ensures strip == old(strip) + SetCode(cs)
    {
      if |cs| == 1 {
        var c :| c in cs;
        Singleton(cs, c);
        Emit(OChar(c));
      } else {
        Emit(OAnyOf(cs));
      }
    }

    /** A repetition operator comes next; `{` is one only before a digit. */
    predicate RepOpNext()
      requires Valid()
      reads this
      ensures error == 0 ==> RepOpNext() == RepOpAt(text, next)
    {
      More() && (Peek() == '*' || Peek() == '+' || Peek() == '?'
                 || (Peek() == '{' && next + 1 < end && Digit(input[next + 1])))
    }

    /** The first half of p_ere_exp: one atom. */
    method ParseAtom()
      requires Valid() && error == 0 && More()
      modifies this
      ensures Valid()
      ensures match ReadAtom(text, old(next), old(nsub), true)
        case Read(x, j, n) => error == 0 && next == j && nsub == n && strip == old(strip) + AtomCode(x)
        case Bad(e) => error == e && !beyond
        case Beyond => error != 0 && beyond
      decreases end - next, 0
    {
      hide AltsCode, SetCode, ReadBracket, ReadAlts;
      var c := Peek();
      next := next + 1;
      if c == '(' {
        ParseGroup();
      } else if c == '^' || c == '$' {
        Unmodelled();
      } else if c == '.' {
        Emit(OAny);
      } else if c == '[' {
        Bracket();
      } else if c == '\\' {
        Require(More(), REG_EESCAPE);
        c := Peek();
        next := next + 1;
        Emit(OChar(c));
      } else if c == ')' {
        SetError(REG_EPAREN);
      } else if c == '|' {
        SetError(REG_EMPTY);
      } else if c == '*' || c == '+' || c == '?' {
        SetError(REG_BADRPT);
      } else {
        if c == '{' { Require(!More() || !Digit(Peek()), REG_BADRPT); }
        Emit(OChar(c));
      }
    }

    /** A group, from after its `(`. */
    method ParseGroup()
      requires Valid() && error == 0 && 0 < next && text[next - 1] == '('
      modifies this
      ensures Valid()
      ensures match ReadAtom(text, old(next) - 1, old(nsub), true)
        case Read(x, j, n) => error == 0 && next == j && nsub == n && strip == old(strip) + AtomCode(x)
        case Bad(e) => error == e && !beyond
        case Beyond => error != 0 && beyond
      decreases end - next, 5
    {
      hide AltsCode, ReadAlts, ReadBracket, SetCode;
      Require(More(), REG_EPAREN);
      nsub := nsub + 1;
      var subno := nsub;
      Emit(OLParen(subno));
      if !See(')') {
        Ere(true);
      }
      Emit(ORParen(subno));
      if See(')') {
        next := next + 1;
      } else {
        SetError(REG_EPAREN);
      }
    }

    /** The second half of p_ere_exp: the repetition operator at hand, applied to the block
        from `pos` on. */
    method ParseSuffix(pos: nat, ghost a: Atom)
      requires Valid() && error == 0 && RepOpNext() && pos <= |strip| && WfAtom(a) && strip[pos..] == AtomCode(a)
      modifies this
      ensures Valid() && !beyond && nsub == old(nsub)
      ensures match ReadSuffix(text, old(next), a, old(nsub))
        case Read(x, j, n) => error == 0 && next == j && strip == old(strip)[..pos] + ExpCode(x)
        case Bad(e) => error == e
        case Beyond => false
    {
      hide AtomCode, RepCode, QuestCode, PlusCode;
      var c := Peek();
      next := next + 1;
      if c == '*' {
        MakeStar(pos);
      } else if c == '+' {
        MakePlus(pos);
        RepIs(AtomCode(a), 1, INFINITY);
      } else if c == '?' {
        MakeOptional(pos);
        RepIs(AtomCode(a), 0, 1);
        RepIs(AtomCode(a), 1, 1);
      } else {
        ParseBounds(pos, a);
      }
    }

    /** A bounded repetition, from after its `{`. */
    method ParseBounds(pos: nat, ghost a: Atom)
      requires Valid() && error == 0 && pos <= |strip| && WfAtom(a) && strip[pos..] == AtomCode(a)
      modifies this
      ensures Valid() && !beyond && nsub == old(nsub)
      ensures match ReadBounds(text, old(next))
        case Read(b, j, _) => error == 0 && next == j && strip == old(strip)[..pos] + RepCode(AtomCode(a), b.0, b.1)
        case Bad(e) => error == e
        case Beyond => false
    {
      hide AtomCode, RepCode, ReadCount, MissingBrace;
      var count2: nat;
      var count := Count();
      if See(',') {
        next := next + 1;
        if Digit(Peek()) {
          count2 := Count();
          Require(count <= count2, REG_BADBR);
        } else {
          count2 := INFINITY;
        }
      } else {
        count2 := count;
      }
      Repeat(pos, count, count2);
      if See('}') {
        next := next + 1;
      } else {
        NoBrace();
      }
    }

    /** The error heuristics when the `}` is missing. */
    method NoBrace()
      requires Valid() && !beyond
      modifies this
      ensures Valid() && !beyond && nsub == old(nsub)
      ensures error == if old(error) == 0 then MissingBrace(text, old(next)) else old(error)
    {
      while More() && Peek() != '}'
        invariant Valid() && !beyond && nsub == old(nsub) && error == old(error)
        invariant error == 0 ==> MissingBrace(text, old(next)) == MissingBrace(text, next)
        decreases end - next
      {
        next := next + 1;
      }
      Require(More(), REG_EBRACE);
      SetError(REG_BADBR);
    }

    /** p_ere_exp: one piece of a branch, repeated or not; a second operator is an error. */
    method ParseExp()
      requires Valid() && error == 0 && More()
      modifies this
      ensures Valid()
      ensures match ReadExp(text, old(next), old(nsub), true)
        case Read(x, j, n) => error == 0 && next == j && nsub == n && strip == old(strip) + ExpCode(x)
        case Bad(e) => error == e && !beyond
        case Beyond => error != 0 && beyond
      decreases end - next, 1
    {
      hide AtomCode, RepCode, QuestCode, PlusCode, ReadAtom, ReadSuffix, ReadBounds;
      var pos := |strip|;
      ghost var r := ReadAtom(text, next, nsub, true);
      ParseAtom();
      if error == 0 { SuffixNone(text, next, r.v, nsub); }
      if !RepOpNext() { return; }
      assert strip[pos..] == AtomCode(r.v) && strip[..pos] == old(strip);
      ParseSuffix(pos, r.v);
      if !RepOpNext() { return; }
      SetError(REG_BADRPT);
    }

    /** The inner loop of p_ere: concatenated expressions up to `|`, the end, or the stop character. */
    method ParseBranch(inGroup: bool)
      requires Valid()
      modifies this
      ensures Valid()
      ensures old(error) != 0 ==> error == old(error) && beyond == old(beyond) && strip == old(strip)
      ensures old(error) == 0 ==> match ReadBranch(text, old(next), inGroup, old(nsub), Empty, true)
        case Read(x, j, n) => error == 0 && next == j && nsub == n && strip == old(strip) + BranchCode(x)
        case Bad(e) => error == e && !beyond
        case Beyond => error != 0 && beyond
      decreases if error == 0 then end - next else 0, 2
    {
      hide ExpCode, ReadExp;
      ghost var acc := Empty;
      while More() && Peek() != '|' && !(inGroup && Peek() == ')')
        invariant Valid() && WfBranch(acc)
        invariant old(error) != 0 ==> error == old(error) && beyond == old(beyond) && strip == old(strip)
        invariant old(error) == 0 && error == 0 ==>
          && old(next) <= next && strip == old(strip) + BranchCode(acc)
          && ReadBranch(text, old(next), inGroup, old(nsub), Empty, true) == ReadBranch(text, next, inGroup, nsub, acc, true)
        invariant old(error) == 0 && error != 0 ==>
          ReadBranch(text, old(next), inGroup, old(nsub), Empty, true) == if beyond then Beyond else Bad(error)
        decreases end - next
      {
        ghost var r := ReadExp(text, next, nsub, true);
        ghost var before := strip;
        ParseExp();
        if error == 0 {
          Assoc(old(strip), BranchCode(acc), ExpCode(r.v));
          acc := Snoc(acc, r.v);
        }
      }
    }

    /** A branch is complete and `|` was eaten: close it with OOR1, fix the offset that leads
        past it, and open the next branch with OOR2. */
    method Alternate(first: bool, conc: nat, prevfwd: nat, prevback: nat, ghost base: Strip, ghost cs: seq<Strip>, ghost c: Strip)
      returns (fwd: nat, back: nat)
      requires error == 0 && first == (|cs| == 0)
      requires first ==> strip == base + c && conc == |base|
      requires !first ==> strip == base + OpenCode(cs) + [OOr2(0)] + c
      requires !first ==> prevfwd == |base + OpenCode(cs)| && prevfwd == prevback + 1
      modifies this`strip
      ensures strip == base + OpenCode(cs + [c]) + [OOr2(0)]
      ensures fwd == |base + OpenCode(cs + [c])| && fwd == back + 1
    {
      assert (cs + [c])[..|cs|] == cs;
      fwd, back := prevfwd, prevback;
      if first {
        Insert(OCh_(|strip| - conc + 1), conc);
        fwd, back := conc, conc;
        assert strip == base + [OCh_(|c| + 1)] + c;
      }
      Emit(OOr1(|strip| - back));
      back := |strip| - 1;
      Ahead(fwd);
      if first {
        assert strip == base + ([OCh_(|c| + 2)] + c + [OOr1(|c| + 1)]);
      } else {
        assert strip == base + (OpenCode(cs) + ([OOr2(|c| + 2)] + c + [OOr1(|c| + 2)]));
      }
      fwd := |strip|;
      Emit(OOr2(0));
    }

    /** The tail-end fixups of p_ere. */
    method EndChoice(prevfwd: nat, prevback: nat, ghost base: Strip, ghost cs: seq<Strip>, ghost c: Strip)
      requires error == 0 && |cs| >= 1 && strip == base + OpenCode(cs) + [OOr2(0)] + c
      requires prevfwd == |base + OpenCode(cs)| && prevfwd == prevback + 1
      modifies this`strip
      ensures strip == base + ChoiceCode(cs + [c])
    {
      Ahead(prevfwd);
      Emit(O_Ch(|strip| - prevback));
      assert strip == base + (OpenCode(cs) + ([OOr2(|c| + 1)] + c + [O_Ch(|c| + 2)]));
      OpenTail(cs, [c]);
    }

    /** One branch of p_ere, which must emit something. */
    method ParseConcatenation(inGroup: bool)
      requires Valid()
      modifies this
      ensures Valid()
      ensures old(error) != 0 ==> error == old(error) && beyond == old(beyond) && strip == old(strip)
      ensures old(error) == 0 ==> match ReadBranch(text, old(next), inGroup, old(nsub), Empty, true)
        case Read(b, j, n) =>
          if Emits(b) then error == 0 && next == j && nsub == n && strip == old(strip) + BranchCode(b)
          else error == REG_EMPTY && !beyond
        case Bad(e) => error == e && !beyond
        case Beyond => error != 0 && beyond
      decreases if error == 0 then end - next else 0, 3
    {
      hide BranchCode, ReadBranch;
      var conc := |strip|;
      ParseBranch(inGroup);
      Require(|strip| != conc, REG_EMPTY);
    }

    /** p_ere: alternatives, up to the end or the stop character. */
    method Ere(inGroup: bool)
      requires Valid()
      modifies this
      ensures Valid()
      ensures old(error) != 0 ==> error == old(error) && beyond == old(beyond) && strip == old(strip)
      ensures old(error) == 0 ==> match ReadAlts(text, old(next), inGroup, old(nsub), true)
        case Read(x, j, n) => error == 0 && next == j && nsub == n && strip == old(strip) + AltsCode(x)
        case Bad(e) => error == e && !beyond
        case Beyond => error != 0 && beyond
      decreases if error == 0 then end - next else 0, 4
    {
      hide BranchCode, ReadBranch, OpenCode, ChoiceCode, AltsCode, ReadAlts, Prepend, Emits;
      var prevback, prevfwd, first := 0, 0, true;
      ghost var done: seq<Branch> := [];
      ghost var whole := if error == 0 then ReadAlts(text, next, inGroup, nsub, true) else Beyond;
      PrependNone(whole);
      while true
        invariant Valid() && AllWf(done) && first == (|done| == 0)
        invariant old(error) != 0 ==> error == old(error) && beyond == old(beyond) && strip == old(strip)
        invariant old(error) == 0 && error == 0 ==>
          && old(next) <= next && whole == Resume(done, ReadAlts(text, next, inGroup, nsub, true))
          && strip == old(strip) + (if first then [] else OpenCode(CodesOf(done)) + [OOr2(0)])
          && (!first ==> prevfwd == |old(strip) + OpenCode(CodesOf(done))| && prevfwd == prevback + 1)
        invariant old(error) == 0 && error != 0 ==> whole == if beyond then Beyond else Bad(error)
        decreases if error == 0 then end - next + 1 else 0
      {
        var conc := |strip|;
        ghost var r := if error == 0 then ReadBranch(text, next, inGroup, nsub, Empty, true) else Beyond;
        ghost var here := if error == 0 then ReadAlts(text, next, inGroup, nsub, true) else Beyond;
        if error == 0 { AltsStep(text, next, inGroup, nsub); }
        ParseConcatenation(inGroup);
        if error != 0 {
          return;
        }
        ghost var c := BranchCode(r.v);
        if !See('|') {
          if !first { EndChoice(prevfwd, prevback, old(strip), CodesOf(done), c); }
          PrependCode(done, One(r.v));
          return;
        }
        next := next + 1;
        prevfwd, prevback := Alternate(first, conc, prevfwd, prevback, old(strip), CodesOf(done), c);
        first := false;
        PrependMore(done, r.v, ReadAlts(text, next, inGroup, nsub, true), here);
        done := done + [r.v];
      }
    }
  }

  // ----- branches read so far -----

  predicate AllWf(bs: seq<Branch>) { forall i :: 0 <= i < |bs| ==> WfBranch(bs[i]) }

  ghost function CodesOf(bs: seq<Branch>): (cs: seq<Strip>)
    requires AllWf(bs)
    ensures |cs| == |bs|
  {
    seq(|bs|, i requires 0 <= i < |bs| => BranchCode(bs[i]))
  }

  ghost function Prepend(bs: seq<Branch>, x: Alts): Alts {
    if |bs| == 0 then x else Prepend(bs[..|bs| - 1], Or(bs[|bs| - 1], x))
  }

  ghost function Resume(bs: seq<Branch>, r: Reading<Alts>): Reading<Alts> {
    if r.Read? then Read(Prepend(bs, r.v), r.next, r.nsub) else r
  }

  lemma PrependNone(r: Reading<Alts>)
    ensures Resume([], r) == r
  {
  }

  /** Putting one more branch before a reading, at the end of those read so far. */
  lemma PrependMore(bs: seq<Branch>, b: Branch, r: Reading<Alts>, whole: Reading<Alts>)
    requires AllWf(bs) && WfBranch(b)
    requires whole == if r.Read? then Read(Or(b, r.v), r.next, r.nsub) else r
    ensures Resume(bs, whole) == Resume(bs + [b], r)
    ensures AllWf(bs + [b]) && CodesOf(bs + [b]) == CodesOf(bs) + [BranchCode(b)]
  {
    assert (bs + [b])[..|bs|] == bs;
  }

  lemma CodesSnoc(bs: seq<Branch>, b: Branch, cs: seq<Branch>)
    requires AllWf(cs) && |cs| == |bs| + 1 && cs[..|bs|] == bs && cs[|bs|] == b
    ensures AllWf(bs) && CodesOf(cs) == CodesOf(bs) + [BranchCode(b)]
  {
  }

  lemma {:induction false} PrependCodes(bs: seq<Branch>, x: Alts)
    requires AllWf(bs) && WfAlts(x)
    ensures WfAlts(Prepend(bs, x)) && Codes(Prepend(bs, x)) == CodesOf(bs) + Codes(x)
    ensures |bs| > 0 ==> Prepend(bs, x).Or?
    decreases |bs|
  {
    hide BranchCode;
    if |bs| > 0 {
      var z := |bs| - 1;
      PrependCodes(bs[..z], Or(bs[z], x));
      CodesSnoc(bs[..z], bs[z], bs);
      assert Codes(Or(bs[z], x)) == [BranchCode(bs[z])] + Codes(x);
    }
  }

  lemma PrependCode(bs: seq<Branch>, x: Alts)
    requires AllWf(bs) && WfAlts(x) && x.One?
    ensures WfAlts(Prepend(bs, x))
    ensures AltsCode(Prepend(bs, x)) ==
      if |bs| == 0 then BranchCode(x.b) else ChoiceCode(CodesOf(bs) + [BranchCode(x.b)])
  {
    PrependCodes(bs, x);
  }

  lemma Cut(s: Strip, start: nat)
    requires start <= |s|
    ensures s == s[..start] + s[start..] && s[start..|s|] == s[start..]
  {
  }

  lemma SuffixNone(s: string, i: nat, a: Atom, n: nat)
    requires i <= |s| && WfAtom(a)
    ensures !RepOpAt(s, i) ==> ReadSuffix(s, i, a, n) == Read(Plain(a), i, n)
    ensures RepOpAt(s, i) ==> !ReadSuffix(s, i, a, n).Beyond?
    ensures ReadSuffix(s, i, a, n).Read? ==> ReadSuffix(s, i, a, n).nsub == n
  {
  }

  lemma Assoc(a: Strip, b: Strip, c: Strip)
    ensures (a + b) + c == a + (b + c)
  {
  }

  lemma RepIs(c: Strip, lo: nat, hi: nat)
    requires Bounds(lo, hi)
    ensures RepCode(c, lo, hi) ==
      if hi == 0 then []
      else if lo == 0 then OptCode(RepCode(c, 1, hi))
      else if lo == 1 && hi == 1 then c
      else if lo == 1 && hi < INFINITY then OptCode(c) + RepCode(c, 1, hi - 1)
      else if lo == 1 then PlusCode(c)
      else c + RepCode(c, lo - 1, if hi == INFINITY then hi else hi - 1)
  {
  }

  lemma OptIs(c: Strip)
    ensures OptCode(c) == [OCh_(|c| + 2)] + c + [OOr1(|c| + 1)] + [OOr2(1)] + [O_Ch(2)]
  {
    assert [c, []][1..] == [[]];
    assert TailCode([[]]) == [OOr2(1)] + [] + [O_Ch(2)];
  }
}
