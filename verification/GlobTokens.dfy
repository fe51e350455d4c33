/** pat_next() and match_bracket(): the tokens of a pattern, read twice by different code. */
module GlobTokens {
  import opened Globs

  /** The token at `i`, and how many characters it takes. */
  function Tok(pat: string, i: nat, noesc: bool): (r: (Token, nat))
    requires i < |pat|
    ensures 1 <= r.1 && i + r.1 <= |pat|
  {
    if pat[i] == '\\' && i + 1 < |pat| && !noesc then (Lit(pat[i + 1]), 2)
    else if pat[i] == '[' then
      var e := BracketEnd(pat, i, |pat|);
      if e == |pat| then (Lit('['), 1) else (Bracket(BracketSet(pat, i), Inverts(pat[i + 1])), e + 1 - i)
    else if pat[i] == '*' then (Star, 1)
    else if pat[i] == '?' then (Any, 1)
    else (Lit(pat[i]), 1)
  }

  /** A token boundary, seen from `i`. */
  predicate Aligned(pat: string, i: nat, e: nat, noesc: bool)
    requires i <= |pat|
    decreases |pat| - i
  {
    i == e || (i < e <= |pat| && Aligned(pat, i + Tok(pat, i, noesc).1, e, noesc))
  }

  /** The tokens from `i` to the boundary `e`. */
  function Toks(pat: string, i: nat, e: nat, noesc: bool): Tokens
    requires i <= |pat| && Aligned(pat, i, e, noesc)
    decreases |pat| - i
  {
    if i == e then []
    else
      var (t, step) := Tok(pat, i, noesc);
      [t] + Toks(pat, i + step, e, noesc)
  }

  /** The end of the pattern is a boundary. */
  lemma {:induction false} AlignedEnd(pat: string, i: nat, noesc: bool)
    requires i <= |pat|
    ensures Aligned(pat, i, |pat|, noesc)
    decreases |pat| - i
  {
    if i < |pat| { AlignedEnd(pat, i + Tok(pat, i, noesc).1, noesc); }
  }

  lemma {:induction false} AlignedThen(pat: string, i: nat, j: nat, e: nat, noesc: bool)
    requires i <= |pat| && Aligned(pat, i, j, noesc) && j <= |pat| && Aligned(pat, j, e, noesc)
    ensures i <= j <= e && Aligned(pat, i, e, noesc) && Toks(pat, i, e, noesc) == Toks(pat, i, j, noesc) + Toks(pat, j, e, noesc)
    decreases |pat| - i
  {
    hide Tok;
    AlignedOrder(pat, j, e, noesc);
    if i != j {
      var (t, step) := Tok(pat, i, noesc);
      AlignedThen(pat, i + step, j, e, noesc);
      var a, b := Toks(pat, i + step, j, noesc), Toks(pat, j, e, noesc);
      assert [t] + (a + b) == [t] + a + b;
    }
  }

  lemma AlignedOrder(pat: string, i: nat, e: nat, noesc: bool)
    requires i <= |pat| && Aligned(pat, i, e, noesc)
    ensures i <= e <= |pat|
  {
  }

  // ----- a bound at a boundary does not change a token -----

  lemma {:induction false} ClassEndBound(s: string, j: nat, z: char, e: nat, f: nat)
    requires 0 < j <= e <= f <= |s|
    ensures var r := ClassEnd(s, j, z, f); ClassEnd(s, j, z, e) == if r < e then r else e
    decreases e - j
  {
    if j < e && !(s[j - 1] == z && s[j] == ']') { ClassEndBound(s, j + 1, z, e, f); }
  }

  lemma CloseUnfold(s: string, k: nat, e: nat)
    requires k <= e <= |s|
    ensures CloseAt(s, k, e) ==
      if k == e || s[k] == ']' then k
      else if ClassAt(s, k, e) then
        if ClassStop(s, k, e) == e then e else CloseAt(s, ClassStop(s, k, e) + 1, e)
      else CloseAt(s, k + 1, e)
  {
  }

  lemma ClassBound(s: string, k: nat, e: nat, f: nat)
    requires k + 1 < e <= f <= |s| && ClassAt(s, k, f)
    ensures ClassAt(s, k, e)
    ensures var r := ClassStop(s, k, f); ClassStop(s, k, e) == if r < e then r else e
  {
    if k + 2 < e { ClassEndBound(s, k + 3, s[k + 1], e, f); }
  }

  lemma {:induction false} CloseBound(s: string, k: nat, e: nat, f: nat)
    requires k <= e <= f <= |s| && (CloseAt(s, k, f) < e || CloseAt(s, k, f) == f)
    ensures CloseAt(s, k, e) == if CloseAt(s, k, f) < e then CloseAt(s, k, f) else e
    decreases e - k
  {
    hide CloseAt, ClassStop;
    CloseUnfold(s, k, e);
    CloseUnfold(s, k, f);
    if k < e && s[k] != ']' {
      if ClassAt(s, k, f) && k + 1 < e {
        ClassBound(s, k, e, f);
        var j := ClassStop(s, k, f);
        if j < e { CloseBound(s, j + 1, e, f); }
      } else if !ClassAt(s, k, f) {
        CloseBound(s, k + 1, e, f);
      } else {
        CloseUnfold(s, k + 1, e);
      }
    }
  }

  lemma BracketBound(s: string, i: nat, e: nat)
    requires i < e <= |s| && (BracketEnd(s, i, |s|) < e || BracketEnd(s, i, |s|) == |s|)
    ensures BracketEnd(s, i, e) == if BracketEnd(s, i, |s|) < e then BracketEnd(s, i, |s|) else e
  {
    hide CloseAt;
    var k := BodyAt(s, i, |s|);
    if k <= e { CloseBound(s, k, e, |s|); }
  }

  // ----- pat_next -----

  /** What pat_next returns: a character, or one of its codes. */
  datatype Code = End | Chr(c: char) | BracketCode | Question | StarCode

  predicate CodeOf(c: Code, t: Token) {
    match t
    case Lit(d) => c == Chr(d)
    case Any => c == Question
    case Star => c == StarCode
    case Bracket(_, _) => c == BracketCode
  }

  /** The end of the class that begins at `k`. */
  method SkipClass(pat: string, k: nat, end: nat) returns (r: nat)
    requires end <= |pat| && ClassAt(pat, k, end)
    ensures r == ClassStop(pat, k, end)
  {
    var z := pat[k + 1];
    r := k + 2;
    if r < end { r := r + 1; }
    while r < end && (pat[r - 1] != z || pat[r] != ']')
      invariant 0 < r <= end && ClassStop(pat, k, end) == ClassEnd(pat, r, z, end)
      decreases end - r
    {
      r := r + 1;
    }
  }

  /** The search for the `]` that closes the bracket at `p`. */
  method FindClose(pat: string, p: nat, end: nat) returns (k: nat)
    requires p < end <= |pat| && pat[p] == '['
    ensures k == BracketEnd(pat, p, end)
  {
    hide CloseAt, ClassStop;
    k := p + 1;
    if k < end && Inverts(pat[k]) { k := k + 1; }
    if k < end && pat[k] == ']' { k := k + 1; }
    CloseUnfold(pat, k, end);
    while k < end && pat[k] != ']'
      invariant k <= end && CloseAt(pat, k, end) == BracketEnd(pat, p, end)
      invariant k == end || pat[k] == ']' ==> CloseAt(pat, k, end) == k
      decreases end - k
    {
      CloseUnfold(pat, k, end);
      if ClassAt(pat, k, end) {
        k := SkipClass(pat, k, end);
        if k == end { return; }
      }
      k := k + 1;
      CloseUnfold(pat, k, end);
    }
  }

  method PatNext(pat: string, p: nat, end: nat, noesc: bool) returns (c: Code, step: nat)
    requires p <= end <= |pat| && (p < end ==> p + Tok(pat, p, noesc).1 <= end)
    ensures p == end ==> c == End && step == 0
    ensures p < end ==> CodeOf(c, Tok(pat, p, noesc).0) && step == Tok(pat, p, noesc).1
  {
    if p == end { return End, 0; }
    if pat[p] == '\\' && p + 1 < |pat| && !noesc { return Chr(pat[p + 1]), 2; }
    if pat[p] == '[' {
      BracketBound(pat, p, end);
      hide BracketEnd, BracketSet;
      var k := FindClose(pat, p, end);
      if k == end { return Chr('['), 1; }
      return BracketCode, k + 1 - p;
    }
    if pat[p] == '*' { return StarCode, 1; }
    if pat[p] == '?' { return Question, 1; }
    return Chr(pat[p]), 1;
  }

  // ----- match_bracket -----

  /** Stepping over one member of the bracket that closes at `e`. */
  lemma CloseStep(s: string, k: nat, e: nat)
    requires k < |s| && CloseAt(s, k, |s|) == e < |s| && s[k] != ']'
    ensures k < e
    ensures !ClassAt(s, k, |s|) ==> CloseAt(s, k + 1, |s|) == e && (s[k + 1] == ']' <==> k + 1 == e)
    ensures ClassAt(s, k, |s|) ==> ClassAt(s, k, e) && ClassStop(s, k, e) == ClassStop(s, k, |s|) < e
    ensures ClassAt(s, k, |s|) ==> CloseAt(s, ClassStop(s, k, |s|) + 1, |s|) == e
    ensures ClassAt(s, k, e) ==> ClassAt(s, k, |s|)
  {
    hide CloseAt, ClassStop;
    CloseUnfold(s, k, |s|);
    if ClassAt(s, k, |s|) {
      ClassBound(s, k, e, |s|);
    } else {
      CloseUnfold(s, k + 1, |s|);
    }
  }

  lemma NamedUnfold(s: string, k: nat, e: nat, wc: char, c: char)
    requires k < e < |s|
    ensures Named(s, k, e, wc, c) ==
      if s[k] == '-' && k + 1 < e then (wc <= c <= s[k + 1]) || Named(s, k + 1, e, wc, c)
      else if ClassAt(s, k, e) && ClassStop(s, k, e) < e then
        var j := ClassStop(s, k, e);
        (s[k + 1] == ':' && j - k - 3 < 16 && InClass(s[k + 2..j - 1], c)) || Named(s, j + 1, e, wc, c)
      else c == s[k] || Named(s, k + 1, e, s[k], c)
  {
  }

  lemma NamedNone(s: string, e: nat, wc: char, c: char)
    requires e < |s|
    ensures !Named(s, e, e, wc, c)
  {
  }

  /** Where the members begin, after `^` or `!` and a first `]` or `-`. */
  lemma MembersAt(s: string, p: nat, k: nat)
    requires p < |s| && BracketEnd(s, p, |s|) < |s| && k == if Inverts(s[p + 1]) then p + 2 else p + 1
    ensures var e := BracketEnd(s, p, |s|); var q := if s[k] == ']' || s[k] == '-' then k + 1 else k;
      p < q <= e && CloseAt(s, q, |s|) == e
  {
    hide CloseAt;
    CloseUnfold(s, k, |s|);
  }

  lemma InBracketIs(s: string, p: nat, k: nat, c: char)
    requires p < |s| && BracketEnd(s, p, |s|) < |s| && k == if Inverts(s[p + 1]) then p + 2 else p + 1
    ensures var e := BracketEnd(s, p, |s|);
      if s[k] == ']' || s[k] == '-' then k < e && (InBracket(s, p, c) <==> c == s[k] || Named(s, k + 1, e, s[k], c))
      else k <= e && (InBracket(s, p, c) <==> Named(s, k, e, s[k - 1], c))
  {
    hide CloseAt, Named, BracketEnd;
    MembersAt(s, p, k);
  }

  /** The start of match_bracket. */
  method Members(pat: string, p: nat, k: char, ghost kfold: char) returns (q: nat, found: bool)
    requires p < |pat| && pat[p] == '[' && BracketEnd(pat, p, |pat|) < |pat| && (kfold == k || kfold == Fold(k))
    ensures found ==> InBracket(pat, p, k)
    ensures var e := BracketEnd(pat, p, |pat|);
      !found ==>
        && p < q <= e && CloseAt(pat, q, |pat|) == e
        && InBracket(pat, p, k) == Named(pat, q, e, pat[q - 1], k)
        && InBracket(pat, p, kfold) == Named(pat, q, e, pat[q - 1], kfold)
  {
    hide CloseAt, Named, InBracket, BracketEnd;
    q := p + 1;
    if Inverts(pat[q]) { q := q + 1; }
    MembersAt(pat, p, q);
    InBracketIs(pat, p, q, k);
    InBracketIs(pat, p, q, kfold);
    found := (pat[q] == ']' || pat[q] == '-') && k == pat[q];
    if pat[q] == ']' || pat[q] == '-' { q := q + 1; }
  }

  /** match_bracket: it finds the character among the members, or stops at the very `]` where
      pat_next ended the token. */
  method MatchBracket(pat: string, p: nat, k: char, kfold: char) returns (r: bool, ghost stop: nat)
    requires p < |pat| && pat[p] == '[' && BracketEnd(pat, p, |pat|) < |pat| && (kfold == k || kfold == Fold(k))
    ensures r == ((InBracket(pat, p, k) || InBracket(pat, p, kfold)) != Inverts(pat[p + 1]))
    ensures r == Inverts(pat[p + 1]) ==> stop == BracketEnd(pat, p, |pat|)
  {
    hide CloseAt, ClassStop, InClass, Named, InBracket, BracketEnd;
    ghost var e := BracketEnd(pat, p, |pat|);
    stop := 0;
    var inv := Inverts(pat[p + 1]);
    var q, found := Members(pat, p, k, kfold);
    if found { return !inv, stop; }
    var wc := pat[q - 1];
    while pat[q] != ']'
      invariant q <= e && CloseAt(pat, q, |pat|) == e
      invariant InBracket(pat, p, k) == Named(pat, q, e, wc, k)
      invariant InBracket(pat, p, kfold) == Named(pat, q, e, wc, kfold)
      decreases e - q
    {
      CloseStep(pat, q, e);
      NamedUnfold(pat, q, e, wc, k);
      NamedUnfold(pat, q, e, wc, kfold);
      if pat[q] == '-' && pat[q + 1] != ']' {
        var wc2 := pat[q + 1];
        if wc <= wc2 && (wc <= k <= wc2 || wc <= kfold <= wc2) { return !inv, stop; }
        q := q + 1;
      } else if ClassAt(pat, q, |pat|) {
        var p0 := q + 2;
        var z := pat[q + 1];
        q := SkipClass(pat, q, |pat|);
        if z == ':' && q - 1 - p0 < 16 {
          var name := pat[p0..q - 1];
          if InClass(name, k) || InClass(name, kfold) { return !inv, stop; }
        }
        q := q + 1;
      } else {
        wc := pat[q];
        if wc == k || wc == kfold { return !inv, stop; }
        q := q + 1;
      }
    }
    CloseUnfold(pat, q, |pat|);
    NamedNone(pat, e, wc, k);
    NamedNone(pat, e, wc, kfold);
    r, stop := inv, q;
  }
}
