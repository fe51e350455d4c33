/** fnmatch_internal(): the "sea of stars" matcher. */
module GlobMatcher {
  import opened Globs
  import opened GlobTokens

  // ----- where the stars are -----

  function FirstStar(ts: Tokens): (n: nat)
    ensures n <= |ts| && StarFree(ts[..n]) && (n < |ts| ==> ts[n] == Star)
  {
    if |ts| == 0 || ts[0].Star? then 0
    else
      var n := FirstStar(ts[1..]) + 1;
      assert ts[..n] == [ts[0]] + ts[1..][..n - 1];
      n
  }

  lemma {:induction false} FirstStarIs(a: Tokens, b: Tokens)
    requires StarFree(a)
    ensures FirstStar(a + [Star] + b) == |a|
  {
    var ts := a + [Star] + b;
    if |a| > 0 {
      FirstStarIs(a[1..], b);
      assert ts[1..] == a[1..] + [Star] + b;
    }
  }

  lemma {:induction false} FirstStarPast(a: Tokens, b: Tokens)
    requires StarFree(a)
    ensures FirstStar(a + b) >= |a|
  {
    if |a| > 0 {
      FirstStarPast(a[1..], b);
      assert (a + b)[1..] == a[1..] + b;
    }
  }

  predicate EndsInStar(ts: Tokens) { |ts| > 0 ==> ts[|ts| - 1] == Star }

  // ----- one character -----

  /** The comparison that fnmatch_internal makes in three places. */
  method FitsHere(pat: string, p: nat, c: Code, k: char, noesc: bool, fold: bool) returns (r: bool)
    requires p < |pat| && CodeOf(c, Tok(pat, p, noesc).0) && c != StarCode
    ensures r <==> Fits(Tok(pat, p, noesc).0, k, fold)
  {
    hide BracketEnd, InBracket;
    var kfold := if fold then Fold(k) else k;
    if c == BracketCode {
      ghost var stop;
      r, stop := MatchBracket(pat, p, k, kfold);
    } else {
      r := c == Question || c == Chr(k) || c == Chr(kfold);
    }
  }

  lemma ToksStep(pat: string, i: nat, e: nat, noesc: bool)
    requires i < e <= |pat| && Aligned(pat, i, e, noesc)
    ensures var (t, step) := Tok(pat, i, noesc);
      i + step <= e && Aligned(pat, i + step, e, noesc) && Toks(pat, i, e, noesc) == [t] + Toks(pat, i + step, e, noesc)
  {
    AlignedOrder(pat, i + Tok(pat, i, noesc).1, e, noesc);
  }

  lemma ToksNone(pat: string, i: nat, noesc: bool)
    requires i <= |pat|
    ensures Aligned(pat, i, i, noesc) && Toks(pat, i, i, noesc) == []
  {
  }

  lemma ToksSnoc(pat: string, a: nat, i: nat, noesc: bool)
    requires a <= i < |pat| && Aligned(pat, a, i, noesc)
    ensures var (t, step) := Tok(pat, i, noesc);
      Aligned(pat, a, i + step, noesc) && Toks(pat, a, i + step, noesc) == Toks(pat, a, i, noesc) + [t]
  {
    hide Tok;
    var (t, step) := Tok(pat, i, noesc);
    ToksNone(pat, i + step, noesc);
    AlignedThen(pat, a, i, i + step, noesc);
  }

  // ----- the head -----

  datatype Head = Answer(r: bool) | AtStar(i: nat, j: nat)

  /** Up to the first star, token for token. */
  method MatchHead(pat: string, from: nat, end: nat, str: string, lo: nat, hi: nat, noesc: bool, fold: bool)
    returns (h: Head)
    requires from <= end <= |pat| && Aligned(pat, from, end, noesc) && lo <= hi <= |str|
    ensures h.Answer? ==> h.r == Match(Toks(pat, from, end, noesc), str[lo..hi], fold)
    ensures h.AtStar? ==>
      && h.i <= end && Aligned(pat, h.i, end, noesc) && lo <= h.j <= hi
      && Match(Toks(pat, from, end, noesc), str[lo..hi], fold)
        == Match([Star] + Toks(pat, h.i, end, noesc), str[h.j..hi], fold)
  {
    hide Tok, Match, Fits, Aligned, Toks;
    var i: nat, j: nat := from, lo;
    while true
      invariant i <= end && Aligned(pat, i, end, noesc) && lo <= j <= hi
      invariant Match(Toks(pat, from, end, noesc), str[lo..hi], fold) == Match(Toks(pat, i, end, noesc), str[j..hi], fold)
      decreases end - i
    {
      if i < end {
        ToksStep(pat, i, end, noesc);
        var t := Tok(pat, i, noesc).0;
        if !t.Star? { MatchOne(t, Toks(pat, i + Tok(pat, i, noesc).1, end, noesc), str[j..hi], fold); }
      } else {
        ToksNone(pat, i, noesc);
        MatchNone(str[j..hi], fold);
      }
      var c, pinc := PatNext(pat, i, end, noesc);
      if c == StarCode { return AtStar(i + pinc, j); }
      if j == hi { return Answer(c == End); }
      if c == End { return Answer(false); }
      var k := str[j];
      assert str[j..hi][1..] == str[j + 1..hi];
      var fits := FitsHere(pat, i, c, k, noesc, fold);
      if !fits { return Answer(false); }
      i, j := i + pinc, j + 1;
    }
  }

  // ----- the tail -----

  /** The last star, and how many characters the tokens behind it take. */
  method FindTail(pat: string, i: nat, end: nat, noesc: bool) returns (ptail: nat, tailcnt: nat)
    requires i <= end <= |pat| && Aligned(pat, i, end, noesc)
    ensures i <= ptail <= end && Aligned(pat, i, ptail, noesc) && Aligned(pat, ptail, end, noesc)
    ensures EndsInStar(Toks(pat, i, ptail, noesc))
    ensures StarFree(Toks(pat, ptail, end, noesc)) && tailcnt == |Toks(pat, ptail, end, noesc)|
  {
    hide Tok, Aligned, Toks;
    ptail, tailcnt := i, 0;
    var p: nat := i;
    ToksNone(pat, i, noesc);
    while p < end
      invariant i <= ptail <= p <= end && Aligned(pat, i, ptail, noesc) && Aligned(pat, ptail, p, noesc)
      invariant Aligned(pat, i, p, noesc) && Aligned(pat, p, end, noesc)
      invariant EndsInStar(Toks(pat, i, ptail, noesc))
      invariant StarFree(Toks(pat, ptail, p, noesc)) && tailcnt == |Toks(pat, ptail, p, noesc)|
      decreases end - p
    {
      ToksStep(pat, p, end, noesc);
      ToksSnoc(pat, i, p, noesc);
      ToksSnoc(pat, ptail, p, noesc);
      var c, pinc := PatNext(pat, p, end, noesc);
      p := p + pinc;
      if c == StarCode {
        tailcnt, ptail := 0, p;
        ToksNone(pat, p, noesc);
      } else {
        tailcnt := tailcnt + 1;
      }
    }
  }

  method MatchTail(pat: string, ptail: nat, end: nat, str: string, stail: nat, hi: nat, noesc: bool, fold: bool)
    returns (r: bool)
    requires ptail <= end <= |pat| && Aligned(pat, ptail, end, noesc) && stail <= hi <= |str|
    requires StarFree(Toks(pat, ptail, end, noesc)) && |Toks(pat, ptail, end, noesc)| == hi - stail
    ensures r <==> FitsAll(Toks(pat, ptail, end, noesc), str[stail..hi], fold)
  {
    hide Tok, Fits, Aligned, Toks;
    var p: nat, s: nat := ptail, stail;
    while true
      invariant p <= end && Aligned(pat, p, end, noesc) && stail <= s <= hi
      invariant StarFree(Toks(pat, p, end, noesc)) && |Toks(pat, p, end, noesc)| == hi - s
      invariant FitsAll(Toks(pat, ptail, end, noesc), str[stail..hi], fold) == FitsAll(Toks(pat, p, end, noesc), str[s..hi], fold)
      decreases hi - s
    {
      if p < end { ToksStep(pat, p, end, noesc); } else { ToksNone(pat, p, noesc); }
      var c, pinc := PatNext(pat, p, end, noesc);
      if s == hi { return c == End; }
      FitsCons(Tok(pat, p, noesc).0, Toks(pat, p + pinc, end, noesc), str[s..hi], fold);
      assert str[s..hi][1..] == str[s + 1..hi];
      var k := str[s];
      r := FitsHere(pat, p, c, k, noesc, fold);
      if !r { return; }
      p, s := p + pinc, s + 1;
    }
  }

  lemma FitsCons(t: Token, ts: Tokens, s: string, fold: bool)
    requires |s| > 0
    ensures FitsAll([t] + ts, s, fold) <==> Fits(t, s[0], fold) && FitsAll(ts, s[1..], fold)
  {
    hide Fits;
    assert s == [s[0]] + s[1..];
  }

  lemma FitsSnoc(ts: Tokens, t: Token, s: string, c: char, fold: bool)
    ensures FitsAll(ts + [t], s + [c], fold) <==> FitsAll(ts, s, fold) && Fits(t, c, fold)
  {
    hide Fits;
    if FitsAll(ts + [t], s + [c], fold) {
      forall i | 0 <= i < |ts| ensures Fits(ts[i], s[i], fold) {
        assert (ts + [t])[i] == ts[i] && (s + [c])[i] == s[i];
      }
      assert (ts + [t])[|ts|] == t && (s + [c])[|ts|] == c;
    }
  }

  // ----- the sea of stars -----

  /** The tokens up to the first star, and those behind it. */
  function Comp(ts: Tokens): (r: Tokens) ensures StarFree(r) { ts[..FirstStar(ts)] }

  function Rest(ts: Tokens): Tokens { if FirstStar(ts) < |ts| then ts[FirstStar(ts) + 1..] else [] }

  lemma CompRest(ts: Tokens)
    requires FirstStar(ts) < |ts|
    ensures ts == Comp(ts) + ([Star] + Rest(ts))
  {
    hide FirstStar, StarFree;
    Pieces(ts, FirstStar(ts));
  }

  lemma Pieces(ts: Tokens, n: nat)
    requires n < |ts|
    ensures ts == ts[..n] + ([ts[n]] + ts[n + 1..])
  {
  }

  predicate CompFits(ts: Tokens, u: string, fold: bool) {
    |Comp(ts)| <= |u| && FitsAll(Comp(ts), u[..|Comp(ts)|], fold)
  }

  datatype Try = Commit(p: nat, s: nat) | Short | Mismatch

  /** The component at `pat`, tried at `lo`. */
  method TryComponent(pat: string, i: nat, ptail: nat, str: string, lo: nat, hi: nat, noesc: bool, fold: bool)
    returns (r: Try)
    requires i < ptail <= |pat| && Aligned(pat, i, ptail, noesc) && lo <= hi <= |str|
    requires EndsInStar(Toks(pat, i, ptail, noesc))
    ensures var ts := Toks(pat, i, ptail, noesc);
      match r
      case Commit(p, s) =>
        && CompFits(ts, str[lo..hi], fold) && s == lo + |Comp(ts)| <= hi && FirstStar(ts) < |ts|
        && i < p <= ptail && Aligned(pat, p, ptail, noesc) && Toks(pat, p, ptail, noesc) == Rest(ts)
      case Short => hi - lo < |Comp(ts)|
      case Mismatch => lo < hi && !CompFits(ts, str[lo..hi], fold)
  {
    hide Tok, Fits, Aligned, Toks, FirstStar, Comp, Rest, CompFits, FitsAll, EndsInStar;
    var p: nat, s: nat := i, lo;
    ghost var ts, u := Toks(pat, i, ptail, noesc), str[lo..hi];
    ghost var done: Tokens := [];
    ToksSome(pat, i, ptail, noesc);
    FitsNone(u, fold);
    while true
      invariant i <= p <= ptail && Aligned(pat, p, ptail, noesc) && lo <= s <= hi && |done| == s - lo
      invariant ts == done + Toks(pat, p, ptail, noesc) && StarFree(done) && FitsAll(done, u[..|done|], fold)
      decreases ptail - p
    {
      NotDone(pat, p, ptail, ts, done, noesc);
      ToksStep(pat, p, ptail, noesc);
      ghost var t := Tok(pat, p, noesc).0;
      var c, pinc := PatNext(pat, p, ptail, noesc);
      ghost var rest := Toks(pat, p + pinc, ptail, noesc);
      if c == StarCode {
        CompIs(ts, done, rest, u, fold);
        return Commit(p + pinc, s);
      }
      CompLonger(ts, done, t, rest, u, fold);
      if s == hi { return Short; }
      var k := str[s];
      assert u[|done|] == k;
      var fits := FitsHere(pat, p, c, k, noesc, fold);
      if !fits { return Mismatch; }
      done := done + [t];
      p, s := p + pinc, s + 1;
    }
  }

  lemma ToksSome(pat: string, i: nat, ptail: nat, noesc: bool)
    requires i < ptail <= |pat| && Aligned(pat, i, ptail, noesc)
    ensures |Toks(pat, i, ptail, noesc)| > 0
  {
  }

  lemma FitsNone(u: string, fold: bool)
    ensures FitsAll([], u[..0], fold)
  {
  }

  /** The last token is a star, so a star comes before the end. */
  lemma NotDone(pat: string, p: nat, ptail: nat, ts: Tokens, done: Tokens, noesc: bool)
    requires p <= ptail <= |pat| && Aligned(pat, p, ptail, noesc) && ts == done + Toks(pat, p, ptail, noesc)
    requires StarFree(done) && EndsInStar(ts) && |ts| > 0
    ensures p < ptail
  {
    hide Tok, Aligned, Toks;
    if p == ptail { ToksNone(pat, p, noesc); }
  }

  /** A star: the component is complete. */
  lemma CompIs(ts: Tokens, done: Tokens, rest: Tokens, u: string, fold: bool)
    requires ts == done + ([Star] + rest) && StarFree(done) && |done| <= |u| && FitsAll(done, u[..|done|], fold)
    ensures FirstStar(ts) == |done| < |ts| && |Comp(ts)| == |done| && Rest(ts) == rest && CompFits(ts, u, fold)
  {
    hide FirstStar, Fits;
    assert ts == done + [Star] + rest;
    FirstStarIs(done, rest);
    assert Comp(ts) == done;
  }

  /** Not a star: the component goes on, and must fit so far. */
  lemma CompLonger(ts: Tokens, done: Tokens, t: Token, rest: Tokens, u: string, fold: bool)
    requires ts == done + ([t] + rest) && StarFree(done) && !t.Star? && |done| <= |u| && FitsAll(done, u[..|done|], fold)
    ensures |done| < |Comp(ts)| && ts == (done + [t]) + rest && StarFree(done + [t])
    ensures |done| < |u| && Fits(t, u[|done|], fold) ==> FitsAll(done + [t], u[..|done + [t]|], fold)
    ensures |done| < |u| && !Fits(t, u[|done|], fold) ==> !CompFits(ts, u, fold)
  {
    hide FirstStar, Fits, FitsAll;
    assert ts == (done + [t]) + rest;
    FirstStarPast(done + [t], rest);
    CompPrefix(ts, done + [t], rest);
    if |done| < |u| {
      FitsSnoc(done, t, u[..|done|], u[|done|], fold);
      assert u[..|done|] + [u[|done|]] == u[..|done| + 1];
      if !Fits(t, u[|done|], fold) { PrefixFits(Comp(ts), done + [t], u, fold); }
    }
  }

  lemma CompPrefix(ts: Tokens, done: Tokens, rest: Tokens)
    requires ts == done + rest && FirstStar(ts) >= |done|
    ensures |Comp(ts)| >= |done| && Comp(ts)[..|done|] == done
  {
    hide FirstStar;
  }

  lemma PrefixFits(comp: Tokens, done: Tokens, u: string, fold: bool)
    requires |done| <= |comp| && comp[..|done|] == done && |done| <= |u| && !FitsAll(done, u[..|done|], fold)
    ensures !(|comp| <= |u| && FitsAll(comp, u[..|comp|], fold))
  {
    hide Fits;
    if |comp| <= |u| && FitsAll(comp, u[..|comp|], fold) {
      forall i | 0 <= i < |done| ensures Fits(done[i], u[..|done|][i], fold) {
        assert done[i] == comp[i] && u[..|comp|][i] == u[i];
      }
    }
  }

  /** The components one after the other, each at its first occurrence behind the one before. */
  method MatchSea(pat: string, from: nat, ptail: nat, str: string, lo: nat, hi: nat, noesc: bool, fold: bool)
    returns (r: bool)
    requires from <= ptail <= |pat| && Aligned(pat, from, ptail, noesc) && lo <= hi <= |str|
    requires EndsInStar(Toks(pat, from, ptail, noesc))
    ensures r <==> Match([Star] + Toks(pat, from, ptail, noesc), str[lo..hi], fold)
  {
    hide Tok, Fits, Aligned, Toks, FirstStar, Match, Comp, Rest, CompFits, EndsInStar;
    var i: nat, j: nat := from, lo;
    while i < ptail
      invariant i <= ptail && Aligned(pat, i, ptail, noesc) && lo <= j <= hi && EndsInStar(Toks(pat, i, ptail, noesc))
      invariant Match([Star] + Toks(pat, from, ptail, noesc), str[lo..hi], fold)
             == Match([Star] + Toks(pat, i, ptail, noesc), str[j..hi], fold)
      decreases ptail - i, hi - j
    {
      ghost var ts, u := Toks(pat, i, ptail, noesc), str[j..hi];
      StarInside(pat, i, ptail, noesc);
      SeaStep(ts, u, fold);
      var t := TryComponent(pat, i, ptail, str, j, hi, noesc, fold);
      match t
      case Commit(p, s) =>
        assert u[|Comp(ts)|..] == str[s..hi];
        i, j := p, s;
      case Short =>
        return false;
      case Mismatch =>
        assert u[1..] == str[j + 1..hi];
        j := j + 1;
    }
    ToksNone(pat, i, noesc);
    assert [Star] + [] == [Star];
    StarAlone(str[j..hi], fold);
    r := true;
  }

  /** The three ways an attempt can go. */
  lemma SeaStep(ts: Tokens, u: string, fold: bool)
    requires FirstStar(ts) < |ts| && EndsInStar(ts)
    ensures EndsInStar(Rest(ts))
    ensures CompFits(ts, u, fold) ==> Match([Star] + ts, u, fold) == Match([Star] + Rest(ts), u[|Comp(ts)|..], fold)
    ensures |u| < |Comp(ts)| ==> !Match([Star] + ts, u, fold)
    ensures |u| > 0 && !CompFits(ts, u, fold) ==> Match([Star] + ts, u, fold) == Match([Star] + ts, u[1..], fold)
  {
    hide Fits, FirstStar, Match, FitsAll, Comp;
    RestEnds(ts);
    CompRest(ts);
    if CompFits(ts, u, fold) { ComponentFits(Comp(ts), Rest(ts), u, fold); }
    if |u| < |Comp(ts)| { ComponentTooLong(Comp(ts), [Star] + Rest(ts), u, fold); }
    if |u| > 0 && !CompFits(ts, u, fold) { ComponentFails(Comp(ts), Rest(ts), u, fold); }
  }

  lemma StarInside(pat: string, i: nat, ptail: nat, noesc: bool)
    requires i < ptail <= |pat| && Aligned(pat, i, ptail, noesc) && EndsInStar(Toks(pat, i, ptail, noesc))
    ensures var ts := Toks(pat, i, ptail, noesc); FirstStar(ts) < |ts|
  {
    hide Tok, Aligned, Toks, FirstStar;
    var ts := Toks(pat, i, ptail, noesc);
    ToksStep(pat, i, ptail, noesc);
    assert ts[..|ts|] == ts && ts[|ts| - 1] in ts;
  }

  lemma RestEnds(ts: Tokens)
    requires EndsInStar(ts)
    ensures EndsInStar(Rest(ts))
  {
  }

  // ----- fnmatch_internal -----

  /** Head, tail and sea together decide exactly whether the pattern matches. */
  method FnmatchInternal(pat: string, from: nat, end: nat, str: string, lo: nat, hi: nat, noesc: bool, fold: bool)
    returns (r: bool)
    requires from <= end <= |pat| && Aligned(pat, from, end, noesc) && lo <= hi <= |str|
    ensures r <==> Match(Toks(pat, from, end, noesc), str[lo..hi], fold)
  {
    hide Tok, Fits, Aligned, Toks, Match, FitsAll;
    var h := MatchHead(pat, from, end, str, lo, hi, noesc, fold);
    if h.Answer? { return h.r; }
    var i, j := h.i, h.j;
    var ptail, tailcnt := FindTail(pat, i, end, noesc);
    ghost var sea, tail, u := Toks(pat, i, ptail, noesc), Toks(pat, ptail, end, noesc), str[j..hi];
    AlignedThen(pat, i, ptail, end, noesc);
    assert [Star] + (sea + tail) == ([Star] + sea) + tail;
    TailMatch([Star] + sea, tail, u, fold);
    if hi - j < tailcnt { return false; }
    var s := hi;
    ghost var n := tailcnt;
    while s > j && tailcnt > 0
      invariant j <= s <= hi && hi - s == n - tailcnt
      decreases tailcnt
    {
      s, tailcnt := s - 1, tailcnt - 1;
    }
    if tailcnt > 0 { return false; }
    assert u[|u| - n..] == str[s..hi] && u[..|u| - n] == str[j..s];
    r := MatchTail(pat, ptail, end, str, s, hi, noesc, fold);
    if !r { return; }
    r := MatchSea(pat, i, ptail, str, j, s, noesc, fold);
  }
}
