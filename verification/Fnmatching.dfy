/** fnmatch() itself: patterns taken apart at slashes, and leading directories. */
module Fnmatching {
  import opened Globs
  import opened GlobTokens
  import opened GlobMatcher
  import opened GlobSpelling

  datatype Flags = Flags(noesc: bool, fold: bool, pathname: bool, leading: bool)

  // ----- what fnmatch promises -----

  const SLASH: Token := Lit('/')

  /** The first slash token; the length if there is none. */
  function SlashTok(ts: Tokens): (n: nat)
    ensures n <= |ts| && (n < |ts| ==> ts[n] == SLASH)
  {
    if |ts| == 0 || ts[0] == SLASH then 0 else SlashTok(ts[1..]) + 1
  }

  function SlashAt(s: string): (n: nat)
    ensures n <= |s| && (n < |s| ==> s[n] == '/') && forall i :: 0 <= i < n ==> s[i] != '/'
  {
    if |s| == 0 || s[0] == '/' then 0 else SlashAt(s[1..]) + 1
  }

  function SplitToks(ts: Tokens): (r: seq<Tokens>)
    ensures |r| >= 1
    decreases |ts|
  {
    var n := SlashTok(ts);
    if n == |ts| then [ts] else [ts[..n]] + SplitToks(ts[n + 1..])
  }

  function SplitText(s: string): (r: seq<string>)
    ensures |r| >= 1
    decreases |s|
  {
    var n := SlashAt(s);
    if n == |s| then [s] else [s[..n]] + SplitText(s[n + 1..])
  }

  /** Segment by segment; with leading directories the text may have more segments. */
  ghost predicate PathMatch(ts: Tokens, s: string, fold: bool, leading: bool) {
    var ps, ss := SplitToks(ts), SplitText(s);
    (|ps| == |ss| || (leading && |ps| <= |ss|)) && forall i :: 0 <= i < |ps| ==> Match(ps[i], ss[i], fold)
  }

  /** The whole text, or a part of it that a slash follows. */
  predicate DirEnd(s: string, e: nat) { e == |s| || (e < |s| && s[e] == '/') }

  ghost predicate DirMatch(ts: Tokens, s: string, fold: bool) {
    exists e: nat :: DirEnd(s, e) && Match(ts, s[..e], fold)
  }

  function AllToks(pat: string, noesc: bool): Tokens {
    AlignedEnd(pat, 0, noesc);
    Toks(pat, 0, |pat|, noesc)
  }

  ghost predicate GlobMatch(ts: Tokens, s: string, f: Flags) {
    if f.pathname then PathMatch(ts, s, f.fold, f.leading)
    else if f.leading then DirMatch(ts, s, f.fold)
    else Match(ts, s, f.fold)
  }

  /** The pattern is written as tokens that match. */
  ghost predicate Globbed(pat: string, s: string, f: Flags) {
    exists ts: Tokens :: Written(ts, pat, 0, f.noesc) && GlobMatch(ts, s, f)
  }

  lemma GlobbedIs(pat: string, s: string, f: Flags)
    ensures Written(AllToks(pat, f.noesc), pat, 0, f.noesc)
    ensures Globbed(pat, s, f) <==> GlobMatch(AllToks(pat, f.noesc), s, f)
  {
    hide Toks, Written, GlobMatch;
    ToksReads(AllToks(pat, f.noesc), pat, 0, f.noesc);
    if ts: Tokens :| Written(ts, pat, 0, f.noesc) && GlobMatch(ts, s, f) { ToksReads(ts, pat, 0, f.noesc); }
  }

  /** If the tokens are known, so is the answer. */
  lemma GlobbedAs(ts: Tokens, pat: string, s: string, f: Flags)
    requires Written(ts, pat, 0, f.noesc)
    ensures Globbed(pat, s, f) <==> GlobMatch(ts, s, f)
  {
    hide Toks, Written, GlobMatch;
    GlobbedIs(pat, s, f);
    ToksReads(ts, pat, 0, f.noesc);
  }

  // ----- one segment at a time -----

  lemma PathStep(ts: Tokens, s: string, fold: bool, leading: bool)
    ensures var n, m := SlashTok(ts), SlashAt(s);
      PathMatch(ts, s, fold, leading) <==>
        && Match(ts[..n], s[..m], fold)
        && if n == |ts| then m == |s| || leading else m < |s| && PathMatch(ts[n + 1..], s[m + 1..], fold, leading)
  {
    hide Match, SlashTok, SlashAt;
    var n, m := SlashTok(ts), SlashAt(s);
    var ps, ss := SplitToks(ts), SplitText(s);
    assert ps[0] == ts[..n] && ss[0] == s[..m];
    if n < |ts| && m < |s| {
      var ps', ss' := SplitToks(ts[n + 1..]), SplitText(s[m + 1..]);
      assert ps == [ts[..n]] + ps' && ss == [s[..m]] + ss';
      if PathMatch(ts, s, fold, leading) {
        forall i | 0 <= i < |ps'| ensures Match(ps'[i], ss'[i], fold) {
          assert ps[i + 1] == ps'[i] && ss[i + 1] == ss'[i];
        }
      }
    }
  }

  lemma {:induction false} SlashTokIs(a: Tokens, b: Tokens)
    requires SLASH !in a
    ensures SlashTok(a + b) == |a| + SlashTok(b)
  {
    if |a| == 0 {
      assert a + b == b;
    } else {
      SlashTokIs(a[1..], b);
      assert (a + b)[1..] == a[1..] + b;
    }
  }

  lemma Shifted(a: seq<Token>, t: Token, b: seq<Token>)
    ensures a + ([t] + b) == a + [t] + b
  {
  }

  /** The end of the pattern's first segment. */
  method FindSlash(pat: string, i: nat, noesc: bool) returns (p: nat, c: Code, inc: nat)
    requires i <= |pat| && Aligned(pat, i, |pat|, noesc)
    ensures i <= p && p + inc <= |pat| && Aligned(pat, i, p, noesc) && Aligned(pat, p + inc, |pat|, noesc)
    ensures c == End || (c == Chr('/') && inc > 0)
    ensures var ts := Toks(pat, i, |pat|, noesc); var n := SlashTok(ts);
      && Toks(pat, i, p, noesc) == ts[..n] && (c == End <==> n == |ts|)
      && (c != End ==> Toks(pat, p + inc, |pat|, noesc) == ts[n + 1..])
  {
    hide Tok, Aligned, Toks, SlashTok;
    p := i;
    ghost var ts := Toks(pat, i, |pat|, noesc);
    ToksNone(pat, i, noesc);
    while true
      invariant i <= p <= |pat| && Aligned(pat, i, p, noesc) && Aligned(pat, p, |pat|, noesc)
      invariant ts == Toks(pat, i, p, noesc) + Toks(pat, p, |pat|, noesc) && SLASH !in Toks(pat, i, p, noesc)
      decreases |pat| - p
    {
      SlashHere(Toks(pat, i, p, noesc), Toks(pat, p, |pat|, noesc), ts);
      if p < |pat| {
        ToksStep(pat, p, |pat|, noesc);
        ToksSnoc(pat, i, p, noesc);
        ghost var (t, step) := Tok(pat, p, noesc);
        Shifted(Toks(pat, i, p, noesc), t, Toks(pat, p + step, |pat|, noesc));
      } else {
        ToksNone(pat, p, noesc);
      }
      c, inc := PatNext(pat, p, |pat|, noesc);
      if c == End || c == Chr('/') { return; }
      p := p + inc;
    }
  }

  /** `a` has been passed and `b` lies ahead. */
  lemma SlashHere(a: Tokens, b: Tokens, ts: Tokens)
    requires ts == a + b && SLASH !in a
    ensures |b| == 0 ==> SlashTok(ts) == |ts| && ts[..SlashTok(ts)] == a
    ensures |b| > 0 && b[0] == SLASH ==> SlashTok(ts) == |a| && ts[..|a|] == a && ts[|a| + 1..] == b[1..]
    ensures |b| > 0 && b[0] != SLASH ==> SLASH !in a + [b[0]] && ts == (a + [b[0]]) + b[1..]
  {
    SlashTokIs(a, b);
  }

  method FindSlashIn(str: string, j: nat) returns (s: nat)
    requires j <= |str|
    ensures s == j + SlashAt(str[j..])
  {
    s := j;
    while s < |str| && str[s] != '/'
      invariant j <= s <= |str| && s + SlashAt(str[s..]) == j + SlashAt(str[j..])
      decreases |str| - s
    {
      assert str[s..][1..] == str[s + 1..];
      s := s + 1;
    }
  }

  method FnmatchPath(pat: string, str: string, f: Flags) returns (r: bool)
    ensures r <==> PathMatch(AllToks(pat, f.noesc), str, f.fold, f.leading)
  {
    hide Tok, Aligned, Toks, SlashTok, SlashAt, PathMatch, Match;
    var i, j := 0, 0;
    AlignedEnd(pat, 0, f.noesc);
    assert str[0..] == str;
    while true
      invariant 0 <= i <= |pat| && 0 <= j <= |str| && Aligned(pat, i, |pat|, f.noesc)
      invariant PathMatch(AllToks(pat, f.noesc), str, f.fold, f.leading)
            <==> PathMatch(Toks(pat, i, |pat|, f.noesc), str[j..], f.fold, f.leading)
      decreases |pat| - i
    {
      PathStep(Toks(pat, i, |pat|, f.noesc), str[j..], f.fold, f.leading);
      var s := FindSlashIn(str, j);
      var p, c, inc := FindSlash(pat, i, f.noesc);
      assert str[j..][..s - j] == str[j..s];
      // c differs from the character at s: only a leading directory may go on
      if (if c == End then s < |str| else s == |str|) && (s == |str| || !f.leading) { return false; }
      var seg := FnmatchInternal(pat, i, p, str, j, s, f.noesc, f.fold);
      if !seg { return false; }
      if c == End { return true; }
      assert str[j..][s + 1 - j..] == str[s + 1..];
      i, j := p + inc, s + 1;
    }
  }

  method Fnmatch(pat: string, str: string, f: Flags) returns (r: bool)
    ensures r <==> Globbed(pat, str, f)
  {
    GlobbedIs(pat, str, f);
    hide Tok, Aligned, Toks, PathMatch, Match, Globbed;
    if f.pathname {
      r := FnmatchPath(pat, str, f);
      return;
    }
    AlignedEnd(pat, 0, f.noesc);
    ghost var ts := AllToks(pat, f.noesc);
    if f.leading {
      var s := 0;
      while s < |str|
        invariant s <= |str|
        invariant forall e: nat :: e < s && str[e] == '/' ==> !Match(ts, str[..e], f.fold)
      {
        if str[s] == '/' {
          assert str[0..s] == str[..s];
          var found := FnmatchInternal(pat, 0, |pat|, str, 0, s, f.noesc, f.fold);
          if found {
            assert DirEnd(str, s);
            return true;
          }
        }
        s := s + 1;
      }
    }
    assert str[0..|str|] == str == str[..|str|];
    r := FnmatchInternal(pat, 0, |pat|, str, 0, |str|, f.noesc, f.fold);
    assert DirEnd(str, |str|);
  }

  // ----- laws of patterns -----

  lemma OneWritten(t: Token, s: string, noesc: bool)
    requires TokWritten(t, s, 0, |s|, noesc)
    ensures Written([t], s, 0, noesc)
  {
    hide TokWritten;
    var ts := [t];
    assert Written(ts[1..], s, |s|, noesc);
  }

  /** A star matches every text. */
  lemma StarLaw(s: string, f: Flags)
    requires !f.pathname
    ensures Globbed("*", s, f)
  {
    hide Globbed, Match;
    assert TokWritten(Star, "*", 0, 1, f.noesc);
    OneWritten(Star, "*", f.noesc);
    GlobbedAs([Star], "*", s, f);
    MatchNone(s[|s|..], f.fold);
    MatchStar([], s, f.fold);
    assert [Star] + [] == [Star];
    assert DirEnd(s, |s|) && s[..|s|] == s;
  }

  /** A question mark matches exactly the texts of one character. */
  lemma AnyLaw(s: string, noesc: bool, fold: bool)
    ensures Globbed("?", s, Flags(noesc, fold, false, false)) <==> |s| == 1
  {
    hide Globbed, Match, Written;
    var f := Flags(noesc, fold, false, false);
    assert TokWritten(Any, "?", 0, 1, noesc);
    OneWritten(Any, "?", noesc);
    GlobbedAs([Any], "?", s, f);
    StarFreeMatch([Any], s, fold);
  }

  predicate IsSpecial(c: char) { c == '*' || c == '?' || c == '[' || c == '\\' }

  function Literals(pat: string): (ts: Tokens)
    ensures |ts| == |pat| && forall i :: 0 <= i < |pat| ==> ts[i] == Lit(pat[i])
  {
    seq(|pat|, i requires 0 <= i < |pat| => Lit(pat[i]))
  }

  lemma {:induction false} LiteralsWritten(pat: string, i: nat, noesc: bool)
    requires i <= |pat| && forall k :: 0 <= k < |pat| ==> !IsSpecial(pat[k])
    ensures Written(Literals(pat)[i..], pat, i, noesc)
    decreases |pat| - i
  {
    if i < |pat| {
      LiteralsWritten(pat, i + 1, noesc);
      var ts := Literals(pat)[i..];
      assert ts[1..] == Literals(pat)[i + 1..];
      assert TokWritten(ts[0], pat, i, i + 1, noesc);
    }
  }

  /** A pattern without special characters matches only itself, up to folding. */
  lemma PlainLaw(pat: string, s: string, noesc: bool, fold: bool)
    requires forall k :: 0 <= k < |pat| ==> !IsSpecial(pat[k])
    ensures Globbed(pat, s, Flags(noesc, fold, false, false)) <==>
      |s| == |pat| && forall i :: 0 <= i < |s| ==> s[i] == pat[i] || (fold && Fold(s[i]) == pat[i])
  {
    hide Globbed, Match, Written;
    var f := Flags(noesc, fold, false, false);
    LiteralsWritten(pat, 0, noesc);
    assert Literals(pat)[0..] == Literals(pat);
    GlobbedAs(Literals(pat), pat, s, f);
    assert StarFree(Literals(pat));
    StarFreeMatch(Literals(pat), s, fold);
  }

  /** An escaped character stands for itself, whatever it is. */
  lemma EscapeLaw(c: char, s: string)
    ensures Globbed(['\\', c], s, Flags(false, false, false, false)) <==> s == [c]
  {
    hide Globbed, Match, Written;
    var pat, f := ['\\', c], Flags(false, false, false, false);
    assert TokWritten(Lit(c), pat, 0, 2, false);
    OneWritten(Lit(c), pat, false);
    GlobbedAs([Lit(c)], pat, s, f);
    StarFreeMatch([Lit(c)], s, false);
  }

  predicate InList(c: char) { c != ']' && c != '-' && c != '[' && c != '^' && c != '!' }

  predicate Spans(a: char, b: char, c: char) { a <= c <= b || c == a || c == b }

  /** [a-b] matches one character from the range, and its two ends even if it is empty. */
  lemma RangeLaw(a: char, b: char, s: string, noesc: bool)
    requires InList(a) && InList(b)
    ensures Globbed(['[', a, '-', b, ']'], s, Flags(noesc, false, false, false)) <==>
      |s| == 1 && Spans(a, b, s[0])
  {
    hide Globbed, Match, Written;
    var pat, f := ['[', a, '-', b, ']'], Flags(noesc, false, false, false);
    RangeWritten(a, b);
    var named := set c: char | Spans(a, b, c);
    var t := Bracket(named, false);
    var xs := [Char(a), Dash, Char(b)];
    forall c: char ensures c in named <==> Listed(xs, '[', c) { RangeLists(a, b, c); }
    assert BracketIs(xs, named, false, pat, 0, 5);
    assert TokWritten(t, pat, 0, 5, noesc);
    OneWritten(t, pat, noesc);
    GlobbedAs([t], pat, s, f);
    StarFreeMatch([t], s, false);
  }

  lemma RangeWritten(a: char, b: char)
    requires InList(a) && InList(b)
    ensures BracketWritten([Char(a), Dash, Char(b)], false, ['[', a, '-', b, ']'], 0, 5)
  {
    var pat := ['[', a, '-', b, ']'];
    var xs: Items := [Char(a), Dash, Char(b)];
    var ys: Items := [Dash, Char(b)];
    var zs: Items := [Char(b)];
    assert xs[1..] == ys && ys[1..] == zs && zs[1..] == [];
    assert ItemsWritten([], pat, 4, 4, false);
    assert ItemWritten(Char(b), pat, 3, 4, false);
    assert ItemsWritten(zs, pat, 3, 4, false);
    assert ItemWritten(Dash, pat, 2, 3, false);
    assert ItemsWritten(ys, pat, 2, 4, false);
    assert ItemWritten(Char(a), pat, 1, 2, true);
  }

  lemma RangeLists(a: char, b: char, c: char)
    ensures Listed([Char(a), Dash, Char(b)], '[', c) <==> Spans(a, b, c)
  {
    var xs: Items := [Char(a), Dash, Char(b)];
    assert LastChar(xs, 1, '[') == a;
    assert Lists(xs, 0, '[', c) <==> c == a;
    assert Lists(xs, 1, '[', c) <==> a <= c <= b;
    assert Lists(xs, 2, '[', c) <==> c == b;
  }
}
