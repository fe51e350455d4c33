/** How the tokens of a shell pattern are written, from the token to the text, and that reading
    finds exactly what was written. */
module GlobSpelling {
  import opened Globs
  import opened GlobTokens

  // ----- bracket expressions -----

  /** What a bracket expression lists: a character, the `-` of a range, which goes from the last
      character to the one that follows, and a name in [: :], [. .] or [= =]. */
  datatype Item = Char(c: char) | Dash | Name(kind: char, name: string)

  type Items = seq<Item>

  /** A name in brackets stands from `k` to `j`, and does not end earlier. */
  predicate NameWritten(kind: char, name: string, s: string, k: nat, j: nat) {
    && k + 4 <= j <= |s| && s[k] == '[' && s[k + 1] == kind && (kind == ':' || kind == '.' || kind == '=')
    && s[j - 2] == kind && s[j - 1] == ']' && name == s[k + 2..j - 2]
    && forall i :: k + 3 <= i < j - 1 ==> s[i - 1] != kind || s[i] != ']'
  }

  predicate NameStarts(s: string, k: nat) {
    k + 1 < |s| && s[k] == '[' && (s[k + 1] == ':' || s[k + 1] == '.' || s[k + 1] == '=')
  }

  /** A `]` is listed only as the first item; a `-` is a character as the first and as the last. */
  predicate ItemWritten(x: Item, s: string, k: nat, j: nat, first: bool) {
    match x
    case Char(c) =>
      && j == k + 1 < |s| && s[k] == c && !NameStarts(s, k) && (c == ']' ==> first)
      && (c == '-' ==> first || s[k + 1] == ']')
    case Dash => j == k + 1 < |s| && s[k] == '-' && !first && s[k + 1] != ']'
    case Name(kind, name) => NameWritten(kind, name, s, k, j)
  }

  ghost predicate ItemsWritten(xs: Items, s: string, k: nat, e: nat, first: bool)
    decreases |xs|
  {
    if |xs| == 0 then k == e
    else exists j: nat :: ItemWritten(xs[0], s, k, j, first) && ItemsWritten(xs[1..], s, j, e, false)
  }

  /** The last character listed before item `i`; `before` if there is none. */
  function LastChar(xs: Items, i: nat, before: char): char
    requires i <= |xs|
  {
    if i == 0 then before else if xs[i - 1].Char? then xs[i - 1].c else LastChar(xs, i - 1, before)
  }

  /** The character an item begins with. */
  function Begins(x: Item): char {
    match x
    case Char(c) => c
    case Dash => '-'
    case Name(_, _) => '['
  }

  predicate Lists(xs: Items, i: nat, before: char, c: char)
    requires i < |xs|
  {
    match xs[i]
    case Char(d) => c == d
    case Dash => i + 1 < |xs| && LastChar(xs, i, before) <= c <= Begins(xs[i + 1])
    case Name(kind, name) => kind == ':' && |name| < 16 && InClass(name, c)
  }

  ghost predicate Listed(xs: Items, before: char, c: char) {
    exists i: nat :: i < |xs| && Lists(xs, i, before, c)
  }

  /** A bracket expression from `i` to `j`: `^` or `!` if it is inverted, and the items. */
  ghost predicate BracketWritten(xs: Items, inverted: bool, s: string, i: nat, j: nat) {
    && i + 2 < j <= |s| && s[i] == '[' && s[j - 1] == ']' && inverted == (s[i + 1] == '^' || s[i + 1] == '!')
    && |xs| > 0 && ItemsWritten(xs, s, if inverted then i + 2 else i + 1, j - 1, true)
  }

  // ----- tokens -----

  ghost predicate Closed(s: string, i: nat) {
    exists xs: Items, inverted: bool, j: nat :: BracketWritten(xs, inverted, s, i, j)
  }

  /** The text from `i` to `j` is the token. */
  ghost predicate TokWritten(t: Token, s: string, i: nat, j: nat, noesc: bool) {
    i < j <= |s| &&
    match t
    case Star => j == i + 1 && s[i] == '*'
    case Any => j == i + 1 && s[i] == '?'
    case Lit(c) =>
      || (j == i + 2 && s[i] == '\\' && s[i + 1] == c && !noesc)
      || (j == i + 1 && s[i] == c && c != '*' && c != '?' && (c == '\\' ==> noesc || j == |s|) && (c == '[' ==> !Closed(s, i)))
    case Bracket(named, inverted) => exists xs: Items :: BracketIs(xs, named, inverted, s, i, j)
  }

  ghost predicate BracketIs(xs: Items, named: set<char>, inverted: bool, s: string, i: nat, j: nat) {
    && BracketWritten(xs, inverted, s, i, j)
    && forall c: char :: c in named <==> Listed(xs, if inverted then s[i + 1] else '[', c)
  }

  /** The text from `i` to the end is written as the tokens. */
  ghost predicate Written(ts: Tokens, s: string, i: nat, noesc: bool)
    decreases |ts|
  {
    if |ts| == 0 then i == |s|
    else exists j: nat :: TokWritten(ts[0], s, i, j, noesc) && Written(ts[1..], s, j, noesc)
  }

  // ----- what is listed, item by item -----

  function After(x: Item, before: char): char { if x.Char? then x.c else before }

  lemma {:induction false} LastCharStep(x: Item, xs: Items, i: nat, before: char)
    requires i <= |xs|
    ensures LastChar([x] + xs, i + 1, before) == LastChar(xs, i, After(x, before))
    decreases i
  {
    if i > 0 { LastCharStep(x, xs, i - 1, before); }
  }

  lemma ListedStep(x: Item, xs: Items, before: char, c: char)
    ensures Listed([x] + xs, before, c) <==> Lists([x] + xs, 0, before, c) || Listed(xs, After(x, before), c)
  {
    hide LastChar, InClass;
    var ys := [x] + xs;
    forall i: nat | i < |xs| ensures Lists(ys, i + 1, before, c) <==> Lists(xs, i, After(x, before), c) {
      LastCharStep(x, xs, i, before);
    }
    if Listed(ys, before, c) {
      var i: nat :| i < |ys| && Lists(ys, i, before, c);
      if i > 0 { assert Lists(xs, i - 1, After(x, before), c); }
    }
    if Listed(xs, After(x, before), c) {
      var i: nat :| i < |xs| && Lists(xs, i, After(x, before), c);
      assert Lists(ys, i + 1, before, c);
    }
  }

  lemma NothingListed(before: char, c: char)
    ensures !Listed([], before, c)
  {
  }

  // ----- a list is read to its end -----

  lemma NameIs(kind: char, name: string, s: string, k: nat, j: nat)
    requires NameWritten(kind, name, s, k, j)
    ensures ClassAt(s, k, |s|) && ClassStop(s, k, |s|) == j - 1
  {
    var r := ClassEnd(s, k + 3, kind, |s|);
    assert !(r < j - 1) && !(j - 1 < r);
  }

  lemma BeginsIs(x: Item, s: string, k: nat, j: nat, first: bool)
    requires ItemWritten(x, s, k, j, first)
    ensures k < j <= |s| && s[k] == Begins(x)
  {
  }

  /** The items after the first one: the list closes at `e`, and the reading names what they list. */
  lemma {:induction false} ItemsComplete(xs: Items, s: string, k: nat, e: nat, before: char, c: char)
    requires ItemsWritten(xs, s, k, e, false) && e < |s| && s[e] == ']'
    ensures k <= e && CloseAt(s, k, |s|) == e && (Named(s, k, e, before, c) <==> Listed(xs, before, c))
    decreases |xs|
  {
    hide CloseAt, Named, Listed, ClassStop, InClass, Lists;
    CloseUnfold(s, k, |s|);
    if |xs| == 0 {
      NothingListed(before, c);
      NamedNone(s, e, before, c);
    } else {
      var x, rest := xs[0], xs[1..];
      var j: nat :| ItemWritten(x, s, k, j, false) && ItemsWritten(rest, s, j, e, false);
      assert xs == [x] + rest;
      ItemsComplete(rest, s, j, e, After(x, before), c);
      ListedStep(x, rest, before, c);
      OneItem(x, rest, s, k, j, e, before, c);
    }
  }

  /** One item, before a list that is read as it should be. */
  lemma OneItem(x: Item, rest: Items, s: string, k: nat, j: nat, e: nat, before: char, c: char)
    requires ItemWritten(x, s, k, j, false) && ItemsWritten(rest, s, j, e, false) && e < |s| && s[e] == ']'
    requires j <= e && CloseAt(s, j, |s|) == e
    ensures k < e && CloseAt(s, k, |s|) == e
    ensures Named(s, k, e, before, c) <==> Lists([x] + rest, 0, before, c) || Named(s, j, e, After(x, before), c)
  {
    hide CloseAt, Named, ClassStop, InClass, ItemsWritten;
    CloseUnfold(s, k, |s|);
    CloseUnfold(s, j, |s|);
    match x
    case Char(_) =>
      CloseStep(s, k, e);
      NamedUnfold(s, k, e, before, c);
    case Dash =>
      CloseStep(s, k, e);
      NamedUnfold(s, k, e, before, c);
      FirstBegins(rest, s, j, e);
    case Name(kind, name) =>
      NameIs(kind, name, s, k, j);
      CloseStep(s, k, e);
      NamedUnfold(s, k, e, before, c);
  }

  lemma FirstBegins(xs: Items, s: string, k: nat, e: nat)
    requires ItemsWritten(xs, s, k, e, false) && k != e
    ensures |xs| > 0 && k < |s| && Begins(xs[0]) == s[k]
  {
    hide ItemWritten;
    var j: nat :| ItemWritten(xs[0], s, k, j, false) && ItemsWritten(xs[1..], s, j, e, false);
    BeginsIs(xs[0], s, k, j, false);
  }

  /** A list that closes is a list of items. */
  lemma {:induction false} ItemsSound(s: string, k: nat, e: nat) returns (xs: Items)
    requires k <= e < |s| && CloseAt(s, k, |s|) == e
    ensures ItemsWritten(xs, s, k, e, false)
    decreases e - k
  {
    hide CloseAt, ClassStop, ItemWritten;
    CloseUnfold(s, k, |s|);
    if k == e {
      xs := [];
    } else {
      CloseStep(s, k, e);
      var x, j := ItemAt(s, k, false);
      var rest := ItemsSound(s, j, e);
      xs := [x] + rest;
      assert xs[1..] == rest;
    }
  }

  /** The item at `k`. */
  lemma ItemAt(s: string, k: nat, first: bool) returns (x: Item, j: nat)
    requires k + 1 < |s| && (s[k] == ']' ==> first) && (ClassAt(s, k, |s|) ==> ClassStop(s, k, |s|) < |s|)
    ensures ItemWritten(x, s, k, j, first) && j == if ClassAt(s, k, |s|) then ClassStop(s, k, |s|) + 1 else k + 1
    ensures first ==> !x.Dash?
  {
    if ClassAt(s, k, |s|) {
      j := ClassStop(s, k, |s|) + 1;
      x := Name(s[k + 1], s[k + 2..j - 2]);
    } else {
      j := k + 1;
      x := if s[k] == '-' && !first && s[k + 1] != ']' then Dash else Char(s[k]);
    }
  }

  // ----- the whole expression -----

  lemma FirstItem(xs: Items, s: string, k: nat, e: nat)
    requires |xs| > 0 && ItemsWritten(xs, s, k, e, true)
    ensures k < |s| && !xs[0].Dash?
    ensures s[k] != ']' && s[k] != '-' ==> ItemsWritten(xs, s, k, e, false)
    ensures s[k] == ']' || s[k] == '-' ==> xs[0] == Char(s[k]) && ItemsWritten(xs[1..], s, k + 1, e, false)
  {
    var j: nat :| ItemWritten(xs[0], s, k, j, true) && ItemsWritten(xs[1..], s, j, e, false);
    BeginsIs(xs[0], s, k, j, true);
    assert s[k] != ']' && s[k] != '-' ==> ItemWritten(xs[0], s, k, j, false);
  }

  lemma BracketComplete(xs: Items, inverted: bool, s: string, i: nat, j: nat, c: char)
    requires BracketWritten(xs, inverted, s, i, j)
    ensures BracketEnd(s, i, |s|) == j - 1 && Inverts(s[i + 1]) == inverted
    ensures InBracket(s, i, c) <==> Listed(xs, if inverted then s[i + 1] else '[', c)
  {
    hide CloseAt, Named, Listed, ItemsWritten;
    var k, e := if inverted then i + 2 else i + 1, j - 1;
    var before := if inverted then s[i + 1] else '[';
    FirstItem(xs, s, k, e);
    CloseUnfold(s, k, |s|);
    if s[k] == ']' || s[k] == '-' {
      ItemsComplete(xs[1..], s, k + 1, e, s[k], c);
      assert xs == [xs[0]] + xs[1..];
      ListedStep(xs[0], xs[1..], before, c);
    } else {
      ItemsComplete(xs, s, k, e, before, c);
    }
  }

  lemma BracketSound(s: string, i: nat) returns (xs: Items)
    requires i < |s| && s[i] == '[' && BracketEnd(s, i, |s|) < |s|
    ensures BracketWritten(xs, Inverts(s[i + 1]), s, i, BracketEnd(s, i, |s|) + 1)
  {
    hide CloseAt, ClassStop;
    var e := BracketEnd(s, i, |s|);
    var k := if Inverts(s[i + 1]) then i + 2 else i + 1;
    CloseUnfold(s, k, |s|);
    if s[k] == ']' {
      var rest := ItemsSound(s, k + 1, e);
      xs := [Char(']')] + rest;
      assert ItemWritten(Char(']'), s, k, k + 1, true);
      assert xs[1..] == rest;
    } else {
      CloseStep(s, k, e);
      var x, j := ItemAt(s, k, true);
      var rest := ItemsSound(s, j, e);
      xs := [x] + rest;
      assert xs[1..] == rest;
    }
  }

  lemma ClosedIs(s: string, i: nat)
    requires i < |s| && s[i] == '['
    ensures Closed(s, i) <==> BracketEnd(s, i, |s|) < |s|
  {
    hide BracketWritten, BracketEnd;
    if xs: Items, inverted: bool, j: nat :| BracketWritten(xs, inverted, s, i, j) {
      BracketComplete(xs, inverted, s, i, j, 'a');
      BracketInside(xs, inverted, s, i, j);
    }
    if BracketEnd(s, i, |s|) < |s| { var xs := BracketSound(s, i); }
  }

  lemma BracketInside(xs: Items, inverted: bool, s: string, i: nat, j: nat)
    requires BracketWritten(xs, inverted, s, i, j)
    ensures i + 2 < j <= |s| && s[i] == '['
  {
  }

  lemma BracketTok(t: Token, s: string, i: nat, j: nat)
    requires i < |s| && s[i] == '[' && BracketEnd(s, i, |s|) < |s| && t.Bracket?
    ensures t == Bracket(BracketSet(s, i), Inverts(s[i + 1])) && j == BracketEnd(s, i, |s|) + 1
       <==> exists xs: Items :: BracketIs(xs, t.named, t.inverted, s, i, j)
  {
    hide BracketWritten, BracketEnd, Listed, InBracket, Inverts;
    if t == Bracket(BracketSet(s, i), Inverts(s[i + 1])) && j == BracketEnd(s, i, |s|) + 1 {
      var xs := BracketSound(s, i);
      BracketNames(xs, t.inverted, s, i, j);
      assert BracketIs(xs, t.named, t.inverted, s, i, j);
    }
    if xs: Items :| BracketIs(xs, t.named, t.inverted, s, i, j) {
      BracketNames(xs, t.inverted, s, i, j);
      BracketComplete(xs, t.inverted, s, i, j, 'a');
      assert t.named == BracketSet(s, i);
    }
  }

  lemma BracketNames(xs: Items, inverted: bool, s: string, i: nat, j: nat)
    requires BracketWritten(xs, inverted, s, i, j)
    ensures i + 2 < j <= |s| && BracketEnd(s, i, |s|) == j - 1
    ensures forall c: char :: c in BracketSet(s, i) <==> Listed(xs, if inverted then s[i + 1] else '[', c)
  {
    hide Listed, BracketEnd, InBracket;
    BracketInside(xs, inverted, s, i, j);
    BracketComplete(xs, inverted, s, i, j, 'a');
    forall c: char ensures InBracket(s, i, c) <==> Listed(xs, if inverted then s[i + 1] else '[', c) {
      BracketComplete(xs, inverted, s, i, j, c);
    }
  }

  // ----- what is read is what was written -----

  lemma TokReads(t: Token, s: string, i: nat, j: nat, noesc: bool)
    requires i < |s|
    ensures i <= j && Tok(s, i, noesc) == (t, j - i) <==> TokWritten(t, s, i, j, noesc)
  {
    hide BracketEnd, BracketSet, BracketIs, Closed, Inverts;
    if s[i] == '[' {
      ClosedIs(s, i);
      if t.Bracket? {
        if BracketEnd(s, i, |s|) < |s| {
          BracketTok(t, s, i, j);
        } else {
          NotClosed(t, s, i, j);
        }
      }
    } else if t.Bracket? {
      NotClosed(t, s, i, j);
    }
  }

  lemma NotClosed(t: Token, s: string, i: nat, j: nat)
    requires i < |s| && t.Bracket? && (s[i] != '[' || !Closed(s, i))
    ensures !exists xs: Items :: BracketIs(xs, t.named, t.inverted, s, i, j)
  {
    hide BracketWritten;
    if xs: Items :| BracketIs(xs, t.named, t.inverted, s, i, j) { BracketInside(xs, t.inverted, s, i, j); }
  }

  /** The tokens of a pattern are read exactly as they are written, and no pattern is written as
      two lists of tokens. */
  lemma {:induction false} ToksReads(ts: Tokens, s: string, i: nat, noesc: bool)
    requires i <= |s|
    ensures Aligned(s, i, |s|, noesc) && (Toks(s, i, |s|, noesc) == ts <==> Written(ts, s, i, noesc))
    decreases |s| - i
  {
    hide Tok, TokWritten;
    AlignedEnd(s, i, noesc);
    if i < |s| {
      var (t, step) := Tok(s, i, noesc);
      ToksReads(if |ts| > 0 then ts[1..] else [], s, i + step, noesc);
      if |ts| > 0 {
        TokReads(ts[0], s, i, i + step, noesc);
        if Toks(s, i, |s|, noesc) == ts { assert ts[1..] == Toks(s, i + step, |s|, noesc); }
        if Written(ts, s, i, noesc) {
          var j: nat :| TokWritten(ts[0], s, i, j, noesc) && Written(ts[1..], s, j, noesc);
          TokReads(ts[0], s, i, j, noesc);
          assert ts == [ts[0]] + ts[1..];
        }
      }
    } else if |ts| > 0 {
      NothingWritten(ts, s, i, noesc);
    }
  }

  lemma NothingWritten(ts: Tokens, s: string, i: nat, noesc: bool)
    requires |ts| > 0 && i >= |s|
    ensures !Written(ts, s, i, noesc)
  {
  }
}
