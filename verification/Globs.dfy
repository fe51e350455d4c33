/** Shell patterns as lists of tokens, and the strings they match. */
module Globs {
  /** A bracket token is the set of characters it names, and whether it stands for the others. */
  datatype Token = Lit(c: char) | Any | Star | Bracket(named: set<char>, inverted: bool)

  type Tokens = seq<Token>

  /** casefold(): the other case of a letter, on characters below 128. */
  function Fold(c: char): char {
    if 'a' <= c <= 'z' then c - 'a' + 'A' else if 'A' <= c <= 'Z' then c - 'A' + 'a' else c
  }

  /** The character as given, and as the flag lets it be seen. */
  function Seen(c: char, fold: bool): char { if fold then Fold(c) else c }

  // ----- bracket expressions -----

  /** The `]` that ends the class at hand: the first one at `j` or later with `z` before it. */
  function ClassEnd(s: string, j: nat, z: char, e: nat): (r: nat)
    requires e <= |s| && 0 < j <= e
    ensures j <= r <= e
    ensures r < e ==> s[r - 1] == z && s[r] == ']'
    ensures forall i :: j <= i < r ==> s[i - 1] != z || s[i] != ']'
    decreases e - j
  {
    if j == e || (s[j - 1] == z && s[j] == ']') then j else ClassEnd(s, j + 1, z, e)
  }

  predicate ClassAt(s: string, k: nat, e: nat)
    requires e <= |s|
  {
    k + 1 < e && s[k] == '[' && (s[k + 1] == ':' || s[k + 1] == '.' || s[k + 1] == '=')
  }

  /** The last position of the class that begins at `k`; `e` if it does not end. */
  function ClassStop(s: string, k: nat, e: nat): (r: nat)
    requires e <= |s| && ClassAt(s, k, e)
    ensures k + 2 <= r <= e && (r < e ==> k + 3 <= r)
  {
    if k + 2 == e then e else ClassEnd(s, k + 3, s[k + 1], e)
  }

  /** The first `]` from `k` on that is not inside a class; `e` if there is none. */
  function CloseAt(s: string, k: nat, e: nat): (r: nat)
    requires k <= e <= |s|
    ensures k <= r <= e && (r < e ==> s[r] == ']')
    decreases e - k
  {
    if k == e || s[k] == ']' then k
    else if ClassAt(s, k, e) then
      var j := ClassStop(s, k, e);
      if j == e then e else CloseAt(s, j + 1, e)
    else CloseAt(s, k + 1, e)
  }

  predicate Inverts(c: char) { c == '^' || c == '!' }

  /** Where the members of the bracket at `i` begin, and from where a `]` closes it. */
  function BodyAt(s: string, i: nat, e: nat): (k: nat)
    requires i < e <= |s|
    ensures i < k <= e && k <= i + 3
  {
    var k := if i + 1 < e && Inverts(s[i + 1]) then i + 2 else i + 1;
    if k < e && s[k] == ']' then k + 1 else k
  }

  /** The closing `]` of the bracket at `i`; `e` if there is none. */
  function BracketEnd(s: string, i: nat, e: nat): (r: nat)
    requires i < e <= |s|
    ensures i < r <= e && (r < e ==> s[r] == ']' && BodyAt(s, i, e) <= r)
  {
    CloseAt(s, BodyAt(s, i, e), e)
  }

  /** The character classes of the C locale. */
  predicate InClass(name: string, c: char) {
    var upper := 'A' <= c <= 'Z';
    var lower := 'a' <= c <= 'z';
    var digit := '0' <= c <= '9';
    var blank := c == ' ' || c == '\t';
    var space := c == ' ' || 9 as char <= c <= 13 as char;
    var graph := '!' <= c <= '~';
    match name
    case "upper" => upper
    case "lower" => lower
    case "alpha" => upper || lower
    case "digit" => digit
    case "xdigit" => digit || 'a' <= c <= 'f' || 'A' <= c <= 'F'
    case "alnum" => upper || lower || digit
    case "blank" => blank
    case "space" => space
    case "cntrl" => c < ' ' || c == 127 as char
    case "graph" => graph
    case "print" => graph || c == ' '
    case "punct" => graph && !upper && !lower && !digit
    case _ => false
  }

  /** The classes of POSIX as ranges of character codes. */
  predicate HasCode(name: string, n: int) {
    if name == "upper" then 65 <= n <= 90
    else if name == "lower" then 97 <= n <= 122
    else if name == "alpha" then 65 <= n <= 90 || 97 <= n <= 122
    else if name == "digit" then 48 <= n <= 57
    else if name == "xdigit" then 48 <= n <= 57 || 65 <= n <= 70 || 97 <= n <= 102
    else if name == "alnum" then 48 <= n <= 57 || 65 <= n <= 90 || 97 <= n <= 122
    else if name == "blank" then n == 9 || n == 32
    else if name == "space" then 9 <= n <= 13 || n == 32
    else if name == "cntrl" then n <= 31 || n == 127
    else if name == "graph" then 33 <= n <= 126
    else if name == "print" then 32 <= n <= 126
    else name == "punct" && (33 <= n <= 47 || 58 <= n <= 64 || 91 <= n <= 96 || 123 <= n <= 126)
  }

  lemma ClassCodes(name: string, c: char)
    ensures InClass(name, c) <==> HasCode(name, c as int)
  {
  }

  /** Letters fold to the other case, 32 codes away, and nothing else folds. */
  lemma FoldCodes(c: char)
    ensures 65 <= c as int <= 90 ==> Fold(c) as int == c as int + 32
    ensures 97 <= c as int <= 122 ==> Fold(c) as int == c as int - 32
    ensures !(65 <= c as int <= 90) && !(97 <= c as int <= 122) ==> Fold(c) == c
  {
  }

  /** Is `c` named by the members from `k` to the closing `]` at `e`? `wc` is the last single
      character before `k`: the start of a range that a `-` at `k` makes. */
  predicate Named(s: string, k: nat, e: nat, wc: char, c: char)
    requires k <= e < |s|
    decreases e - k
  {
    if k == e then false
    else if s[k] == '-' && k + 1 < e then (wc <= c <= s[k + 1]) || Named(s, k + 1, e, wc, c)
    else if ClassAt(s, k, e) && ClassStop(s, k, e) < e then
      var j := ClassStop(s, k, e);
      (s[k + 1] == ':' && j - k - 3 < 16 && InClass(s[k + 2..j - 1], c)) || Named(s, j + 1, e, wc, c)
    else c == s[k] || Named(s, k + 1, e, s[k], c)
  }

  /** The characters of the bracket token that begins at `i`, before any inversion. A first
      `]` or `-` stands for itself. */
  predicate InBracket(s: string, i: nat, c: char)
    requires i < |s| && BracketEnd(s, i, |s|) < |s|
  {
    var e := BracketEnd(s, i, |s|);
    var k := if Inverts(s[i + 1]) then i + 2 else i + 1;
    if s[k] == ']' then c == ']' || Named(s, k + 1, e, ']', c)
    else if s[k] == '-' then c == '-' || Named(s, k + 1, e, '-', c)
    else Named(s, k, e, s[k - 1], c)
  }

  function BracketSet(s: string, i: nat): set<char>
    requires i < |s| && BracketEnd(s, i, |s|) < |s|
  {
    set c: char | InBracket(s, i, c)
  }

  /** Does the token stand for the character? */
  predicate Fits(t: Token, c: char, fold: bool) {
    match t
    case Lit(d) => c == d || Seen(c, fold) == d
    case Any => true
    case Star => false
    case Bracket(named, inverted) => (c in named || Seen(c, fold) in named) != inverted
  }

  // ----- what a pattern matches -----

  /** A star stands for any string, every other token for one character. */
  ghost predicate Match(ts: Tokens, s: string, fold: bool)
    decreases |ts|
  {
    if |ts| == 0 then s == ""
    else if ts[0].Star? then exists i: nat :: i <= |s| && Match(ts[1..], s[i..], fold)
    else s != "" && Fits(ts[0], s[0], fold) && Match(ts[1..], s[1..], fold)
  }

  lemma MatchNone(s: string, fold: bool)
    ensures Match([], s, fold) <==> s == ""
  {
  }

  lemma MatchStar(ts: Tokens, s: string, fold: bool)
    ensures Match([Star] + ts, s, fold) <==> exists i: nat :: i <= |s| && Match(ts, s[i..], fold)
  {
    assert ([Star] + ts)[1..] == ts;
  }

  lemma MatchOne(t: Token, ts: Tokens, s: string, fold: bool)
    requires !t.Star?
    ensures Match([t] + ts, s, fold) <==> s != "" && Fits(t, s[0], fold) && Match(ts, s[1..], fold)
  {
    assert ([t] + ts)[1..] == ts;
  }

  /** Token for token. */
  predicate FitsAll(ts: Tokens, s: string, fold: bool) {
    |ts| == |s| && forall i :: 0 <= i < |ts| ==> Fits(ts[i], s[i], fold)
  }

  predicate StarFree(ts: Tokens) { Star !in ts }

  lemma {:induction false} StarFreeMatch(ts: Tokens, s: string, fold: bool)
    requires StarFree(ts)
    ensures Match(ts, s, fold) <==> FitsAll(ts, s, fold)
  {
    hide Match, Fits;
    if |ts| == 0 {
      MatchNone(s, fold);
    } else {
      var rest := ts[1..];
      assert ts == [ts[0]] + rest;
      MatchOne(ts[0], rest, s, fold);
      if s != "" {
        StarFreeMatch(rest, s[1..], fold);
        assert FitsAll(ts, s, fold) <==> Fits(ts[0], s[0], fold) && FitsAll(rest, s[1..], fold) by {
          assert s == [s[0]] + s[1..];
        }
      }
    }
  }

  /** A pattern in two parts. */
  ghost predicate SplitsAt(a: Tokens, b: Tokens, s: string, i: nat, fold: bool) {
    i <= |s| && Match(a, s[..i], fold) && Match(b, s[i..], fold)
  }

  lemma Slices(s: string, k: nat, i: nat)
    requires k <= i <= |s|
    ensures s[..i][k..] == s[k..][..i - k] && s[k..][i - k..] == s[i..]
  {
  }

  lemma {:induction false} MatchJoin(a: Tokens, b: Tokens, s: string, i: nat, fold: bool)
    requires SplitsAt(a, b, s, i, fold)
    ensures Match(a + b, s, fold)
    decreases |a|
  {
    hide Match, Fits;
    if |a| == 0 {
      MatchNone(s[..i], fold);
      assert a + b == b && s[i..] == s;
    } else {
      var t, a' := a[0], a[1..];
      assert a == [t] + a' && a + b == [t] + (a' + b);
      if t.Star? {
        MatchStar(a', s[..i], fold);
        var k: nat :| k <= i && Match(a', s[..i][k..], fold);
        Slices(s, k, i);
        MatchJoin(a', b, s[k..], i - k, fold);
        MatchStar(a' + b, s, fold);
      } else {
        MatchOne(t, a', s[..i], fold);
        Slices(s, 1, i);
        MatchJoin(a', b, s[1..], i - 1, fold);
        MatchOne(t, a' + b, s, fold);
      }
    }
  }

  lemma {:induction false} MatchSplit(a: Tokens, b: Tokens, s: string, fold: bool) returns (i: nat)
    requires Match(a + b, s, fold)
    ensures SplitsAt(a, b, s, i, fold)
    decreases |a|
  {
    hide Match, Fits;
    if |a| == 0 {
      assert a + b == b && s[0..] == s;
      i := 0;
      MatchNone(s[..0], fold);
    } else {
      var t, a' := a[0], a[1..];
      assert a == [t] + a' && a + b == [t] + (a' + b);
      if t.Star? {
        MatchStar(a' + b, s, fold);
        var k: nat :| k <= |s| && Match(a' + b, s[k..], fold);
        var j := MatchSplit(a', b, s[k..], fold);
        i := k + j;
        Slices(s, k, i);
        MatchStar(a', s[..i], fold);
      } else {
        MatchOne(t, a' + b, s, fold);
        var j := MatchSplit(a', b, s[1..], fold);
        i := j + 1;
        Slices(s, 1, i);
        MatchOne(t, a', s[..i], fold);
      }
    }
  }

  // ----- stars -----

  /** What follows a star matches any text it matches the end of. */
  lemma StarMore(ts: Tokens, s: string, i: nat, fold: bool)
    requires i <= |s| && Match([Star] + ts, s[i..], fold)
    ensures Match([Star] + ts, s, fold)
  {
    hide Match;
    MatchStar(ts, s[i..], fold);
    var k: nat :| k <= |s[i..]| && Match(ts, s[i..][k..], fold);
    assert s[i..][k..] == s[i + k..];
    MatchStar(ts, s, fold);
  }

  lemma StarAlone(s: string, fold: bool)
    ensures Match([Star], s, fold)
  {
    assert [Star] + [] == [Star] && s[|s|..] == "";
    MatchStar([], s, fold);
    MatchNone("", fold);
  }

  /** The part after the last star is matched at the end of the text. */
  lemma TailMatch(a: Tokens, tail: Tokens, s: string, fold: bool)
    requires StarFree(tail)
    ensures Match(a + tail, s, fold) <==>
      |tail| <= |s| && FitsAll(tail, s[|s| - |tail|..], fold) && Match(a, s[..|s| - |tail|], fold)
  {
    hide Match, Fits;
    if Match(a + tail, s, fold) {
      var i := MatchSplit(a, tail, s, fold);
      StarFreeMatch(tail, s[i..], fold);
    }
    if |tail| <= |s| && FitsAll(tail, s[|s| - |tail|..], fold) && Match(a, s[..|s| - |tail|], fold) {
      StarFreeMatch(tail, s[|s| - |tail|..], fold);
      MatchJoin(a, tail, s, |s| - |tail|, fold);
    }
  }

  /** The first component fits here: going on behind it loses no match. */
  lemma ComponentFits(comp: Tokens, rest: Tokens, s: string, fold: bool)
    requires StarFree(comp) && |comp| <= |s| && FitsAll(comp, s[..|comp|], fold)
    ensures Match([Star] + (comp + ([Star] + rest)), s, fold) <==> Match([Star] + rest, s[|comp|..], fold)
  {
    hide Match, Fits;
    var p, q := comp + ([Star] + rest), [Star] + rest;
    MatchStar(p, s, fold);
    if Match([Star] + p, s, fold) {
      var i: nat :| i <= |s| && Match(p, s[i..], fold);
      var j := MatchSplit(comp, q, s[i..], fold);
      StarFreeMatch(comp, s[i..][..j], fold);
      assert s[i..][j..] == s[|comp|..][i..];
      StarMore(rest, s[|comp|..], i, fold);
    }
    if Match(q, s[|comp|..], fold) {
      StarFreeMatch(comp, s[..|comp|], fold);
      MatchJoin(comp, q, s, |comp|, fold);
      assert s[0..] == s;
    }
  }

  /** It does not fit here: it can only fit further on. */
  lemma ComponentFails(comp: Tokens, rest: Tokens, s: string, fold: bool)
    requires StarFree(comp) && |s| > 0 && !(|comp| <= |s| && FitsAll(comp, s[..|comp|], fold))
    ensures Match([Star] + (comp + ([Star] + rest)), s, fold)
       <==> Match([Star] + (comp + ([Star] + rest)), s[1..], fold)
  {
    hide Match, Fits;
    var p, q := comp + ([Star] + rest), [Star] + rest;
    if Match([Star] + p, s, fold) {
      MatchStar(p, s, fold);
      var i: nat :| i <= |s| && Match(p, s[i..], fold);
      if i == 0 {
        assert s[0..] == s;
        var j := MatchSplit(comp, q, s, fold);
        StarFreeMatch(comp, s[..j], fold);
        assert false;
      }
      assert s[1..][i - 1..] == s[i..];
      MatchStar(p, s[1..], fold);
    }
    if Match([Star] + p, s[1..], fold) { StarMore(p, s, 1, fold); }
  }

  /** Too short for the component. */
  lemma ComponentTooLong(comp: Tokens, rest: Tokens, s: string, fold: bool)
    requires StarFree(comp) && |s| < |comp|
    ensures !Match([Star] + (comp + rest), s, fold)
  {
    hide Match, Fits;
    if Match([Star] + (comp + rest), s, fold) {
      MatchStar(comp + rest, s, fold);
      var i: nat :| i <= |s| && Match(comp + rest, s[i..], fold);
      var j := MatchSplit(comp, rest, s[i..], fold);
      StarFreeMatch(comp, s[i..][..j], fold);
    }
  }
}
