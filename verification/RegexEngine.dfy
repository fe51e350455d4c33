/** regexec: the set-of-states matcher, over a compiled program. */
module RegexEngine {
  import opened RegexStrip
  import opened RegexLinks
  import opened RegexMust
  import opened RegexStates

  // ----- what the sets of states stand for -----

  ghost predicate MatchAt(strip: Strip, text: string, i: nat, j: nat) {
    i <= j <= |text| && Accepts(strip, text[i..j])
  }

  /** A state before anything is read. */
  ghost predicate Fresh(strip: Strip, q: nat) { Reaches(strip, 1, "", q) }

  /** A state at position `i` of a match that began somewhere before. */
  ghost predicate Live(strip: Strip, text: string, i: nat, q: nat) {
    i <= |text| && exists j: nat :: Begun(strip, text, j, i, q)
  }

  ghost predicate Begun(strip: Strip, text: string, j: nat, i: nat, q: nat) {
    j <= i <= |text| && Reaches(strip, 1, text[j..i], q)
  }

  /** A match ends at `e`. */
  ghost predicate EndsAt(strip: Strip, text: string, e: nat)
    requires |strip| >= 2
  {
    Live(strip, text, e, Last(strip))
  }

  /** No state at `p` but those of a fresh start. */
  ghost predicate Cold(strip: Strip, text: string, p: nat) {
    p <= |text| && forall q: nat :: Live(strip, text, p, q) ==> Fresh(strip, q)
  }

  lemma EndsMatch(strip: Strip, text: string, e: nat)
    requires |strip| >= 2
    ensures EndsAt(strip, text, e) <==> exists i: nat :: MatchAt(strip, text, i, e)
  {
    hide Reaches;
    if EndsAt(strip, text, e) {
      var j: nat :| Begun(strip, text, j, e, Last(strip));
      assert MatchAt(strip, text, j, e);
    }
    if i: nat :| MatchAt(strip, text, i, e) {
      assert Begun(strip, text, i, e, Last(strip));
    }
  }

  // ----- one character -----

  ghost predicate Crosses(strip: Strip, p: nat, w: string, c: char, s: nat, q: nat) {
    && s < |strip| && Reaches(strip, p, w, s) && Eats(strip[s], c) && Reaches(strip, s + 1, "", q)
  }

  lemma {:induction false} LastLetter(strip: Strip, p: nat, w: string, c: char, q: nat, n: nat) returns (s: nat)
    requires Runs(strip, p, w + [c], q, n)
    ensures Crosses(strip, p, w, c, s, q)
    decreases n
  {
    hide Reaches;
    var p1: nat, w1: string :| Moves(strip, p, w + [c], p1, w1) && Runs(strip, p1, w1, q, n - 1);
    if Free(strip, p, p1) && w1 == w + [c] {
      s := LastLetter(strip, p1, w, c, q, n - 1);
      ReachesFree(strip, p, p1);
      ReachesThen(strip, p, "", p1, w, s);
      assert "" + w == w;
    } else if |w| == 0 {
      s := p;
      assert w + [c] == [c] && w1 == "";
      ReachesSelf(strip, p);
      RunsReaches(strip, p1, w1, q, n - 1);
    } else {
      assert w1 == w[1..] + [c];
      s := LastLetter(strip, p1, w[1..], c, q, n - 1);
      ReachesEats(strip, p, w[0]);
      ReachesThen(strip, p, [w[0]], p1, w[1..], s);
      assert [w[0]] + w[1..] == w;
    }
  }

  lemma RunsReaches(strip: Strip, p: nat, w: string, q: nat, n: nat)
    requires Runs(strip, p, w, q, n)
    ensures Reaches(strip, p, w, q)
  {
  }

  /** Reading one character more. */
  lemma OneMore(strip: Strip, w: string, c: char, q: nat)
    ensures Reaches(strip, 1, w + [c], q) <==> exists s: nat :: Crosses(strip, 1, w, c, s, q)
  {
    if Reaches(strip, 1, w + [c], q) {
      var n: nat :| Runs(strip, 1, w + [c], q, n);
      var s := LastLetter(strip, 1, w, c, q, n);
    }
    if s: nat :| Crosses(strip, 1, w, c, s, q) {
      ReachesEats(strip, s, c);
      ReachesThen(strip, 1, w, s, [c], s + 1);
      ReachesThen(strip, 1, w + [c], s + 1, "", q);
      assert w + [c] + "" == w + [c];
    }
  }

  /** The set of states is what the text read so far leads to. */
  ghost predicate Tracks(strip: Strip, text: string, start: nat, i: nat, st: set<nat>) {
    start <= i <= |text| && forall q: nat :: q in st <==> Begun(strip, text, start, i, q)
  }

  lemma TracksNext(strip: Strip, text: string, start: nat, i: nat, st: set<nat>, r: set<nat>)
    requires i < |text| && Tracks(strip, text, start, i, st)
    requires forall q: nat :: q in r <==> Reached(strip, st, Letter(text[i]), {}, q)
    ensures Tracks(strip, text, start, i + 1, r)
  {
    forall q: nat ensures q in r <==> Begun(strip, text, start, i + 1, q) {
      SeedCrosses(strip, text, start, i, st, q);
    }
  }

  lemma SeedCrosses(strip: Strip, text: string, start: nat, i: nat, st: set<nat>, q: nat)
    requires i < |text| && Tracks(strip, text, start, i, st)
    ensures Reached(strip, st, Letter(text[i]), {}, q) <==> Begun(strip, text, start, i + 1, q)
  {
    hide Reaches;
    var c := text[i];
    assert text[start..i + 1] == text[start..i] + [c];
    OneMore(strip, text[start..i], c, q);
    if Reached(strip, st, Letter(c), {}, q) {
      var s: nat :| Seed(strip, st, Letter(c), {}, s) && Reaches(strip, s, "", q);
      assert Begun(strip, text, start, i, s - 1);
      assert Crosses(strip, 1, text[start..i], c, s - 1, q);
    }
    if Begun(strip, text, start, i + 1, q) {
      var s: nat :| Crosses(strip, 1, text[start..i], c, s, q);
      assert Begun(strip, text, start, i, s);
      assert Seed(strip, st, Letter(c), {}, s + 1);
    }
  }

  /** The sets of the fast scan: every start up to here at once. */
  ghost predicate TracksAll(strip: Strip, text: string, i: nat, st: set<nat>) {
    i <= |text| && forall q: nat :: q in st <==> Live(strip, text, i, q)
  }

  ghost predicate IsFresh(strip: Strip, init: set<nat>) { forall q: nat :: q in init <==> Fresh(strip, q) }

  lemma TracksAllNext(strip: Strip, text: string, i: nat, st: set<nat>, init: set<nat>, r: set<nat>)
    requires i < |text| && TracksAll(strip, text, i, st) && IsFresh(strip, init)
    requires forall q: nat :: q in r <==> Reached(strip, st, Letter(text[i]), init, q)
    ensures TracksAll(strip, text, i + 1, r)
  {
    hide Reached, Live, Fresh;
    forall q: nat ensures q in r <==> Live(strip, text, i + 1, q) {
      if q in r { LiveSound(strip, text, i, st, init, q); }
      if Live(strip, text, i + 1, q) { LiveComplete(strip, text, i, st, init, q); }
    }
  }

  lemma LiveSound(strip: Strip, text: string, i: nat, st: set<nat>, init: set<nat>, q: nat)
    requires i < |text| && TracksAll(strip, text, i, st) && IsFresh(strip, init)
    requires Reached(strip, st, Letter(text[i]), init, q)
    ensures Live(strip, text, i + 1, q)
  {
    hide Reaches;
    var c := text[i];
    var s: nat :| Seed(strip, st, Letter(c), init, s) && Reaches(strip, s, "", q);
    if s in init {
      ReachesThen(strip, 1, "", s, "", q);
      assert "" + "" == "" && text[i + 1..i + 1] == "";
      assert Begun(strip, text, i + 1, i + 1, q);
    } else {
      var j: nat :| Begun(strip, text, j, i, s - 1);
      assert Crosses(strip, 1, text[j..i], c, s - 1, q);
      OneMore(strip, text[j..i], c, q);
      assert text[j..i + 1] == text[j..i] + [c];
      assert Begun(strip, text, j, i + 1, q);
    }
  }

  lemma LiveComplete(strip: Strip, text: string, i: nat, st: set<nat>, init: set<nat>, q: nat)
    requires i < |text| && TracksAll(strip, text, i, st) && IsFresh(strip, init)
    requires Live(strip, text, i + 1, q)
    ensures Reached(strip, st, Letter(text[i]), init, q)
  {
    hide Reaches;
    var c := text[i];
    var j: nat :| Begun(strip, text, j, i + 1, q);
    if j == i + 1 {
      assert text[j..i + 1] == "";
      ReachesSelf(strip, 1);
      assert Seed(strip, st, Letter(c), init, 1);
    } else {
      assert text[j..i + 1] == text[j..i] + [c];
      OneMore(strip, text[j..i], c, q);
      var s: nat :| Crosses(strip, 1, text[j..i], c, s, q);
      assert Begun(strip, text, j, i, s);
      assert Seed(strip, st, Letter(c), init, s + 1);
    }
  }

  // ----- word boundaries -----

  predicate IsWord(c: char) { 'a' <= c <= 'z' || 'A' <= c <= 'Z' || '0' <= c <= '9' || c == '_' }

  /** Is there a word boundary between `lastc` and `c`? `Nothing` stands for OUT. */
  predicate Boundary(lastc: Input, c: Input, notbol: bool, noteol: bool) {
    var bol := lastc.Nothing? && !notbol;
    var eol := c.Nothing? && !noteol;
    || (((bol && !eol) || (lastc.Letter? && !IsWord(lastc.c))) && c.Letter? && IsWord(c.c))
    || (lastc.Letter? && IsWord(lastc.c) && ((eol && !bol) || (c.Letter? && !IsWord(c.c))))
  }

  ghost predicate Closed(strip: Strip, st: set<nat>) {
    forall p: nat, q: nat :: p in st && Reaches(strip, p, "", q) ==> q in st
  }

  /** Without anchors in the strip a step on a boundary changes nothing. */
  method AtBoundary(strip: Strip, st: set<nat>, lastc: Input, c: Input, notbol: bool, noteol: bool)
    returns (r: set<nat>)
    requires Finished(strip) && States(strip, st) && Closed(strip, st)
    ensures r == st
  {
    r := st;
    if Boundary(lastc, c, notbol, noteol) {
      GivenReached(strip, st, Nothing, st);
      hide Reaches;
      r := Step(strip, st, Nothing, st);
    }
  }

  lemma TracksClosed(strip: Strip, text: string, start: nat, i: nat, st: set<nat>)
    requires Tracks(strip, text, start, i, st)
    ensures Closed(strip, st)
  {
    hide Reaches;
    forall p: nat, q: nat | p in st && Reaches(strip, p, "", q) ensures q in st {
      assert Begun(strip, text, start, i, p);
      ReachesThen(strip, 1, text[start..i], p, "", q);
      assert text[start..i] + "" == text[start..i];
      assert Begun(strip, text, start, i, q);
    }
  }

  lemma TracksAllClosed(strip: Strip, text: string, i: nat, st: set<nat>)
    requires TracksAll(strip, text, i, st)
    ensures Closed(strip, st)
  {
    hide Reaches;
    forall p: nat, q: nat | p in st && Reaches(strip, p, "", q) ensures q in st {
      var j: nat :| Begun(strip, text, j, i, p);
      ReachesThen(strip, 1, text[j..i], p, "", q);
      assert text[j..i] + "" == text[j..i];
      assert Begun(strip, text, j, i, q);
    }
  }

  /** The states a match starts from. */
  method Start(strip: Strip) returns (st: set<nat>)
    requires Finished(strip)
    ensures States(strip, st) && IsFresh(strip, st)
  {
    hide Reaches;
    st := Step(strip, {1}, Nothing, {1});
    forall q: nat ensures q in st <==> Fresh(strip, q) {
      assert Seed(strip, {1}, Nothing, {1}, 1);
    }
  }

  lemma FreshTracks(strip: Strip, text: string, start: nat, st: set<nat>)
    requires IsFresh(strip, st) && start <= |text|
    ensures Tracks(strip, text, start, start, st)
    ensures start == 0 ==> TracksAll(strip, text, 0, st)
  {
    hide Reaches;
    assert text[start..start] == "";
    if start == 0 {
      forall q: nat ensures q in st <==> Live(strip, text, 0, q) {
        assert Begun(strip, text, 0, 0, q) <==> Fresh(strip, q);
      }
    }
  }

  lemma ColdIs(strip: Strip, text: string, p: nat, st: set<nat>, init: set<nat>)
    requires TracksAll(strip, text, p, st) && IsFresh(strip, init)
    ensures st == init <==> Cold(strip, text, p)
  {
    hide Reaches;
    assert text[p..p] == "";
    forall q: nat | q in init ensures q in st {
      assert Begun(strip, text, p, p, q);
    }
  }

  function CharAt(text: string, p: nat): Input { if p < |text| then Letter(text[p]) else Nothing }

  // ----- fast -----

  /** The first place where a match ends. */
  ghost predicate FirstEnd(strip: Strip, text: string, e: nat)
    requires |strip| >= 2
  {
    EndsAt(strip, text, e) && forall d: nat :: d < e ==> !EndsAt(strip, text, d)
  }

  /** The last cold place up to `e`, inclusive. */
  ghost predicate LastCold(strip: Strip, text: string, e: nat, c: nat) {
    c <= e && Cold(strip, text, c) && forall d: nat :: c < d <= e ==> !Cold(strip, text, d)
  }

  method Fast(strip: Strip, text: string, notbol: bool, noteol: bool)
    returns (found: bool, endp: nat, coldp: nat)
    requires Finished(strip)
    ensures found <==> exists e: nat :: EndsAt(strip, text, e)
    ensures found ==> 0 < endp && FirstEnd(strip, text, endp - 1) && LastCold(strip, text, endp - 1, coldp)
  {
    hide Linked, Live, Cold, Reached;
    var init := Start(strip);
    var st := init;
    var p, c := 0, Nothing;
    FreshTracks(strip, text, 0, st);
    coldp := 0;
    while true
      invariant p <= |text| && States(strip, st) && TracksAll(strip, text, p, st)
      invariant forall d: nat :: d < p ==> !EndsAt(strip, text, d)
      invariant p > 0 ==> coldp < p && Cold(strip, text, coldp)
      invariant forall d: nat :: coldp < d < p ==> !Cold(strip, text, d)
      invariant p == 0 ==> coldp == 0 && st == init
      decreases |text| - p
    {
      var lastc := c;
      c := CharAt(text, p);
      ColdIs(strip, text, p, st, init);
      if st == init { coldp := p; }
      TracksAllClosed(strip, text, p, st);
      st := AtBoundary(strip, st, lastc, c, notbol, noteol);
      if Last(strip) in st || p == |text| {
        break;
      }
      var tmp := st;
      st := Step(strip, tmp, c, init);
      TracksAllNext(strip, text, p, tmp, init, st);
      p := p + 1;
    }
    found, endp := Last(strip) in st, p + 1;
    assert found <==> EndsAt(strip, text, p);
    if !found { NoEnd(strip, text); }
  }

  lemma NoEnd(strip: Strip, text: string)
    requires |strip| >= 2 && forall d: nat :: d <= |text| ==> !EndsAt(strip, text, d)
    ensures !exists e: nat :: EndsAt(strip, text, e)
  {
  }

  // ----- slow -----

  /** Nothing comes after a dead end. */
  lemma {:induction false} DeadStays(strip: Strip, text: string, start: nat, i: nat, j: nat, q: nat) returns (s: nat)
    requires start <= i <= j <= |text| && Begun(strip, text, start, j, q)
    ensures Begun(strip, text, start, i, s)
    decreases j - i
  {
    hide Reaches;
    if i == j {
      s := q;
    } else {
      assert text[start..j] == text[start..j - 1] + [text[j - 1]];
      OneMore(strip, text[start..j - 1], text[j - 1], q);
      var t: nat :| Crosses(strip, 1, text[start..j - 1], text[j - 1], t, q);
      s := DeadStays(strip, text, start, i, j - 1, t);
    }
  }

  /** The longest match from `start`; `None` if there is none. */
  datatype End = None | Some(at: nat)

  ghost predicate Longest(strip: Strip, text: string, start: nat, limit: nat, m: End) {
    match m
    case None => forall e: nat :: e < limit ==> !MatchAt(strip, text, start, e)
    case Some(at) => MatchAt(strip, text, start, at) && forall e: nat :: at < e < limit ==> !MatchAt(strip, text, start, e)
  }

  method Slow(strip: Strip, text: string, start: nat, notbol: bool, noteol: bool) returns (matchp: End)
    requires Finished(strip) && start <= |text|
    ensures Longest(strip, text, start, |text| + 1, matchp)
  {
    hide Linked, Reaches, Reached;
    var st := Start(strip);
    FreshTracks(strip, text, start, st);
    var p, c := start, if start == 0 then Nothing else Letter(text[start - 1]);
    matchp := None;
    assert Longest(strip, text, start, start, None);
    while true
      invariant start <= p <= |text| && States(strip, st) && Tracks(strip, text, start, p, st)
      invariant Longest(strip, text, start, p, matchp)
      decreases |text| - p
    {
      var lastc := c;
      c := CharAt(text, p);
      TracksClosed(strip, text, start, p, st);
      st := AtBoundary(strip, st, lastc, c, notbol, noteol);
      assert Begun(strip, text, start, p, Last(strip)) <==> MatchAt(strip, text, start, p);
      if Last(strip) in st { matchp := Some(p); }
      if st == {} {
        Dead(strip, text, start, p);
        return;
      }
      if p == |text| { return; }
      var tmp := st;
      st := Step(strip, tmp, c, {});
      TracksNext(strip, text, start, p, tmp, st);
      p := p + 1;
    }
  }

  lemma Dead(strip: Strip, text: string, start: nat, p: nat)
    requires |strip| >= 2 && start <= p <= |text| && forall q: nat :: !Begun(strip, text, start, p, q)
    ensures forall e: nat :: p <= e ==> !MatchAt(strip, text, start, e)
  {
    hide Reaches;
    forall e: nat | p <= e ensures !MatchAt(strip, text, start, e) {
      if MatchAt(strip, text, start, e) {
        var s := DeadStays(strip, text, start, p, e, Last(strip));
      }
    }
  }

  // ----- where the match is -----

  /** A match that runs past a cold place can begin there. */
  lemma ColdRestart(strip: Strip, text: string, c: nat, i: nat, e: nat)
    requires |strip| >= 2 && Cold(strip, text, c) && i <= c <= e && MatchAt(strip, text, i, e)
    ensures MatchAt(strip, text, c, e)
  {
    hide Reaches;
    assert text[i..e] == text[i..c] + text[c..e];
    var q := Midway(strip, 1, text[i..c], text[c..e], Last(strip));
    assert Begun(strip, text, i, c, q);
    assert Live(strip, text, c, q);
    ReachesThen(strip, 1, "", q, text[c..e], Last(strip));
    assert "" + text[c..e] == text[c..e];
  }

  lemma Midway(strip: Strip, p: nat, u: string, v: string, r: nat) returns (q: nat)
    requires Reaches(strip, p, u + v, r)
    ensures Reaches(strip, p, u, q) && Reaches(strip, q, v, r)
  {
    var n: nat :| Runs(strip, p, u + v, r, n);
    q := MidwayRuns(strip, p, u, v, r, n);
  }

  lemma {:induction false} MidwayRuns(strip: Strip, p: nat, u: string, v: string, r: nat, n: nat) returns (q: nat)
    requires Runs(strip, p, u + v, r, n)
    ensures Reaches(strip, p, u, q) && Reaches(strip, q, v, r)
    decreases n
  {
    if |u| == 0 {
      assert u + v == v;
      q := p;
      ReachesSelf(strip, p);
    } else {
      var p1: nat, w: string :| Moves(strip, p, u + v, p1, w) && Runs(strip, p1, w, r, n - 1);
      if Free(strip, p, p1) && w == u + v {
        q := MidwayRuns(strip, p1, u, v, r, n - 1);
        ReachesFree(strip, p, p1);
        ReachesThen(strip, p, "", p1, u, q);
        assert "" + u == u;
      } else {
        assert w == u[1..] + v;
        q := MidwayRuns(strip, p1, u[1..], v, r, n - 1);
        ReachesEats(strip, p, u[0]);
        ReachesThen(strip, p, [u[0]], p1, u[1..], q);
        assert [u[0]] + u[1..] == u;
      }
    }
  }

  /** The place regexec reports: the first start of a match from the last cold place before
      the first end on. */
  ghost predicate Reports(strip: Strip, text: string, c: nat, e: nat, so: nat)
    requires |strip| >= 2
  {
    && FirstEnd(strip, text, e) && LastCold(strip, text, e, c)
    && c <= so && StartsAt(strip, text, so) && forall i: nat :: c <= i < so ==> !StartsAt(strip, text, i)
  }

  ghost predicate StartsAt(strip: Strip, text: string, i: nat) { exists j: nat :: MatchAt(strip, text, i, j) }

  ghost predicate Leftmost(strip: Strip, text: string, so: nat) {
    StartsAt(strip, text, so) && forall i: nat :: i < so ==> !StartsAt(strip, text, i)
  }

  /** What a program must be for the matcher to rely on it. */
  ghost predicate Usable(strip: Strip, must: string) {
    Finished(strip) && forall w: string :: Accepts(strip, w) ==> Holds(w, must)
  }

  datatype Result = NoMatch | Found | At(so: nat, eo: nat)

  /** The prescreen: does the text hold the literal? */
  method Prescreen(text: string, must: string) returns (found: bool)
    requires |must| > 0
    ensures found <==> Holds(text, must)
  {
    var dp := 0;
    while dp < |text|
      invariant dp <= |text| && forall i: nat :: i < dp ==> !OccursAt(text, must, i)
    {
      if text[dp] == must[0] && |text| - dp >= |must| && text[dp..dp + |must|] == must {
        assert OccursAt(text, must, dp);
        return true;
      }
      dp := dp + 1;
    }
    found := false;
  }

  lemma MatchHolds(strip: Strip, must: string, text: string, i: nat, j: nat)
    requires Usable(strip, must) && MatchAt(strip, text, i, j)
    ensures Holds(text, must)
  {
    hide Accepts;
    assert Holds(text[i..j], must);
    var k: nat :| OccursAt(text[i..j], must, k);
    forall x | 0 <= x < |must| ensures must[x] == text[i + k..i + k + |must|][x] {
      assert must[x] == text[i..j][k..k + |must|][x] == text[i..j][k + x];
    }
    assert OccursAt(text, must, i + k);
  }

  /** matcher(), for a program without back references: whether there is a match, and with
      `where` the span of the whole match. */
  method Matcher(strip: Strip, must: string, text: string, where: bool, notbol: bool, noteol: bool) returns (r: Result)
    requires Usable(strip, must)
    ensures r.NoMatch? <==> !exists i: nat, j: nat :: MatchAt(strip, text, i, j)
    ensures r.At? ==> where && Longest(strip, text, r.so, |text| + 1, Some(r.eo))
    ensures r.At? ==> exists c: nat, e: nat :: Reports(strip, text, c, e, r.so)
    ensures r.Found? ==> !where
  {
    hide Linked, Accepts, Live, Cold;
    if |must| > 0 {
      var held := Prescreen(text, must);
      if !held {
        forall i: nat, j: nat | MatchAt(strip, text, i, j) ensures false { MatchHolds(strip, must, text, i, j); }
        return NoMatch;
      }
    }
    var found, endp, coldp := Fast(strip, text, notbol, noteol);
    EndsAnyMatch(strip, text);
    if !found { return NoMatch; }
    if !where { return Found; }
    ghost var e, c := endp - 1, coldp;
    ghost var first := StartFrom(strip, text, c, e);
    var m := Slow(strip, text, coldp, notbol, noteol);
    while m.None?
      invariant c <= coldp <= first && coldp <= |text| && Longest(strip, text, coldp, |text| + 1, m)
      invariant forall i: nat :: c <= i < coldp ==> !StartsAt(strip, text, i)
      decreases first - coldp
    {
      coldp := coldp + 1;
      m := Slow(strip, text, coldp, notbol, noteol);
    }
    assert Reports(strip, text, c, e, coldp);
    r := At(coldp, m.at);
  }

  lemma EndsAnyMatch(strip: Strip, text: string)
    requires |strip| >= 2
    ensures (exists e: nat :: EndsAt(strip, text, e)) <==> exists i: nat, j: nat :: MatchAt(strip, text, i, j)
  {
    hide Live, Accepts;
    if e: nat :| EndsAt(strip, text, e) { EndsMatch(strip, text, e); }
    if i: nat, j: nat :| MatchAt(strip, text, i, j) { EndsMatch(strip, text, j); }
  }

  /** There is a start for the search to find. */
  lemma StartFrom(strip: Strip, text: string, c: nat, e: nat) returns (i: nat)
    requires |strip| >= 2 && FirstEnd(strip, text, e) && LastCold(strip, text, e, c)
    ensures c <= i <= |text| && StartsAt(strip, text, i)
  {
    hide Accepts, Live, Cold;
    EndsMatch(strip, text, e);
    var s: nat :| MatchAt(strip, text, s, e);
    if s < c {
      ColdRestart(strip, text, c, s, e);
      i := c;
    } else {
      i := s;
    }
  }
}
