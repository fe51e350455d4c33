/** When the span that regexec reports is the leftmost one. */
module RegexLeftmost {
  import opened RegexStrip
  import opened RegexStates
  import opened RegexEngine

  /** Every report, on every text, starts where the leftmost match does. */
  ghost predicate AlwaysLeftmost(strip: Strip)
    requires |strip| >= 2
  {
    forall text: string, c: nat, e: nat, so: nat :: Reports(strip, text, c, e, so) ==> Leftmost(strip, text, so)
  }

  /** After `u` a match that began at `i` is underway in state `q`, and `v` completes it; but
      nothing has ended yet and the states are only those of a fresh start, so the matcher
      takes it that no match is underway. */
  ghost predicate Mistaken(strip: Strip, u: string, i: nat, q: nat, v: string)
    requires |strip| >= 2
  {
    && i < |u| && Cold(strip, u, |u|) && NoneEnds(strip, u)
    && Begun(strip, u, i, |u|, q) && Reaches(strip, q, v, Last(strip))
  }

  ghost predicate NoneEnds(strip: Strip, u: string)
    requires |strip| >= 2
  {
    forall d: nat :: d <= |u| ==> !EndsAt(strip, u, d)
  }

  ghost predicate Confusable(strip: Strip)
    requires |strip| >= 2
  {
    exists u: string, i: nat, q: nat, v: string :: Mistaken(strip, u, i, q, v)
  }

  // ----- a state at a position depends on the text before it only -----

  lemma BegunPrefix(strip: Strip, text: string, k: nat, j: nat, p: nat, q: nat)
    requires p <= k <= |text|
    ensures Begun(strip, text[..k], j, p, q) <==> Begun(strip, text, j, p, q)
  {
    hide Reaches;
    if j <= p { assert text[..k][j..p] == text[j..p]; }
  }

  lemma LivePrefix(strip: Strip, text: string, k: nat, p: nat, q: nat)
    requires p <= k <= |text|
    ensures Live(strip, text[..k], p, q) <==> Live(strip, text, p, q)
  {
    hide Begun;
    forall j: nat ensures Begun(strip, text[..k], j, p, q) <==> Begun(strip, text, j, p, q) {
      BegunPrefix(strip, text, k, j, p, q);
    }
  }

  lemma ColdPrefix(strip: Strip, text: string, k: nat, p: nat)
    requires p <= k <= |text|
    ensures Cold(strip, text[..k], p) <==> Cold(strip, text, p)
  {
    hide Live, Fresh;
    forall q: nat ensures Live(strip, text[..k], p, q) <==> Live(strip, text, p, q) {
      LivePrefix(strip, text, k, p, q);
    }
  }

  // ----- a report that is not leftmost is a mistake -----

  /** A report is leftmost if no match begins before the last cold place. */
  lemma FromCold(strip: Strip, text: string, c: nat, e: nat, so: nat)
    requires |strip| >= 2 && Reports(strip, text, c, e, so)
    ensures Leftmost(strip, text, so) <==> forall i: nat :: i < c ==> !StartsAt(strip, text, i)
  {
    hide Accepts, Live, Cold;
    if i: nat :| i < c && StartsAt(strip, text, i) {
      assert i < so;
    }
  }

  /** A match at a cold place is an empty one, which there is at the start already. */
  lemma ColdBeforeEnd(strip: Strip, text: string, c: nat, e: nat)
    requires |strip| >= 2 && FirstEnd(strip, text, e) && LastCold(strip, text, e, c)
    ensures c <= |text| && (c < e || e == 0)
  {
    hide Reaches;
    if c == e {
      assert Live(strip, text, c, Last(strip));
      assert text[0..0] == "";
      assert Begun(strip, text, 0, 0, Last(strip));
      assert EndsAt(strip, text, 0);
    }
  }

  lemma MistakeFrom(strip: Strip, text: string, c: nat, e: nat, i: nat)
    requires |strip| >= 2 && FirstEnd(strip, text, e) && LastCold(strip, text, e, c) && i < c && StartsAt(strip, text, i)
    ensures Confusable(strip)
  {
    hide Reaches, Cold, Live;
    ColdBeforeEnd(strip, text, c, e);
    var u := text[..c];
    ColdPrefix(strip, text, c, c);
    forall d: nat | d <= c ensures !EndsAt(strip, u, d) {
      assert !EndsAt(strip, text, d);
      LivePrefix(strip, text, c, d, Last(strip));
    }
    var j: nat :| MatchAt(strip, text, i, j);
    EndsMatch(strip, text, j);
    assert text[i..j] == text[i..c] + text[c..j];
    var q := Midway(strip, 1, text[i..c], text[c..j], Last(strip));
    BegunPrefix(strip, text, c, i, c, q);
    assert Mistaken(strip, u, i, q, text[c..j]);
  }

  // ----- and a mistake makes a report that is not leftmost -----

  lemma {:induction false} FirstEndFrom(strip: Strip, text: string, k: nat, d: nat) returns (e: nat)
    requires |strip| >= 2 && k <= d && EndsAt(strip, text, d) && forall b: nat :: b < k ==> !EndsAt(strip, text, b)
    ensures k <= e <= d && FirstEnd(strip, text, e)
    decreases d - k
  {
    hide Live;
    if EndsAt(strip, text, k) { e := k; } else { e := FirstEndFrom(strip, text, k + 1, d); }
  }

  lemma {:induction false} LastColdFrom(strip: Strip, text: string, e: nat, k: nat, d: nat) returns (c: nat)
    requires d <= k <= e && Cold(strip, text, d) && forall b: nat :: k < b <= e ==> !Cold(strip, text, b)
    ensures d <= c && LastCold(strip, text, e, c)
    decreases k
  {
    hide Cold;
    if Cold(strip, text, k) { c := k; } else { c := LastColdFrom(strip, text, e, k - 1, d); }
  }

  lemma {:induction false} FirstStartFrom(strip: Strip, text: string, c: nat, k: nat, d: nat) returns (so: nat)
    requires c <= k <= d && StartsAt(strip, text, d) && forall b: nat :: c <= b < k ==> !StartsAt(strip, text, b)
    ensures k <= so <= d && StartsAt(strip, text, so) && forall b: nat :: c <= b < so ==> !StartsAt(strip, text, b)
    decreases d - k
  {
    hide StartsAt;
    if StartsAt(strip, text, k) { so := k; } else { so := FirstStartFrom(strip, text, c, k + 1, d); }
  }

  lemma MistakeMatches(strip: Strip, u: string, i: nat, q: nat, v: string)
    requires |strip| >= 2 && Mistaken(strip, u, i, q, v)
    ensures MatchAt(strip, u + v, i, |u + v|)
  {
    hide Reaches, Cold, Live;
    assert (u + v)[i..|u + v|] == u[i..|u|] + v;
    ReachesThen(strip, 1, u[i..|u|], q, v, Last(strip));
  }

  lemma MistakeReports(strip: Strip, u: string, i: nat, q: nat, v: string) returns (c: nat, e: nat, so: nat)
    requires |strip| >= 2 && Mistaken(strip, u, i, q, v)
    ensures Reports(strip, u + v, c, e, so) && !Leftmost(strip, u + v, so)
  {
    hide Accepts, Cold, Live, Begun, Reaches;
    var text := u + v;
    assert text[..|u|] == u;
    MistakeMatches(strip, u, i, q, v);
    EndsMatch(strip, text, |text|);
    forall d: nat | d < |u| + 1 ensures !EndsAt(strip, text, d) {
      assert !EndsAt(strip, u, d);
      LivePrefix(strip, text, |u|, d, Last(strip));
    }
    e := FirstEndFrom(strip, text, |u| + 1, |text|);
    ColdPrefix(strip, text, |u|, |u|);
    c := LastColdFrom(strip, text, e, e, |u|);
    var s := StartFrom(strip, text, c, e);
    so := FirstStartFrom(strip, text, c, c, s);
    assert StartsAt(strip, text, i);
  }

  /** Every report on every text is leftmost exactly if the program cannot be mistaken. */
  lemma LeftmostIff(strip: Strip)
    requires |strip| >= 2
    ensures AlwaysLeftmost(strip) <==> !Confusable(strip)
  {
    hide Reports, Leftmost, Mistaken;
    if Confusable(strip) {
      var u: string, i: nat, q: nat, v: string :| Mistaken(strip, u, i, q, v);
      var c, e, so := MistakeReports(strip, u, i, q, v);
    } else {
      forall text: string, c: nat, e: nat, so: nat | Reports(strip, text, c, e, so)
        ensures Leftmost(strip, text, so)
      {
        SureLeftmost(strip, text, c, e, so);
      }
    }
  }

  lemma SureLeftmost(strip: Strip, text: string, c: nat, e: nat, so: nat)
    requires |strip| >= 2 && !Confusable(strip) && Reports(strip, text, c, e, so)
    ensures Leftmost(strip, text, so)
  {
    hide Accepts, Cold, Live, Confusable;
    FromCold(strip, text, c, e, so);
    forall i: nat | i < c ensures !StartsAt(strip, text, i) {
      if StartsAt(strip, text, i) { MistakeFrom(strip, text, c, e, i); }
    }
  }

  /** No state that a character leads to is one of a fresh start. */
  ghost predicate Steady(strip: Strip) {
    forall s: nat :: s < |strip| && (exists c: char :: Eats(strip[s], c)) ==> !Fresh(strip, s + 1)
  }

  /** For such a program nothing is underway at a cold place, and every report is leftmost. */
  lemma SteadyLeftmost(strip: Strip)
    requires |strip| >= 2 && Steady(strip)
    ensures AlwaysLeftmost(strip)
  {
    hide Cold, Begun, Reaches, AlwaysLeftmost, Fresh;
    if Confusable(strip) {
      var u: string, i: nat, q: nat, v: string :| Mistaken(strip, u, i, q, v);
      var s := ColdInside(strip, u, |u|, i, q);
    }
    LeftmostIff(strip);
  }

  /** What is underway at a cold place is in a state of a fresh start after a character. */
  lemma ColdInside(strip: Strip, text: string, c: nat, i: nat, q: nat) returns (s: nat)
    requires Cold(strip, text, c) && i < c && Begun(strip, text, i, c, q)
    ensures s < |strip| && Eats(strip[s], text[c - 1]) && Fresh(strip, s + 1)
  {
    hide Reaches;
    assert text[i..c] == text[i..c - 1] + [text[c - 1]];
    OneMore(strip, text[i..c - 1], text[c - 1], q);
    s :| Crosses(strip, 1, text[i..c - 1], text[c - 1], s, q);
    ReachesSelf(strip, s + 1);
    assert Crosses(strip, 1, text[i..c - 1], text[c - 1], s, s + 1);
    OneMore(strip, text[i..c - 1], text[c - 1], s + 1);
    assert Begun(strip, text, i, c, s + 1);
    assert Live(strip, text, c, s + 1);
  }
}
