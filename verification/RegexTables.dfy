/** When every report is leftmost, decided on the strip alone: over sets of its states, without
    any text. */
module RegexTables {
  import opened RegexStrip
  import opened RegexLinks
  import opened RegexMust
  import opened RegexStates
  import opened RegexEngine
  import opened RegexLeftmost

  // ----- sets of states -----

  /** The states of a fresh start. */
  ghost function FreshStates(strip: Strip): set<nat>
    requires Finished(strip)
  {
    set q | q in Upto(Last(strip)) && Fresh(strip, q)
  }

  /** The states that one character leads to. */
  ghost function Onward(strip: Strip, st: set<nat>, c: char): set<nat>
    requires Finished(strip)
  {
    set q | q in Upto(Last(strip)) && Reached(strip, st, Letter(c), {}, q)
  }

  /** The operator takes some character. */
  ghost predicate Eating(op: Sop) { exists c: char :: Eats(op, c) }

  /** States that nothing leads out of, and the last one is not among them. */
  ghost predicate DeadEnds(strip: Strip, dead: set<nat>)
    requires Finished(strip)
  {
    forall q :: q in dead ==>
      && 1 <= q < Last(strip) && LinkedAt(strip, q) && Targets(strip, q) <= dead && (Eating(strip[q]) ==> q + 1 in dead)
  }

  /** One entry of the table: the set after the character is in the table too, and if it looks
      like a fresh start, what is underway leads nowhere. */
  ghost predicate SureStep(strip: Strip, table: set<set<nat>>, dead: set<nat>, st: set<nat>, c: char)
    requires Finished(strip)
  {
    var next := Onward(strip, st, c);
    next + FreshStates(strip) in table && (next <= FreshStates(strip) ==> next <= dead)
  }

  /** A table of sets of states, closed under characters until a match ends, in which no step
      can be mistaken for a fresh start. */
  ghost predicate SureTable(strip: Strip, table: set<set<nat>>, dead: set<nat>)
    requires Finished(strip)
  {
    && FreshStates(strip) in table && DeadEnds(strip, dead)
    && forall st, c: char :: st in table && Last(strip) !in st ==> SureStep(strip, table, dead, st, c)
  }

  // ----- states stay in the strip -----

  lemma {:induction false} RunsStay(strip: Strip, p: nat, w: string, q: nat, n: nat)
    requires Finished(strip) && 1 <= p <= Last(strip) && Runs(strip, p, w, q, n)
    ensures 1 <= q <= Last(strip)
    decreases n
  {
    hide Linked, LinkedAt, Targets;
    if n > 0 {
      var p1: nat, w1: string :| Moves(strip, p, w, p1, w1) && Runs(strip, p1, w1, q, n - 1);
      TargetsStay(strip, p);
      TargetsFree(strip, p);
      RunsStay(strip, p1, w1, q, n - 1);
    }
  }

  lemma ReachesStay(strip: Strip, p: nat, w: string, q: nat)
    requires Finished(strip) && 1 <= p <= Last(strip) && Reaches(strip, p, w, q)
    ensures 1 <= q <= Last(strip)
  {
    hide Linked;
    var n: nat :| Runs(strip, p, w, q, n);
    RunsStay(strip, p, w, q, n);
  }

  // ----- the sets that texts lead to -----

  ghost function LiveSet(strip: Strip, u: string): set<nat>
    requires Finished(strip)
  {
    set q | q in Upto(Last(strip)) && Live(strip, u, |u|, q)
  }

  /** A state that is reached after `u` by a match that began before its last character. */
  ghost predicate Underway(strip: Strip, u: string, q: nat) { exists i: nat :: i < |u| && Begun(strip, u, i, |u|, q) }

  lemma BegunStays(strip: Strip, u: string, i: nat, q: nat)
    requires Finished(strip) && Begun(strip, u, i, |u|, q)
    ensures q in Upto(Last(strip))
  {
    hide Reaches, Linked;
    ReachesStay(strip, 1, u[i..|u|], q);
  }

  /** What is underway after one character more is what the character leads to. */
  lemma OnwardIs(strip: Strip, u: string, c: char, q: nat)
    requires Finished(strip)
    ensures q in Onward(strip, LiveSet(strip, u), c) <==> Underway(strip, u + [c], q)
  {
    hide Reaches, Linked;
    var st, w := LiveSet(strip, u), u + [c];
    if q in Onward(strip, st, c) {
      var s: nat :| Seed(strip, st, Letter(c), {}, s) && Reaches(strip, s, "", q);
      var j: nat :| Begun(strip, u, j, |u|, s - 1);
      assert Crosses(strip, 1, u[j..|u|], c, s - 1, q);
      OneMore(strip, u[j..|u|], c, q);
      assert w[j..|w|] == u[j..|u|] + [c];
      assert Begun(strip, w, j, |w|, q);
    }
    if Underway(strip, w, q) {
      var i: nat :| i < |w| && Begun(strip, w, i, |w|, q);
      assert w[i..|w|] == u[i..|u|] + [c];
      OneMore(strip, u[i..|u|], c, q);
      var s: nat :| Crosses(strip, 1, u[i..|u|], c, s, q);
      assert Begun(strip, u, i, |u|, s);
      BegunStays(strip, u, i, s);
      BegunStays(strip, w, i, q);
      assert Seed(strip, st, Letter(c), {}, s + 1);
    }
  }

  /** A live state is underway or fresh. */
  lemma LiveIs(strip: Strip, u: string, q: nat)
    requires Finished(strip)
    ensures Live(strip, u, |u|, q) <==> Underway(strip, u, q) || Fresh(strip, q)
    ensures Live(strip, u, |u|, q) ==> q in Upto(Last(strip))
  {
    hide Reaches, Linked;
    assert u[|u|..|u|] == "";
    if Live(strip, u, |u|, q) {
      var j: nat :| Begun(strip, u, j, |u|, q);
      BegunStays(strip, u, j, q);
    }
    if Fresh(strip, q) { assert Begun(strip, u, |u|, |u|, q); }
  }

  lemma LiveSetNext(strip: Strip, u: string, c: char)
    requires Finished(strip)
    ensures LiveSet(strip, u + [c]) == Onward(strip, LiveSet(strip, u), c) + FreshStates(strip)
  {
    hide Live, Underway, Fresh, Linked, Reached;
    forall q: nat ensures q in LiveSet(strip, u + [c]) <==> q in Onward(strip, LiveSet(strip, u), c) + FreshStates(strip) {
      LiveIs(strip, u + [c], q);
      OnwardIs(strip, u, c, q);
    }
  }

  lemma LiveSetStart(strip: Strip)
    requires Finished(strip)
    ensures LiveSet(strip, "") == FreshStates(strip)
  {
    hide Live, Fresh, Linked;
    forall q: nat ensures q in LiveSet(strip, "") <==> q in FreshStates(strip) { LiveIs(strip, "", q); }
  }

  lemma FreshStay(strip: Strip, q: nat)
    requires Finished(strip)
    ensures Fresh(strip, q) <==> q in FreshStates(strip)
  {
    hide Reaches, Linked;
    if Fresh(strip, q) { ReachesStay(strip, 1, "", q); }
  }

  // ----- a table excludes mistakes -----

  lemma {:induction false} DeadRuns(strip: Strip, dead: set<nat>, q: nat, v: string, r: nat, n: nat)
    requires Finished(strip) && DeadEnds(strip, dead) && q in dead && Runs(strip, q, v, r, n)
    ensures r in dead
    decreases n
  {
    hide Linked, Targets, LinkedAt;
    if n > 0 {
      var q1: nat, v1: string :| Moves(strip, q, v, q1, v1) && Runs(strip, q1, v1, r, n - 1);
      TargetsFree(strip, q);
      DeadRuns(strip, dead, q1, v1, r, n - 1);
    }
  }

  lemma DeadStay(strip: Strip, dead: set<nat>, q: nat, v: string)
    requires Finished(strip) && DeadEnds(strip, dead) && q in dead
    ensures !Reaches(strip, q, v, Last(strip))
  {
    hide Linked, DeadEnds;
    if n: nat :| Runs(strip, q, v, Last(strip), n) {
      DeadRuns(strip, dead, q, v, Last(strip), n);
      LastAlive(strip, dead);
    }
  }

  lemma LastAlive(strip: Strip, dead: set<nat>)
    requires Finished(strip) && DeadEnds(strip, dead)
    ensures Last(strip) !in dead
  {
  }

  /** Until a match has ended the set of live states is in the table. */
  lemma {:induction false} LiveInTable(strip: Strip, table: set<set<nat>>, dead: set<nat>, u: string)
    requires Finished(strip) && SureTable(strip, table, dead)
    requires forall d: nat :: d < |u| ==> !EndsAt(strip, u, d)
    ensures LiveSet(strip, u) in table
    decreases |u|
  {
    hide Linked, Onward, LiveSet, Live, DeadEnds;
    if |u| == 0 {
      LiveSetStart(strip);
    } else {
      var z := |u| - 1;
      var w := u[..z];
      assert u == w + [u[z]];
      forall d: nat | d <= z ensures EndsAt(strip, w, d) <==> EndsAt(strip, u, d) { LivePrefix(strip, u, z, d, Last(strip)); }
      LiveInTable(strip, table, dead, w);
      LastNotLive(strip, w);
      LiveSetNext(strip, w, u[z]);
      assert SureStep(strip, table, dead, LiveSet(strip, w), u[z]);
    }
  }

  lemma LastNotLive(strip: Strip, u: string)
    requires Finished(strip)
    ensures Last(strip) in LiveSet(strip, u) <==> EndsAt(strip, u, |u|)
  {
    hide Live, Linked;
    assert Last(strip) in Upto(Last(strip));
  }

  lemma TableNoMistake(strip: Strip, table: set<set<nat>>, dead: set<nat>, u: string, i: nat, q: nat, v: string)
    requires Finished(strip) && SureTable(strip, table, dead)
    ensures !Mistaken(strip, u, i, q, v)
  {
    hide Linked, Onward, LiveSet, Live, DeadEnds, Reaches, Begun, FreshStates;
    if Mistaken(strip, u, i, q, v) {
      var z := |u| - 1;
      var w := u[..z];
      assert u == w + [u[z]];
      forall d: nat | d <= z ensures !EndsAt(strip, w, d) {
        assert !EndsAt(strip, u, d);
        LivePrefix(strip, u, z, d, Last(strip));
      }
      LiveInTable(strip, table, dead, w);
      LastNotLive(strip, w);
      assert SureStep(strip, table, dead, LiveSet(strip, w), u[z]);
      ColdOnward(strip, w, u[z]);
      OnwardIs(strip, w, u[z], q);
      DeadStay(strip, dead, q, v);
    }
  }

  lemma ColdOnward(strip: Strip, u: string, c: char)
    requires Finished(strip)
    ensures Cold(strip, u + [c], |u| + 1) <==> Onward(strip, LiveSet(strip, u), c) <= FreshStates(strip)
  {
    hide Linked, Onward, LiveSet, Live, FreshStates, Fresh, Underway;
    var w := u + [c];
    forall q: nat
      ensures Live(strip, w, |w|, q) <==> q in Onward(strip, LiveSet(strip, u), c) || Fresh(strip, q)
      ensures Fresh(strip, q) <==> q in FreshStates(strip)
    {
      OnwardIs(strip, u, c, q);
      LiveIs(strip, w, q);
      FreshStay(strip, q);
    }
  }

  // ----- without mistakes there is a table -----

  /** The set is that of the live states after some text in which nothing ended before. */
  ghost predicate Visited(strip: Strip, st: set<nat>)
    requires Finished(strip)
  {
    exists u: string :: Visits(strip, u, st)
  }

  ghost predicate Visits(strip: Strip, u: string, st: set<nat>)
    requires Finished(strip)
  {
    st == LiveSet(strip, u) && forall d: nat :: d < |u| ==> !EndsAt(strip, u, d)
  }

  ghost function AllVisited(strip: Strip): set<set<nat>>
    requires Finished(strip)
  {
    set st | st <= Upto(Last(strip)) && Visited(strip, st)
  }

  ghost predicate Hopeless(strip: Strip, q: nat)
    requires |strip| >= 2
  {
    forall v: string :: !Reaches(strip, q, v, Last(strip))
  }

  ghost function AllHopeless(strip: Strip): set<nat>
    requires Finished(strip)
  {
    set q | q in Upto(Last(strip)) && Hopeless(strip, q)
  }

  lemma HopelessDead(strip: Strip)
    requires Finished(strip)
    ensures DeadEnds(strip, AllHopeless(strip))
  {
    hide Reaches, Linked, LinkedAt, Targets;
    var dead := AllHopeless(strip);
    forall q | q in dead
      ensures 1 <= q < Last(strip) && LinkedAt(strip, q) && Targets(strip, q) <= dead && (Eating(strip[q]) ==> q + 1 in dead)
    {
      ReachesSelf(strip, q);
      TargetsStay(strip, q);
      TargetsFree(strip, q);
      forall p: nat | p in Targets(strip, q) ensures Hopeless(strip, p) { HopelessFree(strip, q, p); }
      if c: char :| Eats(strip[q], c) { HopelessEats(strip, q, c); }
    }
  }

  lemma HopelessFree(strip: Strip, q: nat, p: nat)
    requires |strip| >= 2 && Hopeless(strip, q) && Free(strip, q, p)
    ensures Hopeless(strip, p)
  {
    hide Reaches;
    forall v: string ensures !Reaches(strip, p, v, Last(strip)) {
      if Reaches(strip, p, v, Last(strip)) {
        ReachesFree(strip, q, p);
        ReachesThen(strip, q, "", p, v, Last(strip));
      }
    }
  }

  lemma HopelessEats(strip: Strip, q: nat, c: char)
    requires q + 1 < |strip| && Hopeless(strip, q) && Eats(strip[q], c)
    ensures Hopeless(strip, q + 1)
  {
    hide Reaches;
    var p := q + 1;
    forall v: string ensures !Reaches(strip, p, v, Last(strip)) {
      if Reaches(strip, p, v, Last(strip)) {
        ReachesEats(strip, q, c);
        ReachesThen(strip, q, [c], p, v, Last(strip));
      }
    }
  }

  lemma VisitsNext(strip: Strip, u: string, st: set<nat>, c: char)
    requires Finished(strip) && Visits(strip, u, st) && Last(strip) !in st
    ensures Visits(strip, u + [c], Onward(strip, st, c) + FreshStates(strip))
  {
    hide Linked, Onward, LiveSet, Live, FreshStates;
    LiveSetNext(strip, u, c);
    LastNotLive(strip, u);
    var w := u + [c];
    assert w[..|u|] == u;
    forall d: nat | d < |w| ensures !EndsAt(strip, w, d) {
      assert !EndsAt(strip, u, d);
      LivePrefix(strip, w, |u|, d, Last(strip));
    }
  }

  /** A step that looks like a fresh start has nothing underway that could match. */
  lemma VisitsSure(strip: Strip, u: string, st: set<nat>, c: char, q: nat)
    requires Finished(strip) && !Confusable(strip) && Visits(strip, u, st) && Last(strip) !in st
    requires Onward(strip, st, c) <= FreshStates(strip) && q in Onward(strip, st, c)
    ensures q in AllHopeless(strip)
  {
    hide Linked, Live, Begun, Reaches, Fresh;
    var w := u + [c];
    VisitsNext(strip, u, st, c);
    ColdOnward(strip, u, c);
    OnwardIs(strip, u, c, q);
    LastNotFresh(strip, u);
    LastNotLive(strip, w);
    var i: nat :| i < |w| && Begun(strip, w, i, |w|, q);
    forall v: string ensures !Reaches(strip, q, v, Last(strip)) {
      assert !Mistaken(strip, w, i, q, v);
    }
  }

  lemma LastNotFresh(strip: Strip, u: string)
    requires Finished(strip) && Last(strip) !in LiveSet(strip, u)
    ensures Last(strip) !in FreshStates(strip)
  {
    hide Live, Fresh, Linked;
    LiveIs(strip, u, Last(strip));
  }

  lemma NoMistakeTable(strip: Strip)
    requires Finished(strip) && !Confusable(strip)
    ensures SureTable(strip, AllVisited(strip), AllHopeless(strip))
  {
    hide Linked, Confusable, Visits, Onward, FreshStates, AllHopeless, DeadEnds;
    var table, dead := AllVisited(strip), AllHopeless(strip);
    HopelessDead(strip);
    StartsVisited(strip);
    forall st, c: char | st in table && Last(strip) !in st ensures SureStep(strip, table, dead, st, c) {
      var u: string :| Visits(strip, u, st);
      VisitsNext(strip, u, st, c);
      NextInside(strip, st, c);
      forall q | q in Onward(strip, st, c) && Onward(strip, st, c) <= FreshStates(strip) ensures q in dead {
        VisitsSure(strip, u, st, c, q);
      }
    }
  }

  lemma StartsVisited(strip: Strip)
    requires Finished(strip)
    ensures FreshStates(strip) in AllVisited(strip)
  {
    hide Linked, LiveSet, Live;
    LiveSetStart(strip);
    assert Visits(strip, "", FreshStates(strip));
  }

  lemma NextInside(strip: Strip, st: set<nat>, c: char)
    requires Finished(strip)
    ensures Onward(strip, st, c) + FreshStates(strip) <= Upto(Last(strip))
  {
  }

  // ----- the two together -----

  /** Every report on every text is leftmost exactly if the strip has such a table: finitely many
      sets of its states, so the question is settled before any text is seen. */
  lemma TableIff(strip: Strip)
    requires Finished(strip)
    ensures AlwaysLeftmost(strip) <==> exists table, dead :: SureTable(strip, table, dead)
  {
    hide Linked, AlwaysLeftmost, SureTable, Mistaken;
    LeftmostIff(strip);
    if !Confusable(strip) { NoMistakeTable(strip); }
    if table, dead :| SureTable(strip, table, dead) {
      forall u: string, i: nat, q: nat, v: string ensures !Mistaken(strip, u, i, q, v) {
        TableNoMistake(strip, table, dead, u, i, q, v);
      }
    }
  }
}
