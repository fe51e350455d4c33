/** The engine's sets of states: one step over a character, and what the sets stand for. */
module RegexStates {
  import opened RegexStrip
  import opened RegexLinks
  import opened RegexMust

  /** What a step is taken on: a character, or a code that only anchors would react to. */
  datatype Input = Nothing | Letter(c: char)

  predicate Takes(op: Sop, ch: Input) { ch.Letter? && Eats(op, ch.c) }

  function Last(strip: Strip): nat requires |strip| >= 2 { |strip| - 1 }

  /** The states a step works on: from the one after the first end marker to the last one. */
  predicate States(strip: Strip, s: set<nat>)
    requires |strip| >= 2
  {
    forall q :: q in s ==> 1 <= q <= Last(strip)
  }

  function Upto(n: nat): (s: set<nat>)
    ensures forall q: nat :: q in s <==> 1 <= q <= n
  {
    if n == 0 then {} else Upto(n - 1) + {n}
  }

  /** The moves of an operator that consume nothing. */
  function Targets(strip: Strip, p: nat): set<nat>
    requires p < |strip| && LinkedAt(strip, p)
  {
    match strip[p]
    case OPlus_(_) => {p + 1}
    case O_Plus(k) => {p + 1, p - k}
    case OQuest_(k) => {p + 1, p + k}
    case O_Quest(_) => {p + 1}
    case OLParen(_) => {p + 1}
    case ORParen(_) => {p + 1}
    case OCh_(k) => {p + 1, p + k}
    case OOr1(_) => {ChainEnd(strip, p + 1)}
    case OOr2(k) => if strip[p + k].O_Ch? then {p + 1} else {p + 1, p + k}
    case O_Ch(_) => {p + 1}
    case _ => {}
  }

  lemma TargetsFree(strip: Strip, p: nat)
    requires p < |strip| && LinkedAt(strip, p)
    ensures forall q: nat :: q in Targets(strip, p) <==> Free(strip, p, q)
  {
  }

  /** The chain of OOR2 offsets stays in the strip and ends at an O_CH. */
  lemma {:induction false} ChainStays(strip: Strip, p: nat)
    requires Finished(strip) && p < |strip| && (strip[p].OOr2? || strip[p].O_Ch?)
    ensures p <= ChainEnd(strip, p) < Last(strip) && strip[ChainEnd(strip, p)].O_Ch?
    decreases |strip| - p
  {
    assert LinkedAt(strip, p);
    if strip[p].OOr2? { ChainStays(strip, p + strip[p].k); }
  }

  lemma TargetsStay(strip: Strip, p: nat)
    requires Finished(strip) && 1 <= p < Last(strip)
    ensures LinkedAt(strip, p) && States(strip, Targets(strip, p))
    ensures forall q :: q in Targets(strip, p) && q <= p ==> strip[p].O_Plus? && q == p - strip[p].k
    ensures strip[p].O_Plus? ==> 0 < strip[p].k < p && p - strip[p].k in Targets(strip, p)
  {
    assert LinkedAt(strip, p);
    if strip[p].OOr1? { ChainStays(strip, p + 1); }
  }

  // ----- what a step reaches -----

  /** Where a step starts from: the states it is given, and those one character leads to. */
  ghost predicate Seed(strip: Strip, bef: set<nat>, ch: Input, aft: set<nat>, s: nat) {
    s in aft || (0 < s <= |strip| && s - 1 in bef && Takes(strip[s - 1], ch))
  }

  ghost predicate Reached(strip: Strip, bef: set<nat>, ch: Input, aft: set<nat>, q: nat) {
    exists s: nat :: Seed(strip, bef, ch, aft, s) && Reaches(strip, s, "", q)
  }

  /** The operators before `pc` have nothing more to add. */
  ghost predicate Done(strip: Strip, bef: set<nat>, ch: Input, aft: set<nat>, pc: nat)
    requires Finished(strip) && pc <= Last(strip)
  {
    forall p :: 1 <= p < pc ==> Settled(strip, bef, ch, aft, p)
  }

  ghost predicate Settled(strip: Strip, bef: set<nat>, ch: Input, aft: set<nat>, p: nat)
    requires Finished(strip) && p < Last(strip)
  {
    && (p in bef && Takes(strip[p], ch) ==> p + 1 in aft)
    && (p in aft ==> LinkedAt(strip, p) && Targets(strip, p) <= aft)
  }

  /** What the operator at `pc` adds. */
  function Added(strip: Strip, bef: set<nat>, ch: Input, aft: set<nat>, pc: nat): set<nat>
    requires Finished(strip) && pc < Last(strip) && LinkedAt(strip, pc)
  {
    (if pc in bef && Takes(strip[pc], ch) then {pc + 1} else {}) + (if pc in aft then Targets(strip, pc) else {})
  }

  /** FWD and BACK */
  function Fwd(dst: set<nat>, src: set<nat>, pc: nat, n: nat): set<nat> {
    if pc in src then dst + {pc + n} else dst
  }

  function Back(dst: set<nat>, src: set<nat>, pc: nat, n: nat): set<nat>
    requires n <= pc
  {
    if pc in src then dst + {pc - n} else dst
  }

  /** The search for the O_CH that a branch ends at. */
  method Look(strip: Strip, pc: nat) returns (look: nat)
    requires Finished(strip) && pc < Last(strip) && strip[pc].OOr1?
    ensures pc + look == ChainEnd(strip, pc + 1)
  {
    assert LinkedAt(strip, pc);
    look := 1;
    while !strip[pc + look].O_Ch?
      invariant 1 <= look && pc + look < |strip| && (strip[pc + look].OOr2? || strip[pc + look].O_Ch?)
      invariant ChainEnd(strip, pc + 1) == ChainEnd(strip, pc + look)
      decreases |strip| - look
    {
      assert LinkedAt(strip, pc + look);
      look := look + strip[pc + look].k;
    }
  }

  /** One turn of the loop of step(). */
  method Visit(strip: Strip, pc: nat, bef: set<nat>, ch: Input, aft: set<nat>) returns (r: set<nat>, again: bool)
    requires Finished(strip) && 1 <= pc < Last(strip)
    ensures LinkedAt(strip, pc) && r == aft + Added(strip, bef, ch, aft, pc)
    ensures again <==> strip[pc].O_Plus? && pc in aft && pc - strip[pc].k !in aft
  {
    assert LinkedAt(strip, pc);
    r, again := aft, false;
    match strip[pc]
    case OEnd =>
    case OChar(d) => if ch == Letter(d) { r := Fwd(r, bef, pc, 1); }
    case OAny => if ch.Letter? { r := Fwd(r, bef, pc, 1); }
    case OAnyOf(s) => if ch.Letter? && ch.c in s { r := Fwd(r, bef, pc, 1); }
    case OPlus_(_) => r := Fwd(r, r, pc, 1);
    case O_Plus(k) =>
      r := Fwd(r, r, pc, 1);
      var i := pc - k in r;
      r := Back(r, r, pc, k);
      again := !i && pc - k in r;
    case OQuest_(k) =>
      r := Fwd(r, r, pc, 1);
      r := Fwd(r, r, pc, k);
    case O_Quest(_) => r := Fwd(r, r, pc, 1);
    case OLParen(_) => r := Fwd(r, r, pc, 1);
    case ORParen(_) => r := Fwd(r, r, pc, 1);
    case OCh_(k) =>
      r := Fwd(r, r, pc, 1);
      r := Fwd(r, r, pc, k);
    case OOr1(_) =>
      if pc in r {
        var look := Look(strip, pc);
        r := Fwd(r, r, pc, look);
      }
    case OOr2(k) =>
      r := Fwd(r, r, pc, 1);
      if !strip[pc + k].O_Ch? { r := Fwd(r, r, pc, k); }
    case O_Ch(_) => r := Fwd(r, r, pc, 1);
  }

  /** step(): the states reachable after a character from those reachable before it. The
      result is exactly what free moves reach from the states given and those the character
      leads to, though the loop goes over the strip once and back only at a loop's end. */
  method Step(strip: Strip, bef: set<nat>, ch: Input, aft: set<nat>) returns (r: set<nat>)
    requires Finished(strip) && States(strip, bef) && States(strip, aft)
    ensures States(strip, r)
    ensures forall q: nat :: q in r <==> Reached(strip, bef, ch, aft, q)
  {
    hide Reaches, Linked, LinkedAt, Targets;
    r := aft;
    var pc := 1;
    GivenReached(strip, bef, ch, aft);
    while pc != Last(strip)
      invariant 1 <= pc <= Last(strip) && aft <= r && States(strip, r)
      invariant forall q :: q in r ==> Reached(strip, bef, ch, aft, q)
      invariant Done(strip, bef, ch, r, pc)
      decreases Upto(Last(strip)) - r, Last(strip) - pc
    {
      TargetsStay(strip, pc);
      VisitReached(strip, bef, ch, aft, r, pc);
      ghost var was := r;
      var again;
      r, again := Visit(strip, pc, bef, ch, r);
      DoneMore(strip, bef, ch, was, r, pc);
      if again {
        assert pc - strip[pc].k in Upto(Last(strip)) - was;
        pc := pc - strip[pc].k;
      } else {
        pc := pc + 1;
      }
    }
    forall q: nat | Reached(strip, bef, ch, aft, q) ensures q in r {
      ClosedReached(strip, bef, ch, aft, r, q);
    }
  }

  lemma GivenReached(strip: Strip, bef: set<nat>, ch: Input, aft: set<nat>)
    ensures forall q: nat :: q in aft ==> Reached(strip, bef, ch, aft, q)
  {
    hide Reaches;
    forall q: nat | q in aft ensures Reached(strip, bef, ch, aft, q) {
      ReachesSelf(strip, q);
      assert Seed(strip, bef, ch, aft, q);
    }
  }

  /** What a visit adds is reached. */
  lemma VisitReached(strip: Strip, bef: set<nat>, ch: Input, aft: set<nat>, r: set<nat>, pc: nat)
    requires Finished(strip) && pc < Last(strip) && LinkedAt(strip, pc)
    requires forall q: nat :: q in r ==> Reached(strip, bef, ch, aft, q)
    ensures forall q: nat :: q in Added(strip, bef, ch, r, pc) ==> Reached(strip, bef, ch, aft, q)
  {
    hide Reaches, Linked, Targets, LinkedAt;
    forall q: nat | q in Added(strip, bef, ch, r, pc) ensures Reached(strip, bef, ch, aft, q) {
      if pc in r && q in Targets(strip, pc) {
        TargetsFree(strip, pc);
        ReachesFree(strip, pc, q);
        var s: nat :| Seed(strip, bef, ch, aft, s) && Reaches(strip, s, "", pc);
        ReachesThen(strip, s, "", pc, "", q);
        assert "" + "" == "";
      } else {
        assert Seed(strip, bef, ch, aft, q);
        ReachesSelf(strip, q);
      }
    }
  }

  /** A visit settles its operator; only a jump back can unsettle earlier ones. */
  lemma DoneMore(strip: Strip, bef: set<nat>, ch: Input, was: set<nat>, r: set<nat>, pc: nat)
    requires Finished(strip) && 1 <= pc < Last(strip) && LinkedAt(strip, pc)
    requires Done(strip, bef, ch, was, pc) && r == was + Added(strip, bef, ch, was, pc)
    ensures strip[pc].O_Plus? && pc in was && pc - strip[pc].k !in was ==> Done(strip, bef, ch, r, pc - strip[pc].k)
    ensures !(strip[pc].O_Plus? && pc in was && pc - strip[pc].k !in was) ==> Done(strip, bef, ch, r, pc + 1)
  {
    TargetsStay(strip, pc);
    hide Linked, Targets;
    var back := strip[pc].O_Plus? && pc in was && pc - strip[pc].k !in was;
    var limit := if back then pc - strip[pc].k else pc + 1;
    forall p | 1 <= p < limit ensures Settled(strip, bef, ch, r, p) {
      if p < pc { assert Settled(strip, bef, ch, was, p); }
    }
  }

  lemma ClosedReached(strip: Strip, bef: set<nat>, ch: Input, aft: set<nat>, r: set<nat>, q: nat)
    requires Finished(strip) && States(strip, bef) && aft <= r && States(strip, r)
    requires Done(strip, bef, ch, r, Last(strip)) && Reached(strip, bef, ch, aft, q)
    ensures q in r
  {
    hide Reaches, Linked, Targets, LinkedAt;
    var s: nat :| Seed(strip, bef, ch, aft, s) && Reaches(strip, s, "", q);
    if s !in aft { assert Settled(strip, bef, ch, r, s - 1); }
    ClosedHolds(strip, bef, ch, r, s, q);
  }

  lemma ClosedHolds(strip: Strip, bef: set<nat>, ch: Input, r: set<nat>, s: nat, q: nat)
    requires Finished(strip) && States(strip, r) && Done(strip, bef, ch, r, Last(strip))
    requires s in r && Reaches(strip, s, "", q)
    ensures q in r
  {
    var n: nat :| Runs(strip, s, "", q, n);
    ClosedRuns(strip, bef, ch, r, s, q, n);
  }

  lemma {:induction false} ClosedRuns(strip: Strip, bef: set<nat>, ch: Input, r: set<nat>, s: nat, q: nat, n: nat)
    requires Finished(strip) && States(strip, r) && Done(strip, bef, ch, r, Last(strip))
    requires s in r && Runs(strip, s, "", q, n)
    ensures q in r
    decreases n
  {
    hide Linked, LinkedAt;
    if n > 0 {
      var s1: nat, w: string :| Moves(strip, s, "", s1, w) && Runs(strip, s1, w, q, n - 1);
      assert s < Last(strip);
      assert Settled(strip, bef, ch, r, s);
      TargetsFree(strip, s);
      ClosedRuns(strip, bef, ch, r, s1, q, n - 1);
    }
  }
}
