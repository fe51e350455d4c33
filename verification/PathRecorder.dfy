/** The recorder of left/right steps shared by tsearch() and tdelete(): two machine words
    used as a queue of up to 128 bits. */
module PathRecorder {

  const STEPS_BIT: nat := 64

  /** A 64-bit machine word as its bits, least significant first. */
  type Word = w: seq<bool> | |w| == STEPS_BIT witness seq(STEPS_BIT, _ => false)

  /** 1 << k */
  function One(k: nat): Word requires k < STEPS_BIT { seq(STEPS_BIT, i => i == k) }

  function Or(a: Word, b: Word): Word { seq(STEPS_BIT, i requires 0 <= i < STEPS_BIT => a[i] || b[i]) }

  function And(a: Word, b: Word): Word { seq(STEPS_BIT, i requires 0 <= i < STEPS_BIT => a[i] && b[i]) }

  function Not(a: Word): Word { seq(STEPS_BIT, i requires 0 <= i < STEPS_BIT => !a[i]) }

  function ShiftRight(a: Word, k: nat): Word
    requires k <= STEPS_BIT
  {
    seq(STEPS_BIT, i requires 0 <= i < STEPS_BIT => i + k < STEPS_BIT && a[i + k])
  }

  function ShiftLeft(a: Word, k: nat): Word
    requires k <= STEPS_BIT
  {
    seq(STEPS_BIT, i requires 0 <= i < STEPS_BIT => i >= k && a[i - k])
  }

  const ZERO: Word := seq(STEPS_BIT, _ => false)

  lemma TestLowBit(w: Word)
    ensures And(w, One(0)) != ZERO <==> w[0]
  {
    if w[0] {
      assert And(w, One(0))[0];
    } else {
      assert And(w, One(0)) == ZERO;
    }
  }

  /** Both words in a row. */
  ghost function Bits(lo: seq<bool>, hi: seq<bool>): seq<bool> { lo + hi }

  /** `struct path`. The words start out with arbitrary contents. */
  class Path {
    var steps: array<Word>
    var nsteps: nat
    ghost var unread: nat

    ghost predicate Valid()
      reads this, steps
    {
      steps.Length == 2 && unread <= nsteps <= 2 * STEPS_BIT
    }

    /** The steps recorded and not yet replayed, oldest first; true is a left step. */
    ghost function Pending(): (s: seq<bool>)
      requires Valid()
      reads this, steps
    {
      Bits(steps[0], steps[1])[..unread]
    }

    /** Nothing has been replayed since the last reset. */
    ghost predicate Recording()
      reads this, steps
    {
      Valid() && unread == nsteps
    }

    constructor ()
      ensures Recording() && Pending() == [] && fresh(steps)
    {
      steps := new Word[2];
      nsteps, unread := 0, 0;
    }

    method Reset()
      requires Valid()
      modifies this
      ensures Recording() && Pending() == [] && steps == old(steps)
    {
      nsteps, unread := 0, 0;
    }

    method TakingLeft()
      requires Recording() && |Pending()| < 2 * STEPS_BIT
      modifies this, steps
      ensures Recording() && Pending() == old(Pending()) + [true] && steps == old(steps)
    {
      steps[nsteps / STEPS_BIT] := Or(steps[nsteps / STEPS_BIT], One(nsteps % STEPS_BIT));
      nsteps, unread := nsteps + 1, unread + 1;
    }

    method TakingRight()
      requires Recording() && |Pending()| < 2 * STEPS_BIT
      modifies this, steps
      ensures Recording() && Pending() == old(Pending()) + [false] && steps == old(steps)
    {
      steps[nsteps / STEPS_BIT] := And(steps[nsteps / STEPS_BIT], Not(One(nsteps % STEPS_BIT)));
      nsteps, unread := nsteps + 1, unread + 1;
    }

    method TookLeft() returns (left: bool)
      requires Valid() && |Pending()| > 0
      modifies this, steps
      ensures Valid() && [left] + Pending() == old(Pending()) && steps == old(steps)
    {
      TestLowBit(steps[0]);
      left := And(steps[0], One(0)) != ZERO;
      steps[0] := Or(ShiftRight(steps[0], 1), ShiftLeft(steps[1], STEPS_BIT - 1));
      steps[1] := ShiftRight(steps[1], 1);
      unread := unread - 1;
    }
  }
}
