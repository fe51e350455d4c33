/** When the equations of a repair can be solved. */
module Vandermondes {
  import opened Field16
  import opened FieldPowers
  import opened Galois16
  import opened Matrices
  import opened ReedSolomon

  predicate Distinct(b: Vec) { forall i, j :: 0 <= i < j < |b| ==> b[i] != b[j] }

  predicate Consecutive(exps: seq<nat>, s: nat) { forall i :: 0 <= i < |exps| ==> exps[i] == s + i }

  lemma {:induction false} PowAdd(a: Elem, m: nat, n: nat)
    ensures Pow(a, m + n) == Mul(Pow(a, m), Pow(a, n))
    decreases m
  {
    hide Mul;
    if m == 0 {
      MulOne(Pow(a, n));
    } else {
      PowAdd(a, m - 1, n);
      MulAssoc(a, Pow(a, m - 1), Pow(a, n));
    }
  }

  lemma {:induction false} PowNonzero(a: Elem, n: nat)
    requires a != 0
    ensures Pow(a, n) != 0
  {
    hide Mul;
    if n > 0 {
      PowNonzero(a, n - 1);
      if Mul(a, Pow(a, n - 1)) == 0 { NoZeroDivisors(a, Pow(a, n - 1)); }
    }
  }

  // ----- sums of powers -----

  /** The product of `x - p` over all `p`. */
  function Prod(ps: Vec, x: Elem): Elem {
    if |ps| == 0 then 1 else Mul(Prod(ps[..|ps| - 1], x), Add(x, ps[|ps| - 1]))
  }

  /** One block's share: its weight, times the polynomial at its base, times a power. */
  function Term(w: Elem, ps: Vec, b: Elem, r: nat): Elem { Mul(Mul(w, Prod(ps, b)), Pow(b, r)) }

  function Moment(b: Vec, w: Vec, ps: Vec, r: nat, n: nat): Elem
    requires |b| == |w| && n <= |b|
  {
    if n == 0 then 0 else Add(Moment(b, w, ps, r, n - 1), Term(w[n - 1], ps, b[n - 1], r))
  }

  /** One factor more: a power higher, and a multiple. */
  lemma TermSplit(w: Elem, ps: Vec, p: Elem, b: Elem, r: nat)
    ensures Term(w, ps + [p], b, r) == Add(Term(w, ps, b, r + 1), Mul(p, Term(w, ps, b, r)))
  {
    hide Mul, Add;
    assert (ps + [p])[..|ps|] == ps;
    var q, e := Prod(ps, b), Pow(b, r);
    var wq := Mul(w, q);
    assert Prod(ps + [p], b) == Mul(q, Add(b, p));
    MulAssoc(w, q, Add(b, p));
    MulAssoc(wq, Add(b, p), e);
    MulAdd(e, b, p);
    MulAdd(wq, Mul(b, e), Mul(p, e));
    assert Pow(b, r + 1) == Mul(b, e);
    MulAssoc(wq, p, e);
    MulComm(wq, p);
    MulAssoc(p, wq, e);
  }

  lemma {:induction false} MomentSplit(b: Vec, w: Vec, ps: Vec, p: Elem, r: nat, n: nat)
    requires |b| == |w| && n <= |b|
    ensures Moment(b, w, ps + [p], r, n) == Add(Moment(b, w, ps, r + 1, n), Mul(p, Moment(b, w, ps, r, n)))
    decreases n
  {
    hide Mul, Add, Term;
    if n == 0 {
      MulZero(p);
      AddZero(0);
    } else {
      MomentSplit(b, w, ps, p, r, n - 1);
      TermSplit(w[n - 1], ps, p, b[n - 1], r);
      var m, m' := Moment(b, w, ps, r, n - 1), Moment(b, w, ps, r + 1, n - 1);
      var t, t' := Term(w[n - 1], ps, b[n - 1], r), Term(w[n - 1], ps, b[n - 1], r + 1);
      MulAdd(p, m, t);
      AddSwap(m', Mul(p, m), t', Mul(p, t));
    }
  }

  /** If the first moments vanish, so do those with factors. */
  lemma {:induction false} MomentsVanish(b: Vec, w: Vec, ps: Vec, r: nat, k: nat)
    requires |b| == |w| && r + |ps| <= k && forall s: nat :: s <= k ==> Moment(b, w, [], s, |b|) == 0
    ensures Moment(b, w, ps, r, |b|) == 0
    decreases |ps|
  {
    hide Mul, Add, Moment;
    if |ps| == 0 {
      assert ps == [];
    } else {
      var init, p := ps[..|ps| - 1], ps[|ps| - 1];
      assert ps == init + [p];
      MomentsVanish(b, w, init, r, k);
      MomentsVanish(b, w, init, r + 1, k);
      MomentSplit(b, w, init, p, r, |b|);
      MulZero(p);
      AddZero(0);
    }
  }

  /** The bases of the first `k` blocks but one. */
  function Others(b: Vec, i: nat, k: nat): (r: Vec)
    requires i < k <= |b|
    ensures |r| == k - 1
    ensures forall j :: 0 <= j < k && j != i ==> b[j] in r
    ensures forall x :: x in r ==> exists j :: 0 <= j < k && j != i && b[j] == x
  {
    var r := b[..i] + b[i + 1..k];
    assert forall j :: 0 <= j < i ==> r[j] == b[j];
    assert forall j :: i < j < k ==> r[j - 1] == b[j];
    r
  }

  lemma {:induction false} ProdZero(ps: Vec, x: Elem)
    requires x in ps
    ensures Prod(ps, x) == 0
  {
    hide Mul, Add;
    var z := |ps| - 1;
    if ps[z] == x {
      AddCancel(x, x);
      MulZero(Prod(ps[..z], x));
    } else {
      ProdZero(ps[..z], x);
      MulZero(Add(x, ps[z]));
    }
  }

  lemma {:induction false} ProdNonzero(ps: Vec, x: Elem)
    requires x !in ps
    ensures Prod(ps, x) != 0
  {
    hide Mul, Add;
    if |ps| > 0 {
      var z := |ps| - 1;
      ProdNonzero(ps[..z], x);
      AddCancel(x, ps[z]);
      assert ps[z] in ps;
      if Mul(Prod(ps[..z], x), Add(x, ps[z])) == 0 { NoZeroDivisors(Prod(ps[..z], x), Add(x, ps[z])); }
    }
  }

  /** Only one block is left in the sum. */
  lemma {:induction false} MomentPicks(b: Vec, w: Vec, i: nat, k: nat, n: nat)
    requires |b| == |w| && i < k <= |b| && n <= |b| && ZeroFrom(w, k)
    ensures Moment(b, w, Others(b, i, k), 0, n) == if i < n then Term(w[i], Others(b, i, k), b[i], 0) else 0
    decreases n
  {
    hide Mul, Add, Others;
    if n > 0 {
      var ps, j := Others(b, i, k), n - 1;
      MomentPicks(b, w, i, k, j);
      if j != i {
        if j < k {
          ProdZero(ps, b[j]);
          MulZero(w[j]);
        } else {
          MulZero(Prod(ps, b[j]));
        }
        MulZero(Pow(b[j], 0));
      }
      AddZero(Term(w[j], ps, b[j], 0));
      AddZero(Moment(b, w, ps, 0, j));
    }
  }

  lemma WeightZero(b: Vec, w: Vec, i: nat, k: nat)
    requires |b| == |w| && i < k <= |b| && ZeroFrom(w, k) && Distinct(b)
    requires forall s: nat :: s < k ==> Moment(b, w, [], s, |b|) == 0
    ensures w[i] == 0
  {
    hide Mul, Add, Moment, Others;
    var ps := Others(b, i, k);
    MomentsVanish(b, w, ps, 0, k - 1);
    MomentPicks(b, w, i, k, |b|);
    var q := Prod(ps, b[i]);
    ProdNonzero(ps, b[i]);
    MulOne(Mul(w[i], q));
    NoZeroDivisors(w[i], q);
  }

  // ----- consecutive exponents -----

  /** The weights: the vector, with the power that all exponents share. */
  function Weights(b: Vec, v: Vec, s: nat): (w: Vec)
    requires |b| == |v|
    ensures |w| == |b| && forall i :: 0 <= i < |b| ==> w[i] == Mul(v[i], Pow(b[i], s))
  {
    seq(|b|, i requires 0 <= i < |b| => Mul(v[i], Pow(b[i], s)))
  }

  lemma {:induction false} DotMoment(b: Vec, v: Vec, s: nat, r: nat, n: nat)
    requires |b| == |v| && n <= |b|
    ensures DotN(ReedSolomon.Powers(b, s + r), v, n) == Moment(b, Weights(b, v, s), [], r, n)
    decreases n
  {
    hide Mul, Add;
    if n > 0 {
      var j := n - 1;
      DotMoment(b, v, s, r, j);
      PowAdd(b[j], s, r);
      MulComm(Pow(b[j], s + r), v[j]);
      MulAssoc(v[j], Pow(b[j], s), Pow(b[j], r));
      MulOne(Mul(v[j], Pow(b[j], s)));
    }
  }

  lemma RowMoment(b: Vec, exps: seq<nat>, s: nat, v: Vec, r: nat)
    requires |exps| == |b| == |v| && Consecutive(exps, s) && r < |b|
    ensures Dot(Vandermonde(b, exps)[r], v) == Moment(b, Weights(b, v, s), [], r, |b|)
  {
    hide DotN, Moment, Pow;
    DotMoment(b, v, s, r, |b|);
    assert Vandermonde(b, exps)[r] == ReedSolomon.Powers(b, s + r);
  }

  lemma EntryZero(b: Vec, v: Vec, s: nat, k: nat, j: nat)
    requires |b| == |v| && j < k <= |b| && ZeroFrom(v, k) && Distinct(b) && 0 !in b
    requires forall r: nat :: r < k ==> Moment(b, Weights(b, v, s), [], r, |b|) == 0
    ensures v[j] == 0
  {
    hide Mul, Add, Moment, Pow;
    var w := Weights(b, v, s);
    forall i | k <= i < |w| ensures w[i] == 0 { MulZero(Pow(b[i], s)); }
    WeightZero(b, w, j, k);
    PowNonzero(b[j], s);
    NoZeroDivisors(v[j], Pow(b[j], s));
  }

  lemma ConsecutiveRegular(b: Vec, exps: seq<nat>, s: nat, k: nat)
    requires |exps| == |b| && 1 <= k <= |b| && Distinct(b) && 0 !in b && Consecutive(exps, s)
    ensures Nonsingular(Vandermonde(b, exps), k)
  {
    hide Dot, Moment, Vandermonde, Distinct, Consecutive, Weights;
    var m := Vandermonde(b, exps);
    forall v: Vec | |v| == |m| && ZeroFrom(v, k) && Kills(m, k, v) ensures ZeroFrom(v, 0) {
      forall r: nat | r < k ensures Moment(b, Weights(b, v, s), [], r, |b|) == 0 {
        RowMoment(b, exps, s, v, r);
      }
      forall j | 0 <= j < |v| ensures v[j] == 0 {
        if j < k { EntryZero(b, v, s, k, j); }
      }
    }
  }

  /** Recovery slices with consecutive exponents repair any set of missing blocks. */
  lemma ConsecutiveSolvable(b: Vec, exps: seq<nat>, s: nat)
    requires |exps| == |b| && Distinct(b) && 0 !in b && Consecutive(exps, s)
    ensures Leading(Vandermonde(b, exps), |b|)
  {
    hide Nonsingular, Vandermonde;
    forall k: nat | 1 <= k <= |b| ensures Nonsingular(Vandermonde(b, exps), k) { ConsecutiveRegular(b, exps, s, k); }
  }

  // ----- a regular system that is given up -----

  /** The bases of blocks 0, 2 and 4 of a set, and three exponents in ascending order. */
  function OddBases(): Vec { [XPow(1), XPow(4), XPow(8)] }

  function OddExponents(): seq<nat> { [0, 21845, 21846] }

  lemma OddEntry(l: nat, e: nat, r: nat)
    requires r == l * e % ORDER
    ensures Pow(XPow(l), e) == XPow(r)
  {
    hide XPow, Pow;
    PowOfX(l, e);
    XPowMod(l * e);
  }

  /** The second equation has the same coefficient twice. */
  lemma OddMatrix()
    ensures var m := Vandermonde(OddBases(), OddExponents());
      && m[0] == [1, 1, 1]
      && m[1] == [XPow(21845), XPow(21845), XPow(43690)]
      && m[2] == [XPow(21846), XPow(21849), XPow(43698)]
  {
    hide XPow, Pow;
    XPowZero();
    OddEntry(1, 0, 0);
    OddEntry(4, 0, 0);
    OddEntry(8, 0, 0);
    OddEntry(1, 21845, 21845);
    OddEntry(4, 21845, 21845);
    OddEntry(8, 21845, 43690);
    OddEntry(1, 21846, 21846);
    OddEntry(4, 21846, 21849);
    OddEntry(8, 21846, 43698);
  }

  lemma DotThree(r: Vec, v: Vec)
    requires |r| == |v| == 3
    ensures Dot(r, v) == Add(Add(Mul(r[0], v[0]), Mul(r[1], v[1])), Mul(r[2], v[2]))
  {
    hide Mul, Add;
    AddZero(Mul(r[0], v[0]));
    assert DotN(r, v, 0) == 0;
    assert DotN(r, v, 1) == Mul(r[0], v[0]);
    assert DotN(r, v, 2) == Add(Mul(r[0], v[0]), Mul(r[1], v[1]));
  }

  lemma OddBlock()
    ensures !Nonsingular(Vandermonde(OddBases(), OddExponents()), 2)
  {
    hide Mul, Add, XPow, Vandermonde, Dot;
    OddMatrix();
    var m: Mat, v: Vec := Vandermonde(OddBases(), OddExponents()), [1, 1, 0];
    forall i | 0 <= i < 2 ensures Dot(m[i], v) == 0 {
      DotThree(m[i], v);
      var a := m[i][0];
      MulOne(a);
      MulZero(m[i][2]);
      AddZero(a);
      AddZero(0);
    }
    assert Kills(m, 2, v) && ZeroFrom(v, 2);
    assert v[0] == 1;
  }

  /** Two different multiples of the same element agree only if it is zero. */
  lemma SameMultiple(a: Elem, b: Elem, x: Elem)
    requires a != b && Mul(a, x) == Mul(b, x)
    ensures x == 0
  {
    hide Mul, Add;
    MulAdd(x, a, b);
    AddZero(Mul(a, x));
    AddCancel(a, b);
    NoZeroDivisors(Add(a, b), x);
  }

  lemma OddKernel(a: Elem, b: Elem, c: Elem, d: Elem, e: Elem, v: Vec)
    requires |v| == 3 && a != b && c != d
    requires Dot([1, 1, 1], v) == 0 && Dot([a, a, b], v) == 0 && Dot([c, d, e], v) == 0
    ensures ZeroFrom(v, 0)
  {
    hide Mul, Add, Dot;
    DotThree([1, 1, 1], v);
    DotThree([a, a, b], v);
    DotThree([c, d, e], v);
    MulOne(v[0]);
    MulOne(v[1]);
    MulOne(v[2]);
    AddCancel(Add(v[0], v[1]), v[2]);
    MulAdd(a, v[0], v[1]);
    AddCancel(Mul(a, v[2]), Mul(b, v[2]));
    SameMultiple(a, b, v[2]);
    AddCancel(v[0], v[1]);
    MulZero(e);
    AddZero(Add(Mul(c, v[0]), Mul(d, v[0])));
    AddCancel(Mul(c, v[0]), Mul(d, v[0]));
    SameMultiple(c, d, v[0]);
  }

  /** All three blocks could be rebuilt, but the second pivot is zero: a regular matrix is
      refused, because elimination takes the rows as they come. */
  lemma RegularRefused()
    ensures var m := Vandermonde(OddBases(), OddExponents()); Nonsingular(m, 3) && !Leading(m, 3)
  {
    hide Mul, Add, XPow, Dot, Vandermonde;
    OddMatrix();
    OddBlock();
    var m := Vandermonde(OddBases(), OddExponents());
    XPowDifferent(21845, 43690);
    XPowDifferent(21846, 21849);
    forall v: Vec | |v| == |m| && ZeroFrom(v, 3) && Kills(m, 3, v) ensures ZeroFrom(v, 0) {
      assert Dot(m[0], v) == 0 && Dot(m[1], v) == 0 && Dot(m[2], v) == 0;
      OddKernel(XPow(21845), XPow(43690), XPow(21846), XPow(21849), XPow(43698), v);
    }
  }
}
