/** Rows, columns and elimination over the field. */
module Matrices {
  import opened Field16
  import opened Galois16

  type Vec = seq<Elem>

  type Mat = seq<Vec>

  /** The sum of the first `n` products. */
  function DotN(r: Vec, v: Vec, n: nat): Elem
    requires n <= |r| && n <= |v|
  {
    if n == 0 then 0 else Add(DotN(r, v, n - 1), Mul(r[n - 1], v[n - 1]))
  }

  function Dot(r: Vec, v: Vec): Elem
    requires |r| == |v|
  {
    DotN(r, v, |r|)
  }

  function Scaled(r: Vec, c: Elem): (s: Vec)
    ensures |s| == |r| && forall i :: 0 <= i < |r| ==> s[i] == Mul(c, r[i])
  {
    seq(|r|, i requires 0 <= i < |r| => Mul(c, r[i]))
  }

  function Plus(r: Vec, s: Vec): (t: Vec)
    requires |r| == |s|
    ensures |t| == |r| && forall i :: 0 <= i < |r| ==> t[i] == Add(r[i], s[i])
  {
    seq(|r|, i requires 0 <= i < |r| => Add(r[i], s[i]))
  }

  lemma {:induction false} DotScaled(r: Vec, c: Elem, v: Vec, n: nat)
    requires n <= |r| && n <= |v|
    ensures DotN(Scaled(r, c), v, n) == Mul(c, DotN(r, v, n))
    decreases n
  {
    hide Mul, Add;
    if n == 0 {
      MulZero(c);
    } else {
      DotScaled(r, c, v, n - 1);
      MulAssoc(c, r[n - 1], v[n - 1]);
      MulAdd(c, DotN(r, v, n - 1), Mul(r[n - 1], v[n - 1]));
    }
  }

  lemma {:induction false} DotPlus(r: Vec, s: Vec, v: Vec, n: nat)
    requires |r| == |s| && n <= |r| && n <= |v|
    ensures DotN(Plus(r, s), v, n) == Add(DotN(r, v, n), DotN(s, v, n))
    decreases n
  {
    hide Mul, Add;
    if n == 0 {
      AddZero(0);
    } else {
      DotPlus(r, s, v, n - 1);
      MulAdd(v[n - 1], r[n - 1], s[n - 1]);
      AddSwap(DotN(r, v, n - 1), DotN(s, v, n - 1), Mul(r[n - 1], v[n - 1]), Mul(s[n - 1], v[n - 1]));
    }
  }

  predicate Shape(m: Mat, rows: nat, cols: nat) { |m| == rows && forall i :: 0 <= i < rows ==> |m[i]| == cols }

  // ----- elimination -----

  /** One pivot: the pivot row is divided by the pivot, and every other row loses its entry in
      the pivot column. `m` is the matrix itself or the one carried along with it. */
  ghost function Eliminate(m: Mat, r: Mat, row: nat, cols: nat): (m': Mat)
    requires Shape(m, |r|, cols) && Shape(r, |r|, |r|) && row < |r| && r[row][row] != 0
    ensures Shape(m', |r|, cols)
  {
    var p := Scaled(m[row], Inv(r[row][row]));
    seq(|r|, i requires 0 <= i < |r| => if i == row then p else Plus(m[i], Scaled(p, r[i][row])))
  }

  lemma EliminateDot(m: Mat, r: Mat, row: nat, cols: nat, i: nat, v: Vec)
    requires Shape(m, |r|, cols) && Shape(r, |r|, |r|) && row < |r| && r[row][row] != 0 && i < |r| && |v| == cols
    ensures var d := Mul(Inv(r[row][row]), Dot(m[row], v));
      Dot(Eliminate(m, r, row, cols)[i], v) == if i == row then d else Add(Dot(m[i], v), Mul(r[i][row], d))
  {
    hide Mul, Add, Inv, Scaled, Plus, DotN;
    var c := Inv(r[row][row]);
    var p := Scaled(m[row], c);
    DotScaled(m[row], c, v, cols);
    if i != row {
      DotScaled(p, r[i][row], v, cols);
      DotPlus(m[i], Scaled(p, r[i][row]), v, cols);
    }
  }

  /** Both sides of every equation have the same value. */
  predicate Balanced(l: Mat, r: Mat, cols: nat, inp: Vec, miss: Vec)
    requires Shape(l, |r|, cols) && Shape(r, |r|, |r|) && |inp| == cols && |miss| == |r|
  {
    forall i :: 0 <= i < |r| ==> Dot(l[i], inp) == Dot(r[i], miss)
  }

  lemma EliminateBalanced(l: Mat, r: Mat, row: nat, cols: nat, inp: Vec, miss: Vec)
    requires Shape(l, |r|, cols) && Shape(r, |r|, |r|) && row < |r| && r[row][row] != 0
    requires |inp| == cols && |miss| == |r| && Balanced(l, r, cols, inp, miss)
    ensures Balanced(Eliminate(l, r, row, cols), Eliminate(r, r, row, |r|), cols, inp, miss)
  {
    hide Mul, Add, Inv, Dot, Eliminate;
    forall i | 0 <= i < |r|
      ensures Dot(Eliminate(l, r, row, cols)[i], inp) == Dot(Eliminate(r, r, row, |r|)[i], miss)
    {
      EliminateDot(l, r, row, cols, i, inp);
      EliminateDot(r, r, row, |r|, i, miss);
    }
  }

  /** The first `m` rows take the vector to zero. */
  predicate Kills(r: Mat, m: nat, v: Vec)
    requires Shape(r, |r|, |r|) && m <= |r| && |v| == |r|
  {
    forall i :: 0 <= i < m ==> Dot(r[i], v) == 0
  }

  /** A pivot among the first `m` rows does not change what they take to zero. */
  lemma EliminateKills(r: Mat, row: nat, m: nat, v: Vec)
    requires Shape(r, |r|, |r|) && row < m <= |r| && r[row][row] != 0 && |v| == |r|
    ensures Kills(Eliminate(r, r, row, |r|), m, v) <==> Kills(r, m, v)
  {
    hide Mul, Add, Inv, Dot, Eliminate;
    var r' := Eliminate(r, r, row, |r|);
    var c := Inv(r[row][row]);
    var d := Mul(c, Dot(r[row], v));
    EliminateDot(r, r, row, |r|, row, v);
    if Kills(r, m, v) {
      MulZero(c);
      forall i | 0 <= i < m ensures Dot(r'[i], v) == 0 {
        EliminateDot(r, r, row, |r|, i, v);
        MulZero(r[i][row]);
        AddZero(0);
      }
    }
    if Kills(r', m, v) {
      NoZeroDivisors(c, Dot(r[row], v));
      forall i | 0 <= i < m ensures Dot(r[i], v) == 0 {
        EliminateDot(r, r, row, |r|, i, v);
        MulZero(r[i][row]);
        AddZero(Dot(r[i], v));
      }
    }
  }

  /** The first `k` columns are those of the identity. */
  predicate Unit(r: Mat, k: nat)
    requires Shape(r, |r|, |r|) && k <= |r|
  {
    forall i, j :: 0 <= i < |r| && 0 <= j < k ==> r[i][j] == if i == j then 1 else 0
  }

  lemma EliminateUnit(r: Mat, row: nat)
    requires Shape(r, |r|, |r|) && row < |r| && r[row][row] != 0 && Unit(r, row)
    ensures Unit(Eliminate(r, r, row, |r|), row + 1)
  {
    hide Mul, Add, Inv;
    var r' := Eliminate(r, r, row, |r|);
    var c := Inv(r[row][row]);
    MulComm(c, r[row][row]);
    MulZero(c);
    forall i, j | 0 <= i < |r| && 0 <= j < row + 1 ensures r'[i][j] == if i == j then 1 else 0 {
      if i != row {
        var s := r[i][row];
        MulZero(s);
        MulOne(s);
        AddZero(r[i][j]);
        AddZero(s);
      }
    }
  }

  // ----- singular blocks -----

  predicate ZeroFrom(v: Vec, k: nat) { forall j :: k <= j < |v| ==> v[j] == 0 }

  /** The block of the first `m` rows and columns takes no vector but zero to zero. */
  ghost predicate Nonsingular(r: Mat, m: nat)
    requires Shape(r, |r|, |r|) && m <= |r|
  {
    forall v: Vec :: |v| == |r| && ZeroFrom(v, m) && Kills(r, m, v) ==> ZeroFrom(v, 0)
  }

  /** Across identity columns a row picks one entry. */
  lemma {:induction false} DotUnit(r: Mat, k: nat, i: nat, v: Vec, n: nat)
    requires Shape(r, |r|, |r|) && k <= |r| && Unit(r, k) && i < |r| && |v| == |r| && n <= k
    ensures DotN(r[i], v, n) == if i < n then v[i] else 0
    decreases n
  {
    hide Mul, Add;
    if n > 0 {
      DotUnit(r, k, i, v, n - 1);
      MulOne(v[n - 1]);
      MulZero(v[n - 1]);
      AddZero(v[n - 1]);
      AddZero(if i < n - 1 then v[i] else 0);
    }
  }

  lemma {:induction false} DotZeros(r: Vec, v: Vec, k: nat, n: nat)
    requires |r| == |v| && k <= n <= |r| && ZeroFrom(v, k)
    ensures DotN(r, v, n) == DotN(r, v, k)
    decreases n
  {
    hide Mul, Add;
    if n > k {
      DotZeros(r, v, k, n - 1);
      MulZero(r[n - 1]);
      AddZero(DotN(r, v, n - 1));
    }
  }

  /** With identity columns up to `m`, the leading block of size `m` is not singular. */
  lemma UnitNonsingular(r: Mat, m: nat)
    requires Shape(r, |r|, |r|) && m <= |r| && Unit(r, m)
    ensures Nonsingular(r, m)
  {
    hide DotN, Unit;
    forall v: Vec | |v| == |r| && ZeroFrom(v, m) && Kills(r, m, v) ensures ZeroFrom(v, 0) {
      forall j | 0 <= j < |v| ensures v[j] == 0 {
        if j < m {
          DotZeros(r[j], v, m, |r|);
          DotUnit(r, m, j, v, m);
        }
      }
    }
  }

  /** The vector that a zero pivot leaves. */
  function Witness(r: Mat, k: nat): (v: Vec)
    requires Shape(r, |r|, |r|) && k < |r|
    ensures |v| == |r|
  {
    seq(|r|, j requires 0 <= j < |r| => if j < k then r[j][k] else if j == k then 1 else 0)
  }

  lemma ZeroPivot(r: Mat, k: nat)
    requires Shape(r, |r|, |r|) && k < |r| && Unit(r, k) && r[k][k] == 0
    ensures !Nonsingular(r, k + 1)
  {
    hide DotN, Unit, Mul, Add;
    var v := Witness(r, k);
    forall i | 0 <= i < k + 1 ensures Dot(r[i], v) == 0 {
      DotZeros(r[i], v, k + 1, |r|);
      DotLast(r[i], v, k);
      DotUnit(r, k, i, v, k);
      MulOne(r[i][k]);
      AddZero(r[i][k]);
    }
    assert Kills(r, k + 1, v) && ZeroFrom(v, k + 1);
    assert v[k] == 1;
  }

  lemma DotLast(r: Vec, v: Vec, k: nat)
    requires |r| == |v| && k < |r|
    ensures DotN(r, v, k + 1) == Add(DotN(r, v, k), Mul(r[k], v[k]))
  {
  }

  /** Matrices whose first `m` rows take the same vectors to zero. */
  ghost predicate SameKernels(r: Mat, s: Mat, from: nat)
    requires Shape(r, |r|, |r|) && Shape(s, |r|, |r|)
  {
    forall m: nat, v: Vec :: from <= m <= |r| && |v| == |r| ==> (Kills(r, m, v) <==> Kills(s, m, v))
  }

  lemma SameNonsingular(r: Mat, s: Mat, from: nat, m: nat)
    requires Shape(r, |r|, |r|) && Shape(s, |r|, |r|) && SameKernels(r, s, from) && from <= m <= |r|
    ensures Nonsingular(r, m) <==> Nonsingular(s, m)
  {
    hide Kills;
  }

  lemma EliminateSame(r0: Mat, r: Mat, row: nat)
    requires Shape(r0, |r0|, |r0|) && Shape(r, |r0|, |r0|) && row < |r| && r[row][row] != 0 && SameKernels(r0, r, row)
    ensures SameKernels(r0, Eliminate(r, r, row, |r|), row + 1)
  {
    hide Kills, Eliminate;
    var r' := Eliminate(r, r, row, |r|);
    forall m: nat, v: Vec | row + 1 <= m <= |r0| && |v| == |r0| ensures Kills(r0, m, v) <==> Kills(r', m, v) {
      EliminateKills(r, row, m, v);
    }
  }
}
