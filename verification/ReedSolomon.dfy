/** rs.c, second half: the equations for the missing blocks, solved by elimination. */
module ReedSolomon {
  import opened Field16
  import opened Galois16
  import opened Matrices

  ghost function Row(m: array2<Elem>, i: nat): (r: Vec)
    requires i < m.Length0
    reads m
    ensures |r| == m.Length1 && forall j :: 0 <= j < m.Length1 ==> r[j] == m[i, j]
  {
    seq(m.Length1, j requires 0 <= j < m.Length1 reads m => m[i, j])
  }

  /** The matrix that the array holds. */
  ghost function Rows(m: array2<Elem>): (r: Mat)
    reads m
    ensures Shape(r, m.Length0, m.Length1) && forall i, j :: 0 <= i < m.Length0 && 0 <= j < m.Length1 ==> r[i][j] == m[i, j]
  {
    seq(m.Length0, i requires 0 <= i < m.Length0 reads m => Row(m, i))
  }

  lemma SameEntries(a: Mat, b: Mat, rows: nat, cols: nat)
    requires Shape(a, rows, cols) && Shape(b, rows, cols)
    requires forall i, j :: 0 <= i < rows && 0 <= j < cols ==> a[i][j] == b[i][j]
    ensures a == b
  {
    forall i | 0 <= i < rows ensures a[i] == b[i] {}
  }

  /** Division of the entries of a row from column `from` on. */
  method DivideRow(t: Tables, m: array2<Elem>, row: nat, from: nat, p: Elem)
    requires t.Ready() && row < m.Length0 && from <= m.Length1 && p != 0
    modifies m
    ensures forall i, j :: 0 <= i < m.Length0 && 0 <= j < m.Length1 ==>
      m[i, j] == if i == row && j >= from then Mul(Inv(p), old(m[i, j])) else old(m[i, j])
  {
    hide Mul, Inv, t.Ready;
    MulZero(Inv(p));
    var col := from;
    while col < m.Length1
      invariant from <= col <= m.Length1
      invariant forall i, j :: 0 <= i < m.Length0 && 0 <= j < m.Length1 ==>
        m[i, j] == if i == row && from <= j < col then Mul(Inv(p), old(m[i, j])) else old(m[i, j])
    {
      if m[row, col] != 0 {
        var q := t.Over(m[row, col], p);
        m[row, col] := q;
      }
      col := col + 1;
    }
  }

  /** The pivot row of the matrix that is brought to the identity. */
  method NormaliseRight(t: Tables, m: array2<Elem>, row: nat, p: Elem)
    requires t.Ready() && m.Length0 == m.Length1 && row < m.Length0 && p == m[row, row] != 0
    requires forall j :: 0 <= j < row ==> m[row, j] == 0
    modifies m
    ensures Rows(m) == old(Rows(m))[row := Scaled(old(Rows(m))[row], Inv(p))]
  {
    hide Mul, Inv, t.Ready;
    m[row, row] := 1;
    DivideRow(t, m, row, row + 1, p);
    MulComm(Inv(p), p);
    MulZero(Inv(p));
    SameEntries(Rows(m), old(Rows(m))[row := Scaled(old(Rows(m))[row], Inv(p))], m.Length0, m.Length1);
  }

  method NormaliseLeft(t: Tables, m: array2<Elem>, row: nat, p: Elem)
    requires t.Ready() && row < m.Length0 && p != 0
    modifies m
    ensures Rows(m) == old(Rows(m))[row := Scaled(old(Rows(m))[row], Inv(p))]
  {
    hide Mul, Inv, t.Ready;
    DivideRow(t, m, row, 0, p);
    SameEntries(Rows(m), old(Rows(m))[row := Scaled(old(Rows(m))[row], Inv(p))], m.Length0, m.Length1);
  }

  /** Adding a multiple of the pivot row, from column `from` on. */
  method AddRow(t: Tables, m: array2<Elem>, row2: nat, row: nat, from: nat, scale: Elem)
    requires t.Ready() && row < m.Length0 && row2 < m.Length0 && row2 != row && from <= m.Length1
    requires forall j :: 0 <= j < from ==> m[row, j] == 0
    modifies m
    ensures Rows(m) == old(Rows(m))[row2 := Plus(old(Rows(m))[row2], Scaled(old(Rows(m))[row], scale))]
  {
    hide Mul, Add, t.Ready;
    MulZero(scale);
    var col := from;
    while col < m.Length1
      invariant from <= col <= m.Length1
      invariant forall i, j :: 0 <= i < m.Length0 && 0 <= j < m.Length1 ==>
        m[i, j] == if i == row2 && from <= j < col then Add(old(m[i, j]), Mul(scale, old(m[row, j]))) else old(m[i, j])
    {
      var x := m[row, col];
      AddZero(m[row2, col]);
      if x != 0 {
        MulOne(x);
        MulComm(x, scale);
        if scale == 1 {
          m[row2, col] := Add(m[row2, col], x);
        } else {
          var y := t.Times(x, scale);
          m[row2, col] := Add(m[row2, col], y);
        }
      }
      col := col + 1;
    }
    forall j | 0 <= j < from ensures m[row2, j] == Add(old(m[row2, j]), Mul(scale, old(m[row, j]))) {
      AddZero(m[row2, j]);
    }
    SameEntries(Rows(m), old(Rows(m))[row2 := Plus(old(Rows(m))[row2], Scaled(old(Rows(m))[row], scale))],
      m.Length0, m.Length1);
  }

  // ----- one pivot -----

  /** The rows before `upto` have lost their entry in the pivot column. */
  ghost function Cleared(m: Mat, r: Mat, row: nat, upto: nat, cols: nat): (m': Mat)
    requires Shape(m, |r|, cols) && Shape(r, |r|, |r|) && row < |r|
    ensures Shape(m', |r|, cols)
  {
    seq(|r|, i requires 0 <= i < |r| => if i < upto && i != row then Plus(m[i], Scaled(m[row], r[i][row])) else m[i])
  }

  lemma ClearedNone(m: Mat, r: Mat, row: nat, cols: nat)
    requires Shape(m, |r|, cols) && Shape(r, |r|, |r|) && row < |r|
    ensures Cleared(m, r, row, 0, cols) == m
  {
  }

  lemma ClearedNext(m: Mat, r: Mat, row: nat, upto: nat, cols: nat)
    requires Shape(m, |r|, cols) && Shape(r, |r|, |r|) && row < |r| && upto < |r|
    ensures var c := Cleared(m, r, row, upto, cols);
      && c[upto] == m[upto] && c[row] == m[row]
      && Cleared(m, r, row, upto + 1, cols) ==
        if upto == row then c else c[upto := Plus(c[upto], Scaled(c[row], r[upto][row]))]
  {
  }

  lemma ClearedZero(m: Mat, r: Mat, row: nat, upto: nat, cols: nat)
    requires Shape(m, |r|, cols) && Shape(r, |r|, |r|) && row < |r| && upto < |r| && r[upto][row] == 0
    ensures Cleared(m, r, row, upto + 1, cols) == Cleared(m, r, row, upto, cols)
  {
    hide Mul, Add;
    ClearedNext(m, r, row, upto, cols);
    if upto != row {
      var c := Cleared(m, r, row, upto, cols);
      forall j | 0 <= j < cols ensures Plus(c[upto], Scaled(c[row], 0))[j] == c[upto][j] {
        MulZero(c[row][j]);
        AddZero(c[upto][j]);
      }
      assert Plus(c[upto], Scaled(c[row], 0)) == c[upto];
    }
  }

  /** Normalised and then cleared: the pivot is done. */
  lemma ClearedAll(m: Mat, r: Mat, row: nat, cols: nat)
    requires Shape(m, |r|, cols) && Shape(r, |r|, |r|) && row < |r| && r[row][row] != 0
    ensures var c := Inv(r[row][row]); var m1 := m[row := Scaled(m[row], c)]; var r1 := r[row := Scaled(r[row], c)];
      Cleared(m1, r1, row, |r|, cols) == Eliminate(m, r, row, cols)
  {
    hide Mul, Add, Inv, Plus, Scaled;
  }

  lemma ScaledOne(m: Mat, row: nat, cols: nat)
    requires row < |m| && Shape(m, |m|, cols)
    ensures m[row := Scaled(m[row], Inv(1))] == m
  {
    hide Mul;
    MulOne(Inv(1));
    forall j | 0 <= j < cols ensures Scaled(m[row], Inv(1))[j] == m[row][j] { MulOne(m[row][j]); }
    assert Scaled(m[row], Inv(1)) == m[row];
  }

  method Normalise(t: Tables, left: array2<Elem>, right: array2<Elem>, row: nat)
    requires t.Ready() && left != right && left.Length0 == right.Length0 == right.Length1 && row < right.Length0
    requires right[row, row] != 0 && forall j :: 0 <= j < row ==> right[row, j] == 0
    modifies left, right
    ensures var c := Inv(old(right[row, row]));
      && Rows(left) == old(Rows(left))[row := Scaled(old(Rows(left))[row], c)]
      && Rows(right) == old(Rows(right))[row := Scaled(old(Rows(right))[row], c)]
  {
    hide Mul, Inv, t.Ready, Scaled;
    var pivotvalue := right[row, row];
    if pivotvalue != 1 {
      NormaliseLeft(t, left, row, pivotvalue);
      NormaliseRight(t, right, row, pivotvalue);
    } else {
      ScaledOne(Rows(left), row, left.Length1);
      ScaledOne(Rows(right), row, right.Length1);
    }
  }

  method Clear(t: Tables, left: array2<Elem>, right: array2<Elem>, row: nat)
    requires t.Ready() && left != right && left.Length0 == right.Length0 == right.Length1 && row < right.Length0
    requires forall j :: 0 <= j < row ==> right[row, j] == 0
    modifies left, right
    ensures Rows(left) == Cleared(old(Rows(left)), old(Rows(right)), row, right.Length0, left.Length1)
    ensures Rows(right) == Cleared(old(Rows(right)), old(Rows(right)), row, right.Length0, right.Length1)
  {
    hide Cleared, Plus, Scaled, t.Ready;
    ghost var l1, r1 := Rows(left), Rows(right);
    var rows, row2 := right.Length0, 0;
    ClearedNone(l1, r1, row, left.Length1);
    ClearedNone(r1, r1, row, rows);
    while row2 < rows
      invariant 0 <= row2 <= rows
      invariant Rows(left) == Cleared(l1, r1, row, row2, left.Length1)
      invariant Rows(right) == Cleared(r1, r1, row, row2, rows)
    {
      ClearedNext(l1, r1, row, row2, left.Length1);
      ClearedNext(r1, r1, row, row2, rows);
      if row2 != row {
        var scalevalue := right[row2, row];
        assert scalevalue == Rows(right)[row2][row] == r1[row2][row];
        assert Rows(right)[row] == r1[row];
        if scalevalue != 0 {
          AddRow(t, left, row2, row, 0, scalevalue);
          AddRow(t, right, row2, row, row, scalevalue);
        } else {
          ClearedZero(l1, r1, row, row2, left.Length1);
          ClearedZero(r1, r1, row, row2, rows);
        }
      }
      row2 := row2 + 1;
    }
  }

  /** The whole of gauss_elim's work for one row. */
  method Pivot(t: Tables, left: array2<Elem>, right: array2<Elem>, row: nat)
    requires t.Ready() && left != right && left.Length0 == right.Length0 == right.Length1 && row < right.Length0
    requires Unit(Rows(right), row) && right[row, row] != 0
    modifies left, right
    ensures Rows(left) == Eliminate(old(Rows(left)), old(Rows(right)), row, left.Length1)
    ensures Rows(right) == Eliminate(old(Rows(right)), old(Rows(right)), row, right.Length0)
  {
    hide Mul, Add, Inv, Cleared, Eliminate, Plus, t.Ready;
    ghost var l, r := Rows(left), Rows(right);
    ghost var c := Inv(right[row, row]);
    forall j | 0 <= j < row ensures right[row, j] == 0 { assert r[row][j] == 0; }
    Normalise(t, left, right, row);
    forall j | 0 <= j < row ensures right[row, j] == 0 {
      assert Rows(right)[row][j] == Mul(c, r[row][j]);
      MulZero(c);
    }
    Clear(t, left, right, row);
    ClearedAll(l, r, row, left.Length1);
    ClearedAll(r, r, row, right.Length0);
  }

  // ----- gauss_elim -----

  /** Whatever satisfies the first equations satisfies the second. */
  ghost predicate Follows(l0: Mat, r0: Mat, l: Mat, r: Mat, cols: nat)
    requires Shape(l0, |r0|, cols) && Shape(r0, |r0|, |r0|) && Shape(l, |r0|, cols) && Shape(r, |r0|, |r0|)
  {
    forall inp: Vec, miss: Vec {:trigger Balanced(l, r, cols, inp, miss)} ::
      |inp| == cols && |miss| == |r0| && Balanced(l0, r0, cols, inp, miss) ==> Balanced(l, r, cols, inp, miss)
  }

  lemma FollowsNext(l0: Mat, r0: Mat, l: Mat, r: Mat, row: nat, cols: nat)
    requires Shape(l0, |r0|, cols) && Shape(r0, |r0|, |r0|) && Shape(l, |r0|, cols) && Shape(r, |r0|, |r0|)
    requires row < |r| && r[row][row] != 0 && Follows(l0, r0, l, r, cols)
    ensures Follows(l0, r0, Eliminate(l, r, row, cols), Eliminate(r, r, row, |r|), cols)
  {
    hide Eliminate, Balanced;
    var l', r' := Eliminate(l, r, row, cols), Eliminate(r, r, row, |r|);
    forall inp: Vec, miss: Vec | |inp| == cols && |miss| == |r0| && Balanced(l0, r0, cols, inp, miss)
      ensures Balanced(l', r', cols, inp, miss)
    {
      assert Balanced(l, r, cols, inp, miss);
      EliminateBalanced(l, r, row, cols, inp, miss);
    }
  }

  /** Once the right side is the identity, the left side gives the unknowns. */
  lemma Solved(l: Mat, r: Mat, cols: nat, inp: Vec, miss: Vec)
    requires Shape(l, |r|, cols) && Shape(r, |r|, |r|) && |inp| == cols && |miss| == |r|
    requires Unit(r, |r|) && Balanced(l, r, cols, inp, miss)
    ensures forall i :: 0 <= i < |r| ==> Dot(l[i], inp) == miss[i]
  {
    hide Unit, DotN;
    forall i | 0 <= i < |r| ensures Dot(l[i], inp) == miss[i] { DotUnit(r, |r|, i, miss, |r|); }
  }

  /** Every leading block is regular. */
  ghost predicate Leading(r: Mat, n: nat)
    requires Shape(r, |r|, |r|) && n <= |r|
  {
    forall k: nat :: 1 <= k <= n ==> Nonsingular(r, k)
  }

  /** The left side computes the unknowns of every instance of the equations. */
  ghost predicate Solves(l: Mat, l0: Mat, r0: Mat, cols: nat)
    requires Shape(l0, |r0|, cols) && Shape(r0, |r0|, |r0|) && Shape(l, |r0|, cols)
  {
    forall inp: Vec, miss: Vec {:trigger Balanced(l0, r0, cols, inp, miss)} ::
      |inp| == cols && |miss| == |r0| && Balanced(l0, r0, cols, inp, miss) ==>
      forall i :: 0 <= i < |r0| ==> Dot(l[i], inp) == miss[i]
  }

  lemma FollowsSolves(l0: Mat, r0: Mat, l: Mat, r: Mat, cols: nat)
    requires Shape(l0, |r0|, cols) && Shape(r0, |r0|, |r0|) && Shape(l, |r0|, cols) && Shape(r, |r0|, |r0|)
    requires Unit(r, |r|) && Follows(l0, r0, l, r, cols)
    ensures Solves(l, l0, r0, cols)
  {
    hide Balanced, Unit, Dot;
    forall inp: Vec, miss: Vec | |inp| == cols && |miss| == |r0| && Balanced(l0, r0, cols, inp, miss)
      ensures forall i :: 0 <= i < |r0| ==> Dot(l[i], inp) == miss[i]
    {
      assert Balanced(l, r, cols, inp, miss);
      Solved(l, r, cols, inp, miss);
    }
  }

  /** gauss_elim succeeds exactly if every leading block of the right matrix is regular, not
      only the whole matrix, since rows are never exchanged; the left matrix then solves the
      equations, whatever the data. */
  method GaussElim(t: Tables, left: array2<Elem>, right: array2<Elem>) returns (ok: bool)
    requires t.Ready() && left != right && left.Length0 == right.Length0 == right.Length1
    modifies left, right
    ensures ok <==> Leading(old(Rows(right)), right.Length0)
    ensures ok ==> Solves(Rows(left), old(Rows(left)), old(Rows(right)), left.Length1)
  {
    hide Eliminate, Unit, Follows, SameKernels, Nonsingular, Solves, t.Ready;
    ghost var l0, r0 := Rows(left), Rows(right);
    var rows, row := right.Length0, 0;
    Start(l0, r0, left.Length1);
    while row < rows
      invariant 0 <= row <= rows && Unit(Rows(right), row)
      invariant Follows(l0, r0, Rows(left), Rows(right), left.Length1)
      invariant SameKernels(r0, Rows(right), row) && Leading(r0, row)
    {
      ghost var l, r := Rows(left), Rows(right);
      if right[row, row] == 0 {
        ZeroPivot(r, row);
        SameNonsingular(r0, r, row, row + 1);
        return false;
      }
      FollowsNext(l0, r0, l, r, row, left.Length1);
      EliminateSame(r0, r, row);
      EliminateUnit(r, row);
      Pivot(t, left, right, row);
      row := row + 1;
      UnitNonsingular(Rows(right), row);
      SameNonsingular(r0, Rows(right), row, row);
    }
    FollowsSolves(l0, r0, Rows(left), Rows(right), left.Length1);
    ok := true;
  }

  lemma Start(l0: Mat, r0: Mat, cols: nat)
    requires Shape(l0, |r0|, cols) && Shape(r0, |r0|, |r0|)
    ensures Unit(r0, 0) && Follows(l0, r0, l0, r0, cols) && SameKernels(r0, r0, 0)
  {
  }

  // ----- gf16_solve -----

  /** The equation of recovery slice `e`: each block with its base raised to the exponent. */
  function Powers(bases: Vec, e: nat): (r: Vec)
    ensures |r| == |bases| && forall i :: 0 <= i < |r| ==> r[i] == Pow(bases[i], e)
  {
    seq(|bases|, i requires 0 <= i < |bases| => Pow(bases[i], e))
  }

  function Vandermonde(bases: Vec, exps: seq<nat>): (m: Mat)
    ensures Shape(m, |exps|, |bases|)
    ensures forall i, j :: 0 <= i < |exps| && 0 <= j < |bases| ==> m[i][j] == Pow(bases[j], exps[i])
  {
    seq(|exps|, i requires 0 <= i < |exps| => Powers(bases, exps[i]))
  }

  function UnitRow(n: nat, i: nat): (r: Vec)
    ensures |r| == n && forall j :: 0 <= j < n ==> r[j] == if i == j then 1 else 0
  {
    seq(n, j => if i == j then 1 else 0)
  }

  /** The left matrix before elimination: powers of the present bases, then the identity. */
  function LeftStart(present: Vec, exps: seq<nat>): (m: Mat)
    ensures Shape(m, |exps|, |present| + |exps|)
  {
    seq(|exps|, i requires 0 <= i < |exps| => Powers(present, exps[i]) + UnitRow(|exps|, i))
  }

  /** What a recovery slice with exponent `e` holds, word by word. */
  function Recovery(presentBases: Vec, missingBases: Vec, present: Vec, missing: Vec, e: nat): Elem
    requires |present| == |presentBases| && |missing| == |missingBases|
  {
    Add(Dot(Powers(presentBases, e), present), Dot(Powers(missingBases, e), missing))
  }

  function Recoveries(presentBases: Vec, missingBases: Vec, present: Vec, missing: Vec, exps: seq<nat>): (r: Vec)
    requires |present| == |presentBases| && |missing| == |missingBases|
    ensures |r| == |exps|
    ensures forall i :: 0 <= i < |exps| ==> r[i] == Recovery(presentBases, missingBases, present, missing, exps[i])
  {
    seq(|exps|, i requires 0 <= i < |exps| => Recovery(presentBases, missingBases, present, missing, exps[i]))
  }

  lemma {:induction false} DotPrefix(a: Vec, b: Vec, u: Vec, v: Vec, n: nat)
    requires |a| == |u| && |b| == |v| && n <= |a|
    ensures DotN(a + b, u + v, n) == DotN(a, u, n)
    decreases n
  {
    hide Mul, Add;
    if n > 0 { DotPrefix(a, b, u, v, n - 1); }
  }

  lemma {:induction false} DotConcat(a: Vec, b: Vec, u: Vec, v: Vec, n: nat)
    requires |a| == |u| && |b| == |v| && n <= |b|
    ensures DotN(a + b, u + v, |a| + n) == Add(DotN(a, u, |a|), DotN(b, v, n))
    decreases n
  {
    hide Mul, Add;
    if n == 0 {
      DotPrefix(a, b, u, v, |a|);
      AddZero(DotN(a, u, |a|));
    } else {
      DotConcat(a, b, u, v, n - 1);
      AddAssoc(DotN(a, u, |a|), DotN(b, v, n - 1), Mul(b[n - 1], v[n - 1]));
    }
  }

  lemma {:induction false} DotUnitRow(k: nat, i: nat, v: Vec, n: nat)
    requires |v| == k && i < k && n <= k
    ensures DotN(UnitRow(k, i), v, n) == if i < n then v[i] else 0
    decreases n
  {
    hide Mul, Add;
    if n > 0 {
      DotUnitRow(k, i, v, n - 1);
      MulOne(v[n - 1]);
      MulZero(v[n - 1]);
      AddZero(v[n - 1]);
      AddZero(if i < n - 1 then v[i] else 0);
    }
  }

  /** The equations hold of any blocks and their recovery slices. */
  lemma RecoveryBalanced(pb: Vec, mb: Vec, exps: seq<nat>, present: Vec, missing: Vec)
    requires |exps| == |mb| == |missing| && |present| == |pb|
    ensures Balanced(LeftStart(pb, exps), Vandermonde(mb, exps), |pb| + |exps|,
              present + Recoveries(pb, mb, present, missing, exps), missing)
  {
    hide Mul, Add, DotN;
    var recs := Recoveries(pb, mb, present, missing, exps);
    var l, r := LeftStart(pb, exps), Vandermonde(mb, exps);
    forall i | 0 <= i < |r| ensures Dot(l[i], present + recs) == Dot(r[i], missing) {
      var p := Powers(pb, exps[i]);
      DotConcat(p, UnitRow(|exps|, i), present, recs, |exps|);
      DotUnitRow(|exps|, i, recs, |exps|);
      var a, b := Dot(p, present), Dot(Powers(mb, exps[i]), missing);
      AddAssoc(a, a, b);
      AddZero(a);
      AddZero(b);
    }
  }

  /** The rows rebuild every missing block from the present blocks and the recovery slices. */
  ghost predicate Rebuilds(coeffs: Mat, pb: Vec, mb: Vec, exps: seq<nat>)
    requires |exps| == |mb| && Shape(coeffs, |mb|, |pb| + |mb|)
  {
    forall present: Vec, missing: Vec {:trigger Recoveries(pb, mb, present, missing, exps)} ::
      |present| == |pb| && |missing| == |mb| ==>
      forall k :: 0 <= k < |mb| ==> Dot(coeffs[k], present + Recoveries(pb, mb, present, missing, exps)) == missing[k]
  }

  lemma SolvesRebuilds(coeffs: Mat, pb: Vec, mb: Vec, exps: seq<nat>)
    requires |exps| == |mb| && Shape(coeffs, |mb|, |pb| + |mb|)
    requires Solves(coeffs, LeftStart(pb, exps), Vandermonde(mb, exps), |pb| + |mb|)
    ensures Rebuilds(coeffs, pb, mb, exps)
  {
    hide LeftStart, Vandermonde, Balanced, Dot;
    forall present: Vec, missing: Vec | |present| == |pb| && |missing| == |mb|
      ensures forall k :: 0 <= k < |mb| ==> Dot(coeffs[k], present + Recoveries(pb, mb, present, missing, exps)) == missing[k]
    {
      RecoveryBalanced(pb, mb, exps, present, missing);
    }
  }

  /** A row of powers, from column 0 on. */
  method FillPowers(t: Tables, bases: Vec, exponent: nat, row: nat, m: array2<Elem>)
    requires t.Ready() && exponent < 65536 && row < m.Length0 && |bases| <= m.Length1
    modifies m
    ensures forall i, j :: 0 <= i < m.Length0 && 0 <= j < m.Length1 ==>
      m[i, j] == if i == row && j < |bases| then Pow(bases[j], exponent) else old(m[i, j])
  {
    hide Pow, t.Ready;
    var col := 0;
    while col < |bases|
      invariant 0 <= col <= |bases|
      invariant forall i, j :: 0 <= i < m.Length0 && 0 <= j < m.Length1 ==>
        m[i, j] == if i == row && j < col then Pow(bases[j], exponent) else old(m[i, j])
    {
      m[row, col] := t.Power(bases[col], exponent);
      col := col + 1;
    }
  }

  method FillLeft(t: Tables, pb: Vec, exponent: nat, row: nat, coeffs: array2<Elem>)
    requires t.Ready() && exponent < 65536 && row < coeffs.Length0 && coeffs.Length1 == |pb| + coeffs.Length0
    modifies coeffs
    ensures Rows(coeffs) == old(Rows(coeffs))[row := Powers(pb, exponent) + UnitRow(coeffs.Length0, row)]
  {
    hide Pow, t.Ready;
    var rows, col := coeffs.Length0, 0;
    FillPowers(t, pb, exponent, row, coeffs);
    while col < rows
      invariant 0 <= col <= rows
      invariant forall i, j :: 0 <= i < rows && 0 <= j < coeffs.Length1 ==>
        coeffs[i, j] == if i == row && j < |pb| then Pow(pb[j], exponent)
                        else if i == row && j < |pb| + col then (if row == j - |pb| then 1 else 0)
                        else old(coeffs[i, j])
    {
      coeffs[row, |pb| + col] := if row == col then 1 else 0;
      col := col + 1;
    }
    SameEntries(Rows(coeffs), old(Rows(coeffs))[row := Powers(pb, exponent) + UnitRow(rows, row)], rows, coeffs.Length1);
  }

  method FillRight(t: Tables, mb: Vec, exponent: nat, row: nat, right: array2<Elem>)
    requires t.Ready() && exponent < 65536 && row < right.Length0 && right.Length1 == |mb|
    modifies right
    ensures Rows(right) == old(Rows(right))[row := Powers(mb, exponent)]
  {
    hide Pow, t.Ready;
    FillPowers(t, mb, exponent, row, right);
    SameEntries(Rows(right), old(Rows(right))[row := Powers(mb, exponent)], right.Length0, right.Length1);
  }

  predicate Filled(m: Mat, goal: Mat, n: nat) { n <= |m| && n <= |goal| && forall i :: 0 <= i < n ==> m[i] == goal[i] }

  /** gf16_solve */
  method Solve(t: Tables, pb: Vec, mb: Vec, exps: seq<nat>, coeffs: array2<Elem>) returns (ok: bool)
    requires t.Ready() && |exps| == |mb| && (forall i :: 0 <= i < |exps| ==> exps[i] < 65536)
    requires coeffs.Length0 == |mb| && coeffs.Length1 == |pb| + |mb|
    modifies coeffs
    ensures ok <==> Leading(Vandermonde(mb, exps), |mb|)
    ensures ok ==> Rebuilds(Rows(coeffs), pb, mb, exps)
  {
    hide Pow, t.Ready, Leading, Solves, Rebuilds, Powers, UnitRow;
    var rows := |mb|;
    if rows == 0 {
      NothingMissing(Rows(coeffs), pb, mb, exps);
      return true;
    }
    var right := new Elem[rows, rows]((i, j) => 0);
    var row := 0;
    while row < rows
      invariant 0 <= row <= rows
      invariant Filled(Rows(coeffs), LeftStart(pb, exps), row) && Filled(Rows(right), Vandermonde(mb, exps), row)
    {
      FillLeft(t, pb, exps[row], row, coeffs);
      FillRight(t, mb, exps[row], row, right);
      row := row + 1;
    }
    assert Rows(coeffs) == LeftStart(pb, exps) && Rows(right) == Vandermonde(mb, exps);
    ok := GaussElim(t, coeffs, right);
    if ok { SolvesRebuilds(Rows(coeffs), pb, mb, exps); }
  }

  lemma NothingMissing(coeffs: Mat, pb: Vec, mb: Vec, exps: seq<nat>)
    requires |exps| == |mb| == 0 && Shape(coeffs, 0, |pb|)
    ensures Leading(Vandermonde(mb, exps), |mb|) && Rebuilds(coeffs, pb, mb, exps)
  {
  }
}
