/** Repair of a PAR2 set: the bases of the blocks, and the accumulation of the rebuilt ones. */
module Repair {
  import opened Arithmetic
  import opened Bytes
  import opened Field16
  import opened FieldPowers
  import opened Galois16
  import opened Matrices
  import opened ReedSolomon
  import opened Vandermondes

  // ----- bases -----

  ghost predicate CommonDivisors(a: nat, b: nat, g: nat) {
    forall d: nat :: d > 0 ==> (Divides(d, a) && Divides(d, b) <==> Divides(d, g))
  }

  lemma {:induction false} DividesMod(d: nat, a: nat, b: nat)
    requires d > 0 && b > 0 && Divides(d, b)
    ensures Divides(d, a) <==> Divides(d, a % b)
  {
    if Divides(d, a) {
      var i, j, q := a / d, b / d, a / b;
      assert a == d * i && b == d * j;
      assert a == b * q + a % b;
      assert d * (j * q) == b * q;
      assert a % b == d * (i - j * q);
      assert i - j * q >= 0 by { Multiplied(d, i - j * q); }
      DividesTimes(d, i - j * q);
    }
    if Divides(d, a % b) { DividesRest(d, a, b); }
  }

  lemma CommonMod(a: nat, b: nat, g: nat)
    requires b > 0 && CommonDivisors(a % b, b, g)
    ensures CommonDivisors(a, b, g)
  {
    hide Divides;
    forall d: nat | d > 0 ensures Divides(d, a) && Divides(d, b) <==> Divides(d, g) {
      if Divides(d, b) { DividesMod(d, a, b); }
    }
  }

  lemma CommonZero(a: nat)
    ensures CommonDivisors(a, 0, a) && CommonDivisors(0, a, a)
  {
  }

  lemma CommonBack(a: nat, b: nat, a': nat, b': nat)
    requires (b > 0 && a' == a % b && b' == b) || (a > 0 && a' == a && b' == b % a)
    ensures forall g: nat :: CommonDivisors(a', b', g) ==> CommonDivisors(a, b, g)
  {
    hide Divides;
    forall g: nat | CommonDivisors(a', b', g) ensures CommonDivisors(a, b, g) {
      if b > 0 && a' == a % b && b' == b {
        CommonMod(a, b, g);
      } else {
        assert CommonDivisors(b', a', g);
        CommonMod(b, a, g);
      }
    }
  }

  /** gf16_gcd: zero if either number is, otherwise the greatest common divisor. */
  method Gcd(a0: nat, b0: nat) returns (g: nat)
    ensures a0 == 0 || b0 == 0 ==> g == 0
    ensures a0 > 0 && b0 > 0 ==> g > 0 && CommonDivisors(a0, b0, g)
  {
    hide CommonDivisors;
    if a0 == 0 || b0 == 0 { return 0; }
    var a, b := a0, b0;
    while a > 0 && b > 0
      invariant a + b > 0
      invariant forall g: nat :: CommonDivisors(a, b, g) ==> CommonDivisors(a0, b0, g)
      decreases a + b
    {
      if a > b {
        CommonBack(a, b, a % b, b);
        a := a % b;
      } else {
        CommonBack(a, b, a, b % a);
        b := b % a;
      }
    }
    CommonZero(a + b);
    g := a + b;
  }

  ghost predicate Coprime(a: nat, b: nat) {
    forall d: nat :: d > 0 && Divides(d, a) && Divides(d, b) ==> d == 1
  }

  lemma GcdOne(a: nat, b: nat, g: nat)
    requires a > 1 && (b == 0 ==> g == 0) && (b > 0 ==> g > 0 && CommonDivisors(a, b, g))
    ensures g == 1 <==> Coprime(a, b)
  {
    if b == 0 {
      assert Divides(a, a) && Divides(a, b);
    } else {
      assert Divides(g, g);
      forall d: nat | g == 1 && d > 0 && Divides(d, g) ensures d == 1 {}
    }
  }

  /** Numbers next to each other have no common divisor. */
  lemma NextCoprime()
    ensures Coprime(ORDER, 65536)
  {
    forall d: nat | d > 0 && Divides(d, ORDER) && Divides(d, 65536) ensures d == 1 {
      DividesMod(d, 65536, ORDER);
      assert 65536 % 65535 == 1;
    }
  }

  /** gf16_next_base: the power of x with the next exponent prime to 65535. */
  method NextBase(t: Tables, state: nat) returns (ok: bool, base: Elem, state': nat)
    requires t.Ready() && state <= 65535
    ensures ok <==> exists l: nat :: state <= l < ORDER && Coprime(ORDER, l)
    ensures ok ==> state < state' <= ORDER && Coprime(ORDER, state' - 1) && base == XPow(state' - 1)
    ensures ok ==> forall l: nat :: state <= l < state' - 1 ==> !Coprime(ORDER, l)
    ensures !ok ==> state' == state
  {
    hide XPow, Coprime, CommonDivisors;
    var logbase := state;
    NextCoprime();
    var g := Gcd(ORDER, logbase);
    GcdOne(ORDER, logbase, g);
    while g != 1
      invariant state <= logbase <= 65536 && (g == 1 <==> Coprime(ORDER, logbase))
      invariant forall l: nat :: state <= l < logbase ==> !Coprime(ORDER, l)
      decreases 65536 - logbase
    {
      logbase := logbase + 1;
      g := Gcd(ORDER, logbase);
      GcdOne(ORDER, logbase, g);
    }
    if logbase >= ORDER { return false, 0, state; }
    ok, base, state' := true, t.antilog[logbase], logbase + 1;
  }

  /** The exponents below `end` that have no common divisor with 65535, in order. */
  ghost predicate Exponents(logs: seq<nat>, end: nat) {
    && (forall k :: 0 <= k < |logs| ==> logs[k] < end && Coprime(ORDER, logs[k]))
    && (forall k, m :: 0 <= k < m < |logs| ==> logs[k] < logs[m])
    && (forall l: nat :: l < end && Coprime(ORDER, l) ==> l in logs)
  }

  lemma ExponentsMore(logs: seq<nat>, end: nat, l: nat)
    requires Exponents(logs, end) && end <= l && Coprime(ORDER, l)
    requires forall x: nat :: end <= x < l ==> !Coprime(ORDER, x)
    ensures Exponents(logs + [l], l + 1)
  {
    hide Coprime;
    forall x: nat | x < l + 1 && Coprime(ORDER, x) ensures x in logs + [l] {
      if x < end { assert x in logs; }
    }
  }

  /** All exponents are found when no further one is below 65535. */
  lemma ExponentsEnd(logs: seq<nat>, end: nat)
    requires Exponents(logs, end) && end <= ORDER && forall l: nat :: end <= l < ORDER ==> !Coprime(ORDER, l)
    ensures Exponents(logs, ORDER)
  {
    hide Coprime;
  }

  /** The bases of all blocks of a set: the powers of x with the first exponents prime to 65535,
      so no two are equal and none is zero. There are too many blocks exactly if there are more
      than such exponents. */
  method AssignBases(t: Tables, total: nat) returns (ok: bool, database: Vec, ghost logs: seq<nat>)
    requires t.Ready()
    ensures exists end: nat :: end <= ORDER && Exponents(logs, end)
    ensures ok ==> |logs| == total
    ensures !ok ==> |logs| < total && Exponents(logs, ORDER)
    ensures |database| == |logs| && forall k :: 0 <= k < |logs| ==> database[k] == XPow(logs[k])
    ensures Distinct(database) && 0 !in database
  {
    hide XPow, Coprime;
    var state: nat := 0;
    logs := [];
    database := [];
    ok := true;
    var i := 0;
    while i < total && ok
      invariant i <= total && |database| == |logs| && state <= ORDER && Exponents(logs, state)
      invariant (ok ==> |logs| == i) && (!ok ==> |logs| < total && Exponents(logs, ORDER))
      invariant forall k :: 0 <= k < |logs| ==> database[k] == XPow(logs[k])
      decreases total - i, ok
    {
      var base;
      ghost var was := state;
      ok, base, state := NextBase(t, state);
      if ok {
        ExponentsMore(logs, was, state - 1);
        database := database + [base];
        logs := logs + [state - 1];
        i := i + 1;
      } else {
        ExponentsEnd(logs, was);
      }
    }
    forall k | 0 <= k < |logs| ensures database[k] != 0 { XPowNonzero(logs[k]); }
    forall k, m | 0 <= k < m < |logs| ensures database[k] != database[m] { XPowDifferent(logs[k], logs[m]); }
  }

  // ----- accumulation -----

  /** Sixteen bits, the lower byte first. */
  function Word(lo: bv8, hi: bv8): Elem { (lo as bv16) | ((hi as bv16) << 8) }

  function Low(w: Elem): bv8 { (w & 0xff) as bv8 }

  function High(w: Elem): bv8 { (w >> 8) as bv8 }

  lemma WordBytes(w: Elem)
    ensures Word(Low(w), High(w)) == w
  {
  }

  lemma WordUp(lo: bv8, hi: bv8)
    requires hi != 0
    ensures Word(lo, Less(hi)) < 0xff00 && Word(lo, hi) == Plus16(Word(lo, Less(hi)))
  {
  }

  lemma WordLow(lo: bv8)
    ensures Num16(Word(lo, 0)) == Num8(lo)
  {
  }

  /** The first byte counts once, the second 256 times. */
  lemma {:induction false} WordNumber(lo: bv8, hi: bv8)
    ensures Num16(Word(lo, hi)) == Num8(lo) + 256 * Num8(hi)
    decreases Num8(hi)
  {
    hide Word, Num8, Num16, Less, Plus16;
    if hi == 0 {
      WordLow(lo);
      ZeroNum();
    } else {
      LessNum(hi);
      WordNumber(lo, Less(hi));
      WordUp(lo, hi);
      Plus16Num(Word(lo, Less(hi)));
    }
  }

  lemma BytesNumber(w: Elem)
    ensures Num8(Low(w)) == Num16(w) % 256 && Num8(High(w)) == Num16(w) / 256
  {
    hide Word, Low, High, Num16;
    WordBytes(w);
    WordNumber(Low(w), High(w));
  }

  /** The number that bytes 2i and 2i + 1 of a buffer make, the first one lower. */
  function NumberAt(b: array<bv8>, i: nat): nat
    requires 2 * i + 1 < b.Length
    reads b
  {
    Num8(b[2 * i]) + 256 * Num8(b[2 * i + 1])
  }

  /** In numbers: the bytes of the destination are those of its old number and the product. */
  ghost predicate Gained(before: nat, src: nat, factor: Elem, after: nat) {
    forall d: Elem, s: Elem :: Num16(d) == before && Num16(s) == src ==> after == Num16(Add(d, Mul(s, factor)))
  }

  lemma NumberOnce(w: Elem, v: Elem)
    requires Num16(w) == Num16(v)
    ensures w == v
  {
    hide Num8, Num16, Low, High, Word;
    BytesNumber(w);
    BytesNumber(v);
    Num8Once(Low(w), Low(v));
    Num8Once(High(w), High(v));
    WordBytes(w);
    WordBytes(v);
  }

  lemma GainedWord(d: Elem, s: Elem, factor: Elem, after: Elem)
    requires after == Add(d, Mul(s, factor))
    ensures Gained(Num16(d), Num16(s), factor, Num16(after))
  {
    hide Num16, Add, Mul;
    forall d': Elem, s': Elem | Num16(d') == Num16(d) && Num16(s') == Num16(s)
      ensures Num16(after) == Num16(Add(d', Mul(s', factor)))
    {
      NumberOnce(d', d);
      NumberOnce(s', s);
    }
  }

  /** Word `i` of a buffer. */
  function WordAt(b: array<bv8>, i: nat): Elem
    requires 2 * i + 1 < b.Length
    reads b
  {
    Word(b[2 * i], b[2 * i + 1])
  }

  /** gf16_mul_acc: every word of `src`, times the factor, is added to the word of `dst`. The
      last word is a whole one even if the length is odd. */
  method MulAcc(t: Tables, dst: array<bv8>, src: array<bv8>, len: nat, factor: Elem)
    requires t.Ready() && dst != src && len + len % 2 <= dst.Length && len + len % 2 <= src.Length
    modifies dst
    ensures forall i: nat :: 2 * i < len ==> WordAt(dst, i) == Add(old(WordAt(dst, i)), Mul(WordAt(src, i), factor))
    ensures forall i :: len + len % 2 <= i < dst.Length ==> dst[i] == old(dst[i])
    ensures forall i: nat :: 2 * i < len ==> Gained(old(NumberAt(dst, i)), NumberAt(src, i), factor, NumberAt(dst, i))
  {
    AddWords(t, dst, src, len, factor);
    hide Mul, Add, Word, Num8, Num16, Gained, t.Ready;
    forall i: nat | 2 * i < len ensures Gained(old(NumberAt(dst, i)), NumberAt(src, i), factor, NumberAt(dst, i)) {
      GainedWord(old(WordAt(dst, i)), WordAt(src, i), factor, WordAt(dst, i));
      WordNumber(old(dst[2 * i]), old(dst[2 * i + 1]));
      WordNumber(src[2 * i], src[2 * i + 1]);
      WordNumber(dst[2 * i], dst[2 * i + 1]);
    }
  }

  /** The loop of gf16_mul_acc. */
  method AddWords(t: Tables, dst: array<bv8>, src: array<bv8>, len: nat, factor: Elem)
    requires t.Ready() && dst != src && len + len % 2 <= dst.Length && len + len % 2 <= src.Length
    modifies dst
    ensures forall i: nat :: 2 * i < len ==> WordAt(dst, i) == Add(old(WordAt(dst, i)), Mul(WordAt(src, i), factor))
    ensures forall i :: len + len % 2 <= i < dst.Length ==> dst[i] == old(dst[i])
  {
    hide Mul, Add, Word, Low, High, t.Ready;
    if factor == 0 {
      forall i: nat | 2 * i < len ensures Add(WordAt(dst, i), Mul(WordAt(src, i), 0)) == WordAt(dst, i) {
        MulZero(WordAt(src, i));
        AddZero(WordAt(dst, i));
      }
      return;
    }
    var i: nat := 0;
    while 2 * i < len
      invariant 2 * i <= len + len % 2
      invariant forall k: nat :: k < i ==> WordAt(dst, k) == Add(old(WordAt(dst, k)), Mul(WordAt(src, k), factor))
      invariant forall k :: 2 * i <= k < dst.Length ==> dst[k] == old(dst[k])
    {
      var sv, dv := Word(src[2 * i], src[2 * i + 1]), Word(dst[2 * i], dst[2 * i + 1]);
      var y := t.Times(sv, factor);
      var out := Add(dv, y);
      WordBytes(out);
      dst[2 * i], dst[2 * i + 1] := Low(out), High(out);
      i := i + 1;
    }
  }

  // ----- present and missing blocks -----

  /** The entries up to `n` of the blocks that are present, or missing. */
  function Pick<T>(v: seq<T>, present: seq<bool>, keep: bool, n: nat): seq<T>
    requires n <= |v| == |present|
  {
    if n == 0 then []
    else if present[n - 1] == keep then Pick(v, present, keep, n - 1) + [v[n - 1]]
    else Pick(v, present, keep, n - 1)
  }

  lemma {:induction false} PickSize<T, U>(v: seq<T>, u: seq<U>, present: seq<bool>, keep: bool, n: nat)
    requires n <= |v| == |u| == |present|
    ensures |Pick(v, present, keep, n)| == |Pick(u, present, keep, n)|
  {
    if n > 0 { PickSize(v, u, present, keep, n - 1); }
  }

  lemma {:induction false} PickPowers(b: Vec, e: nat, present: seq<bool>, keep: bool, n: nat)
    requires n <= |b| == |present|
    ensures Pick(ReedSolomon.Powers(b, e), present, keep, n) == ReedSolomon.Powers(Pick(b, present, keep, n), e)
  {
    hide Pow;
    if n > 0 { PickPowers(b, e, present, keep, n - 1); }
  }

  lemma DotSnoc(a: Vec, b: Vec, x: Elem, y: Elem)
    requires |a| == |b|
    ensures Dot(a + [x], b + [y]) == Add(Dot(a, b), Mul(x, y))
  {
    hide Mul, Add;
    DotPrefix(a, [x], b, [y], |a|);
  }

  /** A sum over all blocks is the sum over the present ones and that over the missing ones. */
  lemma {:induction false} DotParts(a: Vec, b: Vec, present: seq<bool>, n: nat)
    requires n <= |a| == |b| == |present|
    ensures |Pick(a, present, true, n)| == |Pick(b, present, true, n)|
    ensures |Pick(a, present, false, n)| == |Pick(b, present, false, n)|
    ensures DotN(a, b, n) == Add(Dot(Pick(a, present, true, n), Pick(b, present, true, n)),
                                 Dot(Pick(a, present, false, n), Pick(b, present, false, n)))
    decreases n
  {
    hide Mul, Add, Dot;
    PickSize(a, b, present, true, n);
    PickSize(a, b, present, false, n);
    if n == 0 {
      AddZero(0);
      DotNone();
    } else {
      DotParts(a, b, present, n - 1);
      var k := present[n - 1];
      var x, y := Pick(a, present, k, n - 1), Pick(b, present, k, n - 1);
      var x', y' := Pick(a, present, !k, n - 1), Pick(b, present, !k, n - 1);
      PickSize(a, b, present, k, n - 1);
      PickSize(a, b, present, !k, n - 1);
      var p := Mul(a[n - 1], b[n - 1]);
      DotSnoc(x, y, a[n - 1], b[n - 1]);
      AddComm(Dot(x, y), Dot(x', y'));
      AddAssoc(Dot(x', y'), Dot(x, y), p);
      AddComm(Dot(x', y'), Add(Dot(x, y), p));
    }
  }

  lemma DotNone()
    ensures Dot([], []) == 0
  {
  }

  lemma {:induction false} PickSame<T>(v: seq<T>, u: seq<T>, present: seq<bool>, n: nat)
    requires n <= |v| == |u| == |present| && forall i :: 0 <= i < n && present[i] ==> v[i] == u[i]
    ensures Pick(v, present, true, n) == Pick(u, present, true, n)
  {
    if n > 0 { PickSame(v, u, present, n - 1); }
  }

  /** The loop that sorts the blocks into present and missing ones. */
  method Sort<T>(v: seq<T>, present: seq<bool>) returns (p: seq<T>, m: seq<T>)
    requires |v| == |present|
    ensures p == Pick(v, present, true, |v|) && m == Pick(v, present, false, |v|)
  {
    p, m := [], [];
    var i := 0;
    while i < |v|
      invariant i <= |v| && p == Pick(v, present, true, i) && m == Pick(v, present, false, i)
    {
      if present[i] { p := p + [v[i]]; } else { m := m + [v[i]]; }
      i := i + 1;
    }
  }

  // ----- whole blocks -----

  type Block = seq<bv8>

  predicate AllSize(bs: seq<Block>, size: nat) { forall c :: 0 <= c < |bs| ==> |bs[c]| == size }

  /** Word `i` of every block. */
  function Column(bs: seq<Block>, size: nat, i: nat): (v: Vec)
    requires AllSize(bs, size) && 2 * i + 1 < size
    ensures |v| == |bs|
  {
    seq(|bs|, c requires 0 <= c < |bs| => Word(bs[c][2 * i], bs[c][2 * i + 1]))
  }

  /** Buffers of their own, and one for input, that hold a chunk. */
  predicate Buffers(outs: seq<array<bv8>>, inbuf: array<bv8>, len: nat) {
    && inbuf.Length >= len && (forall k :: 0 <= k < |outs| ==> outs[k].Length >= len && outs[k] != inbuf)
    && forall k, m :: 0 <= k < m < |outs| ==> outs[k] != outs[m]
  }

  /** What the buffers hold after `n` columns. */
  ghost predicate Summed(rows: Mat, outs: seq<array<bv8>>, cols: seq<Vec>, len: nat, n: nat)
    requires 2 * |cols| == len && (forall k :: 0 <= k < |outs| ==> outs[k].Length >= len)
    requires |rows| == |outs| && (forall k :: 0 <= k < |rows| ==> n <= |rows[k]|)
    requires forall i :: 0 <= i < |cols| ==> n <= |cols[i]|
    reads outs
  {
    forall k, i :: 0 <= k < |outs| && 0 <= i < |cols| ==> WordAt(outs[k], i) == DotN(rows[k], cols[i], n)
  }

  /** An input buffer goes into the buffer of one missing block, with its coefficient. */
  method AddRow(t: Tables, out: array<bv8>, inbuf: array<bv8>, len: nat, factor: Elem, ghost row: Vec, ghost cols: seq<Vec>,
                ghost col: nat)
    requires t.Ready() && out != inbuf && out.Length >= len && inbuf.Length >= len && 2 * |cols| == len
    requires col < |row| && row[col] == factor && (forall i :: 0 <= i < |cols| ==> col < |cols[i]|)
    requires forall i :: 0 <= i < |cols| ==> WordAt(inbuf, i) == cols[i][col]
    requires forall i :: 0 <= i < |cols| ==> WordAt(out, i) == DotN(row, cols[i], col)
    modifies out
    ensures forall i :: 0 <= i < |cols| ==> WordAt(out, i) == DotN(row, cols[i], col + 1)
  {
    hide Mul, Add, Word, t.Ready;
    forall i | 0 <= i < |cols| ensures DotN(row, cols[i], col + 1) == Add(DotN(row, cols[i], col), Mul(cols[i][col], factor)) {
      MulComm(cols[i][col], factor);
    }
    if factor != 0 {
      MulAcc(t, out, inbuf, len, factor);
    } else {
      forall i | 0 <= i < |cols| ensures DotN(row, cols[i], col + 1) == DotN(row, cols[i], col) {
        MulZero(cols[i][col]);
        AddZero(DotN(row, cols[i], col));
      }
    }
  }

  /** One input buffer goes into the buffer of every missing block. */
  method AddColumn(t: Tables, coeffs: array2<Elem>, outs: seq<array<bv8>>, inbuf: array<bv8>, len: nat, col: nat,
                   ghost cols: seq<Vec>)
    requires t.Ready() && Buffers(outs, inbuf, len) && |outs| == coeffs.Length0 && col < coeffs.Length1
    requires 2 * |cols| == len && (forall i :: 0 <= i < |cols| ==> |cols[i]| == coeffs.Length1)
    requires forall i :: 0 <= i < |cols| ==> WordAt(inbuf, i) == cols[i][col]
    requires Summed(Rows(coeffs), outs, cols, len, col)
    modifies outs
    ensures Summed(Rows(coeffs), outs, cols, len, col + 1)
  {
    hide DotN, Word, t.Ready;
    ghost var rows := Rows(coeffs);
    var row := 0;
    while row < coeffs.Length0
      invariant 0 <= row <= coeffs.Length0 && t.Ready() && Rows(coeffs) == rows
      invariant forall i :: 0 <= i < |cols| ==> WordAt(inbuf, i) == cols[i][col]
      invariant forall k, i :: 0 <= k < row && 0 <= i < |cols| ==> WordAt(outs[k], i) == DotN(rows[k], cols[i], col + 1)
      invariant forall k, i :: row <= k < |outs| && 0 <= i < |cols| ==> WordAt(outs[k], i) == DotN(rows[k], cols[i], col)
    {
      AddRow(t, outs[row], inbuf, len, coeffs[row, col], rows[row], cols, col);
      row := row + 1;
    }
  }

  /** memset of all buffers. */
  method Clear(outs: seq<array<bv8>>, inbuf: array<bv8>, len: nat)
    requires Buffers(outs, inbuf, len)
    modifies outs
    ensures forall k, i :: 0 <= k < |outs| && 0 <= i < len ==> outs[k][i] == 0
  {
    var row := 0;
    while row < |outs|
      invariant 0 <= row <= |outs|
      invariant forall k, i :: 0 <= k < row && 0 <= i < len ==> outs[k][i] == 0
    {
      var out := outs[row];
      forall i | 0 <= i < len { out[i] := 0; }
      row := row + 1;
    }
  }

  /** The columns of a chunk. */
  function Columns(bs: seq<Block>, size: nat, off: nat, len: nat): (cols: seq<Vec>)
    requires AllSize(bs, size) && off + len <= size && off % 2 == 0 && len % 2 == 0
    ensures 2 * |cols| == len && forall i :: 0 <= i < |cols| ==> cols[i] == Column(bs, size, off / 2 + i)
  {
    seq(len / 2, i requires 0 <= i < len / 2 => Column(bs, size, off / 2 + i))
  }

  /** A chunk of an input block, read into the buffer. */
  method ReadChunk(inbuf: array<bv8>, inputs: seq<Block>, size: nat, off: nat, len: nat, col: nat)
    requires AllSize(inputs, size) && off + len <= size && off % 2 == 0 && len % 2 == 0
    requires col < |inputs| && len <= inbuf.Length
    modifies inbuf
    ensures var cols := Columns(inputs, size, off, len);
      forall i :: 0 <= i < |cols| ==> WordAt(inbuf, i) == cols[i][col]
  {
    hide Word;
    var b := inputs[col];
    forall i | 0 <= i < len { inbuf[i] := b[off + i]; }
    ghost var cols := Columns(inputs, size, off, len);
    forall i | 0 <= i < |cols| ensures WordAt(inbuf, i) == cols[i][col] {
      assert off + 2 * i == 2 * (off / 2 + i);
    }
  }

  lemma ZeroWord()
    ensures Word(0, 0) == 0
  {
  }

  lemma SummedNone(rows: Mat, outs: seq<array<bv8>>, cols: seq<Vec>, len: nat)
    requires 2 * |cols| == len && (forall k :: 0 <= k < |outs| ==> outs[k].Length >= len) && |rows| == |outs|
    requires forall k, i :: 0 <= k < |outs| && 0 <= i < len ==> outs[k][i] == 0
    ensures Summed(rows, outs, cols, len, 0)
  {
    ZeroWord();
    hide Word;
  }

  /** A chunk of the missing blocks: the rows of coefficients times the inputs. */
  method Accumulate(t: Tables, coeffs: array2<Elem>, inputs: seq<Block>, size: nat, off: nat, len: nat,
                    outs: seq<array<bv8>>, inbuf: array<bv8>)
    requires t.Ready() && Buffers(outs, inbuf, len) && |outs| == coeffs.Length0 && |inputs| == coeffs.Length1
    requires AllSize(inputs, size) && off + len <= size && off % 2 == 0 && len % 2 == 0
    modifies outs, inbuf
    ensures t.Ready() && Rows(coeffs) == old(Rows(coeffs))
    ensures Summed(Rows(coeffs), outs, Columns(inputs, size, off, len), len, |inputs|)
  {
    hide WordAt, t.Ready, DotN, Columns, Summed;
    ghost var cols := Columns(inputs, size, off, len);
    ghost var rows := Rows(coeffs);
    Clear(outs, inbuf, len);
    SummedNone(rows, outs, cols, len);
    var col := 0;
    while col < coeffs.Length1
      invariant 0 <= col <= coeffs.Length1 && t.Ready() && Rows(coeffs) == rows && Summed(rows, outs, cols, len, col)
    {
      ReadChunk(inbuf, inputs, size, off, len, col);
      AddColumn(t, coeffs, outs, inbuf, len, col, cols);
      col := col + 1;
    }
  }

  /** The chunk of every buffer, put at the end of what there is of the block. */
  method Save(blocks: seq<Block>, outs: seq<array<bv8>>, len: nat) returns (r: seq<Block>)
    requires |blocks| == |outs| && forall k :: 0 <= k < |outs| ==> outs[k].Length >= len
    ensures |r| == |blocks| && forall k :: 0 <= k < |r| ==> r[k] == blocks[k] + outs[k][..len]
  {
    r := [];
    var row := 0;
    while row < |outs|
      invariant 0 <= row <= |outs| && |r| == row && forall k :: 0 <= k < row ==> r[k] == blocks[k] + outs[k][..len]
    {
      r := r + [blocks[row] + outs[row][..len]];
      row := row + 1;
    }
  }

  /** The words of the blocks up to `size` are the rows times the inputs. */
  ghost predicate Rebuilt(rows: Mat, blocks: seq<Block>, inputs: seq<Block>, whole: nat, size: nat)
    requires AllSize(inputs, whole) && size <= whole && |rows| == |blocks|
    requires forall k :: 0 <= k < |rows| ==> |rows[k]| == |inputs|
  {
    AllSize(blocks, size) && forall k, i :: 0 <= k < |blocks| && 0 <= i && 2 * i + 1 < size ==>
      Word(blocks[k][2 * i], blocks[k][2 * i + 1]) == Dot(rows[k], Column(inputs, whole, i))
  }

  lemma RebuiltMore(rows: Mat, blocks: seq<Block>, more: seq<Block>, outs: seq<array<bv8>>, inputs: seq<Block>,
                    whole: nat, off: nat, len: nat)
    requires AllSize(inputs, whole) && off + len <= whole && off % 2 == 0 && len % 2 == 0
    requires |rows| == |blocks| == |more| == |outs| && (forall k :: 0 <= k < |rows| ==> |rows[k]| == |inputs|)
    requires Rebuilt(rows, blocks, inputs, whole, off)
    requires forall k :: 0 <= k < |outs| ==> outs[k].Length >= len && more[k] == blocks[k] + outs[k][..len]
    requires Summed(rows, outs, Columns(inputs, whole, off, len), len, |inputs|)
    ensures Rebuilt(rows, more, inputs, whole, off + len)
  {
    hide Word, DotN;
    var cols := Columns(inputs, whole, off, len);
    forall k, i | 0 <= k < |more| && 0 <= i && 2 * i + 1 < off + len
      ensures Word(more[k][2 * i], more[k][2 * i + 1]) == Dot(rows[k], Column(inputs, whole, i))
    {
      if 2 * i >= off {
        var j := i - off / 2;
        assert 2 * j == 2 * i - off && cols[j] == Column(inputs, whole, i);
        assert WordAt(outs[k], j) == Word(outs[k][2 * j], outs[k][2 * j + 1]);
      }
    }
  }

  /** Buffers for the missing blocks. */
  method NewBuffers(n: nat, size: nat) returns (outs: seq<array<bv8>>, inbuf: array<bv8>)
    ensures |outs| == n && Buffers(outs, inbuf, size) && fresh(inbuf) && forall k :: 0 <= k < n ==> fresh(outs[k])
  {
    inbuf := new bv8[size];
    outs := [];
    while |outs| < n
      invariant |outs| <= n && Buffers(outs, inbuf, size) && forall k :: 0 <= k < |outs| ==> fresh(outs[k])
    {
      var out := new bv8[size];
      outs := outs + [out];
    }
  }

  /** The missing blocks, chunk by chunk. */
  method Rebuild(t: Tables, coeffs: array2<Elem>, inputs: seq<Block>, size: nat, chunk: nat) returns (blocks: seq<Block>)
    requires t.Ready() && |inputs| == coeffs.Length1 && AllSize(inputs, size) && size % 2 == 0
    requires chunk > 0 && chunk % 2 == 0
    ensures |blocks| == coeffs.Length0 && Rebuilt(Rows(coeffs), blocks, inputs, size, size)
  {
    hide t.Ready, Summed, Buffers;
    var outs, inbuf := NewBuffers(coeffs.Length0, chunk);
    ghost var rows := Rows(coeffs);
    blocks := seq(coeffs.Length0, _ => []);
    var off := 0;
    while off < size
      invariant 0 <= off <= size && off % 2 == 0 && t.Ready() && Rows(coeffs) == rows && |blocks| == coeffs.Length0
      invariant Rebuilt(rows, blocks, inputs, size, off)
    {
      var len := if size - off < chunk then size - off else chunk;
      BuffersFor(outs, inbuf, chunk, len);
      Accumulate(t, coeffs, inputs, size, off, len, outs, inbuf);
      var more := Save(blocks, outs, len);
      RebuiltMore(rows, blocks, more, outs, inputs, size, off, len);
      blocks := more;
      off := off + len;
    }
  }

  lemma BuffersFor(outs: seq<array<bv8>>, inbuf: array<bv8>, chunk: nat, len: nat)
    requires Buffers(outs, inbuf, chunk) && len <= chunk
    ensures Buffers(outs, inbuf, len) && forall k :: 0 <= k < |outs| ==> outs[k].Length >= len
  {
  }

  /** The rebuilt blocks, in the places of the missing ones. */
  method Place<T>(found: seq<T>, present: seq<bool>, rebuilt: seq<T>, ghost truth: seq<T>) returns (r: seq<T>)
    requires |found| == |present| == |truth| && rebuilt == Pick(truth, present, false, |truth|)
    requires forall i :: 0 <= i < |found| && present[i] ==> found[i] == truth[i]
    ensures r == truth
  {
    r := [];
    var i, k := 0, 0;
    while i < |found|
      invariant 0 <= i <= |found| && r == truth[..i] && k == |Pick(truth, present, false, i)|
    {
      PickPrefix(truth, present, i + 1);
      if present[i] {
        r := r + [found[i]];
      } else {
        r := r + [rebuilt[k]];
        k := k + 1;
      }
      i := i + 1;
    }
  }

  lemma {:induction false} PickPrefix<T>(v: seq<T>, present: seq<bool>, n: nat)
    requires n <= |v| == |present|
    ensures var a, b := Pick(v, present, false, n), Pick(v, present, false, |v|); |a| <= |b| && b[..|a|] == a
    decreases |v| - n
  {
    if n < |v| { PickPrefix(v, present, n + 1); }
  }

  datatype Repaired = NotSolvable | Done(blocks: seq<Block>)

  /** A recovery slice, as it was made from all blocks. */
  function Slice(database: Vec, e: nat, truth: Vec): Elem
    requires |database| == |truth|
  {
    Dot(ReedSolomon.Powers(database, e), truth)
  }

  lemma SliceParts(database: Vec, e: nat, truth: Vec, present: seq<bool>)
    requires |database| == |truth| == |present|
    ensures var pb, mb := Pick(database, present, true, |truth|), Pick(database, present, false, |truth|);
      var p, m := Pick(truth, present, true, |truth|), Pick(truth, present, false, |truth|);
      |p| == |pb| && |m| == |mb| && Slice(database, e, truth) == Recovery(pb, mb, p, m, e)
  {
    hide Pow, Add, DotN;
    DotParts(ReedSolomon.Powers(database, e), truth, present, |truth|);
    PickPowers(database, e, present, true, |truth|);
    PickPowers(database, e, present, false, |truth|);
  }

  /** A recovery block, as it was made from all blocks, word by word. */
  ghost predicate Sliced(database: Vec, e: nat, truth: seq<Block>, size: nat, b: Block)
    requires |database| == |truth| && AllSize(truth, size) && |b| == size
  {
    forall i :: 0 <= i && 2 * i + 1 < size ==> Word(b[2 * i], b[2 * i + 1]) == Slice(database, e, Column(truth, size, i))
  }

  lemma {:induction false} PickColumn(bs: seq<Block>, size: nat, i: nat, present: seq<bool>, keep: bool, n: nat)
    requires n <= |bs| == |present| && AllSize(bs, size) && 2 * i + 1 < size
    ensures AllSize(Pick(bs, present, keep, n), size)
    ensures Pick(Column(bs, size, i), present, keep, n) == Column(Pick(bs, present, keep, n), size, i)
  {
    hide Word;
    if n > 0 { PickColumn(bs, size, i, present, keep, n - 1); }
  }

  lemma {:induction false} PickAllSize(bs: seq<Block>, size: nat, present: seq<bool>, keep: bool, n: nat)
    requires n <= |bs| == |present| && AllSize(bs, size)
    ensures AllSize(Pick(bs, present, keep, n), size)
  {
    if n > 0 { PickAllSize(bs, size, present, keep, n - 1); }
  }

  lemma WordOnce(a: bv8, b: bv8, c: bv8, d: bv8)
    requires Word(a, b) == Word(c, d)
    ensures a == c && b == d
  {
    BytesWord(a, b);
    BytesWord(c, d);
  }

  lemma BytesWord(a: bv8, b: bv8)
    ensures Low(Word(a, b)) == a && High(Word(a, b)) == b
  {
  }

  /** Blocks with the same words are the same. */
  lemma SameWords(a: seq<Block>, b: seq<Block>, size: nat)
    requires |a| == |b| && AllSize(a, size) && AllSize(b, size) && size % 2 == 0
    requires forall i :: 0 <= i && 2 * i + 1 < size ==> Column(a, size, i) == Column(b, size, i)
    ensures a == b
  {
    hide Word;
    forall k | 0 <= k < |a| ensures a[k] == b[k] {
      forall j | 0 <= j < size ensures a[k][j] == b[k][j] {
        var i := j / 2;
        assert Column(a, size, i)[k] == Column(b, size, i)[k];
        WordOnce(a[k][2 * i], a[k][2 * i + 1], b[k][2 * i], b[k][2 * i + 1]);
      }
    }
  }

  lemma ColumnCat(a: seq<Block>, b: seq<Block>, size: nat, i: nat)
    requires AllSize(a, size) && AllSize(b, size) && AllSize(a + b, size) && 2 * i + 1 < size
    ensures Column(a + b, size, i) == Column(a, size, i) + Column(b, size, i)
  {
    hide Word;
  }

  /** Word `i` of the recovery blocks, from the words of the present and the missing blocks. */
  lemma RecoveryColumn(database: Vec, present: seq<bool>, exps: seq<nat>, truth: seq<Block>, recovery: seq<Block>,
                       size: nat, i: nat)
    requires |database| == |present| == |truth| && |exps| == |recovery| && AllSize(truth, size) && 2 * i + 1 < size
    requires AllSize(recovery, size) && forall j :: 0 <= j < |exps| ==> Sliced(database, exps[j], truth, size, recovery[j])
    ensures var n, col := |truth|, Column(truth, size, i);
      var pb, mb := Pick(database, present, true, n), Pick(database, present, false, n);
      var p, m := Pick(col, present, true, n), Pick(col, present, false, n);
      && |p| == |pb| && |m| == |mb| && Column(recovery, size, i) == Recoveries(pb, mb, p, m, exps)
  {
    hide Word, Slice, Recovery, Dot, Pick;
    var n, col := |truth|, Column(truth, size, i);
    var pb, mb := Pick(database, present, true, n), Pick(database, present, false, n);
    var p, m := Pick(col, present, true, n), Pick(col, present, false, n);
    PickSize(database, col, present, true, n);
    PickSize(database, col, present, false, n);
    forall j | 0 <= j < |exps| ensures Column(recovery, size, i)[j] == Recovery(pb, mb, p, m, exps[j]) {
      SliceParts(database, exps[j], col, present);
      assert Sliced(database, exps[j], truth, size, recovery[j]);
    }
  }

  /** The equations, for word `i` of every block, give the words that were lost. */
  lemma WordRebuilt(rows: Mat, database: Vec, present: seq<bool>, exps: seq<nat>, truth: seq<Block>, recovery: seq<Block>,
                    rebuilt: seq<Block>, size: nat, i: nat)
    requires |database| == |present| == |truth| && |exps| == |recovery| && AllSize(truth, size)
    requires AllSize(recovery, size) && forall j :: 0 <= j < |exps| ==> Sliced(database, exps[j], truth, size, recovery[j])
    requires var pb, mb := Pick(database, present, true, |truth|), Pick(database, present, false, |truth|);
      && |exps| == |mb| && Shape(rows, |mb|, |pb| + |mb|) && Rebuilds(rows, pb, mb, exps)
    requires |rebuilt| == |rows| && 2 * i + 1 < size
    requires AllSize(Pick(truth, present, true, |truth|) + recovery, size)
    requires forall k :: 0 <= k < |rows| ==> |rows[k]| == |Pick(truth, present, true, |truth|) + recovery|
    requires Rebuilt(rows, rebuilt, Pick(truth, present, true, |truth|) + recovery, size, size)
    ensures AllSize(Pick(truth, present, false, |truth|), size)
    ensures Column(rebuilt, size, i) == Column(Pick(truth, present, false, |truth|), size, i)
  {
    hide Word, Rebuilds, Slice, Recovery, Dot, Pick;
    var n, col := |truth|, Column(truth, size, i);
    var pb, mb := Pick(database, present, true, n), Pick(database, present, false, n);
    var p, m := Pick(col, present, true, n), Pick(col, present, false, n);
    PickColumn(truth, size, i, present, true, n);
    PickColumn(truth, size, i, present, false, n);
    PickSize(database, col, present, true, n);
    PickSize(database, col, present, false, n);
    RecoveryColumn(database, present, exps, truth, recovery, size, i);
    ColumnCat(Pick(truth, present, true, n), recovery, size, i);
    RebuildsOne(rows, pb, mb, exps, p, m);
  }

  /** par2_repair_set, from the blocks found to the blocks written: the set is repaired exactly
      if every leading block of the equations is regular, and then the blocks are those that
      were lost, byte by byte, whatever the size of the chunks. */
  method RepairBlocks(t: Tables, database: Vec, present: seq<bool>, found: seq<Block>, exps: seq<nat>,
                      recovery: seq<Block>, size: nat, chunk: nat, ghost truth: seq<Block>) returns (r: Repaired)
    requires t.Ready() && |database| == |present| == |found| == |truth| && AllSize(found, size) && AllSize(truth, size)
    requires forall i :: 0 <= i < |found| && present[i] ==> found[i] == truth[i]
    requires |exps| == |recovery| == |Pick(database, present, false, |database|)| && AllSize(recovery, size)
    requires forall j :: 0 <= j < |exps| ==> exps[j] < 65536 && Sliced(database, exps[j], truth, size, recovery[j])
    requires size % 2 == 0 && chunk > 0 && chunk % 2 == 0
    ensures var mb := Pick(database, present, false, |database|); r.Done? <==> Leading(Vandermonde(mb, exps), |mb|)
    ensures r.Done? ==> r.blocks == truth
  {
    hide Rebuilds, Leading, t.Ready, Pick, Sliced, Rebuilt, AllSize;
    ghost var n := |truth|;
    var pb, mb := Sort(database, present);
    var p, _ := Sort(found, present);
    PickSame(found, truth, present, n);
    PickSize(database, truth, present, true, n);
    PickSize(database, truth, present, false, n);
    var coeffs := new Elem[|mb|, |pb| + |mb|]((i, j) => 0);
    var ok := Solve(t, pb, mb, exps, coeffs);
    if !ok { return NotSolvable; }
    InputsSize(truth, size, present, recovery);
    var rebuilt := Rebuild(t, coeffs, p + recovery, size, chunk);
    AllRebuilt(Rows(coeffs), database, present, exps, truth, recovery, rebuilt, size);
    var whole := Place(found, present, rebuilt, truth);
    r := Done(whole);
  }

  lemma InputsSize(truth: seq<Block>, size: nat, present: seq<bool>, recovery: seq<Block>)
    requires |truth| == |present| && AllSize(truth, size) && AllSize(recovery, size)
    ensures AllSize(Pick(truth, present, true, |truth|) + recovery, size)
  {
    PickAllSize(truth, size, present, true, |truth|);
  }

  lemma AllRebuilt(rows: Mat, database: Vec, present: seq<bool>, exps: seq<nat>, truth: seq<Block>, recovery: seq<Block>,
                   rebuilt: seq<Block>, size: nat)
    requires |database| == |present| == |truth| && |exps| == |recovery| && AllSize(truth, size)
    requires AllSize(recovery, size) && forall j :: 0 <= j < |exps| ==> Sliced(database, exps[j], truth, size, recovery[j])
    requires var pb, mb := Pick(database, present, true, |truth|), Pick(database, present, false, |truth|);
      && |exps| == |mb| && Shape(rows, |mb|, |pb| + |mb|) && Rebuilds(rows, pb, mb, exps)
    requires |rebuilt| == |rows| && size % 2 == 0
    requires AllSize(Pick(truth, present, true, |truth|) + recovery, size)
    requires forall k :: 0 <= k < |rows| ==> |rows[k]| == |Pick(truth, present, true, |truth|) + recovery|
    requires Rebuilt(rows, rebuilt, Pick(truth, present, true, |truth|) + recovery, size, size)
    ensures rebuilt == Pick(truth, present, false, |truth|)
  {
    hide Rebuilds, Pick, Sliced;
    var m := Pick(truth, present, false, |truth|);
    PickAllSize(truth, size, present, false, |truth|);
    PickSize(database, truth, present, false, |truth|);
    forall i | 0 <= i && 2 * i + 1 < size ensures Column(rebuilt, size, i) == Column(m, size, i) {
      WordRebuilt(rows, database, present, exps, truth, recovery, rebuilt, size, i);
    }
    SameWords(rebuilt, m, size);
  }

  lemma RebuildsOne(coeffs: Mat, pb: Vec, mb: Vec, exps: seq<nat>, present: Vec, missing: Vec)
    requires |exps| == |mb| && Shape(coeffs, |mb|, |pb| + |mb|) && Rebuilds(coeffs, pb, mb, exps)
    requires |present| == |pb| && |missing| == |mb|
    ensures forall k :: 0 <= k < |mb| ==> Dot(coeffs[k], present + Recoveries(pb, mb, present, missing, exps)) == missing[k]
  {
    hide Dot, Recovery;
  }

  /** The bases of the missing blocks are different and not zero, like those of all blocks. */
  lemma {:induction false} PickDistinct(b: Vec, present: seq<bool>, n: nat)
    requires n <= |b| == |present| && Distinct(b) && 0 !in b
    ensures var p := Pick(b, present, false, n);
      Distinct(p) && 0 !in p && forall k :: 0 <= k < |p| ==> Among(b, n, p[k])
  {
    if n > 0 {
      PickDistinct(b, present, n - 1);
      var q, p := Pick(b, present, false, n - 1), Pick(b, present, false, n);
      forall k | 0 <= k < |q| ensures q[k] != b[n - 1] && Among(b, n, q[k]) {
        var i :| 0 <= i < n - 1 && b[i] == q[k];
      }
      assert Among(b, n, b[n - 1]);
      assert |p| > |q| ==> p == q + [b[n - 1]];
    }
  }

  predicate Among(b: Vec, n: nat, x: Elem) requires n <= |b| { exists i :: 0 <= i < n && b[i] == x }

  /** With consecutive recovery slices a repair never fails. */
  lemma ConsecutiveRepairs(database: Vec, present: seq<bool>, exps: seq<nat>, s: nat)
    requires |database| == |present| && Distinct(database) && 0 !in database && Consecutive(exps, s)
    requires |exps| == |Pick(database, present, false, |database|)|
    ensures var mb := Pick(database, present, false, |database|); Leading(Vandermonde(mb, exps), |mb|)
  {
    hide Leading, Vandermonde, Pick;
    PickDistinct(database, present, |database|);
    ConsecutiveSolvable(Pick(database, present, false, |database|), exps, s);
  }

  // ----- a set that could be repaired, and is not -----

  lemma DividesSmall(d: nat, l: nat)
    requires d > 0 && l > 0 && Divides(d, l)
    ensures d <= l
  {
  }

  /** The first exponents that have no common divisor with 65535. */
  lemma SmallCoprime(l: nat)
    requires l < 9
    ensures Coprime(ORDER, l) <==> l in {1, 2, 4, 7, 8}
  {
    if l in {1, 2, 4, 7, 8} {
      forall d: nat | d > 0 && Divides(d, ORDER) && Divides(d, l) ensures d == 1 { DividesSmall(d, l); }
    } else {
      var d := if l == 5 then 5 else 3;
      assert Divides(d, ORDER) && Divides(d, l);
    }
  }

  lemma FirstExponents(logs: seq<nat>, end: nat)
    requires Exponents(logs, end) && |logs| >= 5
    ensures logs[..5] == [1, 2, 4, 7, 8]
  {
    hide Coprime;
    forall l: nat | l < 9 ensures Coprime(ORDER, l) <==> l in {1, 2, 4, 7, 8} { SmallCoprime(l); }
    ExponentAt(logs, end, 0, 0, 1);
    ExponentAt(logs, end, 1, 1, 2);
    ExponentAt(logs, end, 2, 2, 4);
    ExponentAt(logs, end, 3, 4, 7);
    ExponentAt(logs, end, 4, 7, 8);
  }

  /** The exponent after `last` is the next one without a common divisor. */
  lemma ExponentAt(logs: seq<nat>, end: nat, k: nat, last: nat, next: nat)
    requires Exponents(logs, end) && k < |logs| && last < next && Coprime(ORDER, next)
    requires forall l: nat :: last < l < next ==> !Coprime(ORDER, l)
    requires if k == 0 then last == 0 && !Coprime(ORDER, 0) else logs[k - 1] == last
    ensures logs[k] == next
  {
    hide Coprime;
    assert logs[k] >= next;
    var m :| 0 <= m < |logs| && logs[m] == next;
  }

  /** All blocks are there but the first, the third and the fifth. */
  function ThreeMissing(n: nat): (present: seq<bool>)
    ensures |present| == n
  {
    seq(n, i => i != 0 && i != 2 && i != 4)
  }

  lemma {:induction false} PickThree(v: Vec, n: nat)
    requires 5 <= n <= |v|
    ensures Pick(v, ThreeMissing(|v|), false, n) == [v[0], v[2], v[4]]
  {
    if n == 5 {
      var p := ThreeMissing(|v|);
      assert Pick(v, p, false, 0) == [];
      assert Pick(v, p, false, 1) == [v[0]];
      assert Pick(v, p, false, 2) == [v[0]];
      assert Pick(v, p, false, 3) == [v[0], v[2]];
      assert Pick(v, p, false, 4) == [v[0], v[2]];
    } else {
      PickThree(v, n - 1);
    }
  }

  /** In every set of five blocks or more, with the bases that AssignBases gives, the loss of
      blocks 0, 2 and 4 is not repaired from the slices 0, 21845 and 21846, although they
      determine the lost blocks. */
  lemma SetRefused(database: Vec, logs: seq<nat>, end: nat)
    requires Exponents(logs, end) && |database| == |logs| >= 5
    requires forall k :: 0 <= k < |logs| ==> database[k] == XPow(logs[k])
    ensures var mb := Pick(database, ThreeMissing(|database|), false, |database|);
      |mb| == 3 && Nonsingular(Vandermonde(mb, OddExponents()), 3) && !Leading(Vandermonde(mb, OddExponents()), 3)
  {
    hide XPow, Vandermonde, Pick, Exponents, Nonsingular, Leading;
    FirstExponents(logs, end);
    assert logs[0] == logs[..5][0] && logs[2] == logs[..5][2] && logs[4] == logs[..5][4];
    PickThree(database, |database|);
    RegularRefused();
  }
}
