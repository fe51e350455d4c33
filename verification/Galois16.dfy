/** rs.c, first half: arithmetic in the field by tables of logarithms. */
module Galois16 {
  import opened Field16
  import opened FieldPowers

  /** Repeated multiplication. */
  function Pow(a: Elem, n: nat): Elem { if n == 0 then 1 else Mul(a, Pow(a, n - 1)) }

  lemma {:induction false} PowOfX(l: nat, n: nat)
    ensures Pow(XPow(l), n) == XPow(l * n)
    decreases n
  {
    hide Mul, XPow;
    if n == 0 {
      XPowZero();
    } else {
      PowOfX(l, n - 1);
      XPowAdd(l, l * (n - 1));
      assert l + l * (n - 1) == l * n;
    }
  }

  lemma PowOfZero(n: nat)
    requires n > 0
    ensures Pow(0, n) == 0
  {
    hide Mul;
    MulZero(Pow(0, n - 1));
  }

  /** Exponents count modulo 65535. */
  lemma XPowMod(n: nat)
    ensures XPow(n % ORDER) == XPow(n)
  {
    hide Mul, XPow;
    KeyPowers();
    PeriodTimes(ORDER, n / ORDER);
    XPowAdd(ORDER * (n / ORDER), n % ORDER);
    MulOne(XPow(n % ORDER));
  }

  /** The element whose product with `a` is one. */
  ghost function Inv(a: Elem): (b: Elem)
    requires a != 0
    ensures Mul(a, b) == 1 && b != 0
  {
    var l := Log(a);
    InverseOf(l);
    XPow(ORDER - l)
  }

  ghost function Log(a: Elem): (l: nat)
    requires a != 0
    ensures l < ORDER && XPow(l) == a
  {
    LogThere(a);
    var l: nat :| l < ORDER && XPow(l) == a;
    l
  }

  lemma LogThere(a: Elem)
    requires a != 0
    ensures exists l: nat :: l < ORDER && XPow(l) == a
  {
    hide XPow;
    var l := LogExists(a);
  }

  lemma InverseOf(l: nat)
    requires l <= ORDER
    ensures Mul(XPow(l), XPow(ORDER - l)) == 1 && XPow(ORDER - l) != 0
  {
    hide Mul, XPow;
    XPowAdd(l, ORDER - l);
    KeyPowers();
    XPowNonzero(ORDER - l);
  }

  /** A quotient is the product with the inverse. */
  lemma QuotientIs(a: Elem, b: Elem, q: Elem)
    requires b != 0 && Mul(q, b) == a
    ensures q == Mul(Inv(b), a)
  {
    hide Mul, Inv;
    MulComm(Inv(b), Mul(q, b));
    MulAssoc(q, b, Inv(b));
    MulOne(q);
  }

  /** No product of elements other than zero is zero. */
  lemma NoZeroDivisors(a: Elem, b: Elem)
    requires Mul(a, b) == 0
    ensures a == 0 || b == 0
  {
    hide Mul, Inv;
    if a != 0 {
      MulComm(a, Inv(a));
      MulAssoc(Inv(a), a, b);
      MulOne(b);
      MulZero(Inv(a));
    }
  }

  // ----- the tables -----

  /** An element as the index of a table. */
  datatype At = At(e: Elem)

  class Tables {
    var log: map<At, nat>
    const antilog: array<Elem>

    /** log and antilog invert each other, and zero has the logarithm that no other has. */
    ghost predicate Ready()
      reads this, antilog
    {
      && antilog.Length == 65536
      && (forall l: nat :: l < ORDER ==> antilog[l] == XPow(l))
      && (forall b: Elem :: b != 0 ==> LogOf(log, b))
      && At(0) in log && log[At(0)] == ORDER && antilog[ORDER] == 0
    }

    /** gf16_init */
    constructor ()
      ensures Ready() && fresh(antilog)
    {
      antilog := new Elem[65536];
      log := map[];
      new;
      Fill();
      LogAll(log);
      ZeroLog(log);
      log := log[At(0) := ORDER];
      antilog[ORDER] := 0;
    }

    /** The loop of gf16_init: the powers of x, one after the other. */
    method Fill()
      requires log == map[] && antilog.Length == 65536
      modifies this`log, antilog
      ensures LogUpto(log, ORDER) && forall k: nat :: k < ORDER ==> antilog[k] == XPow(k)
    {
      hide XPow, Mul, Shl1, Top, Add;
      XPowZero();
      var b: Elem, l: nat := 1, 0;
      while l < ORDER
        invariant l <= ORDER && b == XPow(l) && LogUpto(log, l)
        invariant forall k: nat :: k < l ==> antilog[k] == XPow(k)
      {
        LogMore(log, l);
        log := log[At(b) := l];
        antilog[l] := b;
        XPowNext(l);
        XTimeIs(b);
        var top := Top(b);
        b := Shl1(b);
        if top { b := Add(b, 0x100B); }
        l := l + 1;
      }
    }

    /** gf16_mul */
    method Times(a: Elem, b: Elem) returns (r: Elem)
      requires Ready()
      ensures r == Mul(a, b)
    {
      hide Mul, XPow;
      if a == 0 || b == 0 {
        MulZero(a);
        MulZero(b);
        return 0;
      }
      assert LogOf(log, a) && LogOf(log, b);
      var sum: nat := log[At(a)] + log[At(b)];
      XPowAdd(log[At(a)], log[At(b)]);
      XPowMod(sum);
      if sum >= ORDER { sum := sum - ORDER; }
      r := antilog[sum];
    }

    /** gf16_div; the caller sees to it that `b` is not zero. */
    method Over(a: Elem, b: Elem) returns (r: Elem)
      requires Ready() && b != 0
      ensures Mul(r, b) == a && r == Mul(Inv(b), a)
    {
      hide Mul, XPow, Inv;
      if a == 0 {
        MulZero(b);
        MulZero(Inv(b));
        return 0;
      }
      assert LogOf(log, a) && LogOf(log, b);
      var sum: int := (log[At(a)] as int) - log[At(b)];
      if sum < 0 { sum := sum + ORDER; }
      r := antilog[sum];
      XPowAdd(sum, log[At(b)]);
      XPowMod(sum + log[At(b)]);
      QuotientIs(a, b, r);
    }

    /** gf16_pow: one folding of the product and one subtraction are enough. */
    method Power(base: Elem, exponent: nat) returns (r: Elem)
      requires Ready() && exponent < 65536
      ensures r == Pow(base, exponent)
    {
      hide Mul, XPow;
      if exponent == 0 { return 1; }
      if base == 0 {
        PowOfZero(exponent);
        return 0;
      }
      assert LogOf(log, base);
      var sum: nat := log[At(base)] * exponent;
      PowOfX(log[At(base)], exponent);
      XPowMod(sum);
      Folded(log[At(base)], exponent);
      sum := sum / 65536 + sum % 65536;
      if sum >= ORDER { sum := sum - ORDER; }
      r := antilog[sum];
    }
  }

  /** The logarithms of the first `l` powers. */
  ghost predicate LogUpto(log: map<At, nat>, l: nat) {
    forall k: nat :: k < l ==> At(XPow(k)) in log && log[At(XPow(k))] == k
  }

  lemma LogMore(log: map<At, nat>, l: nat)
    requires l < ORDER && LogUpto(log, l)
    ensures LogUpto(log[At(XPow(l)) := l], l + 1)
  {
    hide XPow;
    forall k: nat | k < l ensures XPow(k) != XPow(l) { XPowDifferent(k, l); }
  }

  lemma ZeroLog(log: map<At, nat>)
    requires forall b: Elem :: b != 0 ==> LogOf(log, b)
    ensures var log' := log[At(0) := ORDER]; forall b: Elem :: b != 0 ==> LogOf(log', b)
  {
    hide XPow;
    var log' := log[At(0) := ORDER];
    forall b: Elem | b != 0 ensures LogOf(log', b) { assert LogOf(log, b); }
  }

  lemma LogAll(log: map<At, nat>)
    requires LogUpto(log, ORDER)
    ensures forall b: Elem :: b != 0 ==> LogOf(log, b)
  {
    hide XPow;
    forall b: Elem | b != 0 ensures LogOf(log, b) { var k := LogExists(b); }
  }

  ghost predicate LogOf(log: map<At, nat>, b: Elem) { At(b) in log && 0 <= log[At(b)] < ORDER && XPow(log[At(b)]) == b }

  lemma XTimeIs(b: Elem)
    ensures XTime(b) == if Top(b) then Add(Shl1(b), 0x100B) else Shl1(b)
  {
    hide Shl1, Top, Add;
    AddZero(Shl1(b));
  }

  lemma Folded(l: nat, e: nat)
    requires l < ORDER && e < 65536
    ensures l * e < 0x1_0000_0000
    ensures var s := l * e; var f := s / 65536 + s % 65536;
      f < 2 * ORDER && (if f >= ORDER then f - ORDER else f) == s % ORDER
  {
    var s := l * e;
    assert s <= 65534 * 65535 by { Products(l, e, 65534, 65535); }
    var h, f := s / 65536, s / 65536 + s % 65536;
    assert s == ORDER * h + f;
    assert h <= 65533;
    Remainder(s, h, f);
  }

  lemma Products(a: nat, b: nat, c: nat, d: nat)
    requires a <= c && b <= d
    ensures a * b <= c * d
  {
    assert a * b <= c * b;
    assert c * b <= c * d;
  }

  lemma Remainder(s: nat, h: nat, f: nat)
    requires s == ORDER * h + f && f < 2 * ORDER
    ensures s % ORDER == if f >= ORDER then f - ORDER else f
  {
  }
}
