/** The field with 65536 elements: polynomials over two elements, as words of 16 bits, modulo
    x^16 + x^12 + x^3 + x + 1. */
module Field16 {
  type Elem = bv16

  /** Times x. */
  function XTime(a: Elem): Elem { Add(Shl1(a), If(Top(a), 0x100B)) }

  function Add(a: Elem, b: Elem): Elem { a ^ b }

  function Shl1(a: Elem): Elem { a << 1 }

  predicate Top(a: Elem) { a & 0x8000 != 0 }

  function Half(a: Elem): Elem { a >> 1 }

  predicate Odd(a: Elem) { a & 1 != 0 }

  function If(c: bool, a: Elem): Elem { if c then a else 0 }

  /** The product by the lowest `n` terms of the second factor. */
  function MulN(a: Elem, b: Elem, n: nat): Elem
    decreases n
  {
    if n == 0 then 0 else Add(If(Odd(b), a), MulN(XTime(a), Half(b), n - 1))
  }

  function Mul(a: Elem, b: Elem): Elem { MulN(a, b, 16) }

  // ----- sums -----

  lemma AddAssoc(a: Elem, b: Elem, c: Elem)
    ensures Add(Add(a, b), c) == Add(a, Add(b, c))
  {
  }

  lemma AddComm(a: Elem, b: Elem)
    ensures Add(a, b) == Add(b, a)
  {
  }

  lemma AddSwap(a: Elem, b: Elem, c: Elem, d: Elem)
    ensures Add(Add(a, b), Add(c, d)) == Add(Add(a, c), Add(b, d))
  {
    hide Add;
    AddAssoc(a, b, Add(c, d));
    AddAssoc(b, c, d);
    AddComm(b, c);
    AddAssoc(c, b, d);
    AddAssoc(a, c, Add(b, d));
  }

  lemma AddZero(a: Elem)
    ensures Add(a, 0) == a && Add(0, a) == a && Add(a, a) == 0
  {
  }

  lemma AddCancel(a: Elem, b: Elem)
    ensures Add(a, b) == 0 <==> a == b
  {
    hide Add;
    AddZero(a);
    AddZero(b);
    AddAssoc(a, b, b);
  }

  // ----- the product is linear in both factors -----

  lemma Shl1Linear(a: Elem, b: Elem)
    ensures Shl1(Add(a, b)) == Add(Shl1(a), Shl1(b))
  {
  }

  lemma TopLinear(a: Elem, b: Elem)
    ensures Top(Add(a, b)) <==> Top(a) != Top(b)
  {
  }

  lemma IfTop(a: Elem, b: Elem)
    ensures If(Top(Add(a, b)), 0x100B) == Add(If(Top(a), 0x100B), If(Top(b), 0x100B))
  {
    hide Top;
    TopLinear(a, b);
  }

  lemma XLinear(a: Elem, b: Elem)
    ensures XTime(Add(a, b)) == Add(XTime(a), XTime(b))
  {
    hide Add, Shl1, Top, If;
    Shl1Linear(a, b);
    IfTop(a, b);
    AddSwap(Shl1(a), Shl1(b), If(Top(a), 0x100B), If(Top(b), 0x100B));
  }

  lemma XZero()
    ensures XTime(0) == 0
  {
  }

  lemma IfLinear(c: bool, a: Elem, b: Elem)
    ensures If(c, Add(a, b)) == Add(If(c, a), If(c, b)) && XTime(If(c, a)) == If(c, XTime(a))
  {
    XZero();
    AddZero(0);
    hide Add, XTime;
  }

  lemma {:induction false} MulNLeft(a: Elem, c: Elem, b: Elem, n: nat)
    ensures MulN(Add(a, c), b, n) == Add(MulN(a, b, n), MulN(c, b, n))
    decreases n
  {
    hide Add, XTime, Half, Odd, If;
    if n == 0 {
      AddZero(0);
    } else {
      XLinear(a, c);
      MulNLeft(XTime(a), XTime(c), Half(b), n - 1);
      IfLinear(Odd(b), a, c);
      AddSwap(If(Odd(b), a), If(Odd(b), c), MulN(XTime(a), Half(b), n - 1), MulN(XTime(c), Half(b), n - 1));
    }
  }

  lemma {:induction false} MulNX(a: Elem, b: Elem, n: nat)
    ensures MulN(XTime(a), b, n) == XTime(MulN(a, b, n))
    decreases n
  {
    hide Add, XTime, Half, Odd, If;
    if n == 0 {
      XZero();
    } else {
      MulNX(XTime(a), Half(b), n - 1);
      IfLinear(Odd(b), a, a);
      XLinear(If(Odd(b), a), MulN(XTime(a), Half(b), n - 1));
    }
  }

  lemma {:induction false} MulNZero(b: Elem, n: nat)
    ensures MulN(0, b, n) == 0
    decreases n
  {
    hide Half, Odd;
    if n > 0 {
      XZero();
      MulNZero(Half(b), n - 1);
    }
  }

  // ----- the product written out -----

  function X4(a: Elem): Elem { XTime(XTime(XTime(XTime(a)))) }

  function H4(a: Elem): Elem { a >> 4 }

  function Sum4(a: Elem, b: Elem): Elem {
    Add(If(b & 1 != 0, a),
      Add(If(b & 2 != 0, XTime(a)), Add(If(b & 4 != 0, XTime(XTime(a))), If(b & 8 != 0, XTime(XTime(XTime(a)))))))
  }

  function Sum16(a: Elem, b: Elem): Elem {
    Add(Sum4(a, b), Add(Sum4(X4(a), H4(b)), Add(Sum4(X4(X4(a)), H4(H4(b))), Sum4(X4(X4(X4(a))), H4(H4(H4(b)))))))
  }

  lemma Halves(b: Elem)
    ensures (Odd(b) <==> b & 1 != 0) && (Odd(Half(b)) <==> b & 2 != 0) && (Odd(Half(Half(b))) <==> b & 4 != 0)
    ensures Odd(Half(Half(Half(b)))) <==> b & 8 != 0
    ensures Half(Half(Half(Half(b)))) == H4(b)
  {
  }

  lemma AddFour(a: Elem, b: Elem, c: Elem, d: Elem, e: Elem)
    ensures Add(a, Add(b, Add(c, Add(d, e)))) == Add(Add(a, Add(b, Add(c, d))), e)
  {
    hide Add;
    AddAssoc(c, d, e);
    AddAssoc(b, Add(c, d), e);
    AddAssoc(a, Add(b, Add(c, d)), e);
  }

  lemma MulStep(a: Elem, b: Elem, n: nat)
    requires n > 0
    ensures MulN(a, b, n) == Add(If(Odd(b), a), MulN(XTime(a), Half(b), n - 1))
  {
  }

  lemma Four(a: Elem, b: Elem, n: nat)
    requires n >= 4
    ensures MulN(a, b, n) == Add(Sum4(a, b), MulN(X4(a), H4(b), n - 4))
  {
    hide Add, XTime, Half, Odd, If, MulN, H4;
    Halves(b);
    var a1, b1 := XTime(a), Half(b);
    var a2, b2 := XTime(a1), Half(b1);
    var a3, b3 := XTime(a2), Half(b2);
    MulStep(a, b, n);
    MulStep(a1, b1, n - 1);
    MulStep(a2, b2, n - 2);
    MulStep(a3, b3, n - 3);
    AddFour(If(Odd(b), a), If(Odd(b1), a1), If(Odd(b2), a2), If(Odd(b3), a3), MulN(X4(a), H4(b), n - 4));
  }

  lemma Sixteen(a: Elem, b: Elem)
    ensures Mul(a, b) == Sum16(a, b)
  {
    hide Sum4, X4, H4, Add;
    Four(a, b, 16);
    Four(X4(a), H4(b), 12);
    Four(X4(X4(a)), H4(H4(b)), 8);
    Four(X4(X4(X4(a))), H4(H4(H4(b))), 4);
    AddZero(Sum4(X4(X4(X4(a))), H4(H4(H4(b)))));
  }

  // ----- one, and the factors in either order -----

  lemma OneLow(a: Elem)
    ensures Sum4(1, a) == a & 0xF && Sum4(0x10, H4(a)) == a & 0xF0
  {
  }

  lemma OneHigh(a: Elem)
    ensures Sum4(0x100, H4(H4(a))) == a & 0xF00 && Sum4(0x1000, H4(H4(H4(a)))) == a & 0xF000
  {
  }

  lemma Masks(a: Elem)
    ensures Add(a & 0xF, Add(a & 0xF0, Add(a & 0xF00, a & 0xF000))) == a
    ensures X4(1) == 0x10 && X4(0x10) == 0x100 && X4(0x100) == 0x1000
  {
  }

  lemma MulOneLeft(a: Elem)
    ensures Mul(1, a) == a
  {
    hide MulN, X4, Sum4, H4;
    OneLow(a);
    OneHigh(a);
    Masks(a);
    Sixteen(1, a);
  }

  function Shifted(b: Elem, n: nat): Elem
    decreases n
  {
    if n == 0 then b else Shifted(Half(b), n - 1)
  }

  lemma ShiftFour(b: Elem, n: nat)
    requires n >= 4
    ensures Shifted(b, n) == Shifted(H4(b), n - 4)
  {
    hide Half, H4;
    Halves(b);
    assert Shifted(b, n) == Shifted(Half(b), n - 1) == Shifted(Half(Half(b)), n - 2)
                         == Shifted(Half(Half(Half(b))), n - 3);
  }

  lemma ShiftAll(b: Elem)
    ensures Shifted(b, 16) == 0
  {
    ShiftFour(b, 16);
    ShiftFour(H4(b), 12);
    ShiftFour(H4(H4(b)), 8);
    ShiftFour(H4(H4(H4(b))), 4);
    assert b >> 4 >> 4 >> 4 >> 4 == 0;
  }

  lemma LowTerm(b: Elem)
    ensures b == Add(If(Odd(b), 1), XTime(Half(b)))
  {
  }

  lemma {:induction false} MulNFlip(a: Elem, b: Elem, n: nat)
    requires Shifted(b, n) == 0
    ensures MulN(a, b, n) == Mul(b, a)
    decreases n
  {
    hide Add, XTime, Half, Odd;
    if n == 0 {
      MulNZero(a, 16);
    } else {
      MulNFlip(a, Half(b), n - 1);
      MulNX(a, Half(b), n - 1);
      LowTerm(b);
      MulNLeft(If(Odd(b), 1), XTime(Half(b)), a, 16);
      MulNZero(a, 16);
      MulOneLeft(a);
      MulNX(Half(b), a, 16);
    }
  }

  lemma MulComm(a: Elem, b: Elem)
    ensures Mul(a, b) == Mul(b, a)
  {
    hide MulN;
    ShiftAll(b);
    MulNFlip(a, b, 16);
  }

  lemma MulOne(a: Elem)
    ensures Mul(1, a) == a && Mul(a, 1) == a
  {
    hide Mul;
    MulOneLeft(a);
    MulComm(1, a);
  }

  lemma MulZero(a: Elem)
    ensures Mul(0, a) == 0 && Mul(a, 0) == 0
  {
    hide MulN;
    MulNZero(a, 16);
    MulComm(0, a);
  }

  lemma MulAdd(a: Elem, b: Elem, c: Elem)
    ensures Mul(a, Add(b, c)) == Add(Mul(a, b), Mul(a, c))
    ensures Mul(Add(b, c), a) == Add(Mul(b, a), Mul(c, a))
  {
    hide MulN, Add;
    MulNLeft(b, c, a, 16);
    MulComm(a, Add(b, c));
    MulComm(a, b);
    MulComm(a, c);
  }

  lemma MulX(a: Elem, b: Elem)
    ensures Mul(XTime(a), b) == XTime(Mul(a, b)) && Mul(a, XTime(b)) == XTime(Mul(a, b))
  {
    hide MulN, XTime;
    MulNX(a, b, 16);
    MulNX(b, a, 16);
    MulComm(a, b);
    MulComm(a, XTime(b));
  }

  lemma {:induction false} AssocN(a: Elem, b: Elem, c: Elem, n: nat)
    requires Shifted(c, n) == 0
    ensures Mul(Mul(a, b), c) == Mul(a, Mul(b, c))
    decreases n
  {
    hide Mul, Add, XTime, Half, Odd;
    if n == 0 {
      MulZero(Mul(a, b));
      MulZero(b);
      MulZero(a);
    } else {
      var low, h := If(Odd(c), 1), Half(c);
      AssocN(a, b, h, n - 1);
      LowTerm(c);
      MulAdd(Mul(a, b), low, XTime(h));
      MulAdd(b, low, XTime(h));
      MulAdd(a, Mul(b, low), Mul(b, XTime(h)));
      MulX(Mul(a, b), h);
      MulX(b, h);
      MulX(a, Mul(b, h));
      MulOne(Mul(a, b));
      MulOne(b);
      MulZero(Mul(a, b));
      MulZero(b);
      MulZero(a);
    }
  }

  lemma MulAssoc(a: Elem, b: Elem, c: Elem)
    ensures Mul(Mul(a, b), c) == Mul(a, Mul(b, c))
  {
    hide Mul;
    ShiftAll(c);
    AssocN(a, b, c, 16);
  }
}
