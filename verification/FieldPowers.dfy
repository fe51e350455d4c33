/** The powers of x run through all elements but zero. */
module FieldPowers {
  import opened Arithmetic
  import opened Field16

  const ORDER: nat := 65535

  function XPow(n: nat): Elem { if n == 0 then 1 else XTime(XPow(n - 1)) }

  lemma {:induction false} XPowAdd(i: nat, j: nat)
    ensures Mul(XPow(i), XPow(j)) == XPow(i + j)
    decreases j
  {
    hide Mul, XTime;
    if j == 0 {
      MulOne(XPow(i));
    } else {
      XPowAdd(i, j - 1);
      MulX(XPow(i), XPow(j - 1));
    }
  }

  // ----- powers found by squaring -----

  lemma XPowNext(n: nat)
    ensures XPow(n + 1) == XTime(XPow(n))
  {
  }

  lemma Power16()
    ensures XPow(16) == 0x100B
  {
    assert XPow(0) == 1;
    hide XPow;
    XPowNext(0);
    XPowNext(1);
    XPowNext(2);
    XPowNext(3);
    XPowNext(4);
    XPowNext(5);
    XPowNext(6);
    XPowNext(7);
    XPowNext(8);
    XPowNext(9);
    XPowNext(10);
    XPowNext(11);
    XPowNext(12);
    XPowNext(13);
    XPowNext(14);
    XPowNext(15);
  }

  /** A factor times x to the 4, 8 and 12; stated first, it keeps the evaluation of a product
      in steps. */
  predicate Shifts(a: Elem, a1: Elem, a2: Elem, a3: Elem) { X4(a) == a1 && X4(a1) == a2 && X4(a2) == a3 }

  lemma Times(i: nat, j: nat, u: Elem, v: Elem, w: Elem)
    requires XPow(i) == u && XPow(j) == v && Sum16(u, v) == w
    ensures XPow(i + j) == w
  {
    hide Sum16, XPow;
    XPowAdd(i, j);
    Sixteen(u, v);
  }

  lemma Twice(i: nat, u: Elem, w: Elem)
    requires XPow(i) == u && Sum16(u, u) == w
    ensures XPow(2 * i) == w
  {
    hide Sum16, XPow;
    Times(i, i, u, u, w);
  }

  // One product each, up to x to the 257 by squaring, then by the addition chain
  // 1, 2, 3, 5, 10, 15, 17, 34, 51, 85, 170, 255 for the powers of that.

  lemma Power32()
    ensures XPow(32) == 0x1BFE
  {
    hide XPow;
    Power16();
    assert Shifts(0x100B, 0x10BB, 0x1BBB, 0xABBB);
    Twice(16, 0x100B, 0x1BFE);
  }

  lemma Power64()
    ensures XPow(64) == 0x5C24
  {
    hide XPow;
    Power32();
    assert Shifts(0x1BFE, 0xAFEB, 0x5EFE, 0xBFC7);
    Twice(32, 0x1BFE, 0x5C24);
  }

  lemma Power128()
    ensures XPow(128) == 0xE647
  {
    hide XPow;
    Power64();
    assert Shifts(0x5C24, 0x9267, 0xB623, 0xD275);
    Twice(64, 0x5C24, 0xE647);
  }

  lemma Power256()
    ensures XPow(256) == 0x0B2F
  {
    hide XPow;
    Power128();
    assert Shifts(0xE647, 0x8412, 0xC178, 0xD7F4);
    Twice(128, 0xE647, 0x0B2F);
  }

  lemma Power257()
    ensures XPow(257) == 0x165E
  {
    hide XPow;
    Power256();
    XPowNext(256);
  }

  lemma Power514()
    ensures XPow(514) == 0x5A78
  {
    hide XPow;
    Power257();
    assert Shifts(0x165E, 0x75EB, 0x2E81, 0xC806);
    Twice(257, 0x165E, 0x5A78);
  }

  lemma Power771()
    ensures XPow(771) == 0x0A68
  {
    hide XPow;
    Power514();
    Power257();
    assert Shifts(0x5A78, 0xF7A7, 0x8A19, 0x21C8);
    Times(514, 257, 0x5A78, 0x165E, 0x0A68);
  }

  lemma Power1285()
    ensures XPow(1285) == 0xF6CF
  {
    hide XPow;
    Power771();
    Power514();
    assert Shifts(0x0A68, 0xA680, 0xC84E, 0x4494);
    Times(771, 514, 0x0A68, 0x5A78, 0xF6CF);
  }

  lemma Power2570()
    ensures XPow(2570) == 0x50D4
  {
    hide XPow;
    Power1285();
    assert Shifts(0xF6CF, 0x9C99, 0x59C3, 0xCC17);
    Twice(1285, 0xF6CF, 0x50D4);
  }

  lemma Power3855()
    ensures XPow(3855) == 0x4D78
  {
    hide XPow;
    Power2570();
    Power1285();
    assert Shifts(0x50D4, 0x5D67, 0x8657, 0xE528);
    Times(2570, 1285, 0x50D4, 0xF6CF, 0x4D78);
  }

  lemma Power4369()
    ensures XPow(4369) == 0x001A
  {
    hide XPow;
    Power3855();
    Power514();
    assert Shifts(0x4D78, 0x97AC, 0xEA93, 0x4952);
    Times(3855, 514, 0x4D78, 0x5A78, 0x001A);
  }

  lemma Power8738()
    ensures XPow(8738) == 0x0144
  {
    hide XPow;
    Power4369();
    assert Shifts(0x001A, 0x01A0, 0x1A00, 0xB00B);
    Twice(4369, 0x001A, 0x0144);
  }

  lemma Power13107()
    ensures XPow(13107) == 0x1CE8
  {
    hide XPow;
    Power8738();
    Power4369();
    assert Shifts(0x0144, 0x1440, 0x540B, 0x1097);
    Times(8738, 4369, 0x0144, 0x001A, 0x1CE8);
  }

  lemma Power21845()
    ensures XPow(21845) == 0x015E
  {
    hide XPow;
    Power13107();
    Power8738();
    assert Shifts(0x1CE8, 0xDE8B, 0x38CF, 0xBCED);
    Times(13107, 8738, 0x1CE8, 0x0144, 0x015E);
  }

  lemma Power43690()
    ensures XPow(43690) == 0x015F
  {
    hide XPow;
    Power21845();
    assert Shifts(0x015E, 0x15E0, 0x4E0B, 0xA09C);
    Twice(21845, 0x015E, 0x015F);
  }

  lemma Power65535()
    ensures XPow(65535) == 0x0001
  {
    hide XPow;
    Power43690();
    Power21845();
    assert Shifts(0x015F, 0x15F0, 0x4F0B, 0xB09C);
    Times(43690, 21845, 0x015F, 0x015E, 0x0001);
  }

  /** x to the 65535 is one, and to no 65535 / p for a prime p is it. */
  lemma KeyPowers()
    ensures XPow(65535) == 1 && XPow(21845) != 1 && XPow(13107) != 1 && XPow(3855) != 1 && XPow(255) != 1
  {
    hide XPow;
    Power256();
    XPowNext(255);
    Power3855();
    Power13107();
    Power21845();
    Power65535();
  }

  // ----- the order of x -----

  lemma {:induction false} PeriodTimes(b: nat, q: nat)
    requires XPow(b) == 1
    ensures XPow(b * q) == 1
    decreases q
  {
    hide Mul, XPow;
    if q == 0 {
      assert b * q == 0;
      XPowZero();
    } else {
      PeriodTimes(b, q - 1);
      assert b * q == b * (q - 1) + b;
      XPowAdd(b * (q - 1), b);
      MulOne(1);
    }
  }

  lemma XPowZero()
    ensures XPow(0) == 1
  {
  }

  lemma PeriodMod(a: nat, b: nat)
    requires b > 0 && XPow(a) == 1 && XPow(b) == 1
    ensures XPow(a % b) == 1
  {
    hide Mul, XPow;
    PeriodTimes(b, a / b);
    XPowAdd(b * (a / b), a % b);
    MulOne(XPow(a % b));
  }

  predicate Divides(g: nat, a: nat) requires g > 0 { a % g == 0 }

  lemma DividesTimes(g: nat, k: nat)
    requires g > 0
    ensures Divides(g, g * k)
  {
    var q, r := g * k / g, g * k % g;
    assert g * (k - q) == r;
    Multiplied(g, k - q);
  }

  lemma DividesRest(g: nat, a: nat, b: nat)
    requires g > 0 && b > 0 && Divides(g, b) && Divides(g, a % b)
    ensures Divides(g, a)
  {
    var k, j := b / g, a % b / g;
    assert b == g * k && a % b == g * j;
    assert a == b * (a / b) + a % b;
    assert a == g * (k * (a / b) + j);
    DividesTimes(g, k * (a / b) + j);
  }

  /** The greatest common divisor of two periods is a period. */
  lemma {:induction false} PeriodGcd(a: nat, b: nat) returns (g: nat)
    requires a > 0 && XPow(a) == 1 && XPow(b) == 1
    ensures 0 < g <= a && XPow(g) == 1 && Divides(g, a) && Divides(g, b) && (b > 0 ==> g <= b)
    decreases b
  {
    hide XPow;
    if b == 0 {
      g := a;
    } else {
      PeriodMod(a, b);
      g := PeriodGcd(b, a % b);
      DividesRest(g, a, b);
      assert a == g * (a / g);
      assert a / g >= 1;
      Multiplied(g, a / g);
    }
  }

  // ----- 65535 is 3 times 5 times 17 times 257 -----

  /** `k * a` is a multiple of `p`. */
  predicate Multiple(k: nat, a: nat, p: nat) requires p > 0 { Divides(p, k * a) }

  lemma MultipleMod(x: nat, y: nat, a: nat, p: nat)
    requires p > 0 && y > 0 && Multiple(x, a, p) && Multiple(y, a, p)
    ensures Multiple(x % y, a, p)
  {
    var q, r, i, j := x / y, x % y, x * a / p, y * a / p;
    assert x * a == p * i && y * a == p * j;
    assert x == y * q + r;
    assert r * a == x * a - q * (y * a);
    assert r * a == p * (i - q * j);
    assert i - q * j >= 0 by { Multiplied(p, i - q * j); }
    DividesTimes(p, i - q * j);
  }

  lemma {:induction false} MultipleGcd(x: nat, y: nat, a: nat, p: nat) returns (g: nat)
    requires p > 0 && x > 0 && Multiple(x, a, p) && Multiple(y, a, p)
    ensures 0 < g && Multiple(g, a, p) && Divides(g, x) && Divides(g, y)
    decreases y
  {
    hide Multiple;
    if y == 0 {
      g := x;
    } else {
      MultipleMod(x, y, a, p);
      g := MultipleGcd(y, x % y, a, p);
      DividesRest(g, x, y);
    }
  }

  predicate Prime(p: nat) { p == 3 || p == 5 || p == 17 || p == 257 }

  lemma PrimeOnly(p: nat, g: nat)
    requires Prime(p) && g > 0 && Divides(g, p)
    ensures g == 1 || g == p
  {
    var h := p / g;
    assert p == g * h;
    if g <= 16 {
      SmallFactor(p, g, h);
    } else {
      LargeFactors(g, h);
      SmallFactor(p, h, g);
    }
  }

  lemma LargeFactors(g: nat, h: nat)
    ensures g >= 17 && h >= 17 ==> g * h >= 289
  {
    if g >= 17 && h >= 17 { assert (g - 17) * (h - 17) >= 0; }
  }

  lemma SmallFactor(p: nat, g: nat, h: nat)
    requires Prime(p) && p == g * h && 0 < g <= 16
    ensures g == 1 || g == p
  {
    assert g == 2 ==> p == 2 * h;
    assert g == 3 ==> p == 3 * h;
    assert g == 4 ==> p == 4 * h;
    assert g == 5 ==> p == 5 * h;
    assert g == 6 ==> p == 6 * h;
    assert g == 7 ==> p == 7 * h;
    assert g == 8 ==> p == 8 * h;
    assert g == 9 ==> p == 9 * h;
    assert g == 10 ==> p == 10 * h;
    assert g == 11 ==> p == 11 * h;
    assert g == 12 ==> p == 12 * h;
    assert g == 13 ==> p == 13 * h;
    assert g == 14 ==> p == 14 * h;
    assert g == 15 ==> p == 15 * h;
    assert g == 16 ==> p == 16 * h;
  }

  /** A prime that divides a product and not one factor divides the other. */
  lemma PrimeDivides(p: nat, a: nat, b: nat)
    requires Prime(p) && Divides(p, b * a) && !Divides(p, b)
    ensures Divides(p, a)
  {
    DividesTimes(p, a);
    var g := MultipleGcd(p, b, a, p);
    PrimeOnly(p, g);
    assert 1 * a == a;
  }

  /** A proper divisor of 65535 divides 65535 / p for one of its primes p. */
  lemma Cofactor(g: nat, m: nat)
    requires g * m == 65535 && m >= 2
    ensures Divides(3, m) || Divides(5, m) || Divides(17, m) || Divides(257, m)
  {
    if !Divides(3, m) && !Divides(5, m) && !Divides(17, m) {
      var g1 := Peel(3, g, m, 65535);
      var g2 := Peel(5, g1, m, 21845);
      var g3 := Peel(17, g2, m, 4369);
      if !Divides(257, m) {
        var g4 := Peel(257, g3, m, 257);
        UnitFactor(g4, m);
      }
    }
  }

  lemma UnitFactor(g: nat, m: nat)
    ensures m >= 2 ==> g * m != 1
  {
    assert g == 0 ==> g * m == 0;
    assert g >= 1 ==> g * m >= m by { Multiplied(m + 1, g); }
  }

  lemma Regroup(p: nat, h: nat, m: nat)
    ensures (p * h) * m == p * (h * m)
  {
  }

  lemma Peel(p: nat, g: nat, m: nat, n: nat) returns (h: nat)
    requires Prime(p) && g * m == n && Divides(p, n) && !Divides(p, m)
    ensures h * m == n / p
  {
    assert m * g == n;
    PrimeDivides(p, g, m);
    h := g / p;
    Regroup(p, h, m);
    ModIs(n, h * m, 0, p);
  }

  /** No smaller power of x is one. */
  lemma OrderOfX(d: nat)
    requires 0 < d < ORDER
    ensures XPow(d) != 1
  {
    hide XPow, Divides;
    KeyPowers();
    if XPow(d) == 1 {
      var g := PeriodGcd(ORDER, d);
      var m := OrderQuotient(g);
      Cofactor(g, m);
      if Divides(3, m) {
        CofactorPeriod(g, m, 3);
      } else if Divides(5, m) {
        CofactorPeriod(g, m, 5);
      } else if Divides(17, m) {
        CofactorPeriod(g, m, 17);
      } else {
        CofactorPeriod(g, m, 257);
      }
    }
  }

  lemma OrderQuotient(g: nat) returns (m: nat)
    requires 0 < g < ORDER && Divides(g, ORDER)
    ensures g * m == ORDER && m >= 2
  {
    m := ORDER / g;
    assert g * m == ORDER;
    assert m == 0 ==> g * m == 0;
    assert m == 1 ==> g * m == g;
  }

  lemma CofactorPeriod(g: nat, m: nat, p: nat)
    requires Prime(p) && g * m == ORDER && Divides(p, m) && XPow(g) == 1
    ensures XPow(ORDER / p) == 1
  {
    hide XPow;
    var k := m / p;
    assert m == p * k;
    assert ORDER == p * (g * k);
    assert ORDER / p == g * k;
    PeriodTimes(g, k);
  }

  // ----- the powers are all different, and are all there is -----

  lemma XTimeInjective(a: Elem, b: Elem)
    requires XTime(a) == XTime(b)
    ensures a == b
  {
    XLinear(a, b);
    AddCancel(XTime(a), XTime(b));
    XTimeNonzero(Add(a, b));
    AddCancel(a, b);
  }

  lemma XTimeNonzero(a: Elem)
    ensures XTime(a) == 0 <==> a == 0
  {
  }

  lemma {:induction false} XPowNonzero(n: nat)
    ensures XPow(n) != 0
  {
    hide XTime;
    if n > 0 {
      XPowNonzero(n - 1);
      XTimeNonzero(XPow(n - 1));
    }
  }

  lemma {:induction false} XPowBack(i: nat, j: nat)
    requires i <= j && XPow(i) == XPow(j)
    ensures XPow(j - i) == 1
    decreases i
  {
    hide XTime;
    if i > 0 {
      XTimeInjective(XPow(i - 1), XPow(j - 1));
      XPowBack(i - 1, j - 1);
    }
  }

  lemma XPowDifferent(i: nat, j: nat)
    requires i < j < ORDER
    ensures XPow(i) != XPow(j)
  {
    hide XPow;
    OrderOfX(j - i);
    if XPow(i) == XPow(j) { XPowBack(i, j); }
  }

  function Powers(n: nat): set<Elem> { if n == 0 then {} else Powers(n - 1) + {XPow(n - 1)} }

  lemma {:induction false} PowersLog(n: nat, b: Elem) returns (l: nat)
    requires b in Powers(n)
    ensures l < n && XPow(l) == b
  {
    hide XPow;
    if b in Powers(n - 1) {
      l := PowersLog(n - 1, b);
    } else {
      l := n - 1;
    }
  }

  lemma {:induction false} PowersSize(n: nat)
    requires n <= ORDER
    ensures |Powers(n)| == n && 0 !in Powers(n)
  {
    hide XPow;
    if n > 0 {
      PowersSize(n - 1);
      XPowNonzero(n - 1);
      if XPow(n - 1) in Powers(n - 1) {
        var l := PowersLog(n - 1, XPow(n - 1));
        XPowDifferent(l, n - 1);
      }
    }
  }

  /** The words of at most `n` bits. */
  function Words(n: nat): set<Elem> { if n == 0 then {0} else Doubles(Words(n - 1)) + Odds(Words(n - 1)) }

  function Doubles(s: set<Elem>): set<Elem> { set b | b in s :: Shl1(b) }

  function Odds(s: set<Elem>): set<Elem> { set b | b in s :: Add(Shl1(b), 1) }

  lemma {:induction false} DoublesSize(s: set<Elem>)
    ensures |Doubles(s)| <= |s|
    decreases |s|
  {
    hide Shl1;
    if b :| b in s {
      DoublesSize(s - {b});
      assert Doubles(s) == Doubles(s - {b}) + {Shl1(b)};
    } else {
      assert Doubles(s) == {};
    }
  }

  lemma {:induction false} OddsSize(s: set<Elem>)
    ensures |Odds(s)| <= |s|
    decreases |s|
  {
    hide Shl1, Add;
    if b :| b in s {
      OddsSize(s - {b});
      assert Odds(s) == Odds(s - {b}) + {Add(Shl1(b), 1)};
    } else {
      assert Odds(s) == {};
    }
  }

  lemma {:induction false} WordsSize(n: nat)
    ensures |Words(n)| <= Pow2(n)
  {
    hide Doubles, Odds;
    if n > 0 {
      WordsSize(n - 1);
      DoublesSize(Words(n - 1));
      OddsSize(Words(n - 1));
    }
  }

  lemma LastBit(b: Elem)
    ensures b == Shl1(Half(b)) || b == Add(Shl1(Half(b)), 1)
  {
  }

  lemma {:induction false} InWords(b: Elem, n: nat)
    requires Shifted(b, n) == 0
    ensures b in Words(n)
    decreases n
  {
    hide Shl1, Half, Add;
    if n > 0 {
      InWords(Half(b), n - 1);
      LastBit(b);
    }
  }

  lemma AtMost(s: set<Elem>)
    ensures |s| <= 65536
  {
    hide Words, Shifted;
    forall b | b in s ensures b in Words(16) {
      ShiftAll(b);
      InWords(b, 16);
    }
    WordsSize(16);
    Subset(s, Words(16));
    Pow2Of16();
  }

  lemma Subset(s: set<Elem>, t: set<Elem>)
    requires s <= t
    ensures |s| <= |t|
  {
    assert s + (t - s) == t;
  }

  /** Every element but zero is a power of x. */
  lemma LogExists(b: Elem) returns (l: nat)
    requires b != 0
    ensures l < ORDER && XPow(l) == b
  {
    hide XPow, Powers;
    PowersSize(ORDER);
    AtMost(Powers(ORDER) + {0, b});
    TwoMore(Powers(ORDER), b);
    l := PowersLog(ORDER, b);
  }

  lemma TwoMore(s: set<Elem>, b: Elem)
    requires b != 0 && 0 !in s
    ensures b !in s ==> |s + {0, b}| == |s| + 2
  {
    assert s + {0, b} == (s + {0}) + {b};
  }
}
