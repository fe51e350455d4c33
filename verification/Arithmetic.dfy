/** Facts about integers that several parts use. */
module Arithmetic {
  const TWO_32: nat := 0x1_0000_0000

  const TWO_64: nat := 0x1_0000_0000_0000_0000

  predicate Int32(x: int) { -0x8000_0000 <= x < 0x8000_0000 }

  function Max(a: int, b: int): int { if a < b then b else a }

  function Pow2(n: nat): nat { if n == 0 then 1 else 2 * Pow2(n - 1) }

  lemma {:induction false} Pow2Add(m: nat, n: nat)
    ensures Pow2(m + n) == Pow2(m) * Pow2(n)
  {
    if m > 0 { Pow2Add(m - 1, n); }
  }

  lemma Pow2Of16()
    ensures Pow2(16) == 0x1_0000
  {
    assert Pow2(4) == 16;
    Pow2Add(4, 4);
    Pow2Add(8, 8);
  }

  lemma Pow2Of64()
    ensures Pow2(64) == TWO_64
  {
    Pow2Of16();
    hide Pow2;
    Pow2Add(16, 16);
    Pow2Add(32, 32);
  }

  lemma Multiplied(n: int, j: int)
    requires n > 0
    ensures j >= 1 ==> n * j >= n
    ensures j <= -1 ==> n * j <= -n
  {
  }

  lemma ModIs(a: nat, q: nat, r: nat, n: nat)
    requires n > 0 && a == n * q + r && r < n
    ensures a % n == r && a / n == q
  {
    assert n * (q - a / n) == a % n - r;
    Multiplied(n, q - a / n);
  }
}
