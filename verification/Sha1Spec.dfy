/** The secure hash algorithm SHA-1, as sections 4.1.1, 5.1.1, 6.1.1 and 6.1.2 of FIPS 180-4 define it. */
module Sha1Spec {
  import opened Bytes

  type Byte = bv8

  type Word = bv32

  /** The working variables, and the hash value between blocks. */
  datatype Regs = Regs(a: Word, b: Word, c: Word, d: Word, e: Word)

  function Rotl(x: Word, n: nat): Word
    requires n == 1 || n == 5 || n == 30
  {
    if n == 1 then x.RotateLeft(1) else if n == 5 then x.RotateLeft(5) else x.RotateLeft(30)
  }

  function Ch(x: Word, y: Word, z: Word): Word { (x & y) ^ (!x & z) }

  function Parity(x: Word, y: Word, z: Word): Word { x ^ y ^ z }

  function Maj(x: Word, y: Word, z: Word): Word { (x & y) ^ (x & z) ^ (y & z) }

  function Mix(t: nat, x: Word, y: Word, z: Word): Word {
    if t < 20 then Ch(x, y, z) else if 40 <= t < 60 then Maj(x, y, z) else Parity(x, y, z)
  }

  function K(t: nat): Word {
    if t < 20 then 0x5a827999 else if t < 40 then 0x6ed9eba1 else if t < 60 then 0x8f1bbcdc else 0xca62c1d6
  }

  predicate Block(m: seq<Word>) { |m| == 16 }

  /** The message schedule of 80 words. */
  function W(m: seq<Word>, t: nat): Word
    requires Block(m)
  {
    if t < 16 then m[t] else Rotl(W(m, t - 3) ^ W(m, t - 8) ^ W(m, t - 14) ^ W(m, t - 16), 1)
  }

  function Total(r: Word, f: Word, e: Word, k: Word, w: Word): Word { r + f + e + k + w }

  function Round(t: nat, w: Word, r: Regs): Regs {
    Regs(Total(Rotl(r.a, 5), Mix(t, r.b, r.c, r.d), r.e, K(t), w), r.a, Rotl(r.b, 30), r.c, r.d)
  }

  /** The working variables after `t` rounds. */
  function Rounds(h: Regs, m: seq<Word>, t: nat): Regs
    requires Block(m)
  {
    if t == 0 then h else Round(t - 1, W(m, t - 1), Rounds(h, m, t - 1))
  }

  function Sum(x: Regs, y: Regs): Regs { Regs(x.a + y.a, x.b + y.b, x.c + y.c, x.d + y.d, x.e + y.e) }

  function Compress(h: Regs, m: seq<Word>): Regs
    requires Block(m)
  {
    Sum(h, Rounds(h, m, 80))
  }

  /** Four bytes, the first one highest. */
  function Join(a: Byte, b: Byte, c: Byte, d: Byte): Word {
    ((a as Word) << 24) | ((b as Word) << 16) | ((c as Word) << 8) | (d as Word)
  }

  lemma JoinUp2(a: Byte, b: Byte, c: Byte, d: Byte)
    requires a != 0
    ensures Join(Less(a), b, c, d) < 0xff00_0000 && Join(a, b, c, d) == Plus32(Join(Less(a), b, c, d), 2)
  {
  }

  lemma JoinUp1(b: Byte, c: Byte, d: Byte)
    requires b != 0
    ensures Join(0, Less(b), c, d) < 0xff_0000 && Join(0, b, c, d) == Plus32(Join(0, Less(b), c, d), 1)
  {
  }

  lemma JoinUp0(c: Byte, d: Byte)
    requires c != 0
    ensures Join(0, 0, Less(c), d) < 0xff00 && Join(0, 0, c, d) == Plus32(Join(0, 0, Less(c), d), 0)
  {
  }

  lemma JoinLow(d: Byte)
    ensures Num32(Join(0, 0, 0, d)) == Num8(d)
  {
  }

  /** The first byte counts most. */
  lemma {:induction false} JoinNumber(a: Byte, b: Byte, c: Byte, d: Byte)
    ensures Num32(Join(a, b, c, d)) == Num8(a) * 0x100_0000 + Num8(b) * 0x1_0000 + Num8(c) * 0x100 + Num8(d)
    decreases Num8(a), Num8(b), Num8(c)
  {
    hide Join, Num8, Num32, Less, Plus32;
    ZeroNum();
    if a != 0 {
      LessNum(a);
      JoinUp2(a, b, c, d);
      JoinNumber(Less(a), b, c, d);
      Plus32Num(Join(Less(a), b, c, d), 2);
    } else if b != 0 {
      LessNum(b);
      JoinUp1(b, c, d);
      JoinNumber(0, Less(b), c, d);
      Plus32Num(Join(0, Less(b), c, d), 1);
    } else if c != 0 {
      LessNum(c);
      JoinUp0(c, d);
      JoinNumber(0, 0, Less(c), d);
      Plus32Num(Join(0, 0, Less(c), d), 0);
    } else {
      JoinLow(d);
    }
  }

  function Words(s: seq<Byte>): (m: seq<Word>)
    requires |s| == 64
    ensures Block(m)
  {
    seq(16, i requires 0 <= i < 16 => Join(s[4 * i], s[4 * i + 1], s[4 * i + 2], s[4 * i + 3]))
  }

  /** All whole blocks of the bytes, one after the other. */
  function Process(h: Regs, s: seq<Byte>): Regs
    decreases |s|
  {
    if |s| < 64 then h else Process(Compress(h, Words(s[..64])), s[64..])
  }

  const IV := Regs(0x67452301, 0xefcdab89, 0x98badcfe, 0x10325476, 0xc3d2e1f0)

  function ByteOf(n: nat): Byte { (n % 256) as Byte }

  /** A 32-bit number as 4 bytes, the first one highest. */
  function Four(n: nat): (r: seq<Byte>)
    ensures |r| == 4
  {
    [ByteOf(n / 0x100_0000), ByteOf(n / 0x1_0000), ByteOf(n / 0x100), ByteOf(n)]
  }

  /** A 64-bit length as 8 bytes. */
  function LengthBytes(bits: nat): (r: seq<Byte>)
    ensures |r| == 8
  {
    Four(bits / 0x1_0000_0000) + Four(bits % 0x1_0000_0000)
  }

  /** How many zero bytes follow the first byte of the padding. */
  function Zeros(n: nat): (z: nat)
    ensures z < 64 && (n + 1 + z) % 64 == 56
  {
    (119 - n % 64) % 64
  }

  function Repeat(n: nat): (r: seq<Byte>) ensures |r| == n { seq(n, _ => 0) }

  lemma PadLength(n: nat)
    ensures (n + 1 + Zeros(n) + 8) % 64 == 0
  {
  }

  function Pad(s: seq<Byte>): (r: seq<Byte>)
    ensures |r| % 64 == 0
  {
    PadLength(|s|);
    s + [0x80] + Repeat(Zeros(|s|)) + LengthBytes(8 * |s| % 0x1_0000_0000_0000_0000)
  }

  function WordBytes(w: Word): (r: seq<Byte>)
    ensures |r| == 4
  {
    [((w >> 24) & 255) as Byte, ((w >> 16) & 255) as Byte, ((w >> 8) & 255) as Byte, (w & 255) as Byte]
  }

  lemma JoinBytes(w: Word)
    ensures var r := WordBytes(w); Join(r[0], r[1], r[2], r[3]) == w
  {
  }

  function Digest(h: Regs): (r: seq<Byte>)
    ensures |r| == 20
  {
    WordBytes(h.a) + WordBytes(h.b) + WordBytes(h.c) + WordBytes(h.d) + WordBytes(h.e)
  }

  function Sha1(s: seq<Byte>): (r: seq<Byte>)
    ensures |r| == 20
  {
    Digest(Process(IV, Pad(s)))
  }

  // ----- blocks -----

  /** Whole blocks first, the rest after them. */
  lemma {:induction false} ProcessAppend(h: Regs, a: seq<Byte>, b: seq<Byte>)
    requires |a| % 64 == 0
    ensures Process(h, a + b) == Process(Process(h, a), b)
    decreases |a|
  {
    hide Compress, Words;
    if |a| == 0 {
      assert a + b == b;
    } else {
      assert (a + b)[..64] == a[..64] && (a + b)[64..] == a[64..] + b;
      ProcessAppend(Compress(h, Words(a[..64])), a[64..], b);
    }
  }

  lemma ProcessOne(h: Regs, a: seq<Byte>)
    requires |a| == 64
    ensures Process(h, a) == Compress(h, Words(a))
  {
    assert a[..64] == a && |a[64..]| == 0;
  }
}
