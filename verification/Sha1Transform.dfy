/** nid.c: the compression function with its circular schedule and rotating registers. */
module Sha1Transform {
  import opened Sha1Spec

  // ----- the basic functions as the source writes them -----

  function F(x: Word, y: Word, z: Word): Word { z ^ (x & (y ^ z)) }

  function G(x: Word, y: Word, z: Word): Word { x ^ y ^ z }

  function H(x: Word, y: Word, z: Word): Word { (x & y) | (z & (x | y)) }

  lemma ChoiceBits(x: Word, y: Word, z: Word)
    ensures z ^ (x & (y ^ z)) == (x & y) ^ (!x & z)
  {
  }

  lemma MajorityBits(x: Word, y: Word, z: Word)
    ensures (x & y) | (z & (x | y)) == (x & y) ^ (x & z) ^ (y & z)
  {
  }

  lemma FIsCh(x: Word, y: Word, z: Word)
    ensures F(x, y, z) == Ch(x, y, z)
  {
    ChoiceBits(x, y, z);
  }

  lemma GIsParity(x: Word, y: Word, z: Word)
    ensures G(x, y, z) == Parity(x, y, z)
  {
  }

  lemma HIsMaj(x: Word, y: Word, z: Word)
    ensures H(x, y, z) == Maj(x, y, z)
  {
    MajorityBits(x, y, z);
  }

  function Basic(t: nat, x: Word, y: Word, z: Word): Word {
    if t < 20 then F(x, y, z) else if 40 <= t < 60 then H(x, y, z) else G(x, y, z)
  }

  lemma BasicIsMix(t: nat, x: Word, y: Word, z: Word)
    ensures Basic(t, x, y, z) == Mix(t, x, y, z)
  {
    hide F, G, H, Ch, Parity, Maj;
    if t < 20 {
      FIsCh(x, y, z);
    } else if 40 <= t < 60 {
      HIsMaj(x, y, z);
    } else {
      GIsParity(x, y, z);
    }
  }

  /** The two additions to `e` that every macro makes. */
  function Added(e: Word, f: Word, w: Word, k: Word, r: Word): Word { (e + (f + w + k)) + r }

  lemma SumOrder(e: Word, f: Word, w: Word, k: Word, r: Word)
    ensures Added(e, f, w, k, r) == Total(r, f, e, k, w)
  {
    SumBits(e, f, w, k, r);
  }

  lemma SumBits(e: Word, f: Word, w: Word, k: Word, r: Word)
    ensures (e + (f + w + k)) + r == r + f + e + k + w
  {
  }

  function RotateLeft(x: Word, n: nat): Word
    requires n == 1 || n == 5 || n == 30
  {
    if n == 1 then (x << 1) | (x >> 31) else if n == 5 then (x << 5) | (x >> 27) else (x << 30) | (x >> 2)
  }

  lemma RotateIs(x: Word)
    ensures RotateLeft(x, 1) == Rotl(x, 1) && RotateLeft(x, 5) == Rotl(x, 5) && RotateLeft(x, 30) == Rotl(x, 30)
  {
  }

  // ----- the macros -----

  method FF(ghost h: Regs, ghost m: seq<Word>, ghost t: nat, a: Word, b: Word, c: Word, d: Word, e: Word, w: Word)
    returns (e': Word, b': Word)
    requires Block(m) && 0 <= t < 20 && Rounds(h, m, t) == Regs(a, b, c, d, e) && w == W(m, t)
    ensures Rounds(h, m, t + 1) == Regs(e', a, b', c, d)
  {
    hide W, Rounds, Added, Rotl, RotateLeft, F, G, H;
    RotateIs(a);
    RotateIs(b);
    e' := Added(e, F(b, c, d), w, 0x5A827999, RotateLeft(a, 5));
    b' := RotateLeft(b, 30);
    RoundIs(h, m, t, F(b, c, d), 0x5A827999);
  }

  method GG(ghost h: Regs, ghost m: seq<Word>, ghost t: nat, a: Word, b: Word, c: Word, d: Word, e: Word, w: Word)
    returns (e': Word, b': Word)
    requires Block(m) && 20 <= t < 40 && Rounds(h, m, t) == Regs(a, b, c, d, e) && w == W(m, t)
    ensures Rounds(h, m, t + 1) == Regs(e', a, b', c, d)
  {
    hide W, Rounds, Added, Rotl, RotateLeft, F, G, H;
    RotateIs(a);
    RotateIs(b);
    e' := Added(e, G(b, c, d), w, 0x6ED9EBA1, RotateLeft(a, 5));
    b' := RotateLeft(b, 30);
    RoundIs(h, m, t, G(b, c, d), 0x6ED9EBA1);
  }

  method HH(ghost h: Regs, ghost m: seq<Word>, ghost t: nat, a: Word, b: Word, c: Word, d: Word, e: Word, w: Word)
    returns (e': Word, b': Word)
    requires Block(m) && 40 <= t < 60 && Rounds(h, m, t) == Regs(a, b, c, d, e) && w == W(m, t)
    ensures Rounds(h, m, t + 1) == Regs(e', a, b', c, d)
  {
    hide W, Rounds, Added, Rotl, RotateLeft, F, G, H;
    RotateIs(a);
    RotateIs(b);
    e' := Added(e, H(b, c, d), w, 0x8F1BBCDC, RotateLeft(a, 5));
    b' := RotateLeft(b, 30);
    RoundIs(h, m, t, H(b, c, d), 0x8F1BBCDC);
  }

  method II(ghost h: Regs, ghost m: seq<Word>, ghost t: nat, a: Word, b: Word, c: Word, d: Word, e: Word, w: Word)
    returns (e': Word, b': Word)
    requires Block(m) && 60 <= t < 80 && Rounds(h, m, t) == Regs(a, b, c, d, e) && w == W(m, t)
    ensures Rounds(h, m, t + 1) == Regs(e', a, b', c, d)
  {
    hide W, Rounds, Added, Rotl, RotateLeft, F, G, H;
    RotateIs(a);
    RotateIs(b);
    e' := Added(e, G(b, c, d), w, 0xCA62C1D6, RotateLeft(a, 5));
    b' := RotateLeft(b, 30);
    RoundIs(h, m, t, G(b, c, d), 0xCA62C1D6);
  }

  lemma RoundIs(h: Regs, m: seq<Word>, t: nat, f: Word, k: Word)
    requires Block(m)
    requires f == Basic(t, Rounds(h, m, t).b, Rounds(h, m, t).c, Rounds(h, m, t).d) && k == K(t)
    ensures var r := Rounds(h, m, t);
      Rounds(h, m, t + 1) == Regs(Added(r.e, f, W(m, t), k, Rotl(r.a, 5)), r.a, Rotl(r.b, 30), r.c, r.d)
  {
    hide W, Rotl, Basic, Mix, Added, Total;
    var r := Rounds(h, m, t);
    BasicIsMix(t, r.b, r.c, r.d);
    SumOrder(r.e, f, W(m, t), k, Rotl(r.a, 5));
  }

  /** The 16 words that the schedule still needs, each in the place of the one 16 before it. */
  ghost predicate Window(x: seq<Word>, m: seq<Word>, i: nat) {
    |x| == 16 && Block(m) && 16 <= i && forall j: nat :: i - 16 <= j < i ==> x[j % 16] == W(m, j)
  }

  /** The macro W. */
  method Next(x: array<Word>, ghost m: seq<Word>, i: nat) returns (w: Word)
    requires x.Length == 16 && Window(x[..], m, i)
    modifies x
    ensures w == W(m, i) && Window(x[..], m, i + 1)
  {
    hide W, Rotl, RotateLeft, Window;
    ghost var was := x[..];
    Needed(was, m, i);
    var tmp := x[(i - 3) % 16] ^ x[(i - 8) % 16] ^ x[(i - 14) % 16] ^ x[i % 16];
    RotateIs(tmp);
    w := RotateLeft(tmp, 1);
    x[i % 16] := w;
    assert x[..] == was[i % 16 := w];
    Slides(was, m, i);
  }

  /** The next word is made of four in the window, the oldest of which is in its place. */
  lemma Needed(x: seq<Word>, m: seq<Word>, i: nat)
    requires Window(x, m, i)
    ensures |x| == 16 && i >= 16
    ensures W(m, i) == Rotl(x[(i - 3) % 16] ^ x[(i - 8) % 16] ^ x[(i - 14) % 16] ^ x[i % 16], 1)
  {
    hide W, Rotl;
    assert Places(i);
    WordIs(m, i);
    assert x[(i - 3) % 16] == W(m, i - 3) && x[(i - 8) % 16] == W(m, i - 8);
    assert x[(i - 14) % 16] == W(m, i - 14) && x[(i - 16) % 16] == W(m, i - 16);
  }

  lemma Slides(x: seq<Word>, m: seq<Word>, i: nat)
    requires Window(x, m, i)
    ensures Window(x[i % 16 := W(m, i)], m, i + 1)
  {
    hide W;
    var y := x[i % 16 := W(m, i)];
    forall j: nat | i + 1 - 16 <= j < i + 1 ensures y[j % 16] == W(m, j) {
      if j < i { assert j % 16 != i % 16; }
    }
  }

  predicate Places(i: nat) { i < 16 || (i - 16) % 16 == i % 16 }

  lemma WordIs(m: seq<Word>, t: nat)
    requires Block(m) && t >= 16
    ensures W(m, t) == Rotl(W(m, t - 3) ^ W(m, t - 8) ^ W(m, t - 14) ^ W(m, t - 16), 1)
  {
  }

  // ----- the 80 rounds -----

  method Round1(x: array<Word>, ghost h: Regs, ghost m: seq<Word>, r: Regs) returns (r': Regs)
    requires Block(m) && x.Length == 16 && x[..] == m && r == Rounds(h, m, 0)
    modifies x
    ensures Window(x[..], m, 20) && r' == Rounds(h, m, 20)
  {
    hide W, Rounds, Window;
    var a, b, c, d, e := r.a, r.b, r.c, r.d, r.e;
    var w;
    Loaded(x[..], m);
    e, b := FF(h, m, 0, a, b, c, d, e, x[0]);
    d, a := FF(h, m, 1, e, a, b, c, d, x[1]);
    c, e := FF(h, m, 2, d, e, a, b, c, x[2]);
    b, d := FF(h, m, 3, c, d, e, a, b, x[3]);
    a, c := FF(h, m, 4, b, c, d, e, a, x[4]);
    e, b := FF(h, m, 5, a, b, c, d, e, x[5]);
    d, a := FF(h, m, 6, e, a, b, c, d, x[6]);
    c, e := FF(h, m, 7, d, e, a, b, c, x[7]);
    b, d := FF(h, m, 8, c, d, e, a, b, x[8]);
    a, c := FF(h, m, 9, b, c, d, e, a, x[9]);
    e, b := FF(h, m, 10, a, b, c, d, e, x[10]);
    d, a := FF(h, m, 11, e, a, b, c, d, x[11]);
    c, e := FF(h, m, 12, d, e, a, b, c, x[12]);
    b, d := FF(h, m, 13, c, d, e, a, b, x[13]);
    a, c := FF(h, m, 14, b, c, d, e, a, x[14]);
    e, b := FF(h, m, 15, a, b, c, d, e, x[15]);
    w := Next(x, m, 16);
    d, a := FF(h, m, 16, e, a, b, c, d, w);
    w := Next(x, m, 17);
    c, e := FF(h, m, 17, d, e, a, b, c, w);
    w := Next(x, m, 18);
    b, d := FF(h, m, 18, c, d, e, a, b, w);
    w := Next(x, m, 19);
    a, c := FF(h, m, 19, b, c, d, e, a, w);
    r' := Regs(a, b, c, d, e);
  }

  method Round2(x: array<Word>, ghost h: Regs, ghost m: seq<Word>, r: Regs) returns (r': Regs)
    requires Block(m) && x.Length == 16 && Window(x[..], m, 20) && r == Rounds(h, m, 20)
    modifies x
    ensures Window(x[..], m, 40) && r' == Rounds(h, m, 40)
  {
    hide W, Rounds, Window;
    var a, b, c, d, e := r.a, r.b, r.c, r.d, r.e;
    var w;
    w := Next(x, m, 20);
    e, b := GG(h, m, 20, a, b, c, d, e, w);
    w := Next(x, m, 21);
    d, a := GG(h, m, 21, e, a, b, c, d, w);
    w := Next(x, m, 22);
    c, e := GG(h, m, 22, d, e, a, b, c, w);
    w := Next(x, m, 23);
    b, d := GG(h, m, 23, c, d, e, a, b, w);
    w := Next(x, m, 24);
    a, c := GG(h, m, 24, b, c, d, e, a, w);
    w := Next(x, m, 25);
    e, b := GG(h, m, 25, a, b, c, d, e, w);
    w := Next(x, m, 26);
    d, a := GG(h, m, 26, e, a, b, c, d, w);
    w := Next(x, m, 27);
    c, e := GG(h, m, 27, d, e, a, b, c, w);
    w := Next(x, m, 28);
    b, d := GG(h, m, 28, c, d, e, a, b, w);
    w := Next(x, m, 29);
    a, c := GG(h, m, 29, b, c, d, e, a, w);
    w := Next(x, m, 30);
    e, b := GG(h, m, 30, a, b, c, d, e, w);
    w := Next(x, m, 31);
    d, a := GG(h, m, 31, e, a, b, c, d, w);
    w := Next(x, m, 32);
    c, e := GG(h, m, 32, d, e, a, b, c, w);
    w := Next(x, m, 33);
    b, d := GG(h, m, 33, c, d, e, a, b, w);
    w := Next(x, m, 34);
    a, c := GG(h, m, 34, b, c, d, e, a, w);
    w := Next(x, m, 35);
    e, b := GG(h, m, 35, a, b, c, d, e, w);
    w := Next(x, m, 36);
    d, a := GG(h, m, 36, e, a, b, c, d, w);
    w := Next(x, m, 37);
    c, e := GG(h, m, 37, d, e, a, b, c, w);
    w := Next(x, m, 38);
    b, d := GG(h, m, 38, c, d, e, a, b, w);
    w := Next(x, m, 39);
    a, c := GG(h, m, 39, b, c, d, e, a, w);
    r' := Regs(a, b, c, d, e);
  }

  method Round3(x: array<Word>, ghost h: Regs, ghost m: seq<Word>, r: Regs) returns (r': Regs)
    requires Block(m) && x.Length == 16 && Window(x[..], m, 40) && r == Rounds(h, m, 40)
    modifies x
    ensures Window(x[..], m, 60) && r' == Rounds(h, m, 60)
  {
    hide W, Rounds, Window;
    var a, b, c, d, e := r.a, r.b, r.c, r.d, r.e;
    var w;
    w := Next(x, m, 40);
    e, b := HH(h, m, 40, a, b, c, d, e, w);
    w := Next(x, m, 41);
    d, a := HH(h, m, 41, e, a, b, c, d, w);
    w := Next(x, m, 42);
    c, e := HH(h, m, 42, d, e, a, b, c, w);
    w := Next(x, m, 43);
    b, d := HH(h, m, 43, c, d, e, a, b, w);
    w := Next(x, m, 44);
    a, c := HH(h, m, 44, b, c, d, e, a, w);
    w := Next(x, m, 45);
    e, b := HH(h, m, 45, a, b, c, d, e, w);
    w := Next(x, m, 46);
    d, a := HH(h, m, 46, e, a, b, c, d, w);
    w := Next(x, m, 47);
    c, e := HH(h, m, 47, d, e, a, b, c, w);
    w := Next(x, m, 48);
    b, d := HH(h, m, 48, c, d, e, a, b, w);
    w := Next(x, m, 49);
    a, c := HH(h, m, 49, b, c, d, e, a, w);
    w := Next(x, m, 50);
    e, b := HH(h, m, 50, a, b, c, d, e, w);
    w := Next(x, m, 51);
    d, a := HH(h, m, 51, e, a, b, c, d, w);
    w := Next(x, m, 52);
    c, e := HH(h, m, 52, d, e, a, b, c, w);
    w := Next(x, m, 53);
    b, d := HH(h, m, 53, c, d, e, a, b, w);
    w := Next(x, m, 54);
    a, c := HH(h, m, 54, b, c, d, e, a, w);
    w := Next(x, m, 55);
    e, b := HH(h, m, 55, a, b, c, d, e, w);
    w := Next(x, m, 56);
    d, a := HH(h, m, 56, e, a, b, c, d, w);
    w := Next(x, m, 57);
    c, e := HH(h, m, 57, d, e, a, b, c, w);
    w := Next(x, m, 58);
    b, d := HH(h, m, 58, c, d, e, a, b, w);
    w := Next(x, m, 59);
    a, c := HH(h, m, 59, b, c, d, e, a, w);
    r' := Regs(a, b, c, d, e);
  }

  method Round4(x: array<Word>, ghost h: Regs, ghost m: seq<Word>, r: Regs) returns (r': Regs)
    requires Block(m) && x.Length == 16 && Window(x[..], m, 60) && r == Rounds(h, m, 60)
    modifies x
    ensures Window(x[..], m, 80) && r' == Rounds(h, m, 80)
  {
    hide W, Rounds, Window;
    var a, b, c, d, e := r.a, r.b, r.c, r.d, r.e;
    var w;
    w := Next(x, m, 60);
    e, b := II(h, m, 60, a, b, c, d, e, w);
    w := Next(x, m, 61);
    d, a := II(h, m, 61, e, a, b, c, d, w);
    w := Next(x, m, 62);
    c, e := II(h, m, 62, d, e, a, b, c, w);
    w := Next(x, m, 63);
    b, d := II(h, m, 63, c, d, e, a, b, w);
    w := Next(x, m, 64);
    a, c := II(h, m, 64, b, c, d, e, a, w);
    w := Next(x, m, 65);
    e, b := II(h, m, 65, a, b, c, d, e, w);
    w := Next(x, m, 66);
    d, a := II(h, m, 66, e, a, b, c, d, w);
    w := Next(x, m, 67);
    c, e := II(h, m, 67, d, e, a, b, c, w);
    w := Next(x, m, 68);
    b, d := II(h, m, 68, c, d, e, a, b, w);
    w := Next(x, m, 69);
    a, c := II(h, m, 69, b, c, d, e, a, w);
    w := Next(x, m, 70);
    e, b := II(h, m, 70, a, b, c, d, e, w);
    w := Next(x, m, 71);
    d, a := II(h, m, 71, e, a, b, c, d, w);
    w := Next(x, m, 72);
    c, e := II(h, m, 72, d, e, a, b, c, w);
    w := Next(x, m, 73);
    b, d := II(h, m, 73, c, d, e, a, b, w);
    w := Next(x, m, 74);
    a, c := II(h, m, 74, b, c, d, e, a, w);
    w := Next(x, m, 75);
    e, b := II(h, m, 75, a, b, c, d, e, w);
    w := Next(x, m, 76);
    d, a := II(h, m, 76, e, a, b, c, d, w);
    w := Next(x, m, 77);
    c, e := II(h, m, 77, d, e, a, b, c, w);
    w := Next(x, m, 78);
    b, d := II(h, m, 78, c, d, e, a, b, w);
    w := Next(x, m, 79);
    a, c := II(h, m, 79, b, c, d, e, a, w);
    r' := Regs(a, b, c, d, e);
  }

  lemma Loaded(x: seq<Word>, m: seq<Word>)
    requires Block(m) && x == m
    ensures Window(x, m, 16) && forall t: nat :: t < 16 ==> W(m, t) == x[t]
  {
  }

  function Decoded(a: Byte, b: Byte, c: Byte, d: Byte): Word {
    (d as Word) | ((c as Word) << 8) | ((b as Word) << 16) | ((a as Word) << 24)
  }

  lemma DecodeIs(a: Byte, b: Byte, c: Byte, d: Byte)
    ensures Decoded(a, b, c, d) == Join(a, b, c, d)
  {
  }

  /** SHA1Decode */
  method Decode(block: seq<Byte>) returns (x: array<Word>)
    requires |block| == 64
    ensures fresh(x) && x[..] == Words(block)
  {
    hide Join, Decoded;
    x := new Word[16];
    var i, j := 0, 0;
    while j < 64
      invariant 0 <= i <= 16 && j == 4 * i
      invariant forall k :: 0 <= k < i ==> x[k] == Words(block)[k]
    {
      DecodeIs(block[j], block[j + 1], block[j + 2], block[j + 3]);
      x[i] := Decoded(block[j], block[j + 1], block[j + 2], block[j + 3]);
      i, j := i + 1, j + 4;
    }
  }

  /** The five additions at the end of SHA1Transform. */
  function Added5(h: Regs, r: Regs): Regs { Regs(h.a + r.a, h.b + r.b, h.c + r.c, h.d + r.d, h.e + r.e) }

  lemma AddedIs(h: Regs, r: Regs)
    ensures Added5(h, r) == Sum(h, r)
  {
  }

  /** SHA1Transform: the 16-word circular schedule and the registers that change their names
      instead of their values compute the compression function. */
  method Transform(h: Regs, block: seq<Byte>) returns (h': Regs)
    requires |block| == 64
    ensures h' == Compress(h, Words(block))
  {
    hide W, Window, Rounds, Words, Sum, Added5;
    ghost var m := Words(block);
    NoRounds(h, m);
    var x := Decode(block);
    var r := Round1(x, h, m, h);
    r := Round2(x, h, m, r);
    r := Round3(x, h, m, r);
    r := Round4(x, h, m, r);
    AddedIs(h, r);
    h' := Added5(h, r);
  }

  lemma NoRounds(h: Regs, m: seq<Word>)
    requires Block(m)
    ensures Rounds(h, m, 0) == h
  {
  }
}
