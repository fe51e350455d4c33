/** nid.c: hashing a message that comes in pieces. */
module Sha1Stream {
  import opened Arithmetic
  import opened Sha1Spec
  import opened Sha1Transform

  /** The bytes in whole blocks, and those after them. */
  function Whole(m: seq<Byte>): seq<Byte> { m[..|m| / 64 * 64] }

  function Rest(m: seq<Byte>): seq<Byte> { m[|m| / 64 * 64..] }

  /** memcpy into a buffer. */
  method CopyIn(dst: array<Byte>, at: nat, src: seq<Byte>, from: nat, n: nat)
    requires at + n <= dst.Length && from + n <= |src|
    modifies dst
    ensures dst[..] == old(dst[..at]) + src[from..from + n] + old(dst[at + n..])
  {
    var k := 0;
    while k < n
      invariant 0 <= k <= n
      invariant forall i :: 0 <= i < dst.Length ==> dst[i] == if at <= i < at + k then src[from + i - at] else old(dst[i])
    {
      dst[at + k] := src[from + k];
      k := k + 1;
    }
  }

  /** The two halves of the bit count, after `len` more bytes. */
  function Low(c0: nat, len: nat): nat { (c0 + 8 * len) % TWO_32 }

  function High(c0: nat, c1: nat, len: nat): nat {
    ((c1 + if Low(c0, len) < c0 then 1 else 0) + len / 0x2000_0000) % TWO_32
  }

  lemma CountAdds(c0: nat, c1: nat, len: nat)
    requires c0 < TWO_32 && c1 < TWO_32
    ensures High(c0, c1, len) * TWO_32 + Low(c0, len) == (c1 * TWO_32 + c0 + 8 * len) % TWO_64
  {
    var q, r := len / 0x2000_0000, len % 0x2000_0000;
    assert 8 * len == q * TWO_32 + 8 * r;
    var low := Low(c0, len);
    assert low == (c0 + 8 * r) % TWO_32 by { ModDrop(c0 + 8 * r, q, TWO_32); assert c0 + 8 * len == c0 + 8 * r + q * TWO_32; }
    var carry := if low < c0 then 1 else 0;
    assert c0 + 8 * r == carry * TWO_32 + low;
    var s := c1 + carry + q;
    assert c1 * TWO_32 + c0 + 8 * len == s * TWO_32 + low;
    Halves(s, low);
  }

  lemma ModDrop(a: nat, q: nat, n: nat)
    requires n > 0
    ensures (a + q * n) % n == a % n
    decreases q
  {
    if q > 0 {
      ModDrop(a, q - 1, n);
      assert a + q * n == (a + (q - 1) * n) + n;
      ModStep(a + (q - 1) * n, n);
    }
  }

  lemma ModStep(a: nat, n: nat)
    requires n > 0
    ensures (a + n) % n == a % n
  {
    var q, r := a / n, a % n;
    assert a + n == n * (q + 1) + r;
    ModIs(a + n, q + 1, r, n);
  }

  lemma Halves(s: nat, low: nat)
    requires low < TWO_32
    ensures (s * TWO_32 + low) % TWO_64 == s % TWO_32 * TWO_32 + low
  {
    var q, r := s / TWO_32, s % TWO_32;
    assert s * TWO_32 + low == TWO_64 * q + (r * TWO_32 + low);
    ModIs(s * TWO_32 + low, q, r * TWO_32 + low, TWO_64);
  }

  // ----- whole blocks of a longer message -----

  lemma MoreBlocks(h: Regs, m: seq<Byte>, k: nat)
    requires k % 64 == 0 && k + 64 <= |m|
    ensures Process(h, m[..k + 64]) == Compress(Process(h, m[..k]), Words(m[k..k + 64]))
  {
    hide Process, Compress, Words;
    assert m[..k + 64] == m[..k] + m[k..k + 64];
    ProcessAppend(h, m[..k], m[k..k + 64]);
    ProcessOne(Process(h, m[..k]), m[k..k + 64]);
  }

  lemma NothingYet()
    ensures Process(IV, []) == IV && Whole([]) == []
  {
  }

  /** Positions of a message of `n` bytes to which `len` are added. */
  lemma BlockEnds(n: nat, len: nat)
    ensures var j := n % 64;
      && n / 64 * 64 == n - j
      && (j + len <= 63 ==> (n + len) / 64 * 64 == n - j)
      && (n + (64 - j)) % 64 == 0
  {
  }

  lemma LastBlock(k: nat, total: nat)
    requires k % 64 == 0 && k <= total < k + 64
    ensures total / 64 * 64 == k && total % 64 == total - k
  {
  }

  /** The 32-bit index does not wrap around. */
  lemma NoWrap(base: nat, i: nat, len: nat)
    requires (base + i) % 64 == 0 && base % 64 + len < TWO_32 && i <= len
    ensures (i + 63) % TWO_32 == i + 63
    ensures i + 63 < len ==> (i + 64) % TWO_32 == i + 64 && (base + i + 64) % 64 == 0
  {
  }

  lemma FirstByte(n: nat, c0: nat)
    requires c0 == 8 * n % TWO_64 % TWO_32
    ensures c0 / 8 % 64 == n % 64
  {
    var q, r := n / 0x2000_0000, n % 0x2000_0000;
    var q2, r2 := 8 * n / TWO_64, 8 * n % TWO_64;
    assert 8 * n == 8 * r + q * TWO_32;
    assert 8 * n == r2 + q2 * TWO_32 * TWO_32;
    ModDrop(r2, q2 * TWO_32, TWO_32);
    ModDrop(8 * r, q, TWO_32);
    assert c0 == 8 * r;
    assert n == r + q * 0x80_0000 * 64;
    ModDrop(r, q * 0x80_0000, 64);
  }

  /** A buffer whose end was filled holds the bytes of one block. */
  lemma BufferFull(b: seq<Byte>, message: seq<Byte>, data: seq<Byte>, j: nat)
    requires |b| == 64 && j == |message| % 64 && 64 - j <= |data|
    requires b[..j] == Rest(message) && b[j..64] == data[..64 - j]
    ensures var k := |message| - j; b == (message + data)[k..k + 64]
  {
    assert b == b[..j] + b[j..64];
  }

  /** SHA1_CTX. `message` is all that was hashed so far. */
  /** Byte `k` of a number, counted from the lowest. */
  function Part(n: nat, k: nat): Byte
    requires k < 4
  {
    ByteOf(if k == 0 then n else if k == 1 then n / 0x100 else if k == 2 then n / 0x1_0000 else n / 0x100_0000)
  }

  /** Byte `k` of a register, counted from the lowest. */
  function Octet(w: Word, k: nat): Byte
    requires k < 4
  {
    if k == 0 then (w & 255) as Byte
    else if k == 1 then ((w >> 8) & 255) as Byte
    else if k == 2 then ((w >> 16) & 255) as Byte
    else ((w >> 24) & 255) as Byte
  }

  /** The last loop of SHA1Final. */
  method DigestBytes(h: Regs) returns (digest: seq<Byte>)
    ensures digest == Digest(h)
  {
    hide Digest, Octet;
    var state := [h.a, h.b, h.c, h.d, h.e];
    digest := [];
    var i := 0;
    while i < 20
      invariant 0 <= i <= 20 && digest == Digest(h)[..i]
    {
      OctetAt(h, state, i);
      digest := digest + [Octet(state[i / 4], 3 - i % 4)];
      i := i + 1;
    }
  }

  lemma OctetIs(w: Word, k: nat)
    requires k < 4
    ensures Octet(w, 3 - k) == WordBytes(w)[k]
  {
  }

  lemma FiveAt(a: seq<Byte>, b: seq<Byte>, c: seq<Byte>, d: seq<Byte>, e: seq<Byte>, i: nat)
    requires |a| == |b| == |c| == |d| == |e| == 4 && i < 20
    ensures (a + b + c + d + e)[i] == [a, b, c, d, e][i / 4][i % 4]
  {
  }

  lemma FourAt(n: nat, k: nat)
    requires k < 4
    ensures Four(n)[k] == Part(n, 3 - k)
  {
    hide ByteOf;
  }

  lemma CountFours(c1: nat, c0: nat)
    requires c0 < TWO_32
    ensures LengthBytes(c1 * TWO_32 + c0) == Four(c1) + Four(c0)
  {
    hide Four;
    ModIs(c1 * TWO_32 + c0, c1, c0, TWO_32);
  }

  lemma OctetAt(h: Regs, state: seq<Word>, i: nat)
    requires i < 20 && state == [h.a, h.b, h.c, h.d, h.e]
    ensures Octet(state[i / 4], 3 - i % 4) == Digest(h)[i]
  {
    hide WordBytes, Octet;
    var a, b, c, d, e := WordBytes(h.a), WordBytes(h.b), WordBytes(h.c), WordBytes(h.d), WordBytes(h.e);
    FiveAt(a, b, c, d, e, i);
    OctetIs(state[i / 4], i % 4);
  }

  class Context {
    var state: Regs
    var count0: nat
    var count1: nat
    const buffer: array<Byte>
    ghost var message: seq<Byte>

    /** The state has taken in the whole blocks, the buffer holds the rest, and the two counters
        hold the number of bits modulo 2^64: all three are determined by the message. */
    ghost predicate Valid()
      reads this, buffer
    {
      && buffer.Length == 64 && count0 < TWO_32 && count1 < TWO_32
      && count1 * TWO_32 + count0 == 8 * |message| % TWO_64
      && state == Process(IV, Whole(message))
      && buffer[..|message| % 64] == Rest(message)
    }

    /** SHA1Init */
    constructor ()
      ensures Valid() && fresh(buffer) && message == []
    {
      state := Regs(0x67452301, 0xEFCDAB89, 0x98BADCFE, 0x10325476, 0xC3D2E1F0);
      count0, count1, message := 0, 0, [];
      buffer := new Byte[64];
      NothingYet();
    }

    /** The counters of SHA1Update. */
    method AddCount(len: nat)
      requires count0 < TWO_32 && count1 < TWO_32
      modifies this`count0, this`count1
      ensures count0 == Low(old(count0), len) && count1 == High(old(count0), old(count1), len)
    {
      var j := count0;
      count0 := (count0 + 8 * len) % TWO_32;
      if count0 < j { count1 := (count1 + 1) % TWO_32; }
      count1 := (count1 + len / 0x2000_0000) % TWO_32;
      HighIs(old(count1), if count0 < j then 1 else 0, len / 0x2000_0000);
    }

    /** The blocks of SHA1Update, from position `i0` on; `i` is a 32-bit number. */
    method Blocks(data: seq<Byte>, i0: nat, ghost m: seq<Byte>) returns (i: nat)
      requires i0 <= |data| <= |m| && m[|m| - |data|..] == data && (|m| - |data|) % 64 + |data| < TWO_32
      requires var k := |m| - |data| + i0; k % 64 == 0 && state == Process(IV, m[..k])
      modifies this`state
      ensures i0 <= i <= |data| && |data| - i < 64
      ensures var k := |m| - |data| + i; k % 64 == 0 && state == Process(IV, m[..k])
    {
      hide Process, Compress, Words;
      ghost var base := |m| - |data|;
      i := i0;
      NoWrap(base, i, |data|);
      while (i + 63) % TWO_32 < |data|
        invariant i0 <= i <= |data| && (i + 63) % TWO_32 == i + 63
        invariant (base + i) % 64 == 0 && state == Process(IV, m[..base + i])
        decreases |data| - i
      {
        MoreBlocks(IV, m, base + i);
        assert data[i..i + 64] == m[base + i..base + i + 64];
        state := Transform(state, data[i..i + 64]);
        NoWrap(base, i, |data|);
        i := (i + 64) % TWO_32;
        NoWrap(base, i, |data|);
      }
    }

    /** The part of SHA1Update that fills the buffer and takes in whole blocks. */
    method Absorb(data: seq<Byte>, j: nat, ghost m: seq<Byte>) returns (i: nat)
      requires buffer.Length == 64 && m == message + data && j == |message| % 64 && j + |data| < TWO_32 && j + |data| > 63
      requires state == Process(IV, Whole(message)) && buffer[..j] == Rest(message)
      modifies this`state, buffer
      ensures i <= |data| && |data| - i == |m| % 64 && state == Process(IV, Whole(m))
    {
      hide Process, Compress, Words;
      BlockEnds(|message|, |data|);
      ghost var k := |message| - j;
      CopyIn(buffer, j, data, 0, 64 - j);
      BufferFull(buffer[..], message, data, j);
      MoreBlocks(IV, m, k);
      assert m[..k] == message[..k];
      state := Transform(state, buffer[..]);
      assert m[|m| - |data|..] == data;
      i := Blocks(data, 64 - j, m);
      LastBlock(|message| + i, |m|);
    }

    /** SHA1Update: only the message counts, not how it was cut. It ends if what the buffer
        holds and the new bytes stay below 2^32 together; NeverEnds shows that otherwise it
        does not. */
    method Update(data: seq<Byte>)
      requires Valid() && |message| % 64 + |data| < TWO_32
      modifies this, buffer
      ensures Valid() && message == old(message) + data
    {
      hide Process, Low, High;
      ghost var m := message + data;
      var len := |data|;
      var j := count0;
      CountSplit(count0, count1, |message|);
      FirstByte(|message|, count0);
      CountGrows(count0, count1, |message|, len);
      AddCount(len);
      j := j / 8 % 64;
      var i;
      if j + len > 63 {
        i := Absorb(data, j, m);
        j := 0;
      } else {
        i := 0;
        Shorter(message, data);
      }
      CopyIn(buffer, j, data, i, len - i);
      Buffered(message, data, j, i);
      message := m;
    }

    /** The bytes of the two counters, the higher one first. */
    method CountBytes() returns (r: seq<Byte>)
      requires count0 < TWO_32 && count1 < TWO_32
      ensures r == LengthBytes(count1 * TWO_32 + count0)
    {
      hide LengthBytes, Four, Part;
      CountFours(count1, count0);
      ghost var both := Four(count1) + Four(count0);
      r := [];
      var i := 0;
      while i < 8
        invariant 0 <= i <= 8 && r == both[..i]
      {
        FourAt(if i >= 4 then count0 else count1, i % 4);
        assert both[i] == if i >= 4 then Four(count0)[i - 4] else Four(count1)[i];
        r := r + [Part(if i >= 4 then count0 else count1, 3 - i % 4)];
        i := i + 1;
      }
    }

    /** The padding loop of SHA1Final, after its first byte. */
    method PadZeros(ghost m: seq<Byte>)
      requires Valid() && message == m + [0x80]
      modifies this, buffer
      ensures Valid() && message == m + [0x80] + Repeat(Zeros(|m|))
    {
      hide Valid;
      ghost var n := 0;
      assert message == m + [0x80] + Repeat(0);
      CountAt();
      while count0 / 8 % 64 != 56
        invariant Valid() && message == m + [0x80] + Repeat(n) && n <= Zeros(|m|)
        invariant count0 / 8 % 64 == |message| % 64
        decreases Zeros(|m|) - n
      {
        PadAt(m, n);
        Update([0]);
        assert Repeat(n) + [0] == Repeat(n + 1);
        n := n + 1;
        CountAt();
      }
      PadAt(m, n);
    }

    /** The place in the buffer, read off the counter. */
    lemma CountAt()
      requires Valid()
      ensures count0 / 8 % 64 == |message| % 64
    {
      hide Process;
      CountSplit(count0, count1, |message|);
      FirstByte(|message|, count0);
    }

    /** SHA1Final: the padding loop ends, and the digest is that of the whole message. */
    method Final() returns (digest: seq<Byte>)
      requires Valid()
      modifies this, buffer
      ensures digest == Sha1(old(message))
    {
      hide Process, LengthBytes, Digest;
      ghost var m := message;
      var finalcount := CountBytes();
      Update([0x80]);
      PadZeros(m);
      Update(finalcount);
      assert message == Pad(m);
      assert Whole(message) == message;
      digest := DigestBytes(state);
    }
  }

  /** The zero bytes stop at the first place where the length fits behind them. */
  lemma PadAt(m: seq<Byte>, n: nat)
    requires n <= Zeros(|m|)
    ensures (|m| + 1 + n) % 64 == 56 <==> n == Zeros(|m|)
  {
  }

  // ----- too much at once -----

  /** The values that the index of SHA1Update takes, as a 32-bit number. */
  function Index(j: nat, k: nat): nat
    requires j < 64
  {
    (64 - j + 64 * k) % TWO_32
  }

  /** Exactly then does the loop over whole blocks never end: the index wraps around before it
      can pass the end of the data. */
  lemma NeverEnds(j: nat, len: nat)
    requires j < 64 && j + len > 63
    ensures j + len >= TWO_32 <==> forall k: nat :: (Index(j, k) + 63) % TWO_32 < len
  {
    if j + len >= TWO_32 {
      forall k: nat ensures (Index(j, k) + 63) % TWO_32 < len { WrapsBelow(j, k); }
    } else {
      var k := (j + len) / 64 - 1;
      assert 64 - j + 64 * k + 63 < TWO_32;
      assert Index(j, k) == 64 - j + 64 * k;
      assert (Index(j, k) + 63) % TWO_32 >= len;
    }
  }

  lemma WrapsBelow(j: nat, k: nat)
    requires j < 64
    ensures (Index(j, k) + 63) % TWO_32 <= TWO_32 - 1 - j
  {
    var i := Index(j, k);
    var q := (64 - j + 64 * k) / TWO_32;
    assert 64 - j + 64 * k == q * TWO_32 + i;
    assert i + j == 64 * (1 + k - q * 0x400_0000);
    var c := 1 + k - q * 0x400_0000;
    if i + 63 >= TWO_32 {
      ModIs(i + 63, 1, i + 63 - TWO_32, TWO_32);
    } else {
      assert c <= 0x3ff_ffff || i + 63 == 64 * c - j + 63;
    }
  }

  /** Nothing completes a block. */
  lemma Shorter(m: seq<Byte>, data: seq<Byte>)
    requires |m| % 64 + |data| <= 63
    ensures Whole(m + data) == Whole(m) && |m + data| % 64 == |m| % 64 + |data|
  {
    BlockEnds(|m|, |data|);
    LastBlock(|m| - |m| % 64, |m + data|);
  }

  lemma Buffered(m: seq<Byte>, data: seq<Byte>, j: nat, i: nat)
    requires i <= |data| && |m + data| % 64 == j + |data| - i
    requires (i == 0 && j == |m| % 64) || j == 0
    ensures Rest(m + data) == (if i == 0 && j == |m| % 64 then Rest(m) else []) + data[i..]
  {
    var n := |m + data|;
    assert n / 64 * 64 == n - n % 64;
    if i == 0 && j == |m| % 64 { assert |m| / 64 * 64 == |m| - j; }
  }

  /** Contexts that took in the same bytes, cut in whatever way, are in the same state. */
  lemma CutsDoNotMatter(x: Context, y: Context)
    requires x.Valid() && y.Valid() && x.message == y.message
    ensures x.state == y.state && x.count0 == y.count0 && x.count1 == y.count1
    ensures var n := |x.message| % 64; x.buffer[..n] == y.buffer[..n]
  {
    hide Process;
    Multiplied(TWO_32, x.count1 - y.count1);
  }

  lemma HighIs(c1: nat, carry: nat, q: nat)
    ensures ((c1 + carry) % TWO_32 + q) % TWO_32 == (c1 + carry + q) % TWO_32
  {
    var a := c1 + carry;
    assert a + q == (a % TWO_32 + q) + a / TWO_32 * TWO_32;
    ModDrop(a % TWO_32 + q, a / TWO_32, TWO_32);
  }

  lemma CountSplit(c0: nat, c1: nat, n: nat)
    requires c0 < TWO_32 && c1 * TWO_32 + c0 == 8 * n % TWO_64
    ensures c0 == 8 * n % TWO_64 % TWO_32
  {
    ModIs(c1 * TWO_32 + c0, c1, c0, TWO_32);
  }

  lemma CountGrows(c0: nat, c1: nat, n: nat, len: nat)
    requires c0 < TWO_32 && c1 < TWO_32 && c1 * TWO_32 + c0 == 8 * n % TWO_64
    ensures High(c0, c1, len) < TWO_32 && Low(c0, len) < TWO_32
    ensures High(c0, c1, len) * TWO_32 + Low(c0, len) == 8 * (n + len) % TWO_64
  {
    CountAdds(c0, c1, len);
    hide Low;
    var q := 8 * n / TWO_64;
    assert 8 * (n + len) == (c1 * TWO_32 + c0 + 8 * len) + q * TWO_64;
    ModDrop(c1 * TWO_32 + c0 + 8 * len, q, TWO_64);
  }
}
