/** nid_encode(): the name under which a symbol is found in a library. */
module Nid {
  import opened Arithmetic
  import opened Bytes
  import opened Sha1Spec
  import opened Sha1Stream

  const SALT: seq<Byte> :=
    [0x51, 0x8d, 0x64, 0xa6, 0x35, 0xde, 0xd8, 0xc1, 0xe6, 0xb0, 0x39, 0xb1, 0xc3, 0xe5, 0x52, 0x30]

  /** The table b64charset: A to Z, a to z, 0 to 9, + and -. */
  function B64(k: nat): char
    requires k < 64
  {
    if k < 26 then 'A' + k as char
    else if k < 52 then 'a' + (k - 26) as char
    else if k < 62 then '0' + (k - 52) as char
    else if k == 62 then '+' else '-'
  }

  /** The characters of names. */
  predicate IsDigit(c: char) { 'A' <= c <= 'Z' || 'a' <= c <= 'z' || '0' <= c <= '9' || c == '+' || c == '-' }

  /** The value of a digit. */
  function Digit(c: char): nat {
    if 'A' <= c <= 'Z' then (c - 'A') as nat
    else if 'a' <= c <= 'z' then (c - 'a') as nat + 26
    else if '0' <= c <= '9' then (c - '0') as nat + 52
    else if c == '+' then 62
    else 63
  }

  /** The first eight bytes of the digest as bswap leaves them, and a zero. */
  function Reversed(d: seq<Byte>): (r: seq<Byte>)
    requires |d| >= 8
    ensures |r| == 9
  {
    [d[7], d[6], d[5], d[4], d[3], d[2], d[1], d[0], 0]
  }

  /** Three bytes as a number. */
  function Triple(a: Byte, b: Byte, c: Byte): (n: nat)
    ensures n < 0x100_0000
  {
    Num8(a) * 65536 + Num8(b) * 256 + Num8(c)
  }

  /** The number that four digits stand for. */
  function Quad(s: string): nat
    requires |s| == 4
  {
    Digit(s[0]) * 262144 + Digit(s[1]) * 4096 + Digit(s[2]) * 64 + Digit(s[3])
  }

  /** A name of 11 digits as the number it stands for; the twelfth digit would be zero. */
  function Decoded(nid: string): (nat, nat, nat)
    requires |nid| == 11
  {
    (Quad(nid[0..4]), Quad(nid[4..8]), Quad(nid[8..11] + ['A']))
  }

  /** Six bits of a number of 24 bits, the highest first. */
  function Sextet(n: nat, j: nat): (k: nat)
    requires j < 4
    ensures k < 64
  {
    if j == 0 then n / 262144 % 64 else if j == 1 then n / 4096 % 64 else if j == 2 then n / 64 % 64 else n % 64
  }

  /** The four characters of the table for a number of 24 bits. */
  function Spell(n: nat): string { [B64(Sextet(n, 0)), B64(Sextet(n, 1)), B64(Sextet(n, 2)), B64(Sextet(n, 3))] }

  /** The four digits of a number of 24 bits. */
  method FourDigits(abc: nat) returns (s: string)
    requires abc < 0x100_0000
    ensures s == Spell(abc) && Quad(s) == abc && (abc % 64 == 0 ==> s[3] == 'A')
  {
    hide Digit, B64;
    var p, q, r, t := abc / 262144 % 64, abc / 4096 % 64, abc / 64 % 64, abc % 64;
    Sextets(abc);
    DigitOf(p);
    DigitOf(q);
    DigitOf(r);
    DigitOf(t);
    FirstDigit();
    s := [B64(p), B64(q), B64(r), B64(t)];
  }

  lemma FirstDigit()
    ensures B64(0) == 'A'
  {
  }

  lemma DigitOf(k: nat)
    requires k < 64
    ensures Digit(B64(k)) == k
  {
  }

  lemma Sextets(n: nat)
    requires n < 0x100_0000
    ensures n == n / 262144 % 64 * 262144 + n / 4096 % 64 * 4096 + n / 64 % 64 * 64 + n % 64
  {
    assert n / 4096 == n / 64 / 64 && n / 262144 == n / 4096 / 64;
  }

  /** The digits that stand for the bytes, in groups of three. */
  function Group(d: seq<Byte>, g: nat): (n: nat)
    requires |d| == 9 && g < 3
    ensures n < 0x100_0000
  {
    Triple(d[3 * g], d[3 * g + 1], d[3 * g + 2])
  }

  predicate Encodes(s: string, d: seq<Byte>, g: nat)
    requires |d| == 9 && g <= 3
  {
    |s| == 4 * g && forall k :: 0 <= k < g ==> EncodesAt(s, d, k)
  }

  predicate EncodesAt(s: string, d: seq<Byte>, k: nat)
    requires |d| == 9 && k < 3 && 4 * k + 4 <= |s|
  {
    var four := s[4 * k..4 * k + 4];
    four == Spell(Group(d, k)) && Quad(four) == Group(d, k)
  }

  lemma Slices(s: string, four: string, i: nat)
    requires |four| == 4
    ensures i + 4 <= |s| ==> (s + four)[i..i + 4] == s[i..i + 4]
    ensures (s + four)[|s|..|s| + 4] == four
  {
  }

  lemma EncodesNext(s: string, four: string, d: seq<Byte>, g: nat)
    requires |d| == 9 && g < 3 && Encodes(s, d, g) && four == Spell(Group(d, g)) && Quad(four) == Group(d, g)
    ensures Encodes(s + four, d, g + 1)
  {
    hide Quad, Group, Sextet, B64;
    forall k | 0 <= k < g + 1 ensures EncodesAt(s + four, d, k) {
      if k < g {
        assert EncodesAt(s, d, k);
        Slices(s, four, 4 * k);
      } else {
        Slices(s, four, 0);
      }
    }
  }

  lemma LastGroup(d: seq<Byte>)
    requires |d| == 9 && d[8] == 0
    ensures Group(d, 2) % 64 == 0
  {
    assert Num8(d[8]) == 0;
    hide Num8;
    var n := Num8(d[6]) * 1024 + Num8(d[7]) * 4;
    assert Group(d, 2) == 64 * n;
  }

  /** The loop of nid_encode; the twelfth digit is overwritten. */
  method Digits(d: seq<Byte>) returns (nid: string)
    requires |d| == 9 && d[8] == 0
    ensures |nid| == 11 && Decoded(nid) == (Group(d, 0), Group(d, 1), Group(d, 2))
    ensures forall i :: 0 <= i < 11 ==> nid[i] == B64(Sextet(Group(d, i / 4), i % 4))
  {
    hide Quad, Group, Sextet, B64;
    LastGroup(d);
    var buf := "";
    var i, j := 0, 0;
    while j < 11
      invariant (i == 0 && j == 0) || (i == 3 && j == 4) || (i == 6 && j == 8) || (i == 9 && j == 12)
      invariant Encodes(buf, d, i / 3) && (j == 12 ==> buf[11] == 'A')
      decreases 12 - j
    {
      var abc := Group(d, i / 3);
      var four := FourDigits(abc);
      EncodesNext(buf, four, d, i / 3);
      buf := buf + four;
      i, j := i + 3, j + 4;
    }
    nid := buf[..11];
    FirstEleven(buf, d);
  }

  lemma FirstEleven(buf: string, d: seq<Byte>)
    requires |d| == 9 && Encodes(buf, d, 3) && buf[11] == 'A'
    ensures Decoded(buf[..11]) == (Group(d, 0), Group(d, 1), Group(d, 2))
    ensures forall i :: 0 <= i < 11 ==> buf[i] == B64(Sextet(Group(d, i / 4), i % 4))
  {
    hide Quad, Group, Sextet, B64;
    var nid := buf[..11];
    assert EncodesAt(buf, d, 0) && EncodesAt(buf, d, 1) && EncodesAt(buf, d, 2);
    assert nid[0..4] == buf[0..4] && nid[4..8] == buf[4..8] && nid[8..11] + ['A'] == buf[8..12];
    forall i | 0 <= i < 11 ensures buf[i] == B64(Sextet(Group(d, i / 4), i % 4)) {
      var k, j := i / 4, i % 4;
      assert EncodesAt(buf, d, k) && buf[i] == buf[4 * k..4 * k + 4][j];
    }
  }

  /** A name as a number in base 64, the first digit highest. */
  function NameValue(s: string): nat { if |s| == 0 then 0 else 64 * NameValue(s[..|s| - 1]) + Digit(s[|s| - 1]) }

  lemma NameValueFour(s: string, a: char, b: char, c: char, d: char)
    ensures NameValue(s + [a, b, c, d]) == 0x100_0000 * NameValue(s) + Quad([a, b, c, d])
  {
    hide Digit;
    NameValueOne(s, a);
    NameValueOne(s + [a], b);
    NameValueOne(s + [a] + [b], c);
    NameValueOne(s + [a] + [b] + [c], d);
    assert s + [a, b, c, d] == s + [a] + [b] + [c] + [d];
  }

  lemma NameValueOne(s: string, a: char)
    ensures NameValue(s + [a]) == 64 * NameValue(s) + Digit(a)
  {
    assert (s + [a])[..|s|] == s;
  }

  /** The number that the bytes from the eighth down to the first make, the eighth one highest. */
  function Number(d: seq<Byte>): nat
    requires |d| >= 8
  {
    BytesValue(Num8(d[7]), Num8(d[6]), Num8(d[5]), Num8(d[4]), Num8(d[3]), Num8(d[2]), Num8(d[1]), Num8(d[0]))
  }

  function BytesValue(a: nat, b: nat, c: nat, d: nat, e: nat, f: nat, g: nat, h: nat): nat {
    256 * (256 * (256 * (256 * (256 * (256 * (256 * a + b) + c) + d) + e) + f) + g) + h
  }

  lemma NameValueGroup(s: string, four: string)
    requires |four| == 4
    ensures NameValue(s + four) == 0x100_0000 * NameValue(s) + Quad(four)
  {
    hide NameValue, Quad;
    NameValueFour(s, four[0], four[1], four[2], four[3]);
    assert four == [four[0], four[1], four[2], four[3]];
  }

  lemma NameGroups(nid: string)
    requires |nid| == 11
    ensures var q := Decoded(nid); 64 * NameValue(nid) == 0x100_0000 * (0x100_0000 * q.0 + q.1) + q.2
  {
    hide NameValue, Quad, Digit;
    var a, b, c := nid[0..4], nid[4..8], nid[8..11] + ['A'];
    NameNone();
    LastDigit();
    NameValueGroup("", a);
    NameValueGroup(a, b);
    NameValueGroup(a + b, c);
    NameValueOne(nid, 'A');
    InGroups(nid);
  }

  lemma NameNone()
    ensures NameValue("") == 0 && forall s: string :: "" + s == s
  {
  }

  lemma InGroups(nid: string)
    requires |nid| == 11
    ensures nid + ['A'] == nid[0..4] + nid[4..8] + (nid[8..11] + ['A'])
  {
  }

  lemma GroupsAre(d: seq<Byte>)
    requires |d| >= 8
    ensures var r := Reversed(d);
      0x100_0000 * (0x100_0000 * Group(r, 0) + Group(r, 1)) + Group(r, 2) == 256 * Number(d)
  {
    ZeroNum();
    hide Num8, BytesValue;
    GroupsNumber(Num8(d[7]), Num8(d[6]), Num8(d[5]), Num8(d[4]), Num8(d[3]), Num8(d[2]), Num8(d[1]), Num8(d[0]));
  }

  /** The twelve digits stand for the eight bytes and a zero. */
  lemma NameNumber(nid: string, d: seq<Byte>)
    requires |d| >= 8 && |nid| == 11
    requires var r := Reversed(d); Decoded(nid) == (Group(r, 0), Group(r, 1), Group(r, 2))
    ensures NameValue(nid) == 4 * Number(d)
  {
    hide NameValue, Number, Group, Decoded, Reversed;
    NameGroups(nid);
    GroupsAre(d);
  }

  lemma LastDigit()
    ensures Digit('A') == 0
  {
  }

  lemma GroupsNumber(a: nat, b: nat, c: nat, d: nat, e: nat, f: nat, g: nat, h: nat)
    ensures 0x100_0000 * (0x100_0000 * (a * 65536 + b * 256 + c) + (d * 65536 + e * 256 + f)) + (g * 65536 + h * 256)
         == 256 * BytesValue(a, b, c, d, e, f, g, h)
  {
  }

  lemma B64Digit(k: nat)
    requires k < 64
    ensures IsDigit(B64(k))
  {
  }

  /** nid_encode: 11 characters of the table, which stand for the reversed first eight bytes of
      the digest of the name and the salt. */
  method Encode(sym: seq<Byte>) returns (nid: string)
    requires |sym| < TWO_32
    ensures |nid| == 11
    ensures var d := Reversed(Sha1(sym + SALT)); Decoded(nid) == (Group(d, 0), Group(d, 1), Group(d, 2))
    ensures var d := Reversed(Sha1(sym + SALT)); forall i :: 0 <= i < 11 ==> nid[i] == B64(Sextet(Group(d, i / 4), i % 4))
    ensures NameValue(nid) == 4 * Number(Sha1(sym + SALT)) && forall i :: 0 <= i < 11 ==> IsDigit(nid[i])
  {
    hide Sha1, Group, Decoded, Sextet, B64, NameValue, Number, IsDigit;
    var digest := HashBoth(sym, SALT);
    nid := Digits(Reversed(digest));
    NameNumber(nid, digest);
    forall i | 0 <= i < 11 ensures IsDigit(nid[i]) { B64Digit(Sextet(Group(Reversed(digest), i / 4), i % 4)); }
  }

  /** The digest of two pieces. */
  method HashBoth(a: seq<Byte>, b: seq<Byte>) returns (digest: seq<Byte>)
    requires |a| < TWO_32 && |b| < 64
    ensures digest == Sha1(a + b)
  {
    hide Sha1, Process;
    var ctx := new Context();
    ctx.Update(a);
    assert ctx.message == a;
    ctx.Update(b);
    digest := ctx.Final();
  }

  lemma Digits256(a: nat, b: nat, c: nat, x: nat, y: nat, z: nat)
    requires a < 256 && b < 256 && c < 256 && x < 256 && y < 256 && z < 256
    requires a * 65536 + b * 256 + c == x * 65536 + y * 256 + z
    ensures a == x && b == y && c == z
  {
  }

  lemma TripleOnce(a: Byte, b: Byte, c: Byte, x: Byte, y: Byte, z: Byte)
    requires Triple(a, b, c) == Triple(x, y, z)
    ensures a == x && b == y && c == z
  {
    hide Num8;
    Digits256(Num8(a), Num8(b), Num8(c), Num8(x), Num8(y), Num8(z));
    Num8Once(a, x);
    Num8Once(b, y);
    Num8Once(c, z);
  }

  /** Two digests with the same name agree in their first eight bytes. */
  lemma NameDetermines(d: seq<Byte>, e: seq<Byte>)
    requires |d| == |e| == 20
    requires forall g :: 0 <= g < 3 ==> Group(Reversed(d), g) == Group(Reversed(e), g)
    ensures d[..8] == e[..8]
  {
    hide Triple;
    assert Group(Reversed(d), 0) == Group(Reversed(e), 0) && Group(Reversed(d), 1) == Group(Reversed(e), 1);
    assert Group(Reversed(d), 2) == Group(Reversed(e), 2);
    TripleOnce(d[7], d[6], d[5], e[7], e[6], e[5]);
    TripleOnce(d[4], d[3], d[2], e[4], e[3], e[2]);
    TripleOnce(d[1], d[0], 0, e[1], e[0], 0);
  }
}
