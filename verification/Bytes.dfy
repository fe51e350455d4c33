/** Bytes and words of bytes as numbers. */
module Bytes {
  function Num8(b: bv8): (n: nat) ensures n < 256 { b as nat }

  lemma Num8Once(a: bv8, b: bv8)
    requires Num8(a) == Num8(b)
    ensures a == b
  {
  }

  function Num16(w: bv16): nat { w as nat }

  function Num32(w: bv32): nat { w as nat }

  // Adding one unit of a byte, which a proof about a byte can go down by.

  function Less(b: bv8): bv8 { b - 1 }

  lemma LessNum(b: bv8)
    requires b != 0
    ensures Num8(b) > 0 && Num8(Less(b)) == Num8(b) - 1
  {
  }

  lemma ZeroNum()
    ensures Num8(0) == 0
  {
  }

  function Plus16(w: bv16): bv16 { w + 0x100 }

  lemma Plus16Num(w: bv16)
    requires w < 0xff00
    ensures Num16(Plus16(w)) == Num16(w) + 256
  {
  }

  function Plus32(w: bv32, k: nat): bv32
    requires k < 3
  {
    if k == 0 then w + 0x100 else if k == 1 then w + 0x1_0000 else w + 0x100_0000
  }

  lemma Plus8Num(w: bv32)
    requires w < 0xff00
    ensures Num32(w + 0x100) == Num32(w) + 0x100
  {
  }

  lemma Plus24Num(w: bv32)
    requires w < 0xff_0000
    ensures Num32(w + 0x1_0000) == Num32(w) + 0x1_0000
  {
  }

  lemma PlusTopNum(w: bv32)
    requires w < 0xff00_0000
    ensures Num32(w + 0x100_0000) == Num32(w) + 0x100_0000
  {
  }

  lemma Plus32Num(w: bv32, k: nat)
    requires k < 3 && w < if k == 0 then 0xff00 else if k == 1 then 0xff_0000 else 0xff00_0000
    ensures Num32(Plus32(w, k)) == Num32(w) + if k == 0 then 0x100 else if k == 1 then 0x1_0000 else 0x100_0000
  {
    hide Num32;
    if k == 0 {
      Plus8Num(w);
    } else if k == 1 {
      Plus24Num(w);
    } else {
      PlusTopNum(w);
    }
  }
}
