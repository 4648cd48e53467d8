/** Identities of 32-bit words on which the hash functions rest, in plain operators. */
module Bits {
  type Word = bv32

  lemma {:induction false} Choice(x: Word, y: Word, z: Word)
    ensures z ^ (x & (y ^ z)) == (x & y) ^ (!x & z)
  {
  }

  lemma {:induction false} Majority(x: Word, y: Word, z: Word)
    ensures (x & y) | (z & (x ^ y)) == (x & y) ^ (x & z) ^ (y & z)
  {
  }

  lemma {:induction false} Choice1(w: Word, x: Word, y: Word)
    ensures (w & (x ^ y)) ^ y == (w & x) ^ (!w & y)
  {
  }

  lemma {:induction false} Majority1(w: Word, x: Word, y: Word)
    ensures ((w | x) & y) | (w & x) == (w & x) ^ (w & y) ^ (x & y)
  {
  }

  lemma {:induction false} Pad0(w: Word)
    ensures (w & 0x80000000) | 0x80000000 == ((0x80 as Word) << 24) | ((0 as Word) << 16) | ((0 as Word) << 8) | (0 as Word)
  {
  }

  lemma {:induction false} Pad1(w: Word, a: bv8, b: bv8, c: bv8, d: bv8)
    requires w == ((a as Word) << 24) | ((b as Word) << 16) | ((c as Word) << 8) | (d as Word)
    ensures (w & 0xff800000) | 0x00800000 == ((a as Word) << 24) | ((0x80 as bv8 as Word) << 16) | ((0 as bv8 as Word) << 8) | (0 as bv8 as Word)
  {
  }

  lemma {:induction false} Pad2(w: Word, a: bv8, b: bv8, c: bv8, d: bv8)
    requires w == ((a as Word) << 24) | ((b as Word) << 16) | ((c as Word) << 8) | (d as Word)
    ensures (w & 0xffff8000) | 0x00008000 == ((a as Word) << 24) | ((b as Word) << 16) | ((0x80 as bv8 as Word) << 8) | (0 as bv8 as Word)
  {
  }

  lemma {:induction false} Pad3(w: Word, a: bv8, b: bv8, c: bv8, d: bv8)
    requires w == ((a as Word) << 24) | ((b as Word) << 16) | ((c as Word) << 8) | (d as Word)
    ensures (w & 0xffffff80) | 0x00000080 == ((a as Word) << 24) | ((b as Word) << 16) | ((c as Word) << 8) | (0x80 as bv8 as Word)
  {
  }
}
