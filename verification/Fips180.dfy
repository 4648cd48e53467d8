/** SHA-1 and SHA-256 as FIPS 180-4 defines them: the padding of section 5.1.1, the message schedules
    and rounds of sections 6.1.2 and 6.2.2, and the digest of a whole message. */
module Fips180 {

  type Word = bv32
  type Octet = bv8

  datatype Algorithm = Sha1 | Sha256

  // ------------------------------------------------------------------ words and bytes

  /** Byte `r` of a word, the least significant first. */
  function ByteOf(w: Word, r: nat): Octet
    requires r < 4
  {
    if r == 0 then (w & 0xff) as Octet
    else if r == 1 then ((w >> 8) & 0xff) as Octet
    else if r == 2 then ((w >> 16) & 0xff) as Octet
    else ((w >> 24) & 0xff) as Octet
  }

  /** The word of four bytes, the most significant first. */
  function Be(a: Octet, b: Octet, c: Octet, d: Octet): Word
  {
    ((a as Word) << 24) | ((b as Word) << 16) | ((c as Word) << 8) | (d as Word)
  }

  /** The bytes of a word, most significant first. */
  function Octets(w: Word): (s: seq<Octet>)
    ensures |s| == 4
  {
    [ByteOf(w, 3), ByteOf(w, 2), ByteOf(w, 1), ByteOf(w, 0)]
  }

  lemma {:induction false} BeOctets(w: Word)
    ensures Be(Octets(w)[0], Octets(w)[1], Octets(w)[2], Octets(w)[3]) == w
  {
  }

  /** Word `i` of a block. */
  function WordAt(block: seq<Octet>, i: nat): Word
    requires 4 * i + 4 <= |block|
  {
    Be(block[4 * i], block[4 * i + 1], block[4 * i + 2], block[4 * i + 3])
  }

  function Words(block: seq<Octet>): (m: seq<Word>)
    requires |block| == 64
    ensures |m| == 16 && forall i :: 0 <= i < 16 ==> m[i] == WordAt(block, i)
  {
    seq(16, i requires 0 <= i < 16 => WordAt(block, i))
  }

  // ------------------------------------------------------------------ functions and constants

  function Ch(x: Word, y: Word, z: Word): Word
  {
    (x & y) ^ (!x & z)
  }

  function Parity(x: Word, y: Word, z: Word): Word
  {
    x ^ y ^ z
  }

  function Xor4(x: Word, y: Word, z: Word, u: Word): Word
  {
    x ^ y ^ z ^ u
  }

  function Maj(x: Word, y: Word, z: Word): Word
  {
    (x & y) ^ (x & z) ^ (y & z)
  }

  function Rotl1(x: Word): Word
  {
    (x << 1) | (x >> 31)
  }

  function Rotl5(x: Word): Word
  {
    (x << 5) | (x >> 27)
  }

  function Rotl30(x: Word): Word
  {
    (x << 30) | (x >> 2)
  }

  function BigSigma0(x: Word): Word
  {
    ((x >> 2) | (x << 30)) ^ ((x >> 13) | (x << 19)) ^ ((x >> 22) | (x << 10))
  }

  function BigSigma1(x: Word): Word
  {
    ((x >> 6) | (x << 26)) ^ ((x >> 11) | (x << 21)) ^ ((x >> 25) | (x << 7))
  }

  function SmallSigma0(x: Word): Word
  {
    ((x >> 7) | (x << 25)) ^ ((x >> 18) | (x << 14)) ^ (x >> 3)
  }

  function SmallSigma1(x: Word): Word
  {
    ((x >> 17) | (x << 15)) ^ ((x >> 19) | (x << 13)) ^ (x >> 10)
  }

  /** Sums modulo 2^32. */
  function Plus(x: Word, y: Word): Word
  {
    x + y
  }

  function Plus4(x: Word, y: Word, z: Word, u: Word): Word
  {
    x + y + z + u
  }

  function Plus5(x: Word, y: Word, z: Word, u: Word, v: Word): Word
  {
    x + y + z + u + v
  }

  /** The 64 constants of SHA-256, eight to a row. */
  const K256: seq<seq<Word>> := [
    [0x428a2f98, 0x71374491, 0xb5c0fbcf, 0xe9b5dba5, 0x3956c25b, 0x59f111f1, 0x923f82a4, 0xab1c5ed5],
    [0xd807aa98, 0x12835b01, 0x243185be, 0x550c7dc3, 0x72be5d74, 0x80deb1fe, 0x9bdc06a7, 0xc19bf174],
    [0xe49b69c1, 0xefbe4786, 0x0fc19dc6, 0x240ca1cc, 0x2de92c6f, 0x4a7484aa, 0x5cb0a9dc, 0x76f988da],
    [0x983e5152, 0xa831c66d, 0xb00327c8, 0xbf597fc7, 0xc6e00bf3, 0xd5a79147, 0x06ca6351, 0x14292967],
    [0x27b70a85, 0x2e1b2138, 0x4d2c6dfc, 0x53380d13, 0x650a7354, 0x766a0abb, 0x81c2c92e, 0x92722c85],
    [0xa2bfe8a1, 0xa81a664b, 0xc24b8b70, 0xc76c51a3, 0xd192e819, 0xd6990624, 0xf40e3585, 0x106aa070],
    [0x19a4c116, 0x1e376c08, 0x2748774c, 0x34b0bcb5, 0x391c0cb3, 0x4ed8aa4a, 0x5b9cca4f, 0x682e6ff3],
    [0x748f82ee, 0x78a5636f, 0x84c87814, 0x8cc70208, 0x90befffa, 0xa4506ceb, 0xbef9a3f7, 0xc67178f2]]

  function K(t: nat): Word
  {
    if t < 64 then K256[t / 8][t % 8] else 0
  }

  /** The constant and the function of each of the four parts of SHA-1. */
  function K1(t: nat): Word
  {
    if t < 20 then 0x5a827999 else if t < 40 then 0x6ed9eba1 else if t < 60 then 0x8f1bbcdc else 0xca62c1d6
  }

  function F1(t: nat, x: Word, y: Word, z: Word): Word
  {
    if t < 20 then Ch(x, y, z) else if t < 40 then Parity(x, y, z) else if t < 60 then Maj(x, y, z) else Parity(x, y, z)
  }

  function Initial(algorithm: Algorithm): (h: seq<Word>)
    ensures |h| == Size(algorithm)
  {
    match algorithm
    case Sha1 => [0x67452301, 0xefcdab89, 0x98badcfe, 0x10325476, 0xc3d2e1f0]
    case Sha256 => [0x6a09e667, 0xbb67ae85, 0x3c6ef372, 0xa54ff53a, 0x510e527f, 0x9b05688c, 0x1f83d9ab, 0x5be0cd19]
  }

  function Size(algorithm: Algorithm): nat
  {
    match algorithm
    case Sha1 => 5
    case Sha256 => 8
  }

  // ------------------------------------------------------------------ one block

  /** The message schedule. */
  function W256(m: seq<Word>, t: nat): Word
    requires |m| == 16
  {
    if t < 16 then m[t] else Plus4(SmallSigma1(W256(m, t - 2)), W256(m, t - 7), SmallSigma0(W256(m, t - 15)), W256(m, t - 16))
  }

  function W1(m: seq<Word>, t: nat): Word
    requires |m| == 16
  {
    if t < 16 then m[t] else Rotl1(Xor4(W1(m, t - 3), W1(m, t - 8), W1(m, t - 14), W1(m, t - 16)))
  }

  /** One round on the working variables a to h, or a to e. */
  function Round256(v: seq<Word>, t: nat, w: Word): (r: seq<Word>)
    requires |v| == 8
    ensures |r| == 8
  {
    var t1 := Plus5(v[7], BigSigma1(v[4]), Ch(v[4], v[5], v[6]), K(t), w);
    var t2 := Plus(BigSigma0(v[0]), Maj(v[0], v[1], v[2]));
    [Plus(t1, t2), v[0], v[1], v[2], Plus(v[3], t1), v[4], v[5], v[6]]
  }

  function Round1(v: seq<Word>, t: nat, w: Word): (r: seq<Word>)
    requires |v| == 5
    ensures |r| == 5
  {
    var temp := Plus5(Rotl5(v[0]), F1(t, v[1], v[2], v[3]), v[4], K1(t), w);
    [temp, v[0], Rotl30(v[1]), v[2], v[3]]
  }

  /** The working variables after `t` rounds. */
  function Rounds256(h: seq<Word>, m: seq<Word>, t: nat): (v: seq<Word>)
    requires |h| == 8 && |m| == 16
    ensures |v| == 8
  {
    if t == 0 then h else Round256(Rounds256(h, m, t - 1), t - 1, W256(m, t - 1))
  }

  function Rounds1(h: seq<Word>, m: seq<Word>, t: nat): (v: seq<Word>)
    requires |h| == 5 && |m| == 16
    ensures |v| == 5
  {
    if t == 0 then h else Round1(Rounds1(h, m, t - 1), t - 1, W1(m, t - 1))
  }

  /** Word-wise sums. */
  function Sum(a: seq<Word>, b: seq<Word>): (r: seq<Word>)
    requires |a| == |b|
    ensures |r| == |a|
  {
    if a == [] then [] else Sum(a[..|a| - 1], b[..|b| - 1]) + [Plus(a[|a| - 1], b[|b| - 1])]
  }

  lemma {:induction false} SumAt(a: seq<Word>, b: seq<Word>, i: nat)
    requires |a| == |b| && i < |a|
    ensures Sum(a, b)[i] == Plus(a[i], b[i])
  {
    hide Plus;
    var n := |a| - 1;
    if i < n { SumAt(a[..n], b[..n], i); }
  }

  /** The next hash value. */
  function Compress(algorithm: Algorithm, h: seq<Word>, m: seq<Word>): (r: seq<Word>)
    requires |h| == Size(algorithm) && |m| == 16
    ensures |r| == Size(algorithm)
  {
    match algorithm
    case Sha1 => Sum(h, Rounds1(h, m, 80))
    case Sha256 => Sum(h, Rounds256(h, m, 64))
  }

  // ------------------------------------------------------------------ a message

  function Whole(n: nat): (w: nat)
    ensures w <= n < w + 64 && w % 64 == 0
  {
    n / 64 * 64
  }

  /** The hash value after all whole blocks of `s`. */
  function Fold(algorithm: Algorithm, s: seq<Octet>): (h: seq<Word>)
    ensures |h| == Size(algorithm)
    decreases |s|
  {
    var w := Whole(|s|);
    if w == 0 then Initial(algorithm) else Compress(algorithm, Fold(algorithm, s[..w - 64]), Words(s[w - 64..w]))
  }

  /** How many zero bytes the padding has. */
  function Zeros(n: nat): (z: nat)
    ensures z < 64 && (n + 1 + z + 8) % 64 == 0
  {
    (119 - n % 64) % 64
  }

  /** The 64-bit length field of a message of `n` bytes. */
  function LengthField(n: nat): (s: seq<Octet>)
    ensures |s| == 8
  {
    Octets(HighWord(n)) + Octets(LowWord(n))
  }

  function AsWord(v: nat): Word
    requires v < 0x1_0000_0000
  {
    v as Word
  }

  function HighWord(n: nat): Word
  {
    AsWord(8 * n / 0x1_0000_0000 % 0x1_0000_0000)
  }

  function LowWord(n: nat): Word
  {
    AsWord(8 * n % 0x1_0000_0000)
  }

  /** Section 5.1.1: a one bit, zeros, and the length in bits. */
  function Padding(n: nat): (s: seq<Octet>)
    ensures |s| == 1 + Zeros(n) + 8
  {
    [0x80] + seq(Zeros(n), _ => 0) + LengthField(n)
  }

  function Flatten(h: seq<Word>): (s: seq<Octet>)
    ensures |s| == 4 * |h|
  {
    if h == [] then [] else Flatten(h[..|h| - 1]) + Octets(h[|h| - 1])
  }

  /** The message digest. */
  function Digest(algorithm: Algorithm, message: seq<Octet>): (s: seq<Octet>)
    ensures |s| == 4 * Size(algorithm)
  {
    Flatten(Fold(algorithm, message + Padding(|message|)))
  }

  // ------------------------------------------------------------------ facts for streaming

  /** Bytes after the last whole block do not matter. */
  lemma {:induction false} FoldWhole(algorithm: Algorithm, s: seq<Octet>)
    ensures Fold(algorithm, s) == Fold(algorithm, s[..Whole(|s|)])
  {
    hide Compress, Words, Initial;
    var w := Whole(|s|);
    var t := s[..w];
    WholeOf(|s|);
    assert t[w..] == [] && Whole(|t|) == w;
    if w > 0 {
      assert t[..w - 64] == s[..w - 64] && t[w - 64..w] == s[w - 64..w];
    }
  }

  lemma {:induction false} WholeOf(n: nat)
    ensures Whole(Whole(n)) == Whole(n)
    ensures n % 64 == n - Whole(n)
  {
  }

  /** One more block. */
  lemma {:induction false} FoldBlock(algorithm: Algorithm, s: seq<Octet>, block: seq<Octet>)
    requires |s| % 64 == 0 && |block| == 64
    ensures Fold(algorithm, s + block) == Compress(algorithm, Fold(algorithm, s), Words(block))
  {
    hide Compress, Words, Initial;
    var t := s + block;
    WholeIs(|t|);
    assert t[..|t| - 64] == s && t[|t| - 64..|t|] == block;
  }

  lemma {:induction false} WholeIs(n: nat)
    requires n % 64 == 0
    ensures Whole(n) == n
  {
  }

  /** Byte `i` of the flattened words. */
  lemma {:induction false} FlattenAt(h: seq<Word>, i: nat)
    requires i < 4 * |h|
    ensures Flatten(h)[i] == Octets(h[i / 4])[i % 4]
    decreases |h|
  {
    hide Octets;
    var n := |h| - 1;
    OctetsFour(h[n]);
    if i < 4 * n { FlattenAt(h[..n], i); }
  }

  lemma {:induction false} OctetsFour(w: Word)
    ensures |Octets(w)| == 4
  {
  }

  // ------------------------------------------------------------------ sixteen words, and whole blocks

  /** The place of word `x` of a schedule in a ring of sixteen. */
  function Ix16(x: nat): (i: nat)
    ensures i < 16
  {
    x % 16
  }

  lemma {:induction false} Ix16Apart(a: nat, b: nat)
    requires a < b < a + 16
    ensures Ix16(a) != Ix16(b) && Ix16(a + 16) == Ix16(a)
  {
  }

  /** First word that is still held before round `t`. */
  function Base(t: nat): nat
  {
    if t < 16 then 0 else t - 16
  }

  /** The bytes after the last whole block. */
  function Rest(s: seq<Octet>): (r: seq<Octet>)
    ensures |r| == |s| % 64
  {
    s[Whole(|s|)..]
  }

  lemma {:induction false} RestIs(s: seq<Octet>)
    ensures Rest(s) == s[Whole(|s|)..] && |Rest(s)| == |s| % 64
  {
  }

  lemma {:induction false} NoRest(s: seq<Octet>)
    requires |s| % 64 == 0
    ensures Rest(s) == []
  {
  }

  /** Bytes in the buffer after `n` bytes. */
  function Fill(n: nat): nat
  {
    n % 64
  }

  lemma {:induction false} FillIs(n: nat)
    ensures Fill(n) == n % 64
  {
  }

  lemma {:induction false} SameWhole(n: nat, k: nat)
    requires n % 64 + k < 64
    ensures Whole(n + k) == Whole(n) && (n + k) % 64 == n % 64 + k
  {
  }

  /** Bytes that complete a block. */
  lemma {:induction false} BlockAdded(algorithm: Algorithm, message: seq<Octet>, more: seq<Octet>)
    requires |message| % 64 + |more| == 64
    ensures (|message| + |more|) % 64 == 0 && |message[Whole(|message|)..] + more| == 64
    ensures Fold(algorithm, message + more) ==
      Compress(algorithm, Fold(algorithm, message), Words(message[Whole(|message|)..] + more))
  {
    hide Fold, Compress, Words;
    var w := Whole(|message|);
    WholeOf(|message|);
    FoldWhole(algorithm, message);
    FoldBlock(algorithm, message[..w], message[w..] + more);
    assert message[..w] + (message[w..] + more) == message + more;
  }

  /** What is left after the last whole block stays in the buffer. */
  lemma {:induction false} Tail(algorithm: Algorithm, now: seq<Octet>, more: seq<Octet>, was: seq<Octet>, bytes: seq<Octet>, i: nat)
    requires i == |now| % 64 && i + |more| < 64 && |was| == 64 && |bytes| == 64
    requires was[..i] == Rest(now) && bytes[..i] == was[..i] && bytes[i..i + |more|] == more
    ensures |now + more| % 64 == i + |more| && bytes[..i + |more|] == (now + more)[Whole(|now + more|)..]
    ensures Fold(algorithm, now + more) == Fold(algorithm, now)
  {
    hide Fold;
    SameWhole(|now|, |more|);
    FoldWhole(algorithm, now);
    FoldWhole(algorithm, now + more);
    var w := Whole(|now|);
    assert (now + more)[..w] == now[..w];
    assert (now + more)[w..] == now[w..] + more;
    assert bytes[..i + |more|] == bytes[..i] + bytes[i..i + |more|];
  }

  // ------------------------------------------------------------------ what the streaming code uses

  lemma {:induction false} SumSize(a: seq<Word>, b: seq<Word>)
    requires |a| == |b|
    ensures |Sum(a, b)| == |a|
  {
  }

  lemma {:induction false} OctetAt(w: Word, k: nat)
    requires k < 4
    ensures Octets(w)[k] == ByteOf(w, 3 - k)
  {
  }

  lemma {:induction false} DigestIs(algorithm: Algorithm, message: seq<Octet>)
    ensures Digest(algorithm, message) == Flatten(Fold(algorithm, message + Padding(|message|)))
  {
  }
}
