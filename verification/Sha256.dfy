/** The streaming SHA-256 of sha256.c, for a little-endian machine. */
module Sha256Code {
  import opened Fips180
  import Bits

  const TWO32 := 0x1_0000_0000

  // ------------------------------------------------------------------ bit tricks

  /** The byte swap of one word: (RR(p, 24) & 0x00ff00ff) | (RR(p, 8) & 0xff00ff00). */
  function Swap(p: Word): Word
  {
    (((p >> 24) | (p << 8)) & 0x00ff00ff) | (((p >> 8) | (p << 24)) & 0xff00ff00)
  }

  lemma {:induction false} SwapIs(p: Word)
    ensures Swap(p) == Be(ByteOf(p, 0), ByteOf(p, 1), ByteOf(p, 2), ByteOf(p, 3))
  {
  }

  /** Word `w` with byte `r` of its memory overwritten. */
  function SetByte(w: Word, r: nat, b: Octet): Word
  {
    Be(if r == 3 then b else ByteOf(w, 3), if r == 2 then b else ByteOf(w, 2), if r == 1 then b else ByteOf(w, 1),
       if r == 0 then b else ByteOf(w, 0))
  }

  lemma {:induction false} SetByteIs(w: Word, r: nat, b: Octet, q: nat)
    requires r < 4 && q < 4
    ensures ByteOf(SetByte(w, r, b), q) == if q == r then b else ByteOf(w, q)
  {
    hide Be, ByteOf;
    BytesOfBe(if r == 3 then b else ByteOf(w, 3), if r == 2 then b else ByteOf(w, 2), if r == 1 then b else ByteOf(w, 1),
              if r == 0 then b else ByteOf(w, 0));
  }

  lemma {:induction false} BytesOfBe(a: Octet, b: Octet, c: Octet, d: Octet)
    ensures ByteOf(Be(a, b, c, d), 3) == a && ByteOf(Be(a, b, c, d), 2) == b
    ensures ByteOf(Be(a, b, c, d), 1) == c && ByteOf(Be(a, b, c, d), 0) == d
  {
  }

  function Choose(x: Word, y: Word, z: Word): Word
  {
    z ^ (x & (y ^ z))
  }

  function Majority(x: Word, y: Word, z: Word): Word
  {
    (x & y) | (z & (x ^ y))
  }

  lemma {:induction false} SameFunctions(x: Word, y: Word, z: Word)
    ensures Choose(x, y, z) == Ch(x, y, z) && Majority(x, y, z) == Maj(x, y, z)
  {
    Bits.Choice(x, y, z);
    Bits.Majority(x, y, z);
  }

  /** The sums that a round forms: a += b + ... */
  function AddRound(h: Word, w: Word, k: Word, s: Word, c: Word): Word
  {
    h + (w + k + s + c)
  }

  function AddSchedule(d: Word, a: Word, b: Word, c: Word): Word
  {
    d + (a + b + c)
  }

  /** The masks of the padding: keep `k` bytes of a word, add a one bit. */
  function Padded(w: Word, k: nat): Word
    requires k < 4
  {
    if k == 0 then (w & 0x80000000) | 0x80000000
    else if k == 1 then (w & 0xff800000) | 0x00800000
    else if k == 2 then (w & 0xffff8000) | 0x00008000
    else (w & 0xffffff80) | 0x00000080
  }

  lemma {:induction false} PaddedIs(w: Word, k: nat, a: Octet, b: Octet, c: Octet, d: Octet)
    requires k < 4 && (k > 0 ==> w == Be(a, b, c, d))
    ensures k == 0 ==> Padded(w, k) == Be(0x80, 0, 0, 0)
    ensures k == 1 ==> Padded(w, k) == Be(a, 0x80, 0, 0)
    ensures k == 2 ==> Padded(w, k) == Be(a, b, 0x80, 0)
    ensures k == 3 ==> Padded(w, k) == Be(a, b, c, 0x80)
  {
    if k == 0 { Bits.Pad0(w); }
    else if k == 1 { Bits.Pad1(w, a, b, c, d); }
    else if k == 2 { Bits.Pad2(w, a, b, c, d); }
    else { Bits.Pad3(w, a, b, c, d); }
  }

  lemma {:induction false} NoBytes()
    ensures Be(0, 0, 0, 0) == 0
  {
  }

  // ------------------------------------------------------------------ indices

  /** The outer loop of a block goes through the rounds in steps of sixteen. */
  predicate Quarter(j: nat)
  {
    j == 0 || j == 16 || j == 32 || j == 48
  }

  /** (x - y) & 7. */
  function Ix8(x: int): (i: nat)
    ensures i < 8
  {
    x % 8
  }

  lemma {:induction false} Ix8Next(r: nat, t: nat)
    requires r < 8
    ensures Ix8(r - (t + 1)) == Ix8((if r == 0 then 7 else r - 1) - t)
  {
  }

  lemma {:induction false} Ix8Apart(r: nat, q: nat, t: nat)
    requires r < 8 && q < 8 && r != q
    ensures Ix8(r - t) != Ix8(q - t)
  {
  }

  // ------------------------------------------------------------------ the buffer as bytes

  function Bytes(buf: seq<Word>): (s: seq<Octet>)
    requires |buf| == 16
    ensures |s| == 64
  {
    seq(64, i requires 0 <= i < 64 => ByteOf(buf[i / 4], i % 4))
  }

  lemma {:induction false} BytesAt(buf: seq<Word>, i: nat, k: nat)
    requires |buf| == 16 && i < 16 && k < 4
    ensures Bytes(buf)[4 * i + k] == ByteOf(buf[i], k)
  {
  }

  lemma {:induction false} StoreAt(buf: seq<Word>, at: nat, b: Octet)
    requires |buf| == 16 && at < 64
    ensures Bytes(buf[at / 4 := SetByte(buf[at / 4], at % 4, b)]) == Bytes(buf)[at := b]
  {
    hide ByteOf, SetByte;
    var buf' := buf[at / 4 := SetByte(buf[at / 4], at % 4, b)];
    forall i | 0 <= i < 64 ensures Bytes(buf')[i] == Bytes(buf)[at := b][i] {
      SetByteIs(buf[at / 4], at % 4, b, i % 4);
    }
  }

  /** Swapped words are the words of the block in the buffer. */
  lemma {:induction false} SwappedWord(buf: seq<Word>, i: nat)
    requires |buf| == 16 && i < 16
    ensures Swap(buf[i]) == WordAt(Bytes(buf), i)
  {
    hide Swap, ByteOf, Be, Bytes;
    SwapIs(buf[i]);
    BytesAt(buf, i, 0);
    BytesAt(buf, i, 1);
    BytesAt(buf, i, 2);
    BytesAt(buf, i, 3);
  }

  // ------------------------------------------------------------------ the rounds

  /** Working variable `r` after `t` rounds is register `(r - t) & 7`. */
  ghost predicate Renamed(b: seq<Word>, v: seq<Word>, t: nat)
  {
    |b| == 8 && |v| == 8 && forall r :: 0 <= r < 8 ==> b[Ix8(r - t)] == v[r]
  }

  /** The sixteen words hold the last sixteen words of the schedule. */
  ghost predicate Rolling(p: seq<Word>, m: seq<Word>, t: nat)
  {
    |p| == 16 && |m| == 16 && forall s: nat :: Base(t) <= s < Base(t) + 16 ==> p[Ix16(s)] == W256(m, s)
  }

  lemma {:induction false} StartRenamed(b: seq<Word>)
    requires |b| == 8
    ensures Renamed(b, b, 0)
  {
  }

  lemma {:induction false} StartRolling(m: seq<Word>)
    requires |m| == 16
    ensures Rolling(m, m, 0)
  {
  }

  /** The new values of the two registers that a round changes. */
  lemma {:induction false} RoundValues(v: seq<Word>, t: nat, w: Word)
    requires |v| == 8
    ensures var h := AddRound(v[7], w, K(t), BigSigma1(v[4]), Choose(v[4], v[5], v[6]));
      Round256(v, t, w) ==
        [Plus(h, Plus(BigSigma0(v[0]), Majority(v[0], v[1], v[2]))), v[0], v[1], v[2], Plus(v[3], h), v[4], v[5], v[6]]
  {
    hide K, BigSigma0, BigSigma1, Choose, Majority, Ch, Maj, Plus, Plus5, AddRound;
    SameFunctions(v[4], v[5], v[6]);
    SameFunctions(v[0], v[1], v[2]);
    SumOrder(v[7], BigSigma1(v[4]), Ch(v[4], v[5], v[6]), K(t), w);
  }

  lemma {:induction false} SumOrder(h: Word, s: Word, c: Word, k: Word, w: Word)
    ensures Plus5(h, s, c, k, w) == AddRound(h, w, k, s, c)
  {
  }

  lemma {:induction false} RoundRenamed(b: seq<Word>, v: seq<Word>, t: nat, high: Word, mid: Word)
    requires Renamed(b, v, t)
    ensures Renamed(b[Ix8(3 - t) := mid][Ix8(7 - t) := high], [high, v[0], v[1], v[2], mid, v[4], v[5], v[6]], t + 1)
  {
    hide Ix8;
    var b', v' := b[Ix8(3 - t) := mid][Ix8(7 - t) := high], [high, v[0], v[1], v[2], mid, v[4], v[5], v[6]];
    forall r | 0 <= r < 8 ensures b'[Ix8(r - (t + 1))] == v'[r] {
      Ix8Next(r, t);
      var q := if r == 0 then 7 else r - 1;
      if q != 7 { Ix8Apart(q, 7, t); }
      if q != 3 { Ix8Apart(q, 3, t); }
    }
  }

  /** Before round 16 and later, the next word of the schedule replaces the oldest. */
  lemma {:induction false} RollOn(p: seq<Word>, m: seq<Word>, t: nat)
    requires Rolling(p, m, t)
    ensures t < 16 ==> p[Ix16(t)] == W256(m, t) && Rolling(p, m, t + 1)
    ensures t >= 16 ==>
      AddSchedule(p[Ix16(t)], SmallSigma1(p[Ix16(t + 14)]), p[Ix16(t + 9)], SmallSigma0(p[Ix16(t + 1)])) == W256(m, t)
    ensures t >= 16 ==> Rolling(p[Ix16(t) := W256(m, t)], m, t + 1)
  {
    hide SmallSigma0, SmallSigma1, Ix16, AddSchedule, Plus4, W256;
    if t >= 16 {
      Ix16Apart(t - 16, t - 15);
      Ix16Apart(t - 2, t - 1);
      Ix16Apart(t - 7, t - 6);
      Ix16Apart(t - 15, t - 14);
      ScheduleAt(m, t);
      SigmaOrder(SmallSigma1(W256(m, t - 2)), W256(m, t - 7), SmallSigma0(W256(m, t - 15)), W256(m, t - 16));
      RollNext(p, m, t);
    } else if t == 15 {
    }
  }

  lemma {:induction false} ScheduleAt(m: seq<Word>, t: nat)
    requires |m| == 16 && t >= 16
    ensures W256(m, t) == Plus4(SmallSigma1(W256(m, t - 2)), W256(m, t - 7), SmallSigma0(W256(m, t - 15)), W256(m, t - 16))
  {
    hide SmallSigma0, SmallSigma1, Plus4;
  }

  lemma {:induction false} SigmaOrder(a: Word, b: Word, c: Word, d: Word)
    ensures Plus4(a, b, c, d) == AddSchedule(d, a, b, c)
  {
  }

  lemma {:induction false} RollNext(p: seq<Word>, m: seq<Word>, t: nat)
    requires Rolling(p, m, t) && t >= 16
    ensures Rolling(p[Ix16(t) := W256(m, t)], m, t + 1)
  {
    hide W256, Ix16;
    var p' := p[Ix16(t) := W256(m, t)];
    forall s: nat | Base(t + 1) <= s < Base(t + 1) + 16 ensures p'[Ix16(s)] == W256(m, s) {
      if s < t { Ix16Apart(s, t); }
    }
  }

  // ------------------------------------------------------------------ the context

  class Sha256Context {
    const buf: array<Word>
    const hash: array<Word>
    var len0: nat
    var len1: nat

    /** The fields after the bytes of `message`: hash of the whole blocks, rest in the buffer, length. */
    ghost predicate Absorbed(message: seq<Octet>)
      reads this, buf, hash
    {
      && Shaped()
      && hash[..] == Fold(Sha256, message)
      && Bytes(buf[..])[..|message| % 64] == message[Whole(|message|)..]
      && len1 * TWO32 + len0 == |message| < 0x2000_0000_0000_0000
    }

    ghost predicate Shaped()
      reads this
    {
      buf.Length == 16 && hash.Length == 8 && buf != hash && len0 < TWO32 && len1 < TWO32
    }

    /** sha256_init; what the buffer holds does not matter. */
    constructor ()
      ensures Absorbed([]) && fresh(buf) && fresh(hash)
    {
      buf := new Word[16];
      hash := new Word[8](i => if 0 <= i < 8 then Initial(Sha256)[i] else 0);
      len0, len1 := 0, 0;
      new;
      assert hash[..] == Initial(Sha256);
    }

    /** _bswapw on the first `n` words. */
    method ByteSwap(n: nat)
      requires buf.Length == 16 && n <= 16
      modifies buf
      ensures forall i :: 0 <= i < 16 ==> buf[i] == if i < n then Swap(old(buf[i])) else old(buf[i])
    {
      hide Swap;
      var i := n;
      while i > 0
        invariant 0 <= i <= n
        invariant forall k :: 0 <= k < 16 ==> buf[k] == if i <= k < n then Swap(old(buf[k])) else old(buf[k])
      {
        i := i - 1;
        buf[i] := Swap(buf[i]);
      }
    }

    /** _memcp into the bytes of the buffer. */
    method MemCopy(at: nat, dat: seq<Octet>, from: nat, n: nat)
      requires buf.Length == 16 && at + n <= 64 && from + n <= |dat|
      modifies buf
      ensures Bytes(buf[..])[at..at + n] == dat[from..from + n]
      ensures Bytes(buf[..])[..at] == old(Bytes(buf[..]))[..at]
    {
      hide Bytes, SetByte;
      var k := 0;
      while k < n
        invariant 0 <= k <= n && Bytes(buf[..])[at..at + k] == dat[from..from + k]
        invariant Bytes(buf[..])[..at] == old(Bytes(buf[..]))[..at]
      {
        var i := at + k;
        StoreAt(buf[..], i, dat[from + k]);
        ghost var next := buf[..][i / 4 := SetByte(buf[i / 4], i % 4, dat[from + k])];
        ghost var before := Bytes(buf[..]);
        buf[i / 4] := SetByte(buf[i / 4], i % 4, dat[from + k]);
        assert buf[..] == next;
        SliceGrown(before, at, k, dat, from);
        k := k + 1;
      }
    }

    /** The word of the schedule for a round, which in later rounds replaces an old one. */
    method NextWord(i: nat, j: nat, ghost m: seq<Word>) returns (w: Word)
      requires buf.Length == 16 && i < 16 && Quarter(j) && |m| == 16 && Rolling(buf[..], m, i + j)
      modifies buf
      ensures w == W256(m, i + j) && Rolling(buf[..], m, i + j + 1)
    {
      hide SmallSigma0, SmallSigma1, W256, Rolling, Ix8, Ix16, AddSchedule;
      Places(i, j);
      RollOn(buf[..], m, i + j);
      if j != 0 {
        buf[Ix16(i)] := AddSchedule(buf[Ix16(i)], SmallSigma1(buf[Ix16(i + 14)]), buf[Ix16(i + 9)], SmallSigma0(buf[Ix16(i + 1)]));
        assert buf[..] == old(buf[..])[Ix16(i + j) := W256(m, i + j)];
      }
      w := buf[Ix16(i)];
    }

    /** _rtrf: one round, on registers `b`, and one word of the schedule. */
    method RoundTransform(b: array<Word>, i: nat, j: nat, ghost v: seq<Word>, ghost m: seq<Word>)
      requires buf.Length == 16 && b.Length == 8 && b != buf && i < 16 && Quarter(j)
      requires |v| == 8 && |m| == 16 && Renamed(b[..], v, i + j) && Rolling(buf[..], m, i + j)
      modifies b, buf
      ensures Renamed(b[..], Round256(v, i + j, W256(m, i + j)), i + j + 1) && Rolling(buf[..], m, i + j + 1)
    {
      hide W256, Renamed, Rolling, Round256;
      var w := NextWord(i, j, m);
      UpdateRegisters(b, i, j, w, v);
    }

    /** The registers that a round changes. */
    method UpdateRegisters(b: array<Word>, i: nat, j: nat, w: Word, ghost v: seq<Word>)
      requires b.Length == 8 && i < 16 && Quarter(j) && |v| == 8 && Renamed(b[..], v, i + j)
      modifies b
      ensures Renamed(b[..], Round256(v, i + j, w), i + j + 1)
    {
      hide K, BigSigma0, BigSigma1, Choose, Majority, Ch, Maj, Renamed, Round256, Ix8, Ix16, Plus, AddRound, Quarter;
      ghost var t := i + j;
      Places(i, j);
      Registers(b[..], v, t);
      RoundValues(v, t, w);
      ghost var was := b[..];
      var x7, x3 := Ix8(7 - i), Ix8(3 - i);
      b[x7] := AddRound(b[x7], w, K(i + j), BigSigma1(b[Ix8(4 - i)]), Choose(b[Ix8(4 - i)], b[Ix8(5 - i)], b[Ix8(6 - i)]));
      b[x3] := Plus(b[x3], b[x7]);
      b[x7] := Plus(b[x7], Plus(BigSigma0(b[Ix8(0 - i)]), Majority(b[Ix8(0 - i)], b[Ix8(1 - i)], b[Ix8(2 - i)])));
      RoundRenamed(was, v, t, b[x7], b[x3]);
      assert b[..] == was[x3 := b[x3]][x7 := b[x7]];
    }

    /** _hash: sixty-four rounds on the block in the buffer. */
    method HashBlock(ghost m: seq<Word>)
      requires Shaped() && buf[..] == m
      modifies buf, hash
      ensures hash[..] == Compress(Sha256, old(hash[..]), m)
    {
      hide Renamed, Rolling, Round256, Rounds256, W256, Sum;
      var b := new Word[8](i requires 0 <= i < 8 reads this, hash => if hash.Length == 8 then hash[i] else 0);
      ghost var h := hash[..];
      assert b[..] == h;
      StartRenamed(h);
      StartRolling(m);
      NoRounds(h, m);
      var j := 0;
      while j < 64
        invariant j in {0, 16, 32, 48, 64} && Renamed(b[..], Rounds256(h, m, j), j) && Rolling(buf[..], m, j) && hash[..] == h
        decreases 64 - j
      {
        var i := 0;
        while i < 16
          invariant 0 <= i <= 16 && Renamed(b[..], Rounds256(h, m, i + j), i + j) && Rolling(buf[..], m, i + j) && hash[..] == h
        {
          NextRound(h, m, i + j);
          RoundTransform(b, i, j, Rounds256(h, m, i + j), m);
          i := i + 1;
        }
        j := j + 16;
      }
      AllRounds(b[..], Rounds256(h, m, 64));
      AddTo(b);
      assert hash[..] == Sum(h, Rounds256(h, m, 64));
    }

    /** The final additions of _hash. */
    method AddTo(b: array<Word>)
      requires hash.Length == 8 && b.Length == 8 && b != hash
      modifies hash
      ensures hash[..] == Sum(old(hash[..]), b[..])
    {
      hide Plus, Sum;
      var i := 0;
      while i < 8
        invariant 0 <= i <= 8 && b[..] == old(b[..])
        invariant forall k :: 0 <= k < 8 ==> hash[k] == if k < i then Plus(old(hash[k]), b[k]) else old(hash[k])
      {
        hash[i] := Plus(hash[i], b[i]);
        i := i + 1;
      }
      SumSize(old(hash[..]), b[..]);
      forall k | 0 <= k < 8 ensures hash[..][k] == Sum(old(hash[..]), b[..])[k] { SumAt(old(hash[..]), b[..], k); }
    }

    // ---------------------------------------------------------------- streaming

    /** Swap and hash the block that the buffer holds now: the rest of `message` and the bytes `more`. */
    method FullBlock(ghost message: seq<Octet>, ghost more: seq<Octet>)
      requires Shaped() && hash[..] == Fold(Sha256, message) && |message| % 64 + |more| == 64
      requires Bytes(buf[..]) == message[Whole(|message|)..] + more
      modifies buf, hash
      ensures hash[..] == Fold(Sha256, message + more) && (|message| + |more|) % 64 == 0
    {
      hide Fold, Compress, Swap, Bytes, Words;
      ghost var block := Bytes(buf[..]);
      ghost var words := buf[..];
      ByteSwap(16);
      SwappedWords(words, buf[..]);
      HashBlock(Words(block));
      BlockAdded(Sha256, message, more);
    }

    /** The length in two 32-bit words. */
    method AddLength(sz: nat)
      requires len0 < TWO32 && sz < TWO32 && len1 * TWO32 + len0 + sz < 0x2000_0000_0000_0000
      modifies `len0, `len1
      ensures len0 < TWO32 && len1 < TWO32 && len1 * TWO32 + len0 == old(len1) * TWO32 + old(len0) + sz
    {
      len0 := (len0 + sz) % TWO32;
      if len0 < sz { len1 := (len1 + 1) % TWO32; }
    }

    /** One turn of the loop of sha256_hash. */
    method TakeBlock(dat: seq<Octet>, j: nat, i: nat, l: nat, ghost message: seq<Octet>)
      requires Shaped() && j + l <= |dat| && i == Fill(|message| + j) && i < 64 && l == 64 - i
      requires hash[..] == Fold(Sha256, message + dat[..j]) && Bytes(buf[..])[..i] == Rest(message + dat[..j])
      modifies buf, hash
      ensures hash[..] == Fold(Sha256, message + dat[..j + l]) && Rest(message + dat[..j + l]) == []
      ensures Fill(|message| + j + l) == 0
    {
      hide Fold, Bytes, Whole;
      ghost var now, more := message + dat[..j], dat[j..j + l];
      RestIs(now);
      ghost var bytes := Bytes(buf[..]);
      MemCopy(i, dat, j, l);
      assert Bytes(buf[..]) == Bytes(buf[..])[..i] + Bytes(buf[..])[i..i + l];
      assert Bytes(buf[..])[..i] == bytes[..i];
      FullBlock(now, more);
      assert now + more == message + dat[..j + l];
      NoRest(message + dat[..j + l]);
    }

    /** sha256_hash. */
    method Hash(dat: seq<Octet>, ghost message: seq<Octet>)
      requires Absorbed(message) && |dat| < TWO32 && |message| + |dat| < 0x2000_0000_0000_0000
      modifies this, buf, hash
      ensures Absorbed(message + dat)
    {
      hide Fold, Bytes, Whole, Rest, Fill, Words, Compress, Digest, Flatten, Padding, Octets, Swap;
      RestIs(message);
      LowBits(len0, len1, |message|);
      FillIs(|message|);
      var sz: nat, i: nat := |dat|, len0 % 64;
      AddLength(sz);
      var j: nat, l: nat := 0, 64 - i;
      assert message + dat[..0] == message;
      while sz >= l
        invariant Shaped() && len1 * TWO32 + len0 == |message| + |dat|
        invariant j + sz == |dat| && i == Fill(|message| + j) && l == 64 - i && i < 64
        invariant hash[..] == Fold(Sha256, message + dat[..j]) && Bytes(buf[..])[..i] == Rest(message + dat[..j])
        decreases sz
      {
        TakeBlock(dat, j, i, l, message);
        j, sz := j + l, sz - l;
        l, i := 64, 0;
      }
      ghost var bytes := Bytes(buf[..]);
      MemCopy(i, dat, j, sz);
      assert dat[j..j + sz] == dat[j..];
      FillIs(|message| + j);
      Tail(Sha256, message + dat[..j], dat[j..], bytes, Bytes(buf[..]), i);
      assert message + dat[..j] + dat[j..] == message + dat;
    }

    /** sha256_done. */
    method Done(digest: array<Octet>, ghost message: seq<Octet>)
      requires Absorbed(message) && digest.Length == 32
      modifies buf, hash, digest
      ensures digest[..] == Digest(Sha256, message)
    {
      hide Fold, Bytes, Whole, Swap, Padded, Flatten, Octets, LengthField, Padding, Words, WordAt, Rest, TailWord, Digest;
      ghost var n, rest := |message|, Rest(message);
      RestIs(message);
      TailSize(rest, n);
      ghost var words, h := buf[..], hash[..];
      var i := len0 % 64;
      LowBits(len0, len1, n);
      ByteSwap((i + 3) / 4);
      buf[i / 4] := Padded(buf[i / 4], i % 4);
      Begun(words, buf[..], rest, i, n);
      if i < 56 {
        i := i / 4 + 1;
      } else {
        if i < 60 { buf[15] := 0; }
        FirstOfTwo(buf[..], rest, n);
        HashBlock(Words((rest + Padding(n))[..64]));
        i := 0;
      }
      LastBlock(i, rest, n);
      Finished(message, h, hash[..]);
      DigestIs(Sha256, message);
      Emit(digest);
    }

    /** Zeros from word `first` on, then the length; and the last block is hashed. */
    method LastBlock(first: nat, ghost rest: seq<Octet>, ghost n: nat)
      requires Shaped() && |rest| == n % 64 && len1 * TWO32 + len0 == n < 0x2000_0000_0000_0000
      requires |rest| < 56 ==> first == |rest| / 4 + 1 && forall k :: 0 <= k < first ==> buf[k] == TailWord(rest, n, k)
      requires |rest| >= 56 ==> first == 0
      modifies buf, hash
      ensures |rest + Padding(n)| >= 64
      ensures hash[..] == Compress(Sha256, old(hash[..]), Words((rest + Padding(n))[|rest + Padding(n)| - 64..]))
    {
      hide Padding, Words, WordAt, TailWord, Compress, HighWord, LowWord, AsWord;
      TailSize(rest, n);
      LengthWords(len0, len1, n);
      var i := first;
      while i < 14
        invariant first <= i && (i <= 14 || i == first) && hash[..] == old(hash[..])
        invariant |rest| < 56 ==> forall k :: 0 <= k < first ==> buf[k] == TailWord(rest, n, k)
        invariant forall k :: first <= k < i && k < 14 ==> buf[k] == 0
      {
        buf[i] := 0;
        i := i + 1;
      }
      buf[14] := AsWord((len1 * 8) % TWO32 + len0 / 0x2000_0000);
      buf[15] := AsWord(len0 * 8 % TWO32);
      LastOfTail(buf[..], rest, n, first);
      HashBlock(Words((rest + Padding(n))[|rest + Padding(n)| - 64..]));
    }

    /** The bytes of the hash, most significant first, and a clean buffer. */
    method Emit(digest: array<Octet>)
      requires Shaped() && digest.Length == 32
      modifies buf, digest
      ensures digest[..] == Flatten(hash[..])
    {
      hide Flatten, ByteOf, Octets;
      var i := 0;
      while i < 32
        invariant 0 <= i <= 32 && hash[..] == old(hash[..]) && forall k :: 0 <= k < i ==> digest[k] == Flatten(hash[..])[k]
      {
        buf[i % 16] := 0;
        digest[i] := ByteOf(hash[i / 4], 3 - i % 4);
        FlattenAt(hash[..], i);
        OctetAt(hash[i / 4], i % 4);
        i := i + 1;
      }
    }
  }

  /** One more byte of a copy. */
  lemma {:induction false} SliceGrown(s: seq<Octet>, at: nat, k: nat, dat: seq<Octet>, from: nat)
    requires at + k < |s| && from + k < |dat| && s[at..at + k] == dat[from..from + k]
    ensures s[at + k := dat[from + k]][..at] == s[..at]
    ensures s[at + k := dat[from + k]][at..at + (k + 1)] == dat[from..from + (k + 1)]
  {
    var r := s[at + k := dat[from + k]];
    assert r[at..at + (k + 1)] == s[at..at + k] + [dat[from + k]];
    assert dat[from..from + (k + 1)] == dat[from..from + k] + [dat[from + k]];
  }

  lemma {:induction false} Places(i: nat, j: nat)
    requires Quarter(j)
    ensures Ix8(0 - i) == Ix8(0 - (i + j)) && Ix8(1 - i) == Ix8(1 - (i + j)) && Ix8(2 - i) == Ix8(2 - (i + j))
    ensures Ix8(3 - i) == Ix8(3 - (i + j)) && Ix8(4 - i) == Ix8(4 - (i + j)) && Ix8(5 - i) == Ix8(5 - (i + j))
    ensures Ix8(6 - i) == Ix8(6 - (i + j)) && Ix8(7 - i) == Ix8(7 - (i + j))
    ensures Ix16(i) == Ix16(i + j) && Ix16(i + 14) == Ix16(i + j + 14) && Ix16(i + 9) == Ix16(i + j + 9) && Ix16(i + 1) == Ix16(i + j + 1)
  {
    hide Ix8, Ix16, Quarter;
    Place8(0 - i, j);
    Place8(1 - i, j);
    Place8(2 - i, j);
    Place8(3 - i, j);
    Place8(4 - i, j);
    Place8(5 - i, j);
    Place8(6 - i, j);
    Place8(7 - i, j);
    Place16(i, j);
    Place16(i + 14, j);
    Place16(i + 9, j);
    Place16(i + 1, j);
  }

  lemma {:induction false} Place8(x: int, j: nat)
    requires Quarter(j)
    ensures Ix8(x) == Ix8(x - j)
  {
  }

  lemma {:induction false} Place16(x: nat, j: nat)
    requires Quarter(j)
    ensures Ix16(x) == Ix16(x + j)
  {
  }

  /** The registers of a round are distinct, and hold the working variables. */
  lemma {:induction false} Registers(b: seq<Word>, v: seq<Word>, t: nat)
    requires Renamed(b, v, t)
    ensures |b| == 8 && |v| == 8
    ensures b[Ix8(0 - t)] == v[0] && b[Ix8(1 - t)] == v[1] && b[Ix8(2 - t)] == v[2] && b[Ix8(3 - t)] == v[3]
    ensures b[Ix8(4 - t)] == v[4] && b[Ix8(5 - t)] == v[5] && b[Ix8(6 - t)] == v[6] && b[Ix8(7 - t)] == v[7]
    ensures Ix8(3 - t) != Ix8(7 - t) && Ix8(0 - t) != Ix8(7 - t) && Ix8(1 - t) != Ix8(7 - t) && Ix8(2 - t) != Ix8(7 - t)
    ensures Ix8(0 - t) != Ix8(3 - t) && Ix8(1 - t) != Ix8(3 - t) && Ix8(2 - t) != Ix8(3 - t)
  {
    hide Ix8;
    Ix8Apart(3, 7, t);
    Ix8Apart(0, 7, t);
    Ix8Apart(1, 7, t);
    Ix8Apart(2, 7, t);
    Ix8Apart(0, 3, t);
    Ix8Apart(1, 3, t);
    Ix8Apart(2, 3, t);
  }

  lemma {:induction false} NoRounds(h: seq<Word>, m: seq<Word>)
    requires |h| == 8 && |m| == 16
    ensures Rounds256(h, m, 0) == h
  {
  }

  lemma {:induction false} NextRound(h: seq<Word>, m: seq<Word>, t: nat)
    requires |h| == 8 && |m| == 16
    ensures Rounds256(h, m, t + 1) == Round256(Rounds256(h, m, t), t, W256(m, t))
  {
  }

  /** Sixty-four rounds bring every register back to its place. */
  lemma {:induction false} AllRounds(b: seq<Word>, v: seq<Word>)
    requires Renamed(b, v, 64)
    ensures b == v
  {
    forall r | 0 <= r < 8 ensures b[r] == v[r] { assert Ix8(r - 64) == r; }
  }

  // ------------------------------------------------------------------ blocks and padding

  lemma {:induction false} LowBits(len0: nat, len1: nat, n: nat)
    requires len1 * TWO32 + len0 == n
    ensures len0 % 64 == n % 64
  {
  }

  lemma {:induction false} SwappedWords(buf: seq<Word>, swapped: seq<Word>)
    requires |buf| == 16 && |swapped| == 16 && forall i :: 0 <= i < 16 ==> swapped[i] == Swap(buf[i])
    ensures swapped == Words(Bytes(buf))
  {
    hide Swap, Bytes, WordAt;
    forall i | 0 <= i < 16 ensures swapped[i] == Words(Bytes(buf))[i] { SwappedWord(buf, i); }
  }

  lemma {:induction false} LengthWords(len0: nat, len1: nat, n: nat)
    requires len0 < TWO32 && len1 * TWO32 + len0 == n < 0x2000_0000_0000_0000
    ensures (len1 * 8) % TWO32 + len0 / 0x2000_0000 < TWO32 && len0 * 8 % TWO32 < TWO32
    ensures HighWord(n) == AsWord((len1 * 8) % TWO32 + len0 / 0x2000_0000) && LowWord(n) == AsWord(len0 * 8 % TWO32)
  {
    hide AsWord;
    LengthNumbers(len0, len1, n);
  }

  lemma {:induction false} LengthNumbers(len0: nat, len1: nat, n: nat)
    requires len0 < TWO32 && len1 * TWO32 + len0 == n < 0x2000_0000_0000_0000
    ensures 8 * n / TWO32 % TWO32 == (len1 * 8) % TWO32 + len0 / 0x2000_0000
    ensures 8 * n % TWO32 == len0 * 8 % TWO32
  {
  }

  /** Word `k` of the padded rest of a message. */
  function TailWord(rest: seq<Octet>, n: nat, k: nat): Word
    requires 4 * k + 4 <= |rest + Padding(n)|
  {
    WordAt(rest + Padding(n), k)
  }

  /** The padded rest has one block or two. */
  lemma {:induction false} TailSize(rest: seq<Octet>, n: nat)
    requires |rest| == n % 64
    ensures |rest + Padding(n)| == if |rest| < 56 then 64 else 128
  {
  }

  /** The bytes of the padded rest. */
  lemma {:induction false} TailByte(rest: seq<Octet>, n: nat, i: nat)
    requires |rest| == n % 64 && i < |rest + Padding(n)| - 8
    ensures (rest + Padding(n))[i] == if i < |rest| then rest[i] else if i == |rest| then 0x80 else 0
  {
    hide LengthField;
  }

  /** The words of the padded rest: data, the word with the one bit, zeros. */
  lemma {:induction false} TailWordIs(rest: seq<Octet>, n: nat, k: nat)
    requires |rest| == n % 64 && 4 * k + 4 <= |rest + Padding(n)| - 8
    ensures 4 * k + 4 <= |rest| ==> TailWord(rest, n, k) == WordAt(rest, k)
    ensures 4 * k > |rest| ==> TailWord(rest, n, k) == 0
    ensures k == |rest| / 4 ==> TailWord(rest, n, k) == EdgeWord(rest)
  {
    hide Be, Padding;
    NoBytes();
    TailByte(rest, n, 4 * k);
    TailByte(rest, n, 4 * k + 1);
    TailByte(rest, n, 4 * k + 2);
    TailByte(rest, n, 4 * k + 3);
  }

  /** The word in which the data end. */
  function EdgeWord(rest: seq<Octet>): Word
  {
    var q, k := |rest| / 4, |rest| % 4;
    if k == 0 then Be(0x80, 0, 0, 0)
    else if k == 1 then Be(rest[4 * q], 0x80, 0, 0)
    else if k == 2 then Be(rest[4 * q], rest[4 * q + 1], 0x80, 0)
    else Be(rest[4 * q], rest[4 * q + 1], rest[4 * q + 2], 0x80)
  }

  /** After swapping and marking, the words up to that of the one bit are those of the padded rest. */
  lemma {:induction false} Begun(words: seq<Word>, buf: seq<Word>, rest: seq<Octet>, i: nat, n: nat)
    requires |words| == 16 && |buf| == 16 && i == |rest| == n % 64 && Bytes(words)[..i] == rest
    requires forall k :: 0 <= k < 16 && k != i / 4 ==> buf[k] == if k < (i + 3) / 4 then Swap(words[k]) else words[k]
    requires buf[i / 4] == Padded(if i / 4 < (i + 3) / 4 then Swap(words[i / 4]) else words[i / 4], i % 4)
    ensures 4 * (i / 4) + 4 <= |rest + Padding(n)| - 8 || i >= 56
    ensures forall k :: 0 <= k <= i / 4 && 4 * k + 4 <= |rest + Padding(n)| - 8 ==> buf[k] == TailWord(rest, n, k)
  {
    hide Swap, Padded, Be, Padding, Bytes, ByteOf, TailWord;
    TailSize(rest, n);
    forall k | 0 <= k <= i / 4 && 4 * k + 4 <= |rest + Padding(n)| - 8 ensures buf[k] == TailWord(rest, n, k) {
      TailWordIs(rest, n, k);
      SwappedWord(words, k);
      if k < i / 4 {
        RestWord(words, rest, k);
      } else {
        EdgePadded(words, rest);
      }
    }
  }

  lemma {:induction false} RestWord(words: seq<Word>, rest: seq<Octet>, k: nat)
    requires |words| == 16 && |rest| < 64 && Bytes(words)[..|rest|] == rest && 4 * k + 4 <= |rest|
    ensures WordAt(Bytes(words), k) == WordAt(rest, k)
  {
    hide Be, Bytes;
    SliceAt(Bytes(words), rest, 4 * k);
    SliceAt(Bytes(words), rest, 4 * k + 1);
    SliceAt(Bytes(words), rest, 4 * k + 2);
    SliceAt(Bytes(words), rest, 4 * k + 3);
  }

  lemma {:induction false} SliceAt(s: seq<Octet>, r: seq<Octet>, i: nat)
    requires |r| <= |s| && s[..|r|] == r && i < |r|
    ensures s[i] == r[i]
  {
  }

  lemma {:induction false} EdgePadded(words: seq<Word>, rest: seq<Octet>)
    requires |words| == 16 && |rest| < 64 && Bytes(words)[..|rest|] == rest
    ensures var q, k := |rest| / 4, |rest| % 4;
      Padded(if k > 0 then Swap(words[q]) else words[q], k) == EdgeWord(rest)
  {
    hide Be, Bytes, Swap, Padded, ByteOf;
    var q, k := |rest| / 4, |rest| % 4;
    SwappedWord(words, q);
    var b := Bytes(words);
    PaddedIs(if k > 0 then Swap(words[q]) else words[q], k, b[4 * q], b[4 * q + 1], b[4 * q + 2], b[4 * q + 3]);
    if k > 0 { SliceAt(b, rest, 4 * q); }
    if k > 1 { SliceAt(b, rest, 4 * q + 1); }
    if k > 2 { SliceAt(b, rest, 4 * q + 2); }
  }

  /** The first of two last blocks. */
  lemma {:induction false} FirstOfTwo(buf: seq<Word>, rest: seq<Octet>, n: nat)
    requires |buf| == 16 && |rest| == n % 64 && |rest| >= 56
    requires forall k :: 0 <= k <= |rest| / 4 && 4 * k + 4 <= |rest + Padding(n)| - 8 ==> buf[k] == TailWord(rest, n, k)
    requires |rest| < 60 ==> buf[15] == 0
    ensures |rest + Padding(n)| == 128 && buf == Words((rest + Padding(n))[..64])
  {
    hide Padding, WordAt;
    TailSize(rest, n);
    var t := rest + Padding(n);
    forall k | 0 <= k < 16 ensures buf[k] == Words(t[..64])[k] {
      TailWordIs(rest, n, k);
      BlockWord(t, 0, k);
      assert t[0..64] == t[..64];
    }
  }

  /** Word `k` of a block within a longer sequence. */
  lemma {:induction false} BlockWord(t: seq<Octet>, from: nat, k: nat)
    requires from % 4 == 0 && from + 64 <= |t| && k < 16
    ensures from == 4 * (from / 4) && WordAt(t[from..from + 64], k) == WordAt(t, from / 4 + k)
  {
    hide Be;
  }

  /** The last block: zeros and the length after what is there already. */
  lemma {:induction false} LastOfTail(buf: seq<Word>, rest: seq<Octet>, n: nat, first: nat)
    requires |buf| == 16 && |rest| == n % 64 && n < 0x2000_0000_0000_0000
    requires |rest| < 56 ==> first == |rest| / 4 + 1 && forall k :: 0 <= k < first ==> buf[k] == TailWord(rest, n, k)
    requires |rest| >= 56 ==> first == 0
    requires forall k :: first <= k < 14 ==> buf[k] == 0
    requires buf[14] == HighWord(n) && buf[15] == LowWord(n)
    ensures var t := rest + Padding(n);
      |t| >= 64 && buf == Words(t[|t| - 64..])
  {
    hide Padding, WordAt, HighWord, LowWord, TailWord, Words;
    TailSize(rest, n);
    var t := rest + Padding(n);
    var last := t[|t| - 64..];
    LengthAt(rest, n);
    forall k | 0 <= k < 16 ensures buf[k] == WordAt(last, k) {
      LastWordIs(rest, n, k);
      LastKinds(rest, n, k);
    }
    WordsAre(buf, last);
  }

  /** What word `k` of the last block is. */
  lemma {:induction false} LastKinds(rest: seq<Octet>, n: nat, k: nat)
    requires |rest| == n % 64 && k < 16
    ensures |rest + Padding(n)| % 4 == 0 && |rest + Padding(n)| >= 64
    ensures var q := |rest + Padding(n)| / 4 - 16 + k;
      && (k < 14 && (|rest| >= 56 || k > |rest| / 4) ==> TailWord(rest, n, q) == 0)
      && (k == 14 ==> TailWord(rest, n, q) == HighWord(n)) && (k == 15 ==> TailWord(rest, n, q) == LowWord(n))
      && (|rest| < 56 ==> q == k)
  {
    hide Padding, WordAt, HighWord, LowWord, EdgeWord;
    TailSize(rest, n);
    LengthAt(rest, n);
    if k < 14 { TailWordIs(rest, n, if |rest| < 56 then k else 16 + k); }
  }

  lemma {:induction false} WordsAre(buf: seq<Word>, block: seq<Octet>)
    requires |buf| == 16 && |block| == 64 && forall k :: 0 <= k < 16 ==> buf[k] == WordAt(block, k)
    ensures buf == Words(block)
  {
    hide WordAt;
  }

  /** Word `k` of the last block is word `k` of the padded rest, or of its second block. */
  lemma {:induction false} LastWordIs(rest: seq<Octet>, n: nat, k: nat)
    requires |rest| == n % 64 && k < 16
    ensures var t := rest + Padding(n);
      && |t| >= 64 && |t| % 4 == 0
      && WordAt(t[|t| - 64..], k) == TailWord(rest, n, |t| / 4 - 16 + k)
  {
    hide Padding, WordAt, TailWord;
    TailSize(rest, n);
    var t := rest + Padding(n);
    if |rest| < 56 {
      assert t[|t| - 64..] == t;
      TailWordDef(rest, n, k);
    } else {
      assert t[|t| - 64..] == t[64..64 + 64];
      BlockWord(t, 64, k);
      TailWordDef(rest, n, 16 + k);
    }
  }

  lemma {:induction false} TailWordDef(rest: seq<Octet>, n: nat, k: nat)
    requires 4 * k + 4 <= |rest + Padding(n)|
    ensures TailWord(rest, n, k) == WordAt(rest + Padding(n), k)
  {
  }

  lemma {:induction false} LengthAt(rest: seq<Octet>, n: nat)
    requires |rest| == n % 64
    ensures var t := rest + Padding(n);
      && |t| % 4 == 0 && |t| >= 64
      && WordAt(t, |t| / 4 - 2) == HighWord(n) && WordAt(t, |t| / 4 - 1) == LowWord(n)
  {
    hide Be, Octets, HighWord, LowWord, WordAt;
    TailSize(rest, n);
    var t := rest + Padding(n);
    var hi, lo := HighWord(n), LowWord(n);
    OctetsFour(hi);
    OctetsFour(lo);
    assert t[|t| - 8..] == Octets(hi) + Octets(lo);
    EndWords(t, hi, lo);
  }

  lemma {:induction false} EndWords(t: seq<Octet>, hi: Word, lo: Word)
    requires |t| % 4 == 0 && |t| >= 8 && t[|t| - 8..] == Octets(hi) + Octets(lo)
    ensures WordAt(t, |t| / 4 - 2) == hi && WordAt(t, |t| / 4 - 1) == lo
  {
    hide Be, ByteOf;
    BeOctets(hi);
    BeOctets(lo);
    var e := t[|t| - 8..];
    assert e[0] == t[|t| - 8] && e[1] == t[|t| - 7] && e[2] == t[|t| - 6] && e[3] == t[|t| - 5];
    assert e[4] == t[|t| - 4] && e[5] == t[|t| - 3] && e[6] == t[|t| - 2] && e[7] == t[|t| - 1];
  }

  /** The hash of the padded message. */
  lemma {:induction false} Finished(message: seq<Octet>, h: seq<Word>, final: seq<Word>)
    requires h == Fold(Sha256, message)
    requires var n, rest := |message|, Rest(message);
      var t := rest + Padding(n);
      && |t| == (if |rest| < 56 then 64 else 128)
      && final == Compress(Sha256, if |rest| < 56 then h else Compress(Sha256, h, Words(t[..64])), Words(t[|t| - 64..]))
    ensures final == Fold(Sha256, message + Padding(|message|))
  {
    hide Fold, Compress, Words, Padding;
    var n, rest := |message|, Rest(message);
    var w := Whole(n);
    var t := rest + Padding(n);
    WholeOf(n);
    FoldWhole(Sha256, message);
    assert message + Padding(n) == message[..w] + t;
    if |t| == 64 {
      FoldBlock(Sha256, message[..w], t);
      assert t[|t| - 64..] == t;
    } else {
      FoldBlock(Sha256, message[..w], t[..64]);
      FoldBlock(Sha256, message[..w] + t[..64], t[64..]);
      assert message[..w] + t[..64] + t[64..] == message[..w] + t;
    }
  }
}
