/** The streaming SHA-1 of sha1.c, for a little-endian machine. */
module Sha1Code {
  import opened Fips180
  import Bits

  const TWO32 := 0x1_0000_0000

  // ------------------------------------------------------------------ bit tricks

  /** The word that four bytes in memory make up. */
  function Le(a: Octet, b: Octet, c: Octet, d: Octet): Word
  {
    ((d as Word) << 24) | ((c as Word) << 16) | ((b as Word) << 8) | (a as Word)
  }

  /** blk0: (rol(x, 24) & 0xFF00FF00) | (rol(x, 8) & 0x00FF00FF). */
  function Swap(x: Word): Word
  {
    (((x << 24) | (x >> 8)) & 0xff00ff00) | (((x << 8) | (x >> 24)) & 0x00ff00ff)
  }

  lemma {:induction false} SwapIs(a: Octet, b: Octet, c: Octet, d: Octet)
    ensures Swap(Le(a, b, c, d)) == Be(a, b, c, d)
  {
  }

  function Choose(w: Word, x: Word, y: Word): Word
  {
    (w & (x ^ y)) ^ y
  }

  function Majority(w: Word, x: Word, y: Word): Word
  {
    ((w | x) & y) | (w & x)
  }

  lemma {:induction false} SameFunctions(w: Word, x: Word, y: Word)
    ensures Choose(w, x, y) == Ch(w, x, y) && Majority(w, x, y) == Maj(w, x, y)
  {
    Bits.Choice1(w, x, y);
    Bits.Majority1(w, x, y);
  }

  /** The sum of one round: z += f + block + K + rol(v, 5). */
  function AddRound(z: Word, f: Word, b: Word, k: Word, r: Word): Word
  {
    z + (f + b + k + r)
  }

  lemma {:induction false} SumOrder(z: Word, f: Word, b: Word, k: Word, r: Word)
    ensures Plus5(r, f, z, k, b) == AddRound(z, f, b, k, r)
  {
  }

  // ------------------------------------------------------------------ the schedule

  /** The sixteen words of the block: those of the rounds to come still as they lie in memory. */
  ghost predicate Rolling(p: seq<Word>, raw: seq<Word>, m: seq<Word>, t: nat)
  {
    && |p| == 16 && |raw| == 16 && |m| == 16
    && (forall s: nat :: Base(t) <= s < Base(t) + 16 && s < t ==> p[Ix16(s)] == W1(m, s))
    && (forall s: nat :: t <= s < 16 ==> p[s] == raw[s])
    && (forall s: nat :: s < 16 ==> Swap(raw[s]) == m[s])
  }

  lemma {:induction false} StartRolling(raw: seq<Word>, m: seq<Word>)
    requires |raw| == 16 && |m| == 16 && forall s: nat :: s < 16 ==> Swap(raw[s]) == m[s]
    ensures Rolling(raw, raw, m, 0)
  {
    hide Swap;
  }

  lemma {:induction false} RollEarly(p: seq<Word>, raw: seq<Word>, m: seq<Word>, t: nat)
    requires Rolling(p, raw, m, t) && t < 16
    ensures Swap(p[t]) == W1(m, t) && Rolling(p[t := Swap(p[t])], raw, m, t + 1)
  {
    hide Swap;
    FirstWords(m, t);
    var p' := p[t := Swap(p[t])];
    Early(t);
    forall s: nat | Base(t + 1) <= s < Base(t + 1) + 16 && s < t + 1 ensures p'[Ix16(s)] == W1(m, s) { Early(s); }
  }

  lemma {:induction false} FirstWords(m: seq<Word>, t: nat)
    requires |m| == 16 && t < 16
    ensures W1(m, t) == m[t]
  {
  }

  lemma {:induction false} Early(s: nat)
    requires s < 16
    ensures Ix16(s) == s
  {
  }

  lemma {:induction false} RollLate(p: seq<Word>, raw: seq<Word>, m: seq<Word>, t: nat)
    requires Rolling(p, raw, m, t) && t >= 16
    ensures Rotl1(Xor4(p[Ix16(t + 13)], p[Ix16(t + 8)], p[Ix16(t + 2)], p[Ix16(t)])) == W1(m, t)
    ensures Rolling(p[Ix16(t) := W1(m, t)], raw, m, t + 1)
  {
    hide Swap, Rotl1, Xor4, W1, Ix16;
    Ix16Apart(t - 16, t - 15);
    Ix16Apart(t - 3, t - 2);
    Ix16Apart(t - 8, t - 7);
    Ix16Apart(t - 14, t - 13);
    ScheduleAt(m, t);
    var p' := p[Ix16(t) := W1(m, t)];
    forall s: nat | Base(t + 1) <= s < Base(t + 1) + 16 && s < t + 1 ensures p'[Ix16(s)] == W1(m, s) {
      if s < t { Ix16Apart(s, t); }
    }
  }

  lemma {:induction false} ScheduleAt(m: seq<Word>, t: nat)
    requires |m| == 16 && t >= 16
    ensures W1(m, t) == Rotl1(Xor4(W1(m, t - 3), W1(m, t - 8), W1(m, t - 14), W1(m, t - 16)))
  {
    hide Rotl1, Xor4;
  }

  // ------------------------------------------------------------------ the transform

  /** blk0 and blk: word `i` of the schedule, made in place. */
  method Blk(block: array<Word>, i: nat, ghost raw: seq<Word>, ghost m: seq<Word>) returns (w: Word)
    requires block.Length == 16 && i < 80 && |m| == 16 && Rolling(block[..], raw, m, i)
    modifies block
    ensures w == W1(m, i) && Rolling(block[..], raw, m, i + 1)
  {
    hide Swap, Rotl1, Xor4, W1, Rolling, Ix16;
    if i < 16 {
      RollSize(block[..], raw, m, i);
      RollEarly(block[..], raw, m, i);
      ghost var was := block[..];
      block[i] := Swap(block[i]);
      assert block[..] == was[i := Swap(was[i])];
      w := block[i];
    } else {
      RollLate(block[..], raw, m, i);
      ghost var was := block[..];
      block[Ix16(i)] := Rotl1(Xor4(block[Ix16(i + 13)], block[Ix16(i + 8)], block[Ix16(i + 2)], block[Ix16(i)]));
      assert block[..] == was[Ix16(i) := W1(m, i)];
      w := block[Ix16(i)];
    }
  }

  lemma {:induction false} RollSize(p: seq<Word>, raw: seq<Word>, m: seq<Word>, t: nat)
    requires Rolling(p, raw, m, t)
    ensures |p| == 16 && |raw| == 16 && |m| == 16
  {
  }

  /** The macros R0 to R4: the variables `z` and `w` of a round get new values. */
  method Round(v: Word, w: Word, x: Word, y: Word, z: Word, block: array<Word>, i: nat, ghost raw: seq<Word>, ghost m: seq<Word>)
    returns (z': Word, w': Word)
    requires block.Length == 16 && i < 80 && |m| == 16 && Rolling(block[..], raw, m, i)
    modifies block
    ensures Rolling(block[..], raw, m, i + 1)
    ensures Round1([v, w, x, y, z], i, W1(m, i)) == [z', v, w', x, y]
  {
    hide Swap, Rotl5, Rotl30, W1, Rolling, Ch, Maj, Parity, Choose, Majority, AddRound, Plus5;
    var b := Blk(block, i, raw, m);
    SameFunctions(w, x, y);
    SumOrder(z, F1(i, w, x, y), b, K1(i), Rotl5(v));
    if i < 20 {
      z' := AddRound(z, Choose(w, x, y), b, 0x5a827999, Rotl5(v));
    } else if i < 40 {
      z' := AddRound(z, Parity(w, x, y), b, 0x6ed9eba1, Rotl5(v));
    } else if i < 60 {
      z' := AddRound(z, Majority(w, x, y), b, 0x8f1bbcdc, Rotl5(v));
    } else {
      z' := AddRound(z, Parity(w, x, y), b, 0xca62c1d6, Rotl5(v));
    }
    w' := Rotl30(w);
  }

  lemma {:induction false} NextRound(h: seq<Word>, m: seq<Word>, t: nat)
    requires |h| == 5 && |m| == 16
    ensures Rounds1(h, m, t + 1) == Round1(Rounds1(h, m, t), t, W1(m, t))
  {
  }

  lemma {:induction false} NoRounds(h: seq<Word>, m: seq<Word>)
    requires |h| == 5 && |m| == 16
    ensures Rounds1(h, m, 0) == h
  {
  }

  /** Five rounds with the variables in rotating roles, as the eighty of SHA1Transform are written. */
  method FiveRounds(a0: Word, b0: Word, c0: Word, d0: Word, e0: Word, block: array<Word>, i: nat, ghost raw: seq<Word>,
                    ghost h: seq<Word>, ghost m: seq<Word>)
    returns (a: Word, b: Word, c: Word, d: Word, e: Word)
    requires block.Length == 16 && i + 5 <= 80 && |m| == 16 && |h| == 5 && Rolling(block[..], raw, m, i)
    requires [a0, b0, c0, d0, e0] == Rounds1(h, m, i)
    modifies block
    ensures Rolling(block[..], raw, m, i + 5) && [a, b, c, d, e] == Rounds1(h, m, i + 5)
  {
    hide Rolling, W1, Round1, Rounds1;
    a, b, c, d, e := a0, b0, c0, d0, e0;
    NextRound(h, m, i);
    NextRound(h, m, i + 1);
    NextRound(h, m, i + 2);
    NextRound(h, m, i + 3);
    NextRound(h, m, i + 4);
    e, b := Round(a, b, c, d, e, block, i, raw, m);
    d, a := Round(e, a, b, c, d, block, i + 1, raw, m);
    c, e := Round(d, e, a, b, c, block, i + 2, raw, m);
    b, d := Round(c, d, e, a, b, block, i + 3, raw, m);
    a, c := Round(b, c, d, e, a, block, i + 4, raw, m);
  }

  /** SHA1Transform. */
  method Transform(state: array<Word>, buffer: seq<Octet>)
    requires state.Length == 5 && |buffer| == 64
    modifies state
    ensures state[..] == Compress(Sha1, old(state[..]), Words(buffer))
  {
    hide Rolling, W1, Rounds1, WordAt, Plus, Sum, Words, Compress;
    ghost var m, h := Words(buffer), state[..];
    var block, raw := LoadBlock(buffer);
    StartRolling(raw, m);
    NoRounds(h, m);
    var a, b, c, d, e := state[0], state[1], state[2], state[3], state[4];
    assert [a, b, c, d, e] == h;
    var i := 0;
    while i < 80
      modifies block
      invariant 0 <= i <= 80 && i % 5 == 0 && Rolling(block[..], raw, m, i) && [a, b, c, d, e] == Rounds1(h, m, i)
    {
      a, b, c, d, e := FiveRounds(a, b, c, d, e, block, i, raw, h, m);
      i := i + 5;
    }
    assert state[..] == h;
    AddTo(state, a, b, c, d, e);
    CompressIs(h, m);
  }

  lemma {:induction false} CompressIs(h: seq<Word>, m: seq<Word>)
    requires |h| == 5 && |m| == 16
    ensures Compress(Sha1, h, m) == Sum(h, Rounds1(h, m, 80))
  {
  }

  /** The bytes of a block as words in memory. */
  method LoadBlock(buffer: seq<Octet>) returns (block: array<Word>, ghost raw: seq<Word>)
    requires |buffer| == 64
    ensures fresh(block) && block.Length == 16 && raw == block[..] && forall s: nat :: s < 16 ==> Swap(raw[s]) == Words(buffer)[s]
  {
    hide Le, Swap, WordAt, Words;
    block := new Word[16](_ => 0);
    var i := 0;
    while i < 16
      invariant 0 <= i <= 16 && forall s: nat :: s < i ==> Swap(block[s]) == WordAt(buffer, s)
    {
      SwappedWord(buffer, i);
      block[i] := Le(buffer[4 * i], buffer[4 * i + 1], buffer[4 * i + 2], buffer[4 * i + 3]);
      i := i + 1;
    }
    raw := block[..];
    WordsOf(buffer);
  }

  lemma {:induction false} WordsOf(buffer: seq<Octet>)
    requires |buffer| == 64
    ensures |Words(buffer)| == 16 && forall s: nat :: s < 16 ==> Words(buffer)[s] == WordAt(buffer, s)
  {
    hide WordAt;
  }

  /** The final additions of SHA1Transform. */
  method AddTo(state: array<Word>, a: Word, b: Word, c: Word, d: Word, e: Word)
    requires state.Length == 5
    modifies state
    ensures state[..] == Sum(old(state[..]), [a, b, c, d, e])
  {
    hide Plus, Sum;
    state[0] := Plus(state[0], a);
    state[1] := Plus(state[1], b);
    state[2] := Plus(state[2], c);
    state[3] := Plus(state[3], d);
    state[4] := Plus(state[4], e);
    SumIs(old(state[..]), [a, b, c, d, e], state[..]);
  }

  lemma {:induction false} SwappedWord(buffer: seq<Octet>, s: nat)
    requires |buffer| == 64 && s < 16
    ensures Swap(Le(buffer[4 * s], buffer[4 * s + 1], buffer[4 * s + 2], buffer[4 * s + 3])) == WordAt(buffer, s)
  {
    hide Swap, Le, Be;
    SwapIs(buffer[4 * s], buffer[4 * s + 1], buffer[4 * s + 2], buffer[4 * s + 3]);
  }

  lemma {:induction false} SumIs(a: seq<Word>, b: seq<Word>, r: seq<Word>)
    requires |a| == |b| == |r| && forall i :: 0 <= i < |a| ==> r[i] == Plus(a[i], b[i])
    ensures r == Sum(a, b)
  {
    hide Plus, Sum;
    SumSize(a, b);
    forall i | 0 <= i < |a| ensures Sum(a, b)[i] == r[i] { SumAt(a, b, i); }
  }

  // ------------------------------------------------------------------ the context

  class Sha1Ctx {
    const state: array<Word>
    var count0: nat
    var count1: nat
    const buffer: array<Octet>

    ghost predicate Shaped()
      reads this
    {
      state.Length == 5 && buffer.Length == 64 && count0 < TWO32 && count1 < TWO32
    }

    /** The fields after the bytes of `message`; the count is of bits, modulo 2^64. */
    ghost predicate Absorbed(message: seq<Octet>)
      reads this, state, buffer
    {
      && Shaped()
      && state[..] == Fold(Sha1, message)
      && buffer[..Fill(|message|)] == Rest(message)
      && count1 == High(|message|) && count0 == Low(|message|)
    }

    /** SHA1Init. */
    constructor ()
      ensures Absorbed([]) && fresh(state) && fresh(buffer)
    {
      state := new Word[5](i => if 0 <= i < 5 then Initial(Sha1)[i] else 0);
      buffer := new Octet[64];
      count0, count1 := 0, 0;
      new;
      assert state[..] == Initial(Sha1);
    }

    /** The bit count of SHA1Update. */
    method Count(len: nat, ghost n: nat)
      requires len < TWO32 && count1 == High(n) && count0 == Low(n)
      modifies `count0, `count1
      ensures count0 < TWO32 && count1 < TWO32 && count1 == High(n + len) && count0 == Low(n + len)
    {
      var j := count0;
      count0 := (count0 + len * 8 % TWO32) % TWO32;
      if count0 < j { count1 := (count1 + 1) % TWO32; }
      count1 := (count1 + len / 0x2000_0000) % TWO32;
      Carry(n, len);
    }

    /** memcpy into the buffer. */
    method MemCopy(at: nat, data: seq<Octet>, from: nat, n: nat)
      requires buffer.Length == 64 && at + n <= 64 && from + n <= |data|
      modifies buffer
      ensures buffer[at..at + n] == data[from..from + n] && buffer[..at] == old(buffer[..at])
    {
      forall k | at <= k < at + n { buffer[k] := data[from + (k - at)]; }
      ghost var to, b := at + n, data[from..from + n];
      forall k | 0 <= k < n ensures buffer[at..to][k] == b[k] { assert buffer[at + k] == data[from + k]; }
    }

    /** SHA1Update, with its 32-bit sums of indices; what is in the buffer and the chunk together must be
        counted by them (IndexWraps). */
    method Update(data: seq<Octet>, ghost message: seq<Octet>)
      requires Absorbed(message) && Fill(|message|) + |data| < TWO32
      modifies this, state, buffer
      ensures Absorbed(message + data)
    {
      hide Fold, Fill, Rest, High, Low, Words;
      CountBytes(|message|);
      var j := count0 / 8 % 64;
      Count(|data|, |message|);
      var i := 0;
      assert message + data[..0] == message;
      if (j + |data|) % TWO32 > 63 {
        i := 64 - j;
        FirstBlock(data, j, message);
        i := MoreBlocks(data, i, message, j);
        j := 0;
      }
      ghost var was := buffer[..];
      MemCopy(j, data, i, |data| - i);
      assert data[i..i + (|data| - i)] == data[i..];
      Kept(Sha1, message + data[..i], data[i..], was, buffer[..], j);
      assert message + data[..i] + data[i..] == message + data;
    }

    /** Complete the block in the buffer. */
    method FirstBlock(data: seq<Octet>, j: nat, ghost message: seq<Octet>)
      requires Shaped() && j == Fill(|message|) < 64 && 64 - j <= |data|
      requires state[..] == Fold(Sha1, message) && buffer[..j] == Rest(message)
      modifies state, buffer
      ensures state[..] == Fold(Sha1, message + data[..64 - j]) && Fill(|message| + 64 - j) == 0
    {
      hide Fold, Compress, Words, Rest;
      RestIs(message);
      ghost var was := buffer[..];
      MemCopy(j, data, 0, 64 - j);
      assert data[0..64 - j] == data[..64 - j];
      assert buffer[..] == Rest(message) + data[..64 - j] by {
        assert buffer[..] == buffer[..j] + buffer[j..j + (64 - j)];
      }
      BlockAdded(Sha1, message, data[..64 - j]);
      Transform(state, buffer[..]);
    }

    /** Whole blocks straight from the data. */
    method MoreBlocks(data: seq<Octet>, i0: nat, ghost message: seq<Octet>, ghost j: nat) returns (i: nat)
      requires j == Fill(|message|) && j + |data| < TWO32
      requires Shaped() && i0 <= |data| && state[..] == Fold(Sha1, message + data[..i0]) && Fill(|message| + i0) == 0
      modifies state
      ensures i0 <= i <= |data| < i + 64 && state[..] == Fold(Sha1, message + data[..i]) && Fill(|message| + i) == 0
    {
      hide Fold, Compress, Words;
      i := i0;
      BlockSum(|message|, j, i);
      while (i + 63) % TWO32 < |data|
        invariant i + 63 < TWO32
        invariant i0 <= i <= |data| && state[..] == Fold(Sha1, message + data[..i]) && Fill(|message| + i) == 0
      {
        ghost var now, more := message + data[..i], data[i..i + 64];
        NoRest(now);
        RestIs(now);
        BlockAdded(Sha1, now, more);
        assert Rest(now) + more == more;
        assert now + more == message + data[..i + 64];
        Transform(state, data[i..i + 64]);
        i := i + 64;
        BlockSum(|message|, j, i);
      }
    }

    /** SHA1Final: pad through Update, and give out the state. */
    method Final(digest: array<Octet>, ghost message: seq<Octet>)
      requires Absorbed(message) && digest.Length >= 20 && digest != buffer
      modifies this, state, buffer, digest
      ensures digest[..20] == Digest(Sha1, message) && digest[20..] == old(digest[20..])
    {
      hide Fold, Fill, Rest, High, Low, Octets, Flatten, Digest, LengthField, Zeros, Padding;
      ghost var n := |message|;
      ghost var rest := digest[20..];
      var finalcount := Octets(AsWord(count1)) + Octets(AsWord(count0));
      CountField(n);
      FourEach(count1, count0);
      FillIs(n);
      Update([0x80], message);
      ghost var now := PadZeros(message);
      FillIs(|now|);
      Update(finalcount, now);
      assert digest[20..] == rest;
      assert now + finalcount == message + Padding(n) by { PaddingIs(message, n); }
      DigestIs(Sha1, message);
      Emit(digest);
    }

    /** Zero bytes until only the length is missing from a block. */
    method PadZeros(ghost message: seq<Octet>) returns (ghost now: seq<Octet>)
      requires Absorbed(message + [0x80])
      modifies this, state, buffer
      ensures now == message + [0x80] + seq(Zeros(|message|), _ => 0) && Absorbed(now)
    {
      hide Fold, Fill, Rest, High, Low, Zeros;
      ghost var n, z, k := |message|, Zeros(|message|), 0;
      now := message + [0x80];
      CountBits(|now|);
      ZerosIs(n);
      while count0 % 512 / 8 * 8 != 448
        invariant Absorbed(now) && k <= z && now == message + [0x80] + seq(k, _ => 0) && |now| == n + 1 + k
        decreases z - k
      {
        CountBits(|now|);
        NotYet(n, k);
        FillIs(|now|);
        Update([0], now);
        assert seq(k + 1, _ => 0 as Octet) == seq(k, _ => 0 as Octet) + [0];
        k := k + 1;
        now := now + [0];
      }
      CountBits(|now|);
      NotYet(n, k);
    }

    /** The bytes of the state, most significant first. */
    method Emit(digest: array<Octet>)
      requires Shaped() && digest.Length >= 20
      modifies digest
      ensures digest[..20] == Flatten(state[..]) && digest[20..] == old(digest[20..])
    {
      hide Flatten, ByteOf, Octets;
      FlattenSize(state[..]);
      var i := 0;
      while i < 20
        invariant 0 <= i <= 20 && forall k :: 0 <= k < i ==> digest[k] == Flatten(state[..])[k]
        invariant digest[20..] == old(digest[20..])
      {
        FlattenAt(state[..], i);
        OctetAt(state[i / 4], i % 4);
        digest[i] := ByteOf(state[i / 4], 3 - i % 4);
        i := i + 1;
      }
    }
  }

  /** SHA1: the digest of a whole string, taken in byte by byte, and a terminating zero. */
  method Sha1String(hashOut: array<Octet>, str: seq<Octet>)
    requires hashOut.Length == 21
    modifies hashOut
    ensures hashOut[..20] == Digest(Sha1, str) && hashOut[20] == 0
  {
    hide Digest, Fold, Fill, Rest, High, Low;
    var ctx := new Sha1Ctx();
    var ii := 0;
    while ii < |str|
      invariant 0 <= ii <= |str| && ctx.Absorbed(str[..ii]) && fresh(ctx) && fresh(ctx.state) && fresh(ctx.buffer)
    {
      FillIs(ii);
      ctx.Update([str[ii]], str[..ii]);
      assert str[..ii] + [str[ii]] == str[..ii + 1];
      ii := ii + 1;
    }
    assert str[..ii] == str;
    ctx.Final(hashOut, str);
    hashOut[20] := 0;
  }

  // ------------------------------------------------------------------ counting

  /** The two words of the bit count after `n` bytes. */
  function High(n: nat): nat
  {
    8 * n / TWO32 % TWO32
  }

  function Low(n: nat): nat
  {
    8 * n % TWO32
  }

  lemma {:induction false} Carry(n: nat, len: nat)
    requires len < TWO32
    ensures var c := (Low(n) + len * 8 % TWO32) % TWO32;
      && c == Low(n + len)
      && ((if c < Low(n) then (High(n) + 1) % TWO32 else High(n)) + len / 0x2000_0000) % TWO32 == High(n + len)
  {
    var q, a, p, b := 8 * n / TWO32, 8 * n % TWO32, len / 0x2000_0000, 8 * len % TWO32;
    assert 8 * n == q * TWO32 + a;
    assert 8 * len == p * TWO32 + b;
    TwoParts(8 * (n + len), q + p, a, b);
    ModTwice(q, 1, p);
    ModTwice(q, 0, p);
  }

  lemma {:induction false} TwoParts(v: nat, q: nat, a: nat, b: nat)
    requires a < TWO32 && b < TWO32 && v == q * TWO32 + a + b
    ensures v % TWO32 == (a + b) % TWO32 && ((a + b) % TWO32 < a <==> a + b >= TWO32)
    ensures v / TWO32 == if a + b >= TWO32 then q + 1 else q
  {
  }

  lemma {:induction false} ModTwice(q: nat, c: nat, p: nat)
    ensures ((q % TWO32 + c) % TWO32 + p) % TWO32 == (q + c + p) % TWO32
    ensures c == 0 ==> (q % TWO32 + p) % TWO32 == (q + p) % TWO32
  {
    ModOnce(q, c);
    ModOnce(q + c, p);
    ModOnce(q, p);
  }

  lemma {:induction false} ModOnce(x: nat, y: nat)
    ensures (x % TWO32 + y) % TWO32 == (x + y) % TWO32
  {
  }

  /** The count says how many bytes are in the buffer. */
  /** The sums of indices at block boundaries do not wrap around. */
  lemma {:induction false} BlockSum(n: nat, j: nat, i: nat)
    requires j == Fill(n) && Fill(n + i) == 0 && j + i < TWO32
    ensures i + 63 < TWO32
  {
    assert n == n / 64 * 64 + j && n + i == (n + i) / 64 * 64;
    assert j + i == ((n + i) / 64 - n / 64) * 64;
  }

  /** A longer chunk would be taken for one that fits in the buffer, and be copied beyond its end. */
  lemma {:induction false} IndexWraps(j: nat, len: nat)
    requires j < 64 && len < TWO32 && j + len >= TWO32
    ensures (j + len) % TWO32 <= 63 && j + len > 64
  {
  }

  lemma {:induction false} CountBytes(n: nat)
    ensures Low(n) / 8 % 64 == Fill(n) < 64
  {
  }

  lemma {:induction false} CountBits(n: nat)
    ensures Low(n) % 512 / 8 * 8 == 448 <==> n % 64 == 56
  {
    var q, r, m := n / 64, n % 64, 8 * n / TWO32;
    assert 8 * n == 512 * q + 8 * r;
    assert Low(n) == 8 * n - m * TWO32;
    Remainder512(Low(n), q - m * 0x80_0000, r);
  }

  lemma {:induction false} Remainder512(v: nat, x: int, r: nat)
    requires r < 64 && v == 512 * x + 8 * r
    ensures v % 512 == 8 * r
  {
  }

  lemma {:induction false} CountField(n: nat)
    ensures High(n) < TWO32 && Low(n) < TWO32
    ensures Octets(AsWord(High(n))) + Octets(AsWord(Low(n))) == LengthField(n)
  {
    hide Octets, AsWord;
  }

  lemma {:induction false} PaddingIs(message: seq<Octet>, n: nat)
    ensures message + [0x80] + seq(Zeros(n), _ => 0) + LengthField(n) == message + Padding(n)
  {
    hide LengthField, Zeros;
  }

  lemma {:induction false} FourEach(a: nat, b: nat)
    requires a < TWO32 && b < TWO32
    ensures |Octets(AsWord(a))| == 4 && |Octets(AsWord(b))| == 4
  {
    OctetsFour(AsWord(a));
    OctetsFour(AsWord(b));
  }

  lemma {:induction false} ZerosIs(n: nat)
    ensures Zeros(n) < 64
  {
  }

  /** The padding loop stops exactly when all zeros are there. */
  lemma {:induction false} NotYet(n: nat, k: nat)
    requires k <= Zeros(n)
    ensures (n + 1 + k) % 64 == 56 <==> k == Zeros(n)
  {
  }

  lemma {:induction false} Kept(algorithm: Algorithm, now: seq<Octet>, more: seq<Octet>, was: seq<Octet>, bytes: seq<Octet>, i: nat)
    requires i == Fill(|now|) && i + |more| < 64 && |was| == 64 && |bytes| == 64
    requires i == 0 || was[..i] == Rest(now)
    requires bytes[..i] == was[..i] && bytes[i..i + |more|] == more
    ensures bytes[..Fill(|now + more|)] == Rest(now + more) && Fold(algorithm, now + more) == Fold(algorithm, now)
  {
    hide Fold;
    RestIs(now);
    RestIs(now + more);
    FillIs(|now|);
    FillIs(|now + more|);
    if i == 0 { NoRest(now); }
    Tail(algorithm, now, more, was, bytes, i);
  }

  lemma {:induction false} FlattenSize(h: seq<Word>)
    ensures |Flatten(h)| == 4 * |h|
  {
  }
}
