/** The bit vector of bitvec.c: one set of numbers in three representations. */
module Bitvecs {
  import opened BitHash
  import Counting

  /** Sizes of a 512-byte Bitvec on a 64-bit machine: bytes in the bitmap, bits in it, and pointers. */
  const NELEM: nat := 496
  const NBIT: nat := 3968
  const NPTR: nat := 62

  // ------------------------------------------------------------------ the bits of a byte

  function Mask(k: nat): bv8
    requires k < 8
  {
    (1 as bv8) << k
  }

  predicate TestBit(b: bv8, k: nat)
    requires k < 8
  {
    b & Mask(k) != 0
  }

  function WithBit(b: bv8, k: nat): bv8
    requires k < 8
  {
    b | Mask(k)
  }

  function WithoutBit(b: bv8, k: nat): bv8
    requires k < 8
  {
    b & !Mask(k)
  }

  lemma {:induction false} SetBit(b: bv8, k: nat, j: nat)
    requires k < 8 && j < 8
    ensures TestBit(WithBit(b, k), j) <==> j == k || TestBit(b, j)
  {
    hide TestBit, WithBit, Mask;
    if j == k { SetSame(b, k); } else { SetOther(b, k, j); }
  }

  lemma {:induction false} SetSame(b: bv8, k: nat)
    requires k < 8
    ensures TestBit(WithBit(b, k), k)
  {
    hide Mask;
    OneBit(k);
    Or1(b, Mask(k));
  }

  lemma {:induction false} SetOther(b: bv8, k: nat, j: nat)
    requires k < 8 && j < 8 && j != k
    ensures TestBit(WithBit(b, k), j) <==> TestBit(b, j)
  {
    hide Mask;
    Apart(k, j);
    Or2(b, Mask(k), Mask(j));
  }

  lemma {:induction false} ClearBit(b: bv8, k: nat, j: nat)
    requires k < 8 && j < 8
    ensures TestBit(WithoutBit(b, k), j) <==> j != k && TestBit(b, j)
  {
    hide Mask;
    if j == k {
      And1(b, Mask(k));
    } else {
      Apart(k, j);
      And2(b, Mask(k), Mask(j));
    }
  }

  lemma {:induction false} OneBit(k: nat)
    requires k < 8
    ensures Mask(k) != 0
  {
    if k == 0 {} else if k == 1 {} else if k == 2 {} else if k == 3 {} else if k == 4 {} else if k == 5 {} else if k == 6 {} else {}
  }

  lemma {:induction false} Apart(k: nat, j: nat)
    requires k < 8 && j < 8 && j != k
    ensures Mask(k) & Mask(j) == 0
  {
    if k == 0 {} else if k == 1 {} else if k == 2 {} else if k == 3 {} else if k == 4 {} else if k == 5 {} else if k == 6 {} else {}
  }

  lemma {:induction false} Or1(b: bv8, m: bv8)
    requires m != 0
    ensures (b | m) & m != 0
  {
    assert (b | m) & m == m;
  }

  lemma {:induction false} Or2(b: bv8, m: bv8, n: bv8)
    requires m & n == 0
    ensures (b | m) & n == b & n
  {
    assert (b | m) & n == (b & n) | (m & n);
  }

  lemma {:induction false} And1(b: bv8, m: bv8)
    ensures (b & !m) & m == 0
  {
  }

  lemma {:induction false} And2(b: bv8, m: bv8, n: bv8)
    requires m & n == 0
    ensures (b & !m) & n == b & n
  {
  }

  /** Bit `i` of the bitmap, counted from 0. */
  predicate BitIn(a: seq<bv8>, i: nat)
    requires i / 8 < |a|
  {
    TestBit(a[i / 8], i % 8)
  }

  lemma {:induction false} BitWritten(a: seq<bv8>, i: nat, j: nat)
    requires i / 8 < |a| && j / 8 < |a|
    ensures BitIn(a[i / 8 := WithBit(a[i / 8], i % 8)], j) <==> j == i || BitIn(a, j)
    ensures BitIn(a[i / 8 := WithoutBit(a[i / 8], i % 8)], j) <==> j != i && BitIn(a, j)
  {
    hide TestBit, WithBit, WithoutBit;
    SamePlace(i, j);
    if i / 8 == j / 8 {
      SetBit(a[i / 8], i % 8, j % 8);
      ClearBit(a[i / 8], i % 8, j % 8);
    }
  }

  lemma {:induction false} SamePlace(i: nat, j: nat)
    ensures i / 8 == j / 8 && i % 8 == j % 8 <==> i == j
  {
  }

  // ------------------------------------------------------------------ dividing the range

  /** The size of the range each sub-vector handles (32-bit sum without wrap-around). */
  function Divisor(iSize: nat): (d: nat)
    ensures iSize > NBIT ==> 0 < d < iSize
    ensures d * NPTR >= iSize
  {
    (iSize + NPTR - 1) / NPTR
  }

  /** The sub-vector for number `i` (counted from 0), and its place there. */
  function Bin(i: nat, d: nat): nat
    requires d > 0
  {
    i / d
  }

  function Rem(i: nat, d: nat): nat
    requires d > 0
  {
    i % d
  }

  lemma {:induction false} BinFits(i: nat, iSize: nat)
    requires i < iSize && iSize > NBIT
    ensures Bin(i, Divisor(iSize)) < NPTR && Rem(i, Divisor(iSize)) < Divisor(iSize)
    ensures i == Bin(i, Divisor(iSize)) * Divisor(iSize) + Rem(i, Divisor(iSize))
  {
    var d := Divisor(iSize);
    var q := i / d;
    assert d * q + i % d == i && q * d == d * q && NPTR * d == d * NPTR;
    Counting.MulLess(q, NPTR, d);
  }

  /** Bin and remainder determine the number. */
  lemma {:induction false} BinUnique(i: nat, j: nat, iSize: nat)
    requires i < iSize && j < iSize && iSize > NBIT
    ensures Bin(i, Divisor(iSize)) == Bin(j, Divisor(iSize)) && Rem(i, Divisor(iSize)) == Rem(j, Divisor(iSize)) <==> i == j
  {
    hide Bin, Rem, Divisor;
    BinFits(i, iSize);
    BinFits(j, iSize);
  }

  // ------------------------------------------------------------------ the vector

  class Bitvec {
    const iSize: nat
    var nSet: nat
    var iDivisor: nat
    /** The three forms of the union. */
    var aBitmap: seq<bv8>
    var aHash: seq<nat>
    var apSub: seq<Bitvec?>
    ghost var Repr: set<object>
    ghost var bits: set<nat>

    /** Sub-vector `k`, if present, is a vector of its own for a range of iDivisor numbers. */
    ghost predicate SubOk(k: nat)
      requires k < |apSub|
      reads this, Repr
      decreases Repr, 0
    {
      var s := apSub[k];
      s != null ==> s in Repr && s.Repr < Repr && this !in s.Repr && s.iSize == iDivisor && s.Valid()
    }

    /** Different sub-vectors share nothing. */
    ghost predicate SubsApart(j: nat, k: nat)
      requires j < |apSub| && k < |apSub|
      reads this, Repr
    {
      apSub[j] != null && apSub[k] != null && apSub[j] in Repr && apSub[k] in Repr ==> apSub[j].Repr !! apSub[k].Repr
    }

    ghost predicate Valid()
      reads this, Repr
      decreases Repr
      ensures Valid() ==> this in Repr
    {
      && this in Repr
      && (forall i :: i in bits ==> 1 <= i <= iSize)
      && (iSize <= NBIT ==> BitmapForm())
      && (iSize > NBIT && iDivisor == 0 ==> HashForm())
      && (iSize > NBIT && iDivisor != 0 ==> iDivisor == Divisor(iSize) && |apSub| == NPTR && SubForm())
    }

    ghost predicate BitmapForm()
      reads this
    {
      iDivisor == 0 && |aBitmap| == NELEM && forall i :: 0 <= i < iSize <= NBIT ==> (i + 1 in bits <==> BitIn(aBitmap, i))
    }

    ghost predicate HashForm()
      reads this
    {
      |aHash| == NINT && TableOk(aHash) && nSet == Count(aHash) < NINT && Values(aHash) == bits
    }

    ghost predicate SubForm()
      requires |apSub| == NPTR && iDivisor != 0 && iSize > NBIT && iDivisor == Divisor(iSize)
      reads this, Repr
      decreases Repr, 1
    {
      && (forall k :: 0 <= k < NPTR ==> SubOk(k))
      && (forall j, k :: 0 <= j < k < NPTR ==> SubsApart(j, k))
      && (forall i :: 0 <= i < iSize ==> (i + 1 in bits <==> InSub(i)))
    }

    /** Number `i` (counted from 0) is in the sub-vector for its range. */
    ghost predicate InSub(i: nat)
      requires |apSub| == NPTR && iDivisor != 0 && iSize > NBIT && iDivisor == Divisor(iSize) && i < iSize
      reads this, Repr
    {
      BinFits(i, iSize);
      var s := apSub[Bin(i, iDivisor)];
      s != null && s in Repr && Rem(i, iDivisor) + 1 in s.bits
    }

    /** sqlite3BitvecCreate. */
    constructor (iSize: nat)
      ensures Valid() && bits == {} && this.iSize == iSize && fresh(Repr)
    {
      this.iSize := iSize;
      nSet, iDivisor := 0, 0;
      aBitmap, aHash, apSub := seq(NELEM, i => 0), seq(NINT, i => 0), [];
      bits, Repr := {}, {this};
      new;
      EmptyTable(aHash);
      CountZero(aHash);
    }

    /** sqlite3BitvecTestNotNull: exact membership, whatever the form. */
    method Test(i0: nat) returns (r: bool)
      requires Valid()
      ensures r == (i0 in bits)
    {
      hide BitIn, TestBit, WithBit, WithoutBit;
      if i0 == 0 || i0 > iSize { return false; }
      var p: Bitvec := this;
      var i: nat := i0 - 1;
      while p.iDivisor != 0
        invariant p.Valid() && i < p.iSize
        invariant i + 1 in p.bits <==> i0 in bits
        decreases p.iSize
      {
        hide HashForm, BitmapForm, Bin, Rem;
        BinFits(i, p.iSize);
        var bin := Bin(i, p.iDivisor);
        assert p.SubOk(bin) && (i + 1 in p.bits <==> p.InSub(i));
        var s := p.apSub[bin];
        if s == null { return false; }
        i := Rem(i, p.iDivisor);
        p := s;
      }
      if p.iSize <= NBIT {
        r := p.BitAt(i);
      } else {
        r := p.Probe(i + 1);
      }
    }

    method BitAt(i: nat) returns (r: bool)
      requires Valid() && i < iSize <= NBIT
      ensures r == (i + 1 in bits)
    {
      r := (aBitmap[i / 8] & ((1 as bv8) << (i % 8))) != 0;
      assert r == BitIn(aBitmap, i);
    }

    /** The probe loop of sqlite3BitvecTestNotNull. */
    method Probe(v: nat) returns (r: bool)
      requires Valid() && iSize > NBIT && iDivisor == 0 && v > 0
      ensures r == (v in bits)
    {
      hide TableOk, Reachable, Values, Count, At;
      NextSlot(Home(v), 0);
      ghost var t := 0;
      SomeEmpty(aHash);
      ghost var z :| 0 <= z < NINT && aHash[z] == 0;
      var h := (v - 1) % NINT;
      while aHash[h] != 0
        invariant t <= NINT && h == At(Home(v), t) && Probed(aHash, v, Home(v), t)
        decreases NINT - t
      {
        ProbeEnds(aHash, v, Home(v), t, z);
        if aHash[h] == v {
          InValues(aHash, h);
          return true;
        }
        assert Other(aHash, v, Home(v), t);
        NextSlot(Home(v), t);
        t := t + 1;
        h := (h + 1) % NINT;
      }
      ProbeEnds(aHash, v, Home(v), t, z);
      ProbeMisses(aHash, v, t);
      r := false;
    }

    // ---------------------------------------------------------------- setting a bit

    /** sqlite3BitvecSet (allocation succeeding). */
    method Set(i0: nat)
      requires Valid() && 1 <= i0 <= iSize
      modifies Repr
      ensures Valid() && bits == old(bits) + {i0} && fresh(Repr - old(Repr))
      ensures if old(iDivisor) == 0 && iSize > NBIT then iDivisor != 0 <==> old(TooFull(i0)) else iDivisor == old(iDivisor)
      decreases iSize, if iDivisor == 0 then 3 else 1
    {
      hide SubForm, BitmapForm, HashForm;
      if iSize > NBIT && iDivisor != 0 {
        SetInSub(i0);
      } else if iSize <= NBIT {
        SetInBitmap(i0 - 1);
      } else {
        SetInHash(i0);
      }
    }

    /** The value is new, and either its home slot is the last empty one, or it is taken and half of the
        table is used. */
    ghost predicate TooFull(i0: nat)
      requires i0 >= 1 && |aHash| == NINT
      reads this
    {
      i0 !in bits && nSet >= if aHash[Home(i0)] == 0 then NINT - 1 else MXHASH
    }

    method SetInBitmap(i: nat)
      requires Valid() && i < iSize <= NBIT
      modifies this
      ensures Valid() && bits == old(bits) + {i + 1} && Repr == old(Repr) && iDivisor == old(iDivisor)
    {
      hide BitIn, TestBit, WithBit, WithoutBit;
      ghost var a := aBitmap;
      aBitmap := aBitmap[i / 8 := WithBit(aBitmap[i / 8], i % 8)];
      forall j | 0 <= j < iSize ensures BitIn(aBitmap, j) <==> j == i || BitIn(a, j) { BitWritten(a, i, j); }
      bits := bits + {i + 1};
    }

    /** The value goes to the sub-vector for its range, which is created on demand. */
    method SetInSub(i0: nat)
      requires Valid() && 1 <= i0 <= iSize && iSize > NBIT && iDivisor != 0
      modifies Repr
      ensures Valid() && bits == old(bits) + {i0} && fresh(Repr - old(Repr)) && iDivisor == old(iDivisor)
      decreases iSize, 0, 2
    {
      hide BitmapForm, HashForm, SubForm, Divisor, Bin, Rem;
      BinFits(i0 - 1, iSize);
      var bin := Bin(i0 - 1, iDivisor);
      var i := Rem(i0 - 1, iDivisor);
      if apSub[bin] == null { CreateSub(bin); }
      SetInChild(i0, bin, i);
    }

    method SetInChild(i0: nat, bin: nat, i: nat)
      requires Valid() && 1 <= i0 <= iSize && iSize > NBIT && iDivisor != 0
      requires bin == Bin(i0 - 1, iDivisor) && i == Rem(i0 - 1, iDivisor) && bin < NPTR && i < iDivisor && apSub[bin] != null
      modifies Repr
      ensures Valid() && bits == old(bits) + {i0} && fresh(Repr - old(Repr)) && iDivisor == old(iDivisor)
      decreases iSize, 0, 1
    {
      hide BitmapForm, HashForm, Divisor, Bin, Rem;
      assert SubOk(bin);
      ghost var b0 := bits;
      SetBelow(bin, i, i0);
      forall j, k | 0 <= j < k < NPTR ensures SubsApart(j, k) {
        assert Kept(bin, j) && Kept(bin, k) && old(SubsApart(j, k));
      }
      forall j | 0 <= j < iSize ensures j + 1 in bits <==> InSub(j) {
        BinUnique(j, i0 - 1, iSize);
        BinFits(j, iSize);
        assert Kept(bin, Bin(j, iDivisor)) && old(j + 1 in bits <==> InSub(j));
      }
      assert SubForm();
    }

    /** Sub-vector `k` is as it was, and shares nothing with the one that changes. */
    twostate predicate Kept(bin: nat, k: nat)
      requires bin < |apSub| && k < |apSub| && apSub == old(apSub)
      reads this, Repr
    {
      k != bin && apSub[k] != null ==>
        && apSub[k] in Repr && old(apSub[k] in Repr) && apSub[k].Repr == old(apSub[k].Repr) && apSub[k].bits == old(apSub[k].bits)
        && (apSub[bin] != null && apSub[bin] in Repr ==> apSub[k].Repr !! apSub[bin].Repr)
    }

    /** Set bit `i` in sub-vector `bin`; the others do not change. */
    method SetBelow(bin: nat, i: nat, ghost i0: nat)
      requires Valid() && iSize > NBIT && iDivisor != 0 && bin < NPTR && i < iDivisor && apSub[bin] != null && SubOk(bin)
      modifies Repr
      ensures iDivisor == old(iDivisor) && apSub == old(apSub) && bits == old(bits) + {i0} && |apSub| == NPTR
      ensures this in Repr && fresh(Repr - old(Repr)) && apSub[bin] in Repr && apSub[bin].bits == old(apSub[bin].bits) + {i + 1}
      ensures forall k :: 0 <= k < NPTR ==> SubOk(k)
      ensures forall k :: 0 <= k < NPTR ==> Kept(bin, k)
      decreases iSize, 0, 0
    {
      hide BitmapForm, HashForm, Divisor, Bin, Rem, InSub;
      var s := apSub[bin];
      s.Set(i + 1);
      Repr := Repr + s.Repr;
      bits := bits + {i0};
      forall k | 0 <= k < NPTR ensures SubOk(k) && Kept(bin, k) {
        assert old(SubOk(k));
        if k < bin { assert old(SubsApart(k, bin)); } else if bin < k { assert old(SubsApart(bin, k)); }
      }
    }

    method CreateSub(bin: nat)
      requires Valid() && iSize > NBIT && iDivisor != 0 && bin < NPTR && apSub[bin] == null
      modifies this
      ensures Valid() && |apSub| == NPTR && apSub[bin] != null && bits == old(bits) && fresh(Repr - old(Repr)) && iDivisor == old(iDivisor)
    {
      hide BitmapForm, HashForm, Divisor, Bin, Rem;
      var s := new Bitvec(iDivisor);
      apSub := apSub[bin := s];
      Repr := Repr + s.Repr;
      forall k | 0 <= k < NPTR ensures SubOk(k) { assert old(SubOk(k)); }
      forall j, k | 0 <= j < k < NPTR ensures SubsApart(j, k) {
        assert old(SubsApart(j, k) && SubOk(j) && SubOk(k));
      }
      forall j | 0 <= j < iSize ensures j + 1 in bits <==> InSub(j) {
        assert old(j + 1 in bits <==> InSub(j));
        BinFits(j, iSize);
        assert old(SubOk(Bin(j, iDivisor)));
      }
      assert SubForm();
    }

    /** The hash form: probe for the value; when the table is too full, divide it first. */
    method SetInHash(i0: nat)
      requires Valid() && 1 <= i0 <= iSize && iSize > NBIT && iDivisor == 0
      modifies Repr
      ensures Valid() && bits == old(bits) + {i0} && fresh(Repr - old(Repr))
      ensures iDivisor != 0 <==> old(TooFull(i0))
      decreases iSize, 2, 1
    {
      var h := (i0 - 1) % NINT;
      ghost var t := 0;
      var found := false;
      if aHash[h] == 0 {
        NextSlot(Home(i0), 0);
        ProbeMisses(aHash, i0, 0);
        if nSet >= NINT - 1 {
          Divide(i0);
          return;
        }
      } else {
        h, t, found := FindFree(i0);
        if found { return; }
        if nSet >= MXHASH {
          Divide(i0);
          return;
        }
      }
      PutAt(i0, h, t);
    }

    /** The probe loop of sqlite3BitvecSet: the value, or the first free slot after its home slot. */
    method FindFree(v: nat) returns (h: nat, ghost t: nat, found: bool)
      requires Valid() && iSize > NBIT && iDivisor == 0 && v > 0 && aHash[Home(v)] != 0
      ensures found <==> v in bits
      ensures !found ==> t < NINT && h == At(Home(v), t) && Probed(aHash, v, Home(v), t) && aHash[h] == 0
    {
      hide TableOk, Reachable, Values, Count, At;
      NextSlot(Home(v), 0);
      found, t := false, 0;
      SomeEmpty(aHash);
      ghost var z :| 0 <= z < NINT && aHash[z] == 0;
      h := (v - 1) % NINT;
      while aHash[h] != 0
        invariant t <= NINT && h == At(Home(v), t) && Probed(aHash, v, Home(v), t)
        decreases NINT - t
      {
        ProbeEnds(aHash, v, Home(v), t, z);
        if aHash[h] == v {
          InValues(aHash, h);
          return h, t, true;
        }
        assert Other(aHash, v, Home(v), t);
        NextSlot(Home(v), t);
        t := t + 1;
        h := h + 1;
        if h >= NINT { h := 0; }
      }
      ProbeEnds(aHash, v, Home(v), t, z);
      ProbeMisses(aHash, v, t);
    }

    /** bitvec_set_end. */
    method PutAt(v: nat, h: nat, ghost t: nat)
      requires Valid() && iSize > NBIT && iDivisor == 0 && 1 <= v <= iSize && nSet < NINT - 1
      requires t < NINT && h == At(Home(v), t) && Probed(aHash, v, Home(v), t) && aHash[h] == 0
      modifies this
      ensures Valid() && bits == old(bits) + {v} && Repr == old(Repr) && iDivisor == 0
    {
      hide TableOk, Values;
      Enter(aHash, v, t);
      CountUpdate(aHash, h, v);
      nSet := nSet + 1;
      aHash := aHash[h := v];
      bits := bits + {v};
    }

    /** bitvec_set_rehash: the vector takes its recursive form and all values are set again. */
    method Divide(i0: nat)
      requires Valid() && 1 <= i0 <= iSize && iSize > NBIT && iDivisor == 0
      modifies Repr
      ensures Valid() && bits == old(bits) + {i0} && fresh(Repr - old(Repr)) && iDivisor != 0
      decreases iSize, 2, 0
    {
      var aiValues := aHash;
      Split();
      Set(i0);
      var j := 0;
      while j < NINT
        invariant j <= NINT && Valid() && iDivisor != 0 && fresh(Repr - old(Repr))
        invariant bits == Values(aiValues[..j]) + {i0}
      {
        ValuesNext(aiValues, j);
        if aiValues[j] != 0 { Set(aiValues[j]); }
        j := j + 1;
      }
      assert aiValues[..NINT] == aiValues;
    }

    /** The vector becomes an empty one in recursive form. */
    method Split()
      requires Valid() && iSize > NBIT && iDivisor == 0
      modifies this
      ensures Valid() && bits == {} && iDivisor != 0 && Repr == old(Repr)
    {
      apSub := seq(NPTR, i => null);
      iDivisor := (iSize + NPTR - 1) / NPTR;
      bits := {};
      assert forall k :: 0 <= k < NPTR ==> SubOk(k);
      assert forall j, k :: 0 <= j < k < NPTR ==> SubsApart(j, k);
      forall j | 0 <= j < iSize ensures !InSub(j) { BinFits(j, iSize); }
    }

    // ---------------------------------------------------------------- clearing a bit

    /** sqlite3BitvecClear. */
    method Clear(i0: nat)
      requires Valid() && 1 <= i0 <= iSize
      modifies Repr
      ensures Valid() && bits == old(bits) - {i0} && Repr == old(Repr)
      decreases iSize, 2
    {
      hide SubForm, BitmapForm, HashForm, Bin, Rem, Divisor;
      if iDivisor != 0 {
        BinInside(i0 - 1);
        var bin := Bin(i0 - 1, iDivisor);
        if apSub[bin] != null {
          ClearInChild(i0, bin, Rem(i0 - 1, iDivisor));
        }
      } else if iSize <= NBIT {
        ClearInBitmap(i0 - 1);
      } else {
        ClearInHash(i0);
      }
    }

    /** A number whose sub-vector does not exist is not in the set. */
    lemma {:induction false} BinInside(i: nat)
      requires Valid() && iDivisor != 0 && i < iSize
      ensures iSize > NBIT && |apSub| == NPTR && iDivisor == Divisor(iSize) && Bin(i, iDivisor) < NPTR && Rem(i, iDivisor) < iDivisor
      ensures apSub[Bin(i, iDivisor)] == null ==> i + 1 !in bits
    {
      hide HashForm, Bin, Rem, Divisor;
      assert iSize <= NBIT ==> BitmapForm();
      BinFits(i, iSize);
      assert i + 1 in bits <==> InSub(i);
    }

    method ClearInBitmap(i: nat)
      requires Valid() && i < iSize <= NBIT
      modifies this
      ensures Valid() && bits == old(bits) - {i + 1} && Repr == old(Repr)
    {
      hide BitIn, TestBit, WithBit, WithoutBit;
      ghost var a := aBitmap;
      aBitmap := aBitmap[i / 8 := WithoutBit(aBitmap[i / 8], i % 8)];
      forall j | 0 <= j < iSize ensures BitIn(aBitmap, j) <==> j != i && BitIn(a, j) { BitWritten(a, i, j); }
      bits := bits - {i + 1};
    }

    method ClearInChild(i0: nat, bin: nat, i: nat)
      requires Valid() && 1 <= i0 <= iSize && iSize > NBIT && iDivisor != 0
      requires bin == Bin(i0 - 1, iDivisor) && i == Rem(i0 - 1, iDivisor) && bin < NPTR && i < iDivisor && apSub[bin] != null
      modifies Repr
      ensures Valid() && bits == old(bits) - {i0} && Repr == old(Repr)
      decreases iSize, 1
    {
      hide BitmapForm, HashForm, Divisor, Bin, Rem;
      assert SubOk(bin);
      ClearBelow(bin, i, i0);
      forall j, k | 0 <= j < k < NPTR ensures SubsApart(j, k) {
        assert Kept(bin, j) && Kept(bin, k) && old(SubsApart(j, k));
      }
      forall j | 0 <= j < iSize ensures j + 1 in bits <==> InSub(j) {
        BinUnique(j, i0 - 1, iSize);
        BinFits(j, iSize);
        assert Kept(bin, Bin(j, iDivisor)) && old(j + 1 in bits <==> InSub(j));
      }
      assert SubForm();
    }

    method ClearBelow(bin: nat, i: nat, ghost i0: nat)
      requires Valid() && iSize > NBIT && iDivisor != 0 && bin < NPTR && i < iDivisor && apSub[bin] != null && SubOk(bin)
      modifies Repr
      ensures iDivisor == old(iDivisor) && apSub == old(apSub) && bits == old(bits) - {i0} && |apSub| == NPTR
      ensures Repr == old(Repr) && this in Repr && apSub[bin] in Repr && apSub[bin].bits == old(apSub[bin].bits) - {i + 1}
      ensures forall k :: 0 <= k < NPTR ==> SubOk(k)
      ensures forall k :: 0 <= k < NPTR ==> Kept(bin, k)
      decreases iSize, 0
    {
      hide BitmapForm, HashForm, Divisor, Bin, Rem, InSub;
      var s := apSub[bin];
      s.Clear(i + 1);
      bits := bits - {i0};
      forall k | 0 <= k < NPTR ensures SubOk(k) && Kept(bin, k) {
        assert old(SubOk(k));
        if k < bin { assert old(SubsApart(k, bin)); } else if bin < k { assert old(SubsApart(bin, k)); }
      }
    }

    /** The hash form is rebuilt from the other values, so that no probe meets a hole. */
    method ClearInHash(i0: nat)
      requires Valid() && iSize > NBIT && iDivisor == 0 && i0 > 0
      modifies this
      ensures Valid() && bits == old(bits) - {i0} && Repr == old(Repr)
    {
      hide TableOk, Reachable, Values, Distinct;
      var aiValues := aHash;
      aHash := seq(NINT, i => 0);
      nSet := 0;
      EmptyTable(aHash);
      CountZero(aHash);
      NoValues(aiValues);
      var j := 0;
      while j < NINT
        invariant j <= NINT && |aHash| == NINT && TableOk(aHash) && nSet == Count(aHash) <= Count(aiValues[..j])
        invariant Values(aHash) == Values(aiValues[..j]) - {i0}
        invariant Repr == old(Repr) && iDivisor == 0 && bits == old(bits)
      {
        ValuesNext(aiValues, j);
        CountNext(aiValues, j);
        if aiValues[j] != 0 && aiValues[j] != i0 {
          NotYet(aiValues, j);
          Reenter(aiValues[j]);
        }
        j := j + 1;
      }
      assert aiValues[..NINT] == aiValues;
      bits := bits - {i0};
    }

    /** Enter a value known not to be in the table. */
    method Reenter(v: nat)
      requires v > 0 && |aHash| == NINT && TableOk(aHash) && v !in Values(aHash) && nSet == Count(aHash) < NINT
      modifies `aHash, `nSet
      ensures |aHash| == NINT && TableOk(aHash) && Values(aHash) == old(Values(aHash)) + {v}
      ensures nSet == Count(aHash) == old(nSet) + 1
    {
      hide TableOk, Reachable, Values, Distinct, Count, At;
      NextSlot(Home(v), 0);
      var h := (v - 1) % NINT;
      nSet := nSet + 1;
      ghost var t := 0;
      SomeEmpty(aHash);
      ghost var z :| 0 <= z < NINT && aHash[z] == 0;
      while aHash[h] != 0
        invariant aHash == old(aHash) && nSet == old(nSet) + 1
        invariant t <= NINT && h == At(Home(v), t) && Probed(aHash, v, Home(v), t)
        decreases NINT - t
      {
        ProbeEnds(aHash, v, Home(v), t, z);
        InValues(aHash, h);
        assert Other(aHash, v, Home(v), t);
        NextSlot(Home(v), t);
        t := t + 1;
        h := h + 1;
        if h >= NINT { h := 0; }
      }
      ProbeEnds(aHash, v, Home(v), t, z);
      Enter(aHash, v, t);
      CountUpdate(aHash, h, v);
      aHash := aHash[h := v];
    }
  }

  lemma {:induction false} NoValues(a: seq<nat>)
    ensures Values(a[..0]) == {} && Count(a[..0]) == 0
  {
  }

  lemma {:induction false} CountNext(a: seq<nat>, j: nat)
    requires j < |a|
    ensures Count(a[..j + 1]) == Count(a[..j]) + if a[j] != 0 then 1 else 0
    ensures Count(a[..j + 1]) <= Count(a)
    decreases |a| - j
  {
    assert a[..j + 1][..j] == a[..j];
    if j + 1 < |a| {
      CountNext(a, j + 1);
    } else {
      assert a[..j + 1] == a;
    }
  }

  /** The values before position `j` do not contain the one at `j`. */
  lemma {:induction false} NotYet(a: seq<nat>, j: nat)
    requires TableOk(a) && j < |a| && a[j] != 0
    ensures a[j] !in Values(a[..j])
  {
  }

  lemma {:induction false} ValuesNext(a: seq<nat>, j: nat)
    requires j < |a|
    ensures Values(a[..j + 1]) == Values(a[..j]) + if a[j] != 0 then {a[j]} else {}
    ensures a[j] != 0 ==> a[j] in Values(a)
  {
    forall x ensures x in Values(a[..j + 1]) <==> x in Values(a[..j]) || (a[j] != 0 && x == a[j]) {
      if x in Values(a[..j]) {
        var k :| 0 <= k < j && a[..j][k] != 0 && a[..j][k] == x;
        assert a[..j + 1][k] == x;
      }
      if a[j] != 0 && x == a[j] { assert a[..j + 1][j] == x; }
    }
  }

  lemma {:induction false} InValues(a: seq<nat>, k: nat)
    requires k < |a| && a[k] != 0
    ensures a[k] in Values(a)
  {
  }
}
