/** The base-64 variant of bit64.cpp: an alphabet in an order of its own, six bits per symbol, least
    significant bits first, no padding symbols. */
module Bit64 {
  import opened PageLayout

  const SIZE := 64
  const KEY := 32

  // ------------------------------------------------------------------ numbers and their digits

  function Pow2(n: nat): (p: nat)
    ensures p >= 1
  {
    if n == 0 then 1 else 2 * Pow2(n - 1)
  }

  /** The number whose digits of `w` bits, least significant first, are `s`. */
  function Number(s: seq<nat>, w: nat): nat
  {
    if s == [] then 0 else Number(s[..|s| - 1], w) + s[|s| - 1] * Pow2(w * (|s| - 1))
  }

  ghost predicate Digits(s: seq<nat>, w: nat)
  {
    forall i :: 0 <= i < |s| ==> s[i] < Pow2(w)
  }

  lemma {:induction false} PowAdd(a: nat, b: nat)
    ensures Pow2(a + b) == Pow2(a) * Pow2(b)
    decreases b
  {
    if b > 0 {
      PowAdd(a, b - 1);
      assert Pow2(a) * (2 * Pow2(b - 1)) == 2 * (Pow2(a) * Pow2(b - 1));
    }
  }

  lemma {:induction false} Powers()
    ensures Pow2(0) == 1 && Pow2(2) == 4 && Pow2(4) == 16 && Pow2(6) == 64 && Pow2(8) == 256
  {
    assert Pow2(2) == 2 * Pow2(1);
    assert Pow2(4) == 2 * Pow2(3) && Pow2(3) == 2 * Pow2(2);
    assert Pow2(6) == 2 * Pow2(5) && Pow2(5) == 2 * Pow2(4);
    assert Pow2(8) == 2 * Pow2(7) && Pow2(7) == 2 * Pow2(6);
  }

  lemma {:induction false} NumberOne(s: seq<nat>, d: nat, w: nat)
    ensures Number(s + [d], w) == Number(s, w) + d * Pow2(w * |s|)
  {
    assert (s + [d])[..|s|] == s;
  }

  lemma {:induction false} NumberBound(s: seq<nat>, w: nat)
    requires Digits(s, w)
    ensures Number(s, w) < Pow2(w * |s|)
    decreases |s|
  {
    if s != [] {
      var n := |s| - 1;
      NumberBound(s[..n], w);
      assert w * (n + 1) == w * n + w;
      PowAdd(w * n, w);
      Scaled(s[n], Pow2(w), Pow2(w * n));
    } else {
      assert w * 0 == 0;
    }
  }

  lemma {:induction false} Scaled(d: nat, b: nat, p: nat)
    requires d < b
    ensures d * p + p <= p * b && p * b == b * p
  {
    assert p * b == p * d + p * (b - d);
    assert p * (b - d) >= p by { assert p * (b - d) == p + p * (b - d - 1); }
  }

  /** A number has one sequence of digits of a given length. */
  lemma {:induction false} NumberUnique(a: seq<nat>, b: seq<nat>, w: nat)
    requires |a| == |b| && Digits(a, w) && Digits(b, w) && Number(a, w) == Number(b, w)
    ensures a == b
    decreases |a|
  {
    if a != [] {
      var n := |a| - 1;
      var p := Pow2(w * n);
      NumberBound(a[..n], w);
      NumberBound(b[..n], w);
      LastDigit(Number(a[..n], w), a[n], Number(b[..n], w), b[n], p);
      NumberUnique(a[..n], b[..n], w);
      assert a == a[..n] + [a[n]] && b == b[..n] + [b[n]];
    }
  }

  lemma {:induction false} LastDigit(x: nat, d: nat, y: nat, e: nat, p: nat)
    requires x < p && y < p && x + d * p == y + e * p
    ensures d == e && x == y
  {
    if d < e { Scaled(d, e, p); }
    if e < d { Scaled(e, d, p); }
  }

  // ------------------------------------------------------------------ carrying bits over

  /** `digits` and the `tb` bits in `tmp` hold the number `v`. */
  ghost predicate Holding(v: nat, digits: seq<nat>, w: nat, tmp: nat, tb: nat)
  {
    v == Number(digits, w) + Pow2(w * |digits|) * tmp && tmp < Pow2(tb)
  }

  /** `tmp | (b << tb)`; the bits of the two do not overlap. */
  function OrShifted(tmp: nat, b: nat, tb: nat): nat
    requires tmp < Pow2(tb)
  {
    tmp + b * Pow2(tb)
  }

  function Low(tmp: nat, w: nat): nat
  {
    Remainder(tmp, Pow2(w))
  }

  function High(tmp: nat, w: nat): nat
  {
    Quotient(tmp, Pow2(w))
  }

  function Quotient(a: nat, b: nat): nat
    requires b > 0
  {
    a / b
  }

  function Remainder(a: nat, b: nat): nat
    requires b > 0
  {
    a % b
  }

  lemma {:induction false} LowHigh(tmp: nat, w: nat)
    ensures tmp == Pow2(w) * High(tmp, w) + Low(tmp, w) && Low(tmp, w) < Pow2(w)
  {
    hide Pow2;
    Division(tmp, Pow2(w));
  }

  lemma {:induction false} Division(a: nat, b: nat)
    requires b > 0
    ensures a == b * Quotient(a, b) + Remainder(a, b) && Remainder(a, b) < b
  {
  }

  /** One more input digit of `k` bits, above the bits held so far. */
  lemma {:induction false} TakeIn(v: nat, digits: seq<nat>, w: nat, tmp: nat, tb: nat, b: nat, k: nat)
    requires Holding(v, digits, w, tmp, tb) && b < Pow2(k)
    ensures tmp < Pow2(tb) && Holding(v + b * Pow2(w * |digits| + tb), digits, w, OrShifted(tmp, b, tb), tb + k)
  {
    hide Pow2, Number;
    var p, q := Pow2(w * |digits|), Pow2(tb);
    PowAdd(w * |digits|, tb);
    PowAdd(tb, k);
    Regroup(p, tmp, b, q);
    Scaled(b, Pow2(k), q);
  }

  lemma {:induction false} Regroup(p: nat, x: nat, b: nat, q: nat)
    ensures p * (x + b * q) == p * x + b * (p * q)
  {
    assert p * (x + b * q) == p * x + p * (b * q);
    assert p * (b * q) == b * (p * q);
  }

  /** One output digit of `w` bits, the lowest of those held; `tb` bits are left. */
  lemma {:induction false} GiveOut(v: nat, digits: seq<nat>, w: nat, tmp: nat, tb: nat)
    requires Holding(v, digits, w, tmp, tb + w)
    ensures Holding(v, digits + [Low(tmp, w)], w, High(tmp, w), tb) && Low(tmp, w) < Pow2(w)
  {
    hide Pow2, Number, Low, High;
    var p, m, l, h := Pow2(w * |digits|), Pow2(w), Low(tmp, w), High(tmp, w);
    NumberOne(digits, l, w);
    assert w * (|digits| + 1) == w * |digits| + w;
    PowAdd(w * |digits|, w);
    PowAdd(tb, w);
    LowHigh(tmp, w);
    assert p * (l + h * m) == p * l + h * (p * m) by { Regroup(p, l, h, m); }
    assert m * h == h * m && p * l == l * p && (p * m) * h == h * (p * m);
    Below(h, l, m, Pow2(tb));
  }

  lemma {:induction false} Below(h: nat, l: nat, m: nat, b: nat)
    requires m * h + l < b * m
    ensures h < b
  {
    if b <= h { Grows(m, b, h); }
  }

  lemma {:induction false} Grows(m: nat, x: nat, y: nat)
    requires x <= y
    ensures x * m <= m * y
  {
    assert m * y == m * x + m * (y - x);
    assert x * m == m * x;
  }

  /** The last output digit, when no more than `w` bits are left. */
  lemma {:induction false} GiveLast(v: nat, digits: seq<nat>, w: nat, tmp: nat, tb: nat)
    requires Holding(v, digits, w, tmp, tb) && tb <= w
    ensures Holding(v, digits + [Low(tmp, w)], w, High(tmp, w), 0) && Low(tmp, w) == tmp && High(tmp, w) == 0
  {
    hide Number;
    PowGrows(tb, w);
    Whole(tmp, w);
    GiveOut(v, digits, w, tmp, 0);
  }

  lemma {:induction false} PowGrows(a: nat, b: nat)
    requires a <= b
    ensures Pow2(a) <= Pow2(b)
  {
    if a < b { PowGrows(a, b - 1); }
  }

  lemma {:induction false} Whole(tmp: nat, w: nat)
    requires tmp < Pow2(w)
    ensures Low(tmp, w) == tmp && High(tmp, w) == 0
  {
    hide Pow2;
    Small(tmp, Pow2(w));
  }

  lemma {:induction false} Small(a: nat, m: nat)
    requires a < m
    ensures a % m == a && a / m == 0
  {
  }

  lemma {:induction false} SixEight(tmp: nat)
    ensures Low(tmp, 6) == tmp % SIZE && High(tmp, 6) == tmp / SIZE
    ensures Low(tmp, 8) == tmp % 256 && High(tmp, 8) == tmp / 256
  {
    Powers();
  }

  // ------------------------------------------------------------------ the alphabet

  /** Digits, small letters, capital letters, underscore and hyphen, by their codes. */
  function Symbols(): (s: seq<Byte>)
    ensures |s| == SIZE
  {
    Run(48, 10) + Run(97, 26) + Run(65, 26) + [95, 45]
  }

  function Run(from: nat, n: nat): (s: seq<Byte>)
    requires from + n <= 128
    ensures |s| == n && forall i :: 0 <= i < n ==> s[i] == from + i
  {
    if n == 0 then [] else Run(from, n - 1) + [from + n - 1]
  }

  lemma {:induction false} RunNone()
    ensures forall from: nat :: from <= 128 ==> Run(from, 0) == []
  {
  }

  lemma {:induction false} RunMore(from: nat, n: nat)
    requires from + n + 1 <= 128
    ensures Run(from, n + 1) == Run(from, n) + [from + n]
  {
  }

  lemma {:induction false} RunAt(from: nat, n: nat, i: nat)
    requires from + n <= 128 && i < n
    ensures |Run(from, n)| == n && Run(from, n)[i] == from + i
  {
  }

  lemma {:induction false} SymbolAt(i: nat)
    requires i < SIZE
    ensures Symbols()[i] as int ==
      if i < 10 then 48 + i else if i < 36 then 87 + i else if i < 62 then 29 + i else if i == 62 then 95 else 45
  {
    hide Run;
    RunAt(48, 10, if i < 10 then i else 0);
    RunAt(97, 26, if 10 <= i < 36 then i - 10 else 0);
    RunAt(65, 26, if 36 <= i < 62 then i - 36 else 0);
  }

  lemma {:induction false} SymbolsDiffer(i: nat, j: nat)
    requires i < j < SIZE
    ensures Symbols()[i] != Symbols()[j] && Symbols()[i] < 128
  {
    hide Symbols;
    SymbolAt(i);
    SymbolAt(j);
  }

  lemma {:induction false} OnlyOnce(s: seq<Byte>, c: Byte)
    requires forall i, j :: 0 <= i < j < |s| ==> s[i] != s[j]
    ensures multiset(s)[c] <= 1
    decreases |s|
  {
    if s != [] {
      var n := |s| - 1;
      assert s == s[..n] + [s[n]];
      OnlyOnce(s[..n], c);
      if c == s[n] { assert c !in multiset(s[..n]); }
    }
  }

  lemma {:induction false} EachOnce(c: Byte)
    ensures multiset(Symbols())[c] <= 1
  {
    hide Symbols;
    forall i, j | 0 <= i < j < |Symbols()| ensures Symbols()[i] != Symbols()[j] { SymbolsDiffer(i, j); }
    OnlyOnce(Symbols(), c);
  }

  /** Bytes that `n` symbols fill. */
  function WholeBytes(n: nat): nat
  {
    3 * n / 4
  }

  /** A length cast to a signed 32-bit int. */
  function Int32(n: nat): int
  {
    var r := n % 0x1_0000_0000;
    if r < 0x8000_0000 then r else r - 0x1_0000_0000
  }

  /** How many of `n` bytes a loop up to the length cast to int visits. */
  function Seen(n: nat): (t: nat)
    ensures t <= n && (n < 0x8000_0000 ==> t == n)
    ensures 0x8000_0000 <= n < 0x1_0000_0000 ==> t == 0
  {
    if Int32(n) < 0 then 0 else Int32(n)
  }

  lemma {:induction false} SeenIs(n: nat)
    ensures Seen(n) == if Int32(n) < 0 then 0 else Int32(n)
  {
  }

  /** The symbols of `s` that have not been taken, in order. */
  function Left(taken: seq<Byte>, s: seq<Byte>): (r: seq<Byte>)
    ensures |r| <= |s|
  {
    if s == [] then [] else Left(taken, s[..|s| - 1]) + if s[|s| - 1] in taken then [] else [s[|s| - 1]]
  }

  /** The place of `c` in `s`. */
  function Place(c: Byte, s: seq<Byte>): (p: nat)
    ensures p <= |s|
  {
    if s == [] then 0 else if s[|s| - 1] == c then |s| - 1 else Place(c, s[..|s| - 1])
  }

  /** How many symbols are left before the place of `c`. */
  function Rank(taken: seq<Byte>, c: Byte): nat
  {
    |Left(taken, Symbols()[..Place(c, Symbols())])|
  }

  /** Symbol `k` follows the one taken before it, when the symbols stand in a circle and one of those left
      is passed over; the first is number KEY. */
  ghost predicate TakenNext(cMap: seq<Byte>, k: nat)
    requires k < |cMap|
  {
    var rest := Left(cMap[..k], Symbols());
    && rest != []
    && cMap[k] == rest[NextOff(cMap[..k]) % |rest|]
  }

  lemma {:induction false} NoneTaken(s: seq<Byte>)
    ensures Left([], s) == s
  {
    if s != [] {
      NoneTaken(s[..|s| - 1]);
      assert s == s[..|s| - 1] + [s[|s| - 1]];
    }
  }

  lemma {:induction false} LeftStep(taken: seq<Byte>, s: seq<Byte>)
    requires s != []
    ensures var n := |s| - 1; Left(taken, s) == Left(taken, s[..n]) + if s[n] in taken then [] else [s[n]]
  {
  }

  lemma {:induction false} PlaceStep(c: Byte, s: seq<Byte>)
    requires s != []
    ensures var n := |s| - 1; Place(c, s) == if s[n] == c then n else Place(c, s[..n])
  {
  }

  /** Taking symbol `off` of those left: the others stay, and `off` of them come before its place. */
  lemma {:induction false} OneTaken(taken: seq<Byte>, s: seq<Byte>, off: nat)
    requires forall i, j :: 0 <= i < j < |s| ==> s[i] != s[j]
    requires off < |Left(taken, s)|
    ensures var rest := Left(taken, s);
      && rest[off] in s && Place(rest[off], s) < |s| && |Left(taken + [rest[off]], s[..Place(rest[off], s)])| == off
      && Left(taken + [rest[off]], s) == rest[..off] + rest[off + 1..]
  {
    hide Left, Place;
    LeftNone(taken);
    var n := |s| - 1;
    LeftStep(taken, s);
    var front, c := Left(taken, s[..n]), Left(taken, s)[off];
    LeftStep(taken + [c], s);
    PlaceStep(c, s);
    if off < |front| {
      OneTaken(taken, s[..n], off);
      InFront(s, c);
      TailKept(front, s[n], off, s[n] in taken);
    } else {
      NotInFront(s);
      OthersStay(taken, s[..n], c);
    }
  }

  lemma {:induction false} LeftNone(taken: seq<Byte>)
    ensures Left(taken, []) == []
  {
  }

  lemma {:induction false} InFront(s: seq<Byte>, c: Byte)
    requires s != [] && c in s[..|s| - 1] && forall i, j :: 0 <= i < j < |s| ==> s[i] != s[j]
    ensures c != s[|s| - 1] && c in s && Place(c, s[..|s| - 1]) <= |s| - 1
    ensures s[..|s| - 1][..Place(c, s[..|s| - 1])] == s[..Place(c, s[..|s| - 1])]
  {
  }

  lemma {:induction false} NotInFront(s: seq<Byte>)
    requires s != [] && forall i, j :: 0 <= i < j < |s| ==> s[i] != s[j]
    ensures s[|s| - 1] !in s[..|s| - 1]
  {
  }

  lemma {:induction false} TailKept(front: seq<Byte>, x: Byte, off: nat, gone: bool)
    requires off < |front|
    ensures var t := if gone then [] else [x];
      (front + t)[..off] + (front + t)[off + 1..] == front[..off] + front[off + 1..] + t
  {
  }

  lemma {:induction false} AllDiffer()
    ensures forall i, j :: 0 <= i < j < |Symbols()| ==> Symbols()[i] != Symbols()[j]
  {
    hide Symbols;
    forall i: nat, j: nat | i < j < |Symbols()| ensures Symbols()[i] != Symbols()[j] { SymbolsDiffer(i, j); }
  }

  /** The circle starts with symbol 32. */
  lemma {:induction false} FirstTaken(cMap: seq<Byte>)
    requires cMap != [] && TakenNext(cMap, 0)
    ensures cMap[0] == Symbols()[KEY]
  {
    hide Symbols, Left;
    assert cMap[..0] == [];
    NoneTaken(Symbols());
  }

  /** `rev` gives the place of each symbol of `cMap`. */
  ghost predicate Mapped(cMap: seq<Byte>, rev: seq<Byte>)
  {
    && |rev| == 256 && |cMap| <= SIZE
    && (forall k :: 0 <= k < |cMap| ==> cMap[k] < 128 && rev[cMap[k]] == k)
    && (forall c :: 0 <= c < 256 ==> rev[c] < SIZE)
  }

  lemma {:induction false} NoneMapped(rev: seq<Byte>)
    requires |rev| == 256 && forall c :: 0 <= c < 256 ==> rev[c] == 0
    ensures Mapped([], rev)
  {
  }

  lemma {:induction false} MappedMore(cMap: seq<Byte>, rev: seq<Byte>, ch: Byte)
    requires Mapped(cMap, rev) && ch !in cMap && ch < 128 && |cMap| < SIZE
    ensures |rev| == 256 && Mapped(cMap + [ch], rev[ch := |cMap| % 256])
  {
  }

  lemma {:induction false} AllMapped(cMap: seq<Byte>, rev: seq<Byte>)
    requires Mapped(cMap, rev) && |cMap| == SIZE
    ensures |rev| == 256 && (forall k :: 0 <= k < SIZE ==> cMap[k] < 128 && rev[cMap[k]] == k)
    ensures forall c :: 0 <= c < 256 ==> rev[c] < SIZE
  {
  }

  /** Where the circle goes on. */
  function NextOff(cMap: seq<Byte>): nat
  {
    if cMap == [] then KEY else Rank(cMap, cMap[|cMap| - 1]) + 1
  }

  lemma {:induction false} FirstOff()
    ensures NextOff([]) == KEY
  {
  }

  /** One more symbol has been taken in turn. */
  lemma {:induction false} TakenMore(cMap: seq<Byte>, off: nat)
    requires forall k :: 0 <= k < |cMap| ==> TakenNext(cMap, k)
    requires Left(cMap, Symbols()) != [] && off == NextOff(cMap) % |Left(cMap, Symbols())|
    ensures var rest := Left(cMap, Symbols());
      && (forall k :: 0 <= k < |cMap| + 1 ==> TakenNext(cMap + [rest[off]], k))
      && NextOff(cMap + [rest[off]]) == off + 1 && Left(cMap + [rest[off]], Symbols()) == rest[..off] + rest[off + 1..]
  {
    hide Left, Symbols, Place;
    AllDiffer();
    OneTaken(cMap, Symbols(), off);
    var more := cMap + [Left(cMap, Symbols())[off]];
    forall k | 0 <= k < |more| ensures TakenNext(more, k) {
      if k < |cMap| {
        assert TakenNext(cMap, k) && more[..k] == cMap[..k];
      } else {
        assert more[..k] == cMap;
      }
    }
  }

  lemma {:induction false} OthersStay(taken: seq<Byte>, s: seq<Byte>, c: Byte)
    requires c !in s
    ensures Left(taken + [c], s) == Left(taken, s)
  {
    if s != [] { OthersStay(taken, s[..|s| - 1], c); }
  }

  /** bit64_map: the symbols in their order, and the place of each. */
  class Alphabet {
    var cMap: seq<Byte>
    const revMap: array<Byte>

    /** A permutation of the 64 symbols and its inverse. */
    ghost predicate Valid()
      reads this, revMap
    {
      && revMap.Length == 256 && |cMap| == SIZE && multiset(cMap) == multiset(Symbols())
      && (forall k :: 0 <= k < SIZE ==> cMap[k] < 128 && revMap[cMap[k]] == k)
      && (forall c :: 0 <= c < 256 ==> revMap[c] < SIZE)
    }

    /** bit64_makeIndex: take the symbols one by one out of a shrinking circle, stepping on from the one
        taken last. */
    constructor ()
      ensures Valid() && fresh(revMap) && forall k :: 0 <= k < SIZE ==> TakenNext(cMap, k)
    {
      cMap := [];
      revMap := new Byte[256](_ => 0);
      new;
      var res := ListSymbols();
      Fill(res);
    }

    /** The loops of bit64_makeIndex that list the symbols. */
    static method ListSymbols() returns (res: seq<Byte>)
      ensures res == Symbols()
    {
      hide Run;
      RunNone();
      res := [];
      var i := 48;
      while i <= 57
        invariant 48 <= i <= 58 && res == Run(48, i - 48)
      {
        RunMore(48, i - 48);
        res := res + [i];
        i := i + 1;
      }
      i := 97;
      ghost var first := res;
      while i <= 122
        invariant 97 <= i <= 123 && res == first + Run(97, i - 97)
      {
        RunMore(97, i - 97);
        res := res + [i];
        i := i + 1;
      }
      i := 65;
      first := res;
      while i <= 90
        invariant 65 <= i <= 91 && res == first + Run(65, i - 65)
      {
        RunMore(65, i - 65);
        res := res + [i];
        i := i + 1;
      }
      res := res + [95, 45];
    }

    method Fill(all: seq<Byte>)
      requires all == Symbols() && cMap == [] && revMap.Length == 256 && forall c :: 0 <= c < 256 ==> revMap[c] == 0
      modifies this, revMap
      ensures Valid() && forall k :: 0 <= k < SIZE ==> TakenNext(cMap, k)
    {
      hide Symbols, TakenNext, Left, Rank, Place, NextOff, Mapped;
      AllDiffer();
      NoneTaken(Symbols());
      FirstOff();
      NoneMapped(revMap[..]);
      var off, res := KEY, all;
      while res != []
        invariant off >= 0 && |cMap| + |res| == SIZE && multiset(cMap) + multiset(res) == multiset(Symbols())
        invariant Mapped(cMap, revMap[..])
        invariant res == Left(cMap, Symbols()) && off == NextOff(cMap)
        invariant forall k :: 0 <= k < |cMap| ==> TakenNext(cMap, k)
        decreases |res|
      {
        off := off % |res|;
        var ch := res[off];
        Fresh(cMap, res, off);
        TakenMore(cMap, off);
        res := res[..off] + res[off + 1..];
        off := off + 1;
        MappedMore(cMap, revMap[..], ch);
        revMap[ch] := |cMap| % 256;
        cMap := cMap + [ch];
      }
      AllMapped(cMap, revMap[..]);
    }

    /** Every symbol has a place in the map. */
    lemma Inverse(c: Byte)
      requires Valid() && c in Symbols()
      ensures revMap[c] < SIZE && cMap[revMap[c]] == c
    {
      hide Symbols;
      assert c in multiset(Symbols());
      assert c in multiset(cMap);
      var k :| 0 <= k < |cMap| && cMap[k] == c;
    }

    // ---------------------------------------------------------------- encoding

    /** The digits that a text stands for. */
    ghost function Read(text: seq<Byte>): (s: seq<nat>)
      requires revMap.Length == 256
      reads revMap
    {
      ReadWith(revMap[..], text)
    }

    /** bit64_encode: the text is the number of the bytes in digits of six bits, as many as it takes for
        all the bits. */
    method Encode(buffer: seq<Byte>, result: array<Byte>) returns (resLen: nat)
      requires Valid() && result != revMap && result.Length >= (4 * |buffer| + 2) / 3
      modifies result
      ensures Valid() && resLen == (4 * Seen(|buffer|) + 2) / 3
      ensures forall k :: 0 <= k < resLen ==> result[k] in cMap
      ensures Number(Read(result[..resLen]), 6) == Number(Wide(buffer[..Seen(|buffer|)]), 8)
    {
      hide Symbols, Number, Pow2, Holding, OrShifted, Low, High, Int32, Seen, Valid;
      SeenIs(|buffer|);
      Places();
      var tb: int, tmp: nat := 0, 0;
      resLen := 0;
      var t := Int32(|buffer|);
      ghost var seen := buffer[..Seen(|buffer|)];
      Powers();
      ghost var digits: seq<nat> := [];
      HoldNothing(6);
      HoldNothing(8);
      assert Wide(seen[..0]) == Wide([]);
      var i := 0;
      while i < t
        invariant 0 <= i <= |seen| && 0 <= tb < 6 && 6 * resLen + tb == 8 * i && |digits| == resLen <= result.Length
        invariant Holding(Number(Wide(seen[..i]), 8), digits, 6, tmp, tb)
        invariant forall k :: 0 <= k < resLen ==> digits[k] < SIZE && result[k] == cMap[digits[k]]
        invariant Valid()
      {
        var b := buffer[i];
        HeldBits(Number(Wide(seen[..i]), 8), digits, 6, tmp, tb);
        TakeIn(Number(Wide(seen[..i]), 8), digits, 6, tmp, tb, b, 8);
        assert Wide(seen[..i + 1]) == Wide(seen[..i]) + [b as nat];
        NumberOne(Wide(seen[..i]), b, 8);
        tmp := OrShifted(tmp, b, tb);
        tb := tb + 8;
        i := i + 1;
        while tb >= 6
          invariant 0 <= tb < 14 && 6 * resLen + tb == 8 * i && |digits| == resLen <= result.Length
          invariant Holding(Number(Wide(seen[..i]), 8), digits, 6, tmp, tb)
          invariant forall k :: 0 <= k < resLen ==> digits[k] < SIZE && result[k] == cMap[digits[k]]
          invariant Valid()
        {
          SixEight(tmp);
          GiveOut(Number(Wide(seen[..i]), 8), digits, 6, tmp, tb - 6);
          var l := tmp % SIZE;
          tmp := tmp / SIZE;
          tb := tb - 6;
          result[resLen] := cMap[l];
          digits := digits + [l];
          resLen := resLen + 1;
        }
      }
      assert seen[..i] == seen;
      while tb > 0
        invariant -6 < tb < 6 && |digits| == resLen <= result.Length && Valid()
        invariant tb >= 0 ==> 6 * resLen + tb == 8 * |seen|
        invariant tb < 0 ==> 8 * |seen| <= 6 * resLen < 8 * |seen| + 6
        invariant Holding(Number(Wide(seen), 8), digits, 6, tmp, if tb > 0 then tb else 0)
        invariant forall k :: 0 <= k < resLen ==> digits[k] < SIZE && result[k] == cMap[digits[k]]
      {
        SixEight(tmp);
        GiveLast(Number(Wide(seen), 8), digits, 6, tmp, tb);
        var l := tmp % SIZE;
        tmp := tmp / SIZE;
        tb := tb - 6;
        result[resLen] := cMap[l];
        digits := digits + [l];
        resLen := resLen + 1;
      }
      AllOut(Number(Wide(seen), 8), digits, 6, tmp);
      assert Read(result[..resLen]) == digits;
    }

    lemma Places()
      requires Valid()
      ensures revMap.Length == 256 && (forall c :: 0 <= c < 256 ==> revMap[c] < SIZE)
      ensures |cMap| == SIZE && forall k :: 0 <= k < SIZE ==> revMap[cMap[k]] == k
    {
    }

    /** bit64_decode: all whole bytes of the number of the text, and one more if bits other than zero are
        left. */
    method Decode(buffer: seq<Byte>, result: array<Byte>) returns (resLen: nat)
      requires Valid() && result != revMap && forall i :: 0 <= i < |buffer| ==> buffer[i] < 128
      requires result.Length >= (3 * |buffer| + 3) / 4
      modifies result
      ensures Valid()
      ensures var seen := buffer[..Seen(|buffer|)];
        && resLen == WholeBytes(|seen|) + (if Number(Read(seen), 6) < Pow2(8 * WholeBytes(|seen|)) then 0 else 1) <= result.Length
        && Number(Wide(result[..resLen]), 8) == Number(Read(seen), 6)
    {
      hide Symbols, Number, Pow2, Holding, OrShifted, Low, High, Int32, Seen, Valid;
      SeenIs(|buffer|);
      Places();
      var tb: int, tmp: nat := 0, 0;
      resLen := 0;
      var t := Int32(|buffer|);
      ghost var seen := buffer[..Seen(|buffer|)];
      Powers();
      ghost var bytes: seq<nat> := [];
      ghost var digits := Read(seen);
      HoldNothing(8);
      HoldNothing(6);
      assert Read(seen)[..0] == [];
      var i := 0;
      while i < t
        invariant 0 <= i <= |seen| && 0 <= tb < 8 && 8 * resLen + tb == 6 * i && |bytes| == resLen <= result.Length
        invariant Holding(Number(Read(seen)[..i], 6), bytes, 8, tmp, tb)
        invariant forall k :: 0 <= k < resLen ==> bytes[k] == result[k]
        invariant Valid() && Read(seen) == digits
      {
        Places();
        var ch := revMap[buffer[i]];
        HeldBits(Number(Read(seen)[..i], 6), bytes, 8, tmp, tb);
        TakeIn(Number(Read(seen)[..i], 6), bytes, 8, tmp, tb, ch, 6);
        assert Read(seen)[..i + 1] == Read(seen)[..i] + [ch as nat];
        NumberOne(Read(seen)[..i], ch, 6);
        tmp := OrShifted(tmp, ch, tb);
        tb := tb + 6;
        i := i + 1;
        while tb >= 8
          invariant 0 <= tb < 14 && 8 * resLen + tb == 6 * i && |bytes| == resLen <= result.Length
          invariant Holding(Number(Read(seen)[..i], 6), bytes, 8, tmp, tb)
          invariant forall k :: 0 <= k < resLen ==> bytes[k] == result[k]
          invariant Valid() && Read(seen) == digits
        {
          SixEight(tmp);
          GiveOut(Number(Read(seen)[..i], 6), bytes, 8, tmp, tb - 8);
          var l := tmp % 256;
          tmp := tmp / 256;
          tb := tb - 8;
          result[resLen] := l;
          bytes := bytes + [l];
          resLen := resLen + 1;
        }
      }
      assert Read(seen)[..i] == Read(seen);
      RestDecides(Number(Read(seen), 6), bytes, tmp, tb, result[..resLen]);
      if tb > 0 {
        SixEight(tmp);
        GiveLast(Number(Read(seen), 6), bytes, 8, tmp, tb);
        var l := tmp % 256;
        if l > 0 {
          result[resLen] := l;
          bytes := bytes + [l];
          resLen := resLen + 1;
          AllOut(Number(Read(seen), 6), bytes, 8, 0);
        }
      }
      assert Wide(result[..resLen]) == bytes;
    }

    // ---------------------------------------------------------------- there and back

    /** Encode `buffer` into `text` and decode that into `result`.  The bytes come back exactly when the
        length of the text is still a positive int, which a caller can tell from the length of the
        buffer; otherwise nothing comes back. */
    method ThereAndBack(buffer: seq<Byte>, text: array<Byte>, result: array<Byte>) returns (resLen: nat)
      requires Valid() && text != revMap && result != revMap && |buffer| < 0x8000_0000
      requires text.Length >= (4 * |buffer| + 2) / 3 && result.Length >= |buffer| + 1
      modifies text, result
      ensures Valid() && resLen <= result.Length
      ensures result[..resLen] == buffer <==> |buffer| < 0x6000_0000
      ensures |buffer| >= 0x6000_0000 ==> resLen == 0
    {
      hide Symbols, Number, Pow2;
      var n := Encode(buffer, text);
      assert buffer[..Seen(|buffer|)] == buffer;
      var symbols := text[..n];
      resLen := Decode(symbols, result);
      if |buffer| < 0x6000_0000 {
        assert symbols[..Seen(n)] == symbols;
        RoundTrip(buffer, Read(symbols), result[..resLen]);
      } else {
        assert symbols[..Seen(n)] == [];
        EmptyText();
      }
    }
  }

  lemma {:induction false} EmptyText()
    ensures WholeBytes(0) == 0 && Number([], 6) == 0 < Pow2(0)
  {
  }

  function ReadWith(rev: seq<Byte>, text: seq<Byte>): (s: seq<nat>)
    requires |rev| == 256
    ensures |s| == |text| && forall i :: 0 <= i < |text| ==> s[i] == rev[text[i]]
  {
    seq(|text|, i requires 0 <= i < |text| => rev[text[i]] as nat)
  }

  /** Bytes as numbers. */
  function Wide(s: seq<Byte>): (r: seq<nat>)
    ensures |r| == |s| && forall i :: 0 <= i < |s| ==> r[i] == s[i]
  {
    seq(|s|, i requires 0 <= i < |s| => s[i] as nat)
  }

  lemma {:induction false} Fresh(cMap: seq<Byte>, res: seq<Byte>, off: nat)
    requires off < |res| && multiset(cMap) + multiset(res) == multiset(Symbols())
    ensures res[off] !in cMap && res[off] < 128
    ensures multiset(cMap + [res[off]]) + multiset(res[..off] + res[off + 1..]) == multiset(Symbols())
  {
    hide Symbols;
    var c := res[off];
    EachOnce(c);
    assert res == res[..off] + [c] + res[off + 1..];
    assert c in multiset(Symbols());
    var k :| 0 <= k < |Symbols()| && Symbols()[k] == c;
    if k + 1 < SIZE { SymbolsDiffer(k, k + 1); } else { SymbolsEnd(); }
  }

  lemma {:induction false} SymbolsEnd()
    ensures Symbols()[SIZE - 1] < 128
  {
  }

  lemma {:induction false} HoldNothing(w: nat)
    ensures Holding(0, [], w, 0, 0) && Number([], w) == 0 && Wide([]) == []
  {
  }

  lemma {:induction false} HeldBits(v: nat, digits: seq<nat>, w: nat, tmp: nat, tb: nat)
    requires Holding(v, digits, w, tmp, tb)
    ensures tmp < Pow2(tb)
  {
  }

  lemma {:induction false} AllOut(v: nat, digits: seq<nat>, w: nat, tmp: nat)
    requires Holding(v, digits, w, tmp, 0)
    ensures v == Number(digits, w)
  {
    assert tmp == 0;
  }

  lemma {:induction false} Overflow(p: nat, x: nat)
    ensures p * x >= 0 && (x == 0 ==> p * x == 0) && (x > 0 ==> p * x >= p)
  {
    if x > 0 { assert p * x == p + p * (x - 1); }
  }

  /** The bits left at the end are zero exactly if the number fits the whole bytes. */
  lemma {:induction false} RestDecides(v: nat, bytes: seq<nat>, tmp: nat, tb: nat, result: seq<Byte>)
    requires Holding(v, bytes, 8, tmp, tb) && tb < 8 && |bytes| == |result| && forall k :: 0 <= k < |bytes| ==> bytes[k] == result[k]
    ensures tmp < 256 && (tmp == 0 <==> v < Pow2(8 * |bytes|)) && (tmp == 0 ==> v == Number(bytes, 8))
    ensures tb == 0 ==> tmp == 0
  {
    hide Pow2, Number;
    Powers();
    assert Digits(bytes, 8);
    NumberBound(bytes, 8);
    PowGrows(tb, 8);
    Overflow(Pow2(8 * |bytes|), tmp);
  }

  /** Decoding what was encoded gives the bytes back, trailing zero bytes included, and nothing more. */
  lemma {:induction false} RoundTrip(bytes: seq<Byte>, digits: seq<nat>, decoded: seq<Byte>)
    requires |digits| == (4 * |bytes| + 2) / 3 && Number(digits, 6) == Number(Wide(bytes), 8)
    requires Number(Wide(decoded), 8) == Number(digits, 6)
    requires |decoded| == WholeBytes(|digits|) + if Number(digits, 6) < Pow2(8 * WholeBytes(|digits|)) then 0 else 1
    ensures decoded == bytes
  {
    Powers();
    assert Digits(Wide(bytes), 8) && Digits(Wide(decoded), 8);
    NumberBound(Wide(bytes), 8);
    assert WholeBytes(|digits|) == |bytes|;
    NumberUnique(Wide(decoded), Wide(bytes), 8);
    forall i | 0 <= i < |bytes| ensures decoded[i] == bytes[i] {
      assert Wide(decoded)[i] == Wide(bytes)[i];
    }
  }
}
