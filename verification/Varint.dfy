/** Variable-length integers (util.c) and the inlined readers of btree.c: groups of seven bits, most
    significant first, every byte but the last with its top bit set; a ninth byte holds eight bits. */
module Varint {
  import opened PageLayout
  import opened CellFormat

  const TWO32 := 0x1_0000_0000
  const TWO64 := 0x1_0000_0000_0000_0000

  // ------------------------------------------------------------------ the format

  /** `v` in as few groups as it takes; the last byte has its top bit set when `more` follows. */
  function Groups(v: nat, more: bool): (s: seq<Byte>)
    decreases v
  {
    (if v < 128 then [] else Groups(v / 128, true)) + [v % 128 + if more then 128 else 0]
  }

  /** `v` in exactly `n` groups, all with the top bit set. */
  function Padded(v: nat, n: nat): (s: seq<Byte>)
    ensures |s| == n
    decreases n
  {
    if n == 0 then [] else Padded(v / 128, n - 1) + [v % 128 + 128]
  }

  function Encode(v: nat): (s: seq<Byte>)
    requires v < TWO64
  {
    if v < 0x100_0000_0000_0000 then Groups(v, false) else Padded(v / 256, 8) + [v % 256]
  }

  /** The number in the low seven bits of each byte. */
  function Fold(s: seq<Byte>): (v: nat)
  {
    if s == [] then 0 else Fold(s[..|s| - 1]) * 128 + s[|s| - 1] % 128
  }

  /** All bytes before `n` have the top bit set. */
  ghost predicate AllMore(s: seq<Byte>, n: nat)
  {
    n <= |s| && forall i :: 0 <= i < n ==> s[i] >= 128
  }

  /** The varint `v` is stored at `at`. */
  ghost predicate VarintAt(d: seq<Byte>, at: nat, v: nat)
  {
    v < TWO64 && at + |Encode(v)| <= |d| && d[at..at + |Encode(v)|] == Encode(v)
  }

  // ------------------------------------------------------------------ what the bytes mean

  lemma {:induction false} FoldGroups(v: nat, more: bool)
    ensures var s := Groups(v, more);
      |s| >= 1 && Fold(s) == v && AllMore(s, |s| - 1) && (s[|s| - 1] >= 128 <==> more)
    decreases v
  {
    var s := Groups(v, more);
    if v >= 128 {
      FoldGroups(v / 128, true);
      assert s[..|s| - 1] == Groups(v / 128, true);
    } else {
      assert s[..|s| - 1] == [];
    }
  }

  lemma {:induction false} FoldPadded(v: nat, n: nat)
    requires n <= 8 && v < Pow128(n)
    ensures Fold(Padded(v, n)) == v && AllMore(Padded(v, n), n)
    decreases n
  {
    if n > 0 {
      var s := Padded(v, n);
      assert v / 128 < Pow128(n - 1);
      FoldPadded(v / 128, n - 1);
      assert s[..|s| - 1] == Padded(v / 128, n - 1);
    }
  }

  function Pow128(n: nat): nat
  {
    if n == 0 then 1 else 128 * Pow128(n - 1)
  }

  lemma {:induction false} GroupsLength(v: nat, more: bool, n: nat)
    requires 1 <= n && (n == 1 || Pow128(n - 1) <= v) && v < Pow128(n)
    ensures |Groups(v, more)| == n
    decreases n
  {
    if n > 1 {
      assert Pow128(n - 1) == 128 * Pow128(n - 2) && Pow128(n - 2) >= 1 by { PowPositive(n - 2); }
      assert v >= 128;
      assert v / 128 < Pow128(n - 1);
      assert n == 2 || Pow128(n - 2) <= v / 128;
      GroupsLength(v / 128, true, n - 1);
    }
  }

  lemma {:induction false} PowPositive(n: nat)
    ensures Pow128(n) >= 1
    decreases n
  {
    if n > 0 { PowPositive(n - 1); }
  }

  lemma {:induction false} Powers()
    ensures Pow128(0) == 1 && Pow128(1) == 0x80 && Pow128(2) == 0x4000 && Pow128(3) == 0x20_0000
    ensures Pow128(4) == 0x1000_0000 && Pow128(5) == 0x8_0000_0000 && Pow128(6) == 0x400_0000_0000
    ensures Pow128(7) == 0x2_0000_0000_0000 && Pow128(8) == 0x100_0000_0000_0000
  {
    assert Pow128(2) == 128 * Pow128(1);
    assert Pow128(4) == 128 * Pow128(3);
    assert Pow128(6) == 128 * Pow128(5);
  }

  /** A varint is as long as CellFormat.VarintLen says, all its bytes but the last have the top bit
      set, and the last of fewer than nine has not. */
  lemma {:induction false} EncodeShape(v: nat)
    requires v < TWO64
    ensures var s := Encode(v);
      && |s| == VarintLen(v) && 1 <= |s| <= 9 && AllMore(s, |s| - 1)
      && (|s| < 9 ==> v < 0x100_0000_0000_0000 && s[|s| - 1] < 128 && Fold(s) == v)
      && (|s| == 9 ==> Fold(s[..8]) == v / 256 && s[8] == v % 256)
  {
    hide Pow128;
    Powers();
    var s := Encode(v);
    if v < 0x100_0000_0000_0000 {
      FoldGroups(v, false);
      GroupsLength(v, false, VarintLen(v));
    } else {
      FoldPadded(v / 256, 8);
      assert s[..8] == Padded(v / 256, 8);
    }
  }

  /** Longer readings are larger. */
  lemma {:induction false} FoldGrows(s: seq<Byte>, n: nat)
    requires n <= |s|
    ensures Fold(s[..n]) <= Fold(s)
    decreases |s| - n
  {
    if n < |s| {
      FoldGrows(s, n + 1);
      assert s[..n + 1][..n] == s[..n];
    } else {
      assert s[..n] == s;
    }
  }

  lemma {:induction false} FoldStep(d: seq<Byte>, at: nat, k: nat)
    requires at + k + 1 <= |d|
    ensures Fold(d[at..at + k + 1]) == Fold(d[at..at + k]) * 128 + d[at + k] % 128
  {
    assert d[at..at + k + 1][..k] == d[at..at + k];
  }

  // ------------------------------------------------------------------ writing

  /** sqlite3PutVarint: `v` at `at`; the caller leaves room for it. */
  method PutVarint(p: array<Byte>, at: nat, v: nat) returns (n: nat)
    requires v < TWO64 && at + VarintLen(v) <= p.Length
    modifies p
    ensures n == VarintLen(v) && p[at..at + n] == Encode(v)
    ensures forall i :: 0 <= i < p.Length && !(at <= i < at + n) ==> p[i] == old(p[i])
  {
    hide Fold, AllMore, Groups, Encode;
    EncodeShape(v);
    if v <= 0x7f {
      p[at] := v % 128;
      ShortForms(v);
      return 1;
    }
    if v <= 0x3fff {
      p[at] := v / 128 % 128 + 128;
      p[at + 1] := v % 128;
      ShortForms(v);
      assert p[at..at + 2] == [v / 128 % 128 + 128, v % 128];
      return 2;
    }
    n := PutVarint64(p, at, v);
  }

  lemma {:induction false} ShortForms(v: nat)
    ensures v <= 0x7f ==> Encode(v) == [v % 128]
    ensures 0x7f < v <= 0x3fff ==> Encode(v) == [v / 128 % 128 + 128, v % 128]
  {
    if 0x7f < v <= 0x3fff {
      assert Groups(v / 128, true) == [v / 128 % 128 + 128];
    }
  }

  lemma {:induction false} NineBytes(v: nat)
    requires 0x100_0000_0000_0000 <= v < TWO64
    ensures VarintLen(v) == 9 && |Encode(v)| == 9 && Encode(v)[..8] == Padded(v / 256, 8) && Encode(v)[8..] == [v % 256]
  {
  }

  /** The nine-byte form: the low byte last, and eight groups before it. */
  method PutNine(p: array<Byte>, at: nat, v: nat) returns (n: nat)
    requires 0x100_0000_0000_0000 <= v < TWO64 && at + 9 <= p.Length
    modifies p
    ensures n == VarintLen(v) == 9 && p[at..at + n] == Encode(v)
    ensures forall i :: 0 <= i < p.Length && !(at <= i < at + n) ==> p[i] == old(p[i])
  {
    hide Fold, AllMore, Groups, Encode, VarintLen;
    NineBytes(v);
    ghost var e := Encode(v);
    p[at + 8] := v % 256;
    var w: nat, i: int := v / 256, 8;
    while i > 0
      invariant 0 <= i <= 8
      invariant forall j :: at + i <= j < at + 9 ==> p[j] == e[j - at]
      invariant e[..i] == Padded(w, i)
      invariant forall j :: 0 <= j < p.Length && !(at + i <= j < at + 9) ==> p[j] == old(p[j])
    {
      i := i - 1;
      assert e[i] == e[..i + 1][i] == w % 128 + 128;
      assert e[..i] == e[..i + 1][..i] == Padded(w / 128, i);
      p[at + i] := w % 128 + 128;
      w := w / 128;
    }
    assert p[at..at + 9] == e;
    n := 9;
  }

  /** putVarint64: nine bytes if the top byte of `v` is used, otherwise the groups in reverse. */
  method PutVarint64(p: array<Byte>, at: nat, v: nat) returns (n: nat)
    requires v < TWO64 && at + VarintLen(v) <= p.Length
    modifies p
    ensures n == VarintLen(v) && p[at..at + n] == Encode(v)
    ensures forall i :: 0 <= i < p.Length && !(at <= i < at + n) ==> p[i] == old(p[i])
  {
    hide Fold, AllMore, Groups, Encode, VarintLen;
    EncodeShape(v);
    if v >= 0x100_0000_0000_0000 {
      n := PutNine(p, at, v);
      return;
    }
    var buf := new Byte[10](_ => 0);
    n := FillGroups(buf, v);
    var i: int, j: int := 0, n - 1;
    while j >= 0
      modifies p
      invariant -1 <= j < n && i + j == n - 1
      invariant forall m :: at <= m < at + i ==> p[m] == buf[n - 1 - (m - at)]
      invariant forall k :: 0 <= k < p.Length && !(at <= k < at + i) ==> p[k] == old(p[k])
    {
      p[at + i] := buf[j];
      j, i := j - 1, i + 1;
    }
    forall k | 0 <= k < n ensures p[at..at + n][k] == Encode(v)[k] {
      assert p[at + k] == buf[n - 1 - k];
    }
  }

  /** The groups of `v`, least significant first; the first of them has the top bit clear. */
  method FillGroups(buf: array<Byte>, v: nat) returns (n: nat)
    requires v < 0x100_0000_0000_0000 && buf.Length == 10
    modifies buf
    ensures n == VarintLen(v) == |Encode(v)|
    ensures forall k :: 0 <= k < n ==> buf[n - 1 - k] == Encode(v)[k]
  {
    hide Fold, AllMore, VarintLen, Groups;
    EncodeShape(v);
    ghost var e := Groups(v, true);
    GroupsEnds(v);
    n := 0;
    var w, going := v, true;
    while going
      invariant 0 <= n <= |e| <= 9
      invariant going ==> n < |e| && Groups(w, true) == e[..|e| - n]
      invariant !going ==> n == |e|
      invariant forall k :: 0 <= k < n ==> buf[k] == e[|e| - 1 - k]
      decreases |e| - n, going
    {
      GroupsSplit(w);
      assert e[|e| - n - 1] == e[..|e| - n][|e| - n - 1];
      buf[n] := w % 128 + 128;
      assert w >= 128 ==> e[..|e| - n - 1] == e[..|e| - n][..|e| - n - 1];
      n := n + 1;
      going := w >= 128;
      w := w / 128;
    }
    buf[0] := buf[0] % 128;
  }

  lemma {:induction false} GroupsSplit(w: nat)
    ensures var s := Groups(w, true);
      && |s| >= 1 && s[|s| - 1] == w % 128 + 128
      && (w >= 128 ==> |s| >= 2 && s[..|s| - 1] == Groups(w / 128, true))
      && (w < 128 ==> |s| == 1)
  {
    if w >= 128 { assert |Groups(w / 128, true)| >= 1; }
  }

  lemma {:induction false} GroupsEnds(v: nat)
    requires v < 0x100_0000_0000_0000
    ensures var e := Groups(v, true);
      |e| == |Encode(v)| >= 1 && Encode(v) == e[..|e| - 1] + [e[|e| - 1] % 128]
  {
    if v >= 128 { assert Groups(v, true)[..|Groups(v, true)| - 1] == Groups(v / 128, true); }
  }

  // ------------------------------------------------------------------ reading

  /** The inlined reader of the payload size, with its 32-bit accumulator; `end` is the first byte after
      the varint. */
  method GetSize(d: seq<Byte>, at: nat, ghost v: nat) returns (nPayload: nat, end: nat)
    requires VarintAt(d, at, v) && v < TWO32
    ensures nPayload == v && end == at + VarintLen(v)
  {
    hide Fold, Groups, Encode, VarintLen;
    EncodeShape(v);
    ghost var e := Encode(v);
    assert forall i :: 0 <= i < |e| ==> d[at + i] == d[at..at + |e|][i] == e[i];
    ghost var len := |e|;
    SmallEncoding(v);
    end := at;
    nPayload := d[at];
    if nPayload >= 0x80 {
      nPayload := nPayload % 128;
      FirstFold(e);
      var going := true;
      while going
        invariant at <= end < at + len
        invariant nPayload == Fold(e[..end - at + 1])
        invariant going <==> d[end] >= 0x80
        decreases at + len - end
      {
        end := end + 1;
        FoldStep(e, 0, end - at);
        FoldGrows(e, end - at + 1);
        nPayload := Mod32(nPayload * 128) + d[end] % 128;
        going := d[end] >= 0x80 && end < at + 8;
      }
      assert e[..len] == e;
    } else {
      SingleByte(e);
    }
    end := end + 1;
  }

  /** Reduction to 32 bits. */
  function Mod32(v: nat): (r: nat)
    ensures v < TWO32 ==> r == v
  {
    v % TWO32
  }

  lemma {:induction false} SmallEncoding(v: nat)
    requires v < TWO32
    ensures |Encode(v)| <= 5
  {
    EncodeShape(v);
  }

  lemma {:induction false} FirstFold(e: seq<Byte>)
    requires e != []
    ensures Fold(e[..1]) == e[0] % 128
  {
    assert e[..1][..0] == [];
  }

  lemma {:induction false} SingleByte(e: seq<Byte>)
    requires e != [] && AllMore(e, |e| - 1) && e[0] < 128
    ensures |e| == 1 && Fold(e) == e[0]
  {
    assert e == [e[0]];
    assert e[..0] == [];
  }

  /** The inlined reader of the key, with its 64-bit accumulator. */
  method GetKey(d: seq<Byte>, at: nat, ghost v: nat) returns (iKey: nat, end: nat)
    requires VarintAt(d, at, v)
    ensures iKey == v && end == at + VarintLen(v)
  {
    hide Fold, Groups, Encode, VarintLen;
    EncodeShape(v);
    ghost var e := Encode(v);
    assert forall i :: 0 <= i < |e| ==> d[at + i] == d[at..at + |e|][i] == e[i];
    ghost var len := |e|;
    end := at;
    iKey := d[at];
    if iKey >= 0x80 {
      iKey := iKey % 128;
      FirstFold(e);
      var going := true;
      while going
        invariant at <= end < at + len
        invariant going ==> end < at + 7 && d[end] >= 0x80 && iKey == Fold(e[..end - at + 1])
        invariant !going ==> end == at + len - 1 && iKey == v
        decreases at + len - end, going
      {
        end := end + 1;
        FoldStep(e, 0, end - at);
        if len < 9 { FoldGrows(e, end - at + 1); } else { PrefixGrows(e, end - at + 1); }
        iKey := Mod64(iKey * 128) + d[end] % 128;
        if d[end] < 0x80 {
          assert e[..len] == e;
          going := false;
        } else if end >= at + 7 {
          end := end + 1;
          iKey := Mod64(iKey * 256) + d[end];
          going := false;
        }
      }
    } else {
      SingleByte(e);
    }
    end := end + 1;
  }

  function Mod64(v: nat): (r: nat)
    ensures v < TWO64 ==> r == v
  {
    v % TWO64
  }

  lemma {:induction false} PrefixGrows(e: seq<Byte>, n: nat)
    requires n <= 8 < |e|
    ensures Fold(e[..n]) <= Fold(e[..8])
  {
    FoldGrows(e[..8], n);
    assert e[..8][..n] == e[..n];
  }

  /** The loop of cellSizePtr that steps over a varint of up to nine bytes. */
  method SkipVarint(d: seq<Byte>, at: nat, ghost v: nat) returns (end: nat)
    requires VarintAt(d, at, v)
    ensures end == at + VarintLen(v)
  {
    hide Fold, Groups, Encode, VarintLen;
    EncodeShape(v);
    ghost var e := Encode(v);
    assert forall i :: 0 <= i < |e| ==> d[at + i] == d[at..at + |e|][i] == e[i];
    end := at;
    var going := true;
    while going
      invariant at <= end <= at + |e|
      invariant going ==> end < at + |e|
      invariant !going ==> end == at + |e|
      decreases at + |e| - end, going
    {
      going := d[end] >= 0x80 && end + 1 < at + 9;
      end := end + 1;
    }
  }
}
