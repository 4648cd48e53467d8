/** Keys and buckets of the hash table in hash.c, on values: `b[i]` is the bucket of the i-th element of the
    list, and bucket `k` is the segment of `counts[k]` elements that starts at `pos[k]`. */
module HashBuckets {
  /** A zero-terminated string, without the zero. */
  type Key = seq<char>

  /** sqlite3UpperToLower. */
  function Lower(c: char): char
  {
    if 'A' <= c <= 'Z' then c + (32 as char) else c
  }

  function Fold(k: Key): (r: Key)
    ensures |r| == |k| && forall i :: 0 <= i < |k| ==> r[i] == Lower(k[i])
  {
    seq(|k|, (i: int) requires 0 <= i < |k| => Lower(k[i]))
  }

  /** The two are the same letter from A to Z, the first a capital. */
  predicate CapitalOf(c: char, d: char)
  {
    'A' <= c <= 'Z' && 'a' <= d <= 'z' && d as int - c as int == 'a' as int - 'A' as int
  }

  predicate Alike(c: char, d: char)
  {
    c == d || CapitalOf(c, d) || CapitalOf(d, c)
  }

  /** Keys fold alike exactly when they differ at most in the case of letters from A to Z. */
  lemma {:induction false} FoldAlike(a: Key, b: Key)
    ensures Fold(a) == Fold(b) <==> |a| == |b| && forall i :: 0 <= i < |a| ==> Alike(a[i], b[i])
  {
    forall i | |a| == |b| && 0 <= i < |a| ensures Fold(a)[i] == Fold(b)[i] <==> Alike(a[i], b[i]) {}
    if Fold(a) == Fold(b) {
      assert |Fold(a)| == |Fold(b)|;
    }
  }

  /** strHash, in 32-bit arithmetic. */
  function HashFrom(h: nat, z: Key): nat
    decreases |z|
  {
    if z == [] then h else HashFrom((h + Lower(z[0]) as nat) * 0x9e3779b1 % 0x1_0000_0000, z[1..])
  }

  function StrHash(z: Key): nat
  {
    HashFrom(0, z)
  }

  /** Keys that differ in case only have the same hash. */
  lemma {:induction false} SameHash(h: nat, a: Key, b: Key)
    requires Fold(a) == Fold(b)
    ensures HashFrom(h, a) == HashFrom(h, b)
    decreases |a|
  {
    assert |Fold(a)| == |Fold(b)|;
    if a != [] {
      assert Fold(a)[0] == Fold(b)[0];
      assert Fold(a[1..]) == Fold(a)[1..] && Fold(b[1..]) == Fold(b)[1..];
      SameHash((h + Lower(a[0]) as nat) * 0x9e3779b1 % 0x1_0000_0000, a[1..], b[1..]);
    }
  }

  // ------------------------------------------------------------------ buckets are segments

  /** Element `i` lies in the segment of its bucket. */
  ghost predicate InSegment(b: seq<nat>, counts: seq<nat>, pos: seq<nat>, i: nat)
    requires i < |b|
  {
    b[i] < |counts| == |pos| && pos[b[i]] <= i < pos[b[i]] + counts[b[i]]
  }

  /** The segment of bucket `k` lies within the list and holds elements of that bucket only.  Nothing is
      said of the position of an empty bucket. */
  ghost predicate Segment(b: seq<nat>, counts: seq<nat>, pos: seq<nat>, k: nat)
    requires k < |counts| == |pos|
  {
    counts[k] > 0 ==> pos[k] + counts[k] <= |b| && forall i :: pos[k] <= i < pos[k] + counts[k] ==> b[i] == k
  }

  ghost predicate Bucketed(b: seq<nat>, counts: seq<nat>, pos: seq<nat>)
  {
    && |counts| == |pos|
    && (forall i :: 0 <= i < |b| ==> InSegment(b, counts, pos, i))
    && (forall k :: 0 <= k < |counts| ==> Segment(b, counts, pos, k))
  }

  function InsertedAt<T>(s: seq<T>, p: nat, x: T): (r: seq<T>)
    requires p <= |s|
    ensures |r| == |s| + 1
    ensures forall i :: 0 <= i < |r| ==> r[i] == if i < p then s[i] else if i == p then x else s[i - 1]
  {
    s[..p] + [x] + s[p..]
  }

  function RemovedAt<T>(s: seq<T>, p: nat): (r: seq<T>)
    requires p < |s|
    ensures |r| == |s| - 1
    ensures forall i :: 0 <= i < |r| ==> r[i] == if i < p then s[i] else s[i + 1]
  {
    s[..p] + s[p + 1..]
  }

  /** Where an element of bucket `k` is inserted: before the bucket's first element, or at the front. */
  function Place(counts: seq<nat>, pos: seq<nat>, k: nat): nat
    requires k < |counts| == |pos|
  {
    if counts[k] > 0 then pos[k] else 0
  }

  function ShiftUp(pos: seq<nat>, k: nat, p: nat): (r: seq<nat>)
    ensures |r| == |pos|
    ensures forall j :: 0 <= j < |r| ==> r[j] == if j == k then p else if pos[j] >= p then pos[j] + 1 else pos[j]
  {
    seq(|pos|, (j: int) requires 0 <= j < |pos| => if j == k then p else if pos[j] >= p then pos[j] + 1 else pos[j])
  }

  function ShiftDown(pos: seq<nat>, p: nat): (r: seq<nat>)
    ensures |r| == |pos|
    ensures forall j :: 0 <= j < |r| ==> r[j] == if pos[j] > p then pos[j] - 1 else pos[j]
  {
    seq(|pos|, (j: int) requires 0 <= j < |pos| => if pos[j] > p then pos[j] - 1 else pos[j])
  }

  lemma {:induction false} InsertKeeps(b: seq<nat>, counts: seq<nat>, pos: seq<nat>, k: nat)
    requires Bucketed(b, counts, pos) && k < |counts|
    ensures var p := Place(counts, pos, k);
      && p <= |b| && Bucketed(InsertedAt(b, p, k), counts[k := counts[k] + 1], ShiftUp(pos, k, p))
      && (counts[k] > 0 ==> p < |b|)
  {
    var p := Place(counts, pos, k);
    assert Segment(b, counts, pos, k);
    var b', c', s' := InsertedAt(b, p, k), counts[k := counts[k] + 1], ShiftUp(pos, k, p);
    forall i | 0 <= i < |b'| ensures InSegment(b', c', s', i) {
      if i != p {
        var o := if i < p then i else i - 1;
        assert InSegment(b, counts, pos, o);
        if b[o] != k && counts[k] > 0 { Boundary(b, counts, pos, k, b[o]); }
      }
    }
    forall j | 0 <= j < |c'| ensures Segment(b', c', s', j) {
      assert Segment(b, counts, pos, j);
      if j != k && counts[k] > 0 && counts[j] > 0 { Boundary(b, counts, pos, k, j); }
    }
  }

  /** Segments of different buckets do not overlap. */
  lemma {:induction false} Boundary(b: seq<nat>, counts: seq<nat>, pos: seq<nat>, k: nat, j: nat)
    requires Bucketed(b, counts, pos) && k < |counts| && j < |counts| && j != k && counts[k] > 0 && counts[j] > 0
    ensures pos[j] + counts[j] <= pos[k] || pos[k] + counts[k] <= pos[j]
  {
    assert Segment(b, counts, pos, k) && Segment(b, counts, pos, j);
    var m := if pos[j] <= pos[k] then pos[k] else pos[j];
    assert m < pos[k] + counts[k] ==> b[m] == k;
    assert m < pos[j] + counts[j] ==> b[m] == j;
  }

  lemma {:induction false} RemoveKeeps(b: seq<nat>, counts: seq<nat>, pos: seq<nat>, p: nat)
    requires Bucketed(b, counts, pos) && p < |b|
    ensures b[p] < |counts| && counts[b[p]] > 0
    ensures Bucketed(RemovedAt(b, p), counts[b[p] := counts[b[p]] - 1], ShiftDown(pos, p))
  {
    assert InSegment(b, counts, pos, p);
    var k := b[p];
    assert Segment(b, counts, pos, k);
    var b', c', s' := RemovedAt(b, p), counts[k := counts[k] - 1], ShiftDown(pos, p);
    forall i | 0 <= i < |b'| ensures InSegment(b', c', s', i) {
      var o := if i < p then i else i + 1;
      assert InSegment(b, counts, pos, o);
      if b[o] != k { assert Segment(b, counts, pos, b[o]); Boundary(b, counts, pos, k, b[o]); }
    }
    forall j | 0 <= j < |c'| ensures Segment(b', c', s', j) {
      assert Segment(b, counts, pos, j);
      if j != k && counts[j] > 0 { Boundary(b, counts, pos, k, j); }
    }
  }

  /** Every bucket empty, no element. */
  lemma {:induction false} NoElements(counts: seq<nat>, pos: seq<nat>)
    requires |counts| == |pos| && forall k :: 0 <= k < |counts| ==> counts[k] == 0
    ensures Bucketed([], counts, pos)
  {
  }
}
