/** The page-coverage part of the integrity check (checkTreePage in btree.c): cells and freeblocks go into
    a min-heap of byte ranges, are pulled out in ascending order and swept for overlaps and gaps. */
module Coverage {
  import opened PageLayout
  import opened PageFree

  const SENTINEL := 0xffff_ffff

  // ------------------------------------------------------------------ the heap

  /** Element zero counts the entries; entry `i` is the parent of entries `2 i` and `2 i + 1`. */
  ghost predicate Sized(a: seq<nat>)
  {
    |a| > 0 && a[0] < |a|
  }

  ghost predicate InOrder(a: seq<nat>, k: nat)
    requires 2 <= k < |a|
  {
    a[k / 2] <= a[k]
  }

  ghost predicate Heap(a: seq<nat>)
  {
    Sized(a) && forall k :: 2 <= k <= a[0] ==> InOrder(a, k)
  }

  /** What the heap holds. */
  ghost function Entries(a: seq<nat>): multiset<nat>
    requires Sized(a)
  {
    multiset(a[1..a[0] + 1])
  }

  /** Out of order only between entry `i` and its parent. */
  ghost predicate RisingAt(a: seq<nat>, i: nat)
  {
    && Sized(a) && 1 <= i <= a[0]
    && (forall k :: 2 <= k <= a[0] && k != i ==> InOrder(a, k))
    && (forall k :: 2 <= k <= a[0] && k / 2 == i && i >= 2 ==> a[i / 2] <= a[k])
  }

  /** Out of order only between entry `i` and its children. */
  ghost predicate SinkingAt(a: seq<nat>, i: nat)
  {
    && Sized(a) && 1 <= i
    && (forall k :: 2 <= k <= a[0] && k / 2 != i ==> InOrder(a, k))
    && (forall k :: 2 <= k <= a[0] && k / 2 == i && i >= 2 ==> a[i / 2] <= a[k])
  }

  function Swapped(a: seq<nat>, i: nat, j: nat): seq<nat>
    requires i < |a| && j < |a|
  {
    a[i := a[j]][j := a[i]]
  }

  lemma {:induction false} SwapEntries(a: seq<nat>, i: nat, j: nat)
    requires Sized(a) && 1 <= i <= a[0] && 1 <= j <= a[0]
    ensures Sized(Swapped(a, i, j)) && Entries(Swapped(a, i, j)) == Entries(a)
  {
    var s, t := a[1..a[0] + 1], Swapped(a, i, j)[1..a[0] + 1];
    assert t == s[i - 1 := s[j - 1]][j - 1 := s[i - 1]];
  }

  lemma {:induction false} Rise(a: seq<nat>, i: nat)
    requires RisingAt(a, i) && i >= 2 && a[i / 2] > a[i]
    ensures RisingAt(Swapped(a, i, i / 2), i / 2)
  {
    var b, j := Swapped(a, i, i / 2), i / 2;
    forall k | 2 <= k <= b[0] && k != j ensures InOrder(b, k) {
      if k != i { assert InOrder(a, k); }
      if k / 2 == j && k != i { assert InOrder(a, k); }
    }
    forall k | 2 <= k <= b[0] && k / 2 == j && j >= 2 ensures b[j / 2] <= b[k] {
      assert InOrder(a, j);
      if k != i { assert InOrder(a, k); }
    }
  }

  lemma {:induction false} Risen(a: seq<nat>, i: nat)
    requires RisingAt(a, i) && (i == 1 || a[i / 2] <= a[i])
    ensures Heap(a)
  {
    forall k | 2 <= k <= a[0] ensures InOrder(a, k) {}
  }

  lemma {:induction false} Sink(a: seq<nat>, i: nat, j: nat)
    requires SinkingAt(a, i) && 2 <= j <= a[0] && j / 2 == i && a[j] <= a[i]
    requires forall k :: 2 <= k <= a[0] && k / 2 == i ==> a[j] <= a[k]
    ensures SinkingAt(Swapped(a, i, j), j)
  {
    var b := Swapped(a, i, j);
    forall k | 2 <= k <= b[0] && k / 2 != j ensures InOrder(b, k) {
      if k / 2 != i { assert InOrder(a, k); }
    }
    forall k | 2 <= k <= b[0] && k / 2 == j && j >= 2 ensures b[j / 2] <= b[k] {
      assert InOrder(a, k);
    }
  }

  lemma {:induction false} Sunk(a: seq<nat>, i: nat)
    requires SinkingAt(a, i) && forall k :: 2 <= k <= a[0] && k / 2 == i ==> a[i] <= a[k]
    ensures Heap(a)
  {
    forall k | 2 <= k <= a[0] ensures InOrder(a, k) {}
  }

  /** The root is the least entry. */
  lemma {:induction false} RootLeast(a: seq<nat>, k: nat)
    requires Heap(a) && 1 <= k <= a[0]
    ensures a[1] <= a[k]
  {
    if k > 1 {
      RootLeast(a, k / 2);
      assert InOrder(a, k);
    }
  }

  /** btreeHeapInsert. */
  method HeapInsert(aHeap: array<nat>, x: nat)
    requires Heap(aHeap[..]) && aHeap[0] + 1 < aHeap.Length
    modifies aHeap
    ensures Heap(aHeap[..]) && aHeap[0] == old(aHeap[0]) + 1
    ensures Entries(aHeap[..]) == old(Entries(aHeap[..])) + multiset{x}
  {
    hide RisingAt, Entries, Heap;
    HeapSized(aHeap[..]);
    ghost var was := aHeap[..];
    aHeap[0] := aHeap[0] + 1;
    var i := aHeap[0];
    aHeap[i] := x;
    Appended(was, aHeap[..], x);
    while i / 2 > 0 && aHeap[i / 2] > aHeap[i]
      invariant RisingAt(aHeap[..], i) && 1 <= i <= aHeap[0] == was[0] + 1 && Sized(aHeap[..])
      invariant Entries(aHeap[..]) == Entries(was) + multiset{x}
    {
      var j := i / 2;
      Rise(aHeap[..], i);
      SwapEntries(aHeap[..], i, j);
      ghost var next := Swapped(aHeap[..], i, j);
      aHeap[i], aHeap[j] := aHeap[j], aHeap[i];
      assert aHeap[..] == next;
      i := j;
    }
    Risen(aHeap[..], i);
  }

  lemma {:induction false} Appended(a: seq<nat>, b: seq<nat>, x: nat)
    requires Heap(a) && a[0] + 1 < |a| && b == a[0 := a[0] + 1][a[0] + 1 := x]
    ensures Sized(b) && RisingAt(b, b[0]) && Entries(b) == Entries(a) + multiset{x}
  {
    forall k | 2 <= k <= b[0] && k != b[0] ensures InOrder(b, k) { assert InOrder(a, k); }
    assert b[1..b[0] + 1] == a[1..a[0] + 1] + [x];
  }

  /** btreeHeapPull: the least entry, if there is one. */
  method HeapPull(aHeap: array<nat>) returns (found: bool, out: nat)
    requires Heap(aHeap[..]) && forall e :: e in Entries(aHeap[..]) ==> e <= SENTINEL
    modifies aHeap
    ensures Heap(aHeap[..]) && (found <==> old(aHeap[0]) > 0)
    ensures !found ==> aHeap[..] == old(aHeap[..])
    ensures found ==> aHeap[0] == old(aHeap[0]) - 1 && out in old(Entries(aHeap[..]))
    ensures found ==> Entries(aHeap[..]) == old(Entries(aHeap[..])) - multiset{out}
    ensures found ==> forall e :: e in old(Entries(aHeap[..])) ==> out <= e
  {
    hide SinkingAt, Entries, Heap;
    HeapSized(aHeap[..]);
    found, out := false, 0;
    var x := aHeap[0];
    if x == 0 { return; }
    ghost var was := aHeap[..];
    found, out := true, aHeap[1];
    aHeap[1] := aHeap[x];
    aHeap[x] := SENTINEL;
    aHeap[0] := aHeap[0] - 1;
    Taken(was, aHeap[..]);
    var i := 1;
    while 2 * i <= aHeap[0]
      invariant SinkingAt(aHeap[..], i) && 1 <= i && aHeap[0] == x - 1 && aHeap[x] == SENTINEL && Sized(aHeap[..])
      invariant Entries(aHeap[..]) == Entries(was) - multiset{out}
      decreases x - i
    {
      var j := 2 * i;
      BelowSentinel(was, aHeap[..], out, j);
      if aHeap[j] > aHeap[j + 1] { j := j + 1; }
      assert forall k :: 2 <= k <= aHeap[0] && k / 2 == i ==> k == 2 * i || k == 2 * i + 1;
      if aHeap[i] < aHeap[j] { break; }
      Sink(aHeap[..], i, j);
      SwapEntries(aHeap[..], i, j);
      ghost var next := Swapped(aHeap[..], i, j);
      aHeap[i], aHeap[j] := aHeap[j], aHeap[i];
      assert aHeap[..] == next;
      i := j;
    }
    Sunk(aHeap[..], i);
  }

  lemma {:induction false} HeapSized(a: seq<nat>)
    requires Heap(a)
    ensures Sized(a)
  {
  }

  /** Entry `j` is not above the sentinel, which ends the heap. */
  lemma {:induction false} BelowSentinel(was: seq<nat>, a: seq<nat>, out: nat, j: nat)
    requires Sized(was) && Sized(a) && Entries(a) == Entries(was) - multiset{out} && 1 <= j <= a[0]
    requires forall e :: e in Entries(was) ==> e <= SENTINEL
    ensures a[j] <= SENTINEL
  {
    assert a[1..a[0] + 1][j - 1] in Entries(a);
    assert forall e :: e in Entries(a) ==> e in Entries(was);
  }

  lemma {:induction false} TakenEntries(a: seq<nat>, b: seq<nat>)
    requires Sized(a) && a[0] > 0
    requires b == a[1 := a[a[0]]][a[0] := SENTINEL][0 := a[0] - 1]
    ensures Sized(b) && Entries(b) == Entries(a) - multiset{a[1]}
  {
    var n := a[0];
    if n > 1 {
      assert a[1..n + 1] == [a[1]] + a[2..n] + [a[n]];
      assert b[1..n] == [a[n]] + a[2..n];
    }
  }

  /** The last entry has taken the place of the root. */
  lemma {:induction false} Taken(a: seq<nat>, b: seq<nat>)
    requires Heap(a) && a[0] > 0
    requires b == a[1 := a[a[0]]][a[0] := SENTINEL][0 := a[0] - 1]
    ensures Sized(b) && SinkingAt(b, 1) && a[1] in Entries(a) && Entries(b) == Entries(a) - multiset{a[1]}
    ensures forall e :: e in Entries(a) ==> a[1] <= e
  {
    var n := a[0];
    forall k | 2 <= k <= b[0] && k / 2 != 1 ensures InOrder(b, k) { assert InOrder(a, k); }
    assert a[1..n + 1][0] == a[1];
    TakenEntries(a, b);
    forall e | e in Entries(a) ensures a[1] <= e {
      var k :| 0 <= k < n && a[1..n + 1][k] == e;
      RootLeast(a, k + 1);
    }
  }

  // ------------------------------------------------------------------ ranges as numbers

  /** First byte in the upper 16 bits, last byte in the lower. */
  function Span(b: Block): nat
  {
    b.at * 0x1_0000 + if b.at + b.size == 0 then 0 else b.at + b.size - 1
  }

  ghost predicate Encodable(b: Block)
  {
    b.size >= 1 && b.at + b.size <= 0x1_0000
  }

  function First(x: nat): nat
  {
    x / 0x1_0000
  }

  function Last(x: nat): nat
  {
    x % 0x1_0000
  }

  lemma {:induction false} SpanParts(b: Block)
    requires Encodable(b)
    ensures Span(b) <= SENTINEL && First(Span(b)) == b.at && Last(Span(b)) == b.at + b.size - 1
  {
  }

  ghost function Spans(bs: seq<Block>): (s: seq<nat>)
    ensures |s| == |bs| && forall i :: 0 <= i < |bs| ==> s[i] == Span(bs[i])
  {
    seq(|bs|, i requires 0 <= i < |bs| => Span(bs[i]))
  }

  // ------------------------------------------------------------------ permutations of blocks

  lemma {:induction false} OneLess<T>(s: seq<T>, i: nat)
    requires i < |s|
    ensures multiset(s) == multiset(Without(s, i)) + multiset{s[i]}
    ensures |Without(s, i)| == |s| - 1
    ensures forall k :: 0 <= k < |s| - 1 ==> Without(s, i)[k] == s[if k < i then k else k + 1]
  {
    assert s == s[..i] + [s[i]] + s[i + 1..];
  }

  lemma {:induction false} Cancel<T>(a: multiset<T>, b: multiset<T>, x: T)
    requires a + multiset{x} == b + multiset{x}
    ensures a == b
  {
    assert a == (a + multiset{x}) - multiset{x};
    assert b == (b + multiset{x}) - multiset{x};
  }

  /** Entries of a multiset that come from different places of a sequence. */
  lemma {:induction false} TwoPlaces<T>(s: seq<T>, x: T, y: T) returns (i: nat, j: nat)
    requires multiset{x} + multiset{y} <= multiset(s)
    ensures i < |s| && j < |s| && i != j && s[i] == x && s[j] == y
  {
    assert x in multiset(s);
    i :| 0 <= i < |s| && s[i] == x;
    OneLess(s, i);
    var t := Without(s, i);
    assert (multiset{x} + multiset{y})[y] <= multiset(s)[y];
    assert y in multiset(t);
    var k :| 0 <= k < |t| && t[k] == y;
    j := if k < i then k else k + 1;
  }

  lemma {:induction false} PairIn<T>(s: seq<T>, i: nat, j: nat)
    requires i < j < |s|
    ensures multiset{s[i]} + multiset{s[j]} <= multiset(s)
  {
    assert s == s[..i] + [s[i]] + s[i + 1..j] + [s[j]] + s[j + 1..];
  }

  lemma {:induction false} ApartPermuted(a: seq<Block>, b: seq<Block>)
    requires AllApart(a) && multiset(a) == multiset(b)
    ensures AllApart(b)
  {
    forall i, j | 0 <= i < j < |b| ensures Apart(b[i], b[j]) {
      PairIn(b, i, j);
      var p, q := TwoPlaces(a, b[i], b[j]);
      if p < q { assert Apart(a[p], a[q]); } else { assert Apart(a[q], a[p]); }
    }
  }

  lemma {:induction false} TotalPermuted(a: seq<Block>, b: seq<Block>)
    requires multiset(a) == multiset(b)
    ensures Total(a) == Total(b)
    decreases |a|
  {
    hide Without;
    if a == [] {
      assert |multiset(a)| == |multiset(b)| == 0;
    } else {
      assert a[0] in multiset(b);
      var i :| 0 <= i < |b| && b[i] == a[0];
      OneLess(b, i);
      OneLess(a, 0);
      assert Without(a, 0) == a[1..];
      Cancel(multiset(a[1..]), multiset(Without(b, i)), a[0]);
      TotalPermuted(a[1..], Without(b, i));
      TotalSplit(b, i);
      assert Without(b, i) == b[..i] + b[i + 1..];
    }
  }

  /** Permuted ranges are ranges of permuted blocks. */
  lemma {:induction false} BlocksPermuted(pulled: seq<Block>, all: seq<Block>)
    requires forall i :: 0 <= i < |pulled| ==> Encodable(pulled[i])
    requires forall i :: 0 <= i < |all| ==> Encodable(all[i])
    requires multiset(Spans(pulled)) == multiset(Spans(all))
    ensures multiset(pulled) == multiset(all)
    decreases |pulled|
  {
    hide Span, Without;
    if pulled == [] {
      assert |multiset(Spans(pulled))| == |multiset(Spans(all))| == 0;
    } else {
      var s, t := Spans(pulled), Spans(all);
      assert s[0] in multiset(t);
      var i :| 0 <= i < |t| && t[i] == s[0];
      SpanParts(pulled[0]);
      SpanParts(all[i]);
      assert pulled[0] == all[i];
      OneLess(t, i);
      OneLess(s, 0);
      OneLess(all, i);
      OneLess(pulled, 0);
      assert Spans(Without(all, i)) == Without(t, i);
      assert Spans(Without(pulled, 0)) == Without(s, 0);
      Cancel(multiset(Without(s, 0)), multiset(Without(t, i)), s[0]);
      BlocksPermuted(Without(pulled, 0), Without(all, i));
    }
  }

  // ------------------------------------------------------------------ the sweep

  datatype Message =
    | OutOfRange(pc: nat)
    | OffEnd(pc: nat)
    | MultipleUses(at: nat)
    | Fragmentation(counted: int, reported: nat)

  /** Blocks in ascending order, each beginning after the end of the one before. */
  ghost predicate Swept(bs: seq<Block>, end: nat)
  {
    && (forall i :: 0 <= i < |bs| ==> Encodable(bs[i]) && bs[i].at + bs[i].size <= end)
    && (forall i, j :: 0 <= i < j < |bs| ==> bs[i].at + bs[i].size <= bs[j].at)
  }

  /** `pulled` are blocks of `all` and the heap holds the ranges of the others, none of them smaller. */
  ghost predicate Sweeping(all: seq<Block>, pulled: seq<Block>, entries: multiset<nat>)
  {
    && multiset(Spans(pulled)) + entries == multiset(Spans(all))
    && (pulled != [] ==> forall e :: e in entries ==> Span(pulled[|pulled| - 1]) <= e)
  }

  /** The next range pulled. */
  lemma {:induction false} PullNext(all: seq<Block>, pulled: seq<Block>, entries: multiset<nat>, x: nat) returns (b: Block)
    requires Sweeping(all, pulled, entries) && x in entries && forall e :: e in entries ==> x <= e
    requires forall i :: 0 <= i < |all| ==> Encodable(all[i])
    ensures Encodable(b) && Span(b) == x && b in all
    ensures Sweeping(all, pulled + [b], entries - multiset{x})
    ensures pulled != [] ==> Span(pulled[|pulled| - 1]) <= x
  {
    hide Span;
    assert x in multiset(Spans(all));
    var i :| 0 <= i < |Spans(all)| && Spans(all)[i] == x;
    b := all[i];
    assert Spans(pulled + [b]) == Spans(pulled) + [x];
  }

  /** Two ranges that overlap belong to different blocks of the page. */
  lemma {:induction false} Overlapping(all: seq<Block>, pulled: seq<Block>, entries: multiset<nat>) returns (i: nat, j: nat)
    requires Sweeping(all, pulled, entries) && |pulled| >= 2
    requires (forall k :: 0 <= k < |all| ==> Encodable(all[k])) && (forall k :: 0 <= k < |pulled| ==> Encodable(pulled[k]))
    ensures i < |all| && j < |all| && i != j && all[i] == pulled[|pulled| - 2] && all[j] == pulled[|pulled| - 1]
  {
    hide Span;
    var n, s := |pulled|, Spans(pulled);
    PairIn(s, n - 2, n - 1);
    i, j := TwoPlaces(Spans(all), s[n - 2], s[n - 1]);
    SpanParts(all[i]);
    SpanParts(all[j]);
    SpanParts(pulled[n - 2]);
    SpanParts(pulled[n - 1]);
  }

  /** One byte that two different blocks use. */
  ghost predicate UsedTwice(all: seq<Block>, x: nat)
  {
    exists i, j :: 0 <= i < |all| && 0 <= j < |all| && i != j && Uses(all[i], x) && Uses(all[j], x)
  }

  ghost predicate Uses(b: Block, x: nat)
  {
    b.at <= x < b.at + b.size
  }

  lemma {:induction false} TwiceNotApart(all: seq<Block>, x: nat)
    requires UsedTwice(all, x)
    ensures !AllApart(all)
  {
    var i, j :| 0 <= i < |all| && 0 <= j < |all| && i != j && Uses(all[i], x) && Uses(all[j], x);
    assert !Apart(all[i], all[j]);
    if i > j { assert !Apart(all[j], all[i]); }
  }

  /** The implied first entry: page header, cell pointers, and the gap before the content area. */
  function Before(top: nat): Block
  {
    Block(0, top)
  }

  /** What the sweep reports: nothing if the ranges are disjoint and leave as many bytes as the header
      counts; one wrong count if they are disjoint but it does not; else the first byte used twice. */
  ghost predicate Verdict(all: seq<Block>, u: nat, reported: nat, messages: seq<Message>)
  {
    if AllApart(all) then
      messages == if u - Total(all) == reported then [] else [Fragmentation(u - Total(all), reported)]
    else
      exists pulled, b, rest :: Overlaps(all, u, reported, messages, pulled, b, rest)
  }

  /** In ascending order, `b` is the first range to begin before the end of the one before it; `rest` are the
      ranges after it.  If there are none, the bytes outside the others are still counted. */
  ghost predicate Overlaps(all: seq<Block>, u: nat, reported: nat, messages: seq<Message>, pulled: seq<Block>,
          b: Block, rest: multiset<nat>)
  {
    && Sweeping(all, pulled + [b], rest) && UsedTwice(all, b.at)
    && pulled != [] && var last := pulled[|pulled| - 1];
       && Swept(pulled, last.at + last.size) && Span(last) <= Span(b) && b.at < last.at + last.size
       && messages == [MultipleUses(b.at)] +
            if rest == multiset{} && u - Total(pulled) != reported then [Fragmentation(u - Total(pulled), reported)] else []
  }

  /** Ranges that can be swept: not at offset zero, not beyond the page. */
  ghost predicate OnPage(bs: seq<Block>, u: nat)
  {
    forall i :: 0 <= i < |bs| ==> bs[i].at >= 1 && bs[i].size >= 1 && bs[i].at + bs[i].size <= u
  }

  /** The loop over the heap that counts gaps and finds overlaps. */
  method Sweep(aHeap: array<nat>, contentOffset: nat, usableSize: nat, reported: nat, ghost bs: seq<Block>)
    returns (messages: seq<Message>)
    requires Heap(aHeap[..]) && Entries(aHeap[..]) == multiset(Spans(bs)) && OnPage(bs, usableSize)
    requires 0 < contentOffset <= usableSize <= 0x1_0000
    modifies aHeap
    ensures Verdict([Before(contentOffset)] + bs, usableSize, reported, messages)
  {
    hide Heap, Entries, Span, Spans, Sweeping, Swept, First, Last, AllApart, Total, UsedTwice, OnPage, Overlaps;
    messages := [];
    var nFrag: nat, prev: nat, more := 0, contentOffset - 1, true;
    ghost var all := [Before(contentOffset)] + bs;
    ghost var pulled: seq<Block>, end: nat := [Before(contentOffset)], contentOffset;
    HeapSized(aHeap[..]);
    SweepStart(bs, Entries(aHeap[..]), contentOffset, usableSize);
    while more
      invariant Heap(aHeap[..]) && Sized(aHeap[..]) && messages == [] && (!more ==> aHeap[0] == 0)
      invariant Swept(pulled, end) && contentOffset <= end <= usableSize && Total(pulled) <= end
      invariant pulled != [] && pulled[|pulled| - 1].at + pulled[|pulled| - 1].size == end
      invariant Last(prev) == end - 1 && nFrag == end - Total(pulled)
      invariant Sweeping(all, pulled, Entries(aHeap[..]))
      decreases aHeap[0], more
    {
      ghost var entries := Entries(aHeap[..]);
      AllSmall(all, pulled, entries);
      var found, x := HeapPull(aHeap);
      if !found {
        more := false;
      } else {
        ghost var b := PullNext(all, pulled, entries, x);
        SpanParts(b);
        InAll(bs, b, contentOffset, usableSize);
        if Last(prev) >= First(x) {
          messages := ReportOverlap(aHeap, x, nFrag, prev, usableSize, reported, all, pulled, b, end);
          return;
        }
        nFrag := nFrag + (First(x) - Last(prev) - 1);
        prev := x;
        SweptMore(pulled, b, end);
        pulled, end := pulled + [b], b.at + b.size;
      }
      HeapSized(aHeap[..]);
    }
    Complete(all, pulled, aHeap[..], end);
    nFrag := nFrag + (usableSize - Last(prev) - 1);
    if nFrag != reported {
      messages := messages + [Fragmentation(nFrag, reported)];
    }
  }

  /** The first overlap ends the sweep; the bytes in no range are counted only if no range is left. */
  method ReportOverlap(aHeap: array<nat>, x: nat, nFrag: nat, prev: nat, usableSize: nat, reported: nat,
                       ghost all: seq<Block>, ghost pulled: seq<Block>, ghost b: Block, ghost end: nat)
    returns (messages: seq<Message>)
    requires Sized(aHeap[..]) && Sweeping(all, pulled + [b], Entries(aHeap[..])) && Swept(pulled, end)
    requires Encodable(b) && Span(b) == x && b.at < end && forall i :: 0 <= i < |all| ==> Encodable(all[i])
    requires pulled != [] && pulled[|pulled| - 1].at + pulled[|pulled| - 1].size == end && Span(pulled[|pulled| - 1]) <= x
    requires Last(prev) == end - 1 && nFrag == end - Total(pulled)
    ensures Verdict(all, usableSize, reported, messages)
  {
    hide Entries, Span, Spans, Sweeping, Swept, First, Last, AllApart, Total, UsedTwice;
    SpanParts(b);
    EmptyHeap(aHeap[..]);
    Found(all, pulled, b, Entries(aHeap[..]), end);
    messages := [MultipleUses(First(x))];
    if aHeap[0] == 0 {
      var left := nFrag + usableSize - Last(prev) - 1;
      if left != reported { messages := messages + [Fragmentation(left, reported)]; }
    }
    assert Overlaps(all, usableSize, reported, messages, pulled, b, Entries(aHeap[..]));
  }

  lemma {:induction false} EmptyHeap(a: seq<nat>)
    requires Sized(a)
    ensures a[0] == 0 <==> Entries(a) == multiset{}
  {
    if a[0] == 0 {
      assert a[1..1] == [];
    } else {
      assert a[1] in multiset(a[1..a[0] + 1]);
    }
  }

  lemma {:induction false} SweepStart(bs: seq<Block>, entries: multiset<nat>, top: nat, u: nat)
    requires entries == multiset(Spans(bs)) && 0 < top <= u <= 0x1_0000 && OnPage(bs, u)
    ensures var first := [Before(top)];
      && Sweeping(first + bs, first, entries) && Swept(first, top) && Total(first) == top && Last(top - 1) == top - 1
      && forall i :: 0 <= i < |first + bs| ==> Encodable((first + bs)[i])
  {
    var first := [Before(top)];
    TotalOne(first[0]);
    assert Spans(first + bs) == Spans(first) + Spans(bs);
    forall e | e in entries ensures Span(first[0]) <= e {
      var i :| 0 <= i < |Spans(bs)| && Spans(bs)[i] == e;
    }
  }

  lemma {:induction false} AllSmall(all: seq<Block>, pulled: seq<Block>, entries: multiset<nat>)
    requires Sweeping(all, pulled, entries) && forall i :: 0 <= i < |all| ==> Encodable(all[i])
    ensures forall e :: e in entries ==> e <= SENTINEL
  {
    hide Span;
    forall e | e in entries ensures e <= SENTINEL {
      assert e in multiset(Spans(all));
      var i :| 0 <= i < |Spans(all)| && Spans(all)[i] == e;
      SpanParts(all[i]);
    }
  }

  lemma {:induction false} InAll(bs: seq<Block>, b: Block, top: nat, u: nat)
    requires OnPage(bs, u) && b in [Before(top)] + bs && top <= u
    ensures b.at + b.size <= u
  {
  }

  lemma {:induction false} SweptMore(pulled: seq<Block>, b: Block, end: nat)
    requires Swept(pulled, end) && Encodable(b) && end <= b.at
    ensures Swept(pulled + [b], b.at + b.size) && Total(pulled + [b]) == Total(pulled) + b.size
  {
    TotalConcat(pulled, [b]);
    TotalOne(b);
  }

  /** A range that begins before the end of the last one. */
  lemma {:induction false} Found(all: seq<Block>, pulled: seq<Block>, b: Block, entries: multiset<nat>, end: nat)
    requires Sweeping(all, pulled + [b], entries) && Swept(pulled, end) && b.at < end && Encodable(b) && pulled != []
    requires Span(pulled[|pulled| - 1]) <= Span(b) && pulled[|pulled| - 1].at + pulled[|pulled| - 1].size == end
    requires forall i :: 0 <= i < |all| ==> Encodable(all[i])
    ensures UsedTwice(all, b.at) && !AllApart(all)
  {
    hide Span, AllApart;
    var last := pulled[|pulled| - 1];
    SpanParts(last);
    SpanParts(b);
    SpanOrder(last, b);
    var i, j := Overlapping(all, pulled + [b], entries);
    assert Uses(all[i], b.at) && Uses(all[j], b.at);
    TwiceNotApart(all, b.at);
  }

  lemma {:induction false} SpanOrder(a: Block, b: Block)
    requires Encodable(a) && Encodable(b) && Span(a) <= Span(b)
    ensures a.at <= b.at
  {
  }

  /** With the heap empty, all blocks have been swept. */
  lemma {:induction false} Complete(all: seq<Block>, pulled: seq<Block>, a: seq<nat>, end: nat)
    requires Sized(a) && a[0] == 0 && Sweeping(all, pulled, Entries(a)) && Swept(pulled, end)
    requires forall i :: 0 <= i < |all| ==> Encodable(all[i])
    ensures AllApart(all) && Total(all) == Total(pulled)
  {
    hide Span, Total;
    assert a[1..1] == [];
    BlocksPermuted(pulled, all);
    forall i, j | 0 <= i < j < |pulled| ensures Apart(pulled[i], pulled[j]) {}
    ApartPermuted(pulled, all);
    TotalPermuted(pulled, all);
  }

  // ------------------------------------------------------------------ one page

  /** The cells of a page by their pointers; `size` is what the parser says of the cell at an offset. */
  ghost function CellList(d: seq<Byte>, start: nat, n: nat, size: nat -> nat): (cells: seq<Block>)
    requires start + 2 * n <= |d|
    ensures |cells| == n
    ensures forall i :: 0 <= i < n ==> cells[i] == Block(Get2(d, start + 2 * i), size(Get2(d, start + 2 * i)))
  {
    seq(n, i requires 0 <= i < n => Block(Get2(d, start + 2 * i), size(Get2(d, start + 2 * i))))
  }

  /** What the check of one cell's place reports. */
  function Complaint(c: Block, top: nat, u: nat): seq<Message>
  {
    if c.at < top || c.at + 4 > u then [OutOfRange(c.at)]
    else if c.at + c.size > u then [OffEnd(c.at)]
    else []
  }

  /** The reports on cells `k` and later, last cell first. */
  ghost function Complaints(cells: seq<Block>, top: nat, u: nat, k: nat): seq<Message>
    decreases |cells| - k
  {
    if k >= |cells| then [] else Complaints(cells, top, u, k + 1) + Complaint(cells[k], top, u)
  }

  lemma {:induction false} NoComplaints(cells: seq<Block>, top: nat, u: nat, k: nat)
    requires forall i :: 0 <= i < |cells| ==> cells[i].size >= 4
    ensures Complaints(cells, top, u, k) == [] <==> forall i :: k <= i < |cells| ==> top <= cells[i].at && cells[i].at + cells[i].size <= u
    decreases |cells| - k
  {
    if k < |cells| { NoComplaints(cells, top, u, k + 1); }
  }

  /** A page as btreeInitPage accepts it, with freeblocks `blocks`: as many cells as fit at six bytes
      each, freeblocks after the cell pointers, ascending and at least four bytes apart. */
  ghost predicate Checkable(d: seq<Byte>, u: nat, hdr: nat, start: nat, blocks: seq<Block>)
  {
    && hdr + 8 <= |d| == u <= 0x1_0000 && hdr + 8 <= start && Top(d, hdr) <= u
    && 6 * Get2(d, hdr + 3) + 8 <= u && start + 2 * Get2(d, hdr + 3) <= u
    && Chain(d, u, hdr, blocks)
    && (blocks != [] ==> start + 2 * Get2(d, hdr + 3) <= blocks[0].at)
  }

  /** There are never more than a quarter as many ranges as bytes, so the heap, which has the size of a
      page, has room for them and their count, even when the cells overlap. */
  lemma {:induction false} HeapRoom(d: seq<Byte>, u: nat, hdr: nat, start: nat, blocks: seq<Block>)
    requires Checkable(d, u, hdr, start, blocks)
    ensures 4 * (Get2(d, hdr + 3) + |blocks| + 1) <= u
  {
    hide Get2, Top;
    if blocks != [] {
      BlockSpace(d, u, hdr, blocks, |blocks| - 1);
      assert FreeAt(d, u, blocks, |blocks| - 1);
    }
  }

  lemma {:induction false} BlockSpace(d: seq<Byte>, u: nat, hdr: nat, blocks: seq<Block>, k: nat)
    requires hdr + 8 <= |d| == u && Chain(d, u, hdr, blocks) && k < |blocks|
    ensures blocks[0].at + 8 * k <= blocks[k].at
  {
    hide Get2;
    if k > 0 {
      BlockSpace(d, u, hdr, blocks, k - 1);
      assert FreeAt(d, u, blocks, k - 1);
    }
  }

  /** The loop over the cells: each is checked for its place; those of a leaf go into the heap. */
  method CheckCells(d: seq<Byte>, usableSize: nat, cellStart: nat, nCell: nat, contentOffset: nat, leaf: bool, size: nat -> nat,
                    heap: array<nat>)
    returns (messages: seq<Message>, doCoverageCheck: bool)
    requires cellStart + 2 * nCell <= |d| && nCell < heap.Length && forall pc :: size(pc) >= 4
    modifies heap
    ensures messages == Complaints(CellList(d, cellStart, nCell, size), contentOffset, usableSize, 0)
    ensures doCoverageCheck <==> messages == []
    ensures leaf && doCoverageCheck ==> Filled(heap[..], CellList(d, cellStart, nCell, size))
  {
    hide Complaint, Get2, Filled;
    ghost var cells := CellList(d, cellStart, nCell, size);
    assert cells[nCell..] == [];
    messages, doCoverageCheck := [], true;
    heap[0] := 0;
    Empty(heap[..]);
    ghost var held: seq<Block> := [];
    var i: int := nCell - 1;
    while i >= 0
      invariant -1 <= i < nCell && messages == Complaints(cells, contentOffset, usableSize, i + 1)
      invariant doCoverageCheck <==> messages == []
      invariant Filled(heap[..], held) && |held| <= nCell - 1 - i
      invariant leaf && doCoverageCheck ==> held == cells[i + 1..]
    {
      var pc := Get2(d, cellStart + i * 2);
      assert cells[i] == Block(pc, size(pc));
      var report := Complaint(Block(pc, size(pc)), contentOffset, usableSize);
      if report != [] {
        messages := messages + report;
        doCoverageCheck := false;
      } else if leaf {
        InRange(cells[i], contentOffset, usableSize);
        InsertOne(heap, pc, size(pc), held);
        held := [cells[i]] + held;
        assert doCoverageCheck ==> held == cells[i..];
      }
      i := i - 1;
    }
    assert cells[0..] == cells;
  }

  /** The coverage check of a page: the places of the cells, then the sweep over cells and freeblocks.  It
      is silent if and only if every cell lies in the content area, no byte is in two of header, cells and
      freeblocks, and the bytes in none are as many as the header counts. */
  method CheckCoverage(d: seq<Byte>, usableSize: nat, hdr: nat, leaf: bool, size: nat -> nat, heap: array<nat>, ghost blocks: seq<Block>)
    returns (messages: seq<Message>)
    requires Checkable(d, usableSize, hdr, hdr + (if leaf then 8 else 12), blocks)
    requires (forall pc :: size(pc) >= 4) && 4 * heap.Length >= usableSize - 3
    modifies heap
    ensures var top, cells := Top(d, hdr), CellList(d, hdr + (if leaf then 8 else 12), Get2(d, hdr + 3), size);
      if Complaints(cells, top, usableSize, 0) == [] then
        Verdict([Before(top)] + (cells + blocks), usableSize, d[hdr + 7], messages)
      else messages == Complaints(cells, top, usableSize, 0)
    ensures var top, cells := Top(d, hdr), CellList(d, hdr + (if leaf then 8 else 12), Get2(d, hdr + 3), size);
      var all := [Before(top)] + (cells + blocks);
      messages == [] <==> (AllWithin(cells, top, usableSize) && AllApart(all) && |Untracked(usableSize, all)| == d[hdr + 7])
  {
    hide Heap, AllWithin, AllApart, Untracked, CellList, Complaints, Verdict, Complaint, Top, FreeAt, Get2, Filled, Chain, OnPage;
    HeapRoom(d, usableSize, hdr, hdr + (if leaf then 8 else 12), blocks);
    var contentOffset := Top(d, hdr);
    var nCell := Get2(d, hdr + 3);
    var cellStart := hdr + 12 - 4 * (if leaf then 1 else 0);
    ghost var cells := CellList(d, cellStart, nCell, size);
    var doCoverageCheck;
    messages, doCoverageCheck := CheckCells(d, usableSize, cellStart, nCell, contentOffset, leaf, size, heap);
    if doCoverageCheck {
      NoComplaints(cells, contentOffset, usableSize, 0);
      if !leaf {
        heap[0] := 0;
        Empty(heap[..]);
        InsertCells(d, cellStart, nCell, size, usableSize, heap);
      }
      InsertBlocks(d, usableSize, hdr, heap, cells, blocks);
      AllOnPage(d, usableSize, hdr, cellStart, contentOffset, cells, blocks);
      FilledParts(heap[..], cells + blocks);
      messages := Sweep(heap, contentOffset, usableSize, d[hdr + 7], cells + blocks);
    }
    BlocksOnPage(d, usableSize, hdr, cellStart, blocks);
    CheckExact(usableSize, contentOffset, cells, blocks, d[hdr + 7], messages);
  }

  /** The heap holds the ranges of `bs`. */
  ghost predicate Filled(a: seq<nat>, bs: seq<Block>)
  {
    Heap(a) && a[0] == |bs| && Entries(a) == multiset(Spans(bs))
  }

  lemma {:induction false} FilledParts(a: seq<nat>, bs: seq<Block>)
    requires Filled(a, bs)
    ensures Heap(a) && |a| > 0 && a[0] == |bs| && Entries(a) == multiset(Spans(bs))
  {
  }

  lemma {:induction false} Empty(a: seq<nat>)
    requires |a| > 0 && a[0] == 0
    ensures Filled(a, [])
  {
    assert a[1..1] == [];
    assert Spans([]) == [];
  }

  lemma {:induction false} InRange(c: Block, top: nat, u: nat)
    requires Complaint(c, top, u) == []
    ensures top <= c.at && c.at + c.size <= u
  {
  }

  /** One more range. */
  method InsertOne(heap: array<nat>, pc: nat, size: nat, ghost bs: seq<Block>)
    requires Filled(heap[..], bs) && |bs| + 1 < heap.Length && pc + size >= 1
    modifies heap
    ensures Filled(heap[..], [Block(pc, size)] + bs) && Filled(heap[..], bs + [Block(pc, size)])
  {
    hide Heap, Entries;
    HeapSized(heap[..]);
    HeapInsert(heap, pc * 0x1_0000 + (pc + size - 1));
    ghost var b := Block(pc, size);
    assert Spans([b] + bs) == [Span(b)] + Spans(bs);
    assert Spans(bs + [b]) == Spans(bs) + [Span(b)];
  }

  /** The cells of an interior page go in when its children have been checked. */
  method InsertCells(d: seq<Byte>, cellStart: nat, nCell: nat, size: nat -> nat, ghost u: nat, heap: array<nat>)
    requires Filled(heap[..], []) && cellStart + 2 * nCell <= |d| && nCell < heap.Length
    requires forall pc :: size(pc) >= 4
    modifies heap
    ensures Filled(heap[..], CellList(d, cellStart, nCell, size))
  {
    hide Filled, Get2;
    ghost var cells := CellList(d, cellStart, nCell, size);
    assert cells[nCell..] == [];
    var i: int := nCell - 1;
    while i >= 0
      invariant -1 <= i < nCell && Filled(heap[..], cells[i + 1..])
    {
      var pc := Get2(d, cellStart + i * 2);
      InsertOne(heap, pc, size(pc), cells[i + 1..]);
      assert [cells[i]] + cells[i + 1..] == cells[i..];
      i := i - 1;
    }
    assert cells[0..] == cells;
  }

  /** The walk along the freeblocks. */
  method InsertBlocks(d: seq<Byte>, u: nat, hdr: nat, heap: array<nat>, ghost cells: seq<Block>, ghost blocks: seq<Block>)
    requires Filled(heap[..], cells) && hdr + 8 <= |d| == u && Chain(d, u, hdr, blocks) && |cells| + |blocks| < heap.Length
    modifies heap
    ensures Filled(heap[..], cells + blocks)
  {
    hide Filled, Get2, Chain;
    ChainFirst(d, u, hdr, blocks);
    assert cells + blocks[..0] == cells;
    var i := Get2(d, hdr + 1);
    ghost var k := 0;
    while i > 0
      invariant 0 <= k <= |blocks| && i == Head(blocks, k) && (k < |blocks| ==> i > 0)
      invariant Filled(heap[..], cells + blocks[..k])
      decreases |blocks| - k
    {
      ChainLink(d, u, hdr, blocks, k);
      var size := Get2(d, i + 2);
      InsertOne(heap, i, size, cells + blocks[..k]);
      assert cells + blocks[..k] + [blocks[k]] == cells + blocks[..k + 1];
      i := Get2(d, i);
      k := k + 1;
    }
    assert blocks[..k] == blocks;
  }

  lemma {:induction false} ChainFirst(d: seq<Byte>, u: nat, hdr: nat, blocks: seq<Block>)
    requires hdr + 8 <= |d| == u && Chain(d, u, hdr, blocks)
    ensures Get2(d, hdr + 1) == Head(blocks, 0) && (blocks != [] ==> Head(blocks, 0) > 0)
  {
    hide Get2;
    if blocks != [] { assert FreeAt(d, u, blocks, 0); }
  }

  lemma {:induction false} ChainLink(d: seq<Byte>, u: nat, hdr: nat, blocks: seq<Block>, k: nat)
    requires hdr + 8 <= |d| == u && Chain(d, u, hdr, blocks) && k < |blocks|
    ensures var b := blocks[k];
      && 0 < b.at && b.at + 4 <= u && Get2(d, b.at + 2) == b.size && Get2(d, b.at) == Head(blocks, k + 1)
      && (k + 1 < |blocks| ==> Head(blocks, k + 1) > 0)
  {
    hide Get2;
    assert FreeAt(d, u, blocks, k);
  }

  lemma {:induction false} AllOnPage(d: seq<Byte>, u: nat, hdr: nat, start: nat, top: nat, cells: seq<Block>, blocks: seq<Block>)
    requires Checkable(d, u, hdr, start, blocks) && top >= 1
    requires forall i :: 0 <= i < |cells| ==> cells[i].size >= 4 && top <= cells[i].at && cells[i].at + cells[i].size <= u
    ensures OnPage(cells + blocks, u)
  {
    hide Get2, Top;
    forall i | 0 <= i < |cells + blocks| ensures (cells + blocks)[i].at >= 1 && (cells + blocks)[i].size >= 1
      && (cells + blocks)[i].at + (cells + blocks)[i].size <= u
    {
      if i >= |cells| { assert FreeAt(d, u, blocks, i - |cells|); }
    }
  }

  lemma {:induction false} BlocksOnPage(d: seq<Byte>, u: nat, hdr: nat, start: nat, blocks: seq<Block>)
    requires Checkable(d, u, hdr, start, blocks)
    ensures OnPage(blocks, u) && Top(d, hdr) <= u
  {
    hide Get2, Top;
    forall i | 0 <= i < |blocks| ensures blocks[i].at >= 1 && blocks[i].size >= 1 && blocks[i].at + blocks[i].size <= u {
      assert FreeAt(d, u, blocks, i);
    }
  }

  /** Bytes of the page in no range. */
  ghost function Untracked(u: nat, all: seq<Block>): set<nat>
  {
    Range(0, u) - Covered(all)
  }

  /** Disjoint ranges leave as many bytes untracked as their sizes do not account for. */
  lemma {:induction false} UntrackedCount(u: nat, all: seq<Block>)
    requires AllApart(all) && AllWithin(all, 0, u)
    ensures |Untracked(u, all)| == u - Total(all)
  {
    CoveredSize(all);
    RangeSize(0, u);
    forall x | x in Covered(all) ensures x in Range(0, u) {
      CoveredBy(all, x);
      var i :| 0 <= i < |all| && all[i].at <= x < all[i].at + all[i].size;
    }
    assert Range(0, u) == Untracked(u, all) + Covered(all);
  }

  /** What the messages of the check say about the page. */
  lemma {:induction false} CheckExact(u: nat, top: nat, cells: seq<Block>, blocks: seq<Block>, reported: nat, messages: seq<Message>)
    requires top <= u && OnPage(blocks, u) && forall i :: 0 <= i < |cells| ==> cells[i].size >= 4
    requires if Complaints(cells, top, u, 0) == [] then
        Verdict([Before(top)] + (cells + blocks), u, reported, messages)
      else messages == Complaints(cells, top, u, 0)
    ensures var all := [Before(top)] + (cells + blocks);
      messages == [] <==> (AllWithin(cells, top, u) && AllApart(all) && |Untracked(u, all)| == reported)
  {
    hide AllApart, Total, Untracked, UsedTwice;
    var all := [Before(top)] + (cells + blocks);
    NoComplaints(cells, top, u, 0);
    if Complaints(cells, top, u, 0) == [] {
      forall i | 0 <= i < |all| ensures all[i].at + all[i].size <= u {}
      if AllApart(all) { UntrackedCount(u, all); }
    }
  }
}
