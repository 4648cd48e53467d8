/** The arithmetic of sibling redistribution (balance_nonroot in btree.c): deciding how many
    sibling pages are needed for a run of cells and where the page boundaries fall.

    Cells are known by their sizes only.  In a leaf-data tree (`leafData`) consecutive pages hold
    consecutive cells; otherwise the cell between two pages is the divider that moves up to the
    parent. */
module Packing {

  const NB := 3

  /** Bytes taken by the first `n` cells, each with its two-byte cell pointer. */
  function Prefix(sizes: seq<nat>, n: nat): nat
    requires n <= |sizes|
  {
    if n == 0 then 0 else Prefix(sizes, n - 1) + 2 + sizes[n - 1]
  }

  lemma {:induction false} PrefixGap(sizes: seq<nat>, a: nat, b: nat)
    requires a <= b <= |sizes|
    ensures Prefix(sizes, a) + 2 * (b - a) <= Prefix(sizes, b)
  {
    if a < b { PrefixGap(sizes, a, b - 1); }
  }

  /** Index of the first cell of page `i` when page `i - 1` ends at `cnt[i-1]`. */
  function Start(cnt: seq<nat>, leafData: bool, n: nat, i: nat): nat
    requires i <= |cnt|
  {
    if i == 0 then 0
    else if leafData then cnt[i - 1]
    else if cnt[i - 1] < n then cnt[i - 1] + 1 else n
  }

  ghost predicate InRange(cnt: seq<nat>, n: nat)
  {
    forall j :: 0 <= j < |cnt| ==> cnt[j] <= n
  }

  /** Bytes used on page `i`; negative while the boundaries are still out of order. */
  ghost function PageSize(sizes: seq<nat>, leafData: bool, cnt: seq<nat>, i: nat): int
    requires i < |cnt| && InRange(cnt, |sizes|)
  {
    Prefix(sizes, cnt[i]) - Prefix(sizes, Start(cnt, leafData, |sizes|, i))
  }

  ghost predicate PageFits(sizes: seq<nat>, leafData: bool, space: nat, cnt: seq<nat>, i: nat)
    requires i < |cnt| && InRange(cnt, |sizes|)
  {
    && Start(cnt, leafData, |sizes|, i) <= cnt[i]
    && PageSize(sizes, leafData, cnt, i) <= space
  }

  /** `cnt` cuts the cells into pages, in order, each of which fits. */
  ghost predicate Fits(sizes: seq<nat>, leafData: bool, space: nat, cnt: seq<nat>)
  {
    && 0 < |cnt|
    && InRange(cnt, |sizes|)
    && cnt[|cnt| - 1] == |sizes|
    && forall i :: 0 <= i < |cnt| ==> PageFits(sizes, leafData, space, cnt, i)
  }

  /** The cells can be cut into at most NB+2 pages at all. */
  ghost predicate Feasible(sizes: seq<nat>, leafData: bool, space: nat)
  {
    exists cnt: seq<nat> :: |cnt| <= NB + 2 && Fits(sizes, leafData, space, cnt)
  }

  ghost predicate NonEmpty(sizes: seq<nat>, leafData: bool, cnt: seq<nat>, i: nat)
    requires i < |cnt|
  {
    Start(cnt, leafData, |sizes|, i) < cnt[i]
  }

  /** `sz` records the exact sizes of pages `lo` to `hi - 1`. */
  ghost predicate Exact(sizes: seq<nat>, leafData: bool, cnt: seq<nat>, sz: seq<int>, lo: nat, hi: nat)
    requires hi <= |cnt| && hi <= |sz| && InRange(cnt, |sizes|)
  {
    forall i :: lo <= i < hi ==> sz[i] == PageSize(sizes, leafData, cnt, i)
  }

  /** A packing the balancer may carry out: it fits, and with two or more siblings none is empty. */
  ghost predicate GoodPacking(sizes: seq<nat>, leafData: bool, space: nat, cnt: seq<nat>, sz: seq<int>)
  {
    && Fits(sizes, leafData, space, cnt)
    && |cnt| <= NB + 2
    && |sz| == |cnt|
    && Exact(sizes, leafData, cnt, sz, 0, |cnt|)
    && (|cnt| >= 2 ==> forall i :: 0 <= i < |cnt| ==> NonEmpty(sizes, leafData, cnt, i))
  }

  /** No cut into fitting pages has fewer pages. */
  ghost predicate Fewest(sizes: seq<nat>, leafData: bool, space: nat, k: nat)
  {
    forall other: seq<nat> :: Fits(sizes, leafData, space, other) ==> k <= |other|
  }

  /** What every cell must satisfy: it fits on a page and, where dividers exist, two fit together. */
  ghost predicate SmallCells(sizes: seq<nat>, leafData: bool, space: nat)
  {
    forall j :: 0 <= j < |sizes| ==> (if leafData then 2 + sizes[j] else 4 + 2 * sizes[j]) <= space
  }

  /** The page boundaries and sizes the balancer starts from. */
  ghost predicate OldPages(sizes: seq<nat>, leafData: bool, cntOld: seq<nat>, szOld: seq<int>)
  {
    && 1 <= |cntOld| <= NB
    && |szOld| == |cntOld|
    && cntOld[|cntOld| - 1] == |sizes|
    && InRange(cntOld, |sizes|)
    && Exact(sizes, leafData, cntOld, szOld, 0, |cntOld|)
  }

  // ------------------------------------------------------------------ greedy packing

  /** Page `i` fits, holds something, and cannot take one more cell. */
  ghost predicate Full(sizes: seq<nat>, leafData: bool, space: nat, cnt: seq<nat>, i: nat)
    requires i < |cnt| && InRange(cnt, |sizes|)
  {
    && PageSize(sizes, leafData, cnt, i) <= space
    && Start(cnt, leafData, |sizes|, i) < cnt[i] < |sizes|
    && space < PageSize(sizes, leafData, cnt, i) + 2 + sizes[cnt[i]]
  }

  ghost predicate Settled(sizes: seq<nat>, leafData: bool, space: nat, cnt: seq<nat>, i: nat)
    requires i <= |cnt| && InRange(cnt, |sizes|)
  {
    forall j :: 0 <= j < i ==> Full(sizes, leafData, space, cnt, j)
  }

  /** One page: a packing that starts no later than a full greedy page ends no later. */
  lemma {:induction false} GreedyStep(sizes: seq<nat>, space: nat, s: nat, c: nat, t: nat, o: nat)
    requires t <= s <= |sizes| && o <= |sizes| && c < |sizes|
    requires Prefix(sizes, o) - Prefix(sizes, t) <= space
    requires space < Prefix(sizes, c) - Prefix(sizes, s) + 2 + sizes[c]
    ensures o <= c
  {
    PrefixGap(sizes, t, s);
    if o > c { PrefixGap(sizes, c + 1, o); }
  }

  /** Greedy packing reaches at least as far as any other packing does. */
  lemma {:induction false} GreedyStaysAhead(sizes: seq<nat>, leafData: bool, space: nat, cnt: seq<nat>, i: nat, other: seq<nat>)
    requires i < |cnt| && InRange(cnt, |sizes|)
    requires Settled(sizes, leafData, space, cnt, i + 1)
    requires Fits(sizes, leafData, space, other)
    ensures i + 1 < |other| && other[i] <= cnt[i]
  {
    if i > 0 { GreedyStaysAhead(sizes, leafData, space, cnt, i - 1, other); }
    var s, t := Start(cnt, leafData, |sizes|, i), Start(other, leafData, |sizes|, i);
    assert PageFits(sizes, leafData, space, other, i);
    assert Full(sizes, leafData, space, cnt, i);
    GreedyStep(sizes, space, s, cnt[i], t, other[i]);
  }

  /** When the NB+2-th page would overflow after greedily filling the others, no packing exists. */
  lemma {:induction false} NoRoomLeft(sizes: seq<nat>, leafData: bool, space: nat, cnt: seq<nat>)
    requires |cnt| == NB + 2 && InRange(cnt, |sizes|)
    requires Settled(sizes, leafData, space, cnt, NB + 1)
    requires PageSize(sizes, leafData, cnt, NB + 1) > space
    ensures !Feasible(sizes, leafData, space)
  {
    forall other: seq<nat> | Fits(sizes, leafData, space, other)
      ensures |other| > NB + 2
    {
      GreedyStaysAhead(sizes, leafData, space, cnt, NB, other);
      var s, t := Start(cnt, leafData, |sizes|, NB + 1), Start(other, leafData, |sizes|, NB + 1);
      PrefixGap(sizes, t, s);
      PrefixGap(sizes, cnt[NB + 1], |sizes|);
      assert PageFits(sizes, leafData, space, other, NB + 1);
    }
  }

  /** Full pages use more than their share: each with its divider exceeds `space`. */
  lemma {:induction false} SettledTotal(sizes: seq<nat>, space: nat, cnt: seq<nat>, i: nat)
    requires 0 < i <= |cnt| && InRange(cnt, |sizes|)
    requires Settled(sizes, false, space, cnt, i)
    ensures cnt[i - 1] < |sizes| && i * space < Prefix(sizes, cnt[i - 1] + 1)
  {
    assert Full(sizes, false, space, cnt, i - 1);
    if i > 1 {
      SettledTotal(sizes, space, cnt, i - 1);
      assert i * space == (i - 1) * space + space;
    }
  }

  lemma {:induction false} OverflowTotal(sizes: seq<nat>, space: nat, cnt: seq<nat>)
    requires |cnt| == NB + 2 && InRange(cnt, |sizes|)
    requires Settled(sizes, false, space, cnt, NB + 1)
    requires PageSize(sizes, false, cnt, NB + 1) > space
    ensures Prefix(sizes, |sizes|) > (NB + 2) * space
  {
    SettledTotal(sizes, space, cnt, NB + 1);
    PrefixGap(sizes, cnt[NB + 1], |sizes|);
  }

  lemma {:induction false} LastPageTotal(sizes: seq<nat>, space: nat, cnt: seq<nat>, k: nat)
    requires k <= |cnt| && InRange(cnt, |sizes|)
    requires LastPage(sizes, false, space, cnt, k)
    ensures (k - 1) * space <= Prefix(sizes, |sizes|)
  {
    if k > 1 {
      SettledTotal(sizes, space, cnt, k - 1);
      PrefixGap(sizes, cnt[k - 2] + 1, |sizes|);
    }
  }

  /** What the next page loses when the boundary at `c` moves one cell to the right. */
  function Handover(sizes: seq<nat>, leafData: bool, c: nat): nat
    requires c < |sizes|
  {
    if leafData then 2 + sizes[c] else if c + 1 < |sizes| then 2 + sizes[c + 1] else 0
  }

  lemma {:induction false} BoundaryShift(sizes: seq<nat>, leafData: bool, cnt: seq<nat>, i: nat, j: nat)
    requires i < |cnt| && j < |cnt| && InRange(cnt, |sizes|) && cnt[i] < |sizes|
    ensures InRange(cnt[i := cnt[i] + 1], |sizes|)
    ensures PageSize(sizes, leafData, cnt[i := cnt[i] + 1], j) ==
            PageSize(sizes, leafData, cnt, j)
            + (if j == i then 2 + sizes[cnt[i]] else 0)
            - (if j == i + 1 then Handover(sizes, leafData, cnt[i]) else 0)
  {
    var c2 := cnt[i := cnt[i] + 1];
    assert InRange(c2, |sizes|);
    if j == i {
      assert Start(c2, leafData, |sizes|, j) == Start(cnt, leafData, |sizes|, j);
    } else if j == i + 1 {
      assert c2[j] == cnt[j];
    } else {
      assert Start(c2, leafData, |sizes|, j) == Start(cnt, leafData, |sizes|, j);
    }
  }

  /** Moving one boundary to the right and adjusting the two sizes keeps all sizes exact. */
  lemma {:induction false} ShiftKeepsExact(sizes: seq<nat>, leafData: bool, cnt: seq<nat>, sz: seq<int>, lo: nat, hi: nat, i: nat)
    requires lo <= i && i + 1 < hi <= |cnt| && hi <= |sz| && InRange(cnt, |sizes|) && cnt[i] < |sizes|
    ensures InRange(cnt[i := cnt[i] + 1], |sizes|)
    ensures Exact(sizes, leafData, cnt, sz, lo, hi) <==>
            Exact(sizes, leafData, cnt[i := cnt[i] + 1],
              sz[i := sz[i] + 2 + sizes[cnt[i]]][i + 1 := sz[i + 1] - Handover(sizes, leafData, cnt[i])], lo, hi)
  {
    var c2 := cnt[i := cnt[i] + 1];
    var s2 := sz[i := sz[i] + 2 + sizes[cnt[i]]][i + 1 := sz[i + 1] - Handover(sizes, leafData, cnt[i])];
    BoundaryShift(sizes, leafData, cnt, i, i);
    forall j | lo <= j < hi
      ensures sz[j] == PageSize(sizes, leafData, cnt, j) <==> s2[j] == PageSize(sizes, leafData, c2, j)
    {
      BoundaryShift(sizes, leafData, cnt, i, j);
    }
    assert Exact(sizes, leafData, cnt, sz, lo, hi) ==> Exact(sizes, leafData, c2, s2, lo, hi);
    assert Exact(sizes, leafData, c2, s2, lo, hi) ==> Exact(sizes, leafData, cnt, sz, lo, hi) by {
      if Exact(sizes, leafData, c2, s2, lo, hi) {
        forall j | lo <= j < hi ensures sz[j] == PageSize(sizes, leafData, cnt, j) {
          assert s2[j] == PageSize(sizes, leafData, c2, j);
        }
      }
    }
  }

  lemma {:induction false} AppendEmptyPage(sizes: seq<nat>, leafData: bool, cnt: seq<nat>, sz: seq<int>, i: nat)
    requires i + 1 < |cnt| == |sz| && InRange(cnt, |sizes|) && cnt[i] == |sizes|
    requires Exact(sizes, leafData, cnt, sz, i, i + 1)
    ensures InRange(cnt[i + 1 := |sizes|], |sizes|)
    ensures Exact(sizes, leafData, cnt[i + 1 := |sizes|], sz[i + 1 := 0], i, i + 2)
  {
    var c2 := cnt[i + 1 := |sizes|];
    assert InRange(c2, |sizes|);
    assert PageSize(sizes, leafData, c2, i) == PageSize(sizes, leafData, cnt, i);
    assert PageSize(sizes, leafData, c2, i + 1) == 0;
  }

  /** Move the last cell of page `i`, which overflows, across its right boundary. */
  method PushOne(sizes: seq<nat>, leafData: bool, space: nat, i: nat, k: nat, cnt: array<nat>, sz: array<int>)
    requires cnt.Length == NB + 2 && sz.Length == NB + 2
    requires i + 1 < k <= NB + 2
    requires InRange(cnt[..], |sizes|)
    requires Exact(sizes, leafData, cnt[..], sz[..], i, k)
    requires sz[i] > space
    modifies cnt, sz
    ensures InRange(cnt[..], |sizes|)
    ensures cnt[..i] == old(cnt[..i]) && sz[..i] == old(sz[..i]) && cnt[i + 1..] == old(cnt[i + 1..])
    ensures cnt[i] < old(cnt[i])
    ensures Exact(sizes, leafData, cnt[..], sz[..], i, k)
  {
    ghost var c1, s1 := cnt[..], sz[..];
    ghost var st := Start(c1, leafData, |sizes|, i);
    assert cnt[i] > st by {
      assert s1[i] == PageSize(sizes, leafData, c1, i);
      if c1[i] <= st { PrefixGap(sizes, c1[i], st); }
    }
    var s := 2 + sizes[cnt[i] - 1];
    sz[i] := sz[i] - s;
    if !leafData {
      s := if cnt[i] < |sizes| then 2 + sizes[cnt[i]] else 0;
    }
    sz[i + 1] := sz[i + 1] + s;
    cnt[i] := cnt[i] - 1;
    ghost var c2, s2 := cnt[..], sz[..];
    assert c2 == c1[i := c1[i] - 1];
    assert s == Handover(sizes, leafData, c2[i]);
    ShiftKeepsExact(sizes, leafData, c2, s2, i, k, i);
    assert c2[i := c2[i] + 1] == c1;
    assert s2[i := s2[i] + 2 + sizes[c2[i]]][i + 1 := s2[i + 1] - Handover(sizes, leafData, c2[i])] == s1;
  }

  /** Move cells off an over-full page to the right until it fits, appending a page when there is
      none to the right. */
  method PushRight(sizes: seq<nat>, leafData: bool, space: nat, i: nat, k0: nat, cnt: array<nat>, sz: array<int>)
    returns (ok: bool, k: nat)
    requires cnt.Length == NB + 2 && sz.Length == NB + 2
    requires i < k0 <= NB + 2
    requires InRange(cnt[..], |sizes|) && cnt[k0 - 1] == |sizes|
    requires Exact(sizes, leafData, cnt[..], sz[..], i, k0)
    modifies cnt, sz
    ensures InRange(cnt[..], |sizes|)
    ensures cnt[..i] == old(cnt[..i]) && sz[..i] == old(sz[..i])
    ensures ok ==> k0 <= k <= NB + 2 && cnt[k - 1] == |sizes|
    ensures ok ==> Exact(sizes, leafData, cnt[..], sz[..], i, k) && sz[i] <= space
    ensures !ok ==> i == NB + 1 && PageSize(sizes, leafData, cnt[..], i) > space
  {
    ok, k := true, k0;
    while sz[i] > space
      invariant k0 <= k <= NB + 2
      invariant InRange(cnt[..], |sizes|) && cnt[k - 1] == |sizes|
      invariant cnt[..i] == old(cnt[..i]) && sz[..i] == old(sz[..i])
      invariant Exact(sizes, leafData, cnt[..], sz[..], i, k)
      decreases cnt[i]
    {
      if i + 1 >= k {
        if i + 2 > NB + 2 {
          ok := false;
          return;
        }
        AppendEmptyPage(sizes, leafData, cnt[..], sz[..], i);
        k := i + 2;
        sz[k - 1] := 0;
        cnt[k - 1] := |sizes|;
      }
      PushOne(sizes, leafData, space, i, k, cnt, sz);
      assert cnt[k - 1] == cnt[i + 1..][k - 1 - (i + 1)];
    }
  }

  /** Pull cells from the right while they fit. */
  method PullLeft(sizes: seq<nat>, leafData: bool, space: nat, i: nat, k: nat, cnt: array<nat>, sz: array<int>)
    requires cnt.Length == NB + 2 && sz.Length == NB + 2
    requires i < k <= NB + 2
    requires InRange(cnt[..], |sizes|) && cnt[k - 1] == |sizes|
    requires Exact(sizes, leafData, cnt[..], sz[..], i, k)
    requires sz[i] <= space
    modifies cnt, sz
    ensures InRange(cnt[..], |sizes|) && cnt[k - 1] == |sizes|
    ensures cnt[..i] == old(cnt[..i]) && sz[..i] == old(sz[..i])
    ensures Exact(sizes, leafData, cnt[..], sz[..], i, k)
    ensures sz[i] <= space
    ensures cnt[i] < |sizes| ==> sz[i] + 2 + sizes[cnt[i]] > space
  {
    while cnt[i] < |sizes|
      invariant InRange(cnt[..], |sizes|) && cnt[k - 1] == |sizes|
      invariant cnt[..i] == old(cnt[..i]) && sz[..i] == old(sz[..i])
      invariant Exact(sizes, leafData, cnt[..], sz[..], i, k)
      invariant sz[i] <= space
      decreases |sizes| - cnt[i]
    {
      var s := 2 + sizes[cnt[i]];
      if sz[i] + s > space { break; }
      ghost var c1, s1 := cnt[..], sz[..];
      sz[i] := sz[i] + s;
      cnt[i] := cnt[i] + 1;
      if !leafData {
        s := if cnt[i] < |sizes| then 2 + sizes[cnt[i]] else 0;
      }
      sz[i + 1] := sz[i + 1] - s;
      ShiftKeepsExact(sizes, leafData, c1, s1, i, k, i);
      assert cnt[..] == c1[i := c1[i] + 1];
      assert sz[..] == s1[i := s1[i] + 2 + sizes[c1[i]]][i + 1 := s1[i + 1] - Handover(sizes, leafData, c1[i])];
    }
  }

  /** Pages before `i` depend on nothing at or beyond boundary `i`. */
  lemma {:induction false} EarlierPagesKept(sizes: seq<nat>, leafData: bool, space: nat, c1: seq<nat>, s1: seq<int>,
          c2: seq<nat>, s2: seq<int>, i: nat)
    requires i <= |c1| == |c2| == |s1| == |s2| && InRange(c1, |sizes|) && InRange(c2, |sizes|)
    requires c1[..i] == c2[..i] && s1[..i] == s2[..i]
    requires Settled(sizes, leafData, space, c1, i) && Exact(sizes, leafData, c1, s1, 0, i)
    ensures Settled(sizes, leafData, space, c2, i) && Exact(sizes, leafData, c2, s2, 0, i)
  {
    forall j | 0 <= j < i
      ensures Full(sizes, leafData, space, c2, j) && s2[j] == PageSize(sizes, leafData, c2, j)
    {
      assert Full(sizes, leafData, space, c1, j);
      assert c2[j] == c2[..i][j] == c1[j] && s2[j] == s2[..i][j] == s1[j];
      if j > 0 { assert c2[j - 1] == c2[..i][j - 1] == c1[j - 1]; }
    }
  }

  /** A page that cannot take the next cell holds at least one cell. */
  lemma {:induction false} FullPageNotEmpty(sizes: seq<nat>, leafData: bool, space: nat, cnt: seq<nat>, i: nat)
    requires SmallCells(sizes, leafData, space)
    requires i < |cnt| && InRange(cnt, |sizes|) && cnt[i] < |sizes|
    requires PageSize(sizes, leafData, cnt, i) + 2 + sizes[cnt[i]] > space
    ensures Start(cnt, leafData, |sizes|, i) < cnt[i]
    ensures i > 0 ==> cnt[i - 1] < cnt[i]
  {
    var st := Start(cnt, leafData, |sizes|, i);
    if cnt[i] <= st { PrefixGap(sizes, cnt[i], st); }
  }

  /** The page the greedy pass ends on. */
  ghost predicate LastPage(sizes: seq<nat>, leafData: bool, space: nat, cnt: seq<nat>, k: nat)
    requires k <= |cnt| && InRange(cnt, |sizes|)
  {
    && 1 <= k
    && cnt[k - 1] == |sizes|
    && PageSize(sizes, leafData, cnt, k - 1) <= space
    && Settled(sizes, leafData, space, cnt, k - 1)
  }

  /** Settle page `i`: shed what does not fit, then take what does. */
  method FillPage(sizes: seq<nat>, leafData: bool, space: nat, i: nat, k0: nat, cnt: array<nat>, sz: array<int>)
    returns (ok: bool, k: nat)
    requires cnt.Length == NB + 2 && sz.Length == NB + 2
    requires i < k0 <= NB + 2
    requires SmallCells(sizes, leafData, space)
    requires InRange(cnt[..], |sizes|) && cnt[k0 - 1] == |sizes|
    requires Settled(sizes, leafData, space, cnt[..], i)
    requires Exact(sizes, leafData, cnt[..], sz[..], 0, k0)
    modifies cnt, sz
    ensures InRange(cnt[..], |sizes|)
    ensures ok ==> i < k <= NB + 2 && Exact(sizes, leafData, cnt[..], sz[..], 0, k)
    ensures ok ==> Settled(sizes, leafData, space, cnt[..], i) && cnt[k - 1] == |sizes|
    ensures ok && cnt[i] < |sizes| ==> Full(sizes, leafData, space, cnt[..], i)
    ensures ok && cnt[i] == |sizes| ==> PageSize(sizes, leafData, cnt[..], i) <= space
    ensures !ok ==> !Feasible(sizes, leafData, space)
    ensures !ok && !leafData ==> Prefix(sizes, |sizes|) > (NB + 2) * space
  {
    ghost var c0, s0 := cnt[..], sz[..];
    ok, k := PushRight(sizes, leafData, space, i, k0, cnt, sz);
    EarlierPagesKept(sizes, leafData, space, c0, s0, cnt[..], sz[..], i);
    if !ok {
      NoRoomLeft(sizes, leafData, space, cnt[..]);
      if !leafData { OverflowTotal(sizes, space, cnt[..]); }
      return;
    }
    ghost var c1, s1 := cnt[..], sz[..];
    PullLeft(sizes, leafData, space, i, k, cnt, sz);
    EarlierPagesKept(sizes, leafData, space, c1, s1, cnt[..], sz[..], i);
    assert sz[..][i] == PageSize(sizes, leafData, cnt[..], i);
    if cnt[i] < |sizes| { FullPageNotEmpty(sizes, leafData, space, cnt[..], i); }
  }

  /** The first packing pass: fill each page as far as it goes, left to right. */
  method Greedy(sizes: seq<nat>, leafData: bool, space: nat, k0: nat, cnt: array<nat>, sz: array<int>)
    returns (ok: bool, k: nat)
    requires cnt.Length == NB + 2 && sz.Length == NB + 2
    requires 1 <= k0 <= NB
    requires SmallCells(sizes, leafData, space)
    requires InRange(cnt[..], |sizes|) && cnt[k0 - 1] == |sizes|
    requires Exact(sizes, leafData, cnt[..], sz[..], 0, k0)
    modifies cnt, sz
    ensures InRange(cnt[..], |sizes|)
    ensures ok ==> k <= NB + 2 && LastPage(sizes, leafData, space, cnt[..], k) && Exact(sizes, leafData, cnt[..], sz[..], 0, k)
    ensures !ok ==> !Feasible(sizes, leafData, space)
    ensures !ok && !leafData ==> Prefix(sizes, |sizes|) > (NB + 2) * space
  {
    hide Prefix, SmallCells, Feasible;
    ok, k := true, k0;
    var i := 0;
    while i < k
      invariant i <= k <= NB + 2
      invariant InRange(cnt[..], |sizes|)
      invariant Exact(sizes, leafData, cnt[..], sz[..], 0, k)
      invariant i < k ==> Settled(sizes, leafData, space, cnt[..], i) && cnt[k - 1] == |sizes|
      invariant i == k ==> LastPage(sizes, leafData, space, cnt[..], k)
      decreases NB + 2 - i
    {
      ok, k := FillPage(sizes, leafData, space, i, k, cnt, sz);
      if !ok { return; }
      if cnt[i] < |sizes| { assert Start(cnt[..], leafData, |sizes|, i) < cnt[i]; }
      if cnt[i] >= |sizes| {
        k := i + 1;
      } else if cnt[i] <= (if i > 0 then cnt[i - 1] else 0) {
        // SQLITE_CORRUPT: a page that holds no cell
        assert false;
      }
      i := i + 1;
    }
  }

  // ------------------------------------------------------------------ evening out

  ghost predicate PageGood(sizes: seq<nat>, leafData: bool, space: nat, cnt: seq<nat>, sz: seq<int>, j: nat)
    requires j < |cnt| && j < |sz| && InRange(cnt, |sizes|)
  {
    sz[j] == PageSize(sizes, leafData, cnt, j) && PageFits(sizes, leafData, space, cnt, j)
  }

  /** Pages of a packing under adjustment: exact sizes that fit. */
  ghost predicate Adjusting(sizes: seq<nat>, leafData: bool, space: nat, cnt: seq<nat>, sz: seq<int>, k: nat)
    requires k <= |cnt| && k <= |sz| && InRange(cnt, |sizes|)
  {
    && 1 <= k
    && cnt[k - 1] == |sizes|
    && forall j :: 0 <= j < k ==> PageGood(sizes, leafData, space, cnt, sz, j)
  }

  /** Bytes to the right of boundary `b`, up to `e`; the divider at `b` is on neither side. */
  ghost function RightOf(sizes: seq<nat>, leafData: bool, b: nat, e: nat): int
    requires b < |sizes| && e <= |sizes|
  {
    Prefix(sizes, e) - Prefix(sizes, if leafData then b else b + 1)
  }

  /** The boundary between left cells from `st` on and right cells up to `e` may stay at `b`: the right page
      has cells, and with one more of them it would be larger than what the left page keeps.  For a bulk
      cursor it is enough that the right page has cells. */
  ghost predicate Stops(sizes: seq<nat>, leafData: bool, bulk: bool, lastPair: bool, st: nat, e: nat, b: nat)
    requires 0 < b < |sizes| && st <= b && e <= |sizes|
  {
    var szLeft, szRight := Prefix(sizes, b) - Prefix(sizes, st), RightOf(sizes, leafData, b, e);
    szRight != 0 && (bulk || szRight + sizes[if leafData then b - 1 else b] + 2 > szLeft - (sizes[b - 1] + if lastPair then 0 else 2))
  }

  /** From `b0` down, `b` is the first boundary that may stay. */
  ghost predicate Evened(sizes: seq<nat>, leafData: bool, bulk: bool, lastPair: bool, st: nat, b0: nat, e: nat, b: nat)
  {
    && st < b <= b0 < |sizes| && e <= |sizes| && Stops(sizes, leafData, bulk, lastPair, st, e, b)
    && forall c :: b < c <= b0 ==> !Stops(sizes, leafData, bulk, lastPair, st, e, c)
  }

  /** The boundaries `cnt` come from the greedy ones by evening out the pairs of pages, the last pair first. */
  ghost predicate EvenedFrom(sizes: seq<nat>, leafData: bool, bulk: bool, greedy: seq<nat>, cnt: seq<nat>)
  {
    && 0 < |cnt| == |greedy| && cnt[|cnt| - 1] == greedy[|cnt| - 1]
    && forall i :: 1 <= i < |cnt| ==> PairEvened(sizes, leafData, bulk, |cnt|, greedy, cnt, i)
  }

  ghost predicate PairEvened(sizes: seq<nat>, leafData: bool, bulk: bool, k: nat, greedy: seq<nat>, cnt: seq<nat>, i: nat)
    requires 1 <= i < |greedy| && i < |cnt|
  {
    Evened(sizes, leafData, bulk, i == k - 1, Start(greedy, leafData, |sizes|, i - 1), greedy[i - 1], cnt[i], cnt[i - 1])
  }

  /** Every page but the last is filled as far as it goes. */
  ghost predicate GreedyPages(sizes: seq<nat>, leafData: bool, space: nat, cnt: seq<nat>)
  {
    InRange(cnt, |sizes|) && LastPage(sizes, leafData, space, cnt, |cnt|)
  }

  /** Moving the boundary by one cell. */
  lemma {:induction false} EvenStep(sizes: seq<nat>, leafData: bool, b: nat, e: nat)
    requires 0 < b < |sizes| && b <= e <= |sizes|
    ensures Prefix(sizes, b) == Prefix(sizes, b - 1) + 2 + sizes[b - 1]
    ensures RightOf(sizes, leafData, b - 1, e) == RightOf(sizes, leafData, b, e) + 2 + sizes[if leafData then b - 1 else b]
  {
  }

  /** One pair of siblings, left cells `st .. b0` and right cells up to `e`: move the boundary left
      while the left page stays the larger one. */
  method EvenPair(sizes: seq<nat>, leafData: bool, bulk: bool, space: nat, lastPair: bool, ghost st: nat, b0: nat,
          ghost e: nat, left0: int, right0: int)
    returns (b: nat, szLeft: int, szRight: int)
    requires SmallCells(sizes, leafData, space)
    requires st < b0 < |sizes| && b0 <= e <= |sizes|
    requires left0 == Prefix(sizes, b0) - Prefix(sizes, st) <= space
    requires right0 == RightOf(sizes, leafData, b0, e) <= space && 0 <= right0
    requires right0 == 0 ==> !leafData && left0 + 2 + sizes[b0] > space
    ensures st < b <= b0
    ensures szLeft == Prefix(sizes, b) - Prefix(sizes, st) <= space
    ensures szRight == RightOf(sizes, leafData, b, e) && 0 < szRight <= space
    ensures !bulk && b < b0 - 1 ==> szRight <= szLeft + 2
    ensures Evened(sizes, leafData, bulk, lastPair, st, b0, e, b)
  {
    hide Prefix, RightOf;
    b, szLeft, szRight := b0, left0, right0;
    var r: int := b - 1;
    var d: int := r + 1 - (if leafData then 1 else 0);
    while r >= 0
      invariant st < b <= b0 && r == b - 1 && d == r + 1 - (if leafData then 1 else 0)
      invariant szLeft == Prefix(sizes, b) - Prefix(sizes, st) <= space
      invariant szRight == RightOf(sizes, leafData, b, e) && 0 <= szRight <= space
      invariant szRight == 0 ==> b == b0 && !leafData && left0 + 2 + sizes[b0] > space
      invariant !bulk && b < b0 - 1 ==> szRight <= szLeft + 2
      invariant forall c :: b < c <= b0 ==> !Stops(sizes, leafData, bulk, lastPair, st, e, c)
      decreases r
    {
      EvenStep(sizes, leafData, b, e);
      if szRight != 0 && (bulk || szRight + sizes[d] + 2 > szLeft - (sizes[r] + (if lastPair then 0 else 2))) {
        break;
      }
      szRight := szRight + sizes[d] + 2;
      szLeft := szLeft - (sizes[r] + 2);
      b := r;
      r := r - 1;
      d := d - 1;
    }
  }

  /** Even out pages `i - 1` and `i`. */
  method Even(sizes: seq<nat>, leafData: bool, bulk: bool, space: nat, i: nat, k: nat, cnt: array<nat>, sz: array<int>)
    requires cnt.Length == NB + 2 && sz.Length == NB + 2
    requires 1 <= i < k <= NB + 2
    requires SmallCells(sizes, leafData, space)
    requires InRange(cnt[..], |sizes|)
    requires Adjusting(sizes, leafData, space, cnt[..], sz[..], k)
    requires NonEmpty(sizes, leafData, cnt[..], i - 1) && cnt[i - 1] < |sizes|
    requires sz[i] == 0 ==> !leafData && Full(sizes, leafData, space, cnt[..], i - 1)
    modifies cnt, sz
    ensures InRange(cnt[..], |sizes|)
    ensures Adjusting(sizes, leafData, space, cnt[..], sz[..], k)
    ensures cnt[..i - 1] == old(cnt[..i - 1]) && cnt[i..] == old(cnt[i..])
    ensures NonEmpty(sizes, leafData, cnt[..], i - 1) && NonEmpty(sizes, leafData, cnt[..], i)
    ensures sz[i - 1] != 0 && cnt[i - 1] < |sizes|
    ensures PairEvened(sizes, leafData, bulk, k, old(cnt[..]), cnt[..], i)
  {
    hide Evened;
    ghost var c0, s0 := cnt[..], sz[..];
    assert PageGood(sizes, leafData, space, c0, s0, i - 1) && PageGood(sizes, leafData, space, c0, s0, i);
    ghost var st := Start(c0, leafData, |sizes|, i - 1);
    PrefixGap(sizes, Start(c0, leafData, |sizes|, i), c0[i]);
    var b, szLeft, szRight := EvenPair(sizes, leafData, bulk, space, i == k - 1, st, cnt[i - 1], cnt[i], sz[i - 1], sz[i]);
    cnt[i - 1] := b;
    sz[i] := szRight;
    sz[i - 1] := szLeft;
    PrefixGap(sizes, st, b);
    PairReplaced(sizes, leafData, space, c0, s0, k, i, b, szLeft, szRight);
  }

  /** Replacing one boundary and the two sizes beside it leaves the rest as it was. */
  lemma {:induction false} PairReplaced(sizes: seq<nat>, leafData: bool, space: nat, cnt: seq<nat>, sz: seq<int>,
          k: nat, i: nat, b: nat, szLeft: int, szRight: int)
    requires 1 <= i < k <= |cnt| == |sz| && InRange(cnt, |sizes|)
    requires Adjusting(sizes, leafData, space, cnt, sz, k)
    requires Start(cnt, leafData, |sizes|, i - 1) < b <= cnt[i - 1] < |sizes|
    requires szLeft == Prefix(sizes, b) - Prefix(sizes, Start(cnt, leafData, |sizes|, i - 1)) <= space
    requires szRight == RightOf(sizes, leafData, b, cnt[i]) && 0 < szRight <= space
    ensures var c2, s2 := cnt[i - 1 := b], sz[i := szRight][i - 1 := szLeft];
            && InRange(c2, |sizes|) && Adjusting(sizes, leafData, space, c2, s2, k)
            && NonEmpty(sizes, leafData, c2, i - 1) && NonEmpty(sizes, leafData, c2, i)
  {
    var c2, s2 := cnt[i - 1 := b], sz[i := szRight][i - 1 := szLeft];
    assert InRange(c2, |sizes|);
    var t := Start(c2, leafData, |sizes|, i);
    if cnt[i] <= t { PrefixGap(sizes, cnt[i], t); }
    assert PageGood(sizes, leafData, space, c2, s2, i - 1);
    assert PageGood(sizes, leafData, space, c2, s2, i);
    forall j | 0 <= j < k && j != i - 1 && j != i
      ensures PageGood(sizes, leafData, space, c2, s2, j)
    {
      assert PageGood(sizes, leafData, space, cnt, sz, j);
      assert Start(c2, leafData, |sizes|, j) == Start(cnt, leafData, |sizes|, j);
    }
  }

  /** The second pass: even out neighbouring pages from right to left. */
  method EvenAll(sizes: seq<nat>, leafData: bool, bulk: bool, space: nat, k: nat, cnt: array<nat>, sz: array<int>)
    requires cnt.Length == NB + 2 && sz.Length == NB + 2
    requires 2 <= k <= NB + 2
    requires SmallCells(sizes, leafData, space)
    requires InRange(cnt[..], |sizes|)
    requires Adjusting(sizes, leafData, space, cnt[..], sz[..], k)
    requires Settled(sizes, leafData, space, cnt[..], k - 1)
    modifies cnt, sz
    ensures InRange(cnt[..], |sizes|)
    ensures Adjusting(sizes, leafData, space, cnt[..], sz[..], k)
    ensures forall j :: 0 <= j < k ==> NonEmpty(sizes, leafData, cnt[..], j)
    ensures EvenedFrom(sizes, leafData, bulk, old(cnt[..k]), cnt[..k])
  {
    hide Evened;
    ghost var g := cnt[..];
    var i := k - 1;
    assert Full(sizes, leafData, space, cnt[..], i - 1);
    assert PageGood(sizes, leafData, space, cnt[..], sz[..], i);
    PrefixGap(sizes, Start(cnt[..], leafData, |sizes|, i), cnt[i]);
    while i > 0
      invariant 0 <= i < k
      invariant InRange(cnt[..], |sizes|)
      invariant Adjusting(sizes, leafData, space, cnt[..], sz[..], k)
      invariant Settled(sizes, leafData, space, cnt[..], i)
      invariant sz[i] == 0 ==> i == k - 1 && !leafData
      invariant forall j :: (if i == k - 1 then k else i) <= j < k ==> NonEmpty(sizes, leafData, cnt[..], j)
      invariant cnt[..i] == g[..i] && cnt[k - 1] == g[k - 1]
      invariant forall j :: i < j < k ==> PairEvened(sizes, leafData, bulk, k, g, cnt[..], j)
    {
      assert Full(sizes, leafData, space, cnt[..], i - 1);
      assert NonEmpty(sizes, leafData, cnt[..], i - 1);
      ghost var c0 := cnt[..];
      Even(sizes, leafData, bulk, space, i, k, cnt, sz);
      SuffixKept(sizes, leafData, space, c0, cnt[..], i, k);
      PairsKept(sizes, leafData, bulk, k, g, c0, cnt[..], i);
      if cnt[i - 1] <= (if i > 1 then cnt[i - 2] else 0) {
        // SQLITE_CORRUPT: the left page has lost all its cells
        assert false;
      }
      i := i - 1;
    }
    EvenedInUse(sizes, leafData, bulk, k, g, cnt[..]);
  }

  /** Moving boundary `i - 1` leaves the pairs after it, and is itself one more. */
  lemma {:induction false} PairsKept(sizes: seq<nat>, leafData: bool, bulk: bool, k: nat, g: seq<nat>, c1: seq<nat>, c2: seq<nat>, i: nat)
    requires 1 <= i < k <= |g| == |c1| == |c2| && c1[..i] == g[..i] && c1[..i - 1] == c2[..i - 1] && c1[i..] == c2[i..]
    requires forall j :: i < j < k ==> PairEvened(sizes, leafData, bulk, k, g, c1, j)
    requires PairEvened(sizes, leafData, bulk, k, c1, c2, i)
    ensures forall j :: i <= j < k ==> PairEvened(sizes, leafData, bulk, k, g, c2, j)
    ensures c2[..i - 1] == g[..i - 1]
  {
    hide Evened;
    assert c1[i - 1] == c1[..i][i - 1] == g[..i][i - 1] == g[i - 1];
    if i > 1 { assert c1[i - 2] == c1[..i][i - 2] == g[..i][i - 2] == g[i - 2]; }
    forall j | i < j < k ensures PairEvened(sizes, leafData, bulk, k, g, c2, j) {
      assert PairEvened(sizes, leafData, bulk, k, g, c1, j);
      assert c2[j] == c2[i..][j - i] == c1[j] && c2[j - 1] == c2[i..][j - 1 - i] == c1[j - 1];
    }
    assert c2[..i - 1] == c1[..i][..i - 1];
  }

  /** Only the boundaries in use matter. */
  lemma {:induction false} EvenedInUse(sizes: seq<nat>, leafData: bool, bulk: bool, k: nat, g: seq<nat>, c: seq<nat>)
    requires 1 <= k <= |g| == |c| && c[k - 1] == g[k - 1]
    requires forall j :: 1 <= j < k ==> PairEvened(sizes, leafData, bulk, k, g, c, j)
    ensures EvenedFrom(sizes, leafData, bulk, g[..k], c[..k])
  {
    hide Evened;
    forall j | 1 <= j < k ensures PairEvened(sizes, leafData, bulk, k, g[..k], c[..k], j) {
      assert PairEvened(sizes, leafData, bulk, k, g, c, j);
    }
  }

  lemma {:induction false} SuffixKept(sizes: seq<nat>, leafData: bool, space: nat, c1: seq<nat>, c2: seq<nat>, i: nat, k: nat)
    requires 1 <= i < k <= |c1| == |c2| && InRange(c1, |sizes|) && InRange(c2, |sizes|)
    requires c1[..i - 1] == c2[..i - 1] && c1[i..] == c2[i..]
    requires Settled(sizes, leafData, space, c1, i)
    requires NonEmpty(sizes, leafData, c2, i - 1) && NonEmpty(sizes, leafData, c2, i)
    requires forall j :: i < j < k ==> NonEmpty(sizes, leafData, c1, j)
    ensures Settled(sizes, leafData, space, c2, i - 1)
    ensures forall j :: i - 1 <= j < k ==> NonEmpty(sizes, leafData, c2, j)
    ensures i > 1 ==> c2[i - 2] < c2[i - 1]
  {
    forall j | i < j < k
      ensures NonEmpty(sizes, leafData, c2, j)
    {
      assert NonEmpty(sizes, leafData, c1, j);
      assert c2[j] == c2[i..][j - i] == c1[j] && c2[j - 1] == c2[i..][j - 1 - i] == c1[j - 1];
    }
    forall j | 0 <= j < i - 1
      ensures Full(sizes, leafData, space, c2, j)
    {
      assert Full(sizes, leafData, space, c1, j);
      assert c2[j] == c2[..i - 1][j] == c1[j];
      if j > 0 { assert c2[j - 1] == c2[..i - 1][j - 1] == c1[j - 1]; }
    }
    if i > 1 {
      assert Full(sizes, leafData, space, c2, i - 2);
    }
  }

  /** Only the first `k` boundaries and sizes are in use. */
  lemma {:induction false} Trim(sizes: seq<nat>, leafData: bool, space: nat, cnt: seq<nat>, sz: seq<int>, k: nat)
    requires k <= |cnt| == |sz| && k <= NB + 2 && InRange(cnt, |sizes|)
    requires Adjusting(sizes, leafData, space, cnt, sz, k)
    requires k >= 2 ==> forall j :: 0 <= j < k ==> NonEmpty(sizes, leafData, cnt, j)
    ensures GoodPacking(sizes, leafData, space, cnt[..k], sz[..k])
  {
    var c, s := cnt[..k], sz[..k];
    assert InRange(c, |sizes|);
    forall j | 0 <= j < k
      ensures PageFits(sizes, leafData, space, c, j) && s[j] == PageSize(sizes, leafData, c, j)
      ensures k >= 2 ==> NonEmpty(sizes, leafData, c, j)
    {
      assert PageGood(sizes, leafData, space, cnt, sz, j);
      if k >= 2 { assert NonEmpty(sizes, leafData, cnt, j); }
    }
  }

  lemma {:induction false} LastPageAdjusting(sizes: seq<nat>, leafData: bool, space: nat, cnt: seq<nat>, sz: seq<int>, k: nat)
    requires k <= |cnt| == |sz| && InRange(cnt, |sizes|)
    requires LastPage(sizes, leafData, space, cnt, k) && Exact(sizes, leafData, cnt, sz, 0, k)
    ensures Adjusting(sizes, leafData, space, cnt, sz, k)
  {
    forall j | 0 <= j < k ensures PageGood(sizes, leafData, space, cnt, sz, j) {
      assert sz[j] == PageSize(sizes, leafData, cnt, j);
      if j < k - 1 { assert Full(sizes, leafData, space, cnt, j); }
    }
  }

  /** Start from the pages as they are. */
  method LoadOld(cntOld: seq<nat>, szOld: seq<int>, cnt: array<nat>, sz: array<int>)
    requires |cntOld| == |szOld| <= NB + 2 == cnt.Length == sz.Length
    requires forall j :: 0 <= j < NB + 2 ==> cnt[j] == 0
    modifies cnt, sz
    ensures forall j :: 0 <= j < NB + 2 ==> cnt[j] == if j < |cntOld| then cntOld[j] else 0
    ensures forall j :: 0 <= j < |cntOld| ==> sz[j] == szOld[j]
  {
    var i := 0;
    while i < |cntOld|
      invariant i <= |cntOld|
      invariant forall j :: 0 <= j < NB + 2 ==> cnt[j] == if j < i then cntOld[j] else 0
      invariant forall j :: 0 <= j < i ==> sz[j] == szOld[j]
    {
      cnt[i] := cntOld[i];
      sz[i] := szOld[i];
      i := i + 1;
    }
  }

  /** The greedy pass uses as few pages as can be. */
  lemma {:induction false} GreedyIsFewest(sizes: seq<nat>, leafData: bool, space: nat, cnt: seq<nat>, k: nat)
    requires k <= |cnt| && InRange(cnt, |sizes|) && LastPage(sizes, leafData, space, cnt, k)
    ensures Fewest(sizes, leafData, space, k)
  {
    hide PageSize;
    forall other: seq<nat> | Fits(sizes, leafData, space, other) ensures k <= |other| {
      if k >= 2 { GreedyStaysAhead(sizes, leafData, space, cnt, k - 2, other); }
    }
  }

  /** Two neighbours that fit on one page, with the divider between them, can be merged. */
  lemma {:induction false} MergedFits(sizes: seq<nat>, leafData: bool, space: nat, cnt: seq<nat>, i: nat)
    requires Fits(sizes, leafData, space, cnt) && i + 1 < |cnt|
    requires Prefix(sizes, cnt[i + 1]) - Prefix(sizes, Start(cnt, leafData, |sizes|, i)) <= space
    ensures Fits(sizes, leafData, space, cnt[..i] + cnt[i + 1..])
  {
    hide Prefix;
    var other := cnt[..i] + cnt[i + 1..];
    assert PageFits(sizes, leafData, space, cnt, i) && PageFits(sizes, leafData, space, cnt, i + 1);
    assert InRange(other, |sizes|);
    forall j | 0 <= j < |other| ensures PageFits(sizes, leafData, space, other, j) {
      if j < i {
        assert PageFits(sizes, leafData, space, cnt, j);
      } else if j > i {
        assert PageFits(sizes, leafData, space, cnt, j + 1);
      }
    }
  }

  /** With the fewest pages, no two neighbours and the divider between them fit on one page. */
  lemma {:induction false} NeighboursApart(sizes: seq<nat>, leafData: bool, space: nat, cnt: seq<nat>, i: nat)
    requires Fits(sizes, leafData, space, cnt) && Fewest(sizes, leafData, space, |cnt|) && i + 1 < |cnt|
    ensures Prefix(sizes, cnt[i + 1]) - Prefix(sizes, Start(cnt, leafData, |sizes|, i)) > space
  {
    hide Prefix, PageFits;
    if Prefix(sizes, cnt[i + 1]) - Prefix(sizes, Start(cnt, leafData, |sizes|, i)) <= space {
      MergedFits(sizes, leafData, space, cnt, i);
    }
  }

  /** Decide the new siblings.  The `SQLITE_CORRUPT` outcome is reported exactly when the cells
      cannot be cut, in order, into NB+2 pages; otherwise the packing is one to carry out, and no other
      has fewer pages. */
  method Pack(sizes: seq<nat>, leafData: bool, bulk: bool, space: nat, cntOld: seq<nat>, szOld: seq<int>)
    returns (ok: bool, cntNew: seq<nat>, szNew: seq<int>, ghost greedy: seq<nat>)
    requires SmallCells(sizes, leafData, space)
    requires OldPages(sizes, leafData, cntOld, szOld)
    ensures ok <==> Feasible(sizes, leafData, space)
    ensures ok ==> GoodPacking(sizes, leafData, space, cntNew, szNew)
    ensures !leafData && Prefix(sizes, |sizes|) <= (NB + 2) * space ==> ok
    ensures ok && !leafData ==> (|cntNew| - 1) * space <= Prefix(sizes, |sizes|)
    ensures ok ==> Fewest(sizes, leafData, space, |cntNew|)
    ensures ok ==> GreedyPages(sizes, leafData, space, greedy) && EvenedFrom(sizes, leafData, bulk, greedy, cntNew)
  {
    hide Prefix, Feasible, GoodPacking, SmallCells, Exact, InRange, Fewest, GreedyPages, EvenedFrom;
    cntNew, szNew, greedy := [], [], [];
    var cnt := new nat[NB + 2](i => 0);
    var sz := new int[NB + 2](i => 0);
    LoadOld(cntOld, szOld, cnt, sz);
    LoadedExact(sizes, leafData, cntOld, szOld, cnt[..], sz[..]);
    var k;
    ok, k := Greedy(sizes, leafData, space, |cntOld|, cnt, sz);
    if !ok { return; }
    LastPageAdjusting(sizes, leafData, space, cnt[..], sz[..], k);
    GreedyIsFewest(sizes, leafData, space, cnt[..], k);
    if !leafData { LastPageTotal(sizes, space, cnt[..], k); }
    greedy := cnt[..k];
    GreedyInUse(sizes, leafData, bulk, space, cnt[..], k);
    if k >= 2 {
      EvenAll(sizes, leafData, bulk, space, k, cnt, sz);
    }
    Trim(sizes, leafData, space, cnt[..], sz[..], k);
    cntNew, szNew := cnt[..k], sz[..k];
    GoodIsFeasible(sizes, leafData, space, cntNew, szNew);
  }

  lemma {:induction false} GreedyInUse(sizes: seq<nat>, leafData: bool, bulk: bool, space: nat, cnt: seq<nat>, k: nat)
    requires k <= |cnt| && InRange(cnt, |sizes|) && LastPage(sizes, leafData, space, cnt, k)
    ensures GreedyPages(sizes, leafData, space, cnt[..k])
    ensures k == 1 ==> EvenedFrom(sizes, leafData, bulk, cnt[..k], cnt[..k])
  {
    assert InRange(cnt[..k], |sizes|);
    forall j | 0 <= j < k - 1 ensures Full(sizes, leafData, space, cnt[..k], j) { assert Full(sizes, leafData, space, cnt, j); }
  }

  lemma {:induction false} GoodIsFeasible(sizes: seq<nat>, leafData: bool, space: nat, cnt: seq<nat>, sz: seq<int>)
    requires GoodPacking(sizes, leafData, space, cnt, sz)
    ensures Feasible(sizes, leafData, space)
  {
  }

  lemma {:induction false} LoadedExact(sizes: seq<nat>, leafData: bool, cntOld: seq<nat>, szOld: seq<int>, cnt: seq<nat>, sz: seq<int>)
    requires OldPages(sizes, leafData, cntOld, szOld)
    requires |cnt| == |sz| == NB + 2
    requires forall j :: 0 <= j < NB + 2 ==> cnt[j] == if j < |cntOld| then cntOld[j] else 0
    requires forall j :: 0 <= j < |cntOld| ==> sz[j] == szOld[j]
    ensures InRange(cnt, |sizes|) && Exact(sizes, leafData, cnt, sz, 0, |cntOld|)
  {
    forall j | 0 <= j < |cntOld| ensures sz[j] == PageSize(sizes, leafData, cnt, j) {
      assert szOld[j] == PageSize(sizes, leafData, cntOld, j);
    }
  }
}
