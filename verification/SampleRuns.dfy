/** Which runs of equal prefixes the retained samples stand for: every run that has ended contains a
    sample kept for it or for a shorter prefix, or comes after the least preferred of the samples. */
module SampleRuns {
  import opened IndexScan
  import opened Samples

  /** What preference looks at first: the number of rows, then the column. */
  datatype Weight = Weight(n: nat, c: nat)

  predicate Above(v: Weight, w: Weight)
  {
    v.n > w.n || (v.n == w.n && v.c < w.c)
  }

  function WeightOf(x: Sample): Weight
  {
    if x.iCol < |x.anEq| then Weight(x.anEq[x.iCol], x.iCol) else Weight(0, 0)
  }

  /** The run of row `r` in column `k`. */
  function RunWeight(rows: seq<Row>, r: nat, k: nat): Weight
    requires r < |rows|
  {
    Weight(Stop(rows, r, k) - Start(rows, r, k), k)
  }

  /** The row of the sample is in the run, and the sample is periodic or kept for a run that contains it. */
  ghost predicate Meets(rows: seq<Row>, x: Sample, r: nat, k: nat)
    requires r < |rows|
  {
    Start(rows, r, k) <= RowOf(x) < Stop(rows, r, k) && (x.isP || x.iCol <= k)
  }

  ghost predicate RunMet(rows: seq<Row>, a: seq<Sample>, low: bool, w: Weight, r: nat, k: nat)
    requires r < |rows|
  {
    || (exists p :: 0 <= p < |a| && Meets(rows, a[p], r, k))
    || (low && !Above(RunWeight(rows, r, k), w))
  }

  /** The run has ended; those of columns from `lim` on end with the last row. */
  ghost predicate RunDone(rows: seq<Row>, r: nat, k: nat, lim: nat)
    requires r < |rows|
  {
    Stop(rows, r, k) < |rows| || k >= lim
  }

  /** Every run that has ended is met by a sample, or weighs no more than `w`. */
  ghost predicate Found(rows: seq<Row>, nCol: nat, a: seq<Sample>, low: bool, w: Weight, lim: nat)
  {
    forall r: nat, k: nat :: r < |rows| && k + 1 < nCol && RunDone(rows, r, k, lim) ==> RunMet(rows, a, low, w, r, k)
  }

  /** No sample that may be dropped weighs less than `w`. */
  ghost predicate NoneBelow(a: seq<Sample>, w: Weight)
  {
    forall p :: 0 <= p < |a| && !a[p].isP ==> !Above(w, WeightOf(a[p]))
  }

  // ------------------------------------------------------------------ weights

  /** The run of a column contains that of every later column. */
  lemma {:induction false} WiderRun(rows: seq<Row>, x: nat, r: nat, c: nat, k: nat)
    requires r < |rows| && x < |rows| && c <= k && Start(rows, r, k) <= x < Stop(rows, r, k)
    ensures Stop(rows, r, k) - Start(rows, r, k) <= Stop(rows, x, c) - Start(rows, x, c)
  {
    SameRunBounds(rows, r, x, k);
    StartsNest(rows, x, c, k);
    StopsNest(rows, x, c, k);
  }

  /** Rows of one run have the same bounds. */
  lemma {:induction false} SameRunBounds(rows: seq<Row>, r: nat, x: nat, k: nat)
    requires r < |rows| && x < |rows| && Start(rows, r, k) <= x < Stop(rows, r, k)
    ensures Start(rows, x, k) == Start(rows, r, k) && Stop(rows, x, k) == Stop(rows, r, k)
  {
    if x < r {
      SameRun(rows, x, r, k);
      StopStart(rows, x, r, k);
      SameStop(rows, x, r, k);
    } else if r < x {
      StopStart(rows, r, x, k);
      SameRun(rows, r, x, k);
      SameStop(rows, r, x, k);
    }
  }

  lemma {:induction false} SameStop(rows: seq<Row>, s: nat, r: nat, k: nat)
    requires s <= r < |rows| && r < Stop(rows, s, k)
    ensures Stop(rows, r, k) == Stop(rows, s, k)
    decreases r - s
  {
    if s < r { SameStop(rows, s + 1, r, k); }
  }

  /** The count of a retained sample in its own column is the length of that run. */
  lemma {:induction false} OwnCount(rows: seq<Row>, ids: seq<int>, nCol: nat, x: Sample, lim: nat)
    requires Kept(rows, ids, nCol, x, lim) && !x.isP
    ensures x.iCol < nCol == |x.anEq| && RowOf(x) < |rows| && WeightOf(x) == RunWeight(rows, RowOf(x), x.iCol)
  {
    assert EqOk(rows, x, x.iCol, lim);
  }

  // ------------------------------------------------------------------ changes to the samples

  /** Once the weight is that of a sample, later samples only raise it. */
  lemma {:induction false} FoundRaised(rows: seq<Row>, nCol: nat, a: seq<Sample>, low: bool, w: Weight, low': bool, w': Weight, lim: nat)
    requires Found(rows, nCol, a, low, w, lim) && (low ==> low' && !Above(w, w'))
    ensures Found(rows, nCol, a, low', w', lim)
  {
    forall r: nat, k: nat | r < |rows| && k + 1 < nCol && RunDone(rows, r, k, lim) ensures RunMet(rows, a, low', w', r, k) {
      assert RunMet(rows, a, low, w, r, k);
    }
  }

  /** The least preferred sample is dropped: the runs it stood for weigh no more than it did. */
  lemma {:induction false} FoundDropped(rows: seq<Row>, ids: seq<int>, nCol: nat, a: seq<Sample>, m: nat, lim: nat)
    requires AllKept(rows, ids, nCol, a, lim) && m < |a| && !a[m].isP && Found(rows, nCol, a, true, WeightOf(a[m]), lim)
    ensures Found(rows, nCol, Dropped(a, m), true, WeightOf(a[m]), lim)
  {
    var b, w := Dropped(a, m), WeightOf(a[m]);
    forall r: nat, k: nat | r < |rows| && k + 1 < nCol && RunDone(rows, r, k, lim) ensures RunMet(rows, b, true, w, r, k) {
      assert RunMet(rows, a, true, w, r, k);
      if Above(RunWeight(rows, r, k), w) {
        var p :| 0 <= p < |a| && Meets(rows, a[p], r, k);
        if p == m {
          assert Kept(rows, ids, nCol, a[m], lim);
          OwnCount(rows, ids, nCol, a[m], lim);
          WiderRun(rows, RowOf(a[m]), r, a[m].iCol, k);
        } else {
          assert Meets(rows, b[if p < m then p else p - 1], r, k);
        }
      }
    }
  }

  lemma {:induction false} FoundAppended(rows: seq<Row>, nCol: nat, a: seq<Sample>, y: Sample, low: bool, w: Weight, lim: nat)
    requires Found(rows, nCol, a, low, w, lim)
    ensures Found(rows, nCol, a + [y], low, w, lim)
  {
    var b := a + [y];
    forall r: nat, k: nat | r < |rows| && k + 1 < nCol && RunDone(rows, r, k, lim) ensures RunMet(rows, b, low, w, r, k) {
      assert RunMet(rows, a, low, w, r, k);
      if p :| 0 <= p < |a| && Meets(rows, a[p], r, k) { assert Meets(rows, b[p], r, k); }
    }
  }

  /** The samples keep their rows, and none is kept for a later column than before. */
  ghost predicate NoLater(a: seq<Sample>, b: seq<Sample>)
  {
    |a| == |b| && forall p :: 0 <= p < |a| ==> RowOf(b[p]) == RowOf(a[p]) && b[p].isP == a[p].isP && b[p].iCol <= a[p].iCol
  }

  lemma {:induction false} FoundUpdated(rows: seq<Row>, nCol: nat, a: seq<Sample>, b: seq<Sample>, low: bool, w: Weight, lim: nat)
    requires Found(rows, nCol, a, low, w, lim) && NoLater(a, b)
    ensures Found(rows, nCol, b, low, w, lim)
  {
    forall r: nat, k: nat | r < |rows| && k + 1 < nCol && RunDone(rows, r, k, lim) ensures RunMet(rows, b, low, w, r, k) {
      assert RunMet(rows, a, low, w, r, k);
      if p :| 0 <= p < |a| && Meets(rows, a[p], r, k) { assert Meets(rows, b[p], r, k); }
    }
  }

  /** The current run of column `i` is met, or weighs no more than `w`; then so are all runs from that
      column on. */
  lemma {:induction false} FoundOneMore(rows: seq<Row>, nCol: nat, a: seq<Sample>, low: bool, w: Weight, i: nat)
    requires Found(rows, nCol, a, low, w, i + 1) && rows != [] && RunMet(rows, a, low, w, |rows| - 1, i)
    ensures Found(rows, nCol, a, low, w, i)
  {
    forall r: nat, k: nat | r < |rows| && k + 1 < nCol && RunDone(rows, r, k, i) ensures RunMet(rows, a, low, w, r, k) {
      if RunDone(rows, r, k, i + 1) {
        assert RunMet(rows, a, low, w, r, k);
      } else {
        StopAtEnd(rows, r, k);
        StopAtEnd(rows, |rows| - 1, k);
        if p :| 0 <= p < |a| && Meets(rows, a[p], |rows| - 1, i) { assert Meets(rows, a[p], r, k); }
      }
    }
  }

  /** The next row of the scan ends the runs of the columns that change. */
  lemma {:induction false} FoundNextRow(rows: seq<Row>, nCol: nat, a: seq<Sample>, low: bool, w: Weight, row: Row, iChng: nat)
    requires Found(rows, nCol, a, low, w, iChng) && rows != [] && iChng == Chng(rows + [row], |rows|)
    ensures Found(rows + [row], nCol, a, low, w, nCol)
  {
    var rows', n := rows + [row], |rows|;
    forall r: nat, k: nat | r < |rows'| && k + 1 < nCol && RunDone(rows', r, k, nCol) ensures RunMet(rows', a, low, w, r, k) {
      if r < n {
        StopAppend(rows, row, r, k);
        StartAppend(rows, row, r, k);
        assert RunDone(rows, r, k, iChng) && RunMet(rows, a, low, w, r, k);
        if p :| 0 <= p < |a| && Meets(rows, a[p], r, k) { assert Meets(rows', a[p], r, k); }
      }
    }
  }

  /** The run of row `r` in column `k` has a sample. */
  ghost predicate Sampled(rows: seq<Row>, a: seq<Sample>, r: nat, k: nat)
    requires r < |rows|
  {
    exists p :: 0 <= p < |a| && InRun(rows, a[p], r, k)
  }

  ghost predicate InRun(rows: seq<Row>, x: Sample, r: nat, k: nat)
    requires r < |rows|
  {
    Start(rows, r, k) <= RowOf(x) < Stop(rows, r, k)
  }

  /** In the last column but one there is nothing to wait for. */
  lemma {:induction false} FoundLast(rows: seq<Row>, nCol: nat, a: seq<Sample>, low: bool, w: Weight)
    requires nCol > 0 && Found(rows, nCol, a, low, w, nCol)
    ensures Found(rows, nCol, a, low, w, nCol - 1)
  {
    forall r: nat, k: nat | r < |rows| && k + 1 < nCol && RunDone(rows, r, k, nCol - 1) ensures RunMet(rows, a, low, w, r, k) {
      assert RunDone(rows, r, k, nCol);
    }
  }

  /** A sample whose count in column `i` is not known yet lies in the current run of that column. */
  lemma {:induction false} WaitingInRun(rows: seq<Row>, ids: seq<int>, nCol: nat, x: Sample, i: nat)
    requires Kept(rows, ids, nCol, x, i + 1) && i < |x.anEq| && x.anEq[i] == 0
    ensures rows != [] && InRun(rows, x, |rows| - 1, i)
  {
    assert EqOk(rows, x, i, i + 1);
    StopAtEnd(rows, RowOf(x), i);
    StopAtEnd(rows, |rows| - 1, i);
  }

  /** A periodic sample that waits for column `i` stands for the current run. */
  lemma {:induction false} WaitingMeets(rows: seq<Row>, ids: seq<int>, nCol: nat, a: seq<Sample>, p: nat, i: nat, low: bool, w: Weight)
    requires AllKept(rows, ids, nCol, a, i + 1) && p < |a| && a[p].isP && i < |a[p].anEq| && a[p].anEq[i] == 0
    ensures rows != [] && Sampled(rows, a, |rows| - 1, i) && RunMet(rows, a, low, w, |rows| - 1, i)
  {
    assert Kept(rows, ids, nCol, a[p], i + 1);
    WaitingInRun(rows, ids, nCol, a[p], i);
    assert Meets(rows, a[p], |rows| - 1, i);
  }

  /** An upgraded sample stands for the current run of column `i`, and no worse for the runs it stood for. */
  lemma {:induction false} UpgradeFound(rows: seq<Row>, ids: seq<int>, nCol: nat, a: seq<Sample>, u: nat, b: Sample,
          i: nat, low: bool, w: Weight)
    requires AllKept(rows, ids, nCol, a, i + 1) && Ready(rows, ids, nCol, b, i) && u < |a| && !a[u].isP
    requires |a[u].anEq| == nCol && i < nCol && a[u].anEq[i] == 0 && i < |b.anEq|
    requires Found(rows, nCol, a, low, w, i + 1)
    ensures var a' := a[u := Upgraded(a[u], b, i)];
      rows != [] && Found(rows, nCol, a', low, w, i) && Sampled(rows, a', |rows| - 1, i)
  {
    var a' := a[u := Upgraded(a[u], b, i)];
    assert Kept(rows, ids, nCol, a[u], i + 1);
    NewBeatsOld(rows, ids, nCol, b, a[u], i);
    WaitingInRun(rows, ids, nCol, a[u], i);
    FoundUpdated(rows, nCol, a, a', low, w, i + 1);
    assert Meets(rows, a'[u], |rows| - 1, i) && InRun(rows, a'[u], |rows| - 1, i);
    FoundOneMore(rows, nCol, a', low, w, i);
  }

  /** The candidate for column `i`, appended, stands for the current run of that column. */
  lemma {:induction false} AddFound(rows: seq<Row>, ids: seq<int>, nCol: nat, a: seq<Sample>, b: Sample, i: nat, low: bool, w: Weight)
    requires Ready(rows, ids, nCol, b, i) && Found(rows, nCol, a, low, w, i + 1)
    ensures rows != [] && Found(rows, nCol, a + [Zeroed(b, i)], low, w, i) && Sampled(rows, a + [Zeroed(b, i)], |rows| - 1, i)
  {
    var y := Zeroed(b, i);
    var a' := a + [y];
    StopAtEnd(rows, |rows| - 1, i);
    FoundAppended(rows, nCol, a, y, low, w, i + 1);
    assert Meets(rows, a'[|a|], |rows| - 1, i) && InRun(rows, a'[|a|], |rows| - 1, i);
    FoundOneMore(rows, nCol, a', low, w, i);
  }

  lemma {:induction false} ZeroedWeight(b: Sample, i: nat, x: Sample)
    requires |b.anEq| == |x.anEq| && b.iCol == i < |b.anEq| && x.iCol < |x.anEq| && Better(b, x)
    ensures !Above(WeightOf(x), WeightOf(Zeroed(b, i)))
  {
  }

  lemma {:induction false} NoneBelowAppended(a: seq<Sample>, y: Sample, w: Weight)
    requires y.isP || !Above(w, WeightOf(y))
    ensures NoneBelow(a, w) ==> NoneBelow(a + [y], w)
  {
  }

  /** The candidate does not beat `x`, so the current run weighs no more. */
  lemma {:induction false} LighterRun(rows: seq<Row>, ids: seq<int>, nCol: nat, c: Sample, b: Sample, i: nat, a: seq<Sample>, x: Sample)
    requires CurOk(rows, ids, nCol, c) && |b.anEq| == |x.anEq| == nCol && b.iCol == i && i + 1 < nCol && x.iCol < nCol
    requires b.anEq[i] == c.anEq[i] && !Better(b, x)
    ensures rows != [] && RunMet(rows, a, true, WeightOf(x), |rows| - 1, i)
  {
    assert Full(rows, c, i);
  }

  // ------------------------------------------------------------------ the best candidate

  /** Row `r` as a candidate when it was scanned: its runs as far as they went then. */
  ghost function Seen(rows: seq<Row>, hashes: seq<nat>, nCol: nat, r: nat): (x: Sample)
    requires r < |rows| == |hashes|
    ensures |x.anEq| == nCol
  {
    Sample(seq(nCol, k requires 0 <= k < nCol => r + 1 - Start(rows, r, k)), [], [], 0, false, 0, hashes[r])
  }

  /** No row of the current run of column `i` was better than the candidate `b`. */
  ghost predicate BestOf(rows: seq<Row>, hashes: seq<nat>, nCol: nat, b: Sample, i: nat)
    requires 0 < |rows| == |hashes|
  {
    && |b.anEq| == nCol && RowOf(b) < |rows| && b.hash == hashes[RowOf(b)]
    && forall r :: Start(rows, |rows| - 1, i) <= r < |rows| ==> !BetterPost(Seen(rows, hashes, nCol, r), b, i + 1)
  }

  ghost predicate AllBestOf(rows: seq<Row>, hashes: seq<nat>, nCol: nat, best: seq<Sample>)
    requires 0 < |rows| == |hashes|
  {
    forall i :: 0 <= i < |best| ==> BestOf(rows, hashes, nCol, best[i], i)
  }

  lemma {:induction false} PostSame(x: Sample, y: Sample, b: Sample, i: nat)
    requires |x.anEq| == |y.anEq| == |b.anEq| && x.hash == y.hash && forall k :: i <= k < |x.anEq| ==> x.anEq[k] == y.anEq[k]
    ensures BetterPost(x, b, i) == BetterPost(y, b, i) && BetterPost(b, x, i) == BetterPost(b, y, i)
    decreases |x.anEq| - i
  {
    if i < |x.anEq| { PostSame(x, y, b, i + 1); }
  }

  /** The current row is seen as it is. */
  lemma {:induction false} SeenNow(rows: seq<Row>, ids: seq<int>, hashes: seq<nat>, nCol: nat, c: Sample)
    requires CurOk(rows, ids, nCol, c) && |hashes| == |rows| && c.hash == hashes[|rows| - 1]
    ensures rows != [] && |c.anEq| == nCol && Seen(rows, hashes, nCol, |rows| - 1).anEq == c.anEq
    ensures Seen(rows, hashes, nCol, |rows| - 1).hash == c.hash
  {
    forall k | 0 <= k < nCol ensures c.anEq[k] == |rows| - Start(rows, |rows| - 1, k) { assert Full(rows, c, k); }
  }

  lemma {:induction false} SeenBefore(rows: seq<Row>, hashes: seq<nat>, nCol: nat, row: Row, h: nat, r: nat)
    requires r < |rows| == |hashes|
    ensures Seen(rows + [row], hashes + [h], nCol, r) == Seen(rows, hashes, nCol, r)
  {
    forall k | 0 <= k < nCol ensures Start(rows + [row], r, k) == Start(rows, r, k) { StartAppend(rows, row, r, k); }
  }

  /** The run of a column that does not change goes on. */
  lemma {:induction false} RunGoesOn(rows: seq<Row>, row: Row, i: nat)
    requires rows != [] && i < Chng(rows + [row], |rows|)
    ensures Start(rows + [row], |rows|, i) == Start(rows, |rows| - 1, i)
  {
    StartAppend(rows, row, |rows| - 1, i);
  }

  /** The candidate stays unless the new row is better. */
  lemma {:induction false} BestOfStays(rows: seq<Row>, ids: seq<int>, hashes: seq<nat>, nCol: nat, b: Sample,
          c: Sample, i: nat, row: Row, id: int, h: nat)
    requires 0 < |rows| == |hashes| && BestOf(rows, hashes, nCol, b, i) && i < Chng(rows + [row], |rows|)
    requires CurOk(rows + [row], ids + [id], nCol, c) && c.hash == h && |c.anEq| == |b.anEq| && !BetterPost(c, b, i + 1)
    ensures BestOf(rows + [row], hashes + [h], nCol, b, i)
  {
    hide CurOk, BetterPost, Seen;
    var rows', hashes', n := rows + [row], hashes + [h], |rows|;
    RunGoesOn(rows, row, i);
    SeenNow(rows', ids + [id], hashes', nCol, c);
    forall r | Start(rows', n, i) <= r < n + 1 ensures !BetterPost(Seen(rows', hashes', nCol, r), b, i + 1) {
      if r < n { SeenBefore(rows, hashes, nCol, row, h, r); } else { PostSame(Seen(rows', hashes', nCol, n), c, b, i + 1); }
    }
  }

  /** A row that is better than the candidate, or starts a new run, takes its place. */
  lemma {:induction false} BestOfNew(rows: seq<Row>, ids: seq<int>, hashes: seq<nat>, nCol: nat, b: Sample, c: Sample,
          i: nat, row: Row, id: int, h: nat)
    requires |rows| == |hashes| && CurOk(rows + [row], ids + [id], nCol, c) && c.hash == h
    requires rows != [] && i < Chng(rows + [row], |rows|) ==>
      BestOf(rows, hashes, nCol, b, i) && |c.anEq| == |b.anEq| && BetterPost(c, b, i + 1)
    ensures BestOf(rows + [row], hashes + [h], nCol, c, i)
  {
    hide CurOk, BetterPost, Seen;
    var rows', hashes', n := rows + [row], hashes + [h], |rows|;
    SeenNow(rows', ids + [id], hashes', nCol, c);
    CurIsLast(rows', ids + [id], nCol, c);
    forall r | Start(rows', n, i) <= r < n + 1 ensures !BetterPost(Seen(rows', hashes', nCol, r), c, i + 1) {
      var x := Seen(rows', hashes', nCol, r);
      if r == n {
        PostSame(x, c, c, i + 1);
        NotPostSelf(c, i + 1);
      } else {
        RunGoesOn(rows, row, i);
        SeenBefore(rows, hashes, nCol, row, h, r);
        if BetterPost(x, c, i + 1) { PostTransitive(x, c, b, i + 1); }
      }
    }
  }

  lemma {:induction false} CurIsLast(rows: seq<Row>, ids: seq<int>, nCol: nat, c: Sample)
    requires CurOk(rows, ids, nCol, c)
    ensures rows != [] && RowOf(c) == |rows| - 1
  {
  }

  lemma {:induction false} NotPostSelf(x: Sample, i: nat)
    ensures !BetterPost(x, x, i)
    decreases |x.anEq| - i
  {
    if i < |x.anEq| { NotPostSelf(x, i + 1); }
  }

  /** Completing the count of the candidate's own column does not matter. */
  lemma {:induction false} BestOfCompleted(rows: seq<Row>, hashes: seq<nat>, nCol: nat, b: Sample, i: nat, n: nat)
    requires 0 < |rows| == |hashes| && BestOf(rows, hashes, nCol, b, i) && i < nCol
    ensures BestOf(rows, hashes, nCol, b.(anEq := b.anEq[i := n]), i)
  {
    hide BetterPost, Seen;
    var d := b.(anEq := b.anEq[i := n]);
    forall r | Start(rows, |rows| - 1, i) <= r < |rows| ensures !BetterPost(Seen(rows, hashes, nCol, r), d, i + 1) {
      PostSame(b, d, Seen(rows, hashes, nCol, r), i + 1);
    }
  }
}
