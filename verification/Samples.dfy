/** The samples kept by the ANALYZE accumulator (struct Stat4Sample in analyze.c), the order of
    preference among them, and when their counts are right. */
module Samples {
  import opened IndexScan

  datatype Sample = Sample(anEq: seq<nat>, anLt: seq<nat>, anDLt: seq<nat>, rowid: int, isP: bool, iCol: nat, hash: nat)

  // ------------------------------------------------------------------ preference

  /** sampleIsBetterPost from column `i` on. */
  predicate BetterPost(x: Sample, y: Sample, i: nat)
    requires |x.anEq| == |y.anEq|
    decreases |x.anEq| - i
  {
    if i >= |x.anEq| then x.hash > y.hash
    else x.anEq[i] > y.anEq[i] || (x.anEq[i] == y.anEq[i] && BetterPost(x, y, i + 1))
  }

  /** The part of the preference that does not look past column iCol. */
  predicate BetterFirst(x: Sample, y: Sample)
    requires x.iCol < |x.anEq| && y.iCol < |y.anEq|
  {
    x.anEq[x.iCol] > y.anEq[y.iCol] || (x.anEq[x.iCol] == y.anEq[y.iCol] && x.iCol < y.iCol)
  }

  /** sampleIsBetter. */
  predicate Better(x: Sample, y: Sample)
    requires |x.anEq| == |y.anEq| && x.iCol < |x.anEq| && y.iCol < |y.anEq|
  {
    || BetterFirst(x, y)
    || (x.anEq[x.iCol] == y.anEq[y.iCol] && x.iCol == y.iCol && BetterPost(x, y, x.iCol + 1))
  }

  lemma {:induction false} PostTransitive(x: Sample, y: Sample, z: Sample, i: nat)
    requires |x.anEq| == |y.anEq| == |z.anEq|
    requires BetterPost(x, y, i) && BetterPost(y, z, i)
    ensures BetterPost(x, z, i)
    decreases |x.anEq| - i
  {
    if i < |x.anEq| && x.anEq[i] == y.anEq[i] == z.anEq[i] { PostTransitive(x, y, z, i + 1); }
  }

  /** Preference is transitive, so a linear search finds a least preferred sample. */
  lemma {:induction false} BetterTransitive(x: Sample, y: Sample, z: Sample)
    requires |x.anEq| == |y.anEq| == |z.anEq| && x.iCol < |x.anEq| && y.iCol < |y.anEq| && z.iCol < |z.anEq|
    requires Better(x, y) && Better(y, z)
    ensures Better(x, z)
  {
    if x.anEq[x.iCol] == y.anEq[y.iCol] == z.anEq[z.iCol] && x.iCol == y.iCol == z.iCol {
      PostTransitive(x, y, z, x.iCol + 1);
    }
  }

  // ------------------------------------------------------------------ counts

  function RowOf(x: Sample): nat
  {
    if x.anLt == [] then 0 else x.anLt[|x.anLt| - 1]
  }

  /** nLt and nDLt of the sample are those of its row in column `k`. */
  ghost predicate LtOk(rows: seq<Row>, x: Sample, k: nat)
    requires k < |x.anLt| == |x.anDLt| && RowOf(x) < |rows|
  {
    x.anLt[k] == Start(rows, RowOf(x), k) && x.anDLt[k] == Steps(rows, RowOf(x), k)
  }

  ghost predicate Placed(rows: seq<Row>, ids: seq<int>, nCol: nat, x: Sample)
  {
    && nCol > 0 && |x.anEq| == |x.anLt| == |x.anDLt| == nCol && |ids| == |rows|
    && RowOf(x) < |rows| && x.rowid == ids[RowOf(x)]
    && forall k :: 0 <= k < nCol ==> LtOk(rows, x, k)
  }

  /** nEq in column `k` is the length of the run, as far as it has been scanned. */
  ghost predicate Full(rows: seq<Row>, x: Sample, k: nat)
    requires k < |x.anEq| && RowOf(x) < |rows|
  {
    x.anEq[k] == Stop(rows, RowOf(x), k) - Start(rows, RowOf(x), k)
  }

  /** The run in column `k` has not ended yet.  (In the last column every row is a run.) */
  ghost predicate Open(rows: seq<Row>, x: Sample, k: nat)
    requires RowOf(x) < |rows|
  {
    k + 1 < |x.anEq| && Stop(rows, RowOf(x), k) == |rows|
  }

  /** A zero stands for a count not yet known; columns from `lim` on may have been filled in. */
  ghost predicate EqOk(rows: seq<Row>, x: Sample, k: nat, lim: nat)
    requires k < |x.anEq| && RowOf(x) < |rows|
  {
    if Open(rows, x, k) then x.anEq[k] == 0 || (k >= lim && Full(rows, x, k)) else Full(rows, x, k)
  }

  /** A retained sample. */
  ghost predicate Kept(rows: seq<Row>, ids: seq<int>, nCol: nat, x: Sample, lim: nat)
  {
    && Placed(rows, ids, nCol, x)
    && (forall k :: 0 <= k < nCol ==> EqOk(rows, x, k, lim))
    && (!x.isP ==> x.iCol + 1 < nCol && x.anEq[x.iCol] > 0)
  }

  ghost predicate AllKept(rows: seq<Row>, ids: seq<int>, nCol: nat, a: seq<Sample>, lim: nat)
  {
    && (forall p :: 0 <= p < |a| ==> Kept(rows, ids, nCol, a[p], lim))
    && (forall p, q :: 0 <= p < q < |a| ==> RowOf(a[p]) < RowOf(a[q]))
  }

  /** Every count of the sample is that of its row in the whole scan. */
  ghost predicate Exact(rows: seq<Row>, ids: seq<int>, nCol: nat, x: Sample)
  {
    Placed(rows, ids, nCol, x) && forall k :: 0 <= k < nCol ==> Full(rows, x, k)
  }

  // ------------------------------------------------------------------ runs and appended rows

  lemma {:induction false} StopAtEnd(rows: seq<Row>, r: nat, k: nat)
    requires r < |rows|
    ensures Stop(rows, r, k) == |rows| <==> Start(rows, |rows| - 1, k) <= r
    ensures Stop(rows, r, k) == |rows| ==> Start(rows, r, k) == Start(rows, |rows| - 1, k)
  {
    if r < |rows| - 1 { StopStart(rows, r, |rows| - 1, k); }
    if Start(rows, |rows| - 1, k) <= r { SameRun(rows, r, |rows| - 1, k); }
  }

  lemma {:induction false} StartsNest(rows: seq<Row>, r: nat, j: nat, k: nat)
    requires r < |rows| && j <= k
    ensures Start(rows, r, j) <= Start(rows, r, k)
    decreases r
  {
    if r > 0 && Chng(rows, r) > k { StartsNest(rows, r - 1, j, k); }
  }

  lemma {:induction false} StopsNest(rows: seq<Row>, r: nat, j: nat, k: nat)
    requires r < |rows| && j <= k
    ensures Stop(rows, r, k) <= Stop(rows, r, j)
    decreases |rows| - r
  {
    if r + 1 < |rows| && Chng(rows, r + 1) > k { StopsNest(rows, r + 1, j, k); }
  }

  lemma {:induction false} StartAppend(rows: seq<Row>, row: Row, r: nat, k: nat)
    requires r < |rows|
    ensures Start(rows + [row], r, k) == Start(rows, r, k) && Steps(rows + [row], r, k) == Steps(rows, r, k)
    decreases r
  {
    if r > 0 {
      StartAppend(rows, row, r - 1, k);
      assert (rows + [row])[r] == rows[r] && (rows + [row])[r - 1] == rows[r - 1];
    }
  }

  lemma {:induction false} StopAppend(rows: seq<Row>, row: Row, r: nat, k: nat)
    requires r < |rows|
    ensures Stop(rows + [row], r, k) ==
      if Stop(rows, r, k) < |rows| || Chng(rows + [row], |rows|) <= k then Stop(rows, r, k) else |rows| + 1
    decreases |rows| - r
  {
    if r + 1 < |rows| {
      StopAppend(rows, row, r + 1, k);
      assert (rows + [row])[r] == rows[r] && (rows + [row])[r + 1] == rows[r + 1];
    }
  }

  /** A sample stays where it is when another row is scanned. */
  lemma {:induction false} PlacedAppend(rows: seq<Row>, ids: seq<int>, nCol: nat, x: Sample, row: Row, id: int)
    requires Placed(rows, ids, nCol, x)
    ensures Placed(rows + [row], ids + [id], nCol, x)
  {
    forall k | 0 <= k < nCol ensures LtOk(rows + [row], x, k) {
      assert LtOk(rows, x, k);
      StartAppend(rows, row, RowOf(x), k);
    }
  }

  /** Once the counts of the columns that change are filled in, the next row may be scanned. */
  lemma {:induction false} KeptAppend(rows: seq<Row>, ids: seq<int>, nCol: nat, x: Sample, row: Row, id: int)
    requires Kept(rows, ids, nCol, x, 0) && Chng(rows + [row], |rows|) < nCol
    requires forall k :: Chng(rows + [row], |rows|) <= k < nCol ==> x.anEq[k] > 0
    requires forall k :: 0 <= k < Chng(rows + [row], |rows|) && Open(rows, x, k) ==> x.anEq[k] == 0
    ensures Kept(rows + [row], ids + [id], nCol, x, nCol)
  {
    var rows' := rows + [row];
    PlacedAppend(rows, ids, nCol, x, row, id);
    forall k | 0 <= k < nCol ensures EqOk(rows', x, k, nCol) {
      assert EqOk(rows, x, k, 0);
      StartAppend(rows, row, RowOf(x), k);
      StopAppend(rows, row, RowOf(x), k);
      if k == nCol - 1 { StopsNest(rows', RowOf(x), k, k); }
    }
  }

  // ------------------------------------------------------------------ the accumulator's candidates

  /** The current row: all its runs reach to the end of the scan so far. */
  ghost predicate CurOk(rows: seq<Row>, ids: seq<int>, nCol: nat, c: Sample)
  {
    Exact(rows, ids, nCol, c) && RowOf(c) == |rows| - 1
  }

  /** The best candidate for column `i`: a row of the current run of that column whose counts in the
      columns after `i` are known. */
  ghost predicate BestOk(rows: seq<Row>, ids: seq<int>, nCol: nat, b: Sample, i: nat)
  {
    && Placed(rows, ids, nCol, b) && !b.isP && b.iCol == i && i + 1 < nCol
    && Start(rows, |rows| - 1, i) <= RowOf(b)
    && forall k :: i < k < nCol ==> Full(rows, b, k)
  }

  ghost predicate AllBest(rows: seq<Row>, ids: seq<int>, nCol: nat, best: seq<Sample>)
  {
    |best| + 1 == nCol && forall i :: 0 <= i < |best| ==> BestOk(rows, ids, nCol, best[i], i)
  }

  /** A candidate about to be inserted: its own column is known as well. */
  ghost predicate Ready(rows: seq<Row>, ids: seq<int>, nCol: nat, b: Sample, i: nat)
  {
    BestOk(rows, ids, nCol, b, i) && Full(rows, b, i)
  }

  /** The count of the candidate's own column is that of the current row. */
  lemma {:induction false} MakeReady(rows: seq<Row>, ids: seq<int>, nCol: nat, b: Sample, c: Sample, i: nat)
    requires BestOk(rows, ids, nCol, b, i) && CurOk(rows, ids, nCol, c)
    ensures Ready(rows, ids, nCol, b.(anEq := b.anEq[i := c.anEq[i]]), i)
  {
    var r := b.(anEq := b.anEq[i := c.anEq[i]]);
    StopAtEnd(rows, RowOf(b), i);
    StopAtEnd(rows, |rows| - 1, i);
    assert Full(rows, c, i);
    forall k | 0 <= k < nCol ensures LtOk(rows, r, k) { assert LtOk(rows, b, k); }
    forall k | i < k < nCol ensures Full(rows, r, k) { assert Full(rows, b, k); }
  }

  /** Scanning row `row`: a candidate for an unchanged column stays good unless the new row beats it. */
  lemma {:induction false} BestStays(rows: seq<Row>, ids: seq<int>, nCol: nat, b: Sample, c: Sample, i: nat, row: Row, id: int)
    requires BestOk(rows, ids, nCol, b, i) && CurOk(rows + [row], ids + [id], nCol, c)
    requires i < Chng(rows + [row], |rows|)
    requires !BetterPost(c, b, i + 1)
    ensures BestOk(rows + [row], ids + [id], nCol, b, i)
  {
    var rows', n, r := rows + [row], |rows|, RowOf(b);
    PlacedAppend(rows, ids, nCol, b, row, id);
    assert Start(rows', n, i) == Start(rows', n - 1, i);
    StartAppend(rows, row, n - 1, i);
    forall k | i < k < nCol ensures Full(rows', b, k) {
      assert Full(rows, b, k) && Full(rows, b, i + 1) && Full(rows', c, i + 1);
      StartAppend(rows, row, r, k);
      StopAppend(rows, row, r, k);
      StopsNest(rows, r, i + 1, k);
      if Stop(rows, r, i + 1) == n && Chng(rows', n) > i + 1 {
        StartAppend(rows, row, r, i + 1);
        StopAppend(rows, row, r, i + 1);
        StopAtEnd(rows', r, i + 1);
      }
    }
  }

  /** The new row itself is a candidate for any column. */
  lemma {:induction false} BestNew(rows: seq<Row>, ids: seq<int>, nCol: nat, c: Sample, i: nat)
    requires CurOk(rows, ids, nCol, c) && i + 1 < nCol && !c.isP && c.iCol == i
    ensures BestOk(rows, ids, nCol, c, i)
  {
  }

  // ------------------------------------------------------------------ changes to the retained samples

  function Zeroed(x: Sample, z: nat): Sample
  {
    x.(anEq := seq(|x.anEq|, (k: int) requires 0 <= k < |x.anEq| => if k < z then 0 else x.anEq[k]))
  }

  function Upgraded(x: Sample, b: Sample, i: nat): Sample
    requires i < |x.anEq| && i < |b.anEq|
  {
    x.(iCol := i, anEq := x.anEq[i := b.anEq[i]])
  }

  function Dropped<T>(s: seq<T>, m: nat): (r: seq<T>)
    requires m < |s|
    ensures |r| == |s| - 1
    ensures forall p :: 0 <= p < |r| ==> r[p] == s[if p < m then p else p + 1]
  {
    s[..m] + s[m + 1..]
  }

  lemma {:induction false} LooserKept(rows: seq<Row>, ids: seq<int>, nCol: nat, a: seq<Sample>, i: nat, j: nat)
    requires AllKept(rows, ids, nCol, a, i) && j <= i
    ensures AllKept(rows, ids, nCol, a, j)
  {
    forall p | 0 <= p < |a| ensures Kept(rows, ids, nCol, a[p], j) {
      assert Kept(rows, ids, nCol, a[p], i);
      forall k | 0 <= k < nCol ensures EqOk(rows, a[p], k, j) { assert EqOk(rows, a[p], k, i); }
    }
  }

  lemma {:induction false} DropKept(rows: seq<Row>, ids: seq<int>, nCol: nat, a: seq<Sample>, lim: nat, m: nat)
    requires AllKept(rows, ids, nCol, a, lim) && m < |a|
    ensures AllKept(rows, ids, nCol, Dropped(a, m), lim)
  {
  }

  lemma {:induction false} UpgradeKept(rows: seq<Row>, ids: seq<int>, nCol: nat, a: seq<Sample>, u: nat, b: Sample, i: nat)
    requires AllKept(rows, ids, nCol, a, i + 1) && Ready(rows, ids, nCol, b, i) && u < |a| && !a[u].isP
    requires |a[u].anEq| == nCol && a[u].anEq[i] == 0
    ensures AllKept(rows, ids, nCol, a[u := Upgraded(a[u], b, i)], i)
  {
    var x, y := a[u], Upgraded(a[u], b, i);
    assert Kept(rows, ids, nCol, x, i + 1) && EqOk(rows, x, i, i + 1);
    StopAtEnd(rows, RowOf(x), i);
    StopAtEnd(rows, RowOf(b), i);
    forall k | 0 <= k < nCol ensures LtOk(rows, y, k) && EqOk(rows, y, k, i) {
      assert LtOk(rows, x, k) && EqOk(rows, x, k, i + 1);
    }
    assert Kept(rows, ids, nCol, y, i);
    LooserKept(rows, ids, nCol, a, i + 1, i);
  }

  lemma {:induction false} ZeroedKept(rows: seq<Row>, ids: seq<int>, nCol: nat, b: Sample, i: nat)
    requires Ready(rows, ids, nCol, b, i)
    ensures Kept(rows, ids, nCol, Zeroed(b, i), i)
  {
    var y := Zeroed(b, i);
    StopAtEnd(rows, RowOf(b), i);
    forall k | 0 <= k < nCol ensures LtOk(rows, y, k) && EqOk(rows, y, k, i) {
      assert LtOk(rows, b, k);
      if k <= i { StopsNest(rows, RowOf(b), k, i); } else { assert Full(rows, b, k); }
    }
  }

  /** If no sample waits for column `i`, the candidate lies after all of them. */
  lemma {:induction false} AddKept(rows: seq<Row>, ids: seq<int>, nCol: nat, a: seq<Sample>, b: Sample, i: nat)
    requires AllKept(rows, ids, nCol, a, i + 1) && Ready(rows, ids, nCol, b, i)
    requires forall p :: 0 <= p < |a| ==> |a[p].anEq| == nCol && a[p].anEq[i] != 0
    ensures AllKept(rows, ids, nCol, a + [Zeroed(b, i)], i)
  {
    LooserKept(rows, ids, nCol, a, i + 1, i);
    ZeroedKept(rows, ids, nCol, b, i);
    forall p | 0 <= p < |a| ensures RowOf(a[p]) < RowOf(b) {
      assert Kept(rows, ids, nCol, a[p], i + 1) && EqOk(rows, a[p], i, i + 1);
      StopAtEnd(rows, RowOf(a[p]), i);
    }
    AppendKept(rows, ids, nCol, a, Zeroed(b, i), i);
  }

  lemma {:induction false} AppendKept(rows: seq<Row>, ids: seq<int>, nCol: nat, a: seq<Sample>, y: Sample, lim: nat)
    requires AllKept(rows, ids, nCol, a, lim) && Kept(rows, ids, nCol, y, lim)
    requires forall p :: 0 <= p < |a| ==> RowOf(a[p]) < RowOf(y)
    ensures AllKept(rows, ids, nCol, a + [y], lim)
  {
  }

  /** A periodic sample of the current row: only its last column is known. */
  lemma {:induction false} AddPeriodic(rows: seq<Row>, ids: seq<int>, nCol: nat, a: seq<Sample>, c: Sample)
    requires AllKept(rows, ids, nCol, a, nCol) && CurOk(rows, ids, nCol, c) && c.isP
    requires forall p :: 0 <= p < |a| ==> RowOf(a[p]) < |rows| - 1
    ensures AllKept(rows, ids, nCol, a + [Zeroed(c, nCol - 1)], nCol)
  {
    var y := Zeroed(c, nCol - 1);
    forall k | 0 <= k < nCol ensures LtOk(rows, y, k) && EqOk(rows, y, k, nCol) {
      assert LtOk(rows, c, k) && Full(rows, c, k);
    }
    AppendKept(rows, ids, nCol, a, y, nCol);
  }

  // ------------------------------------------------------------------ back-filling

  function Filled(x: Sample, c: Sample, iChng: nat): Sample
    requires |x.anEq| == |c.anEq|
  {
    x.(anEq := seq(|x.anEq|, (k: int) requires 0 <= k < |x.anEq| => if k >= iChng && x.anEq[k] == 0 then c.anEq[k] else x.anEq[k]))
  }

  lemma {:induction false} FilledKept(rows: seq<Row>, ids: seq<int>, nCol: nat, x: Sample, c: Sample, iChng: nat)
    requires Kept(rows, ids, nCol, x, iChng) && CurOk(rows, ids, nCol, c) && iChng < nCol
    ensures Kept(rows, ids, nCol, Filled(x, c, iChng), iChng)
    ensures forall k :: iChng <= k < nCol ==> Filled(x, c, iChng).anEq[k] > 0
  {
    var y := Filled(x, c, iChng);
    forall k | 0 <= k < nCol ensures LtOk(rows, y, k) && EqOk(rows, y, k, iChng) && (k >= iChng ==> y.anEq[k] > 0) {
      assert LtOk(rows, x, k) && EqOk(rows, x, k, iChng) && Full(rows, c, k);
      StopAtEnd(rows, RowOf(x), k);
      StopAtEnd(rows, |rows| - 1, k);
    }
  }

  /** With no zero left, every count is exact. */
  lemma {:induction false} NoZeroExact(rows: seq<Row>, ids: seq<int>, nCol: nat, x: Sample, lim: nat)
    requires Kept(rows, ids, nCol, x, lim) && forall k :: 0 <= k < nCol ==> x.anEq[k] > 0
    ensures Exact(rows, ids, nCol, x)
  {
    forall k | 0 <= k < nCol ensures Full(rows, x, k) { assert EqOk(rows, x, k, lim); }
  }

  /** A sample that waits for column `i` was kept for a later column and is less preferred than the
      candidate for column `i`. */
  lemma {:induction false} NewBeatsOld(rows: seq<Row>, ids: seq<int>, nCol: nat, b: Sample, x: Sample, i: nat)
    requires Ready(rows, ids, nCol, b, i) && Kept(rows, ids, nCol, x, i + 1) && !x.isP && x.anEq[i] == 0
    ensures x.iCol > i && Better(b, x)
  {
    var r := RowOf(x);
    assert EqOk(rows, x, i, i + 1) && EqOk(rows, x, x.iCol, i + 1);
    StopAtEnd(rows, r, i);
    StopAtEnd(rows, RowOf(b), i);
    if x.iCol < i { StopsNest(rows, r, x.iCol, i); } else { StartsNest(rows, r, i, x.iCol); }
  }
}
