/** The accumulator behind stat_init, stat_push and stat_get (struct Stat4Accum in analyze.c, STAT4
    build): one pass over an index that keeps at most `mxSample` rows with their prefix counts. */
module Stat4 {
  import opened IndexScan
  import opened Samples
  import opened SampleRuns
  import Counting

  // ------------------------------------------------------------------ the periodic samples

  function Periodic(a: seq<Sample>): nat
  {
    if a == [] then 0 else Periodic(a[..|a| - 1]) + if a[|a| - 1].isP then 1 else 0
  }

  lemma {:induction false} PeriodicAppend(a: seq<Sample>, x: Sample)
    ensures Periodic(a + [x]) == Periodic(a) + if x.isP then 1 else 0
  {
    assert (a + [x])[..|a|] == a;
  }

  lemma {:induction false} PeriodicDrop(a: seq<Sample>, m: nat)
    requires m < |a| && !a[m].isP
    ensures Periodic(Dropped(a, m)) == Periodic(a)
  {
    var n := |a| - 1;
    if m < n {
      PeriodicDrop(a[..n], m);
      assert Dropped(a, m)[..n - 1] == Dropped(a[..n], m);
    } else {
      assert Dropped(a, m) == a[..n];
    }
  }

  lemma {:induction false} PeriodicUpdate(a: seq<Sample>, u: nat, x: Sample)
    requires u < |a| && a[u].isP == x.isP
    ensures Periodic(a[u := x]) == Periodic(a)
  {
    var n := |a| - 1;
    if u < n {
      PeriodicUpdate(a[..n], u, x);
      assert a[u := x][..n] == a[..n][u := x];
    } else {
      assert a[u := x][..n] == a[..n];
    }
  }

  lemma {:induction false} SamePeriodic(a: seq<Sample>, b: seq<Sample>)
    requires |a| == |b| && forall p :: 0 <= p < |a| ==> a[p].isP == b[p].isP
    ensures Periodic(a) == Periodic(b)
  {
    if a != [] { SamePeriodic(a[..|a| - 1], b[..|b| - 1]); }
  }

  lemma {:induction false} SomeOther(a: seq<Sample>)
    requires Periodic(a) < |a|
    ensures exists p :: 0 <= p < |a| && !a[p].isP
  {
    var n := |a| - 1;
    if a[n].isP {
      SomeOther(a[..n]);
      var p :| 0 <= p < |a[..n]| && !a[..n][p].isP;
      assert !a[p].isP;
    }
  }

  /** At most all samples are periodic, and if as many as there are, then every one. */
  lemma {:induction false} AllPeriodic(a: seq<Sample>)
    ensures Periodic(a) <= |a|
    ensures Periodic(a) == |a| ==> forall p :: 0 <= p < |a| ==> a[p].isP
  {
    if a != [] {
      var n := |a| - 1;
      AllPeriodic(a[..n]);
      if Periodic(a) == |a| {
        forall p | 0 <= p < |a| ensures a[p].isP { if p < n { assert a[..n][p].isP; } }
      }
    }
  }

  /** With the sampling period that stat_init computes from the number of rows, fewer than a third of
      the samples plus one are periodic. */
  lemma {:induction false} FewPeriodic(n: nat, nEst: nat, mxSample: nat)
    requires n <= nEst && mxSample > 0
    ensures n / (nEst / (mxSample / 3 + 1) + 1) < mxSample
  {
    var q := mxSample / 3 + 1;
    var p := nEst / q + 1;
    assert q * (nEst / q) + nEst % q == nEst;
    assert q * p == q * (nEst / q) + q;
    assert p * (n / p) + n % p == n;
    assert (n / p) * p == p * (n / p) < q * p;
    Counting.MulLess(n / p, q, p);
  }

  /** An estimate of zero rows makes every row periodic, and `mxSample` rows fill the array with them. */
  lemma {:induction false} ShortEstimate(mxSample: nat)
    requires mxSample > 0
    ensures var nPSample := 0 / (mxSample / 3 + 1) + 1;
      && (forall n: nat :: n / nPSample != (n + 1) / nPSample)
      && mxSample / nPSample == mxSample
  {
    assert 0 / (mxSample / 3 + 1) == 0;
  }

  lemma {:induction false} NextMultiple(n: nat, p: nat)
    requires p > 0
    ensures (n + 1) / p == n / p || (n + 1) / p == n / p + 1
    ensures n / p <= (n + 1) / p
  {
    var q, r := n / p, (n + 1) / p;
    assert p * q + n % p == n && p * r + (n + 1) % p == n + 1;
    assert q * p < (r + 1) * p && r * p < (q + 2) * p by {
      assert (r + 1) * p == p * r + p && (q + 2) * p == p * q + p + p;
      assert q * p == p * q && r * p == p * r;
    }
    Counting.MulLess(q, r + 1, p);
    Counting.MulLess(r, q + 2, p);
  }

  // ------------------------------------------------------------------ the accumulator

  /** `m` is a non-periodic sample, least preferred by the count of its own column and then by that
      column.  (The counts behind its own column may still be back-filled.) */
  ghost predicate IsMin(a: seq<Sample>, m: nat, nCol: nat)
  {
    && m < |a| && !a[m].isP && Shaped(a, nCol)
    && forall p :: 0 <= p < |a| && !a[p].isP ==> !BetterFirst(a[m], a[p])
  }

  ghost predicate Shaped(a: seq<Sample>, nCol: nat)
  {
    forall p :: 0 <= p < |a| ==> |a[p].anEq| == nCol && (!a[p].isP ==> a[p].iCol < nCol)
  }

  /** No zero is found at or after column `z`. */
  ghost predicate ZerosBefore(a: seq<Sample>, nCol: nat, z: nat)
  {
    forall p :: 0 <= p < |a| ==> PositiveFrom(a[p], nCol, z)
  }

  ghost predicate PositiveFrom(x: Sample, nCol: nat, z: nat)
  {
    |x.anEq| == nCol && forall k :: z <= k < nCol ==> x.anEq[k] > 0
  }

  /** Some retained row has the prefix of row `r` that ends in column `k`. */
  ghost predicate Represented(rows: seq<Row>, a: seq<Sample>, r: nat, k: nat)
    requires r < |rows|
  {
    exists p :: 0 <= p < |a| && HasPrefix(rows, a[p], r, k)
  }

  ghost predicate HasPrefix(rows: seq<Row>, x: Sample, r: nat, k: nat)
    requires r < |rows|
  {
    RowOf(x) < |rows| && Agree(rows[RowOf(x)], rows[r], k)
  }

  /** The prefix has fewer rows than the one for which the least preferred sample is kept, or as many and
      does not end in an earlier column. */
  ghost predicate Rarer(rows: seq<Row>, a: seq<Sample>, nCol: nat, r: nat, k: nat)
    requires r < |rows|
  {
    exists m: nat :: IsMin(a, m, nCol) &&
      (|EqRows(rows, r, k)| < a[m].anEq[a[m].iCol] || (|EqRows(rows, r, k)| == a[m].anEq[a[m].iCol] && k >= a[m].iCol))
  }

  lemma {:induction false} PrefixFound(rows: seq<Row>, ids: seq<int>, nCol: nat, a: seq<Sample>, full: bool, m: nat, r: nat, k: nat)
    requires Scan(rows, nCol) && AllKept(rows, ids, nCol, a, 0) && (full ==> IsMin(a, m, nCol)) && r < |rows| && k + 1 < nCol
    requires Found(rows, nCol, a, full, if m < |a| then WeightOf(a[m]) else Weight(0, 0), 0)
    ensures Represented(rows, a, r, k) || (full && Rarer(rows, a, nCol, r, k))
  {
    assert RunDone(rows, r, k, 0);
    CountsAreRuns(rows, nCol, r, k);
    if p :| 0 <= p < |a| && Meets(rows, a[p], r, k) {
      assert Kept(rows, ids, nCol, a[p], 0);
      Position(rows, nCol, RowOf(a[p]), r, k);
      assert HasPrefix(rows, a[p], r, k);
    }
  }

  class Stat4Accum {
    const nCol: nat
    const mxSample: nat
    const nEst: nat
    const nPSample: nat
    var nRow: nat
    var current: Sample
    var iPrn: nat
    var aBest: seq<Sample>
    var a: seq<Sample>
    var iMin: nat
    var nMaxEqZero: nat
    ghost var rows: seq<Row>
    ghost var ids: seq<int>
    /** The pseudo-random number that each row got. */
    ghost var hashes: seq<nat>

    ghost predicate Config()
      reads this
    {
      nCol > 0 && mxSample > 0 && nPSample == nEst / (mxSample / 3 + 1) + 1
    }

    /** The weight of the least preferred sample. */
    ghost function MinWeight(): Weight
      reads this
    {
      if iMin < |a| then WeightOf(a[iMin]) else Weight(0, 0)
    }

    /** Every run that has ended, in the columns from `lim` on with the last row, contains a sample kept
        for it or for a shorter prefix, or the array is full and the run weighs no more than the least
        preferred sample. */
    ghost predicate Covers(lim: nat)
      reads this
    {
      Found(rows, nCol, a, |a| == mxSample, MinWeight(), lim)
    }

    /** What holds of the retained samples; columns from `lim` on may be filled in. */
    ghost predicate Retained(lim: nat)
      reads this
    {
      && Config() && AllKept(rows, ids, nCol, a, lim) && Covers(lim)
      && |a| <= mxSample && Shaped(a, nCol)
      && (|a| == mxSample ==> IsMin(a, iMin, nCol))
      && ZerosBefore(a, nCol, nMaxEqZero) && nMaxEqZero < nCol
    }

    ghost predicate Scanning()
      reads this
    {
      && Config() && |rows| == |ids| == |hashes| == nRow && Scan(rows, nCol)
      && |aBest| + 1 == nCol && Periodic(a) == nRow / nPSample < mxSample
      && (nRow > 0 ==> CurOk(rows, ids, nCol, current))
    }

    ghost predicate Valid()
      reads this
    {
      && Scanning() && Retained(nCol)
      && (nRow > 0 ==> AllBest(rows, ids, nCol, aBest) && AllBestOf(rows, hashes, nCol, aBest))
      && (nRow == 0 ==> a == [] && |current.anEq| == nCol && current.anLt == Zeros(nCol) && current.anDLt == Zeros(nCol))
    }

    /** stat_init. */
    constructor (nCol: nat, nEst: nat, mxSample: nat, seed: nat)
      requires nCol > 0 && mxSample > 0
      ensures Valid() && rows == [] && this.nCol == nCol && this.nEst == nEst && this.mxSample == mxSample
      ensures iPrn == seed % 0x1_0000_0000
    {
      var none := Sample(Zeros(nCol), Zeros(nCol), Zeros(nCol), 0, false, 0, 0);
      this.nCol, this.mxSample, this.nEst := nCol, mxSample, nEst;
      nPSample := nEst / (mxSample / 3 + 1) + 1;
      nRow, current, a, iMin, nMaxEqZero := 0, none, [], 0, 0;
      iPrn := seed % 0x1_0000_0000;
      aBest := seq(nCol - 1, (i: nat) => none.(iCol := i));
      rows, ids, hashes := [], [], [];
    }

    /** sampleIsBetterPost. */
    method SampleIsBetterPost(pNew: Sample, pOld: Sample) returns (better: bool)
      requires |pNew.anEq| == |pOld.anEq| == nCol && pNew.iCol == pOld.iCol < nCol
      ensures better == BetterPost(pNew, pOld, pNew.iCol + 1)
    {
      var i := pNew.iCol + 1;
      while i < nCol
        invariant pNew.iCol < i <= nCol
        invariant BetterPost(pNew, pOld, pNew.iCol + 1) == BetterPost(pNew, pOld, i)
      {
        if pNew.anEq[i] > pOld.anEq[i] { return true; }
        if pNew.anEq[i] < pOld.anEq[i] { return false; }
        i := i + 1;
      }
      return pNew.hash > pOld.hash;
    }

    /** sampleIsBetter. */
    method SampleIsBetter(pNew: Sample, pOld: Sample) returns (better: bool)
      requires |pNew.anEq| == |pOld.anEq| == nCol && pNew.iCol < nCol && pOld.iCol < nCol
      ensures better == Better(pNew, pOld)
    {
      var nEqNew, nEqOld := pNew.anEq[pNew.iCol], pOld.anEq[pOld.iCol];
      if nEqNew > nEqOld { return true; }
      if nEqNew == nEqOld {
        if pNew.iCol < pOld.iCol { return true; }
        better := false;
        if pNew.iCol == pOld.iCol { better := SampleIsBetterPost(pNew, pOld); }
        return;
      }
      return false;
    }

    /** find_new_min: a least preferred non-periodic sample. */
    method FindMin() returns (m: nat)
      requires Shaped(a, nCol) && Periodic(a) < |a|
      ensures IsMin(a, m, nCol)
      ensures forall p :: 0 <= p < |a| && !a[p].isP ==> !Better(a[m], a[p])
    {
      SomeOther(a);
      var i := 0;
      var iMin := -1;
      while i < |a|
        invariant i <= |a| && -1 <= iMin < i
        invariant iMin < 0 ==> forall p :: 0 <= p < i ==> a[p].isP
        invariant iMin >= 0 ==> !a[iMin].isP && forall p :: 0 <= p < i && !a[p].isP ==> !Better(a[iMin], a[p])
      {
        if !a[i].isP {
          var lower := true;
          if iMin >= 0 {
            lower := SampleIsBetter(a[iMin], a[i]);
            if lower {
              forall p | 0 <= p < i && !a[p].isP ensures !Better(a[i], a[p]) {
                if Better(a[i], a[p]) { BetterTransitive(a[iMin], a[i], a[p]); }
              }
            }
          }
          if lower {
            NotBetterSelf(a[i]);
            iMin := i;
          }
        }
        i := i + 1;
      }
      m := iMin;
    }

    /** The samples that wait for the candidate's column share its prefix: find the most preferred one,
        or a periodic one. */
    method FindUpgrade(pNew: Sample) returns (stop: bool, up: int)
      requires !pNew.isP && pNew.iCol + 1 < nCol && Ready(rows, ids, nCol, pNew, pNew.iCol)
      requires AllKept(rows, ids, nCol, a, pNew.iCol + 1) && Shaped(a, nCol)
      ensures !stop && up < 0 ==> forall p :: 0 <= p < |a| ==> a[p].anEq[pNew.iCol] != 0
      ensures stop ==> exists p :: 0 <= p < |a| && a[p].isP && a[p].anEq[pNew.iCol] == 0
      ensures !stop && up >= 0 ==>
        && up < |a| && !a[up].isP && a[up].anEq[pNew.iCol] == 0
        && forall p :: 0 <= p < |a| && a[p].anEq[pNew.iCol] == 0 ==> !a[p].isP && !Better(a[p], a[up])
    {
      hide AllKept, Kept, Ready, BestOk;
      ghost var c := pNew.iCol;
      stop, up := false, -1;
      var i := |a|;
      while i > 0
        invariant 0 <= i <= |a| && (up < 0 || i <= up < |a|)
        invariant up < 0 ==> forall p :: i <= p < |a| ==> a[p].anEq[c] != 0
        invariant up >= 0 ==> !a[up].isP && a[up].anEq[c] == 0
        invariant up >= 0 ==> forall p :: i <= p < |a| && a[p].anEq[c] == 0 ==> !a[p].isP && !Better(a[p], a[up])
      {
        i := i - 1;
        if a[i].anEq[pNew.iCol] == 0 {
          if a[i].isP { return true, up; }
          KeptAt(rows, ids, nCol, a, i, c + 1);
          NewBeatsOld(rows, ids, nCol, pNew, a[i], c);
          var better := true;
          if up >= 0 { better := SampleIsBetter(a[i], a[up]); }
          if better {
            if up >= 0 {
              forall p | i <= p < |a| && a[p].anEq[c] == 0 ensures !Better(a[p], a[i]) {
                if p > i && Better(a[p], a[i]) { BetterTransitive(a[p], a[i], a[up]); }
                if p == i { NotBetterSelf(a[i]); }
              }
            }
            NotBetterSelf(a[i]);
            up := i;
          }
        }
      }
    }

    /** The retained samples when one more is to be added: all of them, or all but `iMin`. */
    ghost function Room(): seq<Sample>
      reads this
      requires |a| >= mxSample ==> iMin < |a|
    {
      if |a| >= mxSample then Dropped(a, iMin) else a
    }

    /** sampleInsert for a candidate from aBest. */
    method InsertBest(pNew: Sample, nEqZero: nat)
      requires !pNew.isP && nEqZero == pNew.iCol && nEqZero + 1 < nCol && Ready(rows, ids, nCol, pNew, nEqZero)
      requires Retained(nEqZero + 1) && Periodic(a) < mxSample
      requires |a| < mxSample || Better(pNew, a[iMin])
      modifies `a, `iMin, `nMaxEqZero
      ensures Sampled(rows, a, |rows| - 1, nEqZero)
      ensures Retained(nEqZero) && Periodic(a) == old(Periodic(a)) && nMaxEqZero >= nEqZero
      ensures (forall p :: 0 <= p < old(|a|) ==> old(a)[p].anEq[nEqZero] != 0) ==> a == old(Room()) + [Zeroed(pNew, nEqZero)]
      ensures (exists p :: 0 <= p < old(|a|) && old(a)[p].anEq[nEqZero] == 0) ==>
        a == old(a) || exists u :: 0 <= u < old(|a|) && a == old(a)[u := Upgraded(old(a)[u], pNew, nEqZero)]
    {
      hide AllKept, Kept, Ready, BestOk, ZerosBefore, IsMin, Periodic, Found, Sampled, RunMet, Better;
      ReadyShape(rows, ids, nCol, pNew, nEqZero);
      WiderZeros(a, nCol, nMaxEqZero, nEqZero);
      if nEqZero > nMaxEqZero { nMaxEqZero := nEqZero; }
      var stop, up := FindUpgrade(pNew);
      if stop {
        ghost var p :| 0 <= p < |a| && a[p].isP && a[p].anEq[nEqZero] == 0;
        WaitingMeets(rows, ids, nCol, a, p, nEqZero, |a| == mxSample, MinWeight());
        FoundOneMore(rows, nCol, a, |a| == mxSample, MinWeight(), nEqZero);
        LooserKept(rows, ids, nCol, a, nEqZero + 1, nEqZero);
      } else if up >= 0 {
        Upgrade(pNew, nEqZero, up);
      } else {
        AddBest(pNew, nEqZero);
      }
    }

    /** The existing sample takes over the candidate's column and count. */
    method Upgrade(pNew: Sample, i: nat, u: nat)
      requires i + 1 < nCol && Ready(rows, ids, nCol, pNew, i) && Retained(i + 1) && Periodic(a) < mxSample
      requires u < |a| && !a[u].isP && |a[u].anEq| == nCol && a[u].anEq[i] == 0 && |pNew.anEq| == nCol && i <= nMaxEqZero
      requires pNew.iCol == i
      modifies `a, `iMin
      ensures Retained(i) && Periodic(a) == old(Periodic(a))
      ensures a == old(a)[u := Upgraded(old(a)[u], pNew, i)] && Sampled(rows, a, |rows| - 1, i)
    {
      hide AllKept, Kept, Ready, BestOk, ZerosBefore, IsMin, Shaped, Periodic, Found, Sampled, NoneBelow;
      ghost var low, w := |a| == mxSample, MinWeight();
      UpgradeFound(rows, ids, nCol, a, u, pNew, i, low, w);
      if low { UpgradeNoneBelow(rows, ids, nCol, a, u, pNew, i, iMin); }
      ReadyShape(rows, ids, nCol, pNew, i);
      UpgradeKept(rows, ids, nCol, a, u, pNew, i);
      PeriodicUpdate(a, u, Upgraded(a[u], pNew, i));
      UpgradeShape(a, u, pNew, i, nCol, nMaxEqZero);
      a := a[u := Upgraded(a[u], pNew, i)];
      if |a| >= mxSample { iMin := FindMin(); }
      NewMin(low, w, i);
    }

    /** The samples and the least preferred of them having been set, the runs are covered. */
    ghost method NewMin(low: bool, w: Weight, lim: nat)
      requires Found(rows, nCol, a, low, w, lim) && (low ==> |a| == mxSample && NoneBelow(a, w))
      requires |a| == mxSample ==> IsMin(a, iMin, nCol)
      ensures Covers(lim)
    {
      FoundRaised(rows, nCol, a, low, w, |a| == mxSample, MinWeight(), lim);
    }

    method AddBest(pNew: Sample, i: nat)
      requires !pNew.isP && i == pNew.iCol && i + 1 < nCol && Ready(rows, ids, nCol, pNew, i)
      requires Retained(i + 1) && Periodic(a) < mxSample && i <= nMaxEqZero
      requires forall p :: 0 <= p < |a| ==> a[p].anEq[i] != 0
      requires |a| < mxSample || Better(pNew, a[iMin])
      modifies `a, `iMin
      ensures Retained(i) && Periodic(a) == old(Periodic(a))
      ensures a == old(Room()) + [Zeroed(pNew, i)] && Sampled(rows, a, |rows| - 1, i)
    {
      hide AllKept, Kept, Ready, BestOk, ZerosBefore, Periodic, Found, Sampled, NoneBelow;
      ghost var low, w := |a| == mxSample, MinWeight();
      ReadyShape(rows, ids, nCol, pNew, i);
      if low { ZeroedWeight(pNew, i, a[iMin]); }
      AddRoom(i + 1);
      AddKept(rows, ids, nCol, a, pNew, i);
      AddFound(rows, ids, nCol, a, pNew, i, low, w);
      if low { NoneBelowAppended(a, Zeroed(pNew, i), w); }
      Append(Zeroed(pNew, i), i, low, w);
    }

    /** sampleInsert for a periodic sample of the current row. */
    method InsertPeriodic(pNew: Sample)
      requires pNew.isP && CurOk(rows, ids, nCol, pNew)
      requires Retained(nCol) && Periodic(a) + 1 < mxSample
      requires forall p :: 0 <= p < |a| ==> RowOf(a[p]) < |rows| - 1
      modifies `a, `iMin, `nMaxEqZero
      ensures Retained(nCol) && Periodic(a) == old(Periodic(a)) + 1
      ensures a == old(Room()) + [Zeroed(pNew, nCol - 1)]
    {
      hide AllKept, Kept, CurOk, ZerosBefore, IsMin, Periodic, Found, NoneBelow;
      ghost var low, w := |a| == mxSample, MinWeight();
      PeriodicShape(rows, ids, nCol, pNew);
      WiderZeros(a, nCol, nMaxEqZero, nCol - 1);
      if nCol - 1 > nMaxEqZero { nMaxEqZero := nCol - 1; }
      AddRoom(nCol);
      AddPeriodic(rows, ids, nCol, a, pNew);
      FoundAppended(rows, nCol, a, Zeroed(pNew, nCol - 1), low, w, nCol);
      NoneBelowAppended(a, Zeroed(pNew, nCol - 1), w);
      Append(Zeroed(pNew, nCol - 1), nCol, low, w);
    }

    /** Append a sample where there is room for it, and find the new least preferred one. */
    method Append(y: Sample, ghost lim: nat, ghost low: bool, ghost w: Weight)
      requires Config() && Shaped(a, nCol) && ZerosBefore(a, nCol, nMaxEqZero) && nMaxEqZero < nCol && |a| < mxSample
      requires AllKept(rows, ids, nCol, a + [y], lim) && PositiveFrom(y, nCol, nMaxEqZero) && (!y.isP ==> y.iCol < nCol)
      requires Periodic(a) + (if y.isP then 1 else 0) < mxSample
      requires Found(rows, nCol, a + [y], low, w, lim) && (low ==> |a| + 1 == mxSample && NoneBelow(a + [y], w))
      modifies `a, `iMin
      ensures Retained(lim) && a == old(a) + [y] && Periodic(a) == old(Periodic(a)) + if y.isP then 1 else 0
    {
      hide AllKept, ZerosBefore, IsMin, Shaped, Periodic, Found, NoneBelow;
      PeriodicAppend(a, y);
      AppendShape(a, y, nCol, nMaxEqZero);
      a := a + [y];
      if |a| >= mxSample { iMin := FindMin(); }
      NewMin(low, w, lim);
    }

    /** Remove sample iMin if there is no room for another one. */
    method AddRoom(ghost lim: nat)
      requires Retained(lim)
      modifies `a
      ensures a == old(Room()) && |a| < mxSample && Periodic(a) == old(Periodic(a))
      ensures AllKept(rows, ids, nCol, a, lim) && Shaped(a, nCol) && ZerosBefore(a, nCol, nMaxEqZero)
      ensures forall p :: 0 <= p < |a| ==> a[p] in old(a)
      ensures Found(rows, nCol, a, old(|a| == mxSample), old(MinWeight()), lim)
      ensures old(|a| == mxSample) ==> |a| + 1 == mxSample && NoneBelow(a, old(MinWeight()))
    {
      hide AllKept, Found;
      if |a| >= mxSample {
        FoundDropped(rows, ids, nCol, a, iMin, lim);
        DropKept(rows, ids, nCol, a, lim, iMin);
        PeriodicDrop(a, iMin);
        a := Dropped(a, iMin);
      }
    }

    /** Column `iChng` of the scan has changed: candidates of the columns whose runs end here are
        offered, then the zeros of these columns are back-filled. */
    method SamplePushPrevious(iChng: nat)
      requires Scanning() && nRow > 0 && Retained(nCol) && AllBest(rows, ids, nCol, aBest) && AllBestOf(rows, hashes, nCol, aBest)
      requires iChng < nCol && Periodic(a) < mxSample
      modifies `a, `aBest, `iMin, `nMaxEqZero
      ensures Retained(iChng) && AllBest(rows, ids, nCol, aBest) && |aBest| + 1 == nCol && AllBestOf(rows, hashes, nCol, aBest)
      ensures Periodic(a) == old(Periodic(a))
      ensures forall p :: 0 <= p < |a| ==> PositiveFrom(a[p], nCol, iChng)
    {
      hide AllKept, AllBest, BestOk, CurOk, ZerosBefore, IsMin, Shaped, Periodic, Ready, PositiveFrom, Scan, Found, AllBestOf;
      var i := nCol - 1;
      LooserKept(rows, ids, nCol, a, nCol, i);
      FoundLast(rows, nCol, a, |a| == mxSample, MinWeight());
      while i > iChng
        invariant iChng <= i < nCol && Retained(i) && AllBest(rows, ids, nCol, aBest) && |aBest| + 1 == nCol
        invariant AllBestOf(rows, hashes, nCol, aBest)
        invariant Periodic(a) == old(Periodic(a))
      {
        i := i - 1;
        OfferBest(i);
      }
      if iChng < nMaxEqZero {
        FillIn(iChng);
        nMaxEqZero := iChng;
      }
      PositiveBy(a, nCol, nMaxEqZero, iChng);
    }

    /** Complete the candidate for column `i` and insert it if there is room or it is preferred. */
    method OfferBest(i: nat)
      requires Config() && i + 1 < nCol && CurOk(rows, ids, nCol, current)
      requires Retained(i + 1) && AllBest(rows, ids, nCol, aBest) && |aBest| + 1 == nCol && Periodic(a) < mxSample
      requires 0 < |rows| == |hashes| && AllBestOf(rows, hashes, nCol, aBest)
      modifies `a, `aBest, `iMin, `nMaxEqZero
      ensures Retained(i) && AllBest(rows, ids, nCol, aBest) && |aBest| + 1 == nCol && AllBestOf(rows, hashes, nCol, aBest)
      ensures Periodic(a) == old(Periodic(a))
      ensures Sampled(rows, a, |rows| - 1, i) || (old(|a|) == mxSample && !Better(aBest[i], old(a)[old(iMin)]) && a == old(a))
    {
      hide AllKept, BestOk, ZerosBefore, Periodic, Ready, CurOk, Scan, Found, Sampled, BestOf, Better, RunMet;
      CurShape(rows, ids, nCol, current);
      BestShape(rows, ids, nCol, aBest[i], i);
      MakeReady(rows, ids, nCol, aBest[i], current, i);
      var pBest := aBest[i].(anEq := aBest[i].anEq[i := current.anEq[i]]);
      ReadyBest(rows, ids, nCol, pBest, i);
      BestOfCompleted(rows, hashes, nCol, aBest[i], i, current.anEq[i]);
      aBest := aBest[i := pBest];
      var offer := |a| < mxSample;
      if !offer { offer := SampleIsBetter(pBest, a[iMin]); }
      if offer {
        InsertBest(pBest, i);
      } else {
        LighterRun(rows, ids, nCol, current, pBest, i, a, a[iMin]);
        FoundOneMore(rows, nCol, a, true, MinWeight(), i);
        LooserKept(rows, ids, nCol, a, i + 1, i);
      }
    }

    /** Replace the zeros from column `iChng` on by the counts of the current row. */
    method FillIn(iChng: nat)
      requires Retained(iChng) && CurOk(rows, ids, nCol, current) && iChng < nCol
      modifies `a
      ensures AllKept(rows, ids, nCol, a, iChng) && |a| == old(|a|) && Shaped(a, nCol)
      ensures |a| == mxSample ==> IsMin(a, iMin, nCol)
      ensures ZerosBefore(a, nCol, iChng) && Periodic(a) == old(Periodic(a)) && Covers(iChng)
    {
      hide AllKept, Kept, CurOk, ZerosBefore, Periodic, PositiveFrom, Exact, Found;
      CurShape(rows, ids, nCol, current);
      ghost var a0 := a;
      var i := |a|;
      while i > 0
        invariant 0 <= i <= |a| == |a0|
        invariant forall p :: 0 <= p < i ==> a[p] == a0[p]
        invariant forall p :: i <= p < |a| ==> |a0[p].anEq| == |current.anEq| && a[p] == Filled(a0[p], current, iChng)
      {
        i := i - 1;
        var x := FillSample(a[i], iChng);
        a := a[i := x];
      }
      FilledAll(rows, ids, nCol, a0, a, current, iChng, iMin);
      FoundUpdated(rows, nCol, a0, a, |a| == mxSample, old(MinWeight()), iChng);
      FoundRaised(rows, nCol, a, |a| == mxSample, old(MinWeight()), |a| == mxSample, MinWeight(), iChng);
    }

    method FillSample(x: Sample, iChng: nat) returns (y: Sample)
      requires |x.anEq| == |current.anEq| == nCol && iChng < nCol
      ensures y == Filled(x, current, iChng)
    {
      y := x;
      var j := iChng;
      while j < nCol
        invariant iChng <= j <= nCol && |y.anEq| == nCol && y == x.(anEq := y.anEq)
        invariant forall k :: 0 <= k < nCol ==> y.anEq[k] == if k < j then Filled(x, current, iChng).anEq[k] else x.anEq[k]
      {
        if y.anEq[j] == 0 { y := y.(anEq := y.anEq[j := current.anEq[j]]); }
        j := j + 1;
      }
      assert y.anEq == Filled(x, current, iChng).anEq;
    }

    /** stat_push: row `row` with identifier `id` is the next one of the scan; `iChng` is its leftmost
        column that differs from the row before.  One sample that is not periodic must be left room. */
    method StatPush(iChng: nat, id: int, ghost row: Row)
      requires Valid() && Scan(rows + [row], nCol) && (nRow + 1) / nPSample < mxSample
      requires iChng == if nRow == 0 then 0 else Chng(rows + [row], nRow)
      modifies this
      ensures Valid() && rows == old(rows) + [row] && ids == old(ids) + [id]
      ensures iPrn == (old(iPrn) * 1103515245 + 12345) % 0x1_0000_0000 && hashes == old(hashes) + [iPrn]
    {
      hide AllKept, AllBest, Scan, CurOk, ZerosBefore, IsMin, Shaped, Periodic, Chng, Found, AllBestOf;
      ghost var n := nRow;
      NextMultiple(n, nPSample);
      Advance(iChng, id, row);
      assert rows[..n] == old(rows) && ids[..n] == old(ids);
      TakeSample();
      assert hashes[..n] == old(hashes);
      UpdateBest(iChng, n, row, id);
    }

    /** The bound of stat_push is exact: a row beyond it is due as a periodic sample `y`, which then fills
        the array, and no sample is left that find_new_min could choose. */
    lemma TooManyRows(y: Sample)
      requires Valid() && (nRow + 1) / nPSample >= mxSample && y.isP
      ensures nRow / nPSample != (nRow + 1) / nPSample
      ensures var full := Room() + [y];
        |full| == mxSample && forall p :: 0 <= p < |full| ==> full[p].isP
    {
      hide AllKept, AllBest, Scan, CurOk, ZerosBefore, Shaped, Periodic;
      NextMultiple(nRow, nPSample);
      AllPeriodic(a);
      if |a| >= mxSample { PeriodicDrop(a, iMin); }
      AllPeriodic(Room());
    }

    /** Close the runs that end before the new row, and make that row the current one. */
    method Advance(iChng: nat, id: int, ghost row: Row)
      requires Valid() && Scan(rows + [row], nCol) && (nRow + 1) / nPSample < mxSample
      requires iChng == if nRow == 0 then 0 else Chng(rows + [row], nRow)
      modifies this
      ensures nRow == old(nRow) + 1 && rows == old(rows) + [row] && ids == old(ids) + [id] && |ids| == nRow
      ensures Retained(nCol) && CurOk(rows, ids, nCol, current) && Periodic(a) == old(Periodic(a)) && |aBest| + 1 == nCol
      ensures nRow > 1 ==> AllBest(old(rows), old(ids), nCol, aBest) && AllBestOf(old(rows), old(hashes), nCol, aBest)
      ensures hashes == old(hashes) && iPrn == old(iPrn) && |hashes| + 1 == nRow
      ensures forall p :: 0 <= p < |a| ==> RowOf(a[p]) < |rows| - 1
      ensures iChng < nCol
    {
      hide AllKept, AllBest, Scan, CurOk, ZerosBefore, IsMin, Shaped, Periodic, PositiveFrom, Found, AllBestOf;
      ChngBound(rows + [row], nCol, nRow);
      if nRow == 0 {
        FirstRow(row, id);
      } else {
        SamplePushPrevious(iChng);
        CurShape(rows, ids, nCol, current);
        NextRow(iChng, row, id);
      }
    }

    /** Hash the current row, and keep it if it is due as a periodic sample. */
    method TakeSample()
      requires Config() && |rows| == |ids| == nRow && CurOk(rows, ids, nCol, current) && nRow > 0
      requires Retained(nCol) && Periodic(a) == (nRow - 1) / nPSample <= nRow / nPSample < mxSample
      requires nRow / nPSample <= (nRow - 1) / nPSample + 1
      requires forall p :: 0 <= p < |a| ==> RowOf(a[p]) < |rows| - 1
      requires |hashes| + 1 == nRow
      modifies `a, `iMin, `nMaxEqZero, `current, `iPrn, `hashes
      ensures iPrn == (old(iPrn) * 1103515245 + 12345) % 0x1_0000_0000 && hashes == old(hashes) + [iPrn] && current.hash == iPrn
      ensures CurOk(rows, ids, nCol, current) && !current.isP
      ensures Retained(nCol) && Periodic(a) == nRow / nPSample
    {
      hide AllKept, CurOk, ZerosBefore, IsMin, Shaped, Periodic, Found;
      iPrn := (iPrn * 1103515245 + 12345) % 0x1_0000_0000;
      hashes := hashes + [iPrn];
      CurAny(rows, ids, nCol, current, 0, iPrn, false);
      current := current.(iCol := 0, hash := iPrn, isP := false);
      CurLast(rows, ids, nCol, current);
      var nLt := current.anLt[nCol - 1];
      if nLt / nPSample != (nLt + 1) / nPSample {
        CurAny(rows, ids, nCol, current, 0, iPrn, true);
        current := current.(isP := true, iCol := 0);
        InsertPeriodic(current);
        CurAny(rows, ids, nCol, current, 0, iPrn, false);
        current := current.(isP := false);
      }
    }

    /** The first row starts a run in every column. */
    method FirstRow(ghost row: Row, id: int)
      requires Valid() && nRow == 0
      modifies `current, `nRow, `rows, `ids
      ensures nRow == 1 && rows == [row] && ids == [id] && CurOk(rows, ids, nCol, current)
      ensures Retained(nCol) && a == []
    {
      hide ZerosBefore, IsMin, Shaped, Periodic, Scan;
      assert rows == [] && ids == [];
      var i := 0;
      while i < nCol
        invariant i <= nCol && |current.anEq| == nCol && current.anLt == Zeros(nCol) == current.anDLt
        invariant rows == [] && ids == []
        invariant forall k :: 0 <= k < i ==> current.anEq[k] == 1
      {
        current := current.(anEq := current.anEq[i := 1]);
        i := i + 1;
      }
      nRow := 1;
      current := current.(rowid := id);
      rows, ids := rows + [row], ids + [id];
      assert rows == [row] && ids == [id];
      FirstCur(rows, ids, nCol, current);
    }

    /** Update anDLt, anLt and anEq for the next row. */
    method CountRow(iChng: nat)
      requires |current.anEq| == |current.anLt| == |current.anDLt| == nCol && iChng <= nCol
      modifies `current
      ensures |current.anEq| == |current.anLt| == |current.anDLt| == nCol
      ensures forall k :: 0 <= k < nCol ==> Advanced(old(current), current, k, nCol, iChng)
    {
      ghost var c0 := current;
      var i := 0;
      while i < iChng
        invariant i <= iChng && |current.anEq| == nCol && current.anLt == c0.anLt && current.anDLt == c0.anDLt
        invariant forall k :: 0 <= k < nCol ==> Advanced(c0, current, k, i, iChng)
      {
        ghost var c := current;
        current := current.(anEq := current.anEq[i := current.anEq[i] + 1]);
        i := i + 1;
        forall k | 0 <= k < nCol ensures Advanced(c0, current, k, i, iChng) { assert Advanced(c0, c, k, i - 1, iChng); }
      }
      while i < nCol
        invariant iChng <= i <= nCol && |current.anEq| == |current.anLt| == |current.anDLt| == nCol
        invariant forall k :: 0 <= k < nCol ==> Advanced(c0, current, k, i, iChng)
      {
        ghost var c := current;
        current := current.(anDLt := current.anDLt[i := current.anDLt[i] + 1], anLt := current.anLt[i := current.anLt[i] + current.anEq[i]]);
        current := current.(anEq := current.anEq[i := 1]);
        i := i + 1;
        forall k | 0 <= k < nCol ensures Advanced(c0, current, k, i, iChng) { assert Advanced(c0, c, k, i - 1, iChng); }
      }
      forall k | 0 <= k < nCol ensures Advanced(c0, current, k, nCol, iChng) { assert Advanced(c0, current, k, i, iChng); }
    }

    /** The accumulator moves on to the next row. */
    method NextRow(iChng: nat, ghost row: Row, id: int)
      requires Config() && nRow > 0 && |rows| == |ids| == nRow && CurOk(rows, ids, nCol, current) && |current.anEq| == |current.anLt| == |current.anDLt| == nCol
      requires iChng == Chng(rows + [row], nRow) < nCol && Retained(iChng)
      requires forall p :: 0 <= p < |a| ==> PositiveFrom(a[p], nCol, iChng)
      modifies `current, `nRow, `rows, `ids
      ensures nRow == old(nRow) + 1 && rows == old(rows) + [row] && ids == old(ids) + [id]
      ensures CurOk(rows, ids, nCol, current) && Retained(nCol)
      ensures forall p :: 0 <= p < |a| ==> RowOf(a[p]) < |rows| - 1
    {
      hide AllKept, AllBest, CurOk, ZerosBefore, IsMin, Shaped, PositiveFrom, Found;
      ghost var c0 := current;
      CountRow(iChng);
      nRow := nRow + 1;
      NextCur(rows, ids, nCol, c0, current, row, id, iChng);
      current := current.(rowid := id);
      AllAppend(rows, ids, nCol, a, row, id, iChng);
      FoundNextRow(rows, nCol, a, |a| == mxSample, MinWeight(), row, iChng);
      rows, ids := rows + [row], ids + [id];
    }

    /** Offer the new row as a candidate for every column. */
    method UpdateBest(iChng: nat, ghost n: nat, ghost row: Row, ghost id: int)
      requires Config() && |rows| == |ids| == n + 1 && CurOk(rows, ids, nCol, current) && !current.isP
      requires |aBest| + 1 == nCol && iChng < nCol
      requires rows[n] == row && ids[n] == id
      requires if n == 0 then iChng == 0 else iChng == Chng(rows, n) && AllBest(rows[..n], ids[..n], nCol, aBest)
      requires |hashes| == n + 1 && current.hash == hashes[n] && (n > 0 ==> AllBestOf(rows[..n], hashes[..n], nCol, aBest))
      modifies `aBest, `current
      ensures AllBestOf(rows, hashes, nCol, aBest)
      ensures AllBest(rows, ids, nCol, aBest) && CurOk(rows, ids, nCol, current) && |aBest| + 1 == nCol
    {
      hide BestOk, CurOk, BetterPost, BestOf, Chng;
      ghost var best0 := aBest;
      assert rows == rows[..n] + [row] && ids == ids[..n] + [id] && hashes == hashes[..n] + [hashes[n]];
      var i := 0;
      while i + 1 < nCol
        invariant 0 <= i < nCol && |aBest| + 1 == nCol && CurOk(rows, ids, nCol, current) && !current.isP
        invariant forall j :: 0 <= j < i ==> BestOk(rows, ids, nCol, aBest[j], j) && BestOf(rows, hashes, nCol, aBest[j], j)
        invariant current.hash == hashes[n]
        invariant forall j :: i <= j < |aBest| ==> aBest[j] == best0[j]
      {
        CurAny(rows, ids, nCol, current, i, current.hash, false);
        current := current.(iCol := i);
        var take := i >= iChng;
        if !take {
          CurShape(rows, ids, nCol, current);
          BestShape(rows[..n], ids[..n], nCol, aBest[i], i);
          take := SampleIsBetterPost(current, aBest[i]);
          if !take {
            BestOfStays(rows[..n], ids[..n], hashes[..n], nCol, aBest[i], current, i, row, id, hashes[n]);
            BestStays(rows[..n], ids[..n], nCol, aBest[i], current, i, row, id);
          }
        }
        if take {
          BestNew(rows, ids, nCol, current, i);
          BestOfNew(rows[..n], ids[..n], hashes[..n], nCol, aBest[i], current, i, row, id, hashes[n]);
          aBest := aBest[i := current];
        }
        i := i + 1;
      }
    }

    /** stat_get, first call: the last row has been scanned, so every run has ended.  Every retained
        sample then has the exact counts of its row. */
    method Finish()
      requires Valid() && nRow > 0
      modifies `a, `aBest, `iMin, `nMaxEqZero
      ensures |a| <= mxSample
      ensures forall p :: 0 <= p < |a| ==> Exact(rows, ids, nCol, a[p])
      ensures forall p, q :: 0 <= p < q < |a| ==> RowOf(a[p]) < RowOf(a[q])
      ensures forall r: nat, k: nat :: r < |rows| && k + 1 < nCol ==>
        Represented(rows, a, r, k) || (|a| == mxSample && Rarer(rows, a, nCol, r, k))
    {
      hide AllBest, Kept, Exact, CurOk, ZerosBefore, IsMin, Shaped, Periodic, Scan, Found, Represented, Rarer, AllBestOf;
      SamplePushPrevious(0);
      forall r: nat, k: nat | r < |rows| && k + 1 < nCol
        ensures Represented(rows, a, r, k) || (|a| == mxSample && Rarer(rows, a, nCol, r, k))
      {
        PrefixFound(rows, ids, nCol, a, |a| == mxSample, iMin, r, k);
      }
      forall p | 0 <= p < |a| ensures Exact(rows, ids, nCol, a[p]) {
        assert PositiveFrom(a[p], nCol, 0);
        NoZeroExact(rows, ids, nCol, a[p], 0);
      }
    }

    /** stat_get: the average number of rows for each value of columns 0 to `i`, rounded up. */
    method Estimate(i: nat) returns (iVal: nat)
      requires Valid() && nRow > 0 && i < nCol
      ensures var keys := |LtKeys(rows, |rows| - 1, i)| + 1;
        (iVal - 1) * keys < |rows| <= iVal * keys
    {
      LastCounts(rows, ids, nCol, current, i);
      var nDistinct := current.anDLt[i] + 1;
      iVal := (nRow + nDistinct - 1) / nDistinct;
      RoundUp(nRow, nDistinct);
    }
  }

  /** An upgraded sample weighs more than before. */
  lemma {:induction false} UpgradeNoneBelow(rows: seq<Row>, ids: seq<int>, nCol: nat, a: seq<Sample>, u: nat, b: Sample, i: nat, m: nat)
    requires AllKept(rows, ids, nCol, a, i + 1) && Ready(rows, ids, nCol, b, i) && u < |a| && !a[u].isP && b.iCol == i
    requires |a[u].anEq| == nCol && i < nCol && a[u].anEq[i] == 0 && i < |b.anEq| && IsMin(a, m, nCol)
    ensures m < |a| && NoneBelow(a[u := Upgraded(a[u], b, i)], WeightOf(a[m]))
  {
    hide Ready, AllKept;
    KeptAt(rows, ids, nCol, a, u, i + 1);
    NewBeatsOld(rows, ids, nCol, b, a[u], i);
  }

  lemma {:induction false} RoundUp(n: nat, d: nat)
    requires d > 0
    ensures ((n + d - 1) / d - 1) * d < n <= ((n + d - 1) / d) * d
  {
    var q := (n + d - 1) / d;
    assert n + d - 1 == d * q + (n + d - 1) % d;
    assert q * d == d * q && (q - 1) * d == d * q - d;
  }

  lemma {:induction false} LastCounts(rows: seq<Row>, ids: seq<int>, nCol: nat, c: Sample, i: nat)
    requires Scan(rows, nCol) && CurOk(rows, ids, nCol, c) && i < nCol
    ensures |c.anDLt| == nCol && c.anDLt[i] == |LtKeys(rows, |rows| - 1, i)|
  {
    CountsAreRuns(rows, nCol, |rows| - 1, i);
    assert LtOk(rows, c, i);
  }

  /** What an exact sample says about the rows of the scan. */
  lemma {:induction false} ExactMeans(rows: seq<Row>, ids: seq<int>, nCol: nat, x: Sample, k: nat)
    requires Scan(rows, nCol) && Exact(rows, ids, nCol, x) && k < nCol
    ensures x.rowid == ids[RowOf(x)]
    ensures x.anEq[k] == |EqRows(rows, RowOf(x), k)|
    ensures x.anLt[k] == |LtRows(rows, RowOf(x), k)|
    ensures x.anDLt[k] == |LtKeys(rows, RowOf(x), k)|
  {
    CountsAreRuns(rows, nCol, RowOf(x), k);
    assert LtOk(rows, x, k) && Full(rows, x, k);
  }

  lemma {:induction false} ChngBound(rows: seq<Row>, nCol: nat, r: nat)
    requires Scan(rows, nCol) && r < |rows|
    ensures r > 0 ==> Chng(rows, r) < nCol
  {
    if r > 0 { assert Follows(rows, r); }
  }

  /** Whether a row is the current one does not depend on why it is sampled. */
  lemma {:induction false} CurAny(rows: seq<Row>, ids: seq<int>, nCol: nat, c: Sample, iCol: nat, hash: nat, isP: bool)
    requires CurOk(rows, ids, nCol, c)
    ensures CurOk(rows, ids, nCol, c.(iCol := iCol, hash := hash, isP := isP))
  {
    var d := c.(iCol := iCol, hash := hash, isP := isP);
    forall k | 0 <= k < nCol ensures LtOk(rows, d, k) && Full(rows, d, k) { assert LtOk(rows, c, k) && Full(rows, c, k); }
  }

  lemma {:induction false} CurLast(rows: seq<Row>, ids: seq<int>, nCol: nat, c: Sample)
    requires CurOk(rows, ids, nCol, c)
    ensures |c.anEq| == |c.anLt| == nCol > 0 && c.anLt[nCol - 1] == |rows| - 1
  {
  }

  /** The counts of column `k` on the way from row `x` to the next one, with the first `upto` columns
      updated. */
  ghost predicate Advanced(x: Sample, y: Sample, k: nat, upto: nat, iChng: nat)
    requires k < |x.anEq| == |x.anLt| == |x.anDLt| && |y.anEq| == |y.anLt| == |y.anDLt| == |x.anEq|
  {
    if k >= upto then y.anEq[k] == x.anEq[k] && y.anLt[k] == x.anLt[k] && y.anDLt[k] == x.anDLt[k]
    else if k < iChng then y.anEq[k] == x.anEq[k] + 1 && y.anLt[k] == x.anLt[k] && y.anDLt[k] == x.anDLt[k]
    else y.anEq[k] == 1 && y.anLt[k] == x.anLt[k] + x.anEq[k] && y.anDLt[k] == x.anDLt[k] + 1
  }

  lemma {:induction false} FirstCur(rows: seq<Row>, ids: seq<int>, nCol: nat, c: Sample)
    requires nCol > 0 && |rows| == |ids| == 1 && c.rowid == ids[0] && |c.anEq| == nCol
    requires c.anLt == Zeros(nCol) == c.anDLt && forall k :: 0 <= k < nCol ==> c.anEq[k] == 1
    ensures CurOk(rows, ids, nCol, c)
  {
    assert RowOf(c) == 0;
    forall k | 0 <= k < nCol ensures LtOk(rows, c, k) && Full(rows, c, k) {}
  }

  lemma {:induction false} NextCur(rows: seq<Row>, ids: seq<int>, nCol: nat, x: Sample, y: Sample, row: Row, id: int, iChng: nat)
    requires CurOk(rows, ids, nCol, x) && iChng == Chng(rows + [row], |rows|) < nCol
    requires |y.anEq| == |y.anLt| == |y.anDLt| == nCol
    requires forall k :: 0 <= k < nCol ==> Advanced(x, y, k, nCol, iChng)
    ensures CurOk(rows + [row], ids + [id], nCol, y.(rowid := id))
  {
    var rows', n := rows + [row], |rows|;
    forall k | 0 <= k < nCol
      ensures y.anLt[k] == Start(rows', n, k) && y.anDLt[k] == Steps(rows', n, k) && y.anEq[k] == n + 1 - Start(rows', n, k) {
      assert LtOk(rows, x, k) && Full(rows, x, k) && Advanced(x, y, k, nCol, iChng);
      StartAppend(rows, row, n - 1, k);
    }
    assert y.anLt[nCol - 1] == n;
  }

  lemma {:induction false} AllAppend(rows: seq<Row>, ids: seq<int>, nCol: nat, a: seq<Sample>, row: Row, id: int, iChng: nat)
    requires AllKept(rows, ids, nCol, a, iChng) && |rows| > 0 && iChng == Chng(rows + [row], |rows|) < nCol
    requires forall p :: 0 <= p < |a| ==> PositiveFrom(a[p], nCol, iChng)
    ensures AllKept(rows + [row], ids + [id], nCol, a, nCol)
    ensures forall p :: 0 <= p < |a| ==> RowOf(a[p]) < |rows|
  {
    LooserKept(rows, ids, nCol, a, iChng, 0);
    forall p | 0 <= p < |a| ensures Kept(rows + [row], ids + [id], nCol, a[p], nCol) && RowOf(a[p]) < |rows| {
      assert Kept(rows, ids, nCol, a[p], iChng) && PositiveFrom(a[p], nCol, iChng);
      forall k | 0 <= k < iChng && Open(rows, a[p], k) ensures a[p].anEq[k] == 0 { assert EqOk(rows, a[p], k, iChng); }
      KeptAppend(rows, ids, nCol, a[p], row, id);
    }
  }

  lemma {:induction false} CurShape(rows: seq<Row>, ids: seq<int>, nCol: nat, c: Sample)
    requires CurOk(rows, ids, nCol, c)
    ensures |c.anEq| == |c.anLt| == |c.anDLt| == nCol && RowOf(c) == |rows| - 1 && |rows| > 0
  {
  }

  lemma {:induction false} BestShape(rows: seq<Row>, ids: seq<int>, nCol: nat, b: Sample, i: nat)
    requires BestOk(rows, ids, nCol, b, i)
    ensures |b.anEq| == nCol && b.iCol == i && !b.isP
  {
  }

  lemma {:induction false} ReadyBest(rows: seq<Row>, ids: seq<int>, nCol: nat, b: Sample, i: nat)
    requires Ready(rows, ids, nCol, b, i)
    ensures BestOk(rows, ids, nCol, b, i)
  {
  }

  lemma {:induction false} PositiveBy(a: seq<Sample>, nCol: nat, z: nat, iChng: nat)
    requires ZerosBefore(a, nCol, z) && z <= iChng
    ensures forall p :: 0 <= p < |a| ==> PositiveFrom(a[p], nCol, iChng)
  {
    forall p | 0 <= p < |a| ensures PositiveFrom(a[p], nCol, iChng) { assert PositiveFrom(a[p], nCol, z); }
  }

  /** Back-filling keeps the samples, their order and the choice of the least preferred one. */
  lemma {:induction false} FilledAll(rows: seq<Row>, ids: seq<int>, nCol: nat, a0: seq<Sample>, a: seq<Sample>,
          c: Sample, iChng: nat, m: nat)
    requires AllKept(rows, ids, nCol, a0, iChng) && CurOk(rows, ids, nCol, c) && iChng < nCol && |c.anEq| == nCol
    requires |a| == |a0| && Shaped(a0, nCol)
    requires forall p :: 0 <= p < |a| ==> |a0[p].anEq| == nCol && a[p] == Filled(a0[p], c, iChng)
    ensures AllKept(rows, ids, nCol, a, iChng) && Shaped(a, nCol) && ZerosBefore(a, nCol, iChng) && Periodic(a) == Periodic(a0)
    ensures IsMin(a0, m, nCol) ==> IsMin(a, m, nCol) && WeightOf(a[m]) == WeightOf(a0[m])
    ensures NoLater(a0, a)
  {
    hide Kept, CurOk, Periodic;
    forall p | 0 <= p < |a|
      ensures Kept(rows, ids, nCol, a[p], iChng) && PositiveFrom(a[p], nCol, iChng)
      ensures !a[p].isP ==> a[p].anEq[a[p].iCol] == a0[p].anEq[a0[p].iCol]
    {
      KeptAt(rows, ids, nCol, a0, p, iChng);
      FilledKept(rows, ids, nCol, a0[p], c, iChng);
      KeptPositive(rows, ids, nCol, a0[p], iChng);
    }
    SamePeriodic(a, a0);
    if IsMin(a0, m, nCol) {
      forall p | 0 <= p < |a| && !a[p].isP ensures !BetterFirst(a[m], a[p]) { assert !BetterFirst(a0[m], a0[p]); }
    }
  }

  lemma {:induction false} KeptPositive(rows: seq<Row>, ids: seq<int>, nCol: nat, x: Sample, lim: nat)
    requires Kept(rows, ids, nCol, x, lim)
    ensures |x.anEq| == nCol && (!x.isP ==> x.iCol < nCol && x.anEq[x.iCol] > 0)
  {
  }

  lemma {:induction false} WiderZeros(a: seq<Sample>, nCol: nat, z: nat, y: nat)
    requires ZerosBefore(a, nCol, z)
    ensures ZerosBefore(a, nCol, if y > z then y else z)
  {
    forall p | 0 <= p < |a| ensures PositiveFrom(a[p], nCol, if y > z then y else z) { assert PositiveFrom(a[p], nCol, z); }
  }

  lemma {:induction false} UpgradeShape(a: seq<Sample>, u: nat, b: Sample, i: nat, nCol: nat, z: nat)
    requires u < |a| && Shaped(a, nCol) && ZerosBefore(a, nCol, z) && i < nCol && PositiveFrom(b, nCol, i) && |a[u].anEq| == nCol
    ensures Shaped(a[u := Upgraded(a[u], b, i)], nCol) && ZerosBefore(a[u := Upgraded(a[u], b, i)], nCol, z)
  {
    var a' := a[u := Upgraded(a[u], b, i)];
    forall p | 0 <= p < |a'| ensures PositiveFrom(a'[p], nCol, z) { assert PositiveFrom(a[p], nCol, z); }
  }

  lemma {:induction false} AppendShape(a: seq<Sample>, y: Sample, nCol: nat, z: nat)
    requires Shaped(a, nCol) && ZerosBefore(a, nCol, z) && PositiveFrom(y, nCol, z) && (!y.isP ==> y.iCol < nCol)
    ensures Shaped(a + [y], nCol) && ZerosBefore(a + [y], nCol, z)
  {
    var a' := a + [y];
    forall p | 0 <= p < |a'| ensures PositiveFrom(a'[p], nCol, z) { if p < |a| { assert PositiveFrom(a[p], nCol, z); } }
  }

  lemma {:induction false} KeptAt(rows: seq<Row>, ids: seq<int>, nCol: nat, a: seq<Sample>, p: nat, lim: nat)
    requires AllKept(rows, ids, nCol, a, lim) && p < |a|
    ensures Kept(rows, ids, nCol, a[p], lim)
  {
  }

  lemma {:induction false} ReadyShape(rows: seq<Row>, ids: seq<int>, nCol: nat, b: Sample, i: nat)
    requires Ready(rows, ids, nCol, b, i)
    ensures i + 1 < nCol && PositiveFrom(b, nCol, i) && PositiveFrom(Zeroed(b, i), nCol, i)
    ensures forall z :: i <= z ==> PositiveFrom(Zeroed(b, i), nCol, z)
  {
    forall k | i <= k < nCol ensures b.anEq[k] > 0 { assert Full(rows, b, k); }
  }

  lemma {:induction false} PeriodicShape(rows: seq<Row>, ids: seq<int>, nCol: nat, c: Sample)
    requires CurOk(rows, ids, nCol, c)
    ensures PositiveFrom(Zeroed(c, nCol - 1), nCol, nCol - 1)
  {
    assert Full(rows, c, nCol - 1);
  }

  lemma {:induction false} NotBetterSelf(x: Sample)
    requires x.iCol < |x.anEq|
    ensures !Better(x, x)
  {
    NotPostSelf(x, x.iCol + 1);
  }

  function Zeros(n: nat): (r: seq<nat>)
    ensures |r| == n && forall k :: 0 <= k < n ==> r[k] == 0
  {
    seq(n, (k: nat) => 0)
  }
}
