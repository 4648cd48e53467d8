/** The rows of an index in scan order, and what the sqlite_stat4 columns nEq, nLt and nDLt mean for
    them: counts of rows and of distinct prefixes (analyze.c). */
module IndexScan {
  type Row = seq<int>

  /** The leftmost column in which two rows differ; their length if none does. */
  function Diff(a: Row, b: Row): (d: nat)
    requires |a| == |b|
    ensures d <= |a|
  {
    if a == [] then 0 else if a[0] != b[0] then 0 else 1 + Diff(a[1..], b[1..])
  }

  lemma {:induction false} DiffSplits(a: Row, b: Row)
    requires |a| == |b|
    ensures var d := Diff(a, b); a[..d] == b[..d] && (d < |a| ==> a[d] != b[d])
  {
    if a != [] && a[0] == b[0] {
      DiffSplits(a[1..], b[1..]);
      var d := Diff(a[1..], b[1..]);
      assert a[..d + 1] == [a[0]] + a[1..][..d] && b[..d + 1] == [b[0]] + b[1..][..d];
    }
  }

  lemma {:induction false} DiffIs(a: Row, b: Row, d: nat)
    requires |a| == |b| && d < |a| && a[..d] == b[..d] && a[d] != b[d]
    ensures Diff(a, b) == d
  {
    DiffSplits(a, b);
    var e := Diff(a, b);
    forall x | 0 <= x < d ensures a[x] == b[x] { assert a[..d][x] == b[..d][x]; }
    forall x | 0 <= x < e ensures a[x] == b[x] { assert a[..e][x] == b[..e][x]; }
  }

  /** Lexicographic order. */
  predicate Less(a: Row, b: Row)
  {
    |a| == |b| && Diff(a, b) < |a| && a[Diff(a, b)] < b[Diff(a, b)]
  }

  /** Distinct rows of `nCol` columns in ascending order. */
  ghost predicate Scan(rows: seq<Row>, nCol: nat)
  {
    && nCol > 0
    && (forall r :: 0 <= r < |rows| ==> |rows[r]| == nCol)
    && (forall r :: 0 < r < |rows| ==> Follows(rows, r))
  }

  ghost predicate Follows(rows: seq<Row>, r: nat)
    requires 0 < r < |rows|
  {
    Less(rows[r - 1], rows[r])
  }

  /** The leftmost column of row `r` that differs from the row before it (stat_push's argument C). */
  function Chng(rows: seq<Row>, r: nat): nat
    requires 0 < r < |rows|
  {
    if |rows[r - 1]| == |rows[r]| then Diff(rows[r - 1], rows[r]) else 0
  }

  // ------------------------------------------------------------------ what the columns mean

  /** The rows that agree with row `r` in columns 0 to `k`. */
  ghost function EqRows(rows: seq<Row>, r: nat, k: nat): set<nat>
    requires r < |rows|
  {
    set s: nat | s < |rows| && Agree(rows[s], rows[r], k)
  }

  /** The rows whose columns 0 to `k` are less than those of row `r`. */
  ghost function LtRows(rows: seq<Row>, r: nat, k: nat): set<nat>
    requires r < |rows|
  {
    set s: nat | s < |rows| && Below(rows[s], rows[r], k)
  }

  /** The distinct values of columns 0 to `k` less than that of row `r`. */
  ghost function LtKeys(rows: seq<Row>, r: nat, k: nat): set<Row>
    requires r < |rows|
  {
    set s | s in LtRows(rows, r, k) :: Prefix(rows[s], k)
  }

  function Prefix(a: Row, k: nat): Row
  {
    if k < |a| then a[..k + 1] else a
  }

  ghost predicate Agree(a: Row, b: Row, k: nat)
  {
    Prefix(a, k) == Prefix(b, k)
  }

  ghost predicate Below(a: Row, b: Row, k: nat)
  {
    Less(Prefix(a, k), Prefix(b, k))
  }

  // ------------------------------------------------------------------ runs of equal prefixes

  /** The first row of the run of rows around `r` that agree in columns 0 to `k`. */
  function Start(rows: seq<Row>, r: nat, k: nat): (s: nat)
    requires r < |rows|
    ensures s <= r
  {
    if r == 0 || Chng(rows, r) <= k then r else Start(rows, r - 1, k)
  }

  /** One past the last row of that run. */
  function Stop(rows: seq<Row>, r: nat, k: nat): (e: nat)
    requires r < |rows|
    ensures r < e <= |rows|
    decreases |rows| - r
  {
    if r + 1 == |rows| || Chng(rows, r + 1) <= k then r + 1 else Stop(rows, r + 1, k)
  }

  /** How many runs precede it. */
  function Steps(rows: seq<Row>, r: nat, k: nat): nat
    requires r < |rows|
  {
    if r == 0 then 0 else Steps(rows, r - 1, k) + if Chng(rows, r) <= k then 1 else 0
  }

  lemma {:induction false} LessTransitive(a: Row, b: Row, c: Row)
    requires Less(a, b) && Less(b, c)
    ensures Less(a, c) && Diff(a, c) == if Diff(a, b) <= Diff(b, c) then Diff(a, b) else Diff(b, c)
  {
    DiffSplits(a, b);
    DiffSplits(b, c);
    var d := if Diff(a, b) <= Diff(b, c) then Diff(a, b) else Diff(b, c);
    assert a[..d] == a[..Diff(a, b)][..d] && b[..d] == b[..Diff(a, b)][..d];
    assert b[..d] == b[..Diff(b, c)][..d] && c[..d] == c[..Diff(b, c)][..d];
    if Diff(a, b) < Diff(b, c) { assert b[..Diff(b, c)][d] == c[..Diff(b, c)][d]; }
    if Diff(b, c) < Diff(a, b) { assert a[..Diff(a, b)][d] == b[..Diff(a, b)][d]; }
    DiffIs(a, c, d);
  }

  /** Two rows agree up to column `k` exactly when no row in between changes one of these columns. */
  lemma {:induction false} Between(rows: seq<Row>, nCol: nat, s: nat, r: nat, k: nat)
    requires Scan(rows, nCol) && s < r < |rows|
    ensures Less(rows[s], rows[r])
    ensures Diff(rows[s], rows[r]) <= k <==> Start(rows, r, k) > s
    decreases r - s
  {
    assert Follows(rows, r);
    if s < r - 1 {
      Between(rows, nCol, s, r - 1, k);
      LessTransitive(rows[s], rows[r - 1], rows[r]);
    }
  }

  lemma {:induction false} PrefixDiff(a: Row, b: Row, k: nat)
    requires |a| == |b| && k < |a|
    ensures Agree(a, b, k) <==> Diff(a, b) > k
    ensures Less(a, b) ==> (Below(a, b, k) <==> Diff(a, b) <= k) && !Below(b, a, k)
  {
    DiffSplits(a, b);
    var d := Diff(a, b);
    var p, q := Prefix(a, k), Prefix(b, k);
    if d > k {
      assert a[..k + 1] == a[..d][..k + 1] && b[..k + 1] == b[..d][..k + 1];
      DiffSame(p);
    } else {
      assert p[d] != q[d];
      assert p[..d] == a[..d] && q[..d] == b[..d];
      DiffIs(p, q, d);
      DiffIs(q, p, d);
    }
  }

  lemma {:induction false} DiffSame(a: Row)
    ensures Diff(a, a) == |a|
  {
    DiffSplits(a, a);
  }

  /** How row `s` compares with row `r` up to column `k`. */
  lemma {:induction false} Position(rows: seq<Row>, nCol: nat, s: nat, r: nat, k: nat)
    requires Scan(rows, nCol) && s < |rows| && r < |rows| && k < nCol
    ensures Below(rows[s], rows[r], k) <==> s < Start(rows, r, k)
    ensures Agree(rows[s], rows[r], k) <==> Start(rows, r, k) <= s < Stop(rows, r, k)
  {
    if s < r {
      Between(rows, nCol, s, r, k);
      PrefixDiff(rows[s], rows[r], k);
    } else if r < s {
      Between(rows, nCol, r, s, k);
      PrefixDiff(rows[r], rows[s], k);
      StopStart(rows, r, s, k);
    } else {
      DiffSame(Prefix(rows[r], k));
    }
  }

  lemma {:induction false} StopStart(rows: seq<Row>, r: nat, s: nat, k: nat)
    requires r < s < |rows|
    ensures s < Stop(rows, r, k) <==> Start(rows, s, k) <= r
    decreases s - r
  {
    if r + 1 < s {
      StopStart(rows, r + 1, s, k);
      if Chng(rows, r + 1) <= k { StartBound(rows, r + 1, s, k); } else { StartChanges(rows, s, k); }
    }
  }

  /** A run starts at the first row or at a row that changes one of its columns. */
  lemma {:induction false} StartChanges(rows: seq<Row>, s: nat, k: nat)
    requires s < |rows|
    ensures Start(rows, s, k) > 0 ==> Chng(rows, Start(rows, s, k)) <= k
  {
    if s > 0 && Chng(rows, s) > k { StartChanges(rows, s - 1, k); }
  }

  lemma {:induction false} StartBound(rows: seq<Row>, m: nat, s: nat, k: nat)
    requires 0 < m <= s < |rows| && Chng(rows, m) <= k
    ensures m <= Start(rows, s, k)
    decreases s
  {
    if m < s { StartBound(rows, m, s - 1, k); }
  }

  /** All rows of a run have the same start. */
  lemma {:induction false} SameRun(rows: seq<Row>, s: nat, r: nat, k: nat)
    requires s <= r < |rows| && Start(rows, r, k) <= s
    ensures Start(rows, s, k) == Start(rows, r, k) && Steps(rows, s, k) == Steps(rows, r, k)
    decreases r
  {
    if s < r { SameRun(rows, s, r - 1, k); }
  }

  // ------------------------------------------------------------------ counting

  ghost function UpTo(n: nat): (r: set<nat>)
    ensures |r| == n && forall x: nat :: x in r <==> x < n
  {
    if n == 0 then {} else UpTo(n - 1) + {n - 1}
  }

  lemma {:induction false} Interval(s: set<nat>, a: nat, b: nat)
    requires a <= b && forall x: nat :: x in s <==> a <= x < b
    ensures |s| == b - a
  {
    assert UpTo(b) == UpTo(a) + s && UpTo(a) !! s;
  }

  /** The sqlite_stat4 columns of row `r`, read off its run: nEq is the length of the run, nLt its start
      and nDLt the number of runs before it. */
  lemma {:induction false} CountsAreRuns(rows: seq<Row>, nCol: nat, r: nat, k: nat)
    requires Scan(rows, nCol) && r < |rows| && k < nCol
    ensures |EqRows(rows, r, k)| == Stop(rows, r, k) - Start(rows, r, k)
    ensures |LtRows(rows, r, k)| == Start(rows, r, k)
    ensures |LtKeys(rows, r, k)| == Steps(rows, r, k)
  {
    forall s: nat ensures s in EqRows(rows, r, k) <==> Start(rows, r, k) <= s < Stop(rows, r, k) {
      if s < |rows| { Position(rows, nCol, s, r, k); }
    }
    forall s: nat ensures s in LtRows(rows, r, k) <==> 0 <= s < Start(rows, r, k) {
      if s < |rows| { Position(rows, nCol, s, r, k); }
    }
    Interval(EqRows(rows, r, k), Start(rows, r, k), Stop(rows, r, k));
    Interval(LtRows(rows, r, k), 0, Start(rows, r, k));
    KeysAreSteps(rows, nCol, r, k);
  }

  /** Each run before that of row `r` adds one distinct prefix. */
  lemma {:induction false} KeysAreSteps(rows: seq<Row>, nCol: nat, r: nat, k: nat)
    requires Scan(rows, nCol) && r < |rows| && k < nCol
    ensures |LtKeys(rows, r, k)| == Steps(rows, r, k)
    decreases r
  {
    if r == 0 {
      forall s: nat | s < |rows| ensures s !in LtRows(rows, 0, k) { Position(rows, nCol, s, 0, k); }
      assert LtKeys(rows, 0, k) == {};
    } else {
      KeysAreSteps(rows, nCol, r - 1, k);
      if Chng(rows, r) <= k {
        NewKey(rows, nCol, r, k);
      } else {
        forall s: nat ensures s in LtRows(rows, r, k) <==> s in LtRows(rows, r - 1, k) {
          if s < |rows| { Position(rows, nCol, s, r, k); Position(rows, nCol, s, r - 1, k); }
        }
        assert LtRows(rows, r, k) == LtRows(rows, r - 1, k);
      }
    }
  }

  lemma {:induction false} NewKey(rows: seq<Row>, nCol: nat, r: nat, k: nat)
    requires Scan(rows, nCol) && 0 < r < |rows| && k < nCol && Chng(rows, r) <= k
    ensures |LtKeys(rows, r, k)| == |LtKeys(rows, r - 1, k)| + 1
  {
    var key := Prefix(rows[r - 1], k);
    forall s: nat | s < |rows|
      ensures s in LtRows(rows, r, k) <==> s in LtRows(rows, r - 1, k) || (s < r && Agree(rows[s], rows[r - 1], k))
      ensures s in LtRows(rows, r - 1, k) ==> Prefix(rows[s], k) != key
    {
      Position(rows, nCol, s, r, k);
      Position(rows, nCol, s, r - 1, k);
      DiffSame(key);
    }
    assert Agree(rows[r - 1], rows[r - 1], k);
    assert r - 1 in LtRows(rows, r, k);
    assert LtKeys(rows, r, k) == LtKeys(rows, r - 1, k) + {key};
    assert key !in LtKeys(rows, r - 1, k);
  }
}
