/** The two-pass rewrite of sibling pages at the end of balance_nonroot in btree.c.

    The cells being redistributed are reached through pointers into the very pages that are being
    rewritten, so a page must not be edited while another page still has to fetch cells from it. */
module Siblings {
  import opened Packing

  /** Where an entry of `b.apCell` points: into an old sibling page, or to a copy of a divider. */
  datatype CellPtr<T> = InPage(pg: nat, ix: nat) | Copied(cell: T)

  /** What following a pointer finds now; `junk` when the page no longer has that many cells. */
  function Fetch<T>(pages: seq<seq<T>>, p: CellPtr<T>, junk: T): T
  {
    match p
    case Copied(c) => c
    case InPage(pg, ix) => if pg < |pages| && ix < |pages[pg]| then pages[pg][ix] else junk
  }

  ghost function Slice<T>(cells: seq<T>, leafData: bool, cnt: seq<nat>, i: nat): seq<T>
    requires i < |cnt| && InRange(cnt, |cells|)
  {
    var s := Start(cnt, leafData, |cells|, i);
    if s <= cnt[i] then cells[s..cnt[i]] else []
  }

  ghost predicate Advances(n: nat, leafData: bool, cnt: seq<nat>, i: nat)
    requires i < |cnt|
  {
    Start(cnt, leafData, n, i) <= cnt[i]
  }

  ghost predicate Ordered(n: nat, leafData: bool, cnt: seq<nat>)
  {
    InRange(cnt, n) && forall i :: 0 <= i < |cnt| ==> Advances(n, leafData, cnt, i)
  }

  /** Pointer `j` leads to cell `j`: on old page `p` it is the cell at its place in that page's run. */
  ghost predicate PointsTo<T>(cells: seq<T>, leafData: bool, cntOld: seq<nat>, p: CellPtr<T>, j: nat)
    requires j < |cells|
  {
    match p
    case Copied(c) => c == cells[j]
    case InPage(pg, ix) =>
      && pg < |cntOld|
      && Start(cntOld, leafData, |cells|, pg) + ix == j < cntOld[pg]
  }

  ghost predicate Loaded<T>(cells: seq<T>, leafData: bool, cntOld: seq<nat>, ptrs: seq<CellPtr<T>>)
  {
    |ptrs| == |cells| && forall j :: 0 <= j < |cells| ==> PointsTo(cells, leafData, cntOld, ptrs[j], j)
  }

  /** Page `q` takes no cell from the old content of page `p`. */
  ghost predicate Apart(n: nat, leafData: bool, cntOld: seq<nat>, cntNew: seq<nat>, q: nat, p: nat)
    requires q < |cntNew| && p < |cntOld|
  {
    cntNew[q] <= Start(cntOld, leafData, n, p) || cntOld[p] <= Start(cntNew, leafData, n, q)
  }

  lemma {:induction false} BoundariesAscend(n: nat, leafData: bool, cnt: seq<nat>, a: nat, b: nat)
    requires Ordered(n, leafData, cnt) && a <= b < |cnt|
    ensures cnt[a] <= cnt[b]
    ensures a < b ==> cnt[a] <= Start(cnt, leafData, n, b)
    decreases b
  {
    if a < b {
      BoundariesAscend(n, leafData, cnt, a, b - 1);
      assert Advances(n, leafData, cnt, b);
    }
  }

  /** Cells to the left of the boundary stay left: page `p` may be edited before page `q`, whether
      `q` lies to the left and condition (1) holds at `p`, or `q` lies to the right and was skipped. */
  lemma {:induction false} SafeToEdit(n: nat, leafData: bool, cntOld: seq<nat>, cntNew: seq<nat>, p: nat, q: nat)
    requires Ordered(n, leafData, cntOld) && Ordered(n, leafData, cntNew)
    requires p < |cntNew| <= |cntOld| && q < |cntNew| && p != q
    requires q < p ==> cntOld[p - 1] >= cntNew[p - 1]
    requires q > p ==> cntOld[q - 1] < cntNew[q - 1]
    ensures Apart(n, leafData, cntOld, cntNew, q, p)
  {
    if q < p {
      BoundariesAscend(n, leafData, cntNew, q, p - 1);
      BoundariesAscend(n, leafData, cntOld, p - 1, p);
    } else {
      BoundariesAscend(n, leafData, cntOld, p, q - 1);
      BoundariesAscend(n, leafData, cntNew, q - 1, q);
    }
  }

  ghost function Target<T>(cells: seq<T>, leafData: bool, cntOld: seq<nat>, cntNew: seq<nat>, done: set<nat>, p: nat): seq<T>
    requires InRange(cntOld, |cells|) && InRange(cntNew, |cells|) && p < |cntOld|
  {
    if p in done && p < |cntNew| then Slice(cells, leafData, cntNew, p) else Slice(cells, leafData, cntOld, p)
  }

  /** What the pages hold when the pages in `done` have been edited. */
  ghost predicate Midway<T>(cells: seq<T>, leafData: bool, cntOld: seq<nat>, cntNew: seq<nat>, pages: seq<seq<T>>, done: set<nat>)
    requires InRange(cntOld, |cells|) && InRange(cntNew, |cells|)
  {
    && |cntNew| <= |cntOld| == |pages|
    && (forall p :: 0 <= p < |pages| ==> pages[p] == Target(cells, leafData, cntOld, cntNew, done, p))
    && (forall q, p :: 0 <= q < |cntNew| && q !in done && p in done && p < |cntOld|
          ==> Apart(|cells|, leafData, cntOld, cntNew, q, p))
  }

  /** Fetching the cells of an unedited page finds the original cells. */
  lemma {:induction false} FetchFindsOriginal<T>(cells: seq<T>, leafData: bool, cntOld: seq<nat>, cntNew: seq<nat>,
          ptrs: seq<CellPtr<T>>, pages: seq<seq<T>>, done: set<nat>, q: nat, j: nat, junk: T)
    requires Ordered(|cells|, leafData, cntOld) && Ordered(|cells|, leafData, cntNew)
    requires Loaded(cells, leafData, cntOld, ptrs)
    requires Midway(cells, leafData, cntOld, cntNew, pages, done)
    requires q < |cntNew| && q !in done
    requires Start(cntNew, leafData, |cells|, q) <= j < cntNew[q]
    ensures Fetch(pages, ptrs[j], junk) == cells[j]
  {
    assert PointsTo(cells, leafData, cntOld, ptrs[j], j);
    if ptrs[j].InPage? {
      var p := ptrs[j].pg;
      if p !in done {
        assert pages[p] == Slice(cells, leafData, cntOld, p);
      }
    }
  }

  /** Rewrite page `pg` with the cells from `iNew` to `iEnd`. */
  method EditPage<T>(pages: array<seq<T>>, pg: nat, iNew: nat, iEnd: nat, ptrs: seq<CellPtr<T>>, junk: T)
    requires pg < pages.Length && iNew <= iEnd <= |ptrs|
    modifies pages
    ensures |pages[pg]| == iEnd - iNew
    ensures forall j :: 0 <= j < iEnd - iNew ==> pages[pg][j] == Fetch(old(pages[..]), ptrs[iNew + j], junk)
    ensures forall p :: 0 <= p < pages.Length && p != pg ==> pages[p] == old(pages[p])
  {
    var now := pages[..];
    var content := [];
    var j := iNew;
    while j < iEnd
      invariant iNew <= j <= iEnd && |content| == j - iNew
      invariant forall x :: 0 <= x < j - iNew ==> content[x] == Fetch(now, ptrs[iNew + x], junk)
    {
      content := content + [Fetch(now, ptrs[j], junk)];
      j := j + 1;
    }
    pages[pg] := content;
  }

  /** Edit one page of the sweep. */
  method EditOne<T>(pages: array<seq<T>>, ghost cells: seq<T>, leafData: bool, ghost cntOld: seq<nat>,
          cntNew: seq<nat>, ptrs: seq<CellPtr<T>>, iPg: nat, ghost done: set<nat>, junk: T)
    requires Ordered(|cells|, leafData, cntOld) && Ordered(|cells|, leafData, cntNew)
    requires Loaded(cells, leafData, cntOld, ptrs)
    requires Midway(cells, leafData, cntOld, cntNew, pages[..], done)
    requires iPg < |cntNew| && iPg !in done
    requires forall q :: 0 <= q < |cntNew| && q !in done && q != iPg ==> Apart(|cells|, leafData, cntOld, cntNew, q, iPg)
    modifies pages
    ensures Midway(cells, leafData, cntOld, cntNew, pages[..], done + {iPg})
  {
    ghost var now := pages[..];
    var iNew := Start(cntNew, leafData, |ptrs|, iPg);
    assert Advances(|cells|, leafData, cntNew, iPg);
    EditPage(pages, iPg, iNew, cntNew[iPg], ptrs, junk);
    ghost var want := Slice(cells, leafData, cntNew, iPg);
    forall j | 0 <= j < |want| ensures pages[iPg][j] == want[j] {
      FetchFindsOriginal(cells, leafData, cntOld, cntNew, ptrs, now, done, iPg, iNew + j, junk);
    }
    assert pages[iPg] == want;
    MidwayStep(cells, leafData, cntOld, cntNew, now, pages[..], done, iPg);
  }

  lemma {:induction false} MidwayStep<T>(cells: seq<T>, leafData: bool, cntOld: seq<nat>, cntNew: seq<nat>,
          before: seq<seq<T>>, after: seq<seq<T>>, done: set<nat>, iPg: nat)
    requires Ordered(|cells|, leafData, cntOld) && Ordered(|cells|, leafData, cntNew)
    requires Midway(cells, leafData, cntOld, cntNew, before, done)
    requires |after| == |before| && iPg < |cntNew|
    requires forall p :: 0 <= p < |after| && p != iPg ==> after[p] == before[p]
    requires after[iPg] == Slice(cells, leafData, cntNew, iPg)
    requires forall q :: 0 <= q < |cntNew| && q !in done && q != iPg ==> Apart(|cells|, leafData, cntOld, cntNew, q, iPg)
    ensures Midway(cells, leafData, cntOld, cntNew, after, done + {iPg})
  {
  }

  /** Where the sweep stands at step `i` with respect to page `q`. */
  ghost predicate SweepAt(cntOld: seq<nat>, cntNew: seq<nat>, i: int, done: set<nat>, q: nat)
    requires |cntNew| <= |cntOld| && q < |cntNew|
  {
    && (q < i ==> q in done)
    && (q <= -i ==> q !in done)
    && (q > -i && q !in done ==> q > 0 && cntOld[q - 1] < cntNew[q - 1])
  }

  ghost predicate Sweep(cntOld: seq<nat>, cntNew: seq<nat>, i: int, done: set<nat>)
    requires |cntNew| <= |cntOld|
  {
    && (forall q :: 0 <= q < |cntNew| ==> SweepAt(cntOld, cntNew, i, done, q))
    && (forall q :: q in done ==> q < |cntNew|)
  }

  /** Step `i` edits page `|i|` if that page is not done and, on the way down, nothing moves off it
      to the left; the edit is safe and the sweep goes on. */
  lemma {:induction false} SweepStep(n: nat, leafData: bool, cntOld: seq<nat>, cntNew: seq<nat>, i: int, done: set<nat>)
    requires Ordered(n, leafData, cntOld) && Ordered(n, leafData, cntNew)
    requires |cntNew| <= |cntOld| && Sweep(cntOld, cntNew, i, done) && -|cntNew| < i < |cntNew|
    ensures var iPg := if i < 0 then -i else i;
      if iPg !in done && (i >= 0 || cntOld[iPg - 1] >= cntNew[iPg - 1])
      then Sweep(cntOld, cntNew, i + 1, done + {iPg})
           && forall q :: 0 <= q < |cntNew| && q !in done && q != iPg ==> Apart(n, leafData, cntOld, cntNew, q, iPg)
      else Sweep(cntOld, cntNew, i + 1, done)
  {
    var iPg := if i < 0 then -i else i;
    var edit := iPg !in done && (i >= 0 || cntOld[iPg - 1] >= cntNew[iPg - 1]);
    var done' := if edit then done + {iPg} else done;
    forall q | 0 <= q < |cntNew|
      ensures SweepAt(cntOld, cntNew, i + 1, done', q)
      ensures edit && q !in done && q != iPg ==> Apart(n, leafData, cntOld, cntNew, q, iPg)
    {
      assert SweepAt(cntOld, cntNew, i, done, q);
      assert SweepAt(cntOld, cntNew, i, done, iPg);
      if edit && q !in done && q != iPg {
        SafeToEdit(n, leafData, cntOld, cntNew, iPg, q);
      }
    }
  }

  /** The sweep: down from the last page to the first, then up again over the pages left out.
     `abDone` counts the edits of each page. */
  method EditSiblings<T>(pages: array<seq<T>>, ghost cells: seq<T>, leafData: bool, cntOld: seq<nat>,
          cntNew: seq<nat>, ptrs: seq<CellPtr<T>>, junk: T)
    returns (abDone: array<nat>)
    requires Ordered(|cells|, leafData, cntOld) && Ordered(|cells|, leafData, cntNew)
    requires 0 < |cntNew| <= |cntOld| == pages.Length
    requires Loaded(cells, leafData, cntOld, ptrs)
    requires forall p :: 0 <= p < pages.Length ==> pages[p] == Slice(cells, leafData, cntOld, p)
    modifies pages
    ensures forall p :: 0 <= p < |cntNew| ==> pages[p] == Slice(cells, leafData, cntNew, p)
    ensures abDone.Length == |cntNew| && forall p :: 0 <= p < |cntNew| ==> abDone[p] == 1
  {
    var nNew := |cntNew|;
    abDone := new nat[nNew](i => 0);
    ghost var done: set<nat> := {};
    var i := 1 - nNew;
    while i < nNew
      invariant 1 - nNew <= i <= nNew
      invariant Midway(cells, leafData, cntOld, cntNew, pages[..], done)
      invariant fresh(abDone)
      invariant forall p :: 0 <= p < nNew ==> abDone[p] == if p in done then 1 else 0
      invariant Sweep(cntOld, cntNew, i, done)
    {
      var iPg := if i < 0 then -i else i;
      SweepStep(|cells|, leafData, cntOld, cntNew, i, done);
      if abDone[iPg] == 0 && (i >= 0 || cntOld[iPg - 1] >= cntNew[iPg - 1]) {
        EditOne(pages, cells, leafData, cntOld, cntNew, ptrs, iPg, done, junk);
        abDone[iPg] := abDone[iPg] + 1;
        done := done + {iPg};
      }
      i := i + 1;
    }
    AllDone(cells, leafData, cntOld, cntNew, pages[..], done);
  }

  lemma {:induction false} AllDone<T>(cells: seq<T>, leafData: bool, cntOld: seq<nat>, cntNew: seq<nat>, pages: seq<seq<T>>, done: set<nat>)
    requires InRange(cntOld, |cells|) && InRange(cntNew, |cells|)
    requires Midway(cells, leafData, cntOld, cntNew, pages, done) && Sweep(cntOld, cntNew, |cntNew|, done)
    ensures forall p :: 0 <= p < |cntNew| ==> p in done && pages[p] == Slice(cells, leafData, cntNew, p)
  {
    forall p | 0 <= p < |cntNew| ensures p in done {
      assert SweepAt(cntOld, cntNew, |cntNew|, done, p);
    }
  }
}
