/** Collecting the cells of up to three sibling pages, and the dividers between them, into one run
    (the loading loop of balance_nonroot in btree.c). */
module Gather {
  import opened Tree
  import opened Repartition
  import opened Siblings
  import opened PageRules
  import Packing

  /** First cell of page `q` in the run. */
  function Lo(cnt: seq<nat>, leafData: bool, q: nat): nat
    requires q <= |cnt|
  {
    if q == 0 then 0 else cnt[q - 1] + if leafData then 0 else 1
  }

  /** Page `q` is the stretch of the run that the boundaries give it. */
  ghost predicate Holds(cells: seq<Cell>, kids: seq<Page>, leafData: bool, cnt: seq<nat>, q: nat, p: Page)
    requires q < |cnt|
  {
    var s := Lo(cnt, leafData, q);
    && s <= cnt[q] <= |cells|
    && p.cells == cells[s..cnt[q]]
    && (p.Interior? ==> cnt[q] + 1 <= |kids| && p.kids == kids[s..cnt[q] + 1])
  }

  ghost predicate Tracks(cells: seq<Cell>, leafData: bool, cnt: seq<nat>, ptr: CellPtr<Cell>, j: nat)
    requires j < |cells|
  {
    match ptr
    case Copied(c) => c == cells[j]
    case InPage(pg, ix) => pg < |cnt| && Lo(cnt, leafData, pg) + ix == j < cnt[pg]
  }

  function PagePtrs(i: nat, n: nat): (r: seq<CellPtr<Cell>>)
    ensures |r| == n && forall j :: 0 <= j < n ==> r[j] == InPage(i, j)
  {
    seq(n, (j: nat) => InPage(i, j))
  }

  /** State of the loading loop after `i` pages. */
  ghost predicate Loading(divs: seq<Cell>, sibs: seq<Page>, leafData: bool, i: nat, cells: seq<Cell>, kids: seq<Page>,
          cnt: seq<nat>, ptrs: seq<CellPtr<Cell>>)
  {
    && |cnt| == i <= |sibs| == |divs| + 1
    && |ptrs| == |cells|
    && (forall q :: 0 <= q < i ==> Holds(cells, kids, leafData, cnt, q, sibs[q]))
    && (forall q :: 0 <= q < i && q < |divs| && !leafData ==> cnt[q] < |cells| && cells[cnt[q]] == divs[q])
    && (forall j :: 0 <= j < |cells| ==> Tracks(cells, leafData, cnt, ptrs[j], j))
    && |cells| == (if i < |sibs| then Lo(cnt, leafData, i) else if i == 0 then 0 else cnt[i - 1])
  }

  ghost predicate SameLevel(leaf: bool, sibs: seq<Page>)
  {
    forall q :: 0 <= q < |sibs| ==> sibs[q].Leaf? == leaf && (!leaf ==> |sibs[q].kids| == |sibs[q].cells| + 1)
  }

  lemma {:induction false} HoldsMore(cells: seq<Cell>, kids: seq<Page>, leafData: bool, cnt: seq<nat>, q: nat,
          p: Page, cells': seq<Cell>, kids': seq<Page>, cnt': seq<nat>)
    requires q < |cnt| && Holds(cells, kids, leafData, cnt, q, p)
    requires cells <= cells' && kids <= kids' && cnt <= cnt'
    ensures Holds(cells', kids', leafData, cnt', q, p)
  {
    var s := Lo(cnt, leafData, q);
    assert cells'[s..cnt[q]] == cells[s..cnt[q]];
    if p.Interior? { assert kids'[s..cnt[q] + 1] == kids[s..cnt[q] + 1]; }
  }

  lemma {:induction false} TracksMore(cells: seq<Cell>, leafData: bool, cnt: seq<nat>, ptr: CellPtr<Cell>, j: nat,
          cells': seq<Cell>, cnt': seq<nat>)
    requires j < |cells| && Tracks(cells, leafData, cnt, ptr, j)
    requires cells <= cells' && cnt <= cnt'
    ensures Tracks(cells', leafData, cnt', ptr, j)
  {
  }

  /** Loading one more page, followed by its divider unless it is the last or has none. */
  lemma {:induction false} LoadPage(divs: seq<Cell>, sibs: seq<Page>, leaf: bool, leafData: bool, i: nat,
          cells: seq<Cell>, kids: seq<Page>, cnt: seq<nat>, ptrs: seq<CellPtr<Cell>>, more: seq<Cell>,
          morePtrs: seq<CellPtr<Cell>>)
    requires Loading(divs, sibs, leafData, i, cells, kids, cnt, ptrs) && i < |sibs|
    requires SameLevel(leaf, sibs) && (leafData ==> leaf)
    requires leaf ==> kids == []
    requires !leaf ==> |kids| == |cells|
    requires |more| == |morePtrs|
    requires more == if i < |divs| && !leafData then [divs[i]] else []
    requires more != [] ==> morePtrs == [Copied(divs[i])]
    ensures var p := sibs[i];
      var cells' := cells + p.cells + more;
      var kids' := if leaf then [] else kids + p.kids;
      var cnt' := cnt + [|cells + p.cells|];
      var ptrs' := ptrs + PagePtrs(i, |p.cells|) + morePtrs;
      && Loading(divs, sibs, leafData, i + 1, cells', kids', cnt', ptrs')
      && (!leaf ==> |kids'| == |cells'| + if i + 1 < |sibs| then 0 else 1)
  {
    var p := sibs[i];
    var cells' := cells + p.cells + more;
    var kids' := if leaf then [] else kids + p.kids;
    var cnt' := cnt + [|cells + p.cells|];
    var ptrs' := ptrs + PagePtrs(i, |p.cells|) + morePtrs;
    assert sibs[i].Leaf? == leaf;
    assert cells <= cells' && cnt <= cnt' && kids <= kids';
    forall q | 0 <= q < i + 1 ensures Holds(cells', kids', leafData, cnt', q, sibs[q]) {
      if q < i {
        HoldsMore(cells, kids, leafData, cnt, q, sibs[q], cells', kids', cnt');
      } else {
        assert cells'[|cells|..cnt'[i]] == p.cells;
        if !leaf { assert kids'[|cells|..cnt'[i] + 1] == p.kids; }
      }
    }
    forall j | 0 <= j < |cells'| ensures Tracks(cells', leafData, cnt', ptrs'[j], j) {
      if j < |cells| {
        TracksMore(cells, leafData, cnt, ptrs[j], j, cells', cnt');
      }
    }
    forall q | 0 <= q < i + 1 && q < |divs| && !leafData
      ensures cnt'[q] < |cells'| && cells'[cnt'[q]] == divs[q]
    {
      if q < i { assert cells'[cnt[q]] == cells[cnt[q]]; }
    }
  }

  /** When all pages are loaded the run, cut at the recorded boundaries, gives back the pages and
      their dividers, and every pointer leads to its cell. */
  lemma {:induction false} Loaded(divs: seq<Cell>, sibs: seq<Page>, leaf: bool, leafData: bool, cells: seq<Cell>,
          kids: seq<Page>, cnt: seq<nat>, ptrs: seq<CellPtr<Cell>>)
    requires Loading(divs, sibs, leafData, |sibs|, cells, kids, cnt, ptrs)
    requires SameLevel(leaf, sibs) && (leafData ==> leaf)
    requires !leaf ==> |kids| == |cells| + 1
    ensures Cuts(|cells|, leafData, cnt)
    ensures PagesOf(cells, kids, leaf, leafData, cnt) == sibs
    ensures !leafData ==> DivsOf(cells, leafData, cnt) == divs
    ensures Siblings.Loaded(cells, leafData, cnt, ptrs)
  {
    var n := |cells|;
    forall q | 0 <= q < |cnt|
      ensures CutAt(n, leafData, cnt, q) && Packing.Start(cnt, leafData, n, q) == Lo(cnt, leafData, q)
    {
      assert Holds(cells, kids, leafData, cnt, q, sibs[q]);
      if q > 0 { assert Holds(cells, kids, leafData, cnt, q - 1, sibs[q - 1]); }
    }
    assert Cuts(n, leafData, cnt);
    forall q | 0 <= q < |cnt| ensures PageOf(cells, kids, leaf, leafData, cnt, q) == sibs[q] {
      assert Holds(cells, kids, leafData, cnt, q, sibs[q]);
      assert sibs[q].Leaf? == leaf;
    }
    forall j | 0 <= j < n ensures PointsTo(cells, leafData, cnt, ptrs[j], j) {
      assert Tracks(cells, leafData, cnt, ptrs[j], j);
    }
  }

  /** Subtrees of depth `h - 1` that are in order. */
  ghost predicate SoundKids(cfg: Config, h: nat, kids: seq<Page>)
    requires ValidConfig(cfg)
  {
    forall i :: 0 <= i < |kids| ==> h > 0 && Shape(cfg, kids[i], h - 1) && AllOk(cfg, kids[i])
  }

  method LoadCells(cfg: Config, divs: seq<Cell>, sibs: seq<Page>, leaf: bool, ghost h: nat)
    returns (cells: seq<Cell>, kids: seq<Page>, cnt: seq<nat>, ptrs: seq<CellPtr<Cell>>)
    requires ValidConfig(cfg) && 0 < |sibs| == |divs| + 1 && (leaf <==> h == 0)
    requires forall q :: 0 <= q < |sibs| ==> Shape(cfg, sibs[q], h) && BelowOk(cfg, sibs[q])
    requires Kinds(cfg, false, divs)
    ensures var leafData := leaf && cfg.leafData;
      && Cuts(|cells|, leafData, cnt) && |cnt| == |sibs|
      && (!leaf ==> |kids| == |cells| + 1)
      && PagesOf(cells, kids, leaf, leafData, cnt) == sibs
      && (!leafData ==> DivsOf(cells, leafData, cnt) == divs)
      && Siblings.Loaded(cells, leafData, cnt, ptrs)
    ensures Kinds(cfg, leaf, cells) && SoundKids(cfg, h, kids)
  {
    hide Cuts, PagesOf, DivsOf, Siblings.Loaded;
    var leafData := leaf && cfg.leafData;
    cells, kids, cnt, ptrs := [], [], [], [];
    var i := 0;
    assert SameLevel(leaf, sibs) by {
      forall q | 0 <= q < |sibs| ensures sibs[q].Leaf? == leaf && (!leaf ==> |sibs[q].kids| == |sibs[q].cells| + 1) {
        assert Shape(cfg, sibs[q], h);
      }
    }
    while i < |sibs|
      invariant i <= |sibs|
      invariant Loading(divs, sibs, leafData, i, cells, kids, cnt, ptrs)
      invariant leaf ==> kids == []
      invariant !leaf ==> |kids| == |cells| + if i < |sibs| then 0 else 1
      invariant Kinds(cfg, leaf, cells) && SoundKids(cfg, h, kids)
    {
      var p := sibs[i];
      assert p.Leaf? == leaf && Shape(cfg, p, h) && BelowOk(cfg, p);
      var more, morePtrs := [], [];
      if i < |divs| && !leafData {
        more, morePtrs := [divs[i]], [Copied(divs[i])];
      }
      LoadPage(divs, sibs, leaf, leafData, i, cells, kids, cnt, ptrs, more, morePtrs);
      cnt := cnt + [|cells + p.cells|];
      cells := cells + p.cells + more;
      if !leaf { kids := kids + p.kids; }
      ptrs := ptrs + PagePtrs(i, |p.cells|) + morePtrs;
      i := i + 1;
    }
    Loaded(divs, sibs, leaf, leafData, cells, kids, cnt, ptrs);
  }
}
