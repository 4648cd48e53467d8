/** balance_nonroot, balance_quick and balance_deeper of btree.c on pages as cell sequences. */
module Balancing {
  import opened Tree
  import opened PageRules
  import opened Repartition
  import opened Redistribute
  import Packing
  import Siblings
  import Gather
  import Counting

  // ------------------------------------------------------------------ redistribution

  ghost predicate NewPage(cfg: Config, h: nat, p: Page)
    requires ValidConfig(cfg)
  {
    Shape(cfg, p, h) && BelowOk(cfg, p) && Bytes(cfg, h == 0, p.cells) <= Space(cfg, h == 0)
  }

  /** What redistribution hands back to the parent. */
  ghost predicate Settled(cfg: Config, h: nat, divs: seq<Cell>, pages: seq<Page>)
    requires ValidConfig(cfg)
  {
    && 1 <= |pages| <= Packing.NB + 2 && |divs| + 1 == |pages|
    && Kinds(cfg, false, divs)
    && (forall i :: 0 <= i < |pages| ==> NewPage(cfg, h, pages[i]))
    && (|pages| >= 2 ==> forall i :: 0 <= i < |pages| ==> pages[i].cells != [])
  }

  /** Bytes of two neighbouring pages and, unless they are table leaves, of the divider between them. */
  function Together(cfg: Config, l: Page, c: Cell, r: Page): nat
    requires ValidConfig(cfg)
  {
    Bytes(cfg, l.Leaf?, l.cells) + Bytes(cfg, r.Leaf?, r.cells) + if l.Leaf? && cfg.leafData then 0 else Bytes(cfg, l.Leaf?, [c])
  }

  /** No two neighbours fit on one page. */
  ghost predicate NoneMerge(cfg: Config, divs: seq<Cell>, pages: seq<Page>)
    requires ValidConfig(cfg) && |pages| == |divs| + 1
  {
    forall i :: 0 <= i < |divs| ==> Together(cfg, pages[i], divs[i], pages[i + 1]) > Space(cfg, pages[i].Leaf?)
  }

  /** The pages are those of a run of cells that was packed greedily and then evened out. */
  ghost predicate SpreadEvenly(cfg: Config, leaf: bool, bulk: bool, divs: seq<Cell>, pages: seq<Page>)
    requires ValidConfig(cfg)
  {
    exists cells, kids, cnt, greedy :: SpreadBy(cfg, leaf, bulk, cells, kids, cnt, greedy, divs, pages)
  }

  ghost predicate SpreadBy(cfg: Config, leaf: bool, bulk: bool, cells: seq<Cell>, kids: seq<Page>, cnt: seq<nat>,
          greedy: seq<nat>, divs: seq<Cell>, pages: seq<Page>)
    requires ValidConfig(cfg)
  {
    var leafData := leaf && cfg.leafData;
    && Cuts(|cells|, leafData, cnt) && (!leaf ==> |kids| == |cells| + 1)
    && pages == PagesOf(cells, kids, leaf, leafData, cnt) && divs == DivsOf(cells, leafData, cnt)
    && Packing.GreedyPages(Sizes(cfg, leaf, cells), leafData, Space(cfg, leaf), greedy)
    && Packing.EvenedFrom(Sizes(cfg, leaf, cells), leafData, bulk, greedy, cnt)
  }

  lemma {:induction false} MovableCount(cfg: Config, h: nat, divs: seq<Cell>, sibs: seq<Page>, q: nat, carry: Carry)
    requires ValidConfig(cfg) && Movable(cfg, h, divs, sibs, q, carry)
    ensures 1 <= |sibs| <= Packing.NB
  {
  }

  /** Decide the new boundaries for a loaded run.  Never reports corruption. */
  method Plan(cfg: Config, ghost h: nat, leaf: bool, bulk: bool, ghost divs: seq<Cell>, sibs: seq<Page>, ghost q: nat,
          ghost carry: Carry, cells: seq<Cell>, kids: seq<Page>, cntOld: seq<nat>)
    returns (cntNew: seq<nat>, ghost szNew: seq<int>, ghost greedy: seq<nat>)
    requires ValidConfig(cfg) && (leaf <==> h == 0)
    requires Movable(cfg, h, divs, sibs, q, carry)
    requires Kinds(cfg, leaf, cells) && (!leaf ==> |kids| == |cells| + 1)
    requires var leafData := leaf && cfg.leafData;
      Cuts(|cells|, leafData, cntOld) && |cntOld| == |sibs| && PagesOf(cells, kids, leaf, leafData, cntOld) == sibs
    ensures Packing.GoodPacking(Sizes(cfg, leaf, cells), leaf && cfg.leafData, Space(cfg, leaf), cntNew, szNew)
    ensures Packing.Fewest(Sizes(cfg, leaf, cells), leaf && cfg.leafData, Space(cfg, leaf), |cntNew|)
    ensures Packing.GreedyPages(Sizes(cfg, leaf, cells), leaf && cfg.leafData, Space(cfg, leaf), greedy)
    ensures Packing.EvenedFrom(Sizes(cfg, leaf, cells), leaf && cfg.leafData, bulk, greedy, cntNew)
    ensures |sibs| == 1 && !(leaf && cfg.leafData) ==> |cntNew| <= 3
  {
    hide Packing.Fewest, Packing.GreedyPages, Packing.EvenedFrom;
    hide Movable, Kinds, Cuts, PagesOf, Packing.GoodPacking, Packing.Feasible, Packing.OldPages, Packing.SmallCells, Bytes;
    var leafData := leaf && cfg.leafData;
    var sizes, space := Sizes(cfg, leaf, cells), Space(cfg, leaf);
    var szOld := seq(|sibs|, i requires 0 <= i < |sibs| => Bytes(cfg, leaf, sibs[i].cells));
    MovableCount(cfg, h, divs, sibs, q, carry);
    OldSizes(cfg, leaf, cells, kids, leafData, cntOld, sibs, szOld);
    SmallEnough(cfg, leaf, cells);
    var ok, sz;
    ok, cntNew, sz, greedy := Packing.Pack(sizes, leafData, bulk, space, cntOld, szOld);
    szNew := sz;
    PackSucceeds(cfg, h, divs, sibs, q, carry, cells, kids, cntOld);
    assert sizes == Sizes(cfg, h == 0, cells) && space == Space(cfg, h == 0);
    if !leafData && |sibs| == 1 { AtMost(|cntNew|, space, Packing.Prefix(sizes, |sizes|)); }
  }

  /** Whatever up to three pages and their overflow cells hold fits on five pages. */
  lemma {:induction false} PackSucceeds(cfg: Config, h: nat, divs: seq<Cell>, sibs: seq<Page>, q: nat, carry: Carry,
          cells: seq<Cell>, kids: seq<Page>, cntOld: seq<nat>)
    requires ValidConfig(cfg) && Movable(cfg, h, divs, sibs, q, carry)
    requires Kinds(cfg, h == 0, cells) && (h > 0 ==> |kids| == |cells| + 1)
    requires var leafData := h == 0 && cfg.leafData;
      Cuts(|cells|, leafData, cntOld) && |cntOld| == |sibs| && PagesOf(cells, kids, h == 0, leafData, cntOld) == sibs
    ensures var sizes, space := Sizes(cfg, h == 0, cells), Space(cfg, h == 0);
      if h == 0 && cfg.leafData then Packing.Feasible(sizes, true, space)
      else Packing.Prefix(sizes, |sizes|) <= (Packing.NB + 2) * space
           && (|sibs| == 1 ==> Packing.Prefix(sizes, |sizes|) < 3 * space)
  {
    if h == 0 && cfg.leafData {
      LeafPagesAlike(cells, kids, cntOld);
      LeavesFit(cfg, divs, sibs, q, carry, cells, cntOld);
    } else {
      RunFits(cfg, h, divs, sibs, q, carry, cells, kids, cntOld);
    }
  }

  lemma {:induction false} AtMost(k: nat, space: nat, total: nat)
    requires (k - 1) * space <= total < 3 * space
    ensures k <= 3
  {
    if k > 3 { Counting.MulLe(3, k - 1, space); }
  }

  lemma {:induction false} ExtendOld(cells: seq<Cell>, leafData: bool, cnt: seq<nat>, ptrs: seq<Siblings.CellPtr<Cell>>, k: nat)
    requires Cuts(|cells|, leafData, cnt) && Siblings.Loaded(cells, leafData, cnt, ptrs)
    ensures var c := cnt + seq(k, (i: nat) => |cells|);
      && Siblings.Ordered(|cells|, leafData, c) && Siblings.Loaded(cells, leafData, c, ptrs)
      && (forall i :: 0 <= i < |cnt| ==> Packing.Start(c, leafData, |cells|, i) == Packing.Start(cnt, leafData, |cells|, i) && c[i] == cnt[i])
      && (forall i :: |cnt| <= i < |c| ==> Packing.Start(c, leafData, |cells|, i) == |cells| == c[i])
  {
    var n := |cells|;
    var c := cnt + seq(k, (i: nat) => n);
    forall i | 0 <= i < |c| ensures c[i] <= n && Siblings.Advances(n, leafData, c, i) {
      if i < |cnt| { assert CutAt(n, leafData, cnt, i); }
    }
    forall j | 0 <= j < n ensures Siblings.PointsTo(cells, leafData, c, ptrs[j], j) {
      assert Siblings.PointsTo(cells, leafData, cnt, ptrs[j], j);
    }
  }

  /** Write the new pages, fetching every cell through its pointer. */
  method WritePages(cells: seq<Cell>, leafData: bool, sibs: seq<Page>, cntOld: seq<nat>, cntNew: seq<nat>,
          ptrs: seq<Siblings.CellPtr<Cell>>, ghost kids: seq<Page>, ghost leaf: bool)
    returns (contents: seq<seq<Cell>>)
    requires Cuts(|cells|, leafData, cntOld) && |cntOld| == |sibs| && Siblings.Loaded(cells, leafData, cntOld, ptrs)
    requires !leaf ==> |kids| == |cells| + 1 && !leafData
    requires PagesOf(cells, kids, leaf, leafData, cntOld) == sibs
    requires Cuts(|cells|, leafData, cntNew)
    ensures |contents| == |cntNew|
    ensures forall p :: 0 <= p < |cntNew| ==> contents[p] == PageOf(cells, kids, leaf, leafData, cntNew, p).cells
  {
    var n := |cells|;
    var all := cntOld + seq(|cntNew|, (i: nat) => n);
    ExtendOld(cells, leafData, cntOld, ptrs, |cntNew|);
    CutsInRange(n, leafData, cntNew);
    var pages := new seq<Cell>[|all|](i => []);
    var i := 0;
    while i < |sibs|
      invariant i <= |sibs|
      invariant forall p :: 0 <= p < |all| ==> pages[p] == if p < i then sibs[p].cells else []
    {
      pages[i] := sibs[i].cells;
      i := i + 1;
    }
    forall p | 0 <= p < |all| ensures pages[p] == Siblings.Slice(cells, leafData, all, p) {
      if p < |sibs| {
        assert CutAt(n, leafData, cntOld, p);
        assert sibs[p] == PageOf(cells, kids, leaf, leafData, cntOld, p);
      }
    }
    var done := Siblings.EditSiblings(pages, cells, leafData, all, cntNew, ptrs, Divider(0));
    contents := pages[..|cntNew|];
    forall p | 0 <= p < |cntNew| ensures contents[p] == PageOf(cells, kids, leaf, leafData, cntNew, p).cells {
      assert CutAt(n, leafData, cntNew, p);
    }
  }

  /** The new pages, with the children that go with their cells, and the dividers between them. */
  method Build(cells: seq<Cell>, kids: seq<Page>, leaf: bool, leafData: bool, cntNew: seq<nat>, contents: seq<seq<Cell>>)
    returns (newDivs: seq<Cell>, newPages: seq<Page>)
    requires Cuts(|cells|, leafData, cntNew) && (!leaf ==> |kids| == |cells| + 1 && !leafData)
    requires |contents| == |cntNew|
    requires forall p :: 0 <= p < |cntNew| ==> contents[p] == PageOf(cells, kids, leaf, leafData, cntNew, p).cells
    ensures newPages == PagesOf(cells, kids, leaf, leafData, cntNew)
    ensures newDivs == DivsOf(cells, leafData, cntNew)
  {
    newPages, newDivs := [], [];
    var i := 0;
    while i < |cntNew|
      invariant i <= |cntNew| && |newPages| == i && |newDivs| == if i == 0 then 0 else i - 1
      invariant forall p :: 0 <= p < i ==> newPages[p] == PageOf(cells, kids, leaf, leafData, cntNew, p)
      invariant forall p :: 0 <= p < i - 1 ==> newDivs[p] == DivOf(cells, leafData, cntNew, p)
    {
      assert CutAt(|cells|, leafData, cntNew, i);
      if i > 0 {
        assert CutAt(|cells|, leafData, cntNew, i - 1);
        var c := cntNew[i - 1];
        newDivs := newDivs + [if !leafData then cells[c] else if c > 0 then Divider(cells[c - 1].key) else Divider(0)];
      }
      var s := Packing.Start(cntNew, leafData, |cells|, i);
      newPages := newPages + [if leaf then Leaf(contents[i]) else Interior(contents[i], kids[s..cntNew[i] + 1])];
      i := i + 1;
    }
  }

  /** Redistribute the cells of the siblings over as many pages as they need. */
  method Spread(cfg: Config, ghost h: nat, leaf: bool, bulk: bool, divs: seq<Cell>, sibs: seq<Page>, ghost q: nat, ghost carry: Carry)
    returns (newDivs: seq<Cell>, newPages: seq<Page>)
    requires ValidConfig(cfg) && (leaf <==> h == 0)
    requires Movable(cfg, h, divs, sibs, q, carry)
    ensures Settled(cfg, h, newDivs, newPages)
    ensures SameReading(Weave(divs, sibs), Weave(newDivs, newPages))
    ensures |sibs| >= 2 || sibs[q].cells != [] ==> newPages[0].cells != []
    ensures |sibs| == 1 ==> Bytes(cfg, false, newDivs) <= Room(cfg, 0, false)
    ensures NoneMerge(cfg, newDivs, newPages) && SpreadEvenly(cfg, leaf, bulk, newDivs, newPages)
  {
    hide Packing.Fewest, NoneMerge, Packing.GreedyPages, Packing.EvenedFrom;
    var leafData := leaf && cfg.leafData;
    var cells, kids, cntOld, ptrs := Gather.LoadCells(cfg, divs, sibs, leaf, h);
    var cntNew;
    ghost var szNew, greedy;
    cntNew, szNew, greedy := Plan(cfg, h, leaf, bulk, divs, sibs, q, carry, cells, kids, cntOld);
    GoodCuts(Sizes(cfg, leaf, cells), leafData, Space(cfg, leaf), cntNew, szNew);
    var contents := WritePages(cells, leafData, sibs, cntOld, cntNew, ptrs, kids, leaf);
    newDivs, newPages := Build(cells, kids, leaf, leafData, cntNew, contents);
    if |sibs| >= 2 { assert PageOk(cfg, sibs[if q == 0 then 1 else 0]); }
    SpreadSound(cfg, h, divs, sibs, q, cells, kids, cntOld, cntNew, szNew, newDivs, newPages);
    SpreadFewest(cfg, h, cells, kids, cntNew, szNew);
    assert SpreadBy(cfg, leaf, bulk, cells, kids, cntNew, greedy, newDivs, newPages);
  }

  /** A stretch of cells in two parts, the second of which may begin with a divider. */
  lemma {:induction false} StretchBytes(cfg: Config, leaf: bool, cells: seq<Cell>, s: nat, c: nat, e: nat)
    requires ValidConfig(cfg) && s <= c <= e <= |cells|
    ensures Bytes(cfg, leaf, cells[s..e]) == Bytes(cfg, leaf, cells[s..c]) + Bytes(cfg, leaf, cells[c..e])
    ensures c < e ==> Bytes(cfg, leaf, cells[c..e]) == Bytes(cfg, leaf, [cells[c]]) + Bytes(cfg, leaf, cells[c + 1..e])
  {
    hide Bytes;
    BytesConcat(cfg, leaf, cells[s..c], cells[c..e]);
    assert cells[s..c] + cells[c..e] == cells[s..e];
    if c < e {
      BytesConcat(cfg, leaf, [cells[c]], cells[c + 1..e]);
      assert [cells[c]] + cells[c + 1..e] == cells[c..e];
    }
  }

  /** The fewest pages leave no two neighbours that could be one. */
  lemma {:induction false} SpreadFewest(cfg: Config, h: nat, cells: seq<Cell>, kids: seq<Page>, cnt: seq<nat>, sz: seq<int>)
    requires ValidConfig(cfg) && (h > 0 ==> |kids| == |cells| + 1)
    requires var leafData := h == 0 && cfg.leafData;
      && Packing.GoodPacking(Sizes(cfg, h == 0, cells), leafData, Space(cfg, h == 0), cnt, sz) && Cuts(|cells|, leafData, cnt)
      && Packing.Fewest(Sizes(cfg, h == 0, cells), leafData, Space(cfg, h == 0), |cnt|)
    ensures var leafData := h == 0 && cfg.leafData;
      NoneMerge(cfg, DivsOf(cells, leafData, cnt), PagesOf(cells, kids, h == 0, leafData, cnt))
  {
    hide Bytes, Together, Packing.Fewest, Sizes;
    var leaf := h == 0;
    var leafData := leaf && cfg.leafData;
    var divs, pages := DivsOf(cells, leafData, cnt), PagesOf(cells, kids, leaf, leafData, cnt);
    forall i | 0 <= i < |divs| ensures Together(cfg, pages[i], divs[i], pages[i + 1]) > Space(cfg, pages[i].Leaf?) {
      PairFewest(cfg, leaf, cells, kids, cnt, i);
    }
  }

  lemma {:induction false} PairFewest(cfg: Config, leaf: bool, cells: seq<Cell>, kids: seq<Page>, cnt: seq<nat>, i: nat)
    requires ValidConfig(cfg) && (!leaf ==> |kids| == |cells| + 1)
    requires var leafData := leaf && cfg.leafData;
      && Packing.Fits(Sizes(cfg, leaf, cells), leafData, Space(cfg, leaf), cnt) && Cuts(|cells|, leafData, cnt)
      && Packing.Fewest(Sizes(cfg, leaf, cells), leafData, Space(cfg, leaf), |cnt|)
    requires i + 1 < |cnt|
    ensures var leafData := leaf && cfg.leafData;
      Together(cfg, PageOf(cells, kids, leaf, leafData, cnt, i), DivOf(cells, leafData, cnt, i), PageOf(cells, kids, leaf, leafData, cnt, i + 1))
        > Space(cfg, leaf)
  {
    hide Packing.Fewest, Packing.Fits, Packing.Prefix, Sizes;
    var leafData := leaf && cfg.leafData;
    var s := Packing.Start(cnt, leafData, |cells|, i);
    assert CutAt(|cells|, leafData, cnt, i) && CutAt(|cells|, leafData, cnt, i + 1);
    Packing.NeighboursApart(Sizes(cfg, leaf, cells), leafData, Space(cfg, leaf), cnt, i);
    BytesSlice(cfg, leaf, cells, s, cnt[i + 1]);
    hide Bytes;
    StretchBytes(cfg, leaf, cells, s, cnt[i], cnt[i + 1]);
  }

  lemma {:induction false} SpreadSound(cfg: Config, h: nat, divs: seq<Cell>, sibs: seq<Page>, q: nat,
          cells: seq<Cell>, kids: seq<Page>, cntOld: seq<nat>, cntNew: seq<nat>, szNew: seq<int>, newDivs: seq<Cell>,
          newPages: seq<Page>)
    requires ValidConfig(cfg) && Kinds(cfg, h == 0, cells) && Gather.SoundKids(cfg, h, kids) && Kinds(cfg, false, divs)
    requires h > 0 ==> |kids| == |cells| + 1
    requires var leafData := h == 0 && cfg.leafData;
      && Cuts(|cells|, leafData, cntOld) && |cntOld| == |sibs| == |divs| + 1
      && PagesOf(cells, kids, h == 0, leafData, cntOld) == sibs
      && (!leafData ==> DivsOf(cells, leafData, cntOld) == divs)
      && Packing.GoodPacking(Sizes(cfg, h == 0, cells), leafData, Space(cfg, h == 0), cntNew, szNew)
      && Cuts(|cells|, leafData, cntNew) && NoneEmpty(|cells|, leafData, cntNew)
      && (|sibs| == 1 && !leafData ==> |cntNew| <= 3)
      && newPages == PagesOf(cells, kids, h == 0, leafData, cntNew)
      && newDivs == DivsOf(cells, leafData, cntNew)
    requires q < |sibs| && (|sibs| >= 2 ==> exists j :: 0 <= j < |sibs| && sibs[j].cells != [])
    ensures Settled(cfg, h, newDivs, newPages)
    ensures SameReading(Weave(divs, sibs), Weave(newDivs, newPages))
    ensures |sibs| >= 2 || sibs[q].cells != [] ==> newPages[0].cells != []
    ensures |sibs| == 1 ==> Bytes(cfg, false, newDivs) <= Room(cfg, 0, false)
  {
    var leafData := h == 0 && cfg.leafData;
    forall i | 0 <= i < |newPages|
      ensures NewPage(cfg, h, newPages[i])
      ensures |newPages| >= 2 ==> newPages[i].cells != []
      ensures |newPages| == 1 ==> newPages[i].cells == cells
    {
      NewPagesSound(cfg, h, cells, kids, cntNew, szNew, i);
    }
    NewDivKinds(cfg, h, cells, cntNew);
    ScanKept(cfg, h == 0, divs, cells, kids, cntOld, cntNew);
    if |sibs| >= 2 || sibs[q].cells != [] {
      var j :| 0 <= j < |sibs| && sibs[j].cells != [];
      assert CutAt(|cells|, leafData, cntOld, j);
      assert sibs[j] == PageOf(cells, kids, h == 0, leafData, cntOld, j);
    }
    if |sibs| == 1 {
      FewCells(cfg, false, newDivs);
      if !cfg.leafData { Counting.MulLe(|newDivs|, 2, Space(cfg, false) / 3); }
    }
  }

  // ------------------------------------------------------------------ the parent

  /** What a scan visits before, and after, a stretch of children. */
  ghost function OuterLeft(pre: seq<Cell>, preKids: seq<Page>): seq<Cell>
    requires |preKids| == |pre|
  {
    if pre == [] then [] else Weave(pre[..|pre| - 1], preKids) + [pre[|pre| - 1]]
  }

  ghost function OuterRight(post: seq<Cell>, postKids: seq<Page>): seq<Cell>
    requires |postKids| == |post|
  {
    if post == [] then [] else [post[0]] + Weave(post[1..], postKids)
  }

  lemma {:induction false} WeaveMiddle(pre: seq<Cell>, preKids: seq<Page>, divs: seq<Cell>, pages: seq<Page>,
          post: seq<Cell>, postKids: seq<Page>)
    requires |preKids| == |pre| && |postKids| == |post| && |pages| == |divs| + 1
    ensures Weave(pre + divs + post, preKids + pages + postKids)
            == OuterLeft(pre, preKids) + Weave(divs, pages) + OuterRight(post, postKids)
  {
    WeaveTail(divs, pages, post, postKids);
    assert pre + divs + post == pre + (divs + post) && preKids + pages + postKids == preKids + (pages + postKids);
    if pre == [] {
      assert pre + (divs + post) == divs + post && preKids + (pages + postKids) == pages + postKids;
    } else {
      var n := |pre| - 1;
      assert pre + (divs + post) == pre[..n] + [pre[n]] + (divs + post);
      WeaveSplit(pre[..n], preKids, pre[n], divs + post, pages + postKids);
      Assoc(OuterLeft(pre, preKids), Weave(divs, pages), OuterRight(post, postKids));
    }
  }

  lemma {:induction false} WeaveTail(divs: seq<Cell>, pages: seq<Page>, post: seq<Cell>, postKids: seq<Page>)
    requires |postKids| == |post| && |pages| == |divs| + 1
    ensures Weave(divs + post, pages + postKids) == Weave(divs, pages) + OuterRight(post, postKids)
  {
    if post == [] {
      assert divs + post == divs && pages + postKids == pages;
    } else {
      assert divs + post == divs + [post[0]] + post[1..];
      WeaveSplit(divs, pages, post[0], post[1..], postKids);
    }
  }

  /** Bytes on the parent when the first `n` dividers have been inserted. */
  function Filled(cfg: Config, pre: seq<Cell>, divs: seq<Cell>, post: seq<Cell>, n: nat): nat
    requires ValidConfig(cfg) && n <= |divs|
  {
    Bytes(cfg, false, pre + divs[..n] + post)
  }

  /** Insert divider cells side by side at `at`; what does not fit becomes overflow cells. */
  method InsertCells(cfg: Config, room: nat, pre: seq<Cell>, divs: seq<Cell>, post: seq<Cell>) returns (carry: Carry)
    requires ValidConfig(cfg) && |divs| <= 4
    requires Bytes(cfg, false, pre + post) <= room
    ensures Carrying(cfg, false, pre + divs + post, room, carry)
    ensures carry.count > 0 ==> Bytes(cfg, false, pre + divs + post) > room
  {
    hide Bytes, CellSize, Carrying;
    assert pre + divs[..0] + post == pre + post;
    var nFree := room - Filled(cfg, pre, divs, post, 0);
    var nOverflow, fit := 0, 0;
    var i := 0;
    while i < |divs|
      invariant i == fit + nOverflow <= |divs|
      invariant nFree == room - Filled(cfg, pre, divs, post, fit) >= 0
      invariant nOverflow > 0 ==> 2 + CellSize(cfg, false, divs[fit]) > nFree
    {
      var sz := CellSize(cfg, false, divs[i]);
      if nOverflow > 0 || sz + 2 > nFree {
        nOverflow := nOverflow + 1;
      } else {
        InsertOne(cfg, pre, divs, post, i);
        nFree := nFree - (2 + sz);
        fit := fit + 1;
      }
      i := i + 1;
    }
    carry := if nOverflow == 0 then Carry(0, 0) else Carry(|pre| + fit, nOverflow);
    InsertedCarry(cfg, room, pre, divs, post, fit);
  }

  /** The last dividers, from `first` on, overflow. */
  lemma {:induction false} InsertedCarry(cfg: Config, room: nat, pre: seq<Cell>, divs: seq<Cell>, post: seq<Cell>, first: nat)
    requires ValidConfig(cfg) && |divs| <= 4 && first <= |divs|
    requires Filled(cfg, pre, divs, post, first) <= room
    requires first < |divs| ==> 2 + CellSize(cfg, false, divs[first]) > room - Filled(cfg, pre, divs, post, first)
    ensures var carry := if first == |divs| then Carry(0, 0) else Carry(|pre| + first, |divs| - first);
      && Carrying(cfg, false, pre + divs + post, room, carry)
      && (carry.count > 0 ==> Bytes(cfg, false, pre + divs + post) > room)
  {
    if first == |divs| {
      AllFit(cfg, room, pre, divs, post);
    } else {
      SetApart(pre, divs, post, first);
      InsertOne(cfg, pre, divs, post, first);
      InsertRest(cfg, pre, divs, post, first + 1);
      assert divs[..|divs|] == divs;
    }
  }

  lemma {:induction false} AllFit(cfg: Config, room: nat, pre: seq<Cell>, divs: seq<Cell>, post: seq<Cell>)
    requires ValidConfig(cfg) && Filled(cfg, pre, divs, post, |divs|) <= room
    ensures Carrying(cfg, false, pre + divs + post, room, Carry(0, 0))
  {
    var all := pre + divs + post;
    assert divs[..|divs|] == divs;
    assert all[..0] + all[0..] == all;
  }

  lemma {:induction false} SetApart(pre: seq<Cell>, divs: seq<Cell>, post: seq<Cell>, first: nat)
    requires first <= |divs|
    ensures var all := pre + divs + post;
      all[..|pre| + first] + all[|pre| + first + (|divs| - first)..] == pre + divs[..first] + post
  {
    var all := pre + divs + post;
    assert all[..|pre| + first] == pre + divs[..first];
    assert all[|pre| + |divs|..] == post;
  }

  lemma {:induction false} InsertOne(cfg: Config, pre: seq<Cell>, divs: seq<Cell>, post: seq<Cell>, i: nat)
    requires ValidConfig(cfg) && i < |divs|
    ensures Filled(cfg, pre, divs, post, i + 1) == Filled(cfg, pre, divs, post, i) + 2 + CellSize(cfg, false, divs[i])
  {
    var a := pre + divs[..i];
    assert pre + divs[..i + 1] == a + [divs[i]];
    BytesConcat(cfg, false, a + [divs[i]], post);
    BytesConcat(cfg, false, a, [divs[i]]);
    BytesConcat(cfg, false, a, post);
    BytesOne(cfg, false, divs[i]);
  }

  lemma {:induction false} InsertRest(cfg: Config, pre: seq<Cell>, divs: seq<Cell>, post: seq<Cell>, i: nat)
    requires ValidConfig(cfg) && i <= |divs|
    ensures Filled(cfg, pre, divs, post, |divs|) >= Filled(cfg, pre, divs, post, i)
    decreases |divs| - i
  {
    if i < |divs| {
      InsertOne(cfg, pre, divs, post, i);
      InsertRest(cfg, pre, divs, post, i + 1);
    }
  }
}
