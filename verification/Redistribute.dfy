/** Redistributing the cells of neighbouring pages (the core of balance_nonroot in btree.c). */
module Redistribute {
  import opened Tree
  import opened Order
  import opened PageRules
  import opened Repartition
  import Packing
  import Siblings
  import Gather
  import Counting

  /** The overflow cells of a page: `count` consecutive cells starting at `at`, held outside the
      page because they did not fit. */
  datatype Carry = Carry(at: nat, count: nat)

  ghost predicate Carrying(cfg: Config, leaf: bool, cells: seq<Cell>, room: int, c: Carry)
    requires ValidConfig(cfg)
  {
    && c.count <= 4
    && c.at + c.count <= |cells|
    && (cfg.leafData && leaf ==> c.count <= 1)
    && Bytes(cfg, leaf, cells[..c.at] + cells[c.at + c.count..]) <= room
  }

  // ------------------------------------------------------------------ reading the same

  /** `b` stays within the key range of `a`. */
  ghost predicate Within(a: seq<Cell>, b: seq<Cell>)
  {
    forall i :: 0 <= i < |b| ==> |a| > 0 && Rank(a[0]) <= Rank(b[i]) <= Rank(a[|a| - 1])
  }

  /** A scan `b` that may replace the scan `a`: same entries, in order, in the same range. */
  ghost predicate SameReading(a: seq<Cell>, b: seq<Cell>)
  {
    Sorted(a) ==> Entries(a) == Entries(b) && Sorted(b) && Within(a, b)
  }

  lemma {:induction false} SameItself(a: seq<Cell>)
    ensures SameReading(a, a)
  {
    if Sorted(a) {
      forall i | 0 <= i < |a| ensures Rank(a[0]) <= Rank(a[i]) <= Rank(a[|a| - 1]) {
        if 0 < i { assert Rank(a[0]) < Rank(a[i]); }
        if i < |a| - 1 { assert Rank(a[i]) < Rank(a[|a| - 1]); }
      }
    }
  }

  lemma {:induction false} SameTransitive(a: seq<Cell>, b: seq<Cell>, c: seq<Cell>)
    requires SameReading(a, b) && SameReading(b, c)
    ensures SameReading(a, c)
  {
    if Sorted(a) {
      forall i | 0 <= i < |c| ensures |a| > 0 && Rank(a[0]) <= Rank(c[i]) <= Rank(a[|a| - 1]) {
        assert Rank(b[0]) <= Rank(c[i]) <= Rank(b[|b| - 1]);
        assert Rank(a[0]) <= Rank(b[0]) && Rank(b[|b| - 1]) <= Rank(a[|a| - 1]);
      }
    }
  }

  lemma {:induction false} SortedSandwich(pre: seq<Cell>, a: seq<Cell>, b: seq<Cell>, post: seq<Cell>)
    requires Sorted(pre + a + post) && Sorted(b) && Within(a, b)
    ensures Sorted(pre + b + post)
  {
    SortedParts(pre, a, post);
    var t := pre + b + post;
    forall i, j | 0 <= i < j < |t| ensures Rank(t[i]) < Rank(t[j]) {
      var n, m := |pre|, |pre| + |b|;
      if i < n && j < n { assert t[i] == pre[i] && t[j] == pre[j]; }
      else if i < n && j < m { assert t[j] == b[j - n]; assert Rank(a[0]) <= Rank(b[j - n]); assert Rank(pre[i]) < Rank(a[0]); }
      else if i < n { assert t[j] == post[j - m]; }
      else if j < m { assert t[i] == b[i - n] && t[j] == b[j - n]; }
      else if i < m { assert t[i] == b[i - n] && t[j] == post[j - m]; assert Rank(a[|a| - 1]) < Rank(post[j - m]); }
      else { assert t[i] == post[i - m] && t[j] == post[j - m]; }
    }
  }

  /** Replacing a stretch of a scan by one that reads the same. */
  lemma {:induction false} SameInContext(pre: seq<Cell>, a: seq<Cell>, b: seq<Cell>, post: seq<Cell>)
    requires SameReading(a, b)
    ensures SameReading(pre + a + post, pre + b + post)
  {
    if Sorted(pre + a + post) {
      SortedParts(pre, a, post);
      SortedSandwich(pre, a, b, post);
      EntriesConcat(pre + a, post);
      EntriesConcat(pre, a);
      EntriesConcat(pre + b, post);
      EntriesConcat(pre, b);
      var s, t := pre + a + post, pre + b + post;
      forall i | 0 <= i < |t| ensures |s| > 0 && Rank(s[0]) <= Rank(t[i]) <= Rank(s[|s| - 1]) {
        ContextRange(pre, a, b, post, i);
      }
    }
  }

  lemma {:induction false} ContextRange(pre: seq<Cell>, a: seq<Cell>, b: seq<Cell>, post: seq<Cell>, i: nat)
    requires Sorted(pre + a + post) && Within(a, b) && i < |pre + b + post|
    ensures var s, t := pre + a + post, pre + b + post;
      |s| > 0 && Rank(s[0]) <= Rank(t[i]) <= Rank(s[|s| - 1])
  {
    var s, t := pre + a + post, pre + b + post;
    var n, m := |pre|, |pre| + |b|;
    SameItself(s);
    if i < n {
      assert t[i] == s[i];
    } else if i < m {
      assert t[i] == b[i - n];
      assert Rank(a[0]) <= Rank(b[i - n]) <= Rank(a[|a| - 1]);
      assert a[0] == s[n] && a[|a| - 1] == s[n + |a| - 1];
    } else {
      assert t[i] == post[i - m] == s[n + |a| + i - m];
    }
  }

  // ------------------------------------------------------------------ how much there is to pack

  /** Bytes on page `q` of a run, measured two ways. */
  lemma {:induction false} PageBytes(cfg: Config, leaf: bool, cells: seq<Cell>, kids: seq<Page>, leafData: bool, cnt: seq<nat>, q: nat)
    requires ValidConfig(cfg)
    requires Cuts(|cells|, leafData, cnt) && q < |cnt| && (!leaf ==> |kids| == |cells| + 1 && !leafData)
    requires Packing.InRange(cnt, |cells|)
    ensures Packing.PageSize(Sizes(cfg, leaf, cells), leafData, cnt, q)
            == Bytes(cfg, leaf, PageOf(cells, kids, leaf, leafData, cnt, q).cells)
  {
    assert CutAt(|cells|, leafData, cnt, q);
    BytesSlice(cfg, leaf, cells, Packing.Start(cnt, leafData, |cells|, q), cnt[q]);
  }

  lemma {:induction false} CutsInRange(n: nat, leafData: bool, cnt: seq<nat>)
    requires Cuts(n, leafData, cnt)
    ensures Packing.InRange(cnt, n) && Siblings.Ordered(n, leafData, cnt)
  {
    forall i | 0 <= i < |cnt| ensures cnt[i] <= n && Siblings.Advances(n, leafData, cnt, i) {
      assert CutAt(n, leafData, cnt, i);
    }
  }

  /** `n` cells take at most `n` times what one of them may take. */
  lemma {:induction false} CellsTimes(cfg: Config, leaf: bool, cells: seq<Cell>, x: nat)
    requires ValidConfig(cfg)
    requires forall i :: 0 <= i < |cells| ==> 2 + CellSize(cfg, leaf, cells[i]) <= x
    ensures Bytes(cfg, leaf, cells) <= |cells| * x
  {
    if cells == [] {
      assert Bytes(cfg, leaf, cells) == 0;
    } else {
      var n := |cells| - 1;
      var front, last := cells[..n], cells[n];
      CellsTimes(cfg, leaf, front, x);
      assert cells == front + [last];
      BytesConcat(cfg, leaf, front, [last]);
      BytesOne(cfg, leaf, last);
      MulSucc(n, x);
    }
  }

  lemma {:induction false} MulSucc(n: nat, x: nat)
    ensures (n + 1) * x == n * x + x
  {
  }

  /** `n` cells that are not on a table leaf take at most `n` thirds of a page. */
  lemma {:induction false} FewCells(cfg: Config, leaf: bool, cells: seq<Cell>)
    requires ValidConfig(cfg) && Kinds(cfg, leaf, cells) && !(cfg.leafData && leaf)
    ensures Bytes(cfg, leaf, cells) <= |cells| * (Space(cfg, leaf) / 3)
    ensures cfg.leafData ==> Bytes(cfg, leaf, cells) <= |cells| * 15
  {
    forall i | 0 <= i < |cells|
      ensures 2 + CellSize(cfg, leaf, cells[i]) <= Space(cfg, leaf) / 3
      ensures cfg.leafData ==> 2 + CellSize(cfg, leaf, cells[i]) <= 15
    {
      assert CellKind(cfg, leaf, cells[i]);
      CellLimit(cfg, leaf, cells[i]);
    }
    CellsTimes(cfg, leaf, cells, Space(cfg, leaf) / 3);
    if cfg.leafData { CellsTimes(cfg, leaf, cells, 15); }
  }

  /** A page with some cells set apart. */
  lemma {:induction false} CarriedSplit(cfg: Config, leaf: bool, cells: seq<Cell>, at: nat, count: nat)
    requires ValidConfig(cfg) && at + count <= |cells|
    ensures Bytes(cfg, leaf, cells) == Bytes(cfg, leaf, cells[..at] + cells[at + count..]) + Bytes(cfg, leaf, cells[at..at + count])
  {
    var a, o, b := cells[..at], cells[at..at + count], cells[at + count..];
    assert cells == a + o + b;
    BytesConcat(cfg, leaf, a + o, b);
    BytesConcat(cfg, leaf, a, o);
    BytesConcat(cfg, leaf, a, b);
  }

  lemma {:induction false} CarriedBytes(cfg: Config, leaf: bool, cells: seq<Cell>, room: int, c: Carry)
    requires ValidConfig(cfg) && Kinds(cfg, leaf, cells) && !(cfg.leafData && leaf)
    requires Carrying(cfg, leaf, cells, room, c)
    ensures Bytes(cfg, leaf, cells) <= room + 4 * (Space(cfg, leaf) / 3)
  {
    CarriedSplit(cfg, leaf, cells, c.at, c.count);
    FewCells(cfg, leaf, cells[c.at..c.at + c.count]);
    Counting.MulLe(c.count, 4, Space(cfg, leaf) / 3);
  }

  /** Room taken by the pages of a run up to page `i`, their dividers included. */
  lemma {:induction false} RunBytes(sizes: seq<nat>, cnt: seq<nat>, space: nat, third: nat, q: nat, i: nat)
    requires Cuts(|sizes|, false, cnt) && i < |cnt| && Packing.InRange(cnt, |sizes|)
    requires forall j :: 0 <= j < |sizes| ==> 2 + sizes[j] <= third
    requires forall j :: 0 <= j < |cnt| ==> Packing.PageSize(sizes, false, cnt, j) <= space + if j == q then 4 * third else 0
    ensures Packing.Prefix(sizes, cnt[i]) <= (i + 1) * space + i * third + if q <= i then 4 * third else 0
  {
    assert CutAt(|sizes|, false, cnt, i);
    if i > 0 {
      RunBytes(sizes, cnt, space, third, q, i - 1);
      StartAfter(|sizes|, cnt, i);
      assert Packing.Prefix(sizes, cnt[i - 1] + 1) == Packing.Prefix(sizes, cnt[i - 1]) + 2 + sizes[cnt[i - 1]];
      assert Packing.PageSize(sizes, false, cnt, i) <= space + if i == q then 4 * third else 0;
      assert (i + 1) * space == i * space + space && i * third == (i - 1) * third + third;
    } else {
      assert Packing.PageSize(sizes, false, cnt, 0) <= space + if 0 == q then 4 * third else 0;
    }
  }

  /** An entry too many on a table leaf: the page splits around it. */
  lemma {:induction false} SplitAround(sizes: seq<nat>, space: nat, cnt: seq<nat>, q: nat, g: nat)
    requires Cuts(|sizes|, true, cnt) && |cnt| <= Packing.NB && q < |cnt| && Packing.InRange(cnt, |sizes|)
    requires forall j :: 0 <= j < |cnt| && j != q ==> Packing.PageSize(sizes, true, cnt, j) <= space
    requires Packing.Start(cnt, true, |sizes|, q) <= g < cnt[q]
    requires 2 + sizes[g] <= space
    requires Packing.PageSize(sizes, true, cnt, q) - (2 + sizes[g]) <= space
    ensures Packing.Feasible(sizes, true, space)
  {
    var n := |sizes|;
    var s := Packing.Start(cnt, true, n, q);
    var other: seq<nat> := cnt[..q] + [g, g + 1] + cnt[q..];
    assert Packing.InRange(other, n) by {
      forall j | 0 <= j < |other| ensures other[j] <= n {
        if j >= q + 2 { assert other[j] == cnt[j - 2]; }
      }
    }
    Packing.PrefixGap(sizes, s, g);
    Packing.PrefixGap(sizes, g + 1, cnt[q]);
    assert Packing.Prefix(sizes, g + 1) == Packing.Prefix(sizes, g) + 2 + sizes[g];
    forall j | 0 <= j < |other| ensures Packing.PageFits(sizes, true, space, other, j) {
      if j < q {
        assert CutAt(n, true, cnt, j);
        assert Packing.PageSize(sizes, true, cnt, j) <= space;
      } else if j > q + 2 {
        assert other[j] == cnt[j - 2] && other[j - 1] == cnt[j - 3];
        assert CutAt(n, true, cnt, j - 2);
        assert Packing.PageSize(sizes, true, cnt, j - 2) <= space;
      } else if j == q + 2 {
        assert other[j] == cnt[q] && other[j - 1] == g + 1;
      }
    }
    assert other[|other| - 1] == cnt[|cnt| - 1];
    assert Packing.Fits(sizes, true, space, other);
  }

  // ------------------------------------------------------------------ packing succeeds

  /** Up to three sibling pages of level `h` and the dividers between them; page `q` may carry
      overflow cells, the others are in order. */
  ghost predicate Movable(cfg: Config, h: nat, divs: seq<Cell>, sibs: seq<Page>, q: nat, carry: Carry)
    requires ValidConfig(cfg)
  {
    && 1 <= |sibs| <= Packing.NB && |divs| + 1 == |sibs| && q < |sibs|
    && Kinds(cfg, false, divs)
    && (forall i :: 0 <= i < |sibs| ==> Shape(cfg, sibs[i], h) && BelowOk(cfg, sibs[i]))
    && (forall i :: 0 <= i < |sibs| && i != q ==> PageOk(cfg, sibs[i]))
    && Carrying(cfg, h == 0, sibs[q].cells, Space(cfg, h == 0), carry)
  }

  lemma {:induction false} SmallEnough(cfg: Config, leaf: bool, cells: seq<Cell>)
    requires ValidConfig(cfg) && Kinds(cfg, leaf, cells)
    ensures Packing.SmallCells(Sizes(cfg, leaf, cells), leaf && cfg.leafData, Space(cfg, leaf))
    ensures !(leaf && cfg.leafData) ==> forall j :: 0 <= j < |cells| ==> 2 + Sizes(cfg, leaf, cells)[j] <= Space(cfg, leaf) / 3
  {
    forall j | 0 <= j < |cells|
      ensures leaf && cfg.leafData ==> 2 + Sizes(cfg, leaf, cells)[j] <= Space(cfg, leaf)
      ensures !(leaf && cfg.leafData) ==> 3 * (2 + Sizes(cfg, leaf, cells)[j]) <= Space(cfg, leaf)
    {
      assert CellKind(cfg, leaf, cells[j]);
      CellLimit(cfg, leaf, cells[j]);
    }
  }

  /** Sizes of the old pages of the run. */
  lemma {:induction false} OldSizes(cfg: Config, leaf: bool, cells: seq<Cell>, kids: seq<Page>, leafData: bool,
          cnt: seq<nat>, sibs: seq<Page>, szOld: seq<int>)
    requires ValidConfig(cfg) && 1 <= |cnt| <= Packing.NB
    requires Cuts(|cells|, leafData, cnt) && (!leaf ==> |kids| == |cells| + 1 && !leafData)
    requires PagesOf(cells, kids, leaf, leafData, cnt) == sibs
    requires |szOld| == |sibs| && forall i :: 0 <= i < |sibs| ==> szOld[i] == Bytes(cfg, leaf, sibs[i].cells)
    ensures Packing.OldPages(Sizes(cfg, leaf, cells), leafData, cnt, szOld)
  {
    CutsInRange(|cells|, leafData, cnt);
    forall i | 0 <= i < |cnt| ensures szOld[i] == Packing.PageSize(Sizes(cfg, leaf, cells), leafData, cnt, i) {
      PageBytes(cfg, leaf, cells, kids, leafData, cnt, i);
      assert PagesOf(cells, kids, leaf, leafData, cnt)[i] == PageOf(cells, kids, leaf, leafData, cnt, i);
    }
  }

  /** Where dividers travel with the cells, everything on at most three pages fits on five. */
  lemma {:induction false} RunFits(cfg: Config, h: nat, divs: seq<Cell>, sibs: seq<Page>, q: nat, carry: Carry,
          cells: seq<Cell>, kids: seq<Page>, cnt: seq<nat>)
    requires ValidConfig(cfg) && Movable(cfg, h, divs, sibs, q, carry)
    requires !(h == 0 && cfg.leafData) && Kinds(cfg, h == 0, cells)
    requires Cuts(|cells|, false, cnt) && |cnt| == |sibs| && (h > 0 ==> |kids| == |cells| + 1)
    requires PagesOf(cells, kids, h == 0, false, cnt) == sibs
    ensures var leaf := h == 0;
      var space, total := Space(cfg, leaf), Packing.Prefix(Sizes(cfg, leaf, cells), |cells|);
      && total <= (Packing.NB + 2) * space
      && (|sibs| == 1 ==> total < 3 * space)
  {
    var leaf := h == 0;
    var space := Space(cfg, leaf);
    var third := space / 3;
    var sizes := Sizes(cfg, leaf, cells);
    CutsInRange(|cells|, false, cnt);
    SmallEnough(cfg, leaf, cells);
    forall j | 0 <= j < |cnt|
      ensures Packing.PageSize(sizes, false, cnt, j) <= space + if j == q then 4 * third else 0
    {
      PageBytes(cfg, leaf, cells, kids, false, cnt, j);
      assert PagesOf(cells, kids, leaf, false, cnt)[j] == PageOf(cells, kids, leaf, false, cnt, j);
      assert Shape(cfg, sibs[j], h);
      if j == q { CarriedBytes(cfg, leaf, sibs[q].cells, space, carry); }
      else { assert PageOk(cfg, sibs[j]); }
    }
    RunBytes(sizes, cnt, space, third, q, |cnt| - 1);
    assert cnt[|cnt| - 1] == |cells|;
    ThreePages(|cnt|, space, third);
  }

  lemma {:induction false} ThreePages(n: nat, space: nat, third: nat)
    requires 1 <= n <= 3 && 3 * third <= space && 0 < space
    ensures n * space + (n - 1) * third + 4 * third <= 5 * space
    ensures n == 1 ==> n * space + (n - 1) * third + 4 * third < 3 * space
  {
  }

  /** The page that carries an entry too many is the concatenation of what fits and that entry. */
  lemma {:induction false} OneTooMany(cfg: Config, cells: seq<Cell>, cnt: seq<nat>, p: Page, q: nat, at: nat)
    requires ValidConfig(cfg) && Cuts(|cells|, true, cnt) && q < |cnt|
    requires p == PageOf(cells, [], true, true, cnt, q) && at < |p.cells|
    ensures var g := Packing.Start(cnt, true, |cells|, q) + at;
      && g < cnt[q] <= |cells|
      && Bytes(cfg, true, p.cells) == Bytes(cfg, true, p.cells[..at] + p.cells[at + 1..]) + 2 + Sizes(cfg, true, cells)[g]
  {
    assert CutAt(|cells|, true, cnt, q);
    var g := Packing.Start(cnt, true, |cells|, q) + at;
    CarriedSplit(cfg, true, p.cells, at, 1);
    assert p.cells[at..at + 1] == [cells[g]];
    BytesOne(cfg, true, cells[g]);
  }

  /** Table leaves: at most one entry too many, so five pages are enough. */
  lemma {:induction false} LeavesFit(cfg: Config, divs: seq<Cell>, sibs: seq<Page>, q: nat, carry: Carry, cells: seq<Cell>, cnt: seq<nat>)
    requires ValidConfig(cfg) && Movable(cfg, 0, divs, sibs, q, carry)
    requires cfg.leafData && Kinds(cfg, true, cells)
    requires Cuts(|cells|, true, cnt) && |cnt| == |sibs|
    requires PagesOf(cells, [], true, true, cnt) == sibs
    ensures Packing.Feasible(Sizes(cfg, true, cells), true, Space(cfg, true))
  {
    var sizes, space := Sizes(cfg, true, cells), Space(cfg, true);
    CutsInRange(|cells|, true, cnt);
    forall j | 0 <= j < |cnt| && (j != q || carry.count == 0)
      ensures Packing.PageSize(sizes, true, cnt, j) <= space
    {
      OtherLeafFits(cfg, divs, sibs, q, carry, cells, cnt, j);
    }
    if carry.count == 1 {
      FullLeafSplits(cfg, sibs, q, carry, cells, cnt);
    } else {
      AsTheyAre(sizes, space, cnt);
    }
  }

  lemma {:induction false} OtherLeafFits(cfg: Config, divs: seq<Cell>, sibs: seq<Page>, q: nat, carry: Carry,
          cells: seq<Cell>, cnt: seq<nat>, j: nat)
    requires ValidConfig(cfg) && Movable(cfg, 0, divs, sibs, q, carry)
    requires Cuts(|cells|, true, cnt) && |cnt| == |sibs| && Packing.InRange(cnt, |cells|)
    requires PagesOf(cells, [], true, true, cnt) == sibs
    requires j < |cnt| && (j != q || carry.count == 0)
    ensures Packing.PageSize(Sizes(cfg, true, cells), true, cnt, j) <= Space(cfg, true)
  {
    LeafPageBytes(cfg, sibs, cells, cnt, j);
    if j != q { assert PageOk(cfg, sibs[j]); }
    else { assert sibs[j].cells[..carry.at] + sibs[j].cells[carry.at..] == sibs[j].cells; }
  }

  lemma {:induction false} FullLeafSplits(cfg: Config, sibs: seq<Page>, q: nat, carry: Carry, cells: seq<Cell>, cnt: seq<nat>)
    requires ValidConfig(cfg) && cfg.leafData && Kinds(cfg, true, cells) && q < |sibs|
    requires Carrying(cfg, true, sibs[q].cells, Space(cfg, true), carry) && carry.count == 1
    requires Cuts(|cells|, true, cnt) && |cnt| == |sibs| <= Packing.NB && Packing.InRange(cnt, |cells|)
    requires PagesOf(cells, [], true, true, cnt) == sibs
    requires forall j :: 0 <= j < |cnt| && j != q ==> Packing.PageSize(Sizes(cfg, true, cells), true, cnt, j) <= Space(cfg, true)
    ensures Packing.Feasible(Sizes(cfg, true, cells), true, Space(cfg, true))
  {
    LeafPageBytes(cfg, sibs, cells, cnt, q);
    OneTooMany(cfg, cells, cnt, sibs[q], q, carry.at);
    SmallEnough(cfg, true, cells);
    SplitAround(Sizes(cfg, true, cells), Space(cfg, true), cnt, q, Packing.Start(cnt, true, |cells|, q) + carry.at);
  }

  lemma {:induction false} AsTheyAre(sizes: seq<nat>, space: nat, cnt: seq<nat>)
    requires Cuts(|sizes|, true, cnt) && |cnt| <= Packing.NB && Packing.InRange(cnt, |sizes|)
    requires forall j :: 0 <= j < |cnt| ==> Packing.PageSize(sizes, true, cnt, j) <= space
    ensures Packing.Feasible(sizes, true, space)
  {
    forall j | 0 <= j < |cnt| ensures Packing.PageFits(sizes, true, space, cnt, j) {
      assert CutAt(|sizes|, true, cnt, j);
    }
    assert Packing.Fits(sizes, true, space, cnt);
  }

  lemma {:induction false} LeafPageBytes(cfg: Config, sibs: seq<Page>, cells: seq<Cell>, cnt: seq<nat>, j: nat)
    requires ValidConfig(cfg) && j < |sibs|
    requires Cuts(|cells|, true, cnt) && |cnt| == |sibs| && Packing.InRange(cnt, |cells|)
    requires PagesOf(cells, [], true, true, cnt) == sibs
    ensures sibs[j] == PageOf(cells, [], true, true, cnt, j) && sibs[j].Leaf?
    ensures Packing.PageSize(Sizes(cfg, true, cells), true, cnt, j) == Bytes(cfg, true, sibs[j].cells)
  {
    PageBytes(cfg, true, cells, [], true, cnt, j);
    assert PagesOf(cells, [], true, true, cnt)[j] == PageOf(cells, [], true, true, cnt, j);
  }

  // ------------------------------------------------------------------ the new pages

  /** A packing that may be carried out gives boundaries that cut the run. */
  lemma {:induction false} GoodCuts(sizes: seq<nat>, leafData: bool, space: nat, cnt: seq<nat>, sz: seq<int>)
    requires Packing.GoodPacking(sizes, leafData, space, cnt, sz)
    ensures Cuts(|sizes|, leafData, cnt) && NoneEmpty(|sizes|, leafData, cnt)
  {
    forall i | 0 <= i < |cnt|
      ensures |cnt| >= 2 ==> HoldsCell(|sizes|, leafData, cnt, i)
      ensures Packing.Start(cnt, leafData, |sizes|, i) <= cnt[i] <= |sizes|
    {
      assert Packing.PageFits(sizes, leafData, space, cnt, i);
      if |cnt| >= 2 { assert Packing.NonEmpty(sizes, leafData, cnt, i); }
    }
    forall i | 0 <= i < |cnt| ensures CutAt(|sizes|, leafData, cnt, i) {
      assert Packing.Start(cnt, leafData, |sizes|, i) <= cnt[i] <= |sizes|;
      if i < |cnt| - 1 { assert HoldsCell(|sizes|, leafData, cnt, i + 1); }
    }
  }

  /** What the new pages are: of the same level, with room to spare, and none empty. */
  lemma {:induction false} NewPagesSound(cfg: Config, h: nat, cells: seq<Cell>, kids: seq<Page>, cnt: seq<nat>, sz: seq<int>, i: nat)
    requires ValidConfig(cfg) && Kinds(cfg, h == 0, cells) && Gather.SoundKids(cfg, h, kids)
    requires h > 0 ==> |kids| == |cells| + 1
    requires var leafData := h == 0 && cfg.leafData;
      && Packing.GoodPacking(Sizes(cfg, h == 0, cells), leafData, Space(cfg, h == 0), cnt, sz)
      && Cuts(|cells|, leafData, cnt) && NoneEmpty(|cells|, leafData, cnt)
    requires i < |cnt|
    ensures var p := PageOf(cells, kids, h == 0, h == 0 && cfg.leafData, cnt, i);
      && Shape(cfg, p, h) && BelowOk(cfg, p)
      && Bytes(cfg, h == 0, p.cells) <= Space(cfg, h == 0)
      && (|cnt| >= 2 ==> p.cells != [])
      && (|cnt| == 1 ==> p.cells == cells)
  {
    var leaf := h == 0;
    var leafData := leaf && cfg.leafData;
    var p := PageOf(cells, kids, leaf, leafData, cnt, i);
    assert CutAt(|cells|, leafData, cnt, i);
    var s := Packing.Start(cnt, leafData, |cells|, i);
    PageBytes(cfg, leaf, cells, kids, leafData, cnt, i);
    assert Packing.PageFits(Sizes(cfg, leaf, cells), leafData, Space(cfg, leaf), cnt, i);
    if |cnt| >= 2 { assert HoldsCell(|cells|, leafData, cnt, i); }
    else { assert cells[0..|cells|] == cells; }
    assert p.cells == cells[s..cnt[i]];
    SliceSound(cfg, h, cells, kids, s, cnt[i]);
  }

  lemma {:induction false} SliceSound(cfg: Config, h: nat, cells: seq<Cell>, kids: seq<Page>, s: nat, e: nat)
    requires ValidConfig(cfg) && Kinds(cfg, h == 0, cells) && Gather.SoundKids(cfg, h, kids)
    requires s <= e <= |cells| && (h > 0 ==> |kids| == |cells| + 1)
    ensures var p := if h == 0 then Leaf(cells[s..e]) else Interior(cells[s..e], kids[s..e + 1]);
      Shape(cfg, p, h) && BelowOk(cfg, p)
  {
    if h > 0 {
      var k := kids[s..e + 1];
      forall j | 0 <= j < |k| ensures Shape(cfg, k[j], h - 1) && AllOk(cfg, k[j]) {
        assert k[j] == kids[s + j];
      }
    }
  }

  lemma {:induction false} NewDivKinds(cfg: Config, h: nat, cells: seq<Cell>, cnt: seq<nat>)
    requires Kinds(cfg, h == 0, cells)
    requires Cuts(|cells|, h == 0 && cfg.leafData, cnt)
    ensures Kinds(cfg, false, DivsOf(cells, h == 0 && cfg.leafData, cnt))
  {
    var leafData := h == 0 && cfg.leafData;
    forall i | 0 <= i < |cnt| - 1 ensures CellKind(cfg, false, DivOf(cells, leafData, cnt, i)) {
      assert CutAt(|cells|, leafData, cnt, i);
      if !leafData { assert CellKind(cfg, h == 0, cells[cnt[i]]); }
    }
  }

  // ------------------------------------------------------------------ the scan is kept

  /** Entries of a sorted scan are sorted and stay in its range. */
  lemma {:induction false} EntriesSame(s: seq<Cell>)
    ensures SameReading(s, Entries(s))
    decreases |s|
  {
    if s != [] && Sorted(s) {
      hide Rank, Sorted, Within;
      var t := s[1..];
      TailSorted(s);
      EntriesSame(t);
      EntriesIdem(s);
      var e := Entries(t);
      AboveFirst(s, e);
      if s[0].Entry? {
        SortedCons(s, e);
        assert Entries(s) == [s[0]] + e;
      } else {
        assert Entries(s) == e;
      }
    } else if s == [] {
      SameItself(s);
    }
  }

  lemma {:induction false} TailSorted(s: seq<Cell>)
    requires s != [] && Sorted(s)
    ensures Sorted(s[1..])
  {
    hide Rank;
    forall i | 0 <= i < |s| - 1 ensures s[1..][i] == s[i + 1] {}
  }

  /** Cells within the tail of a sorted sequence lie above its first cell. */
  lemma {:induction false} AboveFirst(s: seq<Cell>, e: seq<Cell>)
    requires s != [] && Sorted(s) && Within(s[1..], e)
    ensures Within(s, e) && forall i :: 0 <= i < |e| ==> Rank(s[0]) < Rank(e[i])
  {
    hide Rank;
    forall i | 0 <= i < |e| ensures Rank(s[0]) < Rank(e[i]) <= Rank(s[|s| - 1]) {
      assert s[1..] != [] && s[1..][0] == s[1] && s[1..][|s| - 2] == s[|s| - 1];
      assert Rank(s[0]) < Rank(s[1]);
    }
  }

  lemma {:induction false} SortedCons(s: seq<Cell>, e: seq<Cell>)
    requires s != [] && Sorted(s) && Sorted(e) && Within(s, e) && forall i :: 0 <= i < |e| ==> Rank(s[0]) < Rank(e[i])
    ensures Sorted([s[0]] + e) && Within(s, [s[0]] + e)
  {
    hide Rank;
    if |s| > 1 { assert Rank(s[0]) < Rank(s[|s| - 1]); }
  }

  lemma {:induction false} EntriesIdem(s: seq<Cell>)
    ensures Entries(Entries(s)) == Entries(s)
    ensures forall i :: 0 <= i < |Entries(s)| ==> Entries(s)[i].Entry?
  {
    if s != [] {
      EntriesIdem(s[1..]);
      if s[0].Entry? { assert Entries(s)[1..] == Entries(s[1..]); }
      else { assert Entries(s) == Entries(s[1..]); }
    }
  }

  /** Entries of table leaves with any dividers between them. */
  lemma {:induction false} LeafEntries(divs: seq<Cell>, cells: seq<Cell>, cnt: seq<nat>, i: nat)
    requires Cuts(|cells|, true, cnt) && i < |cnt| == |divs| + 1
    requires forall j :: 0 <= j < |divs| ==> divs[j].Divider?
    requires forall j :: 0 <= j < |cells| ==> cells[j].Entry?
    ensures cnt[i] <= |cells|
    ensures Entries(Weave(divs[..i], PagesOf(cells, [], true, true, cnt)[..i + 1])) == cells[..cnt[i]]
  {
    hide Rank, Sorted, Weave;
    assert CutAt(|cells|, true, cnt, i);
    var pages := PagesOf(cells, [], true, true, cnt);
    var p := PageOf(cells, [], true, true, cnt, i);
    EntriesOfEntries(p.cells);
    if i == 0 {
      assert pages[..1] == [p] && divs[..0] == [];
      WeaveOne(p);
      assert cells[0..cnt[0]] == cells[..cnt[0]];
    } else {
      assert CutAt(|cells|, true, cnt, i - 1);
      LeafEntries(divs, cells, cnt, i - 1);
      assert divs[..i] == divs[..i - 1] + [divs[i - 1]] && pages[..i + 1] == pages[..i] + [p];
      WeaveSnoc(divs[..i - 1], pages[..i], divs[i - 1], p);
      EntriesSnoc(Weave(divs[..i - 1], pages[..i]), divs[i - 1].key, p.cells);
      assert cells[..cnt[i]] == cells[..cnt[i - 1]] + cells[cnt[i - 1]..cnt[i]];
    }
  }

  /** Old pages and new pages read the same. */
  lemma {:induction false} ScanKept(cfg: Config, leaf: bool, divs: seq<Cell>, cells: seq<Cell>, kids: seq<Page>,
          cntOld: seq<nat>, cntNew: seq<nat>)
    requires Kinds(cfg, leaf, cells) && Kinds(cfg, false, divs) && (!leaf ==> |kids| == |cells| + 1)
    requires var leafData := leaf && cfg.leafData;
      && Cuts(|cells|, leafData, cntOld) && |cntOld| == |divs| + 1
      && Cuts(|cells|, leafData, cntNew) && NoneEmpty(|cells|, leafData, cntNew)
      && (!leafData ==> DivsOf(cells, leafData, cntOld) == divs)
    ensures var leafData := leaf && cfg.leafData;
      SameReading(Weave(divs, PagesOf(cells, kids, leaf, leafData, cntOld)),
                  Weave(DivsOf(cells, leafData, cntNew), PagesOf(cells, kids, leaf, leafData, cntNew)))
  {
    if leaf && cfg.leafData {
      LeafScanKept(cfg, divs, cells, kids, cntOld, cntNew);
    } else {
      CutsPreserveScan(cells, kids, leaf, cntOld);
      CutsPreserveScan(cells, kids, leaf, cntNew);
      SameItself(Inorder(Whole(cells, kids, leaf)));
    }
  }

  lemma {:induction false} LeafPagesAlike(cells: seq<Cell>, kids: seq<Page>, cnt: seq<nat>)
    requires Cuts(|cells|, true, cnt)
    ensures PagesOf(cells, kids, true, true, cnt) == PagesOf(cells, [], true, true, cnt)
  {
  }

  lemma {:induction false} LeafScanKept(cfg: Config, divs: seq<Cell>, cells: seq<Cell>, kids: seq<Page>, cntOld: seq<nat>, cntNew: seq<nat>)
    requires cfg.leafData && Kinds(cfg, true, cells) && Kinds(cfg, false, divs)
    requires Cuts(|cells|, true, cntOld) && |cntOld| == |divs| + 1
    requires Cuts(|cells|, true, cntNew) && NoneEmpty(|cells|, true, cntNew)
    ensures SameReading(Weave(divs, PagesOf(cells, kids, true, true, cntOld)),
                        Weave(DivsOf(cells, true, cntNew), PagesOf(cells, kids, true, true, cntNew)))
  {
    LeafPagesAlike(cells, kids, cntOld);
    LeafPagesAlike(cells, kids, cntNew);
    var pagesOld := PagesOf(cells, [], true, true, cntOld);
    var before := Weave(divs, pagesOld);
    var after := Weave(DivsOf(cells, true, cntNew), PagesOf(cells, [], true, true, cntNew));
    assert forall j :: 0 <= j < |cells| ==> CellKind(cfg, true, cells[j]);
    assert forall j :: 0 <= j < |divs| ==> CellKind(cfg, false, divs[j]);
    var i := |cntOld| - 1;
    LeafEntries(divs, cells, cntOld, i);
    assert divs[..i] == divs && pagesOld[..i + 1] == pagesOld && cells[..|cells|] == cells;
    EntriesSame(before);
    if Sorted(before) {
      CutsPreserveEntries(cells, cntNew);
      SameAsEntries(cells, after);
      SameTransitive(before, cells, after);
    }
  }

  lemma {:induction false} SameAsEntries(cells: seq<Cell>, scan: seq<Cell>)
    requires ReadsAs(scan, cells) && forall j :: 0 <= j < |cells| ==> cells[j].Entry?
    ensures SameReading(cells, scan)
  {
    EntriesOfEntries(cells);
    SameItself(scan);
  }
}
