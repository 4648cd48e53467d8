/** Cutting a run of cells into sibling pages and the divider cells between them: what a scan sees
    does not depend on where the cuts are. */
module Repartition {
  import opened Tree
  import opened Order
  import Packing

  /** Boundaries that cut `n` cells: in order, and with a divider cell at every inner boundary unless
      the tree keeps all its data in the leaves. */
  ghost predicate Cuts(n: nat, leafData: bool, cnt: seq<nat>)
  {
    && 0 < |cnt| && cnt[|cnt| - 1] == n
    && (forall i :: 0 <= i < |cnt| ==> CutAt(n, leafData, cnt, i))
  }

  ghost predicate CutAt(n: nat, leafData: bool, cnt: seq<nat>, i: nat)
    requires i < |cnt|
  {
    && Packing.Start(cnt, leafData, n, i) <= cnt[i] <= n
    && (i < |cnt| - 1 && !leafData ==> cnt[i] < n)
  }

  /** The `i`-th page. */
  ghost function PageOf(cells: seq<Cell>, kids: seq<Page>, leaf: bool, leafData: bool, cnt: seq<nat>, i: nat): Page
    requires Cuts(|cells|, leafData, cnt) && i < |cnt|
    requires !leaf ==> |kids| == |cells| + 1 && !leafData
  {
    assert CutAt(|cells|, leafData, cnt, i);
    var s := Packing.Start(cnt, leafData, |cells|, i);
    if leaf then Leaf(cells[s..cnt[i]]) else Interior(cells[s..cnt[i]], kids[s..cnt[i] + 1])
  }

  /** The divider between pages `i` and `i + 1`: the cell between them, or the key of the last cell
      of page `i` in a leaf-data tree. */
  ghost function DivOf(cells: seq<Cell>, leafData: bool, cnt: seq<nat>, i: nat): Cell
    requires Cuts(|cells|, leafData, cnt) && i < |cnt| - 1
  {
    assert CutAt(|cells|, leafData, cnt, i);
    if !leafData then cells[cnt[i]]
    else if cnt[i] > 0 then Divider(cells[cnt[i] - 1].key)
    else Divider(0)
  }

  ghost function PagesOf(cells: seq<Cell>, kids: seq<Page>, leaf: bool, leafData: bool, cnt: seq<nat>): (r: seq<Page>)
    requires Cuts(|cells|, leafData, cnt)
    requires !leaf ==> |kids| == |cells| + 1 && !leafData
    ensures |r| == |cnt|
  {
    seq(|cnt|, i requires 0 <= i < |cnt| => PageOf(cells, kids, leaf, leafData, cnt, i))
  }

  ghost function DivsOf(cells: seq<Cell>, leafData: bool, cnt: seq<nat>): (r: seq<Cell>)
    requires Cuts(|cells|, leafData, cnt)
    ensures |r| == |cnt| - 1
  {
    seq(|cnt| - 1, i requires 0 <= i < |cnt| - 1 => DivOf(cells, leafData, cnt, i))
  }

  /** The cells and children as one page. */
  ghost function Whole(cells: seq<Cell>, kids: seq<Page>, leaf: bool): Page
  {
    if leaf then Leaf(cells) else Interior(cells, kids)
  }

  /** Appending one page and the divider before it. */
  lemma {:induction false} WeaveSnoc(c: seq<Cell>, k: seq<Page>, d: Cell, p: Page)
    requires |k| == |c| + 1
    ensures Weave(c + [d], k + [p]) == Weave(c, k) + [d] + Inorder(p)
  {
    WeaveSplit(c, k, d, [], [p]);
    assert c + [d] + [] == c + [d];
  }

  lemma {:induction false} WeaveOne(p: Page)
    ensures Weave([], [p]) == Inorder(p)
  {
  }

  // ------------------------------------------------------------------ cells between pages move up

  lemma {:induction false} StartAfter(n: nat, cnt: seq<nat>, i: nat)
    requires Cuts(n, false, cnt) && 0 < i < |cnt|
    ensures cnt[i - 1] < n && Packing.Start(cnt, false, n, i) == cnt[i - 1] + 1 <= cnt[i] <= n
  {
    assert CutAt(n, false, cnt, i) && CutAt(n, false, cnt, i - 1);
  }

  /** The first `i + 1` pages and the dividers between them. */
  ghost function Upto(cells: seq<Cell>, kids: seq<Page>, leaf: bool, leafData: bool, cnt: seq<nat>, i: nat): seq<Cell>
    requires Cuts(|cells|, leafData, cnt) && i < |cnt|
    requires !leaf ==> |kids| == |cells| + 1 && !leafData
  {
    Weave(DivsOf(cells, leafData, cnt)[..i], PagesOf(cells, kids, leaf, leafData, cnt)[..i + 1])
  }

  lemma {:induction false} UptoFirst(cells: seq<Cell>, kids: seq<Page>, leaf: bool, leafData: bool, cnt: seq<nat>)
    requires Cuts(|cells|, leafData, cnt)
    requires !leaf ==> |kids| == |cells| + 1 && !leafData
    ensures Upto(cells, kids, leaf, leafData, cnt, 0) == Inorder(PageOf(cells, kids, leaf, leafData, cnt, 0))
  {
    var p := PageOf(cells, kids, leaf, leafData, cnt, 0);
    assert PagesOf(cells, kids, leaf, leafData, cnt)[..1] == [p];
    assert DivsOf(cells, leafData, cnt)[..0] == [];
    WeaveOne(p);
  }

  lemma {:induction false} UptoNext(cells: seq<Cell>, kids: seq<Page>, leaf: bool, leafData: bool, cnt: seq<nat>, i: nat)
    requires Cuts(|cells|, leafData, cnt) && 0 < i < |cnt|
    requires !leaf ==> |kids| == |cells| + 1 && !leafData
    ensures Upto(cells, kids, leaf, leafData, cnt, i) ==
            Upto(cells, kids, leaf, leafData, cnt, i - 1)
            + [DivOf(cells, leafData, cnt, i - 1)] + Inorder(PageOf(cells, kids, leaf, leafData, cnt, i))
  {
    var divs, pages := DivsOf(cells, leafData, cnt), PagesOf(cells, kids, leaf, leafData, cnt);
    var d, p := DivOf(cells, leafData, cnt, i - 1), PageOf(cells, kids, leaf, leafData, cnt, i);
    assert divs[..i] == divs[..i - 1] + [d];
    assert pages[..i + 1] == pages[..i] + [p];
    WeaveSnoc(divs[..i - 1], pages[..i], d, p);
  }

  lemma {:induction false} UptoLast(cells: seq<Cell>, kids: seq<Page>, leaf: bool, leafData: bool, cnt: seq<nat>)
    requires Cuts(|cells|, leafData, cnt)
    requires !leaf ==> |kids| == |cells| + 1 && !leafData
    ensures Upto(cells, kids, leaf, leafData, cnt, |cnt| - 1)
            == Weave(DivsOf(cells, leafData, cnt), PagesOf(cells, kids, leaf, leafData, cnt))
  {
    var divs, pages := DivsOf(cells, leafData, cnt), PagesOf(cells, kids, leaf, leafData, cnt);
    assert divs[..|divs|] == divs && pages[..|pages|] == pages;
  }

  /** The first `n` cells as one page. */
  ghost function Front(cells: seq<Cell>, kids: seq<Page>, leaf: bool, n: nat): Page
    requires n <= |cells| && (!leaf ==> |kids| == |cells| + 1)
  {
    Whole(cells[..n], if leaf then [] else kids[..n + 1], leaf)
  }

  lemma {:induction false} FrontGrows(cells: seq<Cell>, kids: seq<Page>, leaf: bool, c: nat, e: nat)
    requires c < e <= |cells| && (!leaf ==> |kids| == |cells| + 1)
    ensures Inorder(Front(cells, kids, leaf, e)) == Inorder(Front(cells, kids, leaf, c)) + [cells[c]]
            + Inorder(if leaf then Leaf(cells[c + 1..e]) else Interior(cells[c + 1..e], kids[c + 1..e + 1]))
  {
    assert cells[..e] == cells[..c] + [cells[c]] + cells[c + 1..e];
    if !leaf {
      assert kids[..e + 1] == kids[..c + 1] + kids[c + 1..e + 1];
      WeaveSplit(cells[..c], kids[..c + 1], cells[c], cells[c + 1..e], kids[c + 1..e + 1]);
    }
  }

  /** The pages up to the `i`-th, with their dividers, read like the cells up to boundary `i`. */
  lemma {:induction false} WovenPrefix(cells: seq<Cell>, kids: seq<Page>, leaf: bool, cnt: seq<nat>, i: nat)
    requires Cuts(|cells|, false, cnt) && i < |cnt|
    requires !leaf ==> |kids| == |cells| + 1
    ensures cnt[i] <= |cells|
    ensures Upto(cells, kids, leaf, false, cnt, i) == Inorder(Front(cells, kids, leaf, cnt[i]))
  {
    assert CutAt(|cells|, false, cnt, i);
    if i == 0 {
      UptoFirst(cells, kids, leaf, false, cnt);
      assert cells[0..cnt[0]] == cells[..cnt[0]];
      if !leaf { assert kids[0..cnt[0] + 1] == kids[..cnt[0] + 1]; }
    } else {
      StartAfter(|cells|, cnt, i);
      WovenPrefix(cells, kids, leaf, cnt, i - 1);
      UptoNext(cells, kids, leaf, false, cnt, i);
      FrontGrows(cells, kids, leaf, cnt[i - 1], cnt[i]);
    }
  }

  /** However the cells are cut, pages and dividers read back as the cells. */
  lemma {:induction false} CutsPreserveScan(cells: seq<Cell>, kids: seq<Page>, leaf: bool, cnt: seq<nat>)
    requires Cuts(|cells|, false, cnt)
    requires !leaf ==> |kids| == |cells| + 1
    ensures Weave(DivsOf(cells, false, cnt), PagesOf(cells, kids, leaf, false, cnt))
            == Inorder(Whole(cells, kids, leaf))
  {
    WovenPrefix(cells, kids, leaf, cnt, |cnt| - 1);
    UptoLast(cells, kids, leaf, false, cnt);
    assert cells[..|cells|] == cells;
    if !leaf { assert kids[..|kids|] == kids; }
  }

  // ------------------------------------------------------------------ leaf-data pages

  /** What a scan of the first `i + 1` leaf-data pages sees: their entries, and dividers in order. */
  ghost predicate ReadsAs(scan: seq<Cell>, cells: seq<Cell>)
  {
    && Entries(scan) == cells
    && Sorted(scan)
    && (cells != [] ==> scan != [] && Rank(scan[0]) == Rank(cells[0]) && Rank(scan[|scan| - 1]) == Rank(cells[|cells| - 1]))
    && (cells == [] ==> scan == [])
  }

  lemma {:induction false} SortedSnoc(s: seq<Cell>, d: Cell, b: seq<Cell>)
    requires Sorted(s) && AllBelow(s, Rank(d)) && Sorted(b) && AllAbove(b, Rank(d))
    ensures Sorted(s + [d] + b)
  {
    var t := s + [d] + b;
    forall i, j | 0 <= i < j < |t| ensures Rank(t[i]) < Rank(t[j]) {
      if i > |s| {
        assert t[i] == b[i - |s| - 1] && t[j] == b[j - |s| - 1];
      }
    }
  }

  lemma {:induction false} EntriesSnoc(scan: seq<Cell>, k: int, b: seq<Cell>)
    requires forall i :: 0 <= i < |b| ==> b[i].Entry?
    ensures Entries(scan + [Divider(k)] + b) == Entries(scan) + b
  {
    EntriesConcat(scan + [Divider(k)], b);
    EntriesConcat(scan, [Divider(k)]);
    assert [Divider(k)][1..] == [];
    EntriesOfEntries(b);
  }

  /** The key of the last entry separates what was read from what follows. */
  lemma {:induction false} DividerSeparates(scan: seq<Cell>, a: seq<Cell>, b: seq<Cell>)
    requires ReadsAs(scan, a) && a != [] && Sorted(a + b)
    requires a[|a| - 1].Entry? && forall i :: 0 <= i < |b| ==> b[i].Entry?
    ensures Sorted(b)
    ensures AllBelow(scan, Rank(Divider(a[|a| - 1].key))) && AllAbove(b, Rank(Divider(a[|a| - 1].key)))
  {
    var n := |scan| - 1;
    forall i | 0 <= i < |scan| ensures Rank(scan[i]) <= Rank(scan[n]) {
      if i < n { assert Rank(scan[i]) < Rank(scan[n]); }
    }
    assert (a + b)[|a| - 1] == a[|a| - 1];
    forall i | 0 <= i < |b| ensures Rank(a[|a| - 1]) < Rank(b[i]) {
      assert (a + b)[|a| + i] == b[i];
    }
    forall i, j | 0 <= i < j < |b| ensures Rank(b[i]) < Rank(b[j]) {
      assert (a + b)[|a| + i] == b[i] && (a + b)[|a| + j] == b[j];
    }
  }

  /** A divider with the key of the last entry, then more entries. */
  lemma {:induction false} ReadsAsSnoc(scan: seq<Cell>, a: seq<Cell>, b: seq<Cell>)
    requires ReadsAs(scan, a) && a != [] && b != [] && Sorted(a + b)
    requires a[|a| - 1].Entry? && forall i :: 0 <= i < |b| ==> b[i].Entry?
    ensures ReadsAs(scan + [Divider(a[|a| - 1].key)] + b, a + b)
  {
    var d := Divider(a[|a| - 1].key);
    EntriesSnoc(scan, d.key, b);
    DividerSeparates(scan, a, b);
    SortedSnoc(scan, d, b);
    EndsOf(scan, d, b);
    EndsOf(a[..|a| - 1], a[|a| - 1], b);
    assert a[..|a| - 1] + [a[|a| - 1]] == a;
    assert (a + b)[0] == a[0];
  }

  lemma {:induction false} EndsOf(s: seq<Cell>, d: Cell, b: seq<Cell>)
    requires b != []
    ensures var t := s + [d] + b; t[|t| - 1] == b[|b| - 1] && (s != [] ==> t[0] == s[0])
  {
  }

  lemma {:induction false} EntrySlice(cells: seq<Cell>, lo: nat, hi: nat)
    requires lo <= hi <= |cells| && Sorted(cells) && forall j :: 0 <= j < |cells| ==> cells[j].Entry?
    ensures Sorted(cells[lo..hi]) && forall j :: 0 <= j < hi - lo ==> cells[lo..hi][j].Entry?
  {
  }

  ghost predicate HoldsCell(n: nat, leafData: bool, cnt: seq<nat>, i: nat)
    requires i < |cnt|
  {
    Packing.Start(cnt, leafData, n, i) < cnt[i]
  }

  ghost predicate NoneEmpty(n: nat, leafData: bool, cnt: seq<nat>)
  {
    |cnt| >= 2 ==> forall i :: 0 <= i < |cnt| ==> HoldsCell(n, leafData, cnt, i)
  }

  lemma {:induction false} ReadsAsSelf(cells: seq<Cell>, n: nat)
    requires n <= |cells| && Sorted(cells) && forall j :: 0 <= j < |cells| ==> cells[j].Entry?
    ensures ReadsAs(cells[0..n], cells[..n])
  {
    EntrySlice(cells, 0, n);
    assert cells[0..n] == cells[..n];
    EntriesOfEntries(cells[..n]);
  }

  lemma {:induction false} ReadsAsMore(scan: seq<Cell>, cells: seq<Cell>, c: nat, e: nat)
    requires 0 < c < e <= |cells| && Sorted(cells) && forall j :: 0 <= j < |cells| ==> cells[j].Entry?
    requires ReadsAs(scan, cells[..c])
    ensures ReadsAs(scan + [Divider(cells[c - 1].key)] + cells[c..e], cells[..e])
  {
    var a, b := cells[..c], cells[c..e];
    EntrySlice(cells, 0, e);
    EntrySlice(cells, c, e);
    assert cells[0..e] == cells[..e] == a + b;
    ReadsAsSnoc(scan, a, b);
  }

  lemma {:induction false} ReadsAsPrefix(cells: seq<Cell>, cnt: seq<nat>, i: nat)
    requires Cuts(|cells|, true, cnt) && NoneEmpty(|cells|, true, cnt) && i < |cnt|
    requires Sorted(cells) && forall j :: 0 <= j < |cells| ==> cells[j].Entry?
    ensures cnt[i] <= |cells|
    ensures ReadsAs(Upto(cells, [], true, true, cnt, i), cells[..cnt[i]])
  {
    assert CutAt(|cells|, true, cnt, i);
    if i == 0 {
      UptoFirst(cells, [], true, true, cnt);
      ReadsAsSelf(cells, cnt[0]);
    } else {
      assert CutAt(|cells|, true, cnt, i - 1);
      assert HoldsCell(|cells|, true, cnt, i) && HoldsCell(|cells|, true, cnt, i - 1);
      ReadsAsPrefix(cells, cnt, i - 1);
      UptoNext(cells, [], true, true, cnt, i);
      ReadsAsMore(Upto(cells, [], true, true, cnt, i - 1), cells, cnt[i - 1], cnt[i]);
    }
  }

  /** However the entries are cut, leaf pages and fresh dividers read back as the entries, in order. */
  lemma {:induction false} CutsPreserveEntries(cells: seq<Cell>, cnt: seq<nat>)
    requires Cuts(|cells|, true, cnt) && NoneEmpty(|cells|, true, cnt)
    requires Sorted(cells) && forall j :: 0 <= j < |cells| ==> cells[j].Entry?
    ensures ReadsAs(Weave(DivsOf(cells, true, cnt), PagesOf(cells, [], true, true, cnt)), cells)
  {
    ReadsAsPrefix(cells, cnt, |cnt| - 1);
    UptoLast(cells, [], true, true, cnt);
    assert cells[..|cells|] == cells;
  }
}
