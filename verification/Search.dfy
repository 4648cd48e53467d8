/** Searching a tree for a key (sqlite3BtreeMovetoUnpacked in btree.c). */
module Search {
  import opened Tree
  import opened Order

  ghost predicate KeysAscend(cells: seq<Cell>)
  {
    forall i, j :: 0 <= i < j < |cells| ==> cells[i].key < cells[j].key
  }

  /** The cells of a page come in scan order. */
  lemma {:induction false} CellInWeave(cells: seq<Cell>, kids: seq<Page>, j: nat)
    requires |kids| == |cells| + 1 && j < |cells|
    ensures cells[j] in Weave(cells, kids)
    decreases j
  {
    assert cells == [cells[0]] + cells[1..];
    if j > 0 {
      CellInWeave(cells[1..], kids[1..], j - 1);
      assert cells[1..][j - 1] == cells[j];
    } else {
      assert Weave(cells, kids)[|Inorder(kids[0])|] == cells[0];
    }
  }

  lemma {:induction false} CellsSorted(cells: seq<Cell>, kids: seq<Page>)
    requires |kids| == |cells| + 1 && Sorted(Weave(cells, kids))
    ensures Sorted(cells)
    decreases |cells|
  {
    if cells != [] {
      var rest := Weave(cells[1..], kids[1..]);
      SortedParts(Inorder(kids[0]), [cells[0]], rest);
      CellsSorted(cells[1..], kids[1..]);
      forall j | 0 < j < |cells| ensures Rank(cells[0]) < Rank(cells[j]) {
        CellInWeave(cells[1..], kids[1..], j - 1);
        var k :| 0 <= k < |rest| && rest[k] == cells[j];
        assert Rank([cells[0]][0]) < Rank(rest[k]);
      }
      forall i, j | 0 <= i < j < |cells| ensures Rank(cells[i]) < Rank(cells[j]) {
        if i > 0 { assert Rank(cells[1..][i - 1]) < Rank(cells[1..][j - 1]); }
      }
    }
  }

  lemma {:induction false} PageKeysAscend(cfg: Config, p: Page, h: nat)
    requires Shape(cfg, p, h) && Sorted(Inorder(p))
    ensures KeysAscend(p.cells)
  {
    if p.Interior? { CellsSorted(p.cells, p.kids); }
    forall i, j | 0 <= i < j < |p.cells| ensures p.cells[i].key < p.cells[j].key {
      assert Rank(p.cells[i]) < Rank(p.cells[j]);
      assert CellKind(cfg, p.Leaf?, p.cells[i]) && CellKind(cfg, p.Leaf?, p.cells[j]);
    }
  }

  /** Binary search within a page. `c` says on which side of the last cell probed the key lies. */
  method SearchPage(cells: seq<Cell>, key: int, biasRight: bool) returns (hit: bool, idx: nat, lwr: nat, c: int)
    requires cells != [] && KeysAscend(cells)
    ensures idx < |cells|
    ensures hit ==> cells[idx].key == key && lwr == idx
    ensures !hit ==> lwr <= |cells| && (forall i :: 0 <= i < lwr ==> cells[i].key < key) && (forall i :: lwr <= i < |cells| ==> key < cells[i].key)
    ensures !hit ==> (c < 0 && idx + 1 == lwr) || (c > 0 && idx == lwr)
  {
    var lo, upr: int := 0, |cells| - 1;
    idx := if biasRight then upr else upr / 2;
    while true
      invariant 0 <= lo <= idx <= upr < |cells|
      invariant forall i :: 0 <= i < lo ==> cells[i].key < key
      invariant forall i :: upr < i < |cells| ==> key < cells[i].key
      decreases upr - lo
    {
      if cells[idx].key < key {
        lo := idx + 1;
        if lo > upr { return false, idx, lo, -1; }
      } else if cells[idx].key > key {
        upr := idx - 1;
        if lo > upr { return false, idx, lo, 1; }
      } else {
        return true, idx, idx, 0;
      }
      idx := (lo + upr) / 2;
    }
  }

  /** Around child `i` of a sorted page everything is on the side its neighbouring cell is on. */
  lemma {:induction false} AroundChild(cells: seq<Cell>, kids: seq<Page>, i: nat, r: int)
    requires |kids| == |cells| + 1 && i < |kids| && Sorted(Weave(cells, kids))
    requires i > 0 ==> Rank(cells[i - 1]) < r
    requires i < |cells| ==> r < Rank(cells[i])
    ensures AllBelow(LeftOf(cells, kids, i), r) && AllAbove(RightOf(cells, kids, i), r)
  {
    WeaveAt(cells, kids, i);
    var l, m, g := LeftOf(cells, kids, i), Inorder(kids[i]), RightOf(cells, kids, i);
    SortedParts(l, m, g);
    forall k | 0 <= k < |l| ensures Rank(l[k]) < r {
      assert l[|l| - 1] == cells[i - 1];
      if k < |l| - 1 { assert Rank(l[k]) < Rank(l[|l| - 1]); }
    }
    forall k | 0 <= k < |g| ensures r < Rank(g[k]) {
      assert g[0] == cells[i];
      if k > 0 { assert Rank(g[0]) < Rank(g[k]); }
    }
  }

  /** A position on a page: everything before index `pos` is below `r`, everything from it above. */
  ghost predicate Between(root: Page, path: seq<nat>, r: int)
    requires ValidPath(root, path)
  {
    AllBelow(Before(root, path), r) && AllAbove(After(root, path), r)
  }

  lemma {:induction false} BelowConcat(a: seq<Cell>, b: seq<Cell>, r: int)
    ensures AllBelow(a + b, r) <==> AllBelow(a, r) && AllBelow(b, r)
    ensures AllAbove(a + b, r) <==> AllAbove(a, r) && AllAbove(b, r)
  {
    if AllBelow(a + b, r) || AllAbove(a + b, r) {
      forall i | 0 <= i < |a| ensures a[i] == (a + b)[i] {}
      forall i | 0 <= i < |b| ensures b[i] == (a + b)[|a| + i] {}
    }
  }

  lemma {:induction false} Descend(cfg: Config, root: Page, h: nat, path: seq<nat>, i: nat, key: int)
    requires ValidConfig(cfg) && ValidPath(root, path) && Shape(cfg, root, h) && Sorted(Inorder(root))
    requires Between(root, path, 2 * key)
    requires var p := PageAt(root, path);
      && p.Interior? && i <= |p.cells|
      && (forall j :: 0 <= j < i ==> p.cells[j].key < key)
      && (forall j :: i <= j < |p.cells| ==> key < p.cells[j].key || (key == p.cells[j].key && cfg.leafData))
    ensures HasChild(root, path, i) && ValidPath(root, path + [i]) && Between(root, path + [i], 2 * key)
    ensures PageAt(root, path + [i]) == PageAt(root, path).kids[i]
  {
    var p := PageAt(root, path);
    ShapeAt(cfg, root, h, path);
    InorderAt(root, path);
    SortedParts(Before(root, path), Inorder(p), After(root, path));
    if i > 0 { assert CellKind(cfg, false, p.cells[i - 1]); }
    if i < |p.cells| { assert CellKind(cfg, false, p.cells[i]); }
    AroundChild(p.cells, p.kids, i, 2 * key);
    PathExtend(root, path, i);
    ScanExtend(root, path, i);
    BelowConcat(Before(root, path), LeftOf(p.cells, p.kids, i), 2 * key);
    BelowConcat(RightOf(p.cells, p.kids, i), After(root, path), 2 * key);
  }

  /** Where a search ends.  With `loc == 0` the cursor is on the entry with the key; otherwise it is
      on a leaf, just before or just after where the key belongs. */
  ghost predicate Located(cfg: Config, root: Page, path: seq<nat>, ix: nat, key: int, loc: int)
  {
    && ValidPath(root, path)
    && var p := PageAt(root, path);
    && (p.cells != [] ==> ix < |p.cells|) && (p.cells == [] ==> ix == 0 && loc < 0)
    && (loc == 0 ==> p.cells[ix].Entry? && p.cells[ix].key == key)
    && (loc != 0 ==>
          && p.Leaf? && Between(root, path, 2 * key)
          && AllBelow(p.cells[..InsertAt(p, ix, loc)], 2 * key) && AllAbove(p.cells[InsertAt(p, ix, loc)..], 2 * key))
  }

  /** Index at which a key that was not found is to be inserted. */
  function InsertAt(p: Page, ix: nat, loc: int): (r: nat)
    requires p.cells != [] ==> ix < |p.cells|
    ensures ix == 0 || p.cells != [] ==> r <= |p.cells|
  {
    if loc < 0 && |p.cells| > 0 then ix + 1 else ix
  }
}
