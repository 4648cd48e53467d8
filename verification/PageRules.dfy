/** When a page is in order: its cells fit, and it is not empty unless it is the root. */
module PageRules {
  import opened CellFormat
  import opened Tree
  import Packing

  /** Bytes of a cell on a leaf (at least 4) or on an interior page (with its child pointer). */
  function CellSize(cfg: Config, leaf: bool, c: Cell): nat
    requires ValidConfig(cfg)
  {
    var raw := match c
      case Entry(k, payload) => PayloadCellSize(cfg.usableSize, if cfg.leafData then TableLeaf else IndexPage, k, |payload|)
      case Divider(k) => VarintLen(KeyBits(k));
    if !leaf then raw + 4 else if raw < 4 then 4 else raw
  }

  function Sizes(cfg: Config, leaf: bool, cells: seq<Cell>): (r: seq<nat>)
    requires ValidConfig(cfg)
    ensures |r| == |cells|
  {
    seq(|cells|, i requires 0 <= i < |cells| => CellSize(cfg, leaf, cells[i]))
  }

  /** Bytes of page content: the cells and their pointers. */
  function Bytes(cfg: Config, leaf: bool, cells: seq<Cell>): nat
    requires ValidConfig(cfg)
  {
    Packing.Prefix(Sizes(cfg, leaf, cells), |cells|)
  }

  /** Bytes available beyond the page header. */
  function Space(cfg: Config, leaf: bool): nat
    requires ValidConfig(cfg)
  {
    cfg.usableSize - if leaf then 8 else 12
  }

  /** Bytes available on a page at depth `d`; page 1 of the file also carries the file header. */
  function Room(cfg: Config, d: nat, leaf: bool): nat
    requires ValidConfig(cfg)
  {
    Space(cfg, leaf) - if d == 0 then cfg.rootHdr else 0
  }

  lemma {:induction false} PrefixAgrees(s: seq<nat>, t: seq<nat>, n: nat)
    requires n <= |s| && n <= |t| && s[..n] == t[..n]
    ensures Packing.Prefix(s, n) == Packing.Prefix(t, n)
  {
    if n > 0 {
      assert s[n - 1] == s[..n][n - 1] == t[..n][n - 1] == t[n - 1];
      assert s[..n - 1] == s[..n][..n - 1] == t[..n - 1];
      PrefixAgrees(s, t, n - 1);
    }
  }

  lemma {:induction false} PrefixConcat(s: seq<nat>, t: seq<nat>, n: nat)
    requires n <= |t|
    ensures Packing.Prefix(s + t, |s| + n) == Packing.Prefix(s, |s|) + Packing.Prefix(t, n)
  {
    if n == 0 {
      assert (s + t)[..|s|] == s[..|s|];
      PrefixAgrees(s + t, s, |s|);
    } else {
      PrefixConcat(s, t, n - 1);
    }
  }

  lemma {:induction false} BytesConcat(cfg: Config, leaf: bool, a: seq<Cell>, b: seq<Cell>)
    requires ValidConfig(cfg)
    ensures Bytes(cfg, leaf, a + b) == Bytes(cfg, leaf, a) + Bytes(cfg, leaf, b)
  {
    assert Sizes(cfg, leaf, a + b) == Sizes(cfg, leaf, a) + Sizes(cfg, leaf, b);
    PrefixConcat(Sizes(cfg, leaf, a), Sizes(cfg, leaf, b), |b|);
  }

  lemma {:induction false} BytesOne(cfg: Config, leaf: bool, c: Cell)
    requires ValidConfig(cfg)
    ensures Bytes(cfg, leaf, [c]) == 2 + CellSize(cfg, leaf, c)
  {
    assert Sizes(cfg, leaf, [c])[0] == CellSize(cfg, leaf, c);
    assert Packing.Prefix(Sizes(cfg, leaf, [c]), 0) == 0;
  }

  /** Bytes of a stretch of cells, in terms of the packing arithmetic. */
  lemma {:induction false} BytesSlice(cfg: Config, leaf: bool, cells: seq<Cell>, lo: nat, hi: nat)
    requires ValidConfig(cfg) && lo <= hi <= |cells|
    ensures Bytes(cfg, leaf, cells[lo..hi])
            == Packing.Prefix(Sizes(cfg, leaf, cells), hi) - Packing.Prefix(Sizes(cfg, leaf, cells), lo)
  {
    BytesConcat(cfg, leaf, cells[..lo], cells[lo..hi]);
    assert cells[..lo] + cells[lo..hi] == cells[..hi];
    PrefixAgrees(Sizes(cfg, leaf, cells[..hi]), Sizes(cfg, leaf, cells), hi);
    PrefixAgrees(Sizes(cfg, leaf, cells[..lo]), Sizes(cfg, leaf, cells), lo);
  }

  /** No cell is too large to share: one fits on a table leaf, three fit on any other page. */
  lemma {:induction false} CellLimit(cfg: Config, leaf: bool, c: Cell)
    requires ValidConfig(cfg) && CellKind(cfg, leaf, c)
    ensures cfg.leafData && leaf ==> 2 + CellSize(cfg, leaf, c) <= Space(cfg, leaf)
    ensures !(cfg.leafData && leaf) ==> 3 * (2 + CellSize(cfg, leaf, c)) <= Space(cfg, leaf)
    ensures cfg.leafData && !leaf ==> 2 + CellSize(cfg, leaf, c) <= 15
  {
    LocalLimits(cfg.usableSize, IndexPage);
    LocalLimits(cfg.usableSize, TableLeaf);
  }

  ghost predicate PageOk(cfg: Config, p: Page)
    requires ValidConfig(cfg)
  {
    |p.cells| > 0 && Bytes(cfg, p.Leaf?, p.cells) <= Space(cfg, p.Leaf?)
  }

  /** Page `p` and every page below it is in order. */
  ghost predicate AllOk(cfg: Config, p: Page)
    requires ValidConfig(cfg)
    decreases p, 1
  {
    PageOk(cfg, p) && BelowOk(cfg, p)
  }

  /** Every page below `p` is in order. */
  ghost predicate BelowOk(cfg: Config, p: Page)
    requires ValidConfig(cfg)
    decreases p, 0
  {
    p.Interior? ==> forall i :: 0 <= i < |p.kids| ==> AllOk(cfg, p.kids[i])
  }

  /** Every page off the path is in order; nothing is said of the pages on it. */
  ghost predicate OffPath(cfg: Config, p: Page, path: seq<nat>)
    requires ValidConfig(cfg) && ValidPath(p, path)
    decreases |path|
  {
    if path == [] then BelowOk(cfg, p)
    else
      && (forall j :: 0 <= j < |p.kids| && j != path[0] ==> AllOk(cfg, p.kids[j]))
      && OffPath(cfg, p.kids[path[0]], path[1..])
  }

  lemma {:induction false} OffPathReplace(cfg: Config, p: Page, path: seq<nat>, d: nat, q: Page)
    requires ValidConfig(cfg) && ValidPath(p, path) && d <= |path| && ValidPath(p, path[..d])
    requires OffPath(cfg, p, path) && BelowOk(cfg, q)
    ensures ValidPath(Replace(p, path[..d], q), path[..d]) && OffPath(cfg, Replace(p, path[..d], q), path[..d])
    decreases d
  {
    ReplaceAt(p, path[..d], q);
    if d > 0 {
      assert path[..d][1..] == path[1..][..d - 1];
      OffPathReplace(cfg, p.kids[path[0]], path[1..], d - 1, q);
    } else {
      assert path[..0] == [];
    }
  }

  /** The siblings of the page at the end of the path, and the pages below it, are in order. */
  lemma {:induction false} OffPathSiblings(cfg: Config, p: Page, path: seq<nat>)
    requires ValidConfig(cfg) && ValidPath(p, path) && |path| > 0 && OffPath(cfg, p, path)
    ensures var n := |path| - 1;
      && ValidPath(p, path[..n]) && HasChild(p, path[..n], path[n])
      && PageAt(p, path[..n]).kids[path[n]] == PageAt(p, path)
      && BelowOk(cfg, PageAt(p, path))
      && forall j :: 0 <= j < |PageAt(p, path[..n]).kids| && j != path[n] ==> AllOk(cfg, PageAt(p, path[..n]).kids[j])
    decreases |path|
  {
    var n := |path| - 1;
    if n > 0 {
      assert path[..n][1..] == path[1..][..n - 1];
      OffPathSiblings(cfg, p.kids[path[0]], path[1..]);
    } else {
      assert path[..0] == [] && path[1..] == [];
    }
  }

  /** Walking down a tree that is in order leaves only pages in order. */
  lemma {:induction false} OffPathIntro(cfg: Config, p: Page, path: seq<nat>)
    requires ValidConfig(cfg) && ValidPath(p, path) && BelowOk(cfg, p)
    ensures OffPath(cfg, p, path)
    ensures path != [] ==> AllOk(cfg, PageAt(p, path))
    decreases |path|
  {
    if path != [] {
      var kid := p.kids[path[0]];
      assert AllOk(cfg, kid);
      OffPathIntro(cfg, kid, path[1..]);
    }
  }

  /** When the pages on the path below depth `d` are in order, nothing below depth `d` is not. */
  lemma {:induction false} OffPathCut(cfg: Config, p: Page, path: seq<nat>, d: nat)
    requires ValidConfig(cfg) && ValidPath(p, path) && OffPath(cfg, p, path) && d <= |path|
    requires forall e :: d < e <= |path| ==> ValidPath(p, path[..e]) && PageOk(cfg, PageAt(p, path[..e]))
    ensures ValidPath(p, path[..d]) && OffPath(cfg, p, path[..d])
    decreases |path|
  {
    if path == [] {
      assert path[..d] == [];
    } else if d > 0 {
      var kid := p.kids[path[0]];
      forall e | d - 1 < e <= |path[1..]|
        ensures ValidPath(kid, path[1..][..e]) && PageOk(cfg, PageAt(kid, path[1..][..e]))
      {
        assert path[..e + 1][1..] == path[1..][..e];
        assert ValidPath(p, path[..e + 1]) && PageOk(cfg, PageAt(p, path[..e + 1]));
      }
      OffPathCut(cfg, kid, path[1..], d - 1);
      assert path[..d][1..] == path[1..][..d - 1];
    } else {
      OffPathAll(cfg, p, path);
      assert path[..0] == [];
    }
  }

  /** When the pages on the path are in order as well, so is the whole tree. */
  lemma {:induction false} OffPathAll(cfg: Config, p: Page, path: seq<nat>)
    requires ValidConfig(cfg) && ValidPath(p, path) && OffPath(cfg, p, path)
    requires forall d :: 1 <= d <= |path| ==> ValidPath(p, path[..d]) && PageOk(cfg, PageAt(p, path[..d]))
    ensures BelowOk(cfg, p)
    decreases |path|
  {
    if path != [] {
      var kid := p.kids[path[0]];
      forall d | 1 <= d <= |path[1..]|
        ensures ValidPath(kid, path[1..][..d]) && PageOk(cfg, PageAt(kid, path[1..][..d]))
      {
        assert path[..d + 1][1..] == path[1..][..d];
        assert ValidPath(p, path[..d + 1]) && PageOk(cfg, PageAt(p, path[..d + 1]));
      }
      OffPathAll(cfg, kid, path[1..]);
      assert path[..1][1..] == [] && path[..1][0] == path[0];
      assert PageAt(p, path[..1]) == PageAt(kid, []) == kid;
      forall j | 0 <= j < |p.kids| ensures AllOk(cfg, p.kids[j]) {
        if j == path[0] { assert p.kids[j] == kid; }
      }
    }
  }
}
