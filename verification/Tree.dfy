/** B-tree pages as sequences of cells, and the order in which a scan visits them. */
module Tree {
  import opened CellFormat

  /** An entry of the table or index, or the bare key that an interior table page keeps. */
  datatype Cell = Entry(key: int, payload: seq<int>) | Divider(key: int)

  /** A page with the subtrees below it.  An interior page has one more child than cells: child `i`
      holds what comes before cell `i`, the last child is the right-most pointer. */
  datatype Page = Leaf(cells: seq<Cell>) | Interior(cells: seq<Cell>, kids: seq<Page>)

  /** `leafData` is true for table trees.  `rootHdr` is 100 when the root is page 1 of the file. */
  datatype Config = Config(usableSize: nat, leafData: bool, rootHdr: nat)

  ghost predicate ValidConfig(cfg: Config)
  {
    && MIN_USABLE <= cfg.usableSize <= MAX_USABLE
    && (cfg.rootHdr == 0 || (cfg.rootHdr == 100 && cfg.leafData))
  }

  // ------------------------------------------------------------------ scan order

  ghost function Inorder(p: Page): seq<Cell>
    decreases p, 1
  {
    match p
    case Leaf(cells) => cells
    case Interior(cells, kids) => Weave(cells, kids)
  }

  /** Children and the cells between them, left to right. */
  ghost function Weave(cells: seq<Cell>, kids: seq<Page>): seq<Cell>
    decreases kids, 0
  {
    if |kids| == 0 then []
    else if |cells| == 0 then Inorder(kids[0])
    else Inorder(kids[0]) + [cells[0]] + Weave(cells[1..], kids[1..])
  }

  lemma {:induction false} WeaveSplit(c1: seq<Cell>, k1: seq<Page>, d: Cell, c2: seq<Cell>, k2: seq<Page>)
    requires |k1| == |c1| + 1 && |k2| == |c2| + 1
    ensures Weave(c1 + [d] + c2, k1 + k2) == Weave(c1, k1) + [d] + Weave(c2, k2)
    decreases |c1|
  {
    var c, k := c1 + [d] + c2, k1 + k2;
    if c1 == [] {
      assert c[1..] == c2 && k[1..] == k2;
    } else {
      assert c[1..] == c1[1..] + [d] + c2 && k[1..] == k1[1..] + k2;
      WeaveSplit(c1[1..], k1[1..], d, c2, k2);
    }
  }

  /** Scan order around child `i`. */
  lemma {:induction false} WeaveAt(cells: seq<Cell>, kids: seq<Page>, i: nat)
    requires |kids| == |cells| + 1 && i < |kids|
    ensures Weave(cells, kids) == LeftOf(cells, kids, i) + Inorder(kids[i]) + RightOf(cells, kids, i)
  {
    if i > 0 {
      assert cells == cells[..i - 1] + [cells[i - 1]] + cells[i..] && kids == kids[..i] + kids[i..];
      WeaveSplit(cells[..i - 1], kids[..i], cells[i - 1], cells[i..], kids[i..]);
    } else {
      assert cells[i..] == cells && kids[i..] == kids;
    }
  }

  /** What a scan of an interior page visits before child `i`. */
  ghost function LeftOf(cells: seq<Cell>, kids: seq<Page>, i: nat): seq<Cell>
    requires |kids| == |cells| + 1 && i < |kids|
  {
    if i == 0 then [] else Weave(cells[..i - 1], kids[..i]) + [cells[i - 1]]
  }

  /** What a scan of an interior page visits after child `i`. */
  ghost function RightOf(cells: seq<Cell>, kids: seq<Page>, i: nat): seq<Cell>
    requires |kids| == |cells| + 1 && i < |kids|
  {
    if i == |cells| then [] else [cells[i]] + Weave(cells[i + 1..], kids[i + 1..])
  }

  lemma {:induction false} Assoc<T>(a: seq<T>, b: seq<T>, c: seq<T>)
    ensures a + (b + c) == (a + b) + c
  {
  }

  lemma {:induction false} Units<T>(a: seq<T>)
    ensures a + [] == a && [] + a == a
  {
  }

  // ------------------------------------------------------------------ shape

  ghost predicate CellKind(cfg: Config, leaf: bool, c: Cell)
  {
    c.Divider? <==> cfg.leafData && !leaf
  }

  ghost predicate Kinds(cfg: Config, leaf: bool, cells: seq<Cell>)
  {
    forall i :: 0 <= i < |cells| ==> CellKind(cfg, leaf, cells[i])
  }

  /** Every leaf lies `h` levels down, and every page holds the kind of cell its level calls for. */
  ghost predicate Shape(cfg: Config, p: Page, h: nat)
    decreases h
  {
    && Kinds(cfg, p.Leaf?, p.cells)
    && (match p
        case Leaf(_) => h == 0
        case Interior(cells, kids) =>
          h > 0 && |kids| == |cells| + 1 && forall i :: 0 <= i < |kids| ==> Shape(cfg, kids[i], h - 1))
  }

  // ------------------------------------------------------------------ paths

  /** `path` lists child indices from page `p` down. */
  predicate ValidPath(p: Page, path: seq<nat>)
    decreases |path|
  {
    path == [] || (p.Interior? && |p.kids| == |p.cells| + 1 && path[0] < |p.kids| && ValidPath(p.kids[path[0]], path[1..]))
  }

  function PageAt(p: Page, path: seq<nat>): Page
    requires ValidPath(p, path)
    decreases |path|
  {
    if path == [] then p else PageAt(p.kids[path[0]], path[1..])
  }

  function Replace(p: Page, path: seq<nat>, q: Page): Page
    requires ValidPath(p, path)
    decreases |path|
  {
    if path == [] then q
    else Interior(p.cells, p.kids[path[0] := Replace(p.kids[path[0]], path[1..], q)])
  }

  /** What a scan visits before and after the page at `path`. */
  ghost function Before(p: Page, path: seq<nat>): seq<Cell>
    requires ValidPath(p, path)
    decreases |path|
  {
    if path == [] then []
    else LeftOf(p.cells, p.kids, path[0]) + Before(p.kids[path[0]], path[1..])
  }

  ghost function After(p: Page, path: seq<nat>): seq<Cell>
    requires ValidPath(p, path)
    decreases |path|
  {
    if path == [] then []
    else After(p.kids[path[0]], path[1..]) + RightOf(p.cells, p.kids, path[0])
  }

  lemma {:induction false} InorderAt(p: Page, path: seq<nat>)
    requires ValidPath(p, path)
    ensures Inorder(p) == Before(p, path) + Inorder(PageAt(p, path)) + After(p, path)
    decreases |path|
  {
    if path != [] {
      InorderAt(p.kids[path[0]], path[1..]);
      WeaveAt(p.cells, p.kids, path[0]);
    }
  }

  lemma {:induction false} ReplaceAt(p: Page, path: seq<nat>, q: Page)
    requires ValidPath(p, path)
    ensures ValidPath(Replace(p, path, q), path)
    ensures PageAt(Replace(p, path, q), path) == q
    ensures Before(Replace(p, path, q), path) == Before(p, path)
    ensures After(Replace(p, path, q), path) == After(p, path)
    decreases |path|
  {
    if path != [] {
      var i := path[0];
      ReplaceAt(p.kids[i], path[1..], q);
      var kids := p.kids[i := Replace(p.kids[i], path[1..], q)];
      assert kids[..i] == p.kids[..i] && kids[i + 1..] == p.kids[i + 1..];
      assert LeftOf(p.cells, kids, i) == LeftOf(p.cells, p.kids, i);
      assert RightOf(p.cells, kids, i) == RightOf(p.cells, p.kids, i);
    }
  }

  /** Exchanging one page changes the scan exactly there. */
  lemma {:induction false} InorderReplace(p: Page, path: seq<nat>, q: Page)
    requires ValidPath(p, path)
    ensures Inorder(Replace(p, path, q)) == Before(p, path) + Inorder(q) + After(p, path)
  {
    ReplaceAt(p, path, q);
    InorderAt(Replace(p, path, q), path);
  }

  lemma {:induction false} ShapeAt(cfg: Config, p: Page, h: nat, path: seq<nat>)
    requires ValidPath(p, path) && Shape(cfg, p, h)
    ensures |path| <= h && Shape(cfg, PageAt(p, path), h - |path|)
    decreases |path|
  {
    if path != [] { ShapeAt(cfg, p.kids[path[0]], h - 1, path[1..]); }
  }

  lemma {:induction false} ShapeReplace(cfg: Config, p: Page, h: nat, path: seq<nat>, q: Page)
    requires ValidPath(p, path) && Shape(cfg, p, h)
    requires |path| <= h && Shape(cfg, q, h - |path|)
    ensures Shape(cfg, Replace(p, path, q), h)
    decreases |path|
  {
    if path != [] { ShapeReplace(cfg, p.kids[path[0]], h - 1, path[1..], q); }
  }

  lemma {:induction false} PathPrefix(p: Page, path: seq<nat>, d: nat)
    requires ValidPath(p, path) && d <= |path|
    ensures ValidPath(p, path[..d]) && ValidPath(PageAt(p, path[..d]), path[d..])
    ensures PageAt(PageAt(p, path[..d]), path[d..]) == PageAt(p, path)
    ensures d < |path| ==> PageAt(p, path[..d]).Interior? && path[d] < |PageAt(p, path[..d]).kids|
    ensures d < |path| ==> |PageAt(p, path[..d]).kids| == |PageAt(p, path[..d]).cells| + 1
    decreases |path|
  {
    if d > 0 {
      assert path[..d][1..] == path[1..][..d - 1] && path[d..] == path[1..][d - 1..];
      PathPrefix(p.kids[path[0]], path[1..], d - 1);
    } else {
      assert path[..0] == [] && path[0..] == path;
    }
  }

  /** The page at `path` is an interior page with a child `i`. */
  ghost predicate HasChild(p: Page, path: seq<nat>, i: nat)
    requires ValidPath(p, path)
  {
    var q := PageAt(p, path);
    q.Interior? && |q.kids| == |q.cells| + 1 && i < |q.kids|
  }

  lemma {:induction false} PathExtend(p: Page, path: seq<nat>, i: nat)
    requires ValidPath(p, path) && HasChild(p, path, i)
    ensures ValidPath(p, path + [i]) && PageAt(p, path + [i]) == PageAt(p, path).kids[i]
    decreases |path|
  {
    if path == [] {
      assert (path + [i])[1..] == [];
    } else {
      assert (path + [i])[1..] == path[1..] + [i];
      PathExtend(p.kids[path[0]], path[1..], i);
    }
  }

  /** Scan order around a path extended by one child. */
  lemma {:induction false} ScanExtend(p: Page, path: seq<nat>, i: nat)
    requires ValidPath(p, path) && HasChild(p, path, i)
    ensures ValidPath(p, path + [i])
    ensures var q := PageAt(p, path);
      && Before(p, path + [i]) == Before(p, path) + LeftOf(q.cells, q.kids, i)
      && After(p, path + [i]) == RightOf(q.cells, q.kids, i) + After(p, path)
    decreases |path|
  {
    PathExtend(p, path, i);
    var q := PageAt(p, path);
    if path == [] {
      assert (path + [i])[1..] == [];
      Units(LeftOf(q.cells, q.kids, i));
      Units(RightOf(q.cells, q.kids, i));
    } else {
      var j, kid, rest := path[0], p.kids[path[0]], path[1..];
      assert (path + [i])[1..] == rest + [i] && (path + [i])[0] == j;
      ScanExtend(kid, rest, i);
      Assoc(LeftOf(p.cells, p.kids, j), Before(kid, rest), LeftOf(q.cells, q.kids, i));
      Assoc(RightOf(q.cells, q.kids, i), After(kid, rest), RightOf(p.cells, p.kids, j));
    }
  }

  /** Replacing a page leaves the cells of the pages above it alone. */
  lemma {:induction false} CellsAbove(p: Page, path: seq<nat>, q: Page, d: nat)
    requires ValidPath(p, path) && d < |path|
    ensures ValidPath(p, path[..d]) && ValidPath(Replace(p, path, q), path[..d])
    ensures PageAt(Replace(p, path, q), path[..d]).Interior? && PageAt(p, path[..d]).Interior?
    ensures PageAt(Replace(p, path, q), path[..d]).cells == PageAt(p, path[..d]).cells
    decreases |path|
  {
    if d > 0 {
      assert path[..d][1..] == path[1..][..d - 1];
      CellsAbove(p.kids[path[0]], path[1..], q, d - 1);
    } else {
      assert path[..0] == [];
    }
  }
}
