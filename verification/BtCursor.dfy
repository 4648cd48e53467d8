/** A cursor on a b-tree: seek, insert, delete (sqlite3BtreeMovetoUnpacked, sqlite3BtreeInsert and
    sqlite3BtreeDelete in btree.c).  Each operation is proved against the map of entries. */
module BtCursor {
  import opened Tree
  import opened Order
  import opened PageRules
  import opened Redistribute
  import opened Nonroot
  import opened Balance
  import opened Search

  // ------------------------------------------------------------------ changing one page

  lemma {:induction false} RootOrPage(cfg: Config, root: Page, h: nat, path: seq<nat>)
    requires TreeOk(cfg, root, h) && ValidPath(root, path)
    ensures OffPath(cfg, root, path)
    ensures Bytes(cfg, PageAt(root, path).Leaf?, PageAt(root, path).cells) <= Room(cfg, |path|, PageAt(root, path).Leaf?)
    ensures path != [] ==> PageAt(root, path).cells != []
    ensures forall d :: 0 <= d <= |path| ==> ValidPath(root, path[..d]) && OrderlyAt(cfg, root, path, d)
  {
    OffPathIntro(cfg, root, path);
    forall d | 0 <= d <= |path| ensures ValidPath(root, path[..d]) && OrderlyAt(cfg, root, path, d) {
      PathPrefix(root, path, d);
      OffPathIntro(cfg, root, path[..d]);
      if d == 0 { assert path[..0] == []; }
    }
    assert path[..|path|] == path;
    assert OrderlyAt(cfg, root, path, |path|);
  }

  /** The page at depth `d` of the path is in order. */
  ghost predicate OrderlyAt(cfg: Config, root: Page, path: seq<nat>, d: nat)
    requires ValidConfig(cfg) && d <= |path| && ValidPath(root, path[..d])
  {
    var p := PageAt(root, path[..d]);
    && Bytes(cfg, p.Leaf?, p.cells) <= Room(cfg, d, p.Leaf?)
    && (d > 0 ==> p.cells != [])
    && (d == 0 && p.Interior? && p.cells == [] ==> cfg.rootHdr > 0)
  }

  /** After one page has been replaced the balance loop can start there. */
  lemma {:induction false} ReadyToBalance(cfg: Config, root: Page, h: nat, path: seq<nat>, q: Page, carry: Carry, bulk: bool)
    requires TreeOk(cfg, root, h) && ValidPath(root, path)
    requires |path| <= h && Shape(cfg, q, h - |path|) && BelowOk(cfg, q)
    requires CurrentOk(cfg, q, |path|, carry)
    ensures Pending(cfg, Replace(root, path, q), h, path, carry, bulk, -1)
  {
    var r := Replace(root, path, q);
    RootOrPage(cfg, root, h, path);
    ReplaceAt(root, path, q);
    assert path[..|path|] == path;
    OffPathReplace(cfg, root, path, |path|, q);
    ShapeReplace(cfg, root, h, path, q);
    forall d | 0 <= d < |path|
      ensures ValidPath(r, path[..d]) && AboveOk(cfg, r, path, carry, bulk, -1, d)
    {
      assert OrderlyAt(cfg, root, path, d);
      CellsAbove(root, path, q, d);
    }
  }

  /** A replacement that needs no balancing leaves the tree in order. */
  lemma {:induction false} StillOk(cfg: Config, root: Page, h: nat, path: seq<nat>, q: Page)
    requires TreeOk(cfg, root, h) && ValidPath(root, path)
    requires |path| <= h && Shape(cfg, q, h - |path|) && BelowOk(cfg, q)
    requires q.cells != [] && Bytes(cfg, q.Leaf?, q.cells) <= Room(cfg, |path|, q.Leaf?)
    requires Sorted(Inorder(Replace(root, path, q)))
    ensures TreeOk(cfg, Replace(root, path, q), h)
  {
    assert q.cells[..0] + q.cells[0..] == q.cells;
    ReadyToBalance(cfg, root, h, path, q, NO_CARRY, false);
    ReplaceAt(root, path, q);
    var r := Replace(root, path, q);
    if path == [] { StopAtRoot(cfg, r, h, NO_CARRY, false, -1); }
    else { StopBelow(cfg, r, h, path, NO_CARRY, false, -1); }
  }

  // ------------------------------------------------------------------ where a cell sits

  /** What a scan of a page visits before and after its cell `i`, or the gap before it. */
  ghost function CellLeft(p: Page, i: nat): seq<Cell>
    requires i <= |p.cells| && (p.Interior? ==> |p.kids| == |p.cells| + 1)
  {
    match p
    case Leaf(cells) => cells[..i]
    case Interior(cells, kids) => Weave(cells[..i], kids[..i + 1])
  }

  ghost function CellRight(p: Page, i: nat): seq<Cell>
    requires i < |p.cells| && (p.Interior? ==> |p.kids| == |p.cells| + 1)
  {
    match p
    case Leaf(cells) => cells[i + 1..]
    case Interior(cells, kids) => Weave(cells[i + 1..], kids[i + 1..])
  }

  function WithCells(p: Page, cells: seq<Cell>): Page
  {
    match p
    case Leaf(_) => Leaf(cells)
    case Interior(_, kids) => Interior(cells, kids)
  }

  lemma {:induction false} ScanAtCell(p: Page, i: nat)
    requires i < |p.cells| && (p.Interior? ==> |p.kids| == |p.cells| + 1)
    ensures Inorder(p) == CellLeft(p, i) + [p.cells[i]] + CellRight(p, i)
  {
    assert p.cells == p.cells[..i] + [p.cells[i]] + p.cells[i + 1..];
    if p.Interior? {
      assert p.kids == p.kids[..i + 1] + p.kids[i + 1..];
      WeaveSplit(p.cells[..i], p.kids[..i + 1], p.cells[i], p.cells[i + 1..], p.kids[i + 1..]);
    }
  }

  /** Overwriting one cell of a page. */
  lemma {:induction false} ScanOverwrite(p: Page, i: nat, c: Cell)
    requires i < |p.cells| && (p.Interior? ==> |p.kids| == |p.cells| + 1)
    ensures Inorder(WithCells(p, p.cells[i := c])) == CellLeft(p, i) + [c] + CellRight(p, i)
  {
    var q := WithCells(p, p.cells[i := c]);
    ScanAtCell(q, i);
    assert q.cells[..i] == p.cells[..i] && q.cells[i + 1..] == p.cells[i + 1..];
  }

  lemma {:induction false} Regroup(b: seq<Cell>, l: seq<Cell>, m: seq<Cell>, r: seq<Cell>, a: seq<Cell>)
    ensures b + (l + m + r) + a == (b + l) + m + (r + a)
  {
  }

  lemma {:induction false} PutAround(x: seq<Cell>, was: seq<Cell>, c: Cell, y: seq<Cell>)
    requires Sorted(x + was + y) && c.Entry?
    requires was == [] || (|was| == 1 && was[0].Entry? && was[0].key == c.key)
    requires was == [] ==> AllBelow(x, 2 * c.key) && AllAbove(y, 2 * c.key)
    ensures Sorted(x + [c] + y) && MapOf(x + [c] + y) == MapOf(x + was + y)[c.key := c.payload]
    ensures was == [] <==> c.key !in MapOf(x + was + y)
  {
    if was == [] {
      KeyAbsent(x, y, c.key);
      assert x + was + y == x + y;
    } else {
      SortedParts(x, was, y);
      assert was == [was[0]];
      MapDrop(x, was[0], y);
    }
    SortedPut(x, was, c, y);
    MapPut(x, was, c, y);
  }

  /** The effect of putting a cell on a page: `was` is the cell it replaces, or nothing. */
  lemma {:induction false} PutEffect(root: Page, path: seq<nat>, q: Page, l: seq<Cell>, was: seq<Cell>, c: Cell, r: seq<Cell>)
    requires ValidPath(root, path) && Sorted(Inorder(root)) && c.Entry?
    requires Inorder(PageAt(root, path)) == l + was + r && Inorder(q) == l + [c] + r
    requires was == [] || (|was| == 1 && was[0].Entry? && was[0].key == c.key)
    requires was == [] ==> Between(root, path, 2 * c.key) && AllBelow(l, 2 * c.key) && AllAbove(r, 2 * c.key)
    ensures Sorted(Inorder(Replace(root, path, q)))
    ensures MapOf(Inorder(Replace(root, path, q))) == MapOf(Inorder(root))[c.key := c.payload]
    ensures was == [] <==> c.key !in MapOf(Inorder(root))
  {
    var b, a := Before(root, path), After(root, path);
    InorderAt(root, path);
    InorderReplace(root, path, q);
    Regroup(b, l, was, r, a);
    Regroup(b, l, [c], r, a);
    if was == [] {
      BelowConcat(b, l, 2 * c.key);
      BelowConcat(r, a, 2 * c.key);
    }
    PutAround(b + l, was, c, r + a);
  }

  lemma {:induction false} DropAround(x: seq<Cell>, c: Cell, y: seq<Cell>)
    requires Sorted(x + [c] + y) && c.Entry?
    ensures Sorted(x + y) && MapOf(x + y) == MapOf(x + [c] + y) - {c.key}
  {
    MapDrop(x, c, y);
    SortedParts(x, [c], y);
  }

  lemma {:induction false} DropEffect(root: Page, path: seq<nat>, q: Page, l: seq<Cell>, c: Cell, r: seq<Cell>)
    requires ValidPath(root, path) && Sorted(Inorder(root)) && c.Entry?
    requires Inorder(PageAt(root, path)) == l + [c] + r && Inorder(q) == l + r
    ensures Sorted(Inorder(Replace(root, path, q)))
    ensures MapOf(Inorder(Replace(root, path, q))) == MapOf(Inorder(root)) - {c.key}
  {
    var b, a := Before(root, path), After(root, path);
    InorderAt(root, path);
    InorderReplace(root, path, q);
    Regroup(b, l, [c], r, a);
    Regroup(b, l, [], r, a);
    Units(l);
    Units(b + l);
    DropAround(b + l, c, r + a);
  }

  // ------------------------------------------------------------------ insertion

  /** The page with the new cell, which may not fit. */
  ghost predicate CellPut(cfg: Config, p: Page, q: Page, pos: nat, c: Cell, replacing: bool)
  {
    && c.Entry? && pos <= |p.cells| && (replacing ==> pos < |p.cells| && p.cells[pos].Entry?)
    && (!replacing ==> p.Leaf?)
    && q == WithCells(p, p.cells[..pos] + [c] + p.cells[if replacing then pos + 1 else pos..])
  }

  lemma {:induction false} PutShape(cfg: Config, p: Page, q: Page, pos: nat, c: Cell, replacing: bool, h: nat)
    requires ValidConfig(cfg) && CellPut(cfg, p, q, pos, c, replacing)
    requires Shape(cfg, p, h) && BelowOk(cfg, p)
    ensures Shape(cfg, q, h) && BelowOk(cfg, q) && q.cells != []
  {
    assert p.Leaf? == q.Leaf?;
    if replacing { assert CellKind(cfg, p.Leaf?, p.cells[pos]); }
    forall i | 0 <= i < |q.cells| ensures CellKind(cfg, q.Leaf?, q.cells[i]) {
      if i < pos { assert q.cells[i] == p.cells[i]; }
      else if i > pos { assert q.cells[i] == p.cells[if replacing then i else i - 1]; }
    }
  }

  lemma {:induction false} PutCarry(cfg: Config, p: Page, q: Page, pos: nat, c: Cell, replacing: bool, n: nat)
    requires ValidConfig(cfg) && CellPut(cfg, p, q, pos, c, replacing)
    requires Bytes(cfg, p.Leaf?, p.cells) <= Room(cfg, n, p.Leaf?)
    requires Bytes(cfg, q.Leaf?, q.cells) > Room(cfg, n, q.Leaf?)
    ensures CurrentOk(cfg, q, n, Carry(pos, 1))
  {
    var rest := p.cells[if replacing then pos + 1 else pos..];
    PutRest(p.cells, pos, c, rest);
    if replacing {
      CarriedSplit(cfg, p.Leaf?, p.cells, pos, 1);
    } else {
      assert p.cells[..pos] + rest == p.cells;
    }
    assert Carrying(cfg, q.Leaf?, q.cells, Room(cfg, n, q.Leaf?), Carry(pos, 1));
  }

  lemma {:induction false} PutRest(cells: seq<Cell>, pos: nat, c: Cell, rest: seq<Cell>)
    requires pos <= |cells|
    ensures var q := cells[..pos] + [c] + rest; q[..pos] + q[pos + 1..] == cells[..pos] + rest
  {
    var q := cells[..pos] + [c] + rest;
    assert q[..pos] == cells[..pos] && q[pos + 1..] == rest;
  }

  lemma {:induction false} PutScan(p: Page, q: Page, pos: nat, c: Cell, replacing: bool, cfg: Config)
    requires CellPut(cfg, p, q, pos, c, replacing) && (p.Interior? ==> |p.kids| == |p.cells| + 1)
    ensures var l := CellLeft(p, pos);
      var was := if replacing then [p.cells[pos]] else [];
      var r := if replacing then CellRight(p, pos) else p.cells[pos..];
      Inorder(p) == l + was + r && Inorder(q) == l + [c] + r
  {
    if replacing {
      ScanAtCell(p, pos);
      ScanOverwrite(p, pos, c);
      assert p.cells[pos := c] == p.cells[..pos] + [c] + p.cells[pos + 1..];
    } else {
      assert p.cells[..pos] + [] + p.cells[pos..] == p.cells;
    }
  }

  // ------------------------------------------------------------------ deletion

  /** The page without its cell `i`. */
  lemma {:induction false} DropShape(cfg: Config, cells: seq<Cell>, i: nat, h: nat)
    requires ValidConfig(cfg) && i < |cells| && Shape(cfg, Leaf(cells), h)
    ensures Shape(cfg, Leaf(cells[..i] + cells[i + 1..]), h)
    ensures Bytes(cfg, true, cells[..i] + cells[i + 1..]) <= Bytes(cfg, true, cells)
  {
    var q := cells[..i] + cells[i + 1..];
    forall j | 0 <= j < |q| ensures CellKind(cfg, true, q[j]) {
      assert q[j] == cells[if j < i then j else j + 1];
      assert CellKind(cfg, true, cells[if j < i then j else j + 1]);
    }
    CarriedSplit(cfg, true, cells, i, 1);
  }

  lemma {:induction false} FitsUncarried(cfg: Config, p: Page, n: nat)
    requires ValidConfig(cfg) && Bytes(cfg, p.Leaf?, p.cells) <= Room(cfg, n, p.Leaf?)
    requires n == 0 && p.Interior? && p.cells == [] ==> cfg.rootHdr > 0
    ensures CurrentOk(cfg, p, n, NO_CARRY)
  {
    assert p.cells[..0] + p.cells[0..] == p.cells;
  }

  /** Overwriting cells of one page on a path changes nothing else. */
  lemma {:induction false} SwapCells(cfg: Config, root: Page, h: nat, path: seq<nat>, n: nat, cells: seq<Cell>)
    requires ValidConfig(cfg) && ValidPath(root, path) && n < |path| && OffPath(cfg, root, path) && Shape(cfg, root, h)
    requires ValidPath(root, path[..n]) && PageAt(root, path[..n]).Interior?
    requires |cells| == |PageAt(root, path[..n]).cells| && Kinds(cfg, false, cells)
    ensures var p := PageAt(root, path[..n]);
      var r := Replace(root, path[..n], Interior(cells, p.kids));
      && ValidPath(r, path) && OffPath(cfg, r, path) && Shape(cfg, r, h)
      && PageAt(r, path) == PageAt(root, path)
    decreases n
  {
    if n == 0 {
      assert path[..0] == [];
    } else {
      assert path[..n][1..] == path[1..][..n - 1];
      SwapCells(cfg, root.kids[path[0]], h - 1, path[1..], n - 1, cells);
    }
  }

  lemma {:induction false} SwappedAt(root: Page, path: seq<nat>, n: nat, cells: seq<Cell>, d: nat)
    requires ValidPath(root, path) && n < |path| && d <= |path|
    requires ValidPath(root, path[..n]) && PageAt(root, path[..n]).Interior?
    requires |cells| == |PageAt(root, path[..n]).cells|
    ensures ValidPath(root, path[..d])
    ensures var r := Replace(root, path[..n], Interior(cells, PageAt(root, path[..n]).kids));
      && ValidPath(r, path[..d])
      && PageAt(r, path[..d]).Leaf? == PageAt(root, path[..d]).Leaf?
      && PageAt(r, path[..d]).cells == if d == n then cells else PageAt(root, path[..d]).cells
    decreases n
  {
    PathPrefix(root, path, d);
    if d == 0 { assert path[..0] == []; } else { assert path[..d][1..] == path[1..][..d - 1]; }
    if n == 0 {
      assert path[..0] == [];
    } else {
      assert path[..n][1..] == path[1..][..n - 1];
      if d > 0 { SwappedAt(root.kids[path[0]], path[1..], n - 1, cells, d - 1); }
    }
  }

  /** A scan around a path taken in two parts. */
  lemma {:induction false} ScanConcat(p: Page, a: seq<nat>, b: seq<nat>)
    requires ValidPath(p, a) && ValidPath(PageAt(p, a), b)
    ensures ValidPath(p, a + b) && PageAt(p, a + b) == PageAt(PageAt(p, a), b)
    ensures Before(p, a + b) == Before(p, a) + Before(PageAt(p, a), b)
    ensures After(p, a + b) == After(PageAt(p, a), b) + After(p, a)
    decreases |a|
  {
    if a == [] {
      assert a + b == b;
      Units(Before(p, b));
      Units(After(p, b));
    } else {
      assert (a + b)[1..] == a[1..] + b && (a + b)[0] == a[0];
      var kid := p.kids[a[0]];
      ScanConcat(kid, a[1..], b);
      Assoc(LeftOf(p.cells, p.kids, a[0]), Before(kid, a[1..]), Before(PageAt(p, a), b));
      Assoc(After(PageAt(p, a), b), After(kid, a[1..]), RightOf(p.cells, p.kids, a[0]));
    }
  }

  /** Scan around child `ix` and then the page at `rest` below it, the last one of that subtree. */
  lemma {:induction false} ScanToPredecessor(p: Page, ix: nat, rest: seq<nat>)
    requires p.Interior? && |p.kids| == |p.cells| + 1 && ix < |p.cells|
    requires ValidPath(p.kids[ix], rest) && After(p.kids[ix], rest) == []
    ensures ValidPath(p, [ix] + rest) && PageAt(p, [ix] + rest) == PageAt(p.kids[ix], rest)
    ensures Before(p, [ix] + rest) == LeftOf(p.cells, p.kids, ix) + Before(p.kids[ix], rest)
    ensures After(p, [ix] + rest) == [p.cells[ix]] + CellRight(p, ix)
  {
    assert ([ix] + rest)[1..] == rest;
    Units(RightOf(p.cells, p.kids, ix));
  }

  lemma {:induction false} CellLeftIs(p: Page, ix: nat)
    requires p.Interior? && |p.kids| == |p.cells| + 1 && ix < |p.cells|
    ensures CellLeft(p, ix) == LeftOf(p.cells, p.kids, ix) + Inorder(p.kids[ix])
  {
    var c, k := p.cells[..ix], p.kids[..ix + 1];
    WeaveAt(c, k, ix);
    if ix > 0 { assert c[..ix - 1] == p.cells[..ix - 1] && k[..ix] == p.kids[..ix]; }
    Units(LeftOf(c, k, ix) + Inorder(k[ix]));
  }

  /** Moving the last entry of the left subtree up over cell `ix` removes that cell from the scan. */
  lemma {:induction false} PredecessorScan(root: Page, path: seq<nat>, ix: nat, rest: seq<nat>)
    requires ValidPath(root, path)
    requires var p := PageAt(root, path);
      && p.Interior? && |p.kids| == |p.cells| + 1 && ix < |p.cells|
      && ValidPath(p.kids[ix], rest) && After(p.kids[ix], rest) == []
      && PageAt(p.kids[ix], rest).Leaf? && PageAt(p.kids[ix], rest).cells != []
    ensures var p := PageAt(root, path);
      var leaf := PageAt(p.kids[ix], rest);
      var n := |leaf.cells| - 1;
      var r1 := Replace(root, path, Interior(p.cells[ix := leaf.cells[n]], p.kids));
      && ValidPath(r1, path + ([ix] + rest))
      && Inorder(root) == Before(root, path) + (CellLeft(p, ix) + [p.cells[ix]] + CellRight(p, ix)) + After(root, path)
      && Inorder(Replace(r1, path + ([ix] + rest), Leaf(leaf.cells[..n])))
         == Before(root, path) + (CellLeft(p, ix) + CellRight(p, ix)) + After(root, path)
  {
    hide Weave, LeftOf, CellLeft, CellRight, Before, After, ValidPath, Replace;
    var p := PageAt(root, path);
    var kid := p.kids[ix];
    var leaf := PageAt(kid, rest);
    var n := |leaf.cells| - 1;
    var q := Interior(p.cells[ix := leaf.cells[n]], p.kids);
    var r1 := Replace(root, path, q);
    InorderAt(root, path);
    ScanAtCell(p, ix);
    ReplaceAt(root, path, q);
    ScanToPredecessor(q, ix, rest);
    ScanConcat(r1, path, [ix] + rest);
    InorderReplace(r1, path + ([ix] + rest), Leaf(leaf.cells[..n]));
    CellLeftIs(p, ix);
    InorderAt(kid, rest);
    Units(Before(kid, rest) + leaf.cells);
    SwappedSides(p, ix, leaf.cells[n]);
    MoveUp(Before(root, path), LeftOf(p.cells, p.kids, ix), Before(kid, rest), leaf.cells, CellRight(p, ix), After(root, path));
  }

  /** Changing a divider leaves what is on its two sides. */
  lemma {:induction false} SwappedSides(p: Page, ix: nat, c: Cell)
    requires p.Interior? && |p.kids| == |p.cells| + 1 && ix < |p.cells|
    ensures LeftOf(p.cells[ix := c], p.kids, ix) == LeftOf(p.cells, p.kids, ix)
    ensures CellRight(Interior(p.cells[ix := c], p.kids), ix) == CellRight(p, ix)
  {
    hide Weave;
    var cells := p.cells[ix := c];
    assert cells[..ix] == p.cells[..ix] && cells[ix + 1..] == p.cells[ix + 1..];
    if ix > 0 { assert cells[..ix - 1] == p.cells[..ix - 1]; }
  }

  lemma {:induction false} MoveUp(b: seq<Cell>, l: seq<Cell>, k: seq<Cell>, leaf: seq<Cell>, r: seq<Cell>, a: seq<Cell>)
    requires leaf != []
    ensures var n := |leaf| - 1;
      (b + (l + k)) + leaf[..n] + ([leaf[n]] + r + a) == b + ((l + (k + leaf)) + r) + a
  {
    var n := |leaf| - 1;
    assert leaf == leaf[..n] + [leaf[n]];
  }

  /** `rest` leads from `kid` to the leaf with its last entry. */
  ghost predicate IsLast(kid: Page, rest: seq<nat>)
  {
    ValidPath(kid, rest) && After(kid, rest) == [] && PageAt(kid, rest).Leaf? && PageAt(kid, rest).cells != []
  }

  // ------------------------------------------------------------------ the cursor

  class BtCursor {
    const cfg: Config
    /** BTREE_BULKLOAD: the cursor only ever appends. */
    const bulk: bool
    var root: Page
    var aiIdx: seq<nat>
    var ix: nat
    ghost var height: nat

    ghost predicate Valid()
      reads this
    {
      TreeOk(cfg, root, height)
    }

    /** The table or index the tree stands for. */
    ghost function Content(): map<int, seq<int>>
      reads this
    {
      MapOf(Inorder(root))
    }

    /** The cursor points at an entry. */
    ghost predicate OnEntry()
      reads this
    {
      && ValidPath(root, aiIdx)
      && ix < |PageAt(root, aiIdx).cells|
      && PageAt(root, aiIdx).cells[ix].Entry?
    }

    constructor (cfg: Config, bulk: bool)
      requires ValidConfig(cfg)
      ensures Valid() && Content() == map[] && this.cfg == cfg && this.bulk == bulk
    {
      this.cfg, this.bulk := cfg, bulk;
      root, aiIdx, ix, height := Leaf([]), [], 0, 0;
      new;
      assert Bytes(cfg, true, []) == 0;
    }

    /** Seek `key`.  `loc` is 0 on an exact match; otherwise the cursor ends on the leaf that would
        hold the key, on an entry below (`loc < 0`) or above it. */
    method MoveTo(key: int, biasRight: bool) returns (loc: int)
      requires Valid()
      modifies this`aiIdx, this`ix
      ensures Located(cfg, root, aiIdx, ix, key, loc)
      ensures loc == 0 <==> key in Content()
      ensures loc == 0 ==> OnEntry() && Content()[key] == PageAt(root, aiIdx).cells[ix].payload
    {
      aiIdx, ix := [], 0;
      if root.cells == [] {
        if root.Leaf? {
          loc := -1;
          SeekMissed(cfg, root, height, aiIdx, ix, key, loc);
          return;
        }
        Descend(cfg, root, height, [], 0, key);
        aiIdx := [0];
        assert [] + [0] == [0];
        RootOrPage(cfg, root, height, aiIdx);
      }
      while true
        invariant ValidPath(root, aiIdx) && Between(root, aiIdx, 2 * key)
        invariant PageAt(root, aiIdx).cells != []
        decreases height - |aiIdx|
      {
        var page := PageAt(root, aiIdx);
        var hit, idx, lwr, c := Probe(cfg, root, height, aiIdx, key, biasRight);
        if hit && (page.Leaf? || !cfg.leafData) {
          ix, loc := idx, 0;
          return;
        }
        if page.Leaf? {
          ix, loc := idx, c;
          return;
        }
        ix, aiIdx := lwr, aiIdx + [lwr];
      }
    }

    /** Where balancing has stopped: at the root, or at a page that is not underfull. */
    ghost predicate AtRest()
      requires ValidConfig(cfg)
      reads this
    {
      ValidPath(root, aiIdx) && (aiIdx != [] ==> !Underfull(cfg, PageAt(root, aiIdx)))
    }

    /** The balance loop went through these states and ended with the tree and the cursor as they are. */
    ghost predicate Went(run: seq<State>)
      requires ValidConfig(cfg)
      reads this
    {
      run != [] && Run(cfg, bulk, run) && run[|run| - 1].root == root && run[|run| - 1].path == aiIdx
    }

    /** Run the balance loop from the page at `aiIdx`, which has just been replaced. */
    method BalanceFrom(carry: Carry) returns (ghost run: seq<State>)
      requires Pending(cfg, root, height, aiIdx, carry, bulk, -1) && Sorted(Inorder(root))
      modifies this`root, this`aiIdx, this`height
      ensures Valid() && Content() == old(Content())
      ensures Went(run) && run[0] == State(old(root), old(aiIdx), carry) && AtRest()
    {
      ghost var before := Inorder(root);
      ghost var x;
      root, aiIdx, height, x, run := BalanceLoop(cfg, bulk, root, aiIdx, carry, height, -1);
      MapOfEntries(before);
      MapOfEntries(Inorder(root));
      EndsAtRest(cfg, bulk, run);
    }

    /** sqlite3BtreeInsert: bind `key` to `payload`, overwriting an entry with that key.  Only the page that
        gets the cell changes; the tree is balanced from there when the cell does not fit. */
    method Insert(key: int, payload: seq<int>, append: bool) returns (ghost run: seq<State>)
      requires Valid()
      modifies this
      ensures Valid()
      ensures Content() == old(Content())[key := payload]
      ensures run == [] ==> PageChanged(old(root), aiIdx, root)
      ensures run != [] ==> Went(run) && run[0].carry.count == 1 && PageChanged(old(root), run[0].path, run[0].root) && AtRest()
    {
      hide Run;
      var loc := MoveTo(key, append);
      var page, n := PageAt(root, aiIdx), |aiIdx|;
      var c := Entry(key, payload);
      var pos := if loc == 0 then ix else InsertAt(page, ix, loc);
      var q := WithCells(page, page.cells[..pos] + [c] + page.cells[if loc == 0 then pos + 1 else pos..]);
      PutOnPage(cfg, root, height, aiIdx, ix, c, loc, pos, q, bulk);
      ReplaceAt(root, aiIdx, q);
      root := Replace(root, aiIdx, q);
      run := [];
      if Bytes(cfg, q.Leaf?, q.cells) > Room(cfg, n, q.Leaf?) {
        run := BalanceFrom(Carry(pos, 1));
      }
    }

    /** What a bulk cursor needs to delete: the entry is on a leaf, or the first of its page, or the page
        does not overflow when the predecessor of the entry replaces it. */
    ghost predicate Deletable()
      requires OnEntry() && ValidConfig(cfg)
      reads this
    {
      var p := PageAt(root, aiIdx);
      p.Leaf? || forall rest :: ix < |p.kids| && IsLast(p.kids[ix], rest) ==> SwapAttended(cfg, p, |aiIdx|, ix, PageAt(p.kids[ix], rest), bulk)
    }

    /** sqlite3BtreeDelete: remove the entry the cursor points at.  An entry on an interior page is
        replaced by its predecessor, taken from the end of its left subtree.  The tree is balanced from the
        leaf that has lost a cell and, when that ends below the interior page, from there again. */
    method Delete() returns (ghost run: seq<State>, ghost again: seq<State>)
      requires Valid() && OnEntry() && (bulk ==> Deletable())
      modifies this
      ensures Valid()
      ensures Content() == old(Content()) - {old(PageAt(root, aiIdx).cells[ix].key)}
      ensures run != [] && Run(cfg, bulk, run) && run[0].carry.count == 0 && AtRest()
      ensures if |run[|run| - 1].path| > old(|aiIdx|) then
                Went(again) && Climbed(cfg, run[|run| - 1], old(|aiIdx|), again[0])
              else Went(run) && again == []
      ensures if old(PageAt(root, aiIdx)).Leaf? then run[0].path == old(aiIdx) && PageChanged(old(root), run[0].path, run[0].root)
              else SwapStart(old(root), old(aiIdx), old(ix), run[0])
    {
      hide Bytes, Inorder, Sorted, SwapAttended, Run, PageChanged;
      var page := PageAt(root, aiIdx);
      if page.Leaf? {
        run := DeleteOnLeaf();
        again := [];
      } else {
        run, again := DeleteInterior();
      }
    }

    method DeleteOnLeaf() returns (ghost run: seq<State>)
      requires Valid() && OnEntry() && PageAt(root, aiIdx).Leaf?
      modifies this
      ensures Valid() && Content() == old(Content()) - {old(PageAt(root, aiIdx).cells[ix].key)}
      ensures Went(run) && run[0].carry.count == 0 && AtRest()
      ensures run[0].path == old(aiIdx) && PageChanged(old(root), old(aiIdx), run[0].root) && |run[|run| - 1].path| <= old(|aiIdx|)
    {
      hide Bytes, Inorder, Sorted, Run, PageChanged, Pending, Underfull;
      var page := PageAt(root, aiIdx);
      DropOnLeaf(cfg, root, height, aiIdx, ix, bulk);
      root := Replace(root, aiIdx, Leaf(page.cells[..ix] + page.cells[ix + 1..]));
      run := BalanceFrom(NO_CARRY);
      RunShortens(cfg, bulk, run, |run| - 1);
    }

    method DeleteInterior() returns (ghost run: seq<State>, ghost again: seq<State>)
      requires Valid() && OnEntry() && (bulk ==> Deletable()) && PageAt(root, aiIdx).Interior?
      modifies this
      ensures Valid() && Content() == old(Content()) - {old(PageAt(root, aiIdx).cells[ix].key)}
      ensures run != [] && Run(cfg, bulk, run) && run[0].carry.count == 0 && AtRest()
      ensures SwapStart(old(root), old(aiIdx), old(ix), run[0])
      ensures if |run[|run| - 1].path| > old(|aiIdx|) then
                Went(again) && Climbed(cfg, run[|run| - 1], old(|aiIdx|), again[0])
              else Went(run) && again == []
    {
      hide Bytes, Inorder, Sorted, SwapAttended, Run, Pending, SwapStart;
      var n := |aiIdx|;
      var path := Swap();
      ghost var before := Inorder(root);
      ghost var x;
      root, aiIdx, height, x, run := BalanceLoop(cfg, bulk, root, path, NO_CARRY, height, n);
      again := [];
      MapOfEntries(before);
      MapOfEntries(Inorder(root));
      EndsAtRest(cfg, bulk, run);
      if |aiIdx| > n {
        var idx := aiIdx[n];
        SecondRound(cfg, root, height, aiIdx, bulk, n, x);
        aiIdx := aiIdx[..n];
        var p := PageAt(root, aiIdx);
        again := BalanceFrom(if Bytes(cfg, false, p.cells) > Room(cfg, n, false) then Carry(idx, 1) else NO_CARRY);
      }
    }

    /** The last entry of the left subtree takes the place of the entry under the cursor; `path` leads to the
        leaf it came from. */
    method Swap() returns (path: seq<nat>)
      requires Valid() && OnEntry() && (bulk ==> Deletable()) && PageAt(root, aiIdx).Interior?
      modifies this`root
      ensures Pending(cfg, root, height, path, NO_CARRY, bulk, |aiIdx|) && Sorted(Inorder(root))
      ensures Content() == old(Content()) - {old(PageAt(root, aiIdx).cells[ix].key)}
      ensures SwapStart(old(root), aiIdx, ix, State(root, path, NO_CARRY))
    {
      hide Bytes, Inorder, Sorted, SwapAttended, Pending;
      var page := PageAt(root, aiIdx);
      PageInOrder(cfg, root, height, aiIdx);
      var rest := LastOf(cfg, root, height, aiIdx, ix);
      var leaf := PageAt(page.kids[ix], rest);
      path := aiIdx + ([ix] + rest);
      assert IsLast(page.kids[ix], rest);
      DropInterior(cfg, root, height, aiIdx, ix, rest, bulk);
      ghost var was := root;
      root := Replace(root, aiIdx, Interior(page.cells[ix := leaf.cells[|leaf.cells| - 1]], page.kids));
      root := Replace(root, path, Leaf(leaf.cells[..|leaf.cells| - 1]));
      assert SwapAt(was, aiIdx, ix, rest, State(root, path, NO_CARRY));
    }
  }

  /** The page at depth `n` is looked at again; it may hold one cell more than fits. */
  ghost predicate Climbed(cfg: Config, s: State, n: nat, t: State)
    requires ValidConfig(cfg) && n < |s.path|
  {
    && ValidPath(s.root, s.path[..n])
    && var p := PageAt(s.root, s.path[..n]);
       t == State(s.root, s.path[..n], if Bytes(cfg, false, p.cells) > Room(cfg, n, false) then Carry(s.path[n], 1) else NO_CARRY)
  }

  /** The entry at `ix` of an interior page has given way to the last entry of its left subtree, which has left
      its leaf; balancing starts at that leaf. */
  ghost predicate SwapStart(was: Page, path: seq<nat>, ix: nat, s: State)
  {
    && ValidPath(was, path) && PageAt(was, path).Interior? && ix < |PageAt(was, path).kids|
    && exists rest :: SwapAt(was, path, ix, rest, s)
  }

  ghost predicate SwapAt(was: Page, path: seq<nat>, ix: nat, rest: seq<nat>, s: State)
    requires ValidPath(was, path) && PageAt(was, path).Interior? && ix < |PageAt(was, path).kids|
  {
    var p := PageAt(was, path);
    && IsLast(p.kids[ix], rest) && ix < |p.cells|
    && var cells := PageAt(p.kids[ix], rest).cells;
       var r := Replace(was, path, Interior(p.cells[ix := cells[|cells| - 1]], p.kids));
       && ValidPath(r, path + ([ix] + rest))
       && s == State(Replace(r, path + ([ix] + rest), Leaf(cells[..|cells| - 1])), path + ([ix] + rest), NO_CARRY)
  }

  /** The trees differ in one page at most, and in what is below it. */
  ghost predicate PageChanged(was: Page, path: seq<nat>, now: Page)
  {
    ValidPath(was, path) && ValidPath(now, path) && now == Replace(was, path, PageAt(now, path))
  }

  /** After a deletion balancing climbs; only a root that has overflowed has it look at a new child. */
  lemma {:induction false} RunShortens(cfg: Config, bulk: bool, run: seq<State>, i: nat)
    requires ValidConfig(cfg) && run != [] && Run(cfg, bulk, run) && run[0].carry.count == 0 && i < |run|
    ensures |run[i].path| <= |run[0].path|
  {
    hide ParentStep, Underfull;
    if i > 0 {
      RunShortens(cfg, bulk, run, i - 1);
      assert Turn(cfg, bulk, run[i - 1], run[i]);
      assert Turn(cfg, bulk, run[0], run[1]);
    }
  }

  /** The page on which balancing ended is the root or not underfull. */
  lemma {:induction false} EndsAtRest(cfg: Config, bulk: bool, run: seq<State>)
    requires ValidConfig(cfg) && run != [] && Run(cfg, bulk, run)
    ensures var last := run[|run| - 1]; ValidPath(last.root, last.path) && (last.path != [] ==> !Underfull(cfg, PageAt(last.root, last.path)))
  {
  }

  /** The map after a cell has been put on the page the search ended on. */
  lemma {:induction false} PutContent(cfg: Config, root: Page, h: nat, path: seq<nat>, ix: nat, c: Cell, loc: int, pos: nat, q: Page)
    requires TreeOk(cfg, root, h) && c.Entry? && Located(cfg, root, path, ix, c.key, loc)
    requires pos == if loc == 0 then ix else InsertAt(PageAt(root, path), ix, loc)
    requires CellPut(cfg, PageAt(root, path), q, pos, c, loc == 0)
    ensures var r := Replace(root, path, q);
      Sorted(Inorder(r)) && MapOf(Inorder(r)) == MapOf(Inorder(root))[c.key := c.payload]
  {
    var p := PageAt(root, path);
    ShapeAt(cfg, root, h, path);
    PutScan(p, q, pos, c, loc == 0, cfg);
    PutEffect(root, path, q, CellLeft(p, pos), if loc == 0 then [p.cells[pos]] else [], c,
      if loc == 0 then CellRight(p, pos) else p.cells[pos..]);
  }

  /** The tree after a cell has been put on the page the search ended on: in order, or ready for the
      balance loop when the cell did not fit. */
  lemma {:induction false} PutOnPage(cfg: Config, root: Page, h: nat, path: seq<nat>, ix: nat, c: Cell, loc: int,
          pos: nat, q: Page, bulk: bool)
    requires TreeOk(cfg, root, h) && c.Entry? && Located(cfg, root, path, ix, c.key, loc)
    requires pos == if loc == 0 then ix else InsertAt(PageAt(root, path), ix, loc)
    requires CellPut(cfg, PageAt(root, path), q, pos, c, loc == 0)
    ensures var r := Replace(root, path, q);
      && Sorted(Inorder(r)) && MapOf(Inorder(r)) == MapOf(Inorder(root))[c.key := c.payload]
      && (if Bytes(cfg, q.Leaf?, q.cells) > Room(cfg, |path|, q.Leaf?)
          then Pending(cfg, r, h, path, Carry(pos, 1), bulk, -1)
          else TreeOk(cfg, r, h))
  {
    var p := PageAt(root, path);
    PutContent(cfg, root, h, path, ix, c, loc, pos, q);
    ShapeAt(cfg, root, h, path);
    BelowAt(cfg, root, path);
    PutShape(cfg, p, q, pos, c, loc == 0, h - |path|);
    if Bytes(cfg, q.Leaf?, q.cells) > Room(cfg, |path|, q.Leaf?) {
      RootOrPage(cfg, root, h, path);
      PutCarry(cfg, p, q, pos, c, loc == 0, |path|);
      ReadyToBalance(cfg, root, h, path, q, Carry(pos, 1), bulk);
    } else {
      StillOk(cfg, root, h, path, q);
    }
  }

  lemma {:induction false} BelowAt(cfg: Config, root: Page, path: seq<nat>)
    requires ValidConfig(cfg) && ValidPath(root, path) && BelowOk(cfg, root)
    ensures BelowOk(cfg, PageAt(root, path))
  {
    OffPathIntro(cfg, root, path);
    if path != [] { assert AllOk(cfg, PageAt(root, path)); }
  }

  lemma {:induction false} DropOnLeaf(cfg: Config, root: Page, h: nat, path: seq<nat>, ix: nat, bulk: bool)
    requires TreeOk(cfg, root, h) && ValidPath(root, path)
    requires var p := PageAt(root, path); p.Leaf? && ix < |p.cells| && p.cells[ix].Entry?
    ensures var p := PageAt(root, path);
      var r := Replace(root, path, Leaf(p.cells[..ix] + p.cells[ix + 1..]));
      && Pending(cfg, r, h, path, NO_CARRY, bulk, -1)
      && Sorted(Inorder(r)) && MapOf(Inorder(r)) == MapOf(Inorder(root)) - {p.cells[ix].key}
      && PageChanged(root, path, r)
  {
    ReplaceAt(root, path, Leaf(PageAt(root, path).cells[..ix] + PageAt(root, path).cells[ix + 1..]));
    var p := PageAt(root, path);
    var q := Leaf(p.cells[..ix] + p.cells[ix + 1..]);
    ShapeAt(cfg, root, h, path);
    RootOrPage(cfg, root, h, path);
    ScanAtCell(p, ix);
    DropEffect(root, path, q, CellLeft(p, ix), p.cells[ix], CellRight(p, ix));
    DropShape(cfg, p.cells, ix, h - |path|);
    FitsUncarried(cfg, q, |path|);
    ReadyToBalance(cfg, root, h, path, q, NO_CARRY, bulk);
  }

  /** sqlite3BtreePrevious from an interior cell: down its left child, then right-most to a leaf. */
  method LastOf(cfg: Config, root: Page, ghost h: nat, path: seq<nat>, ix: nat) returns (rest: seq<nat>)
    requires TreeOk(cfg, root, h) && ValidPath(root, path)
    requires var p := PageAt(root, path); p.Interior? && |p.kids| == |p.cells| + 1 && ix < |p.cells|
    ensures var kid := PageAt(root, path).kids[ix];
      && ValidPath(kid, rest) && After(kid, rest) == []
      && PageAt(kid, rest).Leaf? && PageAt(kid, rest).cells != []
  {
    ghost var p := PageAt(root, path);
    var kid := PageAt(root, path).kids[ix];
    ShapeAt(cfg, root, h, path);
    ghost var hk := h - |path| - 1;
    BelowAt(cfg, root, path);
    assert AllOk(cfg, kid) && Shape(cfg, kid, hk);
    rest := [];
    while PageAt(kid, rest).Interior?
      invariant ValidPath(kid, rest) && |rest| <= hk && After(kid, rest) == []
      invariant Shape(cfg, PageAt(kid, rest), hk - |rest|)
      invariant PageAt(kid, rest).cells != []
      decreases hk - |rest|
    {
      var last := |PageAt(kid, rest).cells|;
      assert HasChild(kid, rest, last);
      PathExtend(kid, rest, last);
      ScanExtend(kid, rest, last);
      rest := rest + [last];
      OffPathIntro(cfg, kid, rest);
      ShapeAt(cfg, kid, hk, rest);
    }
  }

  /** One level of the search: hit the key, miss it on a leaf, or find the child to go to. */
  method Probe(cfg: Config, root: Page, ghost h: nat, path: seq<nat>, key: int, biasRight: bool)
    returns (hit: bool, idx: nat, lwr: nat, c: int)
    requires TreeOk(cfg, root, h) && ValidPath(root, path) && Between(root, path, 2 * key)
    requires PageAt(root, path).cells != []
    ensures |path| <= h
    ensures var p := PageAt(root, path);
      if hit && (p.Leaf? || !cfg.leafData) then
        && Located(cfg, root, path, idx, key, 0)
        && key in MapOf(Inorder(root)) && MapOf(Inorder(root))[key] == p.cells[idx].payload
      else if p.Leaf? then
        c != 0 && Located(cfg, root, path, idx, key, c) && key !in MapOf(Inorder(root))
      else
        && |path| < h && ValidPath(root, path + [lwr]) && Between(root, path + [lwr], 2 * key)
        && PageAt(root, path + [lwr]).cells != []
  {
    var page := PageAt(root, path);
    PageInOrder(cfg, root, h, path);
    hit, idx, lwr, c := SearchPage(page.cells, key, biasRight);
    assert CellKind(cfg, page.Leaf?, page.cells[idx]);
    if hit && (page.Leaf? || !cfg.leafData) {
      SeekHit(cfg, root, h, path, idx, key);
    } else if page.Leaf? {
      LeafGap(cfg, page, h - |path|, idx, lwr, key, c);
      SeekMissed(cfg, root, h, path, idx, key, c);
    } else {
      Descend(cfg, root, h, path, lwr, key);
      RootOrPage(cfg, root, h, path + [lwr]);
    }
  }

  lemma {:induction false} PageInOrder(cfg: Config, root: Page, h: nat, path: seq<nat>)
    requires TreeOk(cfg, root, h) && ValidPath(root, path)
    ensures |path| <= h && Shape(cfg, PageAt(root, path), h - |path|)
    ensures KeysAscend(PageAt(root, path).cells)
    ensures PageAt(root, path).Interior? ==> |path| < h
  {
    ShapeAt(cfg, root, h, path);
    InorderAt(root, path);
    SortedParts(Before(root, path), Inorder(PageAt(root, path)), After(root, path));
    PageKeysAscend(cfg, PageAt(root, path), h - |path|);
  }

  lemma {:induction false} LeafGap(cfg: Config, p: Page, h: nat, idx: nat, lwr: nat, key: int, c: int)
    requires Shape(cfg, p, h) && p.Leaf? && idx < |p.cells| && lwr <= |p.cells|
    requires (c < 0 && idx + 1 == lwr) || (c > 0 && idx == lwr)
    requires forall i :: 0 <= i < lwr ==> p.cells[i].key < key
    requires forall i :: lwr <= i < |p.cells| ==> key < p.cells[i].key
    ensures InsertAt(p, idx, c) == lwr
    ensures AllBelow(p.cells[..lwr], 2 * key) && AllAbove(p.cells[lwr..], 2 * key)
  {
    forall i | 0 <= i < |p.cells| ensures p.cells[i].Entry? { assert CellKind(cfg, true, p.cells[i]); }
  }

  lemma {:induction false} SeekHit(cfg: Config, root: Page, h: nat, path: seq<nat>, ix: nat, key: int)
    requires TreeOk(cfg, root, h) && ValidPath(root, path)
    requires var p := PageAt(root, path); ix < |p.cells| && p.cells[ix].Entry? && p.cells[ix].key == key
    ensures key in MapOf(Inorder(root)) && MapOf(Inorder(root))[key] == PageAt(root, path).cells[ix].payload
  {
    var p := PageAt(root, path);
    ShapeAt(cfg, root, h, path);
    InorderAt(root, path);
    ScanAtCell(p, ix);
    Regroup(Before(root, path), CellLeft(p, ix), [p.cells[ix]], CellRight(p, ix), After(root, path));
    MapDrop(Before(root, path) + CellLeft(p, ix), p.cells[ix], CellRight(p, ix) + After(root, path));
  }

  lemma {:induction false} CutEmpty(s: seq<Cell>, i: nat)
    requires i <= |s|
    ensures s == s[..i] + [] + s[i..]
  {
  }

  lemma {:induction false} SeekMissed(cfg: Config, root: Page, h: nat, path: seq<nat>, ix: nat, key: int, loc: int)
    requires TreeOk(cfg, root, h) && Located(cfg, root, path, ix, key, loc) && loc != 0
    ensures key !in MapOf(Inorder(root))
  {
    hide AllBelow, AllAbove, MapOf;
    var p := PageAt(root, path);
    var pos := InsertAt(p, ix, loc);
    InorderAt(root, path);
    CutEmpty(p.cells, pos);
    var l, r := p.cells[..pos], p.cells[pos..];
    Regroup(Before(root, path), l, [], r, After(root, path));
    Units(Before(root, path) + l);
    BelowConcat(Before(root, path), l, 2 * key);
    BelowConcat(r, After(root, path), 2 * key);
    KeyAbsent(Before(root, path) + l, r + After(root, path), key);
  }

  /** The tree when the predecessor has taken the place of the deleted interior entry. */
  /** With the last cell of `leaf` in the place of cell `ix`, page `p` at depth `d` fits, or its overflow
      cell is one that the balancing of its child attends to. */
  ghost predicate SwapAttended(cfg: Config, p: Page, d: nat, ix: nat, leaf: Page, bulk: bool)
    requires ValidConfig(cfg) && ix < |p.cells| && leaf.cells != []
  {
    !bulk || ix == 0 || Bytes(cfg, false, p.cells[ix := leaf.cells[|leaf.cells| - 1]]) <= Room(cfg, d, false)
  }

  lemma {:induction false} DropInterior(cfg: Config, root: Page, h: nat, path: seq<nat>, ix: nat, rest: seq<nat>, bulk: bool)
    requires TreeOk(cfg, root, h) && ValidPath(root, path)
    requires var p := PageAt(root, path);
      && p.Interior? && |p.kids| == |p.cells| + 1 && ix < |p.cells| && p.cells[ix].Entry?
      && ValidPath(p.kids[ix], rest) && After(p.kids[ix], rest) == []
      && PageAt(p.kids[ix], rest).Leaf? && PageAt(p.kids[ix], rest).cells != []
      && SwapAttended(cfg, p, |path|, ix, PageAt(p.kids[ix], rest), bulk)
    ensures var p := PageAt(root, path);
      var leaf := PageAt(p.kids[ix], rest);
      var m := |leaf.cells| - 1;
      var r1 := Replace(root, path, Interior(p.cells[ix := leaf.cells[m]], p.kids));
      && ValidPath(r1, path + ([ix] + rest))
      && var r2 := Replace(r1, path + ([ix] + rest), Leaf(leaf.cells[..m]));
      && Pending(cfg, r2, h, path + ([ix] + rest), NO_CARRY, bulk, |path|)
      && Sorted(Inorder(r2)) && MapOf(Inorder(r2)) == MapOf(Inorder(root)) - {p.cells[ix].key}
  {
    var p := PageAt(root, path);
    PredecessorScan(root, path, ix, rest);
    Regroup(Before(root, path), CellLeft(p, ix), [p.cells[ix]], CellRight(p, ix), After(root, path));
    Regroup(Before(root, path), CellLeft(p, ix), [], CellRight(p, ix), After(root, path));
    Units(CellLeft(p, ix));
    Units(Before(root, path) + CellLeft(p, ix));
    DropAround(Before(root, path) + CellLeft(p, ix), p.cells[ix], CellRight(p, ix) + After(root, path));
    DropInteriorPending(cfg, root, h, path, ix, rest, bulk);
  }

  lemma {:induction false} DropInteriorPending(cfg: Config, root: Page, h: nat, path: seq<nat>, ix: nat, rest: seq<nat>, bulk: bool)
    requires TreeOk(cfg, root, h) && ValidPath(root, path)
    requires var p := PageAt(root, path);
      && p.Interior? && |p.kids| == |p.cells| + 1 && ix < |p.cells| && p.cells[ix].Entry?
      && ValidPath(p.kids[ix], rest)
      && PageAt(p.kids[ix], rest).Leaf? && PageAt(p.kids[ix], rest).cells != []
      && SwapAttended(cfg, p, |path|, ix, PageAt(p.kids[ix], rest), bulk)
    ensures var p := PageAt(root, path);
      var leaf := PageAt(p.kids[ix], rest);
      var m := |leaf.cells| - 1;
      var r1 := Replace(root, path, Interior(p.cells[ix := leaf.cells[m]], p.kids));
      && ValidPath(r1, path + ([ix] + rest))
      && Pending(cfg, Replace(r1, path + ([ix] + rest), Leaf(leaf.cells[..m])), h, path + ([ix] + rest), NO_CARRY, bulk, |path|)
  {
    var p := PageAt(root, path);
    var leaf := PageAt(p.kids[ix], rest);
    var m := |leaf.cells| - 1;
    hide Bytes;
    var full := path + ([ix] + rest);
    assert ([ix] + rest)[1..] == rest;
    ScanConcat(root, path, [ix] + rest);
    assert full[..|path|] == path && full[|path|] == ix;
    SwappedPending(cfg, root, h, full, |path|, leaf.cells[m], bulk);
  }

  /** Cell `full[n]` of the page at depth `n` replaced by the last entry of the leaf at the end of
      the path, which loses it. */
  lemma {:induction false} SwappedPending(cfg: Config, root: Page, h: nat, full: seq<nat>, n: nat, c: Cell, bulk: bool)
    requires TreeOk(cfg, root, h) && ValidPath(root, full) && n < |full| && ValidPath(root, full[..n])
    requires var p := PageAt(root, full[..n]); p.Interior? && full[n] < |p.cells| && p.cells[full[n]].Entry?
    requires var leaf := PageAt(root, full); leaf.Leaf? && leaf.cells != [] && c == leaf.cells[|leaf.cells| - 1]
    requires SwapAttended(cfg, PageAt(root, full[..n]), n, full[n], PageAt(root, full), bulk)
    ensures var p := PageAt(root, full[..n]);
      var leaf := PageAt(root, full);
      var r1 := Replace(root, full[..n], Interior(p.cells[full[n] := c], p.kids));
      && ValidPath(r1, full)
      && Pending(cfg, Replace(r1, full, Leaf(leaf.cells[..|leaf.cells| - 1])), h, full, NO_CARRY, bulk, n)
  {
    hide Bytes;
    var p, leaf := PageAt(root, full[..n]), PageAt(root, full);
    var ix, m := full[n], |leaf.cells| - 1;
    var cells := p.cells[ix := c];
    var q := Leaf(leaf.cells[..m]);
    RootOrPage(cfg, root, h, full);
    SwappedKinds(cfg, root, h, full[..n], full, ix, c);
    SwapCells(cfg, root, h, full, n, cells);
    var r1 := Replace(root, full[..n], Interior(cells, p.kids));
    LeafShrunk(cfg, r1, h, full, leaf);
    assert full[..|full|] == full && OrderlyAt(cfg, root, full, |full|);
    assert leaf.cells[..m] + leaf.cells[m + 1..] == leaf.cells[..m];
    ShapeAt(cfg, r1, h, full);
    DropShape(cfg, leaf.cells, m, h - |full|);
    FitsUncarried(cfg, q, |full|);
    forall d | 0 <= d < |full|
      ensures ValidPath(Replace(r1, full, q), full[..d]) && AboveOk(cfg, Replace(r1, full, q), full, NO_CARRY, bulk, n, d)
    {
      assert OrderlyAt(cfg, root, full, d);
      AboveSwapped(cfg, root, full, n, c, q, d, bulk);
    }
  }

  lemma {:induction false} LeafShrunk(cfg: Config, r: Page, h: nat, path: seq<nat>, leaf: Page)
    requires Sound(cfg, r, h, path) && leaf == PageAt(r, path) && leaf.Leaf? && leaf.cells != []
    ensures var q := Leaf(leaf.cells[..|leaf.cells| - 1]);
      Sound(cfg, Replace(r, path, q), h, path) && PageAt(Replace(r, path, q), path) == q
  {
    var m := |leaf.cells| - 1;
    var q := Leaf(leaf.cells[..m]);
    ShapeAt(cfg, r, h, path);
    assert leaf.cells[..m] + leaf.cells[m + 1..] == leaf.cells[..m];
    DropShape(cfg, leaf.cells, m, h - |path|);
    assert path[..|path|] == path;
    OffPathReplace(cfg, r, path, |path|, q);
    ShapeReplace(cfg, r, h, path, q);
    ReplaceAt(r, path, q);
  }

  lemma {:induction false} AboveSwapped(cfg: Config, root: Page, full: seq<nat>, n: nat, c: Cell, q: Page, d: nat, bulk: bool)
    requires ValidConfig(cfg) && ValidPath(root, full) && n < |full| && d < |full|
    requires ValidPath(root, full[..n]) && ValidPath(root, full[..d])
    requires PageAt(root, full[..n]).Interior? && full[n] < |PageAt(root, full[..n]).cells|
    requires OrderlyAt(cfg, root, full, d)
    requires !bulk || full[n] == 0 || Bytes(cfg, false, PageAt(root, full[..n]).cells[full[n] := c]) <= Room(cfg, n, false)
    requires var p := PageAt(root, full[..n]); ValidPath(Replace(root, full[..n], Interior(p.cells[full[n] := c], p.kids)), full)
    ensures var p := PageAt(root, full[..n]);
      var r2 := Replace(Replace(root, full[..n], Interior(p.cells[full[n] := c], p.kids)), full, q);
      ValidPath(r2, full) && ValidPath(r2, full[..d]) && AboveOk(cfg, r2, full, NO_CARRY, bulk, n, d)
  {
    hide Bytes, Replace, ValidPath;
    var p := PageAt(root, full[..n]);
    var cells := p.cells[full[n] := c];
    var r1 := Replace(root, full[..n], Interior(cells, p.kids));
    SwappedAt(root, full, n, cells, d);
    ReplaceAt(r1, full, q);
    CellsAbove(r1, full, q, d);
    PathPrefix(root, full, d);
    if d == n { SwappedFits(cfg, p.cells, full[n], c, Room(cfg, d, false)); }
  }

  lemma {:induction false} SwappedKinds(cfg: Config, root: Page, h: nat, path: seq<nat>, full: seq<nat>, ix: nat, c: Cell)
    requires Shape(cfg, root, h) && ValidPath(root, path) && ValidPath(root, full)
    requires var p := PageAt(root, path); p.Interior? && ix < |p.cells| && p.cells[ix].Entry?
    requires var leaf := PageAt(root, full); leaf.Leaf? && leaf.cells != [] && c == leaf.cells[|leaf.cells| - 1]
    ensures !cfg.leafData && Kinds(cfg, false, PageAt(root, path).cells[ix := c])
  {
    var p, leaf := PageAt(root, path), PageAt(root, full);
    ShapeAt(cfg, root, h, path);
    ShapeAt(cfg, root, h, full);
    assert CellKind(cfg, false, p.cells[ix]) && CellKind(cfg, true, leaf.cells[|leaf.cells| - 1]);
  }

  lemma {:induction false} SwappedFits(cfg: Config, cells: seq<Cell>, ix: nat, c: Cell, room: int)
    requires ValidConfig(cfg) && ix < |cells| && Bytes(cfg, false, cells) <= room
    ensures var t := cells[ix := c]; Bytes(cfg, false, t[..ix] + t[ix + 1..]) <= room
  {
    var t := cells[ix := c];
    assert t[..ix] == cells[..ix] && t[ix + 1..] == cells[ix + 1..];
    CarriedSplit(cfg, false, cells, ix, 1);
  }

  /** When the first round stopped below the page that received the predecessor, that page is next. */
  lemma {:induction false} SecondRound(cfg: Config, root: Page, h: nat, path: seq<nat>, bulk: bool, n: nat, x: int)
    requires Rested(cfg, root, h, path, bulk, x) && n < |path| && (x == n || x == -1)
    ensures ValidPath(root, path[..n])
    ensures var p := PageAt(root, path[..n]);
      var carry := if Bytes(cfg, false, p.cells) > Room(cfg, n, false) then Carry(path[n], 1) else NO_CARRY;
      Pending(cfg, root, h, path[..n], carry, bulk, -1)
  {
    hide Bytes, ValidPath, Inorder;
    var up := path[..n];
    PathPrefix(root, path, n);
    var p := PageAt(root, up);
    var carry := if Bytes(cfg, false, p.cells) > Room(cfg, n, false) then Carry(path[n], 1) else NO_CARRY;
    OffPathCut(cfg, root, path, n);
    assert AboveOk(cfg, root, path, NO_CARRY, bulk, x, n);
    assert p.cells[..0] + p.cells[0..] == p.cells;
    forall d | 0 <= d < n ensures ValidPath(root, up[..d]) && AboveOk(cfg, root, up, carry, bulk, -1, d) {
      assert up[..d] == path[..d];
      assert AboveOk(cfg, root, path, NO_CARRY, bulk, x, d);
    }
  }
}
