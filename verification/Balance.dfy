/** The balance() loop of btree.c: from the page a cell was added to or dropped from, up towards the
    root, until the tree is in order again. */
module Balance {
  import opened Tree
  import opened Order
  import opened PageRules
  import opened Redistribute
  import opened Nonroot

  /** The root fits, and lacks cells only when it is page 1: right after balancing its only child is then
      too full to move into it (NoCollapse), later it may have lost entries. */
  ghost predicate RootOk(cfg: Config, root: Page)
    requires ValidConfig(cfg)
  {
    && Bytes(cfg, root.Leaf?, root.cells) <= Room(cfg, 0, root.Leaf?)
    && (root.Interior? && root.cells == [] ==> cfg.rootHdr > 0)
  }

  /** A tree in order: uniform depth, every page within its size, keys ascending against dividers. */
  ghost predicate TreeOk(cfg: Config, root: Page, h: nat)
  {
    ValidConfig(cfg) && Shape(cfg, root, h) && RootOk(cfg, root) && BelowOk(cfg, root) && Sorted(Inorder(root))
  }

  /** Page on the path at depth `d`, above the page being balanced.  At depth `x` the page may hold
      one overflow cell, at the index the path takes through it. */
  ghost predicate AboveOk(cfg: Config, root: Page, path: seq<nat>, carry: Carry, bulk: bool, x: int, d: nat)
    requires ValidConfig(cfg) && ValidPath(root, path) && d < |path| && ValidPath(root, path[..d])
  {
    var p := PageAt(root, path[..d]);
    && (d == x || Bytes(cfg, false, p.cells) <= Room(cfg, d, false))
    && ParentOk(cfg, p, path[d], Room(cfg, d, false), bulk)
    && (p.cells == [] ==> d == 0 && (cfg.rootHdr > 0 || (path == [0] && carry.count > 0)))
  }

  /** The page at the end of the path, with the cells it could not take. */
  ghost predicate CurrentOk(cfg: Config, p: Page, n: nat, carry: Carry)
    requires ValidConfig(cfg)
  {
    && Carrying(cfg, p.Leaf?, p.cells, Room(cfg, n, p.Leaf?), carry)
    && (carry.count > 0 && !(n <= 1 && cfg.rootHdr > 0) ==> Bytes(cfg, p.Leaf?, p.cells) > Space(cfg, p.Leaf?))
    && (n == 0 && p.Interior? && p.cells == [] ==> cfg.rootHdr > 0)
  }

  ghost predicate PathAboveOk(cfg: Config, root: Page, path: seq<nat>, carry: Carry, bulk: bool, x: int)
    requires ValidConfig(cfg) && ValidPath(root, path)
  {
    forall d :: 0 <= d < |path| ==> ValidPath(root, path[..d]) && AboveOk(cfg, root, path, carry, bulk, x, d)
  }

  /** The tree apart from the pages on the path. */
  ghost predicate Sound(cfg: Config, root: Page, h: nat, path: seq<nat>)
  {
    ValidConfig(cfg) && ValidPath(root, path) && Shape(cfg, root, h) && OffPath(cfg, root, path)
  }

  /** State of the balance loop. */
  ghost predicate Pending(cfg: Config, root: Page, h: nat, path: seq<nat>, carry: Carry, bulk: bool, x: int)
  {
    && Sound(cfg, root, h, path)
    && PathAboveOk(cfg, root, path, carry, bulk, x)
    && CurrentOk(cfg, PageAt(root, path), |path|, carry)
    && x < |path|
  }

  /** At most once per call the root is deepened; afterwards it has room for the new dividers. */
  ghost predicate DeepenedOnce(root: Page, path: seq<nat>, carry: Carry, deeper: bool)
  {
    deeper ==> |path| <= 1 && (|path| == 1 ==> root.cells == [] && path == [0]) && (path == [] ==> carry.count == 0)
  }

  /** Replacing the page at `path` by one that reads the same. */
  lemma {:induction false} ReadingKept(root: Page, path: seq<nat>, p: Page)
    requires ValidPath(root, path) && SameReading(Inorder(PageAt(root, path)), Inorder(p))
    ensures SameReading(Inorder(root), Inorder(Replace(root, path, p)))
  {
    InorderAt(root, path);
    InorderReplace(root, path, p);
    SameInContext(Before(root, path), Inorder(PageAt(root, path)), Inorder(p), After(root, path));
  }

  /** balance_deeper: the root's content moves to a new child. */
  lemma {:induction false} Deeper(cfg: Config, root: Page, h: nat, carry: Carry, bulk: bool, x: int)
    requires Pending(cfg, root, h, [], carry, bulk, x) && carry.count > 0
    ensures var r := Interior([], [root]);
      && Pending(cfg, r, h + 1, [0], carry, bulk, -1) && DeepenedOnce(r, [0], carry, true)
      && SameReading(Inorder(root), Inorder(r))
  {
    var r := Interior([], [root]);
    SameItself(Inorder(root));
    assert [0][1..] == [] && [0][..0] == [];
    assert PageAt(r, [0]) == PageAt(root, []) == root;
    assert Inorder(r) == Inorder(root);
    assert Bytes(cfg, false, []) == 0;
    assert Shape(cfg, r, h + 1);
    assert OffPath(cfg, r, [0]);
    assert AboveOk(cfg, r, [0], carry, bulk, -1, 0);
  }

  /** The parent of the current page, ready for a balancing step. */
  lemma {:induction false} ParentReady(cfg: Config, root: Page, h: nat, path: seq<nat>, carry: Carry, bulk: bool, x: int)
    requires Pending(cfg, root, h, path, carry, bulk, x) && path != []
    ensures var n := |path| - 1;
      && n < h && ValidPath(root, path[..n])
      && var parent := PageAt(root, path[..n]);
      && Unbalanced(cfg, h - n - 1, parent, path[n], carry)
      && parent.kids[path[n]] == PageAt(root, path)
      && (PageAt(root, path).Leaf? <==> h - n - 1 == 0)
      && AboveOk(cfg, root, path, carry, bulk, x, n)
  {
    var n := |path| - 1;
    OffPathSiblings(cfg, root, path);
    ShapeAt(cfg, root, h, path);
    ShapeAt(cfg, root, h, path[..n]);
  }

  /** After a step the parent is the current page. */
  lemma {:induction false} StepDone(cfg: Config, root: Page, h: nat, path: seq<nat>, carry: Carry, bulk: bool, x: int,
          p: Page, hOut: nat, carryOut: Carry)
    requires Pending(cfg, root, h, path, carry, bulk, x) && path != []
    requires var n := |path| - 1;
      && n < h && ValidPath(root, path[..n])
      && (hOut == h - n || (n == 0 && hOut == h - 1))
      && Balanced(cfg, n, hOut, PageAt(root, path[..n]), p, carryOut)
    ensures var n := |path| - 1;
      var r := Replace(root, path[..n], p);
      && Pending(cfg, r, if n == 0 then hOut else h, path[..n], carryOut, bulk, if x == n then -1 else x)
      && SameReading(Inorder(root), Inorder(r))
  {
    var n := |path| - 1;
    var up := path[..n];
    ReadingKept(root, up, p);
    SoundKept(cfg, root, h, path, p, hOut);
    ReplaceAt(root, up, p);
    PathKept(cfg, root, path, carry, bulk, x, p, carryOut);
    StepCurrent(cfg, n, hOut, PageAt(root, up), p, carryOut);
  }

  lemma {:induction false} SoundKept(cfg: Config, root: Page, h: nat, path: seq<nat>, p: Page, hOut: nat)
    requires Sound(cfg, root, h, path) && path != []
    requires var n := |path| - 1;
      && n < h && ValidPath(root, path[..n])
      && (hOut == h - n || (n == 0 && hOut == h - 1))
      && Shape(cfg, p, hOut) && BelowOk(cfg, p)
    ensures var n := |path| - 1; Sound(cfg, Replace(root, path[..n], p), if n == 0 then hOut else h, path[..n])
  {
    var n := |path| - 1;
    if n == 0 {
      assert path[..n] == [];
      assert Replace(root, [], p) == p;
    } else {
      OffPathReplace(cfg, root, path, n, p);
      ShapeReplace(cfg, root, h, path[..n], p);
    }
  }

  lemma {:induction false} StepCurrent(cfg: Config, n: nat, h: nat, before: Page, p: Page, carry: Carry)
    requires ValidConfig(cfg) && Balanced(cfg, n, h, before, p, carry)
    ensures CurrentOk(cfg, p, n, carry)
  {
  }

  lemma {:induction false} PathKept(cfg: Config, root: Page, path: seq<nat>, carry: Carry, bulk: bool, x: int, p: Page, carryOut: Carry)
    requires ValidConfig(cfg) && ValidPath(root, path) && path != [] && ValidPath(root, path[..|path| - 1])
    requires PathAboveOk(cfg, root, path, carry, bulk, x)
    ensures var n := |path| - 1;
      var r := Replace(root, path[..n], p);
      ValidPath(r, path[..n]) && PathAboveOk(cfg, r, path[..n], carryOut, bulk, if x == n then -1 else x)
  {
    var n := |path| - 1;
    var up := path[..n];
    ReplaceAt(root, up, p);
    var r := Replace(root, up, p);
    forall d | 0 <= d < n
      ensures ValidPath(r, up[..d]) && AboveOk(cfg, r, up, carryOut, bulk, if x == n then -1 else x, d)
    {
      AboveKept(cfg, root, path, carry, bulk, x, p, carryOut, d);
    }
  }

  lemma {:induction false} AboveKept(cfg: Config, root: Page, path: seq<nat>, carry: Carry, bulk: bool, x: int,
          p: Page, carryOut: Carry, d: nat)
    requires ValidConfig(cfg) && ValidPath(root, path) && path != [] && d < |path| - 1
    requires ValidPath(root, path[..|path| - 1]) && ValidPath(root, path[..d]) && AboveOk(cfg, root, path, carry, bulk, x, d)
    ensures var n := |path| - 1;
      var up := path[..n];
      var r := Replace(root, up, p);
      ValidPath(r, up) && ValidPath(r, up[..d]) && AboveOk(cfg, r, up, carryOut, bulk, if x == n then -1 else x, d)
  {
    var up := path[..|path| - 1];
    ReplaceAt(root, up, p);
    assert up[..d] == path[..d];
    CellsAbove(root, up, p, d);
  }

  /** One cell alone always fits on a page that is not the root. */
  lemma {:induction false} TwoCells(cfg: Config, cells: seq<Cell>)
    requires ValidConfig(cfg) && cfg.leafData && Kinds(cfg, true, cells)
    requires Bytes(cfg, true, cells) > Space(cfg, true)
    ensures |cells| >= 2
  {
    assert Bytes(cfg, true, []) == 0;
    if |cells| == 1 {
      assert cells == [cells[0]] && CellKind(cfg, true, cells[0]);
      BytesOne(cfg, true, cells[0]);
      CellLimit(cfg, true, cells[0]);
    }
  }

  /** The appended-entry shortcut applies. */
  predicate IsAppend(cfg: Config, p: Page, n: nat, idx: nat, nParent: nat, carry: Carry)
  {
    && p.Leaf? && cfg.leafData
    && carry.count == 1 && carry.at == |p.cells| - 1
    && !(n == 0 && cfg.rootHdr > 0)
    && idx == nParent
  }

  // ------------------------------------------------------------------ when to balance, and what a step does

  /** More than two thirds of the page are free. */
  ghost predicate Underfull(cfg: Config, p: Page)
    requires ValidConfig(cfg)
  {
    Space(cfg, p.Leaf?) - Bytes(cfg, p.Leaf?, p.cells) > cfg.usableSize * 2 / 3
  }

  /** A tree with the page that comes next, at the end of `path`, and the cells that page could not take. */
  datatype State = State(root: Page, path: seq<nat>, carry: Carry)

  /** The page has overflow cells, or is underfull and not the root. */
  ghost predicate NeedsBalance(cfg: Config, s: State)
    requires ValidConfig(cfg) && ValidPath(s.root, s.path)
  {
    s.carry.count > 0 || (s.path != [] && Underfull(cfg, PageAt(s.root, s.path)))
  }

  /** From `parent` to `p`, to balance child `idx`: an entry appended to the tree gets a leaf of its own,
      otherwise the child and its siblings are spread over as few pages as hold their cells; a root that is
      left without cells gives way to its only child if that fits. */
  ghost predicate ParentStep(cfg: Config, bulk: bool, page: Page, parent: Page, p: Page, d: nat, idx: nat, carry: Carry)
    requires ValidConfig(cfg)
  {
    && SameReading(Inorder(parent), Inorder(p))
    && if IsAppend(cfg, page, d, idx, |parent.cells|, carry) then Appended(parent, p)
       else (Respread(cfg, parent, p, idx, bulk) && (d == 0 ==> NoCollapse(cfg, p))) || Collapsed(cfg, page, p, d)
  }

  /** The root has become a page of the level below. */
  ghost predicate Collapsed(cfg: Config, page: Page, p: Page, d: nat)
    requires ValidConfig(cfg)
  {
    d == 0 && (p.Leaf? <==> page.Leaf?) && Bytes(cfg, p.Leaf?, p.cells) <= Room(cfg, 0, p.Leaf?)
  }

  /** One turn of the loop: a root with overflow cells moves to a new child; any other page is balanced
      with its siblings, and its parent is next.  Nothing outside the parent changes. */
  ghost predicate StepTo(cfg: Config, bulk: bool, s: State, t: State)
    requires ValidConfig(cfg) && ValidPath(s.root, s.path)
  {
    if s.path == [] then t == State(Interior([], [s.root]), [0], s.carry)
    else
      var n := |s.path| - 1;
      && t.path == s.path[..n] && ValidPath(s.root, t.path) && ValidPath(t.root, t.path)
      && t.root == Replace(s.root, t.path, PageAt(t.root, t.path))
      && ParentStep(cfg, bulk, PageAt(s.root, s.path), PageAt(s.root, t.path), PageAt(t.root, t.path), n, s.path[n], s.carry)
  }

  ghost predicate Turn(cfg: Config, bulk: bool, s: State, t: State)
    requires ValidConfig(cfg)
  {
    ValidPath(s.root, s.path) && NeedsBalance(cfg, s) && StepTo(cfg, bulk, s, t)
  }

  /** States of the loop up to now: every one but the last had to be balanced, and led to the next. */
  ghost predicate Running(cfg: Config, bulk: bool, run: seq<State>)
    requires ValidConfig(cfg)
  {
    run != [] && forall i :: 0 <= i < |run| - 1 ==> Turn(cfg, bulk, run[i], run[i + 1])
  }

  /** The states of the loop from the first to the last: it goes on exactly as long as it must. */
  ghost predicate Run(cfg: Config, bulk: bool, run: seq<State>)
    requires ValidConfig(cfg)
  {
    && Running(cfg, bulk, run)
    && var last := run[|run| - 1]; ValidPath(last.root, last.path) && !NeedsBalance(cfg, last)
  }

  lemma {:induction false} RunGoesOn(cfg: Config, bulk: bool, run: seq<State>, t: State)
    requires ValidConfig(cfg) && Running(cfg, bulk, run)
    requires var s := run[|run| - 1]; ValidPath(s.root, s.path) && NeedsBalance(cfg, s) && StepTo(cfg, bulk, s, t)
    ensures Running(cfg, bulk, run + [t])
  {
    hide NeedsBalance, StepTo;
    var more := run + [t];
    forall i | 0 <= i < |more| - 1 ensures Turn(cfg, bulk, more[i], more[i + 1]) {
      assert more[i] == run[i];
      if i < |run| - 1 { assert Turn(cfg, bulk, run[i], run[i + 1]); }
    }
  }

  lemma {:induction false} RunStarts(cfg: Config, bulk: bool, s: State)
    requires ValidConfig(cfg)
    ensures Running(cfg, bulk, [s])
  {
  }

  lemma {:induction false} IsStep(cfg: Config, bulk: bool, root: Page, carry: Carry)
    requires ValidConfig(cfg)
    ensures StepTo(cfg, bulk, State(root, [], carry), State(Interior([], [root]), [0], carry))
  {
  }

  lemma {:induction false} PendingPath(cfg: Config, root: Page, h: nat, path: seq<nat>, carry: Carry, bulk: bool, x: int)
    requires Pending(cfg, root, h, path, carry, bulk, x)
    ensures ValidConfig(cfg) && ValidPath(root, path) && x < |path|
  {
  }

  /** A step of the parent is a step of the tree. */
  lemma {:induction false} StepBy(cfg: Config, bulk: bool, root: Page, path: seq<nat>, carry: Carry, p: Page, carryOut: Carry)
    requires ValidConfig(cfg) && ValidPath(root, path) && path != [] && ValidPath(root, path[..|path| - 1])
    requires var n := |path| - 1; ParentStep(cfg, bulk, PageAt(root, path), PageAt(root, path[..n]), p, n, path[n], carry)
    ensures StepTo(cfg, bulk, State(root, path, carry), State(Replace(root, path[..|path| - 1], p), path[..|path| - 1], carryOut))
  {
    hide ParentStep;
    ReplaceAt(root, path[..|path| - 1], p);
  }

  /** What is known of the current page and its parent. */
  ghost predicate ChildReady(cfg: Config, h: nat, page: Page, n: nat, parent: Page, idx: nat, carry: Carry, bulk: bool)
    requires ValidConfig(cfg)
  {
    && Unbalanced(cfg, h, parent, idx, carry) && parent.kids[idx] == page && (page.Leaf? <==> h == 0)
    && ParentOk(cfg, parent, idx, Room(cfg, n, false), bulk)
    && (parent.cells == [] ==> n == 0 && (cfg.rootHdr > 0 || page.cells != []))
    && (carry.count > 0 && !(n == 0 && cfg.rootHdr > 0) ==> Bytes(cfg, page.Leaf?, page.cells) > Space(cfg, page.Leaf?))
  }

  lemma {:induction false} GetReady(cfg: Config, root: Page, h: nat, path: seq<nat>, carry: Carry, bulk: bool, x: int)
    requires Pending(cfg, root, h, path, carry, bulk, x) && path != []
    ensures var n := |path| - 1;
      && ValidConfig(cfg) && n < h && ValidPath(root, path) && ValidPath(root, path[..n])
      && ChildReady(cfg, h - n - 1, PageAt(root, path), n, PageAt(root, path[..n]), path[n], carry, bulk)
      && (n == 0 ==> PageAt(root, path[..n]) == root)
  {
    hide Bytes, Shape, BelowOk;
    ParentReady(cfg, root, h, path, carry, bulk, x);
    assert Bytes(cfg, PageAt(root, path).Leaf?, []) == 0 by { NoBytes(cfg, PageAt(root, path).Leaf?); }
    if |path| == 1 { assert path[..0] == []; }
  }

  lemma {:induction false} NoBytes(cfg: Config, leaf: bool)
    requires ValidConfig(cfg)
    ensures Bytes(cfg, leaf, []) == 0
  {
  }

  /** The shortcut for an appended entry may be taken. */
  lemma {:induction false} QuickReady(cfg: Config, h: nat, page: Page, n: nat, parent: Page, idx: nat, carry: Carry, bulk: bool)
    requires ValidConfig(cfg) && ChildReady(cfg, h, page, n, parent, idx, carry, bulk) && IsAppend(cfg, page, n, idx, |parent.cells|, carry)
    ensures h == 0 && |parent.kids| == |parent.cells| + 1 && parent.Interior? && |page.cells| >= 2 && parent.kids[idx] == page
    ensures Unbalanced(cfg, 0, parent, idx, Carry(|page.cells| - 1, 1)) && ParentOk(cfg, parent, idx, Room(cfg, n, false), false)
  {
    hide Bytes;
    assert Shape(cfg, page, 0);
    TwoCells(cfg, page.cells);
  }

  /** Balance the current page with its siblings; its parent becomes the current page. */
  method BalanceParent(cfg: Config, ghost h: nat, root: Page, path: seq<nat>, carry: Carry, bulk: bool, ghost x: int)
    returns (r: Page, carryOut: Carry, ghost hOut: nat)
    requires Pending(cfg, root, h, path, carry, bulk, x) && path != []
    ensures var n := |path| - 1;
      && Pending(cfg, r, hOut, path[..n], carryOut, bulk, if x == n then -1 else x)
    ensures SameReading(Inorder(root), Inorder(r)) && hOut <= h
    ensures |path| == 1 && root.cells == [] ==> carryOut.count == 0
    ensures StepTo(cfg, bulk, State(root, path, carry), State(r, path[..|path| - 1], carryOut))
  {
    hide Respread, NoCollapse, Appended, ParentStep, StepTo, Pending, Inorder, SameReading, ChildReady, Balanced;
    var n := |path| - 1;
    GetReady(cfg, root, h, path, carry, bulk, x);
    var page, parent := PageAt(root, path), PageAt(root, path[..n]);
    var idx := path[n];
    var p;
    ghost var hp;
    p, carryOut, hp := BalanceChild(cfg, h - n - 1, page, n, parent, idx, carry, bulk);
    r := Replace(root, path[..n], p);
    StepBy(cfg, bulk, root, path, carry, p, carryOut);
    StepDone(cfg, root, h, path, carry, bulk, x, p, hp, carryOut);
    hOut := if n == 0 then hp else h;
    if n == 0 { assert path[..0] == []; }
  }

  /** Balance child `idx` of `parent`, which is `page`. */
  method BalanceChild(cfg: Config, ghost h: nat, page: Page, n: nat, parent: Page, idx: nat, carry: Carry, bulk: bool)
    returns (p: Page, carryOut: Carry, ghost hp: nat)
    requires ValidConfig(cfg) && ChildReady(cfg, h, page, n, parent, idx, carry, bulk)
    ensures hp == h + 1 || (n == 0 && hp == h)
    ensures Balanced(cfg, n, hp, parent, p, carryOut)
    ensures parent.cells == [] ==> carryOut.count == 0
    ensures ParentStep(cfg, bulk, page, parent, p, n, idx, carry)
  {
    hide Respread, NoCollapse, Appended, Inorder, SameReading, Bytes, Unbalanced, ParentOk;
    if IsAppend(cfg, page, n, idx, |parent.cells|, carry) {
      QuickReady(cfg, h, page, n, parent, idx, carry, bulk);
      p, carryOut := BalanceQuick(cfg, n, parent, idx);
      hp := 1;
    } else {
      p, carryOut, hp := BalanceNonroot(cfg, h, page.Leaf?, n, parent, idx, carry, bulk);
      if hp == h { CollapsedFits(cfg, h, parent, p, carryOut); }
    }
  }

  lemma {:induction false} CollapsedFits(cfg: Config, h: nat, parent: Page, p: Page, carry: Carry)
    requires ValidConfig(cfg) && Balanced(cfg, 0, h, parent, p, carry) && carry.count == 0
    ensures (p.Leaf? <==> h == 0) && Bytes(cfg, p.Leaf?, p.cells) <= Room(cfg, 0, p.Leaf?)
  {
    assert p.cells[..carry.at] + p.cells[carry.at..] == p.cells;
  }

  /** Where the loop may stop: below depth `x` all pages are in order. */
  ghost predicate Rested(cfg: Config, root: Page, h: nat, path: seq<nat>, bulk: bool, x: int)
  {
    && Sound(cfg, root, h, path) && PathAboveOk(cfg, root, path, NO_CARRY, bulk, x)
    && (forall e :: x < e <= |path| && 0 < e ==> ValidPath(root, path[..e]) && PageOk(cfg, PageAt(root, path[..e])))
    && (x < 0 ==> RootOk(cfg, root) && BelowOk(cfg, root))
  }

  lemma {:induction false} StopAtRoot(cfg: Config, root: Page, h: nat, carry: Carry, bulk: bool, x: int)
    requires Pending(cfg, root, h, [], carry, bulk, x) && carry.count == 0
    ensures Rested(cfg, root, h, [], bulk, x)
  {
    assert root.cells[..carry.at] + root.cells[carry.at..] == root.cells;
  }

  lemma {:induction false} StopBelow(cfg: Config, root: Page, h: nat, path: seq<nat>, carry: Carry, bulk: bool, x: int)
    requires Pending(cfg, root, h, path, carry, bulk, x) && path != [] && carry.count == 0
    requires PageAt(root, path).cells != []
    ensures Rested(cfg, root, h, path, bulk, x)
  {
    var p := PageAt(root, path);
    assert p.cells[..carry.at] + p.cells[carry.at..] == p.cells;
    assert path[..|path|] == path;
    forall d | 0 <= d < |path|
      ensures ValidPath(root, path[..d]) && AboveOk(cfg, root, path, NO_CARRY, bulk, x, d)
      ensures d != x && d > 0 ==> PageOk(cfg, PageAt(root, path[..d]))
    {
      assert AboveOk(cfg, root, path, carry, bulk, x, d);
      PathPrefix(root, path, d);
    }
    if x < 0 {
      OffPathAll(cfg, root, path);
      assert AboveOk(cfg, root, path, carry, bulk, x, 0) && path[..0] == [];
    }
  }

  /** The balance loop.  It ends with every page in order, except that a page marked at depth `x`,
      which it did not reach, is as it was. */
  method BalanceLoop(cfg: Config, bulk: bool, root0: Page, path0: seq<nat>, carry0: Carry, ghost h0: nat, ghost x0: int)
    returns (root: Page, path: seq<nat>, ghost h: nat, ghost x: int, ghost run: seq<State>)
    requires Pending(cfg, root0, h0, path0, carry0, bulk, x0) && x0 >= -1
    ensures SameReading(Inorder(root0), Inorder(root)) && h <= h0 + 1
    ensures (x == x0 || x == -1) && x < |path|
    ensures Rested(cfg, root, h, path, bulk, x)
    ensures run != [] && Run(cfg, bulk, run) && run[0] == State(root0, path0, carry0)
    ensures run[|run| - 1].root == root && run[|run| - 1].path == path
  {
    hide SameReading, Inorder, Pending, StepTo, Rested, Running;
    var nMin := cfg.usableSize * 2 / 3;
    root, path, h, x := root0, path0, h0, x0;
    var carry := carry0;
    ghost var deeper := false;
    run := [State(root0, path0, carry0)];
    PendingPath(cfg, root, h, path, carry, bulk, x);
    RunStarts(cfg, bulk, run[0]);
    SameItself(Inorder(root0));
    while true
      invariant Pending(cfg, root, h, path, carry, bulk, x) && x >= -1 && (x == x0 || x == -1)
      invariant DeepenedOnce(root, path, carry, deeper) && h <= h0 + if deeper then 1 else 0
      invariant SameReading(Inorder(root0), Inorder(root))
      invariant run != [] && Running(cfg, bulk, run) && run[0] == State(root0, path0, carry0) && run[|run| - 1] == State(root, path, carry)
      decreases if deeper then 0 else 1, |path|
    {
      PendingPath(cfg, root, h, path, carry, bulk, x);
      var page := PageAt(root, path);
      ghost var before := root;
      if path == [] {
        if carry.count == 0 {
          StopAtRoot(cfg, root, h, carry, bulk, x);
          return;
        }
        Deeper(cfg, root, h, carry, bulk, x);
        root, path, h, x, deeper := Interior([], [root]), [0], h + 1, -1, true;
        IsStep(cfg, bulk, before, carry);
      } else if carry.count == 0 && Space(cfg, page.Leaf?) - Bytes(cfg, page.Leaf?, page.cells) <= nMin {
        assert Bytes(cfg, page.Leaf?, []) == 0;
        StopBelow(cfg, root, h, path, carry, bulk, x);
        return;
      } else {
        var n := |path| - 1;
        root, carry, h := BalanceParent(cfg, h, root, path, carry, bulk, x);
        path := path[..n];
        x := if x == n then -1 else x;
      }
      SameTransitive(Inorder(root0), Inorder(before), Inorder(root));
      RunGoesOn(cfg, bulk, run, State(root, path, carry));
      run := run + [State(root, path, carry)];
    }
  }
}
