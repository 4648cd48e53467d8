/** The balancing steps of btree.c seen from the parent page: balance_nonroot, balance_quick and
    balance_deeper. */
module Nonroot {
  import opened Tree
  import opened PageRules
  import opened Redistribute
  import opened Balancing
  import Repartition

  const NO_CARRY := Carry(0, 0)

  /** The parent fits, or would without the overflow cell that sits at the child's own index; a bulk
      cursor only attends to that cell at index zero (ChooseSiblings). */
  ghost predicate ParentOk(cfg: Config, parent: Page, idx: nat, room: int, bulk: bool)
    requires ValidConfig(cfg)
  {
    || Bytes(cfg, false, parent.cells) <= room
    || ((!bulk || idx == 0) && idx < |parent.cells| && Bytes(cfg, false, parent.cells[..idx] + parent.cells[idx + 1..]) <= room)
  }

  /** What balance_nonroot starts from: child `idx` is the page to balance, all else is in order. */
  ghost predicate Unbalanced(cfg: Config, h: nat, parent: Page, idx: nat, carry: Carry)
    requires ValidConfig(cfg)
  {
    && Shape(cfg, parent, h + 1) && parent.Interior? && idx < |parent.kids|
    && (forall j :: 0 <= j < |parent.kids| && j != idx ==> AllOk(cfg, parent.kids[j]))
    && BelowOk(cfg, parent.kids[idx])
    && Carrying(cfg, h == 0, parent.kids[idx].cells, Space(cfg, h == 0), carry)
  }

  /** What every balancing step leaves at depth `d`: a page of level `h` that reads as before and
      may carry overflow cells of its own. */
  ghost predicate Balanced(cfg: Config, d: nat, h: nat, before: Page, after: Page, carry: Carry)
    requires ValidConfig(cfg)
  {
    && Shape(cfg, after, h) && BelowOk(cfg, after)
    && SameReading(Inorder(before), Inorder(after))
    && Carrying(cfg, h == 0, after.cells, Room(cfg, d, h == 0), carry)
    && (carry.count > 0 ==> Bytes(cfg, h == 0, after.cells) > Room(cfg, d, h == 0))
    && (d == 0 && h > 0 && after.cells == [] ==> cfg.rootHdr > 0)
  }

  /** Child `idx` and a sibling on either side, or two on one side at the ends; a bulk cursor takes one
      sibling, the one before if there is one.  `nDiv` dividers from `nxDiv` on lie between them. */
  ghost predicate IsWindow(n: nat, idx: nat, bulk: bool, nxDiv: nat, nDiv: nat)
  {
    && nxDiv <= idx <= nxDiv + nDiv <= n
    && nDiv == (if n < 2 then n else if bulk then 1 else 2)
    && (0 < idx < n ==> nxDiv < idx && (!bulk ==> idx < nxDiv + nDiv))
  }

  /** Which siblings take part: first divider and number of dividers. */
  method ChooseSiblings(n: nat, idx: nat, bulk: bool) returns (nxDiv: nat, nDiv: nat)
    requires idx <= n
    ensures IsWindow(n, idx, bulk, nxDiv, nDiv)
    ensures nxDiv <= idx < nxDiv + nDiv <==> idx < n && (!bulk || idx == 0)
  {
    if n < 2 {
      nxDiv, nDiv := 0, n;
    } else {
      var b := if bulk then 1 else 0;
      if idx == 0 { nxDiv := 0; }
      else if idx == n { nxDiv := n - 2 + b; }
      else { nxDiv := idx - 1; }
      nDiv := 2 - b;
    }
  }

  /** Dropping the dividers leaves a parent that fits. */
  lemma {:induction false} DropFits(cfg: Config, parent: Page, idx: nat, room: int, bulk: bool, a: nat, b: nat)
    requires ValidConfig(cfg) && a <= b <= |parent.cells|
    requires ParentOk(cfg, parent, idx, room, bulk)
    requires (!bulk || idx == 0) && idx < |parent.cells| ==> a <= idx < b
    ensures Bytes(cfg, false, parent.cells[..a] + parent.cells[b..]) <= room
  {
    var c := parent.cells;
    CarriedSplit(cfg, false, c, a, b - a);
    if Bytes(cfg, false, c) > room {
      DropMore(cfg, c, a, b, idx);
    }
  }

  lemma {:induction false} DropMore(cfg: Config, c: seq<Cell>, a: nat, b: nat, i: nat)
    requires ValidConfig(cfg) && a <= i < b <= |c|
    ensures Bytes(cfg, false, c[..a] + c[b..]) <= Bytes(cfg, false, c[..i] + c[i + 1..])
  {
    var t := c[..i] + c[i + 1..];
    CarriedSplit(cfg, false, t, a, b - a - 1);
    assert t[..a] + t[a + (b - a - 1)..] == c[..a] + c[b..];
  }

  lemma {:induction false} KindsParts(cfg: Config, leaf: bool, a: seq<Cell>, b: seq<Cell>)
    requires Kinds(cfg, leaf, a) && Kinds(cfg, leaf, b)
    ensures Kinds(cfg, leaf, a + b)
  {
  }

  /** Putting redistributed siblings back between their neighbours. */
  lemma {:induction false} Reassemble(cfg: Config, h: nat, parent: Page, idx: nat, carry: Carry, a: nat, b: nat,
          divs: seq<Cell>, pages: seq<Page>)
    requires ValidConfig(cfg) && Unbalanced(cfg, h, parent, idx, carry)
    requires a <= b <= |parent.cells| && a <= idx <= b
    requires Settled(cfg, h, divs, pages)
    requires forall i :: 0 <= i < |pages| ==> PageOk(cfg, pages[i])
    requires SameReading(Weave(parent.cells[a..b], parent.kids[a..b + 1]), Weave(divs, pages))
    ensures var p := Interior(parent.cells[..a] + divs + parent.cells[b..], parent.kids[..a] + pages + parent.kids[b + 1..]);
      Shape(cfg, p, h + 1) && BelowOk(cfg, p) && SameReading(Inorder(parent), Inorder(p))
  {
    var pre, post, preK, postK := parent.cells[..a], parent.cells[b..], parent.kids[..a], parent.kids[b + 1..];
    var p := Interior(pre + divs + post, preK + pages + postK);
    forall i | 0 <= i < |p.kids| ensures Shape(cfg, p.kids[i], h) && AllOk(cfg, p.kids[i]) {
      if i < a {
        assert p.kids[i] == parent.kids[i];
      } else if i < a + |pages| {
        assert p.kids[i] == pages[i - a];
        assert NewPage(cfg, h, pages[i - a]) && PageOk(cfg, pages[i - a]);
      } else {
        assert p.kids[i] == parent.kids[i - a - |pages| + b + 1];
      }
    }
    KindsParts(cfg, false, pre, divs);
    KindsParts(cfg, false, pre + divs, post);
    ReassembledScan(parent, a, b, divs, pages);
  }

  lemma {:induction false} ReassembledScan(parent: Page, a: nat, b: nat, divs: seq<Cell>, pages: seq<Page>)
    requires parent.Interior? && |parent.kids| == |parent.cells| + 1 && a <= b <= |parent.cells|
    requires |pages| == |divs| + 1
    requires SameReading(Weave(parent.cells[a..b], parent.kids[a..b + 1]), Weave(divs, pages))
    ensures SameReading(Inorder(parent),
      Inorder(Interior(parent.cells[..a] + divs + parent.cells[b..], parent.kids[..a] + pages + parent.kids[b + 1..])))
  {
    var pre, post, preK, postK := parent.cells[..a], parent.cells[b..], parent.kids[..a], parent.kids[b + 1..];
    var mid, midK := parent.cells[a..b], parent.kids[a..b + 1];
    assert parent.cells == pre + mid + post && parent.kids == preK + midK + postK;
    WeaveMiddle(pre, preK, mid, midK, post, postK);
    WeaveMiddle(pre, preK, divs, pages, post, postK);
    SameInContext(OuterLeft(pre, preK), Weave(mid, midK), Weave(divs, pages), OuterRight(post, postK));
  }

  lemma {:induction false} SiblingsMovable(cfg: Config, h: nat, parent: Page, idx: nat, carry: Carry, a: nat, b: nat)
    requires ValidConfig(cfg) && Unbalanced(cfg, h, parent, idx, carry)
    requires a <= b <= |parent.cells| && a <= idx <= b <= a + 2
    ensures Movable(cfg, h, parent.cells[a..b], parent.kids[a..b + 1], idx - a, carry)
  {
    var sibs := parent.kids[a..b + 1];
    forall i | 0 <= i < |sibs|
      ensures Shape(cfg, sibs[i], h) && BelowOk(cfg, sibs[i])
      ensures i != idx - a ==> PageOk(cfg, sibs[i])
    {
      assert sibs[i] == parent.kids[a + i];
      if i != idx - a { assert AllOk(cfg, parent.kids[a + i]); }
    }
  }

  /** `p` is `parent` with the siblings of the window, `a` to `b`, spread anew over `pages`, none too many. */
  ghost predicate RespreadAt(cfg: Config, parent: Page, p: Page, idx: nat, bulk: bool, a: nat, b: nat, divs: seq<Cell>, pages: seq<Page>)
    requires ValidConfig(cfg)
  {
    && parent.Interior? && |parent.kids| == |parent.cells| + 1 && a <= b <= |parent.cells|
    && IsWindow(|parent.cells|, idx, bulk, a, b - a)
    && |pages| == |divs| + 1 && NoneMerge(cfg, divs, pages) && SpreadEvenly(cfg, pages[0].Leaf?, bulk, divs, pages)
    && p == Interior(parent.cells[..a] + divs + parent.cells[b..], parent.kids[..a] + pages + parent.kids[b + 1..])
  }

  ghost predicate Respread(cfg: Config, parent: Page, p: Page, idx: nat, bulk: bool)
    requires ValidConfig(cfg)
  {
    exists a, b, divs, pages :: RespreadAt(cfg, parent, p, idx, bulk, a, b, divs, pages)
  }

  lemma {:induction false} RespreadBy(cfg: Config, parent: Page, idx: nat, bulk: bool, a: nat, b: nat, divs: seq<Cell>, pages: seq<Page>)
    requires ValidConfig(cfg) && parent.Interior? && |parent.kids| == |parent.cells| + 1
    requires a <= b <= |parent.cells| && IsWindow(|parent.cells|, idx, bulk, a, b - a)
    requires |pages| == |divs| + 1 && NoneMerge(cfg, divs, pages) && SpreadEvenly(cfg, pages[0].Leaf?, bulk, divs, pages)
    ensures Respread(cfg, parent, Interior(parent.cells[..a] + divs + parent.cells[b..], parent.kids[..a] + pages + parent.kids[b + 1..]), idx, bulk)
  {
    hide NoneMerge, SpreadEvenly, IsWindow;
    var p := Interior(parent.cells[..a] + divs + parent.cells[b..], parent.kids[..a] + pages + parent.kids[b + 1..]);
    assert RespreadAt(cfg, parent, p, idx, bulk, a, b, divs, pages);
  }

  /** A root without cells keeps its child only if the child leaves no room for the header of page 1. */
  ghost predicate NoCollapse(cfg: Config, p: Page)
    requires ValidConfig(cfg)
  {
    p.Interior? && p.cells == [] && |p.kids| == 1 ==>
      cfg.rootHdr > Space(cfg, p.kids[0].Leaf?) - Bytes(cfg, p.kids[0].Leaf?, p.kids[0].cells)
  }

  /** Put the redistributed siblings and their dividers back into the parent. */
  method Attach(cfg: Config, ghost h: nat, d: nat, parent: Page, ghost idx: nat, ghost carry: Carry, a: nat, b: nat,
          divs: seq<Cell>, pages: seq<Page>)
    returns (p: Page, carryOut: Carry)
    requires ValidConfig(cfg) && Unbalanced(cfg, h, parent, idx, carry)
    requires a <= b <= |parent.cells| && a <= idx <= b
    requires Settled(cfg, h, divs, pages)
    requires forall i :: 0 <= i < |pages| ==> PageOk(cfg, pages[i])
    requires SameReading(Weave(parent.cells[a..b], parent.kids[a..b + 1]), Weave(divs, pages))
    requires Bytes(cfg, false, parent.cells[..a] + parent.cells[b..]) <= Room(cfg, d, false)
    requires d == 0 && parent.cells[..a] + divs + parent.cells[b..] == [] ==> cfg.rootHdr > 0
    requires parent.cells == [] ==> Bytes(cfg, false, divs) <= Room(cfg, d, false)
    ensures Balanced(cfg, d, h + 1, parent, p, carryOut)
    ensures parent.cells == [] ==> carryOut.count == 0
    ensures p == Interior(parent.cells[..a] + divs + parent.cells[b..], parent.kids[..a] + pages + parent.kids[b + 1..])
  {
    Reassemble(cfg, h, parent, idx, carry, a, b, divs, pages);
    p := Interior(parent.cells[..a] + divs + parent.cells[b..], parent.kids[..a] + pages + parent.kids[b + 1..]);
    carryOut := InsertCells(cfg, Room(cfg, d, false), parent.cells[..a], divs, parent.cells[b..]);
    if parent.cells == [] { assert p.cells == divs; }
  }

  /** Pick the siblings of child `idx` and redistribute their cells. */
  method SpreadSiblings(cfg: Config, ghost h: nat, leaf: bool, d: nat, parent: Page, idx: nat, ghost carry: Carry, bulk: bool)
    returns (a: nat, b: nat, divs: seq<Cell>, pages: seq<Page>)
    requires ValidConfig(cfg) && (leaf <==> h == 0)
    requires Unbalanced(cfg, h, parent, idx, carry)
    requires ParentOk(cfg, parent, idx, Room(cfg, d, false), bulk)
    requires parent.cells == [] ==> d == 0
    ensures a <= b <= |parent.cells| && a <= idx <= b && IsWindow(|parent.cells|, idx, bulk, a, b - a)
    ensures Settled(cfg, h, divs, pages) && NoneMerge(cfg, divs, pages) && SpreadEvenly(cfg, leaf, bulk, divs, pages)
    ensures SameReading(Weave(parent.cells[a..b], parent.kids[a..b + 1]), Weave(divs, pages))
    ensures Bytes(cfg, false, parent.cells[..a] + parent.cells[b..]) <= Room(cfg, d, false)
    ensures parent.cells != [] || parent.kids[idx].cells != [] ==> pages[0].cells != []
    ensures parent.cells == [] ==> Bytes(cfg, false, divs) <= Room(cfg, d, false)
  {
    var nDiv;
    a, nDiv := ChooseSiblings(|parent.cells|, idx, bulk);
    b := a + nDiv;
    SiblingsMovable(cfg, h, parent, idx, carry, a, b);
    assert parent.kids[a..b + 1][idx - a] == parent.kids[idx];
    divs, pages := Spread(cfg, h, leaf, bulk, parent.cells[a..b], parent.kids[a..b + 1], idx - a, carry);
    DropFits(cfg, parent, idx, Room(cfg, d, false), bulk, a, b);
  }

  /** balance_nonroot: redistribute child `idx` and its neighbours, replacing their dividers; when
      the root is left with one child that fits, the tree loses a level. */
  method BalanceNonroot(cfg: Config, ghost h: nat, leaf: bool, d: nat, parent: Page, idx: nat, ghost carry: Carry, bulk: bool)
    returns (p: Page, carryOut: Carry, ghost hOut: nat)
    requires ValidConfig(cfg) && (leaf <==> h == 0)
    requires Unbalanced(cfg, h, parent, idx, carry)
    requires ParentOk(cfg, parent, idx, Room(cfg, d, false), bulk)
    requires parent.cells == [] ==> d == 0 && (cfg.rootHdr > 0 || parent.kids[idx].cells != [])
    ensures hOut == h + 1 || (d == 0 && hOut == h)
    ensures Balanced(cfg, d, hOut, parent, p, carryOut)
    ensures parent.cells == [] ==> carryOut.count == 0
    ensures hOut == h ==> carryOut.count == 0
    ensures hOut == h + 1 ==> Respread(cfg, parent, p, idx, bulk) && (d == 0 ==> NoCollapse(cfg, p))
  {
    hide Respread, NoneMerge, NoCollapse, IsWindow, SpreadEvenly;
    var a, b, divs, pages := SpreadSiblings(cfg, h, leaf, d, parent, idx, carry, bulk);
    assert NewPage(cfg, h, pages[0]);
    var cells := parent.cells[..a] + divs + parent.cells[b..];
    var nFree := Space(cfg, leaf) - Bytes(cfg, leaf, pages[0].cells);
    if d == 0 && cells == [] && cfg.rootHdr <= nFree {
      // balance-shallower: the only child becomes the root
      Shallower(cfg, h, parent, idx, carry, a, b, divs, pages);
      p, carryOut, hOut := pages[0], NO_CARRY, h;
    } else {
      assert cells == [] ==> a == 0 && b == |parent.cells| && divs == [] by {
        assert |cells| == a + |divs| + |parent.cells| - b;
      }
      NonemptyPages(cfg, h, d, parent.cells, divs, pages);
      p, carryOut := Attach(cfg, h, d, parent, idx, carry, a, b, divs, pages);
      RespreadBy(cfg, parent, idx, bulk, a, b, divs, pages);
      hOut := h + 1;
      if d == 0 { LeftOver(cfg, h, parent, a, b, divs, pages, p); }
    }
  }

  /** A root that has kept a single child. */
  lemma {:induction false} LeftOver(cfg: Config, h: nat, parent: Page, a: nat, b: nat, divs: seq<Cell>, pages: seq<Page>, p: Page)
    requires ValidConfig(cfg) && parent.Interior? && |parent.kids| == |parent.cells| + 1 && a <= b <= |parent.cells| && |pages| == |divs| + 1
    requires p == Interior(parent.cells[..a] + divs + parent.cells[b..], parent.kids[..a] + pages + parent.kids[b + 1..])
    requires p.cells != [] || ((pages[0].Leaf? <==> h == 0) && cfg.rootHdr > Space(cfg, h == 0) - Bytes(cfg, h == 0, pages[0].cells))
    ensures NoCollapse(cfg, p)
  {
    hide Bytes;
    if p.cells == [] {
      assert |p.cells| == a + |divs| + |parent.cells| - b;
      assert p.kids == pages;
    }
  }

  /** Every new page holds a cell, unless the only one collapses into the root. */
  lemma {:induction false} NonemptyPages(cfg: Config, h: nat, d: nat, parentCells: seq<Cell>, divs: seq<Cell>, pages: seq<Page>)
    requires ValidConfig(cfg) && Settled(cfg, h, divs, pages)
    requires parentCells != [] ==> pages[0].cells != []
    requires parentCells == [] ==> d == 0
    requires |pages| == 1 && parentCells == [] ==> cfg.rootHdr > Space(cfg, h == 0) - Bytes(cfg, h == 0, pages[0].cells)
    ensures forall i :: 0 <= i < |pages| ==> PageOk(cfg, pages[i])
  {
    forall i | 0 <= i < |pages| ensures PageOk(cfg, pages[i]) {
      assert NewPage(cfg, h, pages[i]);
      assert Bytes(cfg, h == 0, []) == 0;
    }
  }

  /** The only remaining child takes the place of the root. */
  lemma {:induction false} Shallower(cfg: Config, h: nat, parent: Page, idx: nat, carry: Carry, a: nat, b: nat,
          divs: seq<Cell>, pages: seq<Page>)
    requires ValidConfig(cfg) && Unbalanced(cfg, h, parent, idx, carry)
    requires a <= b <= |parent.cells| && Settled(cfg, h, divs, pages)
    requires parent.cells[..a] + divs + parent.cells[b..] == []
    requires SameReading(Weave(parent.cells[a..b], parent.kids[a..b + 1]), Weave(divs, pages))
    requires cfg.rootHdr <= Space(cfg, h == 0) - Bytes(cfg, h == 0, pages[0].cells)
    requires pages[0].cells == [] ==> cfg.rootHdr > 0
    ensures Balanced(cfg, 0, h, parent, pages[0], NO_CARRY)
  {
    assert |parent.cells[..a] + divs + parent.cells[b..]| == a + |divs| + |parent.cells| - b;
    assert a == 0 && b == |parent.cells| && divs == [];
    assert parent.cells[a..b] == parent.cells && parent.kids[a..b + 1] == parent.kids;
    assert pages == [pages[0]];
    Repartition.WeaveOne(pages[0]);
    assert NewPage(cfg, h, pages[0]);
    assert pages[0].cells[..0] + pages[0].cells[0..] == pages[0].cells;
  }

  // ------------------------------------------------------------------ appending at the right

  /** Splitting the last entry off the right-most leaf. */
  lemma {:induction false} QuickSplit(cfg: Config, c: seq<Cell>)
    requires ValidConfig(cfg) && cfg.leafData && Kinds(cfg, true, c) && |c| >= 2
    requires Carrying(cfg, true, c, Space(cfg, true), Carry(|c| - 1, 1))
    ensures var n := |c| - 1;
      var divs, pages := [Divider(c[n - 1].key)], [Leaf(c[..n]), Leaf(c[n..])];
      && Settled(cfg, 0, divs, pages)
      && PageOk(cfg, pages[0]) && PageOk(cfg, pages[1])
      && SameReading(Weave([], [Leaf(c)]), Weave(divs, pages))
  {
    var n := |c| - 1;
    var divs, pages := [Divider(c[n - 1].key)], [Leaf(c[..n]), Leaf(c[n..])];
    assert c[..n] + c[n + 1..] == c[..n];
    assert c[n..] == [c[n]];
    assert CellKind(cfg, true, c[n]) && CellKind(cfg, true, c[n - 1]);
    BytesOne(cfg, true, c[n]);
    CellLimit(cfg, true, c[n]);
    var whole, halves := [|c|], [n, |c|];
    assert Repartition.CutAt(|c|, true, whole, 0);
    assert Repartition.CutAt(|c|, true, halves, 0) && Repartition.CutAt(|c|, true, halves, 1);
    assert Repartition.HoldsCell(|c|, true, halves, 0) && Repartition.HoldsCell(|c|, true, halves, 1);
    assert Repartition.PagesOf(c, [], true, true, whole) == [Leaf(c)] by { assert c[0..|c|] == c; }
    assert Repartition.PagesOf(c, [], true, true, halves) == pages;
    assert Repartition.DivsOf(c, true, halves) == divs;
    ScanKept(cfg, true, [], c, [], whole, halves);
    assert NewPage(cfg, 0, pages[0]) && NewPage(cfg, 0, pages[1]);
  }

  /** The last entry of the last leaf has moved to a new leaf after it. */
  ghost predicate Appended(parent: Page, p: Page)
  {
    && parent.Interior? && |parent.kids| == |parent.cells| + 1 && |parent.kids[|parent.cells|].cells| >= 2
    && var c, n := parent.kids[|parent.cells|].cells, |parent.cells|;
    && p == Interior(parent.cells + [Divider(c[|c| - 2].key)], parent.kids[..n] + [Leaf(c[..|c| - 1]), Leaf([c[|c| - 1]])])
  }

  lemma {:induction false} AppendedIs(parent: Page, p: Page, c: seq<Cell>)
    requires parent.Interior? && |parent.kids| == |parent.cells| + 1
    requires var n := |parent.cells|;
      && c == parent.kids[n].cells && |c| >= 2
      && p == Interior(parent.cells[..n] + [Divider(c[|c| - 2].key)] + parent.cells[n..],
                       parent.kids[..n] + [Leaf(c[..|c| - 1]), Leaf(c[|c| - 1..])] + parent.kids[n + 1..])
    ensures Appended(parent, p)
  {
    assert c[|c| - 1..] == [c[|c| - 1]];
  }

  /** balance_quick: the entry appended at the far right gets a new leaf of its own. */
  method BalanceQuick(cfg: Config, d: nat, parent: Page, idx: nat)
    returns (p: Page, carryOut: Carry)
    requires ValidConfig(cfg) && cfg.leafData
    requires parent.Interior? && |parent.kids| == |parent.cells| + 1 && idx == |parent.cells|
    requires |parent.kids[idx].cells| >= 2
    requires Unbalanced(cfg, 0, parent, idx, Carry(|parent.kids[idx].cells| - 1, 1))
    requires ParentOk(cfg, parent, idx, Room(cfg, d, false), false)
    ensures Balanced(cfg, d, 1, parent, p, carryOut)
    ensures parent.cells == [] ==> carryOut.count == 0
    ensures Appended(parent, p)
  {
    var c := parent.kids[idx].cells;
    var n := |c| - 1;
    var divs, pages := [Divider(c[n - 1].key)], [Leaf(c[..n]), Leaf(c[n..])];
    QuickDone(cfg, parent, c);
    p := Interior(parent.cells[..idx] + divs + parent.cells[idx..], parent.kids[..idx] + pages + parent.kids[idx + 1..]);
    assert parent.cells[..idx] + parent.cells[idx..] == parent.cells;
    assert Bytes(cfg, false, parent.cells) <= Room(cfg, d, false);
    hide *;
    carryOut := InsertCells(cfg, Room(cfg, d, false), parent.cells[..idx], divs, parent.cells[idx..]);
    QuickBalanced(cfg, d, parent, divs, p, carryOut);
  }

  lemma {:induction false} QuickBalanced(cfg: Config, d: nat, parent: Page, divs: seq<Cell>, p: Page, carry: Carry)
    requires ValidConfig(cfg) && cfg.leafData && parent.Interior? && |divs| == 1 && Kinds(cfg, false, divs)
    requires p.Interior? && p.cells == parent.cells[..|parent.cells|] + divs + parent.cells[|parent.cells|..]
    requires Shape(cfg, p, 1) && BelowOk(cfg, p) && SameReading(Inorder(parent), Inorder(p))
    requires Carrying(cfg, false, p.cells, Room(cfg, d, false), carry)
    requires carry.count > 0 ==> Bytes(cfg, false, p.cells) > Room(cfg, d, false)
    ensures Balanced(cfg, d, 1, parent, p, carry)
    ensures parent.cells == [] ==> carry.count == 0
  {
    hide Shape, BelowOk, SameReading, Inorder, Bytes, Carrying;
    FewCells(cfg, false, divs);
    if parent.cells == [] { assert p.cells == divs; }
  }

  /** The parent with the new leaf reads as before. */
  lemma {:induction false} QuickDone(cfg: Config, parent: Page, c: seq<Cell>)
    requires ValidConfig(cfg) && cfg.leafData && parent.Interior? && |parent.kids| == |parent.cells| + 1
    requires c == parent.kids[|parent.cells|].cells && |c| >= 2 && Unbalanced(cfg, 0, parent, |parent.cells|, Carry(|c| - 1, 1))
    ensures var idx, n := |parent.cells|, |c| - 1;
      var divs, pages := [Divider(c[n - 1].key)], [Leaf(c[..n]), Leaf(c[n..])];
      var p := Interior(parent.cells[..idx] + divs + parent.cells[idx..], parent.kids[..idx] + pages + parent.kids[idx + 1..]);
      && Shape(cfg, p, 1) && BelowOk(cfg, p) && SameReading(Inorder(parent), Inorder(p)) && Kinds(cfg, false, divs) && Appended(parent, p)
  {
    var idx, n := |parent.cells|, |c| - 1;
    var divs, pages := [Divider(c[n - 1].key)], [Leaf(c[..n]), Leaf(c[n..])];
    assert Shape(cfg, parent.kids[idx], 0);
    QuickSplit(cfg, c);
    assert parent.cells[idx..idx] == [] && parent.kids[idx..idx + 1] == [Leaf(c)];
    Reassemble(cfg, 0, parent, idx, Carry(n, 1), idx, idx, divs, pages);
    AppendedIs(parent, Interior(parent.cells[..idx] + divs + parent.cells[idx..], parent.kids[..idx] + pages + parent.kids[idx + 1..]), c);
  }
}
