/** The pages of an auto-vacuum database as a graph: child and overflow pointers, the pointer map that
    inverts them, and the renaming of pages (btree.c:3451-3628). */
module PageGraph {
  /** A cell: left child (on interior pages), first overflow page (zero if none), and the rest. */
  datatype Cell = Cell(left: nat, ovfl: nat, data: int)

  datatype PageData =
    | BtreePage(leaf: bool, cells: seq<Cell>, right: nat, data: int)
    | OvflPage(next: nat, data: int)

  datatype PtrType = RootPage | FreePage | Overflow1 | Overflow2 | Btree

  datatype Entry = Entry(eType: PtrType, parent: nat)

  // ------------------------------------------------------------------ pointers

  /** A place on a page that may hold a page number. */
  datatype Slot = Ovfl(i: nat) | Left(i: nat) | Right | Next

  predicate HasSlot(pg: PageData, s: Slot)
  {
    match pg
    case BtreePage(leaf, cells, right, data) =>
      (match s
       case Ovfl(i) => i < |cells| && cells[i].ovfl != 0
       case Left(i) => !leaf && i < |cells|
       case Right => !leaf
       case Next => false)
    case OvflPage(next, data) => s.Next? && next != 0
  }

  function Target(pg: PageData, s: Slot): nat
    requires HasSlot(pg, s)
  {
    match s
    case Ovfl(i) => pg.cells[i].ovfl
    case Left(i) => pg.cells[i].left
    case Right => pg.right
    case Next => pg.next
  }

  function KindOf(s: Slot): PtrType
  {
    match s
    case Ovfl(i) => Overflow1
    case Left(i) => Btree
    case Right => Btree
    case Next => Overflow2
  }

  // ------------------------------------------------------------------ renaming

  function Renamed(p: nat, a: nat, b: nat): nat
  {
    if p == a then b else p
  }

  function RenameCell(c: Cell, leaf: bool, a: nat, b: nat): Cell
  {
    Cell(if leaf then c.left else Renamed(c.left, a, b), if c.ovfl == 0 then 0 else Renamed(c.ovfl, a, b), c.data)
  }

  /** The page with every pointer to `a` turned into one to `b`. */
  function RenamePage(pg: PageData, a: nat, b: nat): PageData
  {
    match pg
    case BtreePage(leaf, cells, right, data) =>
      BtreePage(leaf, seq(|cells|, (i: int) requires 0 <= i < |cells| => RenameCell(cells[i], leaf, a, b)),
                if leaf then right else Renamed(right, a, b), data)
    case OvflPage(next, data) => OvflPage(if next == 0 then 0 else Renamed(next, a, b), data)
  }

  lemma {:induction false} RenameTargets(pg: PageData, a: nat, b: nat, s: Slot)
    requires b != 0
    ensures HasSlot(RenamePage(pg, a, b), s) <==> HasSlot(pg, s)
    ensures HasSlot(pg, s) ==> Target(RenamePage(pg, a, b), s) == Renamed(Target(pg, s), a, b)
  {
  }

  /** A page without a pointer to `a` is not affected. */
  lemma {:induction false} RenameNothing(pg: PageData, a: nat, b: nat)
    requires forall s :: HasSlot(pg, s) ==> Target(pg, s) != a
    ensures RenamePage(pg, a, b) == pg
  {
    if pg.BtreePage? {
      forall i | 0 <= i < |pg.cells| ensures RenameCell(pg.cells[i], pg.leaf, a, b) == pg.cells[i] {
        assert pg.cells[i].ovfl != 0 ==> HasSlot(pg, Ovfl(i)) && Target(pg, Ovfl(i)) != a;
        assert !pg.leaf ==> HasSlot(pg, Left(i)) && Target(pg, Left(i)) != a;
      }
      assert !pg.leaf ==> HasSlot(pg, Right) && Target(pg, Right) != a;
      assert RenamePage(pg, a, b).cells == pg.cells;
    } else {
      assert pg.next != 0 ==> HasSlot(pg, Next) && Target(pg, Next) != a;
    }
  }

  /** Writing page number `b` at slot `s`. */
  function SetSlot(pg: PageData, s: Slot, b: nat): PageData
    requires HasSlot(pg, s)
  {
    match s
    case Ovfl(i) => pg.(cells := pg.cells[i := pg.cells[i].(ovfl := b)])
    case Left(i) => pg.(cells := pg.cells[i := pg.cells[i].(left := b)])
    case Right => pg.(right := b)
    case Next => pg.(next := b)
  }

  /** When `s` is the only pointer to `a`, overwriting it renames `a` on the page. */
  lemma {:induction false} SetSlotRenames(pg: PageData, s: Slot, a: nat, b: nat)
    requires HasSlot(pg, s) && Target(pg, s) == a
    requires forall t :: HasSlot(pg, t) && t != s ==> Target(pg, t) != a
    ensures SetSlot(pg, s, b) == RenamePage(pg, a, b)
  {
    if pg.BtreePage? {
      var q := SetSlot(pg, s, b);
      forall i | 0 <= i < |pg.cells| ensures q.cells[i] == RenameCell(pg.cells[i], pg.leaf, a, b) {
        assert pg.cells[i].ovfl != 0 ==> HasSlot(pg, Ovfl(i)) && (s != Ovfl(i) ==> Target(pg, Ovfl(i)) != a);
        assert !pg.leaf ==> HasSlot(pg, Left(i)) && (s != Left(i) ==> Target(pg, Left(i)) != a);
      }
      assert !pg.leaf ==> HasSlot(pg, Right) && (s != Right ==> Target(pg, Right) != a);
      assert q.cells == RenamePage(pg, a, b).cells;
    }
  }

  // ------------------------------------------------------------------ the pointer map inverts the pointers

  /** Slot `s` of page `q` points to a page of the database, whose entry names `q` and the kind of slot. */
  ghost predicate Mapped(content: map<nat, PageData>, ptrmap: map<nat, Entry>, q: nat, s: Slot)
    requires q in content && HasSlot(content[q], s)
  {
    var t := Target(content[q], s);
    && t in content && t in ptrmap && ptrmap[t] == Entry(KindOf(s), q)
    && (content[t].BtreePage? <==> KindOf(s) == Btree)
  }

  /** The entry of page `p` names a page with a pointer of that kind to `p`. */
  ghost predicate Anchored(content: map<nat, PageData>, ptrmap: map<nat, Entry>, p: nat)
    requires p in ptrmap
  {
    var e := ptrmap[p];
    e.parent in content && exists s :: HasSlot(content[e.parent], s) && KindOf(s) == e.eType && Target(content[e.parent], s) == p
  }

  ghost predicate OneEach(pg: PageData)
  {
    forall s, t :: HasSlot(pg, s) && HasSlot(pg, t) && Target(pg, s) == Target(pg, t) ==> s == t
  }

  /** Every pointer is recorded in the pointer map, every used page other than a root has an entry that
      leads back to the one pointer to it, no page points to itself, and roots are b-tree pages that
      nothing points to. */
  ghost predicate Inverse(content: map<nat, PageData>, ptrmap: map<nat, Entry>, roots: set<nat>)
  {
    && 0 !in content && roots <= content.Keys
    && (forall q, s :: q in content && HasSlot(content[q], s) ==> Mapped(content, ptrmap, q, s) && Target(content[q], s) != q && Target(content[q], s) !in roots)
    && (forall q :: q in content ==> OneEach(content[q]))
    && (forall p :: p in content && p !in roots ==> p in ptrmap && Anchored(content, ptrmap, p))
    && (forall p :: p in roots ==> content[p].BtreePage?)
    && (forall p :: p in roots && p in ptrmap ==> ptrmap[p].eType == RootPage)
  }

  /** The database with page `a` renamed to `b`. */
  ghost function RenameAll(content: map<nat, PageData>, a: nat, b: nat): map<nat, PageData>
    requires a in content && b !in content
  {
    map p | p in content.Keys - {a} + {b} :: RenamePage(content[if p == b then a else p], a, b)
  }

  /** The pointer map of the renamed database, on its used pages. */
  ghost predicate RenamedMap(content: map<nat, PageData>, ptrmap: map<nat, Entry>, ptrmap': map<nat, Entry>, a: nat, b: nat)
    requires a in content && b !in content
  {
    && (forall p :: p in content && p in ptrmap ==>
         var p' := Renamed(p, a, b);
         p' in ptrmap' && ptrmap'[p'] == Entry(ptrmap[p].eType, if ptrmap[p].eType == RootPage then ptrmap[p].parent else Renamed(ptrmap[p].parent, a, b)))
  }

  /** The root pages after page `a` has been renamed to `b`. */
  ghost function RootsMoved(roots: set<nat>, a: nat, b: nat): set<nat>
  {
    if a in roots then roots - {a} + {b} else roots
  }

  /** The entries that renaming `a` takes along: the entry of a root page leads nowhere and stays. */
  ghost function Followed(ptrmap: map<nat, Entry>, roots: set<nat>, a: nat): map<nat, Entry>
  {
    if a in roots then ptrmap - {a} else ptrmap
  }

  /** Renaming a page, root or not, keeps the pointer map an exact inverse. */
  lemma {:induction false} RenameInverse(content: map<nat, PageData>, ptrmap: map<nat, Entry>,
          ptrmap': map<nat, Entry>, roots: set<nat>, a: nat, b: nat)
    requires Inverse(content, ptrmap, roots) && a in content && b !in content && b != 0
    requires RenamedMap(content, Followed(ptrmap, roots, a), ptrmap', a, b)
    requires forall p :: p in RootsMoved(roots, a, b) && p in ptrmap' ==> ptrmap'[p].eType == RootPage
    ensures Inverse(RenameAll(content, a, b), ptrmap', RootsMoved(roots, a, b))
  {
    var c', roots' := RenameAll(content, a, b), RootsMoved(roots, a, b);
    forall q, s | q in c' && HasSlot(c'[q], s)
      ensures Mapped(c', ptrmap', q, s) && Target(c'[q], s) != q && Target(c'[q], s) !in roots' {
      RenameSlot(content, ptrmap, ptrmap', roots, a, b, q, s);
    }
    forall q | q in c' ensures OneEach(c'[q]) { RenameOne(content, ptrmap, roots, a, b, q); }
    forall p | p in c' && p !in roots' ensures p in ptrmap' && Anchored(c', ptrmap', p) {
      RenameAnchor(content, ptrmap, ptrmap', roots, a, b, p);
    }
  }

  lemma {:induction false} RenameSlot(content: map<nat, PageData>, ptrmap: map<nat, Entry>, ptrmap': map<nat, Entry>,
          roots: set<nat>, a: nat, b: nat, q: nat, s: Slot)
    requires Inverse(content, ptrmap, roots) && a in content && b !in content && b != 0
    requires RenamedMap(content, Followed(ptrmap, roots, a), ptrmap', a, b)
    requires q in RenameAll(content, a, b) && HasSlot(RenameAll(content, a, b)[q], s)
    ensures var c' := RenameAll(content, a, b);
      Mapped(c', ptrmap', q, s) && Target(c'[q], s) != q && Target(c'[q], s) !in RootsMoved(roots, a, b)
  {
    var q0 := if q == b then a else q;
    RenameTargets(content[q0], a, b, s);
    assert Mapped(content, ptrmap, q0, s);
  }

  lemma {:induction false} RenameOne(content: map<nat, PageData>, ptrmap: map<nat, Entry>, roots: set<nat>, a: nat, b: nat, q: nat)
    requires Inverse(content, ptrmap, roots) && a in content && b !in content && b != 0
    requires q in RenameAll(content, a, b)
    ensures OneEach(RenameAll(content, a, b)[q])
  {
    var q0 := if q == b then a else q;
    forall s | HasSlot(content[q0], s) ensures Target(content[q0], s) != b { assert Mapped(content, ptrmap, q0, s); }
    RenameOneEach(content[q0], a, b);
  }

  lemma {:induction false} RenameAnchor(content: map<nat, PageData>, ptrmap: map<nat, Entry>,
          ptrmap': map<nat, Entry>, roots: set<nat>, a: nat, b: nat, p: nat)
    requires Inverse(content, ptrmap, roots) && a in content && b !in content && b != 0
    requires RenamedMap(content, Followed(ptrmap, roots, a), ptrmap', a, b)
    requires p in RenameAll(content, a, b) && p !in RootsMoved(roots, a, b)
    ensures p in ptrmap' && Anchored(RenameAll(content, a, b), ptrmap', p)
  {
    var c' := RenameAll(content, a, b);
    var p0 := if p == b then a else p;
    assert Anchored(content, ptrmap, p0);
    var e := ptrmap[p0];
    var s :| HasSlot(content[e.parent], s) && KindOf(s) == e.eType && Target(content[e.parent], s) == p0;
    RenameTargets(content[e.parent], a, b, s);
    assert HasSlot(c'[Renamed(e.parent, a, b)], s);
  }

  lemma {:induction false} RenameOneEach(pg: PageData, a: nat, b: nat)
    requires OneEach(pg) && b != 0
    ensures (forall s :: HasSlot(pg, s) ==> Target(pg, s) != b) ==> OneEach(RenamePage(pg, a, b))
  {
    if forall s :: HasSlot(pg, s) ==> Target(pg, s) != b {
      var q := RenamePage(pg, a, b);
      forall s, t | HasSlot(q, s) && HasSlot(q, t) && Target(q, s) == Target(q, t) ensures s == t {
        RenameTargets(pg, a, b, s);
        RenameTargets(pg, a, b, t);
      }
    }
  }

  // ------------------------------------------------------------------ the effect of the steps of relocatePage

  /** Slot `s` belongs to one of the first `i` cells. */
  predicate InCells(s: Slot, i: nat)
  {
    (s.Ovfl? || s.Left?) && s.i < i
  }

  /** The entries of the pages that the slots in `done` of page `pg` point to have been set to lead to
      `b`; the others are as before. */
  ghost predicate ChildrenSet(pg: PageData, b: nat, before: map<nat, Entry>, now: map<nat, Entry>, done: Slot -> bool)
  {
    && (forall s :: HasSlot(pg, s) && done(s) ==> Target(pg, s) in now && now[Target(pg, s)] == Entry(KindOf(s), b))
    && (forall p :: p in before ==> p in now)
    && (forall p :: p in now && (forall s :: HasSlot(pg, s) && done(s) ==> Target(pg, s) != p) ==> p in before && now[p] == before[p])
  }

  lemma {:induction false} SetOne(pg: PageData, b: nat, before: map<nat, Entry>, now: map<nat, Entry>,
          done: Slot -> bool, s: Slot, done': Slot -> bool)
    requires ChildrenSet(pg, b, before, now, done) && OneEach(pg) && HasSlot(pg, s)
    requires forall t :: HasSlot(pg, t) ==> (done'(t) <==> done(t) || t == s)
    ensures ChildrenSet(pg, b, before, now[Target(pg, s) := Entry(KindOf(s), b)], done')
  {
  }

  lemma {:induction false} SetNone(pg: PageData, b: nat, before: map<nat, Entry>, now: map<nat, Entry>,
          done: Slot -> bool, done': Slot -> bool)
    requires ChildrenSet(pg, b, before, now, done)
    requires forall t :: HasSlot(pg, t) ==> (done'(t) <==> done(t))
    ensures ChildrenSet(pg, b, before, now, done')
  {
  }

  /** No page but the parent points to `a`, and none to a root. */
  lemma {:induction false} OneParent(content: map<nat, PageData>, ptrmap: map<nat, Entry>, roots: set<nat>, a: nat, q: nat)
    requires Inverse(content, ptrmap, roots) && a in content && q in content
    requires a in roots || q != ptrmap[a].parent
    ensures forall s :: HasSlot(content[q], s) ==> Target(content[q], s) != a
  {
    forall s | HasSlot(content[q], s) ensures Target(content[q], s) != a { assert Mapped(content, ptrmap, q, s); }
  }

  /** The pages after relocatePage are the old ones renamed; a root has no parent whose pointer changes. */
  lemma {:induction false} Relocated(content: map<nat, PageData>, ptrmap: map<nat, Entry>, roots: set<nat>, a: nat,
          b: nat, now: map<nat, PageData>)
    requires Inverse(content, ptrmap, roots) && a in content && b !in content && b != 0
    requires a !in roots ==> ptrmap[a].parent in content && ptrmap[a].parent != a
    requires var moved := (content - {a})[b := content[a]];
      now == if a in roots then moved else var q := ptrmap[a].parent; moved[q := RenamePage(content[q], a, b)]
    ensures now == RenameAll(content, a, b)
  {
    var c' := RenameAll(content, a, b);
    assert now.Keys == c'.Keys;
    forall p | p in now ensures now[p] == c'[p] {
      var p0 := if p == b then a else p;
      if a in roots || p0 != ptrmap[a].parent {
        OneParent(content, ptrmap, roots, a, p0);
        RenameNothing(content[p0], a, b);
      }
    }
  }

  /** The pointer map after relocatePage is the old one renamed; for a root no entry of its own is
      written. */
  lemma {:induction false} RelocatedMap(content: map<nat, PageData>, ptrmap: map<nat, Entry>, roots: set<nat>, a: nat,
          b: nat, mid: map<nat, Entry>)
    requires Inverse(content, ptrmap, roots) && a in content && b !in content && b != 0
    requires a !in roots ==> ptrmap[a].parent != a
    requires ChildrenSet(content[a], b, ptrmap, mid, (s: Slot) => true)
    ensures RenamedMap(content, Followed(ptrmap, roots, a), if a in roots then mid else mid[b := ptrmap[a]], a, b)
  {
    var ptrmap' := if a in roots then mid else mid[b := ptrmap[a]];
    forall p | p in content && p in Followed(ptrmap, roots, a)
      ensures var p' := Renamed(p, a, b);
        p' in ptrmap' && ptrmap'[p'] == Entry(ptrmap[p].eType, if ptrmap[p].eType == RootPage then ptrmap[p].parent else Renamed(ptrmap[p].parent, a, b)) {
      if p == a {
        assert Anchored(content, ptrmap, a);
      } else if p in roots || ptrmap[p].parent != a {
        forall s | HasSlot(content[a], s) ensures Target(content[a], s) != p { assert Mapped(content, ptrmap, a, s); }
      } else {
        assert Anchored(content, ptrmap, p);
        var s :| HasSlot(content[a], s) && KindOf(s) == ptrmap[p].eType && Target(content[a], s) == p;
      }
    }
  }

  /** The parent of a page is another page that points to it. */
  lemma {:induction false} ParentOf(content: map<nat, PageData>, ptrmap: map<nat, Entry>, roots: set<nat>, a: nat) returns (s: Slot)
    requires Inverse(content, ptrmap, roots) && a in content && a !in roots
    ensures a in ptrmap && ptrmap[a].parent in content && ptrmap[a].parent != a
    ensures HasSlot(content[ptrmap[a].parent], s) && KindOf(s) == ptrmap[a].eType && Target(content[ptrmap[a].parent], s) == a
    ensures content[a].BtreePage? <==> ptrmap[a].eType == Btree
    ensures OneEach(content[ptrmap[a].parent]) && OneEach(content[a])
  {
    assert Anchored(content, ptrmap, a);
    s :| HasSlot(content[ptrmap[a].parent], s) && KindOf(s) == ptrmap[a].eType && Target(content[ptrmap[a].parent], s) == a;
    assert Mapped(content, ptrmap, ptrmap[a].parent, s);
  }
}
