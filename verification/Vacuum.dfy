/** Auto-vacuum and incremental vacuum (incrVacuumStep, finalDbSize, sqlite3BtreeIncrVacuum and
    autoVacuumCommit in btree.c:3632-3861): moving the used pages to the front of the file. */
module Vacuum {
  import opened PageMap
  import opened FinalSize
  import opened PageGraph
  import Counting

  /** The data pages among 1 to `n`. */
  ghost function DataSet(g: Geometry, n: nat): set<nat>
  {
    if n == 0 then {} else if Special(g, n) then DataSet(g, n - 1) else DataSet(g, n - 1) + {n}
  }

  lemma {:induction false} DataSetIs(g: Geometry, n: nat)
    ensures |DataSet(g, n)| == DataPages(g, n)
    ensures forall p: nat :: p in DataSet(g, n) <==> 1 <= p <= n && !Special(g, p)
  {
    hide Special;
    if n > 0 { DataSetIs(g, n - 1); }
  }

  /** Used pages beyond `nFin` leave as many unused data pages before it. */
  lemma {:induction false} RoomBelow(g: Geometry, used: set<nat>, nFin: nat, last: nat)
    requires |used| == DataPages(g, nFin) && last in used && last > nFin
    ensures exists p :: p in DataSet(g, nFin) && p !in used
  {
    DataSetIs(g, nFin);
    if DataSet(g, nFin) <= used {
      Counting.SubsetSize(DataSet(g, nFin) + {last}, used);
      assert false;
    }
  }

  datatype Rc = Ok | Done | Corrupt

  /** A file of `n` data pages with the final size of another is that final size. */
  lemma {:induction false} FinalUnique(g: Geometry, nOrig: nat, nFree: nat, nPage: nat, nFin: nat)
    requires !Special(g, nPage) && !Special(g, nFin)
    requires DataPages(g, nFin) == DataPages(g, nOrig) - nFree == DataPages(g, nPage)
    ensures nPage == nFin
  {
    SizeUnique(g, nPage, nFin);
  }

  /** finalDbSize: the size at which exactly `nFree` fewer data pages remain, and at which the file does
      not end in a pointer-map page or the pending-byte page. */
  method FinalDbSize(g: Geometry, nOrig: nat, nFree: nat) returns (nFin: nat)
    requires Vacuumable(g, nOrig, nFree)
    ensures !Special(g, nFin) && 1 <= nFin <= nOrig
    ensures DataPages(g, nFin) == DataPages(g, nOrig) - nFree
  {
    GuessRight(g, nOrig, nFree);
    var nEntry := g.entries;
    var nPtrmap := (nFree - nOrig + PtrmapPageno(g, nOrig) + nEntry) % PGNO / nEntry;
    var fin := nOrig - nFree - nPtrmap;
    if nOrig > g.pending && fin < g.pending { fin := fin - 1; }
    nFin := fin;
    assert fin == Guess(g, nOrig, nFree);
    hide PtrmapPageno, Vacuumable, Guess, Special;
    nFin := DropSpecial(g, nFin);
  }

  /** The loop at the end of finalDbSize. */
  method DropSpecial(g: Geometry, n: nat) returns (nFin: nat)
    requires DataPages(g, n) > 0
    ensures !Special(g, nFin) && 1 <= nFin <= n && DataPages(g, nFin) == DataPages(g, n)
    ensures DataSet(g, nFin) == DataSet(g, n)
  {
    hide PtrmapPageno;
    nFin := n;
    while IsMap(g, nFin) || nFin == g.pending
      invariant nFin <= n && DataPages(g, nFin) == DataPages(g, n) && DataSet(g, nFin) == DataSet(g, n)
      decreases nFin
    {
      DataStep(g, nFin);
      nFin := nFin - 1;
    }
    assert DataPages(g, 0) == 0;
  }

  lemma {:induction false} DataStep(g: Geometry, n: nat)
    requires Special(g, n) && DataPages(g, n) > 0
    ensures n > 1 && DataPages(g, n - 1) == DataPages(g, n)
  {
    assert DataPages(g, 0) == 0;
  }

  // ------------------------------------------------------------------ what moving pages preserves

  function MovedTo(f: map<nat, nat>, p: nat): nat
  {
    if p in f then f[p] else p
  }

  /** The page with every pointer redirected to where its target has gone. */
  function MapPage(pg: PageData, f: map<nat, nat>): PageData
  {
    match pg
    case BtreePage(leaf, cells, right, data) =>
      BtreePage(leaf, seq(|cells|, (i: int) requires 0 <= i < |cells| => MapCell(cells[i], leaf, f)),
                if leaf then right else MovedTo(f, right), data)
    case OvflPage(next, data) => OvflPage(if next == 0 then 0 else MovedTo(f, next), data)
  }

  function MapCell(c: Cell, leaf: bool, f: map<nat, nat>): Cell
  {
    Cell(if leaf then c.left else MovedTo(f, c.left), if c.ovfl == 0 then 0 else MovedTo(f, c.ovfl), c.data)
  }

  /** The used pages of `c1` are those of `c0`, each at its new number and with its pointers following:
      the same trees and overflow chains. */
  ghost predicate SameTrees(c0: map<nat, PageData>, c1: map<nat, PageData>, f: map<nat, nat>)
  {
    && f.Keys == c0.Keys
    && (forall p :: p in c0 ==> Carried(c0, c1, f, p))
    && (forall p, q :: p in c0 && q in c0 && p != q ==> f[p] != f[q])
    && (forall q :: q in c1 ==> Reached(c0, f, q))
  }

  ghost predicate Carried(c0: map<nat, PageData>, c1: map<nat, PageData>, f: map<nat, nat>, p: nat)
    requires p in c0 && p in f
  {
    f[p] in c1 && c1[f[p]] == MapPage(c0[p], f)
  }

  ghost predicate Reached(c0: map<nat, PageData>, f: map<nat, nat>, q: nat)
    requires f.Keys == c0.Keys
  {
    exists p :: p in c0 && f[p] == q
  }

  ghost function Composed(f: map<nat, nat>, a: nat, b: nat): map<nat, nat>
  {
    map p | p in f :: Renamed(f[p], a, b)
  }

  ghost predicate Closed(c: map<nat, PageData>)
  {
    forall q, s :: q in c && HasSlot(c[q], s) ==> Target(c[q], s) in c
  }

  lemma {:induction false} SameTreesSelf(c: map<nat, PageData>) returns (f: map<nat, nat>)
    ensures SameTrees(c, c, f) && forall p :: p in c ==> f[p] == p
  {
    f := map p | p in c :: p;
    forall p | p in c ensures Carried(c, c, f, p) && Reached(c, f, p) {
      assert f[p] == p;
      if c[p].BtreePage? {
        assert forall i :: 0 <= i < |c[p].cells| ==> MapCell(c[p].cells[i], c[p].leaf, f) == c[p].cells[i];
        assert MapPage(c[p], f).cells == c[p].cells;
      }
    }
  }

  lemma {:induction false} ComposePage(c0: map<nat, PageData>, p: nat, f: map<nat, nat>, a: nat, b: nat)
    requires Closed(c0) && p in c0 && f.Keys == c0.Keys && forall t :: t in f ==> f[t] != 0
    ensures RenamePage(MapPage(c0[p], f), a, b) == MapPage(c0[p], Composed(f, a, b))
  {
    var pg, h := c0[p], Composed(f, a, b);
    if pg.BtreePage? {
      forall i | 0 <= i < |pg.cells|
        ensures RenameCell(MapCell(pg.cells[i], pg.leaf, f), pg.leaf, a, b) == MapCell(pg.cells[i], pg.leaf, h) {
        assert pg.cells[i].ovfl != 0 ==> HasSlot(pg, Ovfl(i)) && Target(pg, Ovfl(i)) in c0;
        assert !pg.leaf ==> HasSlot(pg, Left(i)) && Target(pg, Left(i)) in c0;
      }
      assert !pg.leaf ==> HasSlot(pg, Right) && Target(pg, Right) in c0;
      assert RenamePage(MapPage(pg, f), a, b).cells == MapPage(pg, h).cells;
    } else {
      assert pg.next != 0 ==> HasSlot(pg, Next) && Target(pg, Next) in c0;
    }
  }

  lemma {:induction false} ComposeOne(c0: map<nat, PageData>, c1: map<nat, PageData>, f: map<nat, nat>, a: nat, b: nat, p: nat)
    requires SameTrees(c0, c1, f) && Closed(c0) && a in c1 && b !in c1 && 0 !in c1
    requires p in c0
    ensures Carried(c0, RenameAll(c1, a, b), Composed(f, a, b), p)
  {
    hide MapPage, RenamePage, Closed;
    forall t | t in f ensures f[t] != 0 { assert Carried(c0, c1, f, t); }
    assert Carried(c0, c1, f, p);
    ComposePage(c0, p, f, a, b);
  }

  lemma {:induction false} ComposeReached(c0: map<nat, PageData>, c1: map<nat, PageData>, f: map<nat, nat>, a: nat, b: nat, q: nat)
    requires SameTrees(c0, c1, f) && Closed(c0) && a in c1 && b !in c1 && 0 !in c1
    requires q in RenameAll(c1, a, b)
    ensures Reached(c0, Composed(f, a, b), q)
  {
    var q0 := if q == b then a else q;
    assert Reached(c0, f, q0);
    var p :| p in c0 && f[p] == q0;
    assert Composed(f, a, b)[p] == q;
  }

  lemma {:induction false} ComposeApart(c0: map<nat, PageData>, c1: map<nat, PageData>, f: map<nat, nat>, a: nat, b: nat, p: nat, q: nat)
    requires SameTrees(c0, c1, f) && Closed(c0) && a in c1 && b !in c1 && 0 !in c1
    requires p in c0 && q in c0 && p != q
    ensures Composed(f, a, b)[p] != Composed(f, a, b)[q]
  {
    assert Carried(c0, c1, f, p) && Carried(c0, c1, f, q);
  }

  /** One more page renamed. */
  lemma {:induction false} Compose(c0: map<nat, PageData>, c1: map<nat, PageData>, f: map<nat, nat>, a: nat, b: nat)
    requires SameTrees(c0, c1, f) && Closed(c0) && a in c1 && b !in c1 && 0 !in c1
    ensures SameTrees(c0, RenameAll(c1, a, b), Composed(f, a, b))
  {
    hide Closed, RenameAll;
    var c2, h := RenameAll(c1, a, b), Composed(f, a, b);
    forall p | p in c0 ensures Carried(c0, c2, h, p) { ComposeOne(c0, c1, f, a, b, p); }
    forall q | q in c2 ensures Reached(c0, h, q) { ComposeReached(c0, c1, f, a, b, q); }
    forall p, q | p in c0 && q in c0 && p != q ensures h[p] != h[q] { ComposeApart(c0, c1, f, a, b, p, q); }
  }
}
