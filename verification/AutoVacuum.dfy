/** An auto-vacuum database (the part of struct BtShared that moving pages changes), the operations that
    shrink it (btree.c:3451-3861), and the placement of root pages when tables are created and dropped
    (btree.c:8735-8848, 9011-9068). */
module AutoVacuum {
  import opened PageMap
  import opened FinalSize
  import opened PageGraph
  import opened Vacuum
  import Counting
  import FreeChain
  import Freelist

  /** What the two page sets and the pointer map say of a database of `n` pages. */
  ghost predicate PagesOk(g: Geometry, n: nat, free: set<nat>, content: map<nat, PageData>, ptrmap: map<nat, Entry>, roots: set<nat>)
  {
    && Sensible(g) && g.entries < 0x1_0000 && 1 <= n <= 0x7fff_ffff && !Special(g, n)
    && free !! content.Keys && free + content.Keys == DataSet(g, n)
    && 1 in roots && Inverse(content, ptrmap, roots)
    && (forall p :: p in free ==> p in ptrmap && ptrmap[p].eType == FreePage)
  }

  /** During the commit: pages beyond `i` have been dealt with, `nFin` is the final size. */
  ghost predicate Committing(g: Geometry, nFin: nat, i: nat, free: set<nat>, content: map<nat, PageData>,
          ptrmap: map<nat, Entry>, roots: set<nat>)
  {
    && Sensible(g) && 1 <= nFin <= i && !Special(g, nFin)
    && |content.Keys| == DataPages(g, nFin) && content.Keys <= DataSet(g, i)
    && free !! content.Keys && (forall p :: p in free ==> p > 0 && !Special(g, p))
    && (forall p :: p in DataSet(g, nFin) ==> p in content || p in free)
    && (forall p :: p in DataSet(g, i) && p !in content ==> p in ptrmap && ptrmap[p].eType == FreePage)
    && (forall r :: r in roots ==> r <= nFin)
    && Inverse(content, ptrmap, roots)
  }

  /** Every root page but the first, which has none, is entered as one in the pointer map. */
  ghost predicate RootsEntered(ptrmap: map<nat, Entry>, roots: set<nat>)
  {
    forall r :: r in roots && r >= 2 ==> IsEntered(ptrmap, r)
  }

  ghost predicate IsEntered(ptrmap: map<nat, Entry>, r: nat)
  {
    r in ptrmap && ptrmap[r] == Entry(RootPage, 0)
  }

  class BtShared {
    const g: Geometry
    /** The freelist and the number of pages. */
    const store: Freelist.PageStore
    var content: map<nat, PageData>
    var ptrmap: map<nat, Entry>
    ghost var roots: set<nat>
    /** meta[4]: the largest root page. */
    var largestRoot: nat

    /** The pages on the freelist. */
    ghost function Free(): set<nat>
      reads store
    {
      FreeChain.Support(FreeChain.Bag(store.chain))
    }

    ghost predicate Tied()
      reads store
    {
      store.Valid() && store.autoVacuum && store.g == g
    }

    ghost predicate Valid()
      reads this, store
    {
      Tied() && PagesOk(g, store.nPage, Free(), content, ptrmap, roots)
    }

    /** The root pages lie among the first pages, as many as there are used pages. */
    ghost predicate RootsFirst()
      reads this, store
    {
      forall r :: r in roots ==> DataPages(g, r) <= DataPages(g, store.nPage) - |Free()|
    }

    /** The root pages are the first data pages, up to `largestRoot`, and entered as such. */
    ghost predicate RootsPacked()
      reads this
    {
      !Special(g, largestRoot) && roots == DataSet(g, largestRoot) && RootsEntered(ptrmap, roots)
    }

    /** A database of one page, the root of the schema table. */
    constructor (g: Geometry, usableSize: nat)
      requires Sensible(g) && 2 <= g.entries < 0x1_0000 && usableSize > 64
      ensures Valid() && RootsPacked() && fresh(store) && store.nPage == 1 && Free() == {}
      ensures content == map[1 := EmptyLeaf(0)] && roots == {1} && largestRoot == 1
    {
      this.g := g;
      store := new Freelist.PageStore(g, true, usableSize);
      content, ptrmap, roots, largestRoot := map[1 := EmptyLeaf(0)], map[], {1}, 1;
      new;
      OnePage(g);
    }

    // ---------------------------------------------------------------- moving one page

    /** setChildPtrmaps. */
    method SetChildPtrmaps(pgno: nat)
      requires pgno in content && content[pgno].BtreePage? && OneEach(content[pgno])
      modifies `ptrmap
      ensures ChildrenSet(content[pgno], pgno, old(ptrmap), ptrmap, (s: Slot) => true)
    {
      hide ChildrenSet, OneEach;
      var pg := content[pgno];
      ghost var before := ptrmap;
      var i := 0;
      ChildrenNone(pg, pgno, ptrmap);
      while i < |pg.cells|
        invariant i <= |pg.cells|
        invariant ChildrenSet(pg, pgno, before, ptrmap, (s: Slot) => InCells(s, i))
      {
        ghost var done := (s: Slot) => InCells(s, i);
        if pg.cells[i].ovfl != 0 {
          SetOne(pg, pgno, before, ptrmap, done, Ovfl(i), (s: Slot) => InCells(s, i) || s == Ovfl(i));
          ptrmap := ptrmap[pg.cells[i].ovfl := Entry(Overflow1, pgno)];
        } else {
          SetNone(pg, pgno, before, ptrmap, done, (s: Slot) => InCells(s, i) || s == Ovfl(i));
        }
        if !pg.leaf {
          SetOne(pg, pgno, before, ptrmap, (s: Slot) => InCells(s, i) || s == Ovfl(i), Left(i), (s: Slot) => InCells(s, i + 1));
          ptrmap := ptrmap[pg.cells[i].left := Entry(Btree, pgno)];
        } else {
          SetNone(pg, pgno, before, ptrmap, (s: Slot) => InCells(s, i) || s == Ovfl(i), (s: Slot) => InCells(s, i + 1));
        }
        i := i + 1;
      }
      if !pg.leaf {
        SetOne(pg, pgno, before, ptrmap, (s: Slot) => InCells(s, i), Right, (s: Slot) => true);
        ptrmap := ptrmap[pg.right := Entry(Btree, pgno)];
      } else {
        SetNone(pg, pgno, before, ptrmap, (s: Slot) => InCells(s, i), (s: Slot) => true);
      }
    }

    /** modifyPagePointer: the one pointer to `iFrom` on page `pgno`, at slot `s`, becomes a pointer to
        `iTo`. */
    method ModifyPagePointer(pgno: nat, iFrom: nat, iTo: nat, eType: PtrType, ghost s: Slot)
      requires pgno in content && OneEach(content[pgno])
      requires HasSlot(content[pgno], s) && KindOf(s) == eType && Target(content[pgno], s) == iFrom
      modifies `content
      ensures content == old(content)[pgno := RenamePage(old(content)[pgno], iFrom, iTo)]
    {
      var pg := content[pgno];
      SetSlotRenames(pg, s, iFrom, iTo);
      hide RenamePage, OneEach;
      if eType == Overflow2 {
        if pg.next != iFrom {
          // SQLITE_CORRUPT: the pointer is not there
          assert false;
        }
        content := content[pgno := pg.(next := iTo)];
      } else {
        var i := FindCell(pg, iFrom, eType, s);
        if i < |pg.cells| {
          content := content[pgno := SetCell(pg, i, eType, iTo)];
        } else {
          if eType != Btree || pg.right != iFrom {
            // SQLITE_CORRUPT: the pointer is not there
            assert false;
          }
          content := content[pgno := pg.(right := iTo)];
        }
      }
    }

    /** relocatePage: page `iDbPage` moves to the unused page `iFreePage`.  The entry of a root page leads
        nowhere; it moves without one, to a page that is already entered as a root. */
    method RelocatePage(iDbPage: nat, eType: PtrType, iPtrPage: nat, iFreePage: nat)
      requires Inverse(content, ptrmap, roots) && iDbPage in content && (eType == RootPage <==> iDbPage in roots)
      requires eType != RootPage ==> iDbPage in ptrmap && ptrmap[iDbPage] == Entry(eType, iPtrPage)
      requires iFreePage !in content && iFreePage != 0
      requires eType == RootPage && iFreePage in ptrmap ==> ptrmap[iFreePage].eType == RootPage
      modifies `content, `ptrmap, `roots
      ensures content == RenameAll(old(content), iDbPage, iFreePage)
      ensures roots == RootsMoved(old(roots), iDbPage, iFreePage)
      ensures RenamedMap(old(content), Followed(old(ptrmap), old(roots), iDbPage), ptrmap, iDbPage, iFreePage)
      ensures Inverse(content, ptrmap, roots)
      ensures old(RootsEntered(ptrmap, roots)) && (eType == RootPage ==> old(IsEntered(ptrmap, iFreePage))) ==> RootsEntered(ptrmap, roots)
      ensures forall p :: p !in old(content) && p != iFreePage && p in old(ptrmap) ==> p in ptrmap && ptrmap[p] == old(ptrmap)[p]
    {
      hide Inverse, RenameAll, RenamedMap, OneEach, ChildrenSet, RenamePage, Mapped, Anchored, Followed, RootsEntered;
      ghost var c0, m0, r0 := content, ptrmap, roots;
      ghost var s := Right;
      if eType != RootPage { s := ParentOf(content, ptrmap, roots, iDbPage); }
      PageKind(c0, m0, r0, iDbPage);
      var pg := content[iDbPage];
      content := (content - {iDbPage})[iFreePage := pg];
      roots := RootsMoved(roots, iDbPage, iFreePage);
      if eType == Btree || eType == RootPage {
        SetChildPtrmaps(iFreePage);
      } else {
        var nextOvfl := pg.next;
        ChildrenNext(pg, iFreePage, ptrmap);
        if nextOvfl != 0 { ptrmap := ptrmap[nextOvfl := Entry(Overflow2, iFreePage)]; }
      }
      ghost var mid := ptrmap;
      if eType != RootPage {
        ModifyPagePointer(iPtrPage, iDbPage, iFreePage, eType, s);
        ptrmap := ptrmap[iFreePage := Entry(eType, iPtrPage)];
      }
      Relocated(c0, m0, r0, iDbPage, iFreePage, content);
      RelocatedMap(c0, m0, r0, iDbPage, iFreePage, mid);
      Undisturbed(c0, m0, r0, iDbPage, iFreePage, mid);
      RootEntries(c0, m0, ptrmap, r0, iDbPage, iFreePage, mid);
      RenameInverse(c0, m0, ptrmap, r0, iDbPage, iFreePage);
      StillEntered(c0, m0, ptrmap, r0, iDbPage, iFreePage, mid);
    }

    // ---------------------------------------------------------------- one step

    /** allocateBtreePage while the freelist is not empty; `isFree` is what the pointer map says of `near`
        in exact mode. */
    method Allocate(near: nat, eMode: Freelist.AllocMode, isFree: bool) returns (pg: nat)
      requires Tied() && Free() != {} && (eMode != Freelist.AllocAny ==> near > 0)
      requires eMode == Freelist.AllocExact ==> (isFree <==> near in Free())
      requires eMode == Freelist.AllocLe ==> exists p :: p in Free() && p <= near
      modifies store
      ensures Tied() && store.nPage == old(store.nPage)
      ensures pg in old(Free()) && Free() == old(Free()) - {pg}
      ensures eMode == Freelist.AllocExact && isFree ==> pg == near
      ensures eMode == Freelist.AllocLe ==> pg <= near
    {
      ghost var bag := FreeChain.Bag(store.chain);
      FreeCount(store);
      var rc;
      rc, pg := store.AllocateBtreePage(near, eMode, isFree);
      FreeChain.SupportLess(bag, pg);
    }

    /** The do-while loop of incrVacuumStep: free pages are taken off the list until one within the final
        size is found; without bCommit the first one is asked for. */
    method FindFree(nFin: nat, bCommit: bool) returns (iFreePg: nat)
      requires Tied() && exists p :: 0 < p <= nFin && p in Free()
      modifies store
      ensures Tied() && store.nPage == old(store.nPage)
      ensures iFreePg in old(Free()) && iFreePg <= nFin && iFreePg !in Free() && Free() <= old(Free())
      ensures forall p :: p in old(Free()) && p <= nFin && p != iFreePg ==> p in Free()
      ensures !bCommit ==> Free() == old(Free()) - {iFreePg}
    {
      hide FreeChain.Bag;
      var iNear, eMode := 0, Freelist.AllocAny;
      if !bCommit { iNear, eMode := nFin, Freelist.AllocLe; }
      iFreePg := Allocate(iNear, eMode, false);
      while bCommit && iFreePg > nFin
        invariant Tied() && store.nPage == old(store.nPage)
        invariant iFreePg in old(Free()) && iFreePg !in Free() && Free() <= old(Free())
        invariant forall p :: p in old(Free()) && p <= nFin && p != iFreePg ==> p in Free()
        invariant !bCommit ==> iFreePg <= nFin && Free() == old(Free()) - {iFreePg}
        decreases |Free()|
      {
        ghost var was := Free();
        iFreePg := Allocate(iNear, eMode, false);
        assert was == Free() + {iFreePg};
      }
    }

    /** incrVacuumStep during a commit: page `iLastPg`, the last one that may be in use, is emptied; `b`
        is where it moves, zero if it need not move. */
    method CommitStep(nFin: nat, iLastPg: nat) returns (rc: Rc, ghost b: nat)
      requires Tied() && iLastPg > nFin && Committing(g, nFin, iLastPg, Free(), content, ptrmap, roots)
      modifies store, `content, `ptrmap, `roots
      ensures Tied() && store.nPage == old(store.nPage) && roots == old(roots)
      ensures rc == Ok ==> Committing(g, nFin, iLastPg - 1, Free(), content, ptrmap, roots)
      ensures rc == Done ==> Free() == {} && Committing(g, nFin, nFin, Free(), content, ptrmap, roots)
      ensures rc != Corrupt && Free() <= old(Free())
      ensures rc == Done <==> !IsMap(g, iLastPg) && iLastPg != g.pending && old(Free()) == {}
      ensures b == 0 ==> content == old(content)
      ensures old(RootsEntered(ptrmap, roots)) ==> RootsEntered(ptrmap, roots)
      ensures b != 0 ==> iLastPg in old(content) && b !in old(content) && b <= nFin && content == RenameAll(old(content), iLastPg, b)
    {
      hide Inverse, PtrmapPageno, RenameAll, RenamedMap, Committing, IsMap, FreeChain.Bag, FreeChain.Support, RootsEntered;
      b := 0;
      if IsMap(g, iLastPg) || iLastPg == g.pending {
        SkipSpecial(g, nFin, iLastPg, Free(), content, ptrmap, roots);
        return Ok, 0;
      }
      FreeCount(store);
      if store.nFree == 0 {
        AllPlaced(g, nFin, iLastPg, Free(), content, ptrmap, roots);
        return Done, 0;
      }
      LastPage(g, nFin, iLastPg, Free(), content, ptrmap, roots);
      var eType, iPtrPage := ptrmap[iLastPg].eType, ptrmap[iLastPg].parent;
      if eType == RootPage {
        // SQLITE_CORRUPT: a root page beyond the final size
        assert false;
      }
      if eType == FreePage {
        SkipFree(g, nFin, iLastPg, Free(), content, ptrmap, roots);
      } else {
        b := MoveDown(nFin, iLastPg, eType, iPtrPage);
      }
      rc := Ok;
    }

    /** The last page in use moves to a free page within the final size. */
    method MoveDown(nFin: nat, iLastPg: nat, eType: PtrType, iPtrPage: nat) returns (ghost b: nat)
      requires Tied() && iLastPg > nFin && Committing(g, nFin, iLastPg, Free(), content, ptrmap, roots)
      requires iLastPg in content && iLastPg !in roots && iLastPg in ptrmap && ptrmap[iLastPg] == Entry(eType, iPtrPage) && eType != RootPage
      modifies store, `content, `ptrmap, `roots
      ensures Tied() && store.nPage == old(store.nPage) && roots == old(roots)
      ensures Committing(g, nFin, iLastPg - 1, Free(), content, ptrmap, roots) && Free() <= old(Free())
      ensures old(RootsEntered(ptrmap, roots)) ==> RootsEntered(ptrmap, roots)
      ensures b !in old(content) && b != 0 && b <= nFin && content == RenameAll(old(content), iLastPg, b)
    {
      hide Inverse, RenamedMap, Special, Committing, RenameAll, FreeChain.Bag, FreeChain.Support, RootsEntered;
      RoomLeft(g, nFin, iLastPg, Free(), content, ptrmap, roots);
      ghost var f0 := Free();
      var iFreePg := FindFree(nFin, true);
      TargetFits(g, nFin, iLastPg, f0, content, ptrmap, roots, iFreePg);
      ghost var c0, m0 := content, ptrmap;
      RelocatePage(iLastPg, eType, iPtrPage, iFreePg);
      MovedDown(g, nFin, iLastPg, f0, Free(), c0, content, m0, ptrmap, roots, iFreePg);
      b := iFreePg;
    }

    /** The loop of autoVacuumCommit over the pages beyond the final size. */
    method CommitLoop(nOrig: nat, nFin: nat) returns (rc: Rc, ghost f: map<nat, nat>)
      requires Tied() && Committing(g, nFin, nOrig, Free(), content, ptrmap, roots) && Closed(content)
      modifies store, `content, `ptrmap, `roots
      ensures Tied() && store.nPage == old(store.nPage) && roots == old(roots)
      ensures rc != Corrupt && Committing(g, nFin, nFin, Free(), content, ptrmap, roots)
      ensures SameTrees(old(content), content, f) && f.Keys == old(content).Keys && forall p :: p in old(content) && p <= nFin ==> f[p] == p
      ensures nFin == nOrig ==> Free() == old(Free())
      ensures old(RootsEntered(ptrmap, roots)) ==> RootsEntered(ptrmap, roots)
    {
      hide Inverse, RenameAll, SameTrees, Committing, Closed, FreeChain.Bag, FreeChain.Support, RootsEntered;
      CommittingFacts(g, nFin, nOrig, Free(), content, ptrmap, roots);
      ghost var c0 := content;
      f := SameTreesSelf(content);
      SameKeys(content, content, f);
      rc := Ok;
      var iFree := nOrig;
      while iFree > nFin && rc == Ok
        invariant Tied() && store.nPage == old(store.nPage) && roots == old(roots)
        invariant nFin <= iFree && rc != Corrupt
        invariant rc == Ok ==> Committing(g, nFin, iFree, Free(), content, ptrmap, roots)
        invariant rc == Done ==> Free() == {} && Committing(g, nFin, nFin, Free(), content, ptrmap, roots)
        invariant SameTrees(c0, content, f) && f.Keys == c0.Keys && forall p :: p in c0 && p <= nFin ==> f[p] == p
        invariant iFree <= nOrig && (nFin == nOrig ==> Free() == old(Free()))
        invariant old(RootsEntered(ptrmap, roots)) ==> RootsEntered(ptrmap, roots)
        decreases iFree, if rc == Ok then 1 else 0
      {
        ghost var c1, m1 := content, ptrmap;
        ghost var b;
        CommittingFacts(g, nFin, iFree, Free(), content, ptrmap, roots);
        rc, b := CommitStep(nFin, iFree);
        if b != 0 {
          Compose(c0, c1, f, iFree, b);
          f := Composed(f, iFree, b);
          SameKeys(c0, content, f);
        }
        if rc == Ok { iFree := iFree - 1; }
      }
    }

    /** autoVacuumCommit (auto_vacuum=FULL): the database shrinks to its final size.  `f` tells where
        every used page has gone. */
    method AutoVacuumCommit() returns (rc: Rc, ghost f: map<nat, nat>)
      requires Valid() && RootsFirst()
      modifies store, `content, `ptrmap, `roots
      ensures rc == Ok
      ensures !Special(g, store.nPage) && DataPages(g, store.nPage) == old(DataPages(g, store.nPage) - |Free()|)
      ensures Free() == {} && content.Keys == DataSet(g, store.nPage)
      ensures Valid() && roots == old(roots)
      ensures old(RootsEntered(ptrmap, roots)) ==> RootsEntered(ptrmap, roots)
      ensures SameTrees(old(content), content, f) && forall p :: p in old(content) && p <= store.nPage ==> f[p] == p
    {
      hide Inverse, IsMap, SameTrees, Committing, PagesOk, Vacuumable, DataPages, DataSet, FreeChain.Bag, FreeChain.Support, RootsEntered;
      var nOrig := store.nPage;
      EndsInData(g, nOrig, Free(), content, ptrmap, roots);
      if IsMap(g, nOrig) || nOrig == g.pending {
        // SQLITE_CORRUPT: the database ends in a special page
        assert false;
      }
      FreeCount(store);
      var nFree := store.nFree;
      var nFin := FinalDbSize(g, nOrig, nFree);
      if nFin > nOrig {
        // SQLITE_CORRUPT: the final size exceeds the original one
        assert false;
      }
      StartCommit(g, nOrig, Free(), content, ptrmap, roots, nFin);
      rc, f := CommitLoop(nOrig, nFin);
      NoTrunks();
      CommitDone(g, nOrig, nFin, Free(), content, ptrmap, roots);
      if nFree > 0 {
        store.firstTrunk, store.nFree, store.nPage := 0, 0, nFin;
        store.chain := [];
      } else {
        FinalUnique(g, nOrig, nFree, nOrig, nFin);
      }
      rc := Ok;
    }

    /** sqlite3BtreeIncrVacuum: one step of an incremental vacuum.  The file loses its last data page, the
        freelist one page, and the final size stays what it was; `b` is where the last page moved, zero
        if it was free. */
    method IncrVacuum() returns (rc: Rc, ghost b: nat)
      requires Valid() && RootsFirst()
      modifies store, `content, `ptrmap, `roots
      ensures rc == if old(Free()) == {} then Done else Ok
      ensures Valid() && RootsFirst() && roots == old(roots)
      ensures rc == Done ==> store.nPage == old(store.nPage) && Free() == {} && content == old(content)
      ensures rc == Ok ==> store.nPage < old(store.nPage) && |Free()| == |old(Free())| - 1 && DataPages(g, store.nPage) == DataPages(g, old(store.nPage)) - 1
      ensures b == 0 ==> content == old(content)
      ensures old(RootsEntered(ptrmap, roots)) ==> RootsEntered(ptrmap, roots)
      ensures b != 0 ==> old(store.nPage) in old(content) && b !in old(content) && content == RenameAll(old(content), old(store.nPage), b)
      ensures b != 0 ==> DataPages(g, b) <= DataPages(g, store.nPage) - |Free()|
    {
      hide Inverse, PagesOk, RenameAll, Vacuumable, FreeChain.Bag, FreeChain.Support, RootsEntered;
      b := 0;
      FreeCount(store);
      var nOrig, nFree := store.nPage, store.nFree;
      EndsInData(g, nOrig, Free(), content, ptrmap, roots);
      var nFin := FinalDbSize(g, nOrig, nFree);
      if nOrig < nFin {
        // SQLITE_CORRUPT: the final size exceeds the original one
        assert false;
      }
      if nFree > 0 {
        b := IncrStep(nFin, nOrig);
        return Ok, b;
      }
      return Done, 0;
    }

    /** incrVacuumStep outside a commit. */
    method IncrStep(nFin: nat, iLastPg: nat) returns (ghost b: nat)
      requires Valid() && RootsFirst() && Free() != {} && iLastPg == store.nPage
      requires !Special(g, nFin) && nFin <= iLastPg && DataPages(g, nFin) == DataPages(g, store.nPage) - |Free()|
      modifies store, `content, `ptrmap, `roots
      ensures Valid() && RootsFirst() && roots == old(roots) && store.nPage < iLastPg
      ensures |Free()| == |old(Free())| - 1 && DataPages(g, store.nPage) == DataPages(g, iLastPg) - 1
      ensures b == 0 ==> content == old(content)
      ensures old(RootsEntered(ptrmap, roots)) ==> RootsEntered(ptrmap, roots)
      ensures b != 0 ==> iLastPg in old(content) && b !in old(content) && content == RenameAll(old(content), iLastPg, b)
      ensures b != 0 ==> DataPages(g, b) <= DataPages(g, store.nPage) - |Free()|
    {
      hide Inverse, PagesOk, RenameAll, Special, PtrmapPageno, RenamedMap, DataPages, FreeChain.Bag, FreeChain.Support, RootsEntered;
      b := 0;
      ghost var f0, c0, m0 := Free(), content, ptrmap;
      EndsInData(g, store.nPage, Free(), content, ptrmap, roots);
      LastOfFile(g, store.nPage, Free(), content, ptrmap, roots, nFin);
      var eType, iPtrPage := ptrmap[iLastPg].eType, ptrmap[iLastPg].parent;
      if eType == RootPage {
        // SQLITE_CORRUPT: a root page at the end of the file
        assert false;
      }
      if eType == FreePage {
        var iFreePg := Allocate(iLastPg, Freelist.AllocExact, eType == FreePage);
      } else {
        b := MoveBack(nFin, iLastPg, eType, iPtrPage);
      }
      CutFile(iLastPg, f0, c0, m0, b);
    }

    /** The last page of the file moves to a free page within the final size. */
    method MoveBack(nFin: nat, iLastPg: nat, eType: PtrType, iPtrPage: nat) returns (b: nat)
      requires Valid() && iLastPg in content && iLastPg !in roots && eType != RootPage
      requires iLastPg in ptrmap && ptrmap[iLastPg] == Entry(eType, iPtrPage) && exists p :: 0 < p <= nFin && p in Free()
      modifies store, `content, `ptrmap, `roots
      ensures Tied() && store.nPage == old(store.nPage) && roots == old(roots) && Inverse(content, ptrmap, roots)
      ensures b != 0 && b in old(Free()) && Free() == old(Free()) - {b} && DataPages(g, b) <= DataPages(g, nFin)
      ensures b !in old(content) && content == RenameAll(old(content), iLastPg, b)
      ensures old(RootsEntered(ptrmap, roots)) ==> RootsEntered(ptrmap, roots)
      ensures forall p :: p !in old(content) && p != b && p in old(ptrmap) ==> p in ptrmap && ptrmap[p] == old(ptrmap)[p]
    {
      hide RenameAll, Special, PtrmapPageno, RenamedMap, FreeChain.Bag, FreeChain.Support, RootsEntered;
      b := FindFree(nFin, false);
      TargetFree(g, store.nPage, old(Free()), content, ptrmap, roots, b);
      RelocatePage(iLastPg, eType, iPtrPage, b);
      DataMonotone(g, b, nFin);
    }

    /** The file ends with the data page before `iLastPg`. */
    method CutFile(iLastPg: nat, ghost f0: set<nat>, ghost c0: map<nat, PageData>, ghost m0: map<nat, Entry>, ghost b: nat)
      requires Tied() && PagesOk(g, iLastPg, f0, c0, m0, roots) && Inverse(content, ptrmap, roots) && DataPages(g, iLastPg) >= 2
      requires b == 0 ==> iLastPg in f0 && Free() == f0 - {iLastPg} && content == c0 && ptrmap == m0
      requires b != 0 ==> b in f0 && iLastPg in c0 && b !in c0 && Free() == f0 - {b} && content == RenameAll(c0, iLastPg, b)
      requires b != 0 ==> forall p :: p !in c0 && p != b && p in m0 ==> p in ptrmap && ptrmap[p] == m0[p]
      modifies store
      ensures Valid() && store.nPage < iLastPg && Free() == old(Free()) && |Free()| == |f0| - 1
      ensures DataPages(g, store.nPage) == DataPages(g, iLastPg) - 1
    {
      hide Inverse, PagesOk, RenameAll, Special, PtrmapPageno, FreeChain.Bag, FreeChain.Support;
      EndsInData(g, iLastPg, f0, c0, m0, roots);
      ShrinkFacts(g, iLastPg, f0);
      var nLeft := DropSpecial(g, iLastPg - 1);
      Shrunk(g, iLastPg, nLeft, f0, Free(), c0, content, m0, ptrmap, roots, b);
      FreeWithin(g, store.chain, store.nPage, nLeft, Free(), content, ptrmap, roots);
      store.nPage := nLeft;
    }

    // ---------------------------------------------------------------- root pages

    /** As long as the roots are packed, vacuuming finds them within the final size. */
    lemma PackedFirst()
      requires Valid() && RootsPacked()
      ensures RootsFirst()
    {
      hide PagesOk;
      RootsBelow(g, store.nPage, Free(), content, ptrmap, roots, largestRoot);
    }

    /** btreeCreateTable, as far as the place of the root page goes: it is the first data page after the
        largest root, and a page that is in the way moves to `pgnoMove`. */
    method CreateRoot(data: int) returns (rc: Rc, pgnoRoot: nat, ghost pgnoMove: nat)
      requires Valid() && RootsPacked() && store.nPage <= 0x7fff_fff0
      modifies this, store
      ensures rc == Ok && Valid() && RootsPacked()
      ensures pgnoRoot !in old(roots) && largestRoot == pgnoRoot && roots == old(roots) + {pgnoRoot}
      ensures pgnoMove !in old(content) && (pgnoRoot !in old(content) <==> pgnoMove == pgnoRoot)
      ensures content == (if pgnoRoot in old(content) then RenameAll(old(content), pgnoRoot, pgnoMove) else old(content))[pgnoRoot := EmptyLeaf(data)]
    {
      hide PagesOk, Inverse, RenameAll, RenamedMap, Special, DataSet, FreeChain.Bag, FreeChain.Support, RootsEntered;
      ghost var f0, n0, c0, m0 := Free(), store.nPage, content, ptrmap;
      RootsInFile(g, n0, f0, c0, m0, roots, largestRoot);
      pgnoRoot := NextRoot(g, largestRoot);
      RootPlace(g, n0, f0, c0, m0, roots, largestRoot, pgnoRoot);
      var iMove := TakePage(pgnoRoot);
      pgnoMove := iMove;
      PlaceTaken(g, n0, store.nPage, f0, c0, m0, roots, largestRoot, pgnoRoot, iMove);
      if iMove != pgnoRoot {
        var eType, iPtrPage := ptrmap[pgnoRoot].eType, ptrmap[pgnoRoot].parent;
        if eType == RootPage || eType == FreePage {
          // SQLITE_CORRUPT: the page in the way is a root or free
          assert false;
        }
        RelocatePage(pgnoRoot, eType, iPtrPage, iMove);
      }
      RootAdded(g, n0, store.nPage, f0, Free(), c0, content, m0, ptrmap, roots, largestRoot, pgnoRoot, iMove, data);
      OneMoreEntered(ptrmap, roots, pgnoRoot);
      ptrmap := ptrmap[pgnoRoot := Entry(RootPage, 0)];
      content := content[pgnoRoot := EmptyLeaf(data)];
      roots := roots + {pgnoRoot};
      largestRoot := pgnoRoot;
      rc := Ok;
    }

    /** allocateBtreePage in exact mode, from the freelist or at the end of the file. */
    method TakePage(near: nat) returns (pg: nat)
      requires Valid() && 0 < near && store.nPage <= 0x7fff_fff0
      requires near <= store.nPage ==> near in ptrmap && (ptrmap[near].eType == FreePage <==> near in Free())
      modifies store
      ensures Tied() && Free() == old(Free()) - {pg}
      ensures old(Free()) != {} ==> pg in old(Free()) && store.nPage == old(store.nPage) && (near in old(Free()) ==> pg == near)
      ensures old(Free()) == {} ==> store.nPage == pg > old(store.nPage) && !Special(g, pg) && DataSet(g, pg) == DataSet(g, old(store.nPage)) + {pg}
    {
      hide PagesOk, FreeChain.Bag, IsMap;
      ghost var bag, n0 := FreeChain.Bag(store.chain), store.nPage;
      FreeCount(store);
      FreeInFile(store);
      var isFree := near <= store.nPage && ptrmap[near].eType == FreePage;
      var rc;
      rc, pg := store.AllocateBtreePage(near, Freelist.AllocExact, isFree);
      if pg in bag { FreeChain.SupportLess(bag, pg); }
      if bag == multiset{} { NextData(g, n0, pg); }
    }

    /** The end of btreeDropTable, after the table has been cleared: the largest root moves to the place of
        the dropped one, and its old page is freed. */
    method DropRoot(iTable: nat) returns (piMoved: nat)
      requires Valid() && RootsPacked() && iTable in roots && iTable >= 2
      requires forall s :: !HasSlot(content[iTable], s)
      modifies this, store
      ensures Valid() && RootsPacked()
      ensures piMoved == if iTable == old(largestRoot) then 0 else old(largestRoot)
      ensures roots == old(roots) - {old(largestRoot)} && Free() == old(Free()) + {old(largestRoot)} && store.nPage == old(store.nPage)
      ensures content == if piMoved == 0 then old(content) - {iTable} else RenameAll(old(content) - {iTable}, piMoved, iTable)
    {
      hide PagesOk, Inverse, RenameAll, RenamedMap, Special, DataSet, FreeChain.Bag, FreeChain.Support, RootsEntered;
      ghost var f0, c0, m0, r0 := Free(), content, ptrmap, roots;
      var maxRoot := largestRoot;
      RootsInFile(g, store.nPage, f0, c0, m0, r0, maxRoot);
      RootCleared(g, store.nPage, f0, c0, m0, r0, maxRoot, iTable);
      OneLessEntered(ptrmap, roots, iTable);
      content, roots := content - {iTable}, roots - {iTable};
      piMoved := 0;
      if iTable != maxRoot {
        RelocatePage(maxRoot, RootPage, 0, iTable);
        piMoved := maxRoot;
      }
      RootFreed(g, store.nPage, f0, c0, content, m0, ptrmap, r0, maxRoot, iTable);
      FreePage2(maxRoot);
      NotEntered(ptrmap, roots, maxRoot);
      ptrmap := ptrmap[maxRoot := Entry(FreePage, 0)];
      largestRoot := DropSpecial(g, maxRoot - 1);
      RootsFewer(g, r0, maxRoot, largestRoot);
    }

    /** freePage2 on the freelist. */
    method FreePage2(p: nat)
      requires Tied() && 2 <= p <= store.nPage && p !in Free()
      modifies store
      ensures Tied() && store.nPage == old(store.nPage) && Free() == old(Free()) + {p}
    {
      hide FreeChain.Bag;
      FreeCount(store);
      FreeChain.SupportMore(FreeChain.Bag(store.chain), p);
      store.FreePage2(p);
    }
  }

  // ------------------------------------------------------------------ root pages

  lemma {:induction false} OneMoreEntered(ptrmap: map<nat, Entry>, roots: set<nat>, r: nat)
    ensures RootsEntered(ptrmap, roots) ==> RootsEntered(ptrmap[r := Entry(RootPage, 0)], roots + {r})
  {
    forall q | RootsEntered(ptrmap, roots) && q in roots + {r} && q >= 2 ensures IsEntered(ptrmap[r := Entry(RootPage, 0)], q) {
      if q != r { assert IsEntered(ptrmap, q); }
    }
  }

  lemma {:induction false} OneLessEntered(ptrmap: map<nat, Entry>, roots: set<nat>, r: nat)
    requires r in roots && r >= 2
    ensures RootsEntered(ptrmap, roots) ==> RootsEntered(ptrmap, roots - {r}) && IsEntered(ptrmap, r)
  {
  }

  lemma {:induction false} NotEntered(ptrmap: map<nat, Entry>, roots: set<nat>, r: nat)
    requires r !in roots
    ensures RootsEntered(ptrmap, roots) ==> RootsEntered(ptrmap[r := Entry(FreePage, 0)], roots)
  {
    forall q | RootsEntered(ptrmap, roots) && q in roots && q >= 2 ensures IsEntered(ptrmap[r := Entry(FreePage, 0)], q) {
      assert IsEntered(ptrmap, q);
    }
  }

  lemma {:induction false} RootsBelow(g: Geometry, n: nat, free: set<nat>, content: map<nat, PageData>,
          ptrmap: map<nat, Entry>, roots: set<nat>, largestRoot: nat)
    requires PagesOk(g, n, free, content, ptrmap, roots) && roots == DataSet(g, largestRoot)
    ensures forall r :: r in roots ==> DataPages(g, r) <= DataPages(g, n) - |free|
  {
    EndsInData(g, n, free, content, ptrmap, roots);
    DataSetIs(g, largestRoot);
    Counting.SubsetSize(roots, content.Keys);
    forall r | r in roots ensures DataPages(g, r) <= DataPages(g, largestRoot) { DataMonotone(g, r, largestRoot); }
  }

  /** The first page after `last` that is no special page. */
  ghost predicate NextIs(g: Geometry, last: nat, next: nat)
  {
    next > last && !Special(g, next) && forall p :: last < p < next ==> Special(g, p)
  }

  /** The loop of btreeCreateTable that looks for the place of a root page. */
  method NextRoot(g: Geometry, largestRoot: nat) returns (pgnoRoot: nat)
    requires Sensible(g) && g.entries >= 2
    ensures NextIs(g, largestRoot, pgnoRoot)
  {
    hide PtrmapPageno;
    pgnoRoot := largestRoot + 1;
    NoThree(g, pgnoRoot);
    while pgnoRoot == PtrmapPageno(g, pgnoRoot) || pgnoRoot == g.pending
      invariant largestRoot < pgnoRoot <= largestRoot + 3 && forall p :: largestRoot < p < pgnoRoot ==> Special(g, p)
      decreases largestRoot + 3 - pgnoRoot
    {
      pgnoRoot := pgnoRoot + 1;
    }
  }

  lemma {:induction false} RootsInFile(g: Geometry, n: nat, free: set<nat>, content: map<nat, PageData>,
          ptrmap: map<nat, Entry>, roots: set<nat>, last: nat)
    requires PagesOk(g, n, free, content, ptrmap, roots) && roots == DataSet(g, last)
    ensures Sensible(g) && Inverse(content, ptrmap, roots) && roots <= content.Keys && 1 in roots
    ensures !Special(g, last) ==> 1 <= last <= n && last in roots
  {
    DataSetIs(g, last);
    DataSetIs(g, n);
  }

  /** The page next to the largest root is free, in use but no root, or beyond the file; in the last case
      no page is free. */
  lemma {:induction false} RootPlace(g: Geometry, n: nat, free: set<nat>, content: map<nat, PageData>,
          ptrmap: map<nat, Entry>, roots: set<nat>, last: nat, r: nat)
    requires PagesOk(g, n, free, content, ptrmap, roots) && roots == DataSet(g, last) && !Special(g, last) && NextIs(g, last, r)
    ensures r > 0 && r !in roots && roots + {r} == DataSet(g, r)
    ensures r <= n ==> r in ptrmap && (ptrmap[r].eType == FreePage <==> r in free) && (r in free || r in content)
    ensures r in content ==> r !in free && ptrmap[r].eType != RootPage
    ensures r > n ==> free == {} && r !in content
  {
    NextData(g, last, r);
    RootsInFile(g, n, free, content, ptrmap, roots, last);
    PlaceInFile(g, n, free, content, ptrmap, roots, r);
    hide Inverse, Special, DataSet;
    InFile(g, n);
    if r > n {
      SameData(g, last, n, r);
      NoneLeft(roots, free, content.Keys);
    }
  }

  /** A data page that is no root. */
  lemma {:induction false} PlaceInFile(g: Geometry, n: nat, free: set<nat>, content: map<nat, PageData>,
          ptrmap: map<nat, Entry>, roots: set<nat>, r: nat)
    requires PagesOk(g, n, free, content, ptrmap, roots) && r > 0 && r !in roots && !Special(g, r)
    ensures r <= n ==> r in ptrmap && (ptrmap[r].eType == FreePage <==> r in free) && (r in free || r in content)
    ensures r in content ==> r !in free && ptrmap[r].eType != RootPage
  {
    if r in content { var s := ParentOf(content, ptrmap, roots, r); }
    hide Inverse;
    DataSetIs(g, n);
  }

  lemma {:induction false} SameData(g: Geometry, last: nat, n: nat, r: nat)
    requires NextIs(g, last, r) && last <= n < r
    ensures DataSet(g, n) == DataSet(g, last)
  {
    DataSetIs(g, last);
    DataSetIs(g, n);
  }

  lemma {:induction false} NoneLeft(roots: set<nat>, free: set<nat>, used: set<nat>)
    requires free !! used && free + used == roots <= used
    ensures free == {}
  {
    assert free == free * used;
  }

  lemma {:induction false} NextData(g: Geometry, last: nat, next: nat)
    requires NextIs(g, last, next)
    ensures DataSet(g, next) == DataSet(g, last) + {next} && next !in DataSet(g, last)
  {
    DataSetIs(g, last);
    DataSetIs(g, next);
  }

  lemma {:induction false} FreeInFile(store: Freelist.PageStore)
    requires store.Valid()
    ensures forall p :: p in FreeChain.Support(FreeChain.Bag(store.chain)) ==> p <= store.nPage
  {
  }

  /** The page that was allocated for the new root is the wanted one, unless that one is in use. */
  lemma {:induction false} PlaceTaken(g: Geometry, n: nat, n': nat, free: set<nat>, content: map<nat, PageData>,
          ptrmap: map<nat, Entry>, roots: set<nat>, last: nat, r: nat, pg: nat)
    requires PagesOk(g, n, free, content, ptrmap, roots) && roots == DataSet(g, last) && !Special(g, last) && NextIs(g, last, r) && last <= n
    requires free != {} ==> pg in free && n' == n && (r in free ==> pg == r)
    requires free == {} ==> n' == pg > n && !Special(g, pg) && DataSet(g, pg) == DataSet(g, n) + {pg}
    ensures pg != 0 && pg !in content && (pg == r <==> r !in content) && pg in DataSet(g, n') && !Special(g, n')
    ensures r in content ==> r in ptrmap && r !in roots && ptrmap[r].eType != RootPage && ptrmap[r].eType != FreePage
    ensures DataSet(g, n') == (free - {pg}) + content.Keys + {pg}
  {
    RootPlace(g, n, free, content, ptrmap, roots, last, r);
    hide Inverse, Special, IsMap, PtrmapPageno, DataSet;
    InFile(g, n);
    if free == {} {
      Appended(g, n, last, r, pg);
    }
  }

  lemma {:induction false} InFile(g: Geometry, n: nat)
    ensures forall p :: p in DataSet(g, n) ==> 0 < p <= n
  {
    DataSetIs(g, n);
  }

  /** When the place of the new root is beyond the file, it is the page that is appended. */
  lemma {:induction false} Appended(g: Geometry, n: nat, last: nat, r: nat, pg: nat)
    requires NextIs(g, last, r) && last <= n < pg && !Special(g, pg) && DataSet(g, pg) == DataSet(g, n) + {pg}
    ensures r > n ==> pg == r
  {
    hide PtrmapPageno;
    if r > n {
      assert pg >= r;
      DataSetIs(g, pg);
      InFile(g, n);
      assert r in DataSet(g, pg);
    }
  }

  /** A new root, an empty page. */
  lemma {:induction false} AddRoot(content: map<nat, PageData>, ptrmap: map<nat, Entry>, roots: set<nat>, r: nat, data: int)
    requires Inverse(content, ptrmap, roots) && r !in content && r != 0
    ensures Inverse(content[r := EmptyLeaf(data)], ptrmap[r := Entry(RootPage, 0)], roots + {r})
  {
    var c', m' := content[r := EmptyLeaf(data)], ptrmap[r := Entry(RootPage, 0)];
    forall q, s | q in c' && HasSlot(c'[q], s)
      ensures Mapped(c', m', q, s) && Target(c'[q], s) != q && Target(c'[q], s) !in roots + {r} {
      assert Mapped(content, ptrmap, q, s);
    }
    forall p | p in c' && p !in roots + {r} ensures p in m' && Anchored(c', m', p) {
      assert Anchored(content, ptrmap, p);
      var e := ptrmap[p];
      var s :| HasSlot(content[e.parent], s) && KindOf(s) == e.eType && Target(content[e.parent], s) == p;
      assert HasSlot(c'[e.parent], s);
    }
  }

  lemma {:induction false} RootAdded(g: Geometry, n: nat, n': nat, f0: set<nat>, free: set<nat>,
          c0: map<nat, PageData>, content: map<nat, PageData>, m0: map<nat, Entry>, ptrmap: map<nat, Entry>,
          roots: set<nat>, last: nat, r: nat, pg: nat, data: int)
    requires PagesOk(g, n, f0, c0, m0, roots) && n' <= 0x7fff_ffff && !Special(g, n') && free == f0 - {pg}
    requires DataSet(g, n') == free + c0.Keys + {pg} && roots == DataSet(g, last) && !Special(g, last) && NextIs(g, last, r)
    requires pg !in c0 && pg != 0 && (pg == r <==> r !in c0)
    requires pg == r ==> content == c0 && ptrmap == m0
    requires pg != r ==> content == RenameAll(c0, r, pg) && Inverse(content, ptrmap, roots)
    requires pg != r ==> forall p :: p !in c0 && p != pg && p in m0 ==> p in ptrmap && ptrmap[p] == m0[p]
    ensures PagesOk(g, n', free, content[r := EmptyLeaf(data)], ptrmap[r := Entry(RootPage, 0)], roots + {r})
    ensures roots + {r} == DataSet(g, r) && !Special(g, r) && r !in roots
  {
    hide Inverse, Special, DataSet;
    RootPlace(g, n, f0, c0, m0, roots, last, r);
    assert n' >= 1 && Inverse(c0, m0, roots) by { DataSetIs(g, n'); }
    if pg != r { RenamedKeys(c0, r, pg); }
    assert r !in content;
    AddRoot(content, ptrmap, roots, r, data);
    var c', m' := content[r := EmptyLeaf(data)], ptrmap[r := Entry(RootPage, 0)];
    assert c'.Keys == c0.Keys + {pg};
    forall p | p in free ensures p in m' && m'[p].eType == FreePage { assert p in m0 && p !in c0; }
  }

  /** The dropped root, once cleared, can be left out: it points nowhere and nothing points to it. */
  lemma {:induction false} RootCleared(g: Geometry, n: nat, free: set<nat>, content: map<nat, PageData>,
          ptrmap: map<nat, Entry>, roots: set<nat>, last: nat, r: nat)
    requires PagesOk(g, n, free, content, ptrmap, roots) && roots == DataSet(g, last) && !Special(g, last)
    requires r in roots && r >= 2 && forall s :: !HasSlot(content[r], s)
    ensures Inverse(content - {r}, ptrmap, roots - {r}) && 2 <= r <= last
    ensures r in ptrmap ==> ptrmap[r].eType == RootPage
    ensures r != last ==> last in content - {r} && last in roots - {r}
    ensures r != last ==> RootsMoved(roots - {r}, last, r) == roots - {last}
  {
    hide PagesOk, DataSet, Special, Inverse, HasSlot, RootsMoved;
    RootsInFile(g, n, free, content, ptrmap, roots, last);
    DataSetIs(g, last);
    RootGone(content, ptrmap, roots, r);
    LastMoved(roots, last, r);
  }

  lemma {:induction false} LastMoved(roots: set<nat>, last: nat, r: nat)
    requires last in roots && r in roots
    ensures r != last ==> RootsMoved(roots - {r}, last, r) == roots - {last}
  {
  }

  /** A root that no pointer leads from may go. */
  lemma {:induction false} RootGone(content: map<nat, PageData>, ptrmap: map<nat, Entry>, roots: set<nat>, r: nat)
    requires Inverse(content, ptrmap, roots) && r in content && r in roots && forall s :: !HasSlot(content[r], s)
    ensures Inverse(content - {r}, ptrmap, roots - {r}) && (r in ptrmap ==> ptrmap[r].eType == RootPage)
  {
    var c', roots' := content - {r}, roots - {r};
    forall q, s | q in c' && HasSlot(c'[q], s)
      ensures Mapped(c', ptrmap, q, s) && Target(c'[q], s) != q && Target(c'[q], s) !in roots' {
      assert Mapped(content, ptrmap, q, s);
    }
    forall p | p in c' && p !in roots' ensures p in ptrmap && Anchored(c', ptrmap, p) {
      assert Anchored(content, ptrmap, p);
      var e := ptrmap[p];
      var s :| HasSlot(content[e.parent], s) && KindOf(s) == e.eType && Target(content[e.parent], s) == p;
      assert HasSlot(c'[e.parent], s);
    }
  }

  /** The entry of an unused page may change. */
  lemma {:induction false} UnusedEntry(content: map<nat, PageData>, ptrmap: map<nat, Entry>, roots: set<nat>, p: nat, e: Entry)
    requires Inverse(content, ptrmap, roots) && p !in content
    ensures Inverse(content, ptrmap[p := e], roots)
  {
    var m' := ptrmap[p := e];
    forall q, s | q in content && HasSlot(content[q], s) ensures Mapped(content, m', q, s) { assert Mapped(content, ptrmap, q, s); }
    forall q | q in content && q !in roots ensures q in m' && Anchored(content, m', q) { assert Anchored(content, ptrmap, q); }
  }

  lemma {:induction false} RootFreed(g: Geometry, n: nat, f0: set<nat>, c0: map<nat, PageData>,
          content: map<nat, PageData>, m0: map<nat, Entry>, ptrmap: map<nat, Entry>, roots: set<nat>, last: nat,
          r: nat)
    requires PagesOk(g, n, f0, c0, m0, roots) && roots == DataSet(g, last) && !Special(g, last) && r in roots && 2 <= r <= last
    requires r != last ==> last in c0 - {r} && content == RenameAll(c0 - {r}, last, r)
    requires r != last ==> forall p :: p !in c0 - {r} && p != r && p in m0 ==> p in ptrmap && ptrmap[p] == m0[p]
    requires r == last ==> content == c0 - {r} && ptrmap == m0
    requires Inverse(content, ptrmap, roots - {last})
    ensures 2 <= last <= n && last !in f0 && DataPages(g, last - 1) > 0
    ensures PagesOk(g, n, f0 + {last}, content, ptrmap[last := Entry(FreePage, 0)], roots - {last})
  {
    RootsInFile(g, n, f0, c0, m0, roots, last);
    hide Inverse, Special, DataSet, DataPages, RenameAll;
    DataMonotone(g, 1, last - 1);
    OnlyOne(g);
    if r != last { RenamedKeys(c0 - {r}, last, r); }
    assert content.Keys == c0.Keys - {last};
    FreedSets(f0, c0.Keys, content.Keys, last);
    UnusedEntry(content, ptrmap, roots - {last}, last, Entry(FreePage, 0));
    forall p | p in f0 ensures p in ptrmap && ptrmap[p].eType == FreePage { assert p in m0 && p !in c0; }
  }

  lemma {:induction false} FreedSets(free: set<nat>, used: set<nat>, left: set<nat>, p: nat)
    requires free !! used && p in used && left == used - {p}
    ensures p !in free && free + {p} !! left && (free + {p}) + left == free + used
  {
  }

  lemma {:induction false} OnlyOne(g: Geometry)
    requires Sensible(g)
    ensures DataPages(g, 1) == 1
  {
    assert DataPages(g, 0) == 0;
    assert !Special(g, 1);
  }

  lemma {:induction false} RootsFewer(g: Geometry, roots: set<nat>, last: nat, next: nat)
    requires roots == DataSet(g, last) && !Special(g, last) && last > 0 && DataSet(g, next) == DataSet(g, last - 1)
    ensures roots - {last} == DataSet(g, next)
  {
    DataSetIs(g, last - 1);
  }

  function EmptyLeaf(data: int): PageData
  {
    BtreePage(true, [], 0, data)
  }

  lemma {:induction false} OnePage(g: Geometry)
    requires Sensible(g) && 2 <= g.entries < 0x1_0000
    ensures PagesOk(g, 1, {}, map[1 := EmptyLeaf(0)], map[], {1}) && !Special(g, 1) && DataSet(g, 1) == {1}
    ensures FreeChain.Support(FreeChain.Bag([])) == {}
  {
    DataSetIs(g, 1);
    assert 1 in DataSet(g, 1);
  }

  /** The header counts the free pages. */
  lemma {:induction false} FreeCount(store: Freelist.PageStore)
    requires store.Valid()
    ensures |FreeChain.Support(FreeChain.Bag(store.chain))| == store.nFree
    ensures forall p :: p in FreeChain.Support(FreeChain.Bag(store.chain)) <==> store.IsFree(p)
    ensures store.nFree == 0 <==> FreeChain.Support(FreeChain.Bag(store.chain)) == {}
  {
    FreeChain.SupportSize(FreeChain.Bag(store.chain));
  }

  lemma {:induction false} NoTrunks()
    ensures FreeChain.Bag([]) == multiset{} && FreeChain.Support(FreeChain.Bag([])) == {}
    ensures FreeChain.Sound([], 1)
  {
  }

  /** The chain is that of a shorter file when all its pages lie there. */
  lemma {:induction false} FreeWithin(g: Geometry, chain: seq<FreeChain.Trunk>, n: nat, m: nat, free: set<nat>,
          content: map<nat, PageData>, ptrmap: map<nat, Entry>, roots: set<nat>)
    requires FreeChain.Sound(chain, n) && free == FreeChain.Support(FreeChain.Bag(chain))
    requires PagesOk(g, m, free, content, ptrmap, roots)
    ensures FreeChain.Sound(chain, m) && 1 <= m <= 0x7fff_ffff && m != g.pending
  {
    hide FreeChain.Bag, Inverse;
    DataSetIs(g, m);
    forall p | p in FreeChain.Bag(chain) ensures p <= m { assert p in free; }
  }

  /** What the kind of entry says of a page. */
  lemma {:induction false} PageKind(content: map<nat, PageData>, ptrmap: map<nat, Entry>, roots: set<nat>, a: nat)
    requires Inverse(content, ptrmap, roots) && a in content
    ensures OneEach(content[a])
    ensures a in roots ==> content[a].BtreePage?
  {
  }

  /** The last page of the file is free, or is no root and can move before page `nFin`. */
  lemma {:induction false} LastOfFile(g: Geometry, n: nat, free: set<nat>, content: map<nat, PageData>,
          ptrmap: map<nat, Entry>, roots: set<nat>, nFin: nat)
    requires PagesOk(g, n, free, content, ptrmap, roots) && free != {}
    requires !Special(g, nFin) && nFin <= n && DataPages(g, nFin) == DataPages(g, n) - |free|
    requires forall r :: r in roots ==> DataPages(g, r) <= DataPages(g, n) - |free|
    ensures n in ptrmap && n !in roots && ptrmap[n].eType != RootPage && Inverse(content, ptrmap, roots)
    ensures ptrmap[n].eType == FreePage <==> n in free
    ensures ptrmap[n].eType != FreePage ==> n in content && exists p :: 0 < p <= nFin && p in free
    ensures DataPages(g, n) >= 2
  {
    EndsInData(g, n, free, content, ptrmap, roots);
    DataSetIs(g, n);
    assert |free| > 0 && n in DataSet(g, n) && n !in roots;
    if n in content {
      var s := ParentOf(content, ptrmap, roots, n);
      hide Inverse;
      assert nFin != n;
      RoomBelow(g, content.Keys, nFin, n);
      DataSetIs(g, nFin);
      var p :| p in DataSet(g, nFin) && p !in content.Keys;
      assert p in DataSet(g, n) && 0 < p <= nFin && p in free;
    }
  }

  lemma {:induction false} TargetFree(g: Geometry, n: nat, free: set<nat>, content: map<nat, PageData>,
          ptrmap: map<nat, Entry>, roots: set<nat>, b: nat)
    requires PagesOk(g, n, free, content, ptrmap, roots) && b in free
    ensures b !in content && b != 0 && b !in roots
  {
    DataSetIs(g, n);
  }

  lemma {:induction false} ShrinkFacts(g: Geometry, n: nat, free: set<nat>)
    requires DataPages(g, n) >= 2 && !Special(g, n)
    ensures n > 1 && DataPages(g, n - 1) == DataPages(g, n) - 1 && DataPages(g, n - 1) > 0
    ensures DataSet(g, n) == DataSet(g, n - 1) + {n} && n !in DataSet(g, n - 1)
  {
    assert DataPages(g, 0) == 0;
    DataSetIs(g, n - 1);
  }

  /** The file without its last data page. */
  lemma {:induction false} Shrunk(g: Geometry, n: nat, m: nat, f0: set<nat>, free: set<nat>, c0: map<nat, PageData>,
          content: map<nat, PageData>, m0: map<nat, Entry>, ptrmap: map<nat, Entry>, roots: set<nat>, b: nat)
    requires PagesOk(g, n, f0, c0, m0, roots)
    requires 1 <= m < n && !Special(g, m) && n !in DataSet(g, m) && DataSet(g, n) == DataSet(g, m) + {n}
    requires Inverse(content, ptrmap, roots)
    requires b == 0 ==> n in f0 && free == f0 - {n} && content == c0 && ptrmap == m0
    requires b != 0 ==> b in f0 && n in c0 && b !in c0 && free == f0 - {b} && content == RenameAll(c0, n, b)
    requires b != 0 ==> forall p :: p !in c0 && p != b && p in m0 ==> p in ptrmap && ptrmap[p] == m0[p]
    ensures PagesOk(g, m, free, content, ptrmap, roots) && |free| == |f0| - 1
  {
    hide Inverse, RenameAll, PagesOk;
    if b == 0 {
      ShrunkFree(g, n, m, f0, c0, m0, roots);
    } else {
      ShrunkUsed(g, n, m, f0, c0, content, m0, ptrmap, roots, b);
    }
  }

  lemma {:induction false} ShrunkFree(g: Geometry, n: nat, m: nat, free: set<nat>, content: map<nat, PageData>,
          ptrmap: map<nat, Entry>, roots: set<nat>)
    requires PagesOk(g, n, free, content, ptrmap, roots) && n in free
    requires 1 <= m < n && !Special(g, m) && n !in DataSet(g, m) && DataSet(g, n) == DataSet(g, m) + {n}
    ensures PagesOk(g, m, free - {n}, content, ptrmap, roots) && |free - {n}| == |free| - 1
  {
    hide Inverse, Special, DataSet;
    assert free == free - {n} + {n};
    forall p ensures p in free - {n} + content.Keys <==> p in DataSet(g, m) {
      assert p in DataSet(g, n) <==> p in free + content.Keys;
    }
  }

  lemma {:induction false} ShrunkUsed(g: Geometry, n: nat, m: nat, f0: set<nat>, c0: map<nat, PageData>,
          content: map<nat, PageData>, m0: map<nat, Entry>, ptrmap: map<nat, Entry>, roots: set<nat>, b: nat)
    requires PagesOk(g, n, f0, c0, m0, roots) && Inverse(content, ptrmap, roots)
    requires 1 <= m < n && !Special(g, m) && n !in DataSet(g, m) && DataSet(g, n) == DataSet(g, m) + {n}
    requires b in f0 && n in c0 && b !in c0 && content == RenameAll(c0, n, b)
    requires forall p :: p !in c0 && p != b && p in m0 ==> p in ptrmap && ptrmap[p] == m0[p]
    ensures PagesOk(g, m, f0 - {b}, content, ptrmap, roots) && |f0 - {b}| == |f0| - 1
  {
    hide Inverse, RenameAll, Special, DataSet;
    RenamedKeys(c0, n, b);
    MovedKeys(DataSet(g, n), DataSet(g, m), f0, c0.Keys, n, b);
    forall p | p in f0 - {b} ensures p in ptrmap && ptrmap[p].eType == FreePage { assert p !in c0.Keys && p in m0; }
  }

  lemma {:induction false} MovedKeys(all: set<nat>, left: set<nat>, free: set<nat>, used: set<nat>, n: nat, b: nat)
    requires free !! used && free + used == all == left + {n} && n !in left && n in used && b in free
    ensures free - {b} !! used - {n} + {b} && (free - {b}) + (used - {n} + {b}) == left
    ensures |free - {b}| == |free| - 1
  {
  }

  // ------------------------------------------------------------------ the invariant of the commit loop

  lemma {:induction false} SkipSpecial(g: Geometry, nFin: nat, i: nat, free: set<nat>, content: map<nat, PageData>,
          ptrmap: map<nat, Entry>, roots: set<nat>)
    requires Committing(g, nFin, i, free, content, ptrmap, roots) && i > nFin && Special(g, i)
    ensures Committing(g, nFin, i - 1, free, content, ptrmap, roots)
  {
  }

  lemma {:induction false} SkipFree(g: Geometry, nFin: nat, i: nat, free: set<nat>, content: map<nat, PageData>,
          ptrmap: map<nat, Entry>, roots: set<nat>)
    requires Committing(g, nFin, i, free, content, ptrmap, roots) && i > nFin && i !in content
    ensures Committing(g, nFin, i - 1, free, content, ptrmap, roots)
  {
    hide Inverse;
    DataSetIs(g, i);
    DataSetIs(g, i - 1);
  }

  /** With no free page left, all used pages lie within the final size. */
  lemma {:induction false} AllPlaced(g: Geometry, nFin: nat, i: nat, free: set<nat>, content: map<nat, PageData>,
          ptrmap: map<nat, Entry>, roots: set<nat>)
    requires Committing(g, nFin, i, free, content, ptrmap, roots) && free == {}
    ensures Committing(g, nFin, nFin, free, content, ptrmap, roots)
  {
    hide Inverse;
    DataSetIs(g, nFin);
    Counting.SubsetSize(DataSet(g, nFin), content.Keys);
    DataSetIs(g, i);
  }

  /** The type of the last page tells whether it is used; it is no root. */
  lemma {:induction false} LastPage(g: Geometry, nFin: nat, i: nat, free: set<nat>, content: map<nat, PageData>,
          ptrmap: map<nat, Entry>, roots: set<nat>)
    requires Committing(g, nFin, i, free, content, ptrmap, roots) && i > nFin && !Special(g, i)
    ensures i in ptrmap && i !in roots && ptrmap[i].eType != RootPage
    ensures ptrmap[i].eType == FreePage <==> i !in content
  {
    DataSetIs(g, i);
    if i in content { var s := ParentOf(content, ptrmap, roots, i); }
  }

  lemma {:induction false} RoomLeft(g: Geometry, nFin: nat, i: nat, free: set<nat>, content: map<nat, PageData>,
          ptrmap: map<nat, Entry>, roots: set<nat>)
    requires Committing(g, nFin, i, free, content, ptrmap, roots) && i > nFin && i in content
    ensures exists p :: 0 < p <= nFin && p in free
  {
    hide Inverse;
    RoomBelow(g, content.Keys, nFin, i);
    DataSetIs(g, nFin);
    var p :| p in DataSet(g, nFin) && p !in content.Keys;
    assert 0 < p <= nFin && p in free;
  }

  lemma {:induction false} TargetFits(g: Geometry, nFin: nat, i: nat, free: set<nat>, content: map<nat, PageData>,
          ptrmap: map<nat, Entry>, roots: set<nat>, b: nat)
    requires Committing(g, nFin, i, free, content, ptrmap, roots) && b in free
    ensures b !in content && b != 0 && b !in roots && Inverse(content, ptrmap, roots)
  {
    assert roots <= content.Keys;
  }

  lemma {:induction false} MovedDown(g: Geometry, nFin: nat, i: nat, f0: set<nat>, free: set<nat>,
          c0: map<nat, PageData>, content: map<nat, PageData>, m0: map<nat, Entry>, ptrmap: map<nat, Entry>,
          roots: set<nat>, b: nat)
    requires Committing(g, nFin, i, f0, c0, m0, roots) && i > nFin && i in c0 && b in f0 && b <= nFin && b !in c0
    requires free <= f0 && b !in free && forall p :: p in f0 && p <= nFin && p != b ==> p in free
    requires content == RenameAll(c0, i, b) && Inverse(content, ptrmap, roots)
    requires forall p :: p !in c0 && p != b && p in m0 ==> p in ptrmap && ptrmap[p] == m0[p]
    ensures Committing(g, nFin, i - 1, free, content, ptrmap, roots)
  {
    hide Inverse, RenameAll, DataSet, DataPages, Special;
    FreeIsData(g, nFin, i, f0, c0, m0, roots, b);
    RenamedKeys(c0, i, b);
    assert |content.Keys| == |c0.Keys|;
    forall p | p in DataSet(g, nFin) ensures p in content || p in free {
      DataBelow(g, p, nFin, i);
    }
    forall p | p in content ensures p in DataSet(g, i - 1) {
      if p == b { DataBelow(g, p, nFin, i - 1); } else { DataBefore(g, p, i); }
    }
    forall p | p in DataSet(g, i - 1) && p !in content ensures p in ptrmap && ptrmap[p].eType == FreePage {
      DataBelow(g, p, i - 1, i);
    }
  }

  lemma {:induction false} DataBelow(g: Geometry, p: nat, m: nat, n: nat)
    requires p in DataSet(g, m) && m <= n
    ensures p in DataSet(g, n) && 1 <= p <= m
  {
    DataSetIs(g, m);
    DataSetIs(g, n);
  }

  lemma {:induction false} DataBefore(g: Geometry, p: nat, n: nat)
    requires p in DataSet(g, n) && p != n && n > 0
    ensures p in DataSet(g, n - 1)
  {
  }

  lemma {:induction false} RenamedKeys(c: map<nat, PageData>, a: nat, b: nat)
    requires a in c && b !in c
    ensures RenameAll(c, a, b).Keys == c.Keys - {a} + {b}
  {
  }

  lemma {:induction false} FreeIsData(g: Geometry, nFin: nat, i: nat, free: set<nat>, content: map<nat, PageData>,
          ptrmap: map<nat, Entry>, roots: set<nat>, b: nat)
    requires Committing(g, nFin, i, free, content, ptrmap, roots) && b in free && b <= nFin
    ensures b in DataSet(g, nFin) && !Special(g, b)
  {
    DataSetIs(g, nFin);
  }

  lemma {:induction false} CommittingFacts(g: Geometry, nFin: nat, i: nat, free: set<nat>,
          content: map<nat, PageData>, ptrmap: map<nat, Entry>, roots: set<nat>)
    requires Committing(g, nFin, i, free, content, ptrmap, roots)
    ensures 0 !in content && nFin <= i
  {
  }

  lemma {:induction false} SameKeys(c0: map<nat, PageData>, c1: map<nat, PageData>, f: map<nat, nat>)
    requires SameTrees(c0, c1, f)
    ensures f.Keys == c0.Keys
  {
  }

  // ------------------------------------------------------------------ the ends of the commit

  lemma {:induction false} EndsInData(g: Geometry, n: nat, free: set<nat>, content: map<nat, PageData>,
          ptrmap: map<nat, Entry>, roots: set<nat>)
    requires PagesOk(g, n, free, content, ptrmap, roots)
    ensures !Special(g, n) && Vacuumable(g, n, |free|) && Closed(content)
    ensures 1 in roots && g.entries < 0x1_0000 && n <= 0x7fff_ffff
    ensures |content.Keys| + |free| == DataPages(g, n)
  {
    DataSetIs(g, n);
    assert |free + content.Keys| == |free| + |content.Keys|;
    assert 1 in content.Keys;
    forall q, s | q in content && HasSlot(content[q], s) ensures Target(content[q], s) in content { assert Mapped(content, ptrmap, q, s); }
  }

  lemma {:induction false} StartCommit(g: Geometry, n: nat, free: set<nat>, content: map<nat, PageData>,
          ptrmap: map<nat, Entry>, roots: set<nat>, nFin: nat)
    requires PagesOk(g, n, free, content, ptrmap, roots) && 1 <= nFin <= n && !Special(g, nFin)
    requires DataPages(g, nFin) == DataPages(g, n) - |free|
    requires forall r :: r in roots ==> DataPages(g, r) <= DataPages(g, n) - |free|
    ensures Committing(g, nFin, n, free, content, ptrmap, roots)
  {
    EndsInData(g, n, free, content, ptrmap, roots);
    DataSetIs(g, n);
    DataSetIs(g, nFin);
    assert 0 !in DataSet(g, n);
    forall r | r in roots ensures r <= nFin {
      assert r in content.Keys && r in DataSet(g, n);
      if nFin < r { DataMonotone(g, nFin, r); }
    }
  }

  /** All used pages lie within the final size, and every data page there is used. */
  lemma {:induction false} CommitDone(g: Geometry, n: nat, nFin: nat, free: set<nat>, content: map<nat, PageData>,
          ptrmap: map<nat, Entry>, roots: set<nat>)
    requires Committing(g, nFin, nFin, free, content, ptrmap, roots) && nFin <= n <= 0x7fff_ffff && g.entries < 0x1_0000 && 1 in roots
    ensures content.Keys == DataSet(g, nFin) && PagesOk(g, nFin, {}, content, ptrmap, roots)
  {
    DataSetIs(g, nFin);
    Counting.SubsetSize(content.Keys, DataSet(g, nFin));
  }

  lemma {:induction false} ChildrenNone(pg: PageData, b: nat, m: map<nat, Entry>)
    ensures ChildrenSet(pg, b, m, m, (s: Slot) => InCells(s, 0))
  {
  }

  lemma {:induction false} ChildrenNext(pg: PageData, b: nat, m: map<nat, Entry>)
    requires pg.OvflPage?
    ensures ChildrenSet(pg, b, m, if pg.next != 0 then m[pg.next := Entry(Overflow2, b)] else m, (s: Slot) => true)
  {
    if pg.next != 0 { assert HasSlot(pg, Next); }
  }

  function SetCell(pg: PageData, i: nat, eType: PtrType, iTo: nat): PageData
    requires pg.BtreePage? && i < |pg.cells|
  {
    pg.(cells := pg.cells[i := if eType == Overflow1 then pg.cells[i].(ovfl := iTo) else pg.cells[i].(left := iTo)])
  }

  /** The loop of modifyPagePointer: the cell that holds the pointer, if a cell does. */
  method FindCell(pg: PageData, iFrom: nat, eType: PtrType, ghost s: Slot) returns (i: nat)
    requires OneEach(pg) && HasSlot(pg, s) && KindOf(s) == eType && Target(pg, s) == iFrom && eType != Overflow2
    ensures pg.BtreePage? && i <= |pg.cells|
    ensures i < |pg.cells| ==> s == if eType == Overflow1 then Ovfl(i) else Left(i)
    ensures i == |pg.cells| ==> s == Right
  {
    i := 0;
    while i < |pg.cells|
      invariant i <= |pg.cells|
      invariant forall j :: 0 <= j < i ==> s != Ovfl(j) && s != Left(j)
    {
      if eType == Overflow1 {
        if pg.cells[i].ovfl != 0 && pg.cells[i].ovfl == iFrom {
          assert HasSlot(pg, Ovfl(i)) && Target(pg, Ovfl(i)) == Target(pg, s);
          return;
        }
      } else {
        if pg.cells[i].left == iFrom {
          assert HasSlot(pg, Left(i)) && Target(pg, Left(i)) == Target(pg, s);
          return;
        }
      }
      i := i + 1;
    }
  }

  /** The entries of the roots, wherever they are, still say so. */
  lemma {:induction false} RootEntries(content: map<nat, PageData>, ptrmap: map<nat, Entry>, ptrmap': map<nat, Entry>,
          roots: set<nat>, a: nat, b: nat, mid: map<nat, Entry>)
    requires Inverse(content, ptrmap, roots) && a in content && b !in content
    requires a in roots && b in ptrmap ==> ptrmap[b].eType == RootPage
    requires ChildrenSet(content[a], b, ptrmap, mid, (s: Slot) => true)
    requires if a in roots then ptrmap' == mid else b in ptrmap' && ptrmap' == mid[b := ptrmap'[b]]
    ensures forall p :: p in RootsMoved(roots, a, b) && p in ptrmap' ==> ptrmap'[p].eType == RootPage
  {
    Undisturbed(content, ptrmap, roots, a, b, mid);
    assert b !in roots;
  }

  /** Moving a page leaves the entries of root pages; a root moves to a page that has such an entry. */
  lemma {:induction false} StillEntered(content: map<nat, PageData>, ptrmap: map<nat, Entry>,
          ptrmap': map<nat, Entry>, roots: set<nat>, a: nat, b: nat, mid: map<nat, Entry>)
    requires Inverse(content, ptrmap, roots) && a in content && b !in content
    requires RenamedMap(content, Followed(ptrmap, roots, a), ptrmap', a, b)
    requires ChildrenSet(content[a], b, ptrmap, mid, (s: Slot) => true) && (a in roots ==> ptrmap' == mid)
    ensures RootsEntered(ptrmap, roots) && (a in roots ==> IsEntered(ptrmap, b)) ==> RootsEntered(ptrmap', RootsMoved(roots, a, b))
  {
    Undisturbed(content, ptrmap, roots, a, b, mid);
    if RootsEntered(ptrmap, roots) && (a in roots ==> IsEntered(ptrmap, b)) {
      forall r | r in RootsMoved(roots, a, b) && r >= 2 ensures IsEntered(ptrmap', r) {
        if r != b || a !in roots {
          assert r in roots && IsEntered(ptrmap, r) && r in Followed(ptrmap, roots, a);
        }
      }
    }
  }

  /** Entries of unused pages and of roots are not touched. */
  lemma {:induction false} Undisturbed(content: map<nat, PageData>, ptrmap: map<nat, Entry>, roots: set<nat>, a: nat,
          b: nat, mid: map<nat, Entry>)
    requires Inverse(content, ptrmap, roots) && a in content
    requires ChildrenSet(content[a], b, ptrmap, mid, (s: Slot) => true)
    ensures forall p :: p !in content && p in ptrmap ==> p in mid && mid[p] == ptrmap[p]
    ensures forall p :: p !in content && p in mid ==> p in ptrmap
    ensures forall p :: p in roots && p in mid ==> mid[p].eType == RootPage
  {
    forall p | (p !in content || p in roots) && p in mid ensures p in ptrmap && mid[p] == ptrmap[p] {
      forall s | HasSlot(content[a], s) ensures Target(content[a], s) != p { assert Mapped(content, ptrmap, a, s); }
    }
  }
}
