/** Allocating and freeing database pages (allocateBtreePage and freePage2 in btree.c:5757-6206). */
module Freelist {
  import opened FreeChain
  import opened PageMap

  datatype AllocMode = AllocAny | AllocExact | AllocLe

  datatype Rc = Ok | Corrupt

  function AbsInt(x: int): nat
  {
    if x < 0 then -x else x
  }

  /** Page `p` is one the search is after. */
  predicate Wanted(p: nat, nearby: nat, eMode: AllocMode)
  {
    p == nearby || (p < nearby && eMode == AllocLe)
  }

  /** The pages strictly between are the pending page or, in auto-vacuum mode, pointer-map pages. */
  ghost predicate OnlySpecial(g: Geometry, autoVacuum: bool, lo: nat, hi: nat)
  {
    forall p :: lo < p < hi ==> p == g.pending || (autoVacuum && IsMap(g, p))
  }

  /** The search is after none of the pages of the first `n` trunks. */
  ghost predicate Passed(chain: seq<Trunk>, n: nat, nearby: nat, eMode: AllocMode)
    requires n <= |chain|
  {
    forall j :: 0 <= j < n ==> Unwanted(chain[j], nearby, eMode)
  }

  ghost predicate Unwanted(t: Trunk, nearby: nat, eMode: AllocMode)
  {
    forall p :: p in Part(t) ==> !Wanted(p, nearby, eMode)
  }

  ghost predicate NoneUpTo(b: multiset<nat>, nearby: nat)
  {
    forall p :: p in b ==> p > nearby
  }

  /** What is taken from a trunk when no particular page is searched for: the trunk page if it has no leaf,
      otherwise the leaf nearest to `nearby`, or the first leaf if that is zero. */
  ghost predicate FromFirst(t: Trunk, nearby: nat, pgno: nat)
  {
    if t.leaves == [] then pgno == t.pgno
    else if nearby == 0 then pgno == t.leaves[0]
    else pgno in t.leaves && forall p :: p in t.leaves ==> AbsInt(pgno - nearby) <= AbsInt(p - nearby)
  }

  /** No trunk uses its last six entries, which versions before 3.6.0 take for corruption. */
  ghost predicate Compatible(chain: seq<Trunk>, usableSize: nat)
  {
    forall i :: 0 <= i < |chain| ==> |chain[i].leaves| <= usableSize / 4 - 8
  }

  class PageStore {
    const g: Geometry
    const autoVacuum: bool
    const usableSize: nat
    var nPage: nat
    /** Page 1, offset 32: the first trunk page; offset 36: the number of free pages. */
    var firstTrunk: nat
    var nFree: nat
    var trunks: map<nat, TrunkData>
    ghost var chain: seq<Trunk>

    /** A database of one page. */
    constructor (g: Geometry, autoVacuum: bool, usableSize: nat)
      requires Sensible(g) && g.entries >= 2 && usableSize > 64
      ensures Valid() && this.g == g && this.autoVacuum == autoVacuum && nPage == 1 && nFree == 0 && chain == []
    {
      this.g, this.autoVacuum, this.usableSize := g, autoVacuum, usableSize;
      nPage, firstTrunk, nFree, trunks, chain := 1, 0, 0, map[], [];
    }

    ghost predicate Valid()
      reads this
    {
      Listed() && nFree == |Bag(chain)|
    }

    /** The chain is well formed; the count in the header may have been changed already. */
    ghost predicate Listed()
      reads this
    {
      && Sensible(g) && g.entries >= 2 && usableSize > 64 && 1 <= nPage <= 0x7fff_ffff && nPage != g.pending
      && Stored(trunks, chain) && firstTrunk == HeadOf(chain, 0)
      && Sound(chain, nPage)
      && forall i :: 0 <= i < |chain| ==> |chain[i].leaves| <= usableSize / 4 - 2
    }

    /** The free pages. */
    ghost predicate IsFree(p: nat)
      reads this
    {
      p in Bag(chain)
    }

    // ---------------------------------------------------------------- freeing

    /** freePage2: page `iPage` joins the freelist, as a leaf of the first trunk if that has room (six
        entries are never used), otherwise as a new first trunk. */
    method FreePage2(iPage: nat)
      requires Valid() && 2 <= iPage <= nPage && !IsFree(iPage)
      modifies `firstTrunk, `nFree, `trunks, `chain
      ensures Valid() && Bag(chain) == old(Bag(chain)) + multiset{iPage} && nFree == old(nFree) + 1
      ensures if old(chain) != [] && |old(chain)[0].leaves| < usableSize / 4 - 8 then
                chain == [Trunk(old(chain)[0].pgno, old(chain)[0].leaves + [iPage])] + old(chain)[1..]
              else chain == [Trunk(iPage, [])] + old(chain)
      ensures Compatible(old(chain), usableSize) ==> Compatible(chain, usableSize)
    {
      hide Stored, Sound, Bag;
      var n := nFree;
      var iTrunk := 0;
      nFree := n + 1;
      FirstTrunk(trunks, chain, nPage);
      if n != 0 {
        iTrunk := firstTrunk;
        var nLeaf := |trunks[iTrunk].leaves|;
        if nLeaf > usableSize / 4 - 2 {
          // SQLITE_CORRUPT: more leaves than the page holds
          assert false;
        }
        if nLeaf < usableSize / 4 - 8 {
          AddLeaf(trunks, chain, nPage, iPage);
          trunks := trunks[iTrunk := TrunkData(trunks[iTrunk].next, trunks[iTrunk].leaves + [iPage])];
          chain := [Trunk(chain[0].pgno, chain[0].leaves + [iPage])] + chain[1..];
          return;
        }
      }
      StoredPush(trunks, chain, iPage);
      AddTrunk(chain, nPage, iPage);
      trunks := trunks[iPage := TrunkData(iTrunk, [])];
      firstTrunk := iPage;
      chain := [Trunk(iPage, [])] + chain;
    }

    // ---------------------------------------------------------------- appending

    /** With no free page, the file grows.  The pending page and, in auto-vacuum mode, pointer-map pages
        are skipped over. */
    method AppendPage() returns (pgno: nat)
      requires Valid() && nPage <= 0x7fff_fff0
      modifies `nPage
      ensures Valid() && nPage == pgno > old(nPage) && !IsFree(pgno)
      ensures pgno != g.pending && (autoVacuum ==> !IsMap(g, pgno))
      ensures OnlySpecial(g, autoVacuum, old(nPage), pgno)
    {
      hide Stored, Bag, IsMap;
      nPage := nPage + 1;
      if nPage == g.pending { nPage := nPage + 1; }
      if autoVacuum && IsMap(g, nPage) {
        AfterMap(g, nPage);
        nPage := nPage + 1;
        if nPage == g.pending { nPage := nPage + 1; }
      }
      pgno := nPage;
    }

    // ---------------------------------------------------------------- allocating

    /** allocateBtreePage.  `isFree` is what the pointer map says of page `nearby` in exact mode.  The
        only failure is a search for a page not beyond `nearby` when no such page is free. */
    method AllocateBtreePage(nearby: nat, eMode: AllocMode, isFree: bool) returns (rc: Rc, pgno: nat)
      requires Valid() && (nFree == 0 ==> nPage <= 0x7fff_fff0)
      requires eMode != AllocAny ==> nearby > 0
      requires eMode == AllocExact ==> (isFree <==> IsFree(nearby))
      modifies `nPage, `firstTrunk, `nFree, `trunks, `chain
      ensures rc == Corrupt <==> eMode == AllocLe && old(nFree) > 0 && NoneUpTo(old(Bag(chain)), nearby)
      ensures rc == Ok ==> Valid()
      ensures rc == Ok && old(nFree) > 0 ==>
        old(IsFree(pgno)) && Bag(chain) == old(Bag(chain)) - multiset{pgno} && nPage == old(nPage)
      ensures rc == Ok && eMode == AllocExact && old(IsFree(nearby)) ==> pgno == nearby
      ensures rc == Ok && eMode == AllocLe && old(nFree) > 0 ==> pgno <= nearby
      ensures rc == Ok && old(nFree) > 0 && (eMode == AllocAny || (eMode == AllocExact && !isFree)) ==>
        old(chain) != [] && FromFirst(old(chain)[0], nearby, pgno)
      ensures Compatible(old(chain), usableSize) ==> Compatible(chain, usableSize)
      ensures old(nFree) == 0 ==>
        && chain == old(chain) && nPage == pgno > old(nPage)
        && pgno != g.pending && (autoVacuum ==> !IsMap(g, pgno))
        && OnlySpecial(g, autoVacuum, old(nPage), pgno)
    {
      hide Stored, Sound, Bag, IsMap, OnlySpecial;
      rc, pgno := Ok, 0;
      var n := nFree;
      Counted(chain, nPage);
      if n >= nPage {
        // SQLITE_CORRUPT: more free pages than pages
        assert false;
      }
      if n > 0 {
        var searchList := eMode == AllocLe || (eMode == AllocExact && nearby <= nPage && isFree);
        NotBeyond(chain, nPage);
        nFree := n - 1;
        rc, pgno := Search(nearby, eMode, searchList, n);
      } else {
        pgno := AppendPage();
      }
    }

    /** The walk along the trunks; without a search it stops at the first one. */
    method Search(nearby: nat, eMode: AllocMode, searchList: bool, n: nat) returns (rc: Rc, pgno: nat)
      requires Listed() && n == |Bag(chain)| > 0 && nFree == n - 1
      requires searchList ==> nearby > 0 && (eMode == AllocLe || (eMode == AllocExact && IsFree(nearby)))
      modifies `firstTrunk, `trunks, `chain
      ensures rc == Corrupt <==> searchList && eMode == AllocLe && NoneUpTo(old(Bag(chain)), nearby)
      ensures rc == Ok ==> Valid() && old(IsFree(pgno)) && Bag(chain) == old(Bag(chain)) - multiset{pgno}
      ensures rc == Ok && searchList ==> Wanted(pgno, nearby, eMode)
      ensures !searchList && eMode != AllocLe ==> old(chain) != [] && FromFirst(old(chain)[0], nearby, pgno)
      ensures Compatible(old(chain), usableSize) ==> Compatible(chain, usableSize)
    {
      hide Stored, Sound, Bag, Part, Unwanted, FromFirst, Compatible;
      ghost var c0, t0, f0 := chain, trunks, firstTrunk;
      var prev, nSearch := 0, 0;
      rc, pgno := Ok, 0;
      FirstTrunk(trunks, chain, nPage);
      TrunkCount(chain);
      while true
        invariant Listed() && chain == c0 && trunks == t0 && firstTrunk == f0
        invariant nSearch <= |chain| && prev == if nSearch == 0 then 0 else chain[nSearch - 1].pgno
        invariant !searchList ==> nSearch == 0
        invariant Passed(chain, nSearch, nearby, eMode)
        decreases |chain| - nSearch
      {
        ghost var i := nSearch;
        NextTrunk(trunks, chain, nPage, i);
        var iTrunk := if prev != 0 then trunks[prev].next else firstTrunk;
        if iTrunk > nPage || nSearch > n {
          // SQLITE_CORRUPT: a trunk page beyond the end of the file, or a cycle
          assert false;
        }
        nSearch := nSearch + 1;
        if iTrunk == 0 {
          // there is no page 0
          NoneWanted(chain, nearby, eMode);
          return Corrupt, 0;
        }
        var taken;
        taken, pgno := VisitTrunk(nearby, eMode, searchList, iTrunk, prev, i);
        if taken { return; }
        prev := iTrunk;
      }
    }

    /** One trunk of the walk: the trunk page itself, one of its leaves, or nothing is taken. */
    method VisitTrunk(nearby: nat, eMode: AllocMode, searchList: bool, iTrunk: nat, prev: nat,
            ghost i: nat) returns (taken: bool, pgno: nat)
      requires Listed() && i < |chain| && iTrunk == chain[i].pgno && prev == if i == 0 then 0 else chain[i - 1].pgno
      requires nFree + 1 == |Bag(chain)| && (searchList ==> nearby > 0 && eMode != AllocAny)
      modifies `firstTrunk, `trunks, `chain
      ensures taken ==> Valid() && old(IsFree(pgno)) && Bag(chain) == old(Bag(chain)) - multiset{pgno}
      ensures taken && searchList ==> Wanted(pgno, nearby, eMode)
      ensures taken && !searchList && eMode != AllocLe ==> FromFirst(old(chain)[i], nearby, pgno)
      ensures Compatible(old(chain), usableSize) ==> Compatible(chain, usableSize)
      ensures !taken ==> searchList && chain == old(chain) && trunks == old(trunks) && firstTrunk == old(firstTrunk)
      ensures !taken ==> Unwanted(chain[i], nearby, eMode)
    {
      hide Stored, Sound, Bag, Part;
      taken, pgno := true, 0;
      ChainEntry(trunks, chain, nPage, i);
      var k := |trunks[iTrunk].leaves|;
      if k == 0 && !searchList {
        pgno := TakeTrunk(iTrunk, prev, i);
        return;
      } else if k > usableSize / 4 - 2 {
        // SQLITE_CORRUPT: more leaves than the page holds
        assert false;
      } else if searchList && (nearby == iTrunk || (iTrunk < nearby && eMode == AllocLe)) {
        pgno := TakeTrunk(iTrunk, prev, i);
        return;
      } else if k > 0 {
        var closest := Closest(trunks[iTrunk].leaves, nearby, eMode);
        var iPage := trunks[iTrunk].leaves[closest];
        LeafInFile(chain, nPage, i, closest);
        if iPage > nPage {
          // SQLITE_CORRUPT: a leaf beyond the end of the file
          assert false;
        }
        if !searchList || (iPage == nearby || (iPage < nearby && eMode == AllocLe)) {
          pgno := TakeLeaf(iTrunk, closest, i);
          return;
        }
        NoLeafWanted(chain[i].leaves, closest, nearby, eMode);
      }
      NotOnTrunk(chain[i], nearby, eMode);
      taken := false;
    }

    /** The leaf closest to `nearby`, or in LE mode the first one not beyond it; the first leaf if there is
        no such one or no preference. */
    method Closest(leaves: seq<nat>, nearby: nat, eMode: AllocMode) returns (closest: nat)
      requires leaves != []
      ensures closest < |leaves| && (nearby == 0 ==> closest == 0)
      ensures eMode == AllocLe && nearby > 0 && (exists p :: p in leaves && p <= nearby) ==>
        leaves[closest] <= nearby && forall j :: 0 <= j < closest ==> leaves[j] > nearby
      ensures eMode == AllocLe && nearby > 0 && !(exists p :: p in leaves && p <= nearby) ==> closest == 0
      ensures eMode != AllocLe && nearby > 0 ==> forall p :: p in leaves ==> AbsInt(leaves[closest] - nearby) <= AbsInt(p - nearby)
      ensures eMode != AllocLe && nearby > 0 ==> forall j :: 0 <= j < closest ==> AbsInt(leaves[closest] - nearby) < AbsInt(leaves[j] - nearby)
    {
      closest := 0;
      if nearby > 0 {
        if eMode == AllocLe {
          var i := 0;
          while i < |leaves|
            invariant i <= |leaves| && closest == 0
            invariant forall j :: 0 <= j < i ==> leaves[j] > nearby
          {
            assert leaves[i] in leaves;
            if leaves[i] <= nearby { return i; }
            i := i + 1;
          }
        } else {
          var dist := AbsInt(leaves[0] - nearby);
          var i := 1;
          while i < |leaves|
            invariant 1 <= i <= |leaves| && closest < i && dist == AbsInt(leaves[closest] - nearby)
            invariant forall j :: 0 <= j < i ==> dist <= AbsInt(leaves[j] - nearby)
            invariant forall j :: 0 <= j < closest ==> dist < AbsInt(leaves[j] - nearby)
          {
            var d2 := AbsInt(leaves[i] - nearby);
            if d2 < dist { closest, dist := i, d2; }
            i := i + 1;
          }
        }
      }
    }

    /** Trunk page `iTrunk` is taken.  If it has leaves, the first of them becomes the trunk page. */
    method TakeTrunk(iTrunk: nat, prev: nat, ghost i: nat) returns (pgno: nat)
      requires Listed() && i < |chain| && iTrunk == chain[i].pgno && prev == if i == 0 then 0 else chain[i - 1].pgno
      requires nFree + 1 == |Bag(chain)|
      modifies `firstTrunk, `trunks, `chain
      ensures Compatible(old(chain), usableSize) ==> Compatible(chain, usableSize)
      ensures pgno == iTrunk && Valid() && Bag(chain) == old(Bag(chain)) - multiset{pgno} && old(IsFree(pgno))
    {
      hide Stored, Sound, Bag, Compatible;
      ghost var c0 := chain;
      FewerLeaves(c0, i, usableSize);
      pgno := iTrunk;
      ChainEntry(trunks, chain, nPage, i);
      if i > 0 { ChainEntry(trunks, chain, nPage, i - 1); }
      var t := trunks[iTrunk];
      if |t.leaves| == 0 {
        StoredDrop(trunks, chain, nPage, i);
        TookTrunk(chain, nPage, i);
        chain := chain[..i] + chain[i + 1..];
        if prev == 0 {
          firstTrunk := t.next;
        } else {
          trunks := trunks[prev := TrunkData(t.next, trunks[prev].leaves)];
        }
      } else {
        var iNewTrunk := t.leaves[0];
        LeafInFile(chain, nPage, i, 0);
        if iNewTrunk > nPage {
          // SQLITE_CORRUPT: a leaf beyond the end of the file
          assert false;
        }
        StoredReplace(trunks, chain, nPage, i, Trunk(iNewTrunk, t.leaves[1..]));
        PromotedLeaf(chain, nPage, i);
        if i > 0 { TrunksApart(chain, nPage, i - 1, i); }
        TrunksApart(chain, nPage, i, i);
        chain := chain[..i] + [Trunk(iNewTrunk, t.leaves[1..])] + chain[i + 1..];
        trunks := trunks[iNewTrunk := TrunkData(t.next, t.leaves[1..])];
        if prev == 0 {
          firstTrunk := iNewTrunk;
        } else {
          trunks := trunks[prev := TrunkData(iNewTrunk, trunks[prev].leaves)];
        }
      }
      SoundMinus(c0, chain, nPage, pgno);
    }

    /** Leaf `closest` of the trunk is taken; the last leaf entry fills its place. */
    method TakeLeaf(iTrunk: nat, closest: nat, ghost i: nat) returns (pgno: nat)
      requires Listed() && i < |chain| && iTrunk == chain[i].pgno && closest < |chain[i].leaves|
      requires nFree + 1 == |Bag(chain)|
      modifies `trunks, `chain
      ensures Compatible(old(chain), usableSize) ==> Compatible(chain, usableSize)
      ensures pgno == old(chain)[i].leaves[closest] && Valid() && Bag(chain) == old(Bag(chain)) - multiset{pgno} && old(IsFree(pgno))
    {
      hide Stored, Sound, Bag;
      ghost var c0 := chain;
      ChainEntry(trunks, chain, nPage, i);
      var t := trunks[iTrunk];
      var k := |t.leaves|;
      pgno := t.leaves[closest];
      StoredReplace(trunks, chain, nPage, i, Trunk(iTrunk, DropLeaf(t.leaves, closest)));
      TookLeaf(chain, nPage, i, closest);
      chain := chain[..i] + [Trunk(iTrunk, DropLeaf(t.leaves, closest))] + chain[i + 1..];
      var leaves := t.leaves;
      if closest < k - 1 { leaves := leaves[closest := leaves[k - 1]]; }
      leaves := leaves[..k - 1];
      assert leaves == DropLeaf(t.leaves, closest);
      trunks := trunks[iTrunk := TrunkData(t.next, leaves)];
      SoundMinus(c0, chain, nPage, pgno);
    }
  }

  lemma {:induction false} FewerLeaves(chain: seq<Trunk>, i: nat, usableSize: nat)
    requires i < |chain|
    ensures Compatible(chain, usableSize) ==> Compatible(chain[..i] + chain[i + 1..], usableSize)
    ensures forall t: Trunk :: Compatible(chain, usableSize) && |t.leaves| <= |chain[i].leaves| ==>
      Compatible(chain[..i] + [t] + chain[i + 1..], usableSize)
  {
  }

  // ------------------------------------------------------------------ facts used by the search

  lemma {:induction false} Counted(chain: seq<Trunk>, nPage: nat)
    requires Sound(chain, nPage) && nPage >= 1
    ensures |Bag(chain)| < nPage
  {
    BagFits(Bag(chain), nPage);
  }

  lemma {:induction false} NotBeyond(chain: seq<Trunk>, nPage: nat)
    requires Sound(chain, nPage)
    ensures forall p :: p in Bag(chain) ==> 2 <= p <= nPage
  {
  }

  /** If the closest leaf is not wanted, no leaf is. */
  lemma {:induction false} NoLeafWanted(leaves: seq<nat>, closest: nat, nearby: nat, eMode: AllocMode)
    requires closest < |leaves| && !Wanted(leaves[closest], nearby, eMode)
    requires eMode == AllocLe && (exists p :: p in leaves && p <= nearby) ==> leaves[closest] <= nearby
    requires eMode != AllocLe ==> forall p :: p in leaves ==> AbsInt(leaves[closest] - nearby) <= AbsInt(p - nearby)
    ensures forall p :: p in leaves ==> !Wanted(p, nearby, eMode)
  {
  }

  lemma {:induction false} NotOnTrunk(t: Trunk, nearby: nat, eMode: AllocMode)
    requires !Wanted(t.pgno, nearby, eMode) && forall p :: p in t.leaves ==> !Wanted(p, nearby, eMode)
    ensures Unwanted(t, nearby, eMode)
  {
    forall p | p in Part(t) ensures !Wanted(p, nearby, eMode) { assert p == t.pgno || p in t.leaves; }
  }

  lemma {:induction false} NoneWanted(chain: seq<Trunk>, nearby: nat, eMode: AllocMode)
    requires Passed(chain, |chain|, nearby, eMode)
    ensures forall p :: p in Bag(chain) ==> !Wanted(p, nearby, eMode)
    ensures eMode == AllocLe ==> NoneUpTo(Bag(chain), nearby)
  {
    if chain != [] {
      forall j | 0 <= j < |chain| - 1 ensures Unwanted(chain[1..][j], nearby, eMode) { assert Unwanted(chain[j + 1], nearby, eMode); }
      NoneWanted(chain[1..], nearby, eMode);
      assert Unwanted(chain[0], nearby, eMode);
    }
  }

  /** The trunks are no more than the free pages. */
  lemma {:induction false} TrunkCount(chain: seq<Trunk>)
    ensures |chain| <= |Bag(chain)|
  {
    if chain != [] { TrunkCount(chain[1..]); }
  }

  lemma {:induction false} ChainEntry(pages: map<nat, TrunkData>, chain: seq<Trunk>, nPage: nat, i: nat)
    requires Stored(pages, chain) && Sound(chain, nPage)
    ensures i < |chain| ==>
      && chain[i].pgno in pages && pages[chain[i].pgno] == TrunkData(HeadOf(chain, i + 1), chain[i].leaves)
      && 2 <= chain[i].pgno <= nPage
  {
    if i < |chain| {
      assert TrunkAt(pages, chain, i);
      TrunksApart(chain, nPage, i, i);
    }
  }

  /** The link to trunk `i` as stored in the header or in the trunk before it. */
  lemma {:induction false} NextTrunk(pages: map<nat, TrunkData>, chain: seq<Trunk>, nPage: nat, i: nat)
    requires Stored(pages, chain) && Sound(chain, nPage) && i <= |chain|
    ensures i > 0 ==> chain[i - 1].pgno > 0 && chain[i - 1].pgno in pages && pages[chain[i - 1].pgno].next == HeadOf(chain, i)
    ensures if i == |chain| then HeadOf(chain, i) == 0 else HeadOf(chain, i) == chain[i].pgno && 2 <= chain[i].pgno <= nPage
  {
    ChainEntry(pages, chain, nPage, i);
    if i > 0 { ChainEntry(pages, chain, nPage, i - 1); }
  }

  lemma {:induction false} LeafInFile(chain: seq<Trunk>, nPage: nat, i: nat, j: nat)
    requires Sound(chain, nPage) && i < |chain| && j < |chain[i].leaves|
    ensures 2 <= chain[i].leaves[j] <= nPage
  {
    TrunkInBag(chain, i);
    assert chain[i].leaves[j] in Bag(chain);
  }

  /** The page after a pointer-map page is a data page, unless it is the pending page, and then the one
      after that is. */
  lemma {:induction false} AfterMap(g: Geometry, n: nat)
    requires Sensible(g) && g.entries >= 2 && n >= 2 && IsMap(g, n) && n != g.pending
    ensures !IsMap(g, n + 1)
    ensures n + 1 == g.pending ==> !IsMap(g, n + 2)
  {
    MapPages(g, n);
    MapPages(g, n + 1);
    MapPages(g, n + 2);
    if IsSlot(g, n) { SlotGap(g, n); } else { SlotGap(g, g.pending); }
  }

  /** The first trunk page, when there is one. */
  lemma {:induction false} FirstTrunk(pages: map<nat, TrunkData>, chain: seq<Trunk>, nPage: nat)
    requires Stored(pages, chain) && Sound(chain, nPage)
    ensures |Bag(chain)| != 0 <==> chain != []
    ensures chain != [] ==>
      && chain[0].pgno in pages && pages[chain[0].pgno] == TrunkData(HeadOf(chain, 1), chain[0].leaves)
      && 2 <= chain[0].pgno <= nPage
  {
    if chain != [] {
      TrunkInBag(chain, 0);
      assert TrunkAt(pages, chain, 0);
      assert Bag(chain)[chain[0].pgno] == 1;
      assert Bag(chain) != multiset{};
    }
  }

  lemma {:induction false} AddLeaf(pages: map<nat, TrunkData>, chain: seq<Trunk>, nPage: nat, p: nat)
    requires Stored(pages, chain) && Sound(chain, nPage) && chain != [] && p !in Bag(chain) && 2 <= p <= nPage
    ensures var t := Trunk(chain[0].pgno, chain[0].leaves + [p]);
      && Stored(pages[t.pgno := TrunkData(HeadOf(chain, 1), t.leaves)], [t] + chain[1..])
      && Bag([t] + chain[1..]) == Bag(chain) + multiset{p} && Sound([t] + chain[1..], nPage)
      && |Bag([t] + chain[1..])| == |Bag(chain)| + 1
  {
    var t := Trunk(chain[0].pgno, chain[0].leaves + [p]);
    StoredReplace(pages, chain, nPage, 0, t);
    assert chain[..0] + [t] + chain[1..] == [t] + chain[1..];
    assert ([t] + chain[1..])[1..] == chain[1..];
  }

  lemma {:induction false} AddTrunk(chain: seq<Trunk>, nPage: nat, p: nat)
    requires Sound(chain, nPage) && p !in Bag(chain) && 2 <= p <= nPage
    ensures var r := [Trunk(p, [])] + chain;
      Bag(r) == Bag(chain) + multiset{p} && Sound(r, nPage) && |Bag(r)| == |Bag(chain)| + 1
  {
    var r := [Trunk(p, [])] + chain;
    assert r[1..] == chain;
  }
}
