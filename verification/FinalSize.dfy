/** The size of an auto-vacuum database after vacuuming (finalDbSize in btree.c:3746-3762). */
module FinalSize {
  import opened PageMap

  /** Sizes that differ by the 32-bit wrap-around of Pgno are the same. */
  const PGNO := 0x1_0000_0000

  /** nPtrmap: the pointer-map pages that go, computed in 32-bit arithmetic. */
  function PtrmapFreed(g: Geometry, nOrig: nat, nFree: nat): nat
    requires g.entries > 0
  {
    (nFree - nOrig + PtrmapPageno(g, nOrig) + g.entries) % PGNO / g.entries
  }

  /** The first guess at the final size, before special pages at the end are dropped. */
  function Guess(g: Geometry, nOrig: nat, nFree: nat): int
    requires g.entries > 0
  {
    var n := nOrig - nFree - PtrmapFreed(g, nOrig, nFree);
    if nOrig > g.pending && n < g.pending then n - 1 else n
  }

  /** A database of `nOrig` pages of which `nFree` are free; the last one is a data page, and page 1 is
      never free. */
  ghost predicate Vacuumable(g: Geometry, nOrig: nat, nFree: nat)
  {
    Sensible(g) && 1 <= nOrig <= 0x7fff_ffff && g.entries < 0x1_0000 && !Special(g, nOrig) && nFree < DataPages(g, nOrig)
  }

  /** The group (pointer-map slot and the pages it describes) of a page, and its place in the group. */
  lemma {:induction false} Group(g: Geometry, n: nat)
    requires Sensible(g) && n >= 2
    ensures var k, s := (n - 2) / (g.entries + 1), (n - 2) % (g.entries + 1);
      && n == 2 + k * (g.entries + 1) + s && s <= g.entries
      && MapSlots(g, n) == k + 1 && (IsSlot(g, n) <==> s == 0)
  {
    var j := g.entries + 1;
    assert j * ((n - 2) / j) + (n - 2) % j == n - 2;
    assert (n - 2) / j * j == j * ((n - 2) / j);
  }

  /** The distance from the last pointer-map page to the end of the database. */
  lemma {:induction false} LastGroup(g: Geometry, nOrig: nat)
    requires Sensible(g) && nOrig >= 2 && !Special(g, nOrig)
    ensures var k, s := (nOrig - 2) / (g.entries + 1), (nOrig - 2) % (g.entries + 1);
      var m := PtrmapPageno(g, nOrig);
      && 1 <= nOrig - m <= g.entries
      && (m == 2 + k * (g.entries + 1) || (m == 3 + k * (g.entries + 1) && g.pending == 2 + k * (g.entries + 1) && IsSlot(g, g.pending)))
  {
    Group(g, nOrig);
    SlotBelow(g, nOrig);
    MapPages(g, nOrig);
  }

  /** PTRMAP_PTROFFSET: where the entry of page `pgno` starts on its pointer-map page. */
  function PtrmapOffset(g: Geometry, pgno: nat): int
  {
    5 * (pgno - PtrmapPageno(g, pgno) - 1)
  }

  /** The entry of a data page lies within a page that is a pointer-map page indeed, and apart from the
      entry of every other data page, even when the pending page has displaced the map page. */
  lemma {:induction false} EntryFits(g: Geometry, usable: nat, p: nat, q: nat)
    requires Sensible(g) && g.entries == usable / 5 && p >= 2 && q >= 2 && !Special(g, p) && !Special(g, q) && p != q
    ensures IsMap(g, PtrmapPageno(g, p)) && PtrmapPageno(g, p) < p
    ensures 0 <= PtrmapOffset(g, p) && PtrmapOffset(g, p) + 5 <= usable
    ensures PtrmapPageno(g, p) == PtrmapPageno(g, q) ==>
      PtrmapOffset(g, p) + 5 <= PtrmapOffset(g, q) || PtrmapOffset(g, q) + 5 <= PtrmapOffset(g, p)
  {
    LastGroup(g, p);
    SlotBelow(g, p);
    MapPages(g, PtrmapPageno(g, p));
  }

  /** nPtrmap without the wrap-around: it rounds down (nFree + entries - r) / entries, where `r` pages
      follow the last pointer-map page. */
  lemma {:induction false} FreedMaps(g: Geometry, nOrig: nat, nFree: nat)
    requires Vacuumable(g, nOrig, nFree) && nOrig >= 2
    ensures var q, r := PtrmapFreed(g, nOrig, nFree), nOrig - PtrmapPageno(g, nOrig);
      q * g.entries <= nFree + g.entries - r < q * g.entries + g.entries
  {
    LastGroup(g, nOrig);
    LastMap(g, nOrig);
    var x := nFree + g.entries - (nOrig - PtrmapPageno(g, nOrig));
    hide PtrmapPageno, Special;
    assert x % PGNO == x;
    Quotient(x, g.entries);
  }

  lemma {:induction false} Quotient(x: nat, e: nat)
    requires e > 0
    ensures x / e * e <= x < x / e * e + e
  {
    assert e * (x / e) + x % e == x;
    assert x / e * e == e * (x / e);
  }

  lemma {:induction false} LastMap(g: Geometry, nOrig: nat)
    requires Sensible(g) && nOrig >= 2 && !Special(g, nOrig)
    ensures DataPages(g, nOrig) <= nOrig - 1
  {
    DataFormula(g, nOrig);
    Group(g, nOrig);
  }

  /** How many map slots precede a page given by its group and place. */
  lemma {:induction false} SlotsAt(g: Geometry, n: nat, k: nat, s: nat)
    requires Sensible(g) && n == 2 + k * (g.entries + 1) + s && s <= g.entries
    ensures MapSlots(g, n) == k + 1
  {
    DivUnique(n - 2, g.entries + 1, k, s);
  }

  /** The arithmetic of Guess when the last pointer-map page is on its slot: the guess is `s` places
      into group `k`, or page 1. */
  lemma {:induction false} GuessOnSlot(e: nat, k0: nat, r: nat, nFree: nat, q: nat)
    requires e > 0 && 1 <= r <= e
    requires q * e <= nFree + e - r < q * e + e
    requires nFree <= k0 * e + r
    ensures var n := 2 + k0 * (e + 1) + r - nFree - q;
      var s := q * e + r - nFree;
      && 1 <= s <= e && q <= k0 + 1
      && n == 2 + (k0 - q) * (e + 1) + s
      && (q == k0 + 1 ==> s == e && n == 1)
  {
    assert (k0 - q) * (e + 1) == k0 * (e + 1) - q * (e + 1);
    assert q * (e + 1) == q * e + q && k0 * (e + 1) == k0 * e + k0;
    if q > k0 + 1 { MulGap(k0 + 1, q, e); }
    assert (k0 + 1) * e == k0 * e + e;
  }

  /** Map slots up to a page of group `k0 - q`, or page 1 when all groups are gone. */
  lemma {:induction false} SlotsLeft(g: Geometry, n: int, k0: nat, q: nat, s: nat)
    requires Sensible(g) && 1 <= s <= g.entries && q <= k0 + 1 && n == 2 + (k0 - q) * (g.entries + 1) + s
    requires q == k0 + 1 ==> n == 1
    ensures n >= 1 && MapSlots(g, n) == k0 - q + 1 && !IsSlot(g, n)
  {
    if q <= k0 {
      MulNonNegative(k0 - q, g.entries + 1);
      SlotsAt(g, n, k0 - q, s);
      DivUnique(n - 2, g.entries + 1, k0 - q, s);
    }
  }

  lemma {:induction false} MulNonNegative(a: nat, b: nat)
    ensures a * b >= 0
  {
  }

  /** The guess leaves exactly the data pages that are not free, wherever the pending page lies. */
  lemma {:induction false} GuessRight(g: Geometry, nOrig: nat, nFree: nat)
    requires Vacuumable(g, nOrig, nFree)
    ensures 1 <= Guess(g, nOrig, nFree) <= nOrig
    ensures DataPages(g, Guess(g, nOrig, nFree)) == DataPages(g, nOrig) - nFree
  {
    if nOrig == 1 {
      GuessOne(g, nFree);
    } else {
      var k0, r0 := (nOrig - 2) / (g.entries + 1), (nOrig - 2) % (g.entries + 1);
      LastGroup(g, nOrig);
      Group(g, nOrig);
      hide Guess, DataPages, MapSlots, Special, Extra, IsSlot;
      if PtrmapPageno(g, nOrig) == 2 + k0 * (g.entries + 1) {
        GuessRightPlain(g, nOrig, nFree, k0, r0);
      } else {
        GuessRightDisplaced(g, nOrig, nFree, k0, r0);
      }
    }
  }

  lemma {:induction false} GuessRightPlain(g: Geometry, nOrig: nat, nFree: nat, k0: nat, r0: nat)
    requires Vacuumable(g, nOrig, nFree) && 1 <= r0 <= g.entries
    requires nOrig == 2 + k0 * (g.entries + 1) + r0 && PtrmapPageno(g, nOrig) == 2 + k0 * (g.entries + 1)
    ensures 1 <= Guess(g, nOrig, nFree) <= nOrig
    ensures DataPages(g, Guess(g, nOrig, nFree)) == DataPages(g, nOrig) - nFree
  {
    hide Guess, MapSlots, Special, IsSlot, PtrmapFreed, PtrmapPageno;
    var e, q := g.entries, PtrmapFreed(g, nOrig, nFree);
    MulNonNegative(k0, e + 1);
    DataIs(g, nOrig, k0, r0);
    SlotsAt(g, nOrig, k0, r0);
    FreedMaps(g, nOrig, nFree);
    GuessOnSlot(e, k0, r0, nFree, q);
    SlotsLeft(g, nOrig - nFree - q, k0, q, q * e + r0 - nFree);
    GuessPlain(g, nOrig, nFree, k0, q);
  }

  lemma {:induction false} GuessRightDisplaced(g: Geometry, nOrig: nat, nFree: nat, k0: nat, r0: nat)
    requires Vacuumable(g, nOrig, nFree) && 2 <= r0 <= g.entries && IsSlot(g, g.pending)
    requires nOrig == 2 + k0 * (g.entries + 1) + r0 && PtrmapPageno(g, nOrig) == 3 + k0 * (g.entries + 1)
    requires g.pending == 2 + k0 * (g.entries + 1)
    ensures 1 <= Guess(g, nOrig, nFree) <= nOrig
    ensures DataPages(g, Guess(g, nOrig, nFree)) == DataPages(g, nOrig) - nFree
  {
    hide Guess, MapSlots, Special, IsSlot, PtrmapFreed, PtrmapPageno;
    var e, q := g.entries, PtrmapFreed(g, nOrig, nFree);
    MulNonNegative(k0, e + 1);
    DataIs(g, nOrig, k0, r0);
    SlotsAt(g, nOrig, k0, r0);
    FreedMaps(g, nOrig, nFree);
    GuessOnSlot(e, k0, r0 - 1, nFree, q);
    SlotsLeft(g, nOrig - nFree - q - 1, k0, q, q * e + r0 - 1 - nFree);
    GuessDisplaced(g, nOrig, nFree, k0, q, r0);
  }

  lemma {:induction false} GuessOne(g: Geometry, nFree: nat)
    requires Vacuumable(g, 1, nFree)
    ensures Guess(g, 1, nFree) == 1 && nFree == 0
  {
    MapPages(g, 1);
    assert DataPages(g, 0) == 0;
    assert DataPages(g, 1) <= 1;
    assert (g.entries - 1) % PGNO == g.entries - 1;
    DivUnique(g.entries - 1, g.entries, 0, g.entries - 1);
  }

  lemma {:induction false} DataIs(g: Geometry, n: nat, k: nat, s: nat)
    requires Sensible(g) && n == 2 + k * (g.entries + 1) + s && s <= g.entries
    ensures DataPages(g, n) == 1 + k * g.entries + s - Extra(g, n)
  {
    DataFormula(g, n);
    SlotsAt(g, n, k, s);
    assert k * (g.entries + 1) == k * g.entries + k;
  }

  /** The last pointer-map page lies on its slot. */
  lemma {:induction false} GuessPlain(g: Geometry, nOrig: nat, nFree: nat, k0: nat, q: nat)
    requires Vacuumable(g, nOrig, nFree) && nOrig >= 2 && q == PtrmapFreed(g, nOrig, nFree)
    requires MapSlots(g, nOrig) == k0 + 1
    requires nOrig - nFree - q >= 1 && MapSlots(g, nOrig - nFree - q) == k0 - q + 1 && !IsSlot(g, nOrig - nFree - q)
    ensures 1 <= Guess(g, nOrig, nFree) <= nOrig
    ensures DataPages(g, Guess(g, nOrig, nFree)) == DataPages(g, nOrig) - nFree
  {
    hide PtrmapFreed, MapSlots, PtrmapPageno, IsSlot;
    var n: nat := nOrig - nFree - q;
    DataFormula(g, nOrig);
    DataFormula(g, n);
    MapPages(g, n);
    assert DataPages(g, 0) == 0;
    assert DataPages(g, n) == DataPages(g, n - 1) + if Special(g, n) then 0 else 1;
  }

  /** The pending page sits on the last slot and has pushed the pointer-map page up by one. */
  lemma {:induction false} GuessDisplaced(g: Geometry, nOrig: nat, nFree: nat, k0: nat, q: nat, r0: nat)
    requires Vacuumable(g, nOrig, nFree) && nOrig >= 2 && q == PtrmapFreed(g, nOrig, nFree)
    requires MapSlots(g, nOrig) == k0 + 1 && IsSlot(g, g.pending) && g.pending == 2 + k0 * (g.entries + 1)
    requires nOrig == g.pending + r0 && 2 <= r0 <= g.entries
    requires var n2 := nOrig - nFree - q - 1;
      && n2 >= 1 && MapSlots(g, n2) == k0 - q + 1
      && n2 == 2 + (k0 - q) * (g.entries + 1) + q * g.entries + r0 - 1 - nFree && 1 <= q * g.entries + r0 - 1 - nFree <= g.entries
    ensures 1 <= Guess(g, nOrig, nFree) <= nOrig
    ensures DataPages(g, Guess(g, nOrig, nFree)) == DataPages(g, nOrig) - nFree
  {
    hide PtrmapFreed, MapSlots, PtrmapPageno, IsSlot;
    var n2: nat := nOrig - nFree - q - 1;
    DataFormula(g, nOrig);
    DataFormula(g, n2);
    DataFormula(g, n2 + 1);
    NextSlots(g, nOrig, nFree, k0, q, r0);
  }

  lemma {:induction false} NextSlots(g: Geometry, nOrig: nat, nFree: nat, k0: nat, q: nat, r0: nat)
    requires Sensible(g) && g.pending == 2 + k0 * (g.entries + 1)
    requires nOrig == g.pending + r0 && 2 <= r0 <= g.entries
    requires var n2 := nOrig - nFree - q - 1;
      n2 >= 1 && n2 == 2 + (k0 - q) * (g.entries + 1) + q * g.entries + r0 - 1 - nFree && 1 <= q * g.entries + r0 - 1 - nFree <= g.entries
    ensures var n := nOrig - nFree - q;
      && (q == 0 ==> MapSlots(g, n) == k0 + 1 && n > g.pending)
      && (q > 0 ==> n <= g.pending && (n == g.pending ==> MapSlots(g, n) == k0 + 1 && q == 1))
  {
    var e := g.entries;
    if q == 0 {
      SlotsAt(g, nOrig - nFree, k0, r0 - nFree);
    } else {
      assert (k0 - q) * (e + 1) == k0 * (e + 1) - q * (e + 1);
      MulGap(0, q, e + 1);
      if q > 1 { MulGap(1, q, e + 1); }
      if nOrig - nFree - q == g.pending { SlotsAt(g, g.pending, k0, 0); }
    }
  }
}
