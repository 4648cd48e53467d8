/** Which pages of an auto-vacuum database hold data: all but the pointer-map pages and the page that
    contains the pending byte (ptrmapPageno in btree.c, PTRMAP_ISPAGE in btreeInt.h). */
module PageMap {
  /** `entries` is the number of pages a pointer-map page describes, `pending` the page of the pending
      byte. */
  datatype Geometry = Geometry(entries: nat, pending: nat)

  ghost predicate Sensible(g: Geometry)
  {
    g.entries > 0 && g.pending >= 2
  }

  /** ptrmapPageno: the pointer-map page with the entry for `pgno`; zero for page 1. */
  function PtrmapPageno(g: Geometry, pgno: nat): nat
  {
    if pgno < 2 then 0
    else
      var ret := (pgno - 2) / (g.entries + 1) * (g.entries + 1) + 2;
      if ret == g.pending then ret + 1 else ret
  }

  predicate IsMap(g: Geometry, pgno: nat)
  {
    PtrmapPageno(g, pgno) == pgno
  }

  predicate Special(g: Geometry, pgno: nat)
  {
    IsMap(g, pgno) || pgno == g.pending
  }

  /** How many of the pages 1 to `n` hold data. */
  function DataPages(g: Geometry, n: nat): (d: nat)
    ensures d <= n
  {
    if n == 0 then 0 else DataPages(g, n - 1) + if Special(g, n) then 0 else 1
  }

  // ------------------------------------------------------------------ counting without the pending page

  /** Pages 2, 2 + J, 2 + 2 J, ... up to `n`. */
  function MapSlots(g: Geometry, n: nat): nat
  {
    if n < 2 then 0 else (n - 2) / (g.entries + 1) + 1
  }

  predicate IsSlot(g: Geometry, n: nat)
  {
    n >= 2 && (n - 2) % (g.entries + 1) == 0
  }

  /** One more special page than there are map slots, once the pending page is passed; if that page
      sits on a slot, the map page moves up and it is the map page that makes the difference. */
  function Extra(g: Geometry, n: nat): nat
  {
    if n >= (if IsSlot(g, g.pending) then g.pending + 1 else g.pending) then 1 else 0
  }

  lemma {:induction false} DivUnique(n: nat, j: nat, q: nat, r: nat)
    requires r < j && n == q * j + r
    ensures n / j == q && n % j == r
  {
    var d := n / j;
    assert d * j + n % j == n by { assert j * (n / j) + n % j == n; }
    if d < q { MulGap(d, q, j); }
    if q < d { MulGap(q, d, j); }
  }

  lemma {:induction false} MulGap(a: nat, b: nat, j: nat)
    requires a < b
    ensures a * j + j <= b * j
  {
    assert b * j == a * j + (b - a) * j;
    assert (b - a) * j >= j by { assert (b - a) * j == j + (b - a - 1) * j; }
  }

  lemma {:induction false} DivNext(n: nat, j: nat)
    requires j >= 2
    ensures (n + 1) / j == n / j + if (n + 1) % j == 0 then 1 else 0
    ensures (n + 1) % j == 0 ==> n % j == j - 1
    ensures (n + 1) % j != 0 ==> (n + 1) % j == n % j + 1
  {
    var q, r := n / j, n % j;
    assert n == q * j + r by { assert j * (n / j) + n % j == n; }
    if r + 1 < j {
      DivUnique(n + 1, j, q, r + 1);
    } else {
      assert n + 1 == (q + 1) * j;
      DivUnique(n + 1, j, q + 1, 0);
    }
  }

  /** A page is a map page if it is a slot other than the pending page, or follows the pending page on
      a slot. */
  lemma {:induction false} MapPages(g: Geometry, n: nat)
    requires Sensible(g) && n >= 1
    ensures IsMap(g, n) <==> (IsSlot(g, n) && n != g.pending) || (IsSlot(g, g.pending) && n == g.pending + 1)
  {
    var j := g.entries + 1;
    if n >= 2 {
      assert (n - 2) / j * j + (n - 2) % j == n - 2 by { assert j * ((n - 2) / j) + (n - 2) % j == n - 2; }
      if n > 2 {
        DivNext(n - 3, j);
        if n - 1 == g.pending { assert g.pending - 2 == n - 3; }
        SlotBelow(g, n);
      }
    }
  }

  /** The slot at or before `n` is the pending page only if `n` is that page or in its group. */
  lemma {:induction false} SlotBelow(g: Geometry, n: nat)
    requires n >= 2
    ensures var s := (n - 2) / (g.entries + 1) * (g.entries + 1) + 2;
      s <= n && IsSlot(g, s)
  {
    var j := g.entries + 1;
    var q := (n - 2) / j;
    assert j * q + (n - 2) % j == n - 2 && q * j == j * q;
    DivUnique(q * j, j, q, 0);
  }

  lemma {:induction false} DataFormula(g: Geometry, n: nat)
    requires Sensible(g) && n >= 1
    ensures DataPages(g, n) == n - MapSlots(g, n) - Extra(g, n)
  {
    MapPages(g, n);
    if n == 1 {
      assert DataPages(g, 0) == 0;
    } else {
      DataFormula(g, n - 1);
      if n == 2 {
        assert 0 / (g.entries + 1) == 0 && 0 % (g.entries + 1) == 0;
      } else {
        DivNext(n - 3, g.entries + 1);
      }
      NoSlotAfter(g, n);
    }
  }

  /** Two slots are never adjacent. */
  lemma {:induction false} NoSlotAfter(g: Geometry, n: nat)
    requires Sensible(g) && n >= 2
    ensures !(IsSlot(g, n) && IsSlot(g, n - 1))
  {
    if n > 2 { DivNext(n - 3, g.entries + 1); }
  }

  /** Pointer-map slots are at least three pages apart. */
  lemma {:induction false} SlotGap(g: Geometry, n: nat)
    requires g.entries >= 2 && n >= 2 && IsSlot(g, n)
    ensures !IsSlot(g, n + 1) && !IsSlot(g, n + 2)
  {
    DivNext(n - 2, g.entries + 1);
    DivNext(n - 1, g.entries + 1);
  }

  /** There are never three special pages in a row. */
  lemma {:induction false} NoThree(g: Geometry, n: nat)
    requires Sensible(g) && g.entries >= 2 && n >= 1
    ensures !Special(g, n) || !Special(g, n + 1) || !Special(g, n + 2)
  {
    hide PtrmapPageno, IsSlot;
    MapPages(g, n);
    MapPages(g, n + 1);
    MapPages(g, n + 2);
    if n >= 2 && IsSlot(g, n) { SlotGap(g, n); }
    if IsSlot(g, n + 1) { SlotGap(g, n + 1); }
    if n == 1 { assert !IsSlot(g, 1) by { SlotTwo(g); } }
    SlotTwo(g);
  }

  lemma {:induction false} SlotTwo(g: Geometry)
    ensures !IsSlot(g, 0) && !IsSlot(g, 1)
  {
  }

  // ------------------------------------------------------------------ uniqueness

  lemma {:induction false} DataMonotone(g: Geometry, a: nat, b: nat)
    requires a <= b
    ensures DataPages(g, a) <= DataPages(g, b)
    ensures a < b && !Special(g, b) ==> DataPages(g, a) < DataPages(g, b)
    decreases b
  {
    if a < b { DataMonotone(g, a, b - 1); }
  }

  /** A database size that is no special page is determined by its number of data pages. */
  lemma {:induction false} SizeUnique(g: Geometry, a: nat, b: nat)
    requires !Special(g, a) && !Special(g, b) && DataPages(g, a) == DataPages(g, b)
    ensures a == b
  {
    if a < b { DataMonotone(g, a, b); }
    if b < a { DataMonotone(g, b, a); }
  }
}
