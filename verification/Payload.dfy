/** Storing, reading, overwriting and freeing payloads: fillInCell, accessPayload, getOverflowPage and
    clearCell (btree.c), and the overflow walk of statDecodePage (dbstat.c). */
module Payload {
  import opened PageLayout
  import opened CellFormat
  import opened Varint
  import opened CellText
  import opened OverflowChain
  import opened PageMap

  /** A pointer-map entry. */
  datatype Entry = Entry(eType: nat, parent: nat)

  const PTRMAP_FREEPAGE := 2
  const PTRMAP_OVERFLOW1 := 3
  const PTRMAP_OVERFLOW2 := 4
  const MAX_PAGE := 0x7fff_fff0

  /** An entry for a second or later overflow page names the page before it. */
  ghost predicate EntryOk(pages: Pages, ptrmap: map<nat, Entry>, p: nat)
  {
    p in ptrmap && ptrmap[p].eType == PTRMAP_OVERFLOW2 ==>
      p >= 2 && ptrmap[p].parent in pages && |pages[ptrmap[p].parent]| >= 4 && Get4(pages[ptrmap[p].parent], 0) == p
  }

  /** All entries but that of `but` are right (zero for no exception). */
  ghost predicate Mapped(pages: Pages, ptrmap: map<nat, Entry>, but: nat)
  {
    forall p: nat :: p != 0 && p != but ==> EntryOk(pages, ptrmap, p)
  }

  /** Pages of the right size that may hold data. */
  ghost predicate SizedPages(pages: Pages, usableSize: nat, nPage: nat, autoVacuum: bool, g: Geometry)
  {
    forall p :: p in pages ==> 1 <= p <= nPage && |pages[p]| == usableSize && (autoVacuum ==> !Special(g, p))
  }

  /** The same pages with the same first four bytes. */
  ghost predicate SameHeads(a: Pages, b: Pages)
  {
    a.Keys == b.Keys && forall p :: p in a ==> |a[p]| == |b[p]| && (|a[p]| >= 4 ==> a[p][0..4] == b[p][0..4])
  }

  lemma {:induction false} HeadsMapped(a: Pages, b: Pages, ptrmap: map<nat, Entry>)
    requires SameHeads(a, b) && Mapped(a, ptrmap, 0)
    ensures Mapped(b, ptrmap, 0)
  {
    hide Get4;
    forall p: nat | p != 0 ensures EntryOk(b, ptrmap, p) {
      assert EntryOk(a, ptrmap, p);
      if p in ptrmap && ptrmap[p].eType == PTRMAP_OVERFLOW2 {
        Get4Same(a[ptrmap[p].parent], 0, b[ptrmap[p].parent], 0);
      }
    }
  }

  class BtShared {
    const usableSize: nat
    const autoVacuum: bool
    const g: Geometry
    /** The pages in use; what a free page holds does not matter. */
    var pages: Pages
    var ptrmap: map<nat, Entry>
    var nPage: nat

    ghost predicate Sized()
      reads this
    {
      && Sensible(g) && g.entries >= 2 && MIN_USABLE <= usableSize <= MAX_USABLE
      && SizedPages(pages, usableSize, nPage, autoVacuum, g)
      && (autoVacuum ==> forall p :: 2 <= p <= nPage && !Special(g, p) ==> p in ptrmap)
    }

    ghost predicate Valid()
      reads this
    {
      Sized() && (autoVacuum ==> Mapped(pages, ptrmap, 0))
    }

    /** The first page at or after `n` that can hold data. */
    method DataPage(n: nat) returns (p: nat)
      requires Sensible(g) && g.entries >= 2 && n >= 2
      ensures n <= p <= n + 2 && !Special(g, p) && forall q :: n <= q < p ==> Special(g, q)
    {
      hide IsMap, Special;
      NoThree(g, n);
      p := n;
      while Special(g, p)
        invariant n <= p <= n + 2 && forall q :: n <= q < p ==> Special(g, q)
        decreases n + 3 - p
      {
        assert p == n || p == n + 1 || p == n + 2;
        p := p + 1;
      }
    }

    /** getOverflowPage: the next page of a chain, guessed from the pointer map where that is possible
        without reading page `ovfl`. */
    method GetOverflowPage(ovfl: nat) returns (next: nat)
      requires Valid() && ovfl in pages && ovfl >= 1
      ensures |pages[ovfl]| == usableSize && next == Get4(pages[ovfl], 0)
    {
      hide Get4, Special, IsMap;
      next := 0;
      if autoVacuum {
        var iGuess := DataPage(ovfl + 1);
        if iGuess <= nPage {
          var entry := ptrmap[iGuess];
          if entry.eType == PTRMAP_OVERFLOW2 && entry.parent == ovfl {
            assert EntryOk(pages, ptrmap, iGuess);
            return iGuess;
          }
        }
      }
      next := Get4(pages[ovfl], 0);
    }

    // ---------------------------------------------------------------- copying

    lemma StaysValid(was: Pages)
      requires Sensible(g) && g.entries >= 2 && MIN_USABLE <= usableSize <= MAX_USABLE
      requires autoVacuum ==> forall p :: 2 <= p <= nPage && !Special(g, p) ==> p in ptrmap
      requires SizedPages(was, usableSize, nPage, autoVacuum, g) && (autoVacuum ==> Mapped(was, ptrmap, 0))
      requires SameHeads(was, pages)
      ensures Valid()
    {
      hide Special, Mapped, SizedPages, SameHeads;
      HeadsValid(was, pages, ptrmap, usableSize, nPage, autoVacuum, g);
    }

    /** copyPayload: between `n` bytes of page `p` and of the buffer. */
    method CopyPayload(p: nat, at: nat, buf: array<Byte>, from: nat, n: nat, eOp: bool)
      requires p in pages && at + n <= |pages[p]| && from + n <= buf.Length
      modifies `pages, buf
      ensures eOp ==> buf[..] == old(buf[..]) && pages == old(pages)[p := Splice(old(pages)[p], at, buf[from..from + n])]
      ensures !eOp ==> pages == old(pages) && buf[..] == Splice(old(buf[..]), from, pages[p][at..at + n])
    {
      if eOp {
        pages := pages[p := pages[p][..at] + buf[from..from + n] + pages[p][at + n..]];
      } else {
        ghost var want := Splice(buf[..], from, pages[p][at..at + n]);
        ghost var was := buf[..];
        forall k | 0 <= k < n { buf[from + k] := pages[p][at + k]; }
        forall k | 0 <= k < buf.Length ensures buf[..][k] == want[k] {
          if from <= k < from + n {
            assert buf[from + (k - from)] == pages[p][at + (k - from)];
          } else {
            assert buf[k] == was[k];
          }
        }
      }
    }

    /** One copy to or from overflow page `i`. */
    method CopyChunk(sh: Shape, ghost pg: nat, ghost cell: nat, ghost key: int, ghost payload: seq<Byte>, ghost ps: seq<nat>,
                     ghost i: nat, p: nat, offset: nat, buf: array<Byte>, from: nat, a: nat, eOp: bool)
      requires PayloadAt(sh, pages, pg, cell, key, payload, ps) && i < |ps| && p == ps[i] && offset + a <= sh.u - 4
      requires ChunkAt(Local(sh.u, sh.kind, |payload|), sh.u - 4, i) + offset + a <= |payload| && from + a <= buf.Length
      modifies `pages, buf
      ensures SameHeads(old(pages), pages) && KeptBut(old(pages), pages, {p})
      ensures var pos := ChunkAt(Local(sh.u, sh.kind, |payload|), sh.u - 4, i) + offset;
        Copied(sh, pages, pg, cell, key, payload, ps, pos, old(buf[..]), from, a, eOp, buf[..]) && (!eOp ==> pages == old(pages))
    {
      hide PayloadAt, ChunkAt, Local, Splice;
      PayloadParts(sh, pages, pg, cell, key, payload, ps);
      ReadChunk(sh, pages, payload, ps, i, offset, a);
      ghost var d := pages[p];
      ghost var b := buf[from..from + a];
      CopyPayload(p, offset + 4, buf, from, a, eOp);
      if eOp {
        WriteChunk(sh, old(pages), pg, cell, key, payload, ps, i, offset, b);
        SpliceOutside(d, 4 + offset, b, 0, 4);
      }
    }

    /** One copy to or from the local part of the payload. */
    method CopyLocal(sh: Shape, pg: nat, cell: nat, ghost key: int, ghost payload: seq<Byte>, ghost ps: seq<nat>, pPayload: nat,
                     offset: nat, buf: array<Byte>, a: nat, eOp: bool)
      requires PayloadAt(sh, pages, pg, cell, key, payload, ps) && cell >= 4
      requires pPayload == cell + HeaderLen(sh, key, |payload|)
      requires offset + a <= Local(sh.u, sh.kind, |payload|) && a <= buf.Length
      modifies `pages, buf
      ensures SameHeads(old(pages), pages) && KeptBut(old(pages), pages, {pg})
      ensures Copied(sh, pages, pg, cell, key, payload, ps, offset, old(buf[..]), 0, a, eOp, buf[..]) && (!eOp ==> pages == old(pages))
    {
      hide ChunkAt, Local, Splice, OverflowHolds, CellAt, HeaderLen;
      CellRoom(sh, pages[pg], cell, key, |payload|);
      LocalInside(sh, pages[pg], cell, key, |payload|);
      ghost var d := pages[pg];
      ghost var b := buf[0..a];
      SubSlice(d, pPayload, pPayload + Local(sh.u, sh.kind, |payload|), offset, offset + a);
      SubSlice(payload, 0, Local(sh.u, sh.kind, |payload|), offset, offset + a);
      CopyPayload(pg, pPayload + offset, buf, 0, a, eOp);
      if eOp {
        WriteLocal(sh, old(pages), pg, cell, key, payload, ps, offset, b);
        SpliceOutside(d, pPayload + offset, b, 0, 4);
      }
    }

    // ---------------------------------------------------------------- filling a cell

    /** Whether a page number is never handed out. */
    predicate Reserved(p: nat)
    {
      if autoVacuum then Special(g, p) else p == g.pending
    }

    /** allocateBtreePage in its plainest mode, any free page or else the next one of the file, and the
        pointer-map entry that fillInCell writes for it: first overflow page if `prior` is zero. */
    method NewOverflowPage(prior: nat) returns (p: nat)
      requires Valid() && 1 <= nPage <= MAX_PAGE
      modifies `pages, `ptrmap, `nPage
      ensures Sized() && 2 <= p <= nPage <= old(nPage) + 3 && old(nPage) <= nPage
      ensures p !in old(pages) && p in pages && pages == old(pages)[p := pages[p]]
      ensures autoVacuum ==> Mapped(pages, ptrmap, p)
      ensures autoVacuum ==> ptrmap == old(ptrmap)[p := Entry(if prior != 0 then PTRMAP_OVERFLOW2 else PTRMAP_OVERFLOW1, prior)]
      ensures !autoVacuum ==> ptrmap == old(ptrmap)
    {
      hide Special, IsMap, Get4;
      var free := set q | 2 <= q <= nPage && q !in pages && !Reserved(q);
      if free != {} {
        p :| p in free;
      } else {
        if autoVacuum {
          p := DataPage(nPage + 1);
        } else {
          p := if nPage + 1 == g.pending then nPage + 2 else nPage + 1;
        }
        nPage := p;
      }
      assert |seq(usableSize, _ => 0)| == usableSize;
      var stale: seq<Byte> :| |stale| == usableSize;
      pages := pages[p := stale];
      if autoVacuum {
        ptrmap := ptrmap[p := Entry(if prior != 0 then PTRMAP_OVERFLOW2 else PTRMAP_OVERFLOW1, prior)];
        forall q: nat | q != 0 && q != p ensures EntryOk(pages, ptrmap, q) {
          assert EntryOk(old(pages), old(ptrmap), q);
        }
      }
    }

    /** Allocate an overflow page and link it after `prior` (zero: the cell, at `at` of the buffer). */
    method GrowChain(pCell: array<Byte>, prior: nat, at: nat, ghost ps: seq<nat>, ghost local: nat, ghost done: seq<Byte>)
      returns (p: nat)
      requires Valid() && 1 <= nPage <= MAX_PAGE && Linked(pages, ps) && prior == Last(ps)
      requires Held(pages, usableSize, local, ps, done) && |done| == ChunkAt(local, usableSize - 4, |ps|)
      requires if prior == 0 then at + 4 <= pCell.Length else at == 0
      modifies `pages, `ptrmap, `nPage, pCell
      ensures Valid() && old(nPage) <= nPage <= old(nPage) + 3
      ensures 2 <= p < TWO32 && p !in old(pages) && Linked(pages, ps + [p]) && Held(pages, usableSize, local, ps + [p], done)
      ensures pages.Keys == old(pages).Keys + {p} && forall q :: q in old(pages) && q != prior ==> pages[q] == old(pages)[q]
      ensures pCell[..] == if prior == 0 then Splice(old(pCell[..]), at, Be32(p)) else old(pCell[..])
      ensures autoVacuum ==> ptrmap == old(ptrmap)[p := Entry(if prior != 0 then PTRMAP_OVERFLOW2 else PTRMAP_OVERFLOW1, prior)]
    {
      hide Get4, Be32, Splice, Held, ChunkAt, Mapped, Special, IsMap, Linked, SizedPages;
      LastIn(pages, ps);
      SizesOf(pages, usableSize, nPage, autoVacuum, g);
      p := NewOverflowPage(prior);
      ghost var mid := pages;
      SizesOf(pages, usableSize, nPage, autoVacuum, g);
      if prior == 0 {
        PutBytes(pCell, at, Be32(p));
      } else {
        pages := pages[prior := Splice(pages[prior], 0, Be32(p))];
      }
      pages := pages[p := Splice(pages[p], 0, Be32(0))];
      Heads(old(pages), mid, pages, prior, p);
      SpliceTails(old(pages), pages, ps, prior, p);
      LinkPage(old(pages), ps, pages, p);
      AddPage(old(pages), usableSize, local, ps, done, pages, p);
      if autoVacuum { NowMapped(old(pages), pages, old(ptrmap), ptrmap, prior, p); }
      SizedAfter(mid, pages, usableSize, nPage, autoVacuum, g);
    }

    /** put4byte and memcpy into the buffer. */
    method PutBytes(pCell: array<Byte>, at: nat, b: seq<Byte>)
      requires at + |b| <= pCell.Length
      modifies pCell
      ensures pCell[..] == Splice(old(pCell[..]), at, b)
    {
      ghost var was := pCell[..];
      forall k | 0 <= k < |b| { pCell[at + k] := b[k]; }
      forall k | 0 <= k < pCell.Length ensures pCell[..][k] == Splice(was, at, b)[k] {
        if at <= k < at + |b| { assert pCell[at + (k - at)] == b[k - at]; } else { assert pCell[k] == was[k]; }
      }
    }

    // ---------------------------------------------------------------- filling a cell, continued

    /** Copy the next payload bytes to where they go: page `page`, or the buffer if that is zero. */
    method WriteSome(pCell: array<Byte>, page: nat, at: nat, b: seq<Byte>, ghost hdr: nat, ghost local: nat, ghost pages0: Pages,
                     ghost payload: seq<Byte>, ghost done: nat, ghost ps: seq<nat>)
      requires Valid() && Filling(usableSize, pCell[..], hdr, local, pages0, pages, payload, done, ps)
      requires done + |b| <= |payload| && b == payload[done..done + |b|] && done + |b| <= ChunkAt(local, usableSize - 4, |ps|)
      requires page == Last(ps) && at == PlaceOf(usableSize, hdr, local, done, ps)
      modifies `pages, pCell
      ensures Valid() && Filling(usableSize, pCell[..], hdr, local, pages0, pages, payload, done + |b|, ps)
      ensures hdr <= pCell.Length && pCell[..hdr] == old(pCell[..hdr])
    {
      hide Mapped, Special, SizedPages, Splice, Filling, SameHeads, ChunkAt;
      FillPlace(usableSize, pCell[..], hdr, local, pages0, pages, payload, done, ps, b);
      if page == 0 {
        ghost var d := pCell[..];
        PutBytes(pCell, at, b);
        FillLocal(usableSize, d, hdr, local, pages0, pages, payload, done, ps, b);
        SpliceOutside(d, at, b, 0, hdr);
        assert pCell[..hdr] == pCell[..][0..hdr] && d[..hdr] == d[0..hdr];
      } else {
        ghost var was := pages;
        pages := pages[page := Splice(pages[page], at, b)];
        FillPage(usableSize, pCell[..], hdr, local, pages0, was, payload, done, ps, b);
        StaysValid(was);
      }
    }

    /** The bytes of the source from `done` on, at most `n` of them, or zeros when the source is used up. */
    method Piece(src: seq<Byte>, nZero: nat, done: nat, n: nat) returns (b: seq<Byte>)
      requires 0 < n && done + n <= |src| + nZero
      ensures 0 < |b| <= n && b == ZeroFilled(src, nZero)[done..done + |b|]
    {
      var nSrc: int := |src| - done;
      if nSrc >= n {
        b := src[done..done + n];
      } else if nSrc > 0 {
        b := src[done..];
      } else {
        b := seq(n, _ => 0);
      }
    }

    /** Another overflow page for a payload that is being written. */
    method SpillOver(pCell: array<Byte>, page: nat, prior: nat, ghost hdr: nat, ghost local: nat, ghost pages0: Pages,
                     ghost ptrmap0: map<nat, Entry>, ghost payload: seq<Byte>, ghost done: nat, ghost ps: seq<nat>) returns (p: nat)
      requires Valid() && Filling(usableSize, pCell[..], hdr, local, pages0, pages, payload, done, ps) && 0 !in pages0
      requires done == ChunkAt(local, usableSize - 4, |ps|) && page == Last(ps) && 1 <= nPage <= MAX_PAGE
      requires prior == if page == 0 then hdr + local else 0
      requires autoVacuum ==> ChainMapped(ptrmap0, ptrmap, ps)
      modifies pCell, `pages, `ptrmap, `nPage
      ensures Valid() && p >= 2 && old(nPage) <= nPage <= old(nPage) + 3
      ensures Filling(usableSize, pCell[..], hdr, local, pages0, pages, payload, done, ps + [p])
      ensures hdr <= pCell.Length && pCell[..hdr] == old(pCell[..hdr])
      ensures autoVacuum ==> ChainMapped(ptrmap0, ptrmap, ps + [p])
    {
      hide Mapped, Special, SizedPages, Filling, ChunkAt, ChainMapped, Linked, Held, Splice;
      FillOut(usableSize, pCell[..], hdr, local, pages0, pages, payload, done, ps);
      p := GrowChain(pCell, page, prior, ps, local, payload[..done]);
      FillGrown(usableSize, old(pCell[..]), pCell[..], hdr, local, pages0, old(pages), pages, payload, done, ps, p);
      assert old(pCell[..])[..hdr] == old(pCell[..hdr]);
      if autoVacuum { MapGrown(ptrmap0, old(ptrmap), ptrmap, pages0, ps, p); }
    }

    /** The loop of fillInCell: the payload into the cell, and what is left into new overflow pages. */
    method Spill(pCell: array<Byte>, hdr: nat, local: nat, src: seq<Byte>, nZero: nat) returns (ghost ps: seq<nat>)
      requires Valid() && hdr + local + 4 <= pCell.Length && 0 < local < |src| + nZero
      requires 1 <= nPage && nPage + 3 * CeilOf(|src| + nZero - local, usableSize - 4) <= MAX_PAGE
      modifies pCell, `pages, `ptrmap, `nPage
      ensures Valid() && Filling(usableSize, pCell[..], hdr, local, old(pages), pages, ZeroFilled(src, nZero), |src| + nZero, ps)
      ensures pCell[..hdr] == old(pCell[..hdr])
      ensures |ps| == CeilOf(|src| + nZero - local, usableSize - 4) && nPage <= MAX_PAGE
      ensures autoVacuum ==> ChainMapped(old(ptrmap), ptrmap, ps)
    {
      hide Mapped, Special, SizedPages, Filling, ChunkAt, CeilOf, ChainMapped, ZeroFilled;
      ghost var payload, total, room := ZeroFilled(src, nZero), |src| + nZero, usableSize - 4;
      ps := [];
      ghost var pages0, head := pages, pCell[..hdr];
      var nPayload: nat, spaceLeft: nat, done: nat := |src| + nZero, local, 0;
      var page: nat, at: nat, prior: nat := 0, hdr, hdr + local;
      SizesOf(pages, usableSize, nPage, autoVacuum, g);
      FillStart(usableSize, pCell[..], hdr, local, pages, payload);
      ChunkNext(local, room, 0);
      CeilDiv(total - local, room);
      MapStart(ptrmap);
      while true
        invariant Valid() && Filling(usableSize, pCell[..], hdr, local, pages0, pages, payload, done, ps)
        invariant pCell[..hdr] == head && done + nPayload == total && nPayload > 0 && spaceLeft > 0
        invariant done + spaceLeft == ChunkAt(local, room, |ps|)
        invariant page == Last(ps) && at == PlaceOf(usableSize, hdr, local, done, ps)
        invariant prior == if page == 0 then hdr + local else 0
        invariant |ps| <= CeilOf(total - local, room) && old(nPage) <= nPage <= old(nPage) + 3 * |ps|
        invariant autoVacuum ==> ChainMapped(old(ptrmap), ptrmap, ps)
        decreases nPayload
      {
        var n := if nPayload > spaceLeft then spaceLeft else nPayload;
        var b := Piece(src, nZero, done, n);
        WriteSome(pCell, page, at, b, hdr, local, pages0, payload, done, ps);
        nPayload, done, at, spaceLeft := nPayload - |b|, done + |b|, at + |b|, spaceLeft - |b|;
        if nPayload <= 0 { break; }
        if spaceLeft == 0 {
          RoomForMore(local, room, total, |ps|);
          var p := SpillOver(pCell, page, prior, hdr, local, pages0, old(ptrmap), payload, done, ps);
          ChunkNext(local, room, |ps|);
          ps := ps + [p];
          page, at, prior, spaceLeft := p, 4, 0, usableSize - 4;
        }
      }
      Enough(local, room, total, |ps|, spaceLeft);
    }

    /** The header of a cell: payload size and, in a table, the key. */
    method PutHeader(sh: Shape, pCell: array<Byte>, key: int, nPayload: nat) returns (nHeader: nat)
      requires Proper(sh) && Storable(sh, key, nPayload) && pCell.Length >= SizeOf(sh, key, nPayload)
      modifies pCell
      ensures nHeader == HeaderLen(sh, key, nPayload) && CellAt(sh, pCell[..], 0, key, nPayload)
    {
      hide VarintLen, Encode, Local, MaxLocal;
      VarintShape(nPayload);
      nHeader := sh.child;
      var n := PutVarint(pCell, nHeader, nPayload);
      nHeader := nHeader + n;
      ghost var first := pCell[..];
      assert pCell[..][sh.child..sh.child + n] == pCell[sh.child..sh.child + n];
      if sh.kind.TableLeaf? {
        KeyRoundTrip(key);
        VarintShape(KeyBits(key));
        n := PutVarint(pCell, nHeader, KeyBits(key));
        assert pCell[..][nHeader..nHeader + n] == pCell[nHeader..nHeader + n];
        assert pCell[..][sh.child..nHeader] == first[sh.child..nHeader];
        nHeader := nHeader + n;
      }
    }

    /** A payload that fits: the source, then zeros. */
    method PutPayload(pCell: array<Byte>, at: nat, src: seq<Byte>, nZero: nat)
      requires at + |src| + nZero <= pCell.Length
      modifies pCell
      ensures pCell[..] == Splice(old(pCell[..]), at, ZeroFilled(src, nZero))
    {
      hide Splice;
      PutBytes(pCell, at, src);
      PutBytes(pCell, at + |src|, seq(nZero, _ => 0));
      SpliceTwice(old(pCell[..]), at, src, seq(nZero, _ => 0));
    }

    /** fillInCell: build in `pCell` the cell of `key` with the bytes `src` and `nZero` zeros as payload,
        spilling what does not fit onto newly allocated pages; the size of the cell is returned. */
    method FillInCell(sh: Shape, pCell: array<Byte>, key: int, src: seq<Byte>, nZero: nat) returns (nSize: nat, ghost ps: seq<nat>)
      requires Valid() && Proper(sh) && sh.u == usableSize && Storable(sh, key, |src| + nZero)
      requires pCell.Length >= SizeOf(sh, key, |src| + nZero)
      requires 1 <= nPage && nPage + 3 * OverflowPages(sh, |src| + nZero) <= MAX_PAGE
      modifies pCell, `pages, `ptrmap, `nPage
      ensures Valid() && nSize == SizeOf(sh, key, |src| + nZero)
      ensures TextHolds(sh, pCell[..], 0, key, ZeroFilled(src, nZero), ps)
      ensures OverflowHolds(sh, pages, ZeroFilled(src, nZero), ps)
      ensures NewChain(old(pages), pages, ps) && (autoVacuum ==> ChainMapped(old(ptrmap), ptrmap, ps))
    {
      hide Special, Mapped, SizedPages, VarintLen, VarintAt, CellAt, HeaderLen, Local, MaxLocal, MinLocal, CeilOf, ZeroFilled, TextHolds,
        OverflowHolds, OverflowPages, Filling, ChainMapped, NewChain, SizeOf, Splice;
      var nPayload := |src| + nZero;
      LocalIs(sh, nPayload);
      SizeParts(sh, key, nPayload);
      SizesOf(pages, usableSize, nPage, autoVacuum, g);
      var nHeader := PutHeader(sh, pCell, key, nPayload);
      ghost var d := pCell[..];
      if nPayload <= MaxLocal(sh.u, sh.kind) {
        nSize := nHeader + nPayload;
        if nSize < 4 { nSize := 4; }
        ps := [];
        CellRoom(sh, d, 0, key, nPayload);
        PutPayload(pCell, nHeader, src, nZero);
        FilledSmall(sh, d, key, ZeroFilled(src, nZero), pages, ptrmap);
      } else {
        var mn := MinLocal(sh.u);
        var n := mn + Rest(nPayload - mn, sh.u - 4);
        if n > MaxLocal(sh.u, sh.kind) { n := mn; }
        nSize := n + nHeader + 4;
        ps := Spill(pCell, nHeader, n, src, nZero);
        assert pCell[..][..nHeader] == pCell[..nHeader] == d[..nHeader];
        SizesOf(pages, usableSize, nPage, autoVacuum, g);
        FilledLarge(sh, d, pCell[..], key, ZeroFilled(src, nZero), old(pages), pages, nPage, ps);
      }
    }

    // ---------------------------------------------------------------- freeing overflow pages

    /** freePage2, as far as the page itself and its pointer-map entry go. */
    method FreePage(p: nat)
      requires Sized() && p in pages && p >= 2
      modifies `pages, `ptrmap
      ensures Sized() && pages == old(pages) - {p}
      ensures ptrmap == if autoVacuum then old(ptrmap)[p := Entry(PTRMAP_FREEPAGE, 0)] else old(ptrmap)
    {
      hide Special, IsMap;
      pages := pages - {p};
      if autoVacuum {
        ptrmap := ptrmap[p := Entry(PTRMAP_FREEPAGE, 0)];
      }
    }

    /** clearCell: free the overflow pages of a cell, and only those. */
    method ClearCell(sh: Shape, pg: nat, cell: nat, ghost key: int, ghost payload: seq<Byte>, ghost ps: seq<nat>) returns (info: CellInfo)
      requires Valid() && sh.u == usableSize && PayloadAt(sh, pages, pg, cell, key, payload, ps)
      modifies `pages, `ptrmap
      ensures info == Info(sh, cell, key, |payload|) && Valid()
      ensures pages == old(pages) - PagesOf(ps)
      ensures autoVacuum ==> Cleared(old(ptrmap), ptrmap, ps)
    {
      hide PayloadAt, Local, OverflowPages, Mapped, SizedPages, Linked, Held, Get4, TextHolds, CellAt, HeaderLen, SizeOf, MaxLocal, Special,
        Quot, Cleared;
      PayloadParts(sh, pages, pg, cell, key, payload, ps);
      TextParts(sh, pages[pg], cell, key, payload, ps);
      SizeParts(sh, key, |payload|);
      OverflowCount(sh, |payload|);
      JustEnough(sh, |payload|);
      LocalOf2(sh, |payload|);
      ClearedNone(ptrmap);
      info := ParseCell(sh, pages[pg], cell, key, |payload|);
      if info.nLocal == info.nPayload {
        assert pages == pages - PagesOf(ps);
        return;
      }
      CellRoom(sh, pages[pg], cell, key, |payload|);
      if cell + info.nSize > usableSize {
        // SQLITE_CORRUPT: the cell extends past the end of the page
        assert false;
      }
      FirstPage(sh, pages, pg, cell, key, payload, ps);
      var ovflPgno := Get4(pages[pg], cell + info.nSize - 4);
      var ovflPageSize := usableSize - 4;
      var nOvfl := Quot(info.nPayload - info.nLocal + ovflPageSize - 1, ovflPageSize);
      ClearChain(ovflPgno, nOvfl, ps);
    }

    /** The loop of clearCell. */
    method ClearChain(first: nat, n: nat, ghost ps: seq<nat>)
      requires Valid() && Linked(pages, ps) && n == |ps| && first == At(ps, 0)
      modifies `pages, `ptrmap
      ensures Valid() && pages == old(pages) - PagesOf(ps)
      ensures autoVacuum ==> Cleared(old(ptrmap), ptrmap, ps)
    {
      hide Mapped, SizedPages, Get4, Linked, Special, IsMap, Cleared;
      var ovflPgno, nOvfl := first, n;
      ghost var i := 0;
      ghost var pages0 := pages;
      ClearedNone(ptrmap);
      assert pages == pages - PagesOf(ps[..0]);
      StartsMapped(pages, ptrmap, ps, autoVacuum);
      while nOvfl > 0
        invariant Sized() && i + nOvfl == n && ovflPgno == At(ps, i) && Linked(pages0, ps)
        invariant pages == pages0 - PagesOf(ps[..i])
        invariant autoVacuum ==> MappedFrom(pages, ptrmap, ps, i) && Cleared(old(ptrmap), ptrmap, ps[..i])
      {
        nOvfl := nOvfl - 1;
        ChainStep(pages0, pages, ps, i);
        SizesOf(pages, usableSize, nPage, autoVacuum, g);
        if ovflPgno < 2 || ovflPgno > nPage {
          // SQLITE_CORRUPT: not the number of an overflow page
          assert false;
        }
        var iNext := 0;
        if nOvfl > 0 {
          iNext := NextToClear(ovflPgno, ps, i);
        }
        ghost var was, map0 := pages, ptrmap;
        FreePage(ovflPgno);
        assert ps[..i + 1] == ps[..i] + [ps[i]];
        assert pages == pages0 - PagesOf(ps[..i + 1]);
        if autoVacuum {
          FreedMapped(was, pages, map0, ptrmap, ps, i);
          ClearedMore(old(ptrmap), map0, ptrmap, ps[..i], ps[i]);
        }
        ovflPgno := iNext;
        i := i + 1;
      }
      assert ps[..i] == ps;
      if autoVacuum { EndsMapped(pages, ptrmap, ps); }
    }

    /** getOverflowPage while earlier pages of the chain are already free. */
    method NextToClear(ovfl: nat, ghost ps: seq<nat>, ghost i: nat) returns (next: nat)
      requires Sized() && i < |ps| && ovfl == ps[i] >= 2 && LinkAt(pages, ps, i)
      requires autoVacuum ==> MappedFrom(pages, ptrmap, ps, i)
      ensures next == At(ps, i + 1)
    {
      hide Get4, Special, IsMap, At;
      next := 0;
      if autoVacuum {
        var iGuess := DataPage(ovfl + 1);
        if iGuess <= nPage {
          var entry := ptrmap[iGuess];
          if entry.eType == PTRMAP_OVERFLOW2 && entry.parent == ovfl {
            GuessIs(pages, ptrmap, ps, i, iGuess);
            return iGuess;
          }
        }
      }
      next := Get4(pages[ovfl], 0);
    }

    // ---------------------------------------------------------------- the statistics table

    /** The walk of statDecodePage over the overflow pages of a cell; its byte counts and its page list
        agree with what fillInCell wrote. */
    method DecodeOverflow(sh: Shape, pg: nat, cell: nat, ghost key: int, ghost payload: seq<Byte>, ghost ps: seq<nat>)
      returns (nLocal: int, nOvfl: nat, nLastOvfl: int, aOvfl: seq<nat>)
      requires Valid() && sh.u == usableSize && PayloadAt(sh, pages, pg, cell, key, payload, ps)
      ensures nLocal == Local(sh.u, sh.kind, |payload|) && nOvfl == |ps| && aOvfl == ps
      ensures ps != [] ==> 0 < nLastOvfl <= sh.u - 4 && ChunkAt(nLocal, sh.u - 4, |ps| - 1) + nLastOvfl == |payload|
    {
      hide PayloadAt, Local, OverflowPages, CeilOf, ChunkAt, Mapped, SizedPages, Linked, Held, Get4, TextHolds, HeaderLen, SizeOf, MaxLocal,
        Special, Quot, VarintAt;
      PayloadParts(sh, pages, pg, cell, key, payload, ps);
      TextParts(sh, pages[pg], cell, key, payload, ps);
      OverflowCount(sh, |payload|);
      LocalOf2(sh, |payload|);
      JustEnough(sh, |payload|);
      var nPayload, iOff := GetSize(pages[pg], cell + sh.child, |payload|);
      if sh.kind.TableLeaf? {
        iOff := SkipVarint(pages[pg], iOff, KeyBits(key));
      }
      HeaderIs(sh, key, |payload|);
      nLocal := GetLocalPayload(usableSize, sh.kind, nPayload);
      nOvfl, nLastOvfl, aOvfl := 0, 0, [];
      if nPayload > nLocal {
        FirstPage(sh, pages, pg, cell, key, payload, ps);
        nOvfl := Quot(nPayload - nLocal + (usableSize - 4) - 1, usableSize - 4);
        ChunkOf(nLocal, usableSize - 4, nOvfl - 1);
        ChunkNext(nLocal, usableSize - 4, nOvfl - 1);
        nLastOvfl := (nPayload - nLocal) - (nOvfl - 1) * (usableSize - 4);
        aOvfl := [Get4(pages[pg], iOff + nLocal)];
        var j := 1;
        while j < nOvfl
          invariant 1 <= j <= nOvfl == |ps| && aOvfl == ps[..j]
        {
          NextOf(pages, ps, j - 1);
          aOvfl := aOvfl + [Get4(pages[aOvfl[j - 1]], 0)];
          j := j + 1;
        }
      }
    }
  }

  /** Only the pages in `s` have changed. */
  ghost predicate KeptBut(a: Pages, b: Pages, s: set<nat>)
  {
    a.Keys == b.Keys && forall p :: p in a && p !in s ==> a[p] == b[p]
  }

  /** `n` payload bytes at `pos` have been copied: out of the buffer into the payload, or the other way. */
  ghost predicate Copied(sh: Shape, pages: Pages, pg: nat, cell: nat, key: int, payload: seq<Byte>, ps: seq<nat>, pos: nat,
                         was: seq<Byte>, from: nat, n: nat, eOp: bool, buf: seq<Byte>)
  {
    && pos + n <= |payload| && from + n <= |was|
    && PayloadAt(sh, pages, pg, cell, key, if eOp then Splice(payload, pos, was[from..from + n]) else payload, ps)
    && buf == if eOp then was else Splice(was, from, payload[pos..pos + n])
  }

  lemma {:induction false} PayloadParts(sh: Shape, pages: Pages, pg: nat, at: nat, key: int, payload: seq<Byte>, ps: seq<nat>)
    requires PayloadAt(sh, pages, pg, at, key, payload, ps)
    ensures Proper(sh) && OverflowHolds(sh, pages, payload, ps) && pg !in ps && pg in pages && |pages[pg]| == sh.u
    ensures TextHolds(sh, pages[pg], at, key, payload, ps)
  {
  }

  lemma {:induction false} LocalInside(sh: Shape, d: seq<Byte>, at: nat, key: int, n: nat)
    requires CellAt(sh, d, at, key, n)
    ensures Local(sh.u, sh.kind, n) <= n && at + HeaderLen(sh, key, n) + Local(sh.u, sh.kind, n) <= |d|
    ensures n > MaxLocal(sh.u, sh.kind) ==> at + HeaderLen(sh, key, n) + Local(sh.u, sh.kind, n) + 4 <= |d|
  {
  }

  // ------------------------------------------------------------------ copies in sequence

  /** The payload after the copies so far. */
  function Now(payload: seq<Byte>, pos: nat, was: seq<Byte>, from: nat, n: nat, eOp: bool): (r: seq<Byte>)
    requires pos + n <= |payload| && from + n <= |was|
    ensures |r| == |payload|
  {
    if eOp then Splice(payload, pos, was[from..from + n]) else payload
  }

  lemma {:induction false} CopiedNone(sh: Shape, pages: Pages, pg: nat, cell: nat, key: int, payload: seq<Byte>, ps: seq<nat>,
                                      pos: nat, was: seq<Byte>, from: nat, eOp: bool)
    requires PayloadAt(sh, pages, pg, cell, key, payload, ps) && pos <= |payload| && from <= |was|
    ensures Copied(sh, pages, pg, cell, key, payload, ps, pos, was, from, 0, eOp, was)
  {
    hide PayloadAt;
    assert Splice(payload, pos, was[from..from]) == payload;
    assert Splice(was, from, payload[pos..pos]) == was;
  }

  /** A copy of `n` bytes followed by a copy of the next `m`. */
  lemma {:induction false} CopiedMore(sh: Shape, pages: Pages, pages': Pages, pg: nat, cell: nat, key: int, payload: seq<Byte>,
                                      ps: seq<nat>, pos: nat, was: seq<Byte>, from: nat, n: nat, m: nat, eOp: bool, buf: seq<Byte>,
                                      buf': seq<Byte>)
    requires Copied(sh, pages, pg, cell, key, payload, ps, pos, was, from, n, eOp, buf)
    requires Copied(sh, pages', pg, cell, key, Now(payload, pos, was, from, n, eOp), ps, pos + n, buf, from + n, m, eOp, buf')
    ensures Copied(sh, pages', pg, cell, key, payload, ps, pos, was, from, n + m, eOp, buf')
  {
    hide PayloadAt, Splice;
    if eOp {
      SpliceTwice(payload, pos, was[from..from + n], was[from + n..from + n + m]);
      Joined(was, from, n, m);
    } else {
      SpliceTwice(was, from, payload[pos..pos + n], payload[pos + n..pos + n + m]);
      Joined(payload, pos, n, m);
    }
  }

  lemma {:induction false} Joined(d: seq<Byte>, at: nat, n: nat, m: nat)
    requires at + n + m <= |d|
    ensures d[at..at + n] + d[at + n..at + n + m] == d[at..at + (n + m)]
  {
  }

  lemma {:induction false} HeadsTrans(a: Pages, b: Pages, c: Pages, s: set<nat>)
    requires SameHeads(a, b) && SameHeads(b, c) && KeptBut(a, b, s) && KeptBut(b, c, s)
    ensures SameHeads(a, c) && KeptBut(a, c, s)
  {
  }

  /** The state of a walk over the overflow pages after `n` bytes. */
  ghost predicate Progress(sh: Shape, pages0: Pages, pages: Pages, pg: nat, cell: nat, key: int, payload: seq<Byte>, ps: seq<nat>,
                           pos: nat, was: seq<Byte>, from: nat, n: nat, eOp: bool, buf: seq<Byte>)
  {
    && Copied(sh, pages, pg, cell, key, payload, ps, pos, was, from, n, eOp, buf)
    && SameHeads(pages0, pages) && KeptBut(pages0, pages, {pg} + set p | p in ps)
    && (!eOp ==> pages == pages0)
  }

  lemma {:induction false} ProgressNone(sh: Shape, pages: Pages, pg: nat, cell: nat, key: int, payload: seq<Byte>, ps: seq<nat>,
                                        pos: nat, was: seq<Byte>, from: nat, eOp: bool)
    requires PayloadAt(sh, pages, pg, cell, key, payload, ps) && pos <= |payload| && from <= |was|
    ensures Progress(sh, pages, pages, pg, cell, key, payload, ps, pos, was, from, 0, eOp, was)
  {
    hide PayloadAt, Copied;
    CopiedNone(sh, pages, pg, cell, key, payload, ps, pos, was, from, eOp);
  }

  lemma {:induction false} ProgressOut(sh: Shape, pages0: Pages, pages: Pages, pg: nat, cell: nat, key: int, payload: seq<Byte>,
                                       ps: seq<nat>, pos: nat, was: seq<Byte>, from: nat, n: nat, eOp: bool, buf: seq<Byte>)
    requires Progress(sh, pages0, pages, pg, cell, key, payload, ps, pos, was, from, n, eOp, buf)
    ensures Copied(sh, pages, pg, cell, key, payload, ps, pos, was, from, n, eOp, buf)
    ensures SameHeads(pages0, pages) && KeptBut(pages0, pages, {pg} + set p | p in ps) && (!eOp ==> pages == pages0)
    ensures pos + n <= |payload| && from + n <= |was| && |buf| == |was|
    ensures PayloadAt(sh, pages, pg, cell, key, Now(payload, pos, was, from, n, eOp), ps) && Linked(pages, ps)
  {
    hide Linked, Held, TextHolds;
  }

  lemma {:induction false} ProgressMore(sh: Shape, pages0: Pages, pages: Pages, pages': Pages, pg: nat, cell: nat, key: int,
                                        payload: seq<Byte>, ps: seq<nat>, pos: nat, was: seq<Byte>, from: nat, n: nat, m: nat, eOp: bool,
                                        buf: seq<Byte>, buf': seq<Byte>, p: nat)
    requires Progress(sh, pages0, pages, pg, cell, key, payload, ps, pos, was, from, n, eOp, buf)
    requires pos + n <= |payload| && from + n <= |was| && p in ps
    requires Copied(sh, pages', pg, cell, key, Now(payload, pos, was, from, n, eOp), ps, pos + n, buf, from + n, m, eOp, buf')
    requires SameHeads(pages, pages') && KeptBut(pages, pages', {p}) && (!eOp ==> pages' == pages)
    ensures Progress(sh, pages0, pages', pg, cell, key, payload, ps, pos, was, from, n + m, eOp, buf')
  {
    hide Copied, SameHeads, KeptBut;
    CopiedMore(sh, pages, pages', pg, cell, key, payload, ps, pos, was, from, n, m, eOp, buf, buf');
    HeadsStep(pages0, pages, pages', p, {pg} + set q | q in ps);
  }

  // ------------------------------------------------------------------ the cursor

  /** What a lazily filled cache knows is right; zero stands for "not yet known". */
  ghost predicate CacheOk(cache: seq<nat>, valid: bool, ps: seq<nat>)
  {
    valid ==> |cache| >= |ps| && forall i :: 0 <= i < |ps| ==> cache[i] == 0 || cache[i] == ps[i]
  }

  class BtCursor {
    const pBt: BtShared
    /** The page and the offset in it of the cell, and the shape of the page's cells. */
    const pgno: nat
    const cell: nat
    const sh: Shape
    var info: CellInfo
    var aOverflow: seq<nat>
    var validOvfl: bool

    /** A cursor just moved to a cell: nothing parsed, no overflow page known. */
    constructor (pBt: BtShared, pgno: nat, cell: nat, sh: Shape)
      ensures this.pBt == pBt && this.pgno == pgno && this.cell == cell && this.sh == sh
      ensures info.nSize == 0 && !validOvfl
    {
      this.pBt, this.pgno, this.cell, this.sh := pBt, pgno, cell, sh;
      info, aOverflow, validOvfl := CellInfo(0, 0, 0, 0, 0), [], false;
    }

    /** The cell of the cursor stores `payload` under `key`. */
    ghost predicate Shows(key: int, payload: seq<Byte>, ps: seq<nat>)
      reads this, pBt
    {
      && pBt.Valid() && sh.u == pBt.usableSize && cell >= 4
      && PayloadAt(sh, pBt.pages, pgno, cell, key, payload, ps)
      && CacheOk(aOverflow, validOvfl, ps)
    }

    /** accessPayload: read (`eOp` false) or overwrite `amt` bytes of the payload at `offset`.  Reading
        returns those bytes; writing changes those bytes only; the corruption returns are not reached. */
    method AccessPayload(offset: nat, amt: nat, buf: array<Byte>, eOp: bool, ghost key: int, ghost payload: seq<Byte>, ghost ps: seq<nat>)
      requires Shows(key, payload, ps) && offset + amt <= |payload| && buf.Length == amt
      requires info.nSize == 0 || info == Info(sh, cell, key, |payload|)
      modifies `info, `aOverflow, `validOvfl, pBt`pages, buf
      ensures info == Info(sh, cell, key, |payload|)
      ensures Shows(key, if eOp then Splice(payload, offset, old(buf[..])) else payload, ps)
      ensures eOp ==> buf[..] == old(buf[..]) && KeptBut(old(pBt.pages), pBt.pages, {pgno} + set p | p in ps)
      ensures !eOp ==> buf[..] == payload[offset..offset + amt] && pBt.pages == old(pBt.pages)
    {
      hide PayloadAt, Local, Splice, OverflowHolds, TextHolds, CellAt, Mapped, SizedPages, SizeOf, HeaderLen, MaxLocal, SameHeads, KeptBut, Copied, Now;
      PayloadParts(sh, pBt.pages, pgno, cell, key, payload, ps);
      TextParts(sh, pBt.pages[pgno], cell, key, payload, ps);
      if info.nSize == 0 {
        info := ParseCell(sh, pBt.pages[pgno], cell, key, |payload|);
      }
      if info.pPayload > pBt.usableSize - info.nLocal {
        // SQLITE_CORRUPT: past the end of the page
        assert false;
      }
      ghost var was := buf[..];
      ghost var pages0 := pBt.pages;
      ghost var s := {pgno} + set p | p in ps;
      var off, left, from := offset, amt, 0;
      CopiedNone(sh, pBt.pages, pgno, cell, key, payload, ps, offset, was, 0, eOp);
      HeadsSelf(pages0, {pgno});
      if off < info.nLocal {
        var a := left;
        if a + off > info.nLocal { a := info.nLocal - off; }
        pBt.CopyLocal(sh, pgno, cell, key, payload, ps, info.pPayload, off, buf, a, eOp);
        off := 0;
        from := a;
        left := left - a;
      } else {
        off := off - info.nLocal;
      }
      pBt.StaysValid(pages0);
      KeptMore(pages0, pBt.pages, pgno, s);
      if left > 0 {
        ghost var mid, pages1 := buf[..], pBt.pages;
        ghost var now := Now(payload, offset, was, 0, from, eOp);
        CopiedOut(sh, pages1, pgno, cell, key, payload, ps, offset, was, 0, from, eOp, mid);
        AccessOverflow(off, left, buf, from, eOp, key, now, ps);
        CopiedMore(sh, pages1, pBt.pages, pgno, cell, key, payload, ps, offset, was, 0, from, left, eOp, mid, buf[..]);
        HeadsTrans(pages0, pages1, pBt.pages, s);
      }
      Finish(sh, pBt.pages, pgno, cell, key, payload, ps, offset, was, amt, eOp, buf[..]);
    }

    /** The overflow half of accessPayload: copy `amt` bytes at `offset` of the overflow part, walking the
        chain from its start or from a page the cache knows. */
    method AccessOverflow(offset: nat, amt: nat, buf: array<Byte>, from: nat, eOp: bool, ghost key: int, ghost payload: seq<Byte>,
                          ghost ps: seq<nat>)
      requires Shows(key, payload, ps) && amt > 0 && from + amt <= buf.Length
      requires info == Info(sh, cell, key, |payload|) && info.nLocal + offset + amt <= |payload|
      modifies `aOverflow, `validOvfl, pBt`pages, buf
      ensures pBt.Valid() && CacheOk(aOverflow, validOvfl, ps)
      ensures Copied(sh, pBt.pages, pgno, cell, key, payload, ps, Local(sh.u, sh.kind, |payload|) + offset, old(buf[..]), from, amt, eOp,
                     buf[..])
      ensures SameHeads(old(pBt.pages), pBt.pages) && KeptBut(old(pBt.pages), pBt.pages, {pgno} + set p | p in ps)
      ensures !eOp ==> pBt.pages == old(pBt.pages)
    {
      hide PayloadAt, Local, Splice, OverflowPages, Copied, ChunkAt, Mapped, SizedPages, Linked, Get4, TextHolds, Held, SizeOf,
        SameHeads, KeptBut, HeaderLen, Now, MaxLocal, Progress;
      var ovflSize := pBt.usableSize - 4;
      ghost var local := Local(sh.u, sh.kind, |payload|);
      PayloadParts(sh, pBt.pages, pgno, cell, key, payload, ps);
      JustEnough(sh, |payload|);
      var nextPage: nat, iIdx: nat, off: nat := StartPage(offset, key, payload, ps);
      ghost var was, pages0, pos := buf[..], pBt.pages, local + offset;
      var left: nat, at: nat := amt, from;
      ProgressNone(sh, pages0, pgno, cell, key, payload, ps, pos, was, from, eOp);
      while nextPage != 0
        invariant pBt.Valid() && CacheOk(aOverflow, true, ps) && validOvfl
        invariant iIdx < |ps| && nextPage == ps[iIdx] >= 2 && 0 < left <= amt && at == from + (amt - left)
        invariant ChunkAt(local, ovflSize, iIdx) + off == pos + (amt - left)
        invariant Progress(sh, pages0, pBt.pages, pgno, cell, key, payload, ps, pos, was, from, amt - left, eOp, buf[..])
        decreases |ps| - iIdx
      {
        ghost var now := Now(payload, pos, was, from, amt - left, eOp);
        ProgressOut(sh, pages0, pBt.pages, pgno, cell, key, payload, ps, pos, was, from, amt - left, eOp, buf[..]);
        ChunkNext(local, ovflSize, iIdx);
        AllPositive(pBt.pages, ps);
        aOverflow := aOverflow[iIdx := nextPage];
        if off >= ovflSize {
          InChain(local, ovflSize, iIdx + 1, off - ovflSize, |payload|, |ps|);
          nextPage := NextInChain(iIdx, nextPage, ps);
          off := off - ovflSize;
        } else {
          var a := left;
          if a + off > ovflSize { a := ovflSize - off; }
          var p := nextPage;
          NextOf(pBt.pages, ps, iIdx);
          nextPage := Get4(pBt.pages[p], 0);
          ghost var mid, pages1 := buf[..], pBt.pages;
          pBt.CopyChunk(sh, pgno, cell, key, now, ps, iIdx, p, off, buf, at, a, eOp);
          ProgressMore(sh, pages0, pages1, pBt.pages, pgno, cell, key, payload, ps, pos, was, from, amt - left, a, eOp, mid, buf[..], p);
          pBt.StaysValid(pages1);
          off := 0;
          left := left - a;
          if left == 0 {
            ProgressOut(sh, pages0, pBt.pages, pgno, cell, key, payload, ps, pos, was, from, amt, eOp, buf[..]);
            return;
          }
          at := at + a;
          InChain(local, ovflSize, iIdx + 1, 0, |payload|, |ps|);
        }
        iIdx := iIdx + 1;
      }
      // SQLITE_CORRUPT: the chain ends prematurely
      assert false;
    }

    /** Where the walk begins: the first overflow page, or the page of the offset if the cache knows it. */
    method StartPage(offset: nat, ghost key: int, ghost payload: seq<Byte>, ghost ps: seq<nat>)
      returns (nextPage: nat, iIdx: nat, off: nat)
      requires Shows(key, payload, ps) && info == Info(sh, cell, key, |payload|) && info.nLocal + offset < |payload|
      modifies `aOverflow, `validOvfl
      ensures validOvfl && CacheOk(aOverflow, true, ps)
      ensures iIdx < |ps| && nextPage == ps[iIdx] >= 2 && ChunkAt(info.nLocal, sh.u - 4, iIdx) + off == info.nLocal + offset
    {
      hide PayloadAt, Local, OverflowHolds, OverflowPages, Quot, Rest, TextHolds, Linked, ChunkAt, Mapped, SizedPages, Get4, SizeOf, HeaderLen, MaxLocal;
      var ovflSize := pBt.usableSize - 4;
      PayloadParts(sh, pBt.pages, pgno, cell, key, payload, ps);
      AllPositive(pBt.pages, ps);
      FirstPage(sh, pBt.pages, pgno, cell, key, payload, ps);
      JustEnough(sh, |payload|);
      ChunkNext(info.nLocal, ovflSize, 0);
      iIdx, off := 0, offset;
      nextPage := Get4(pBt.pages[pgno], info.pPayload + info.nLocal);
      if !validOvfl {
        OverflowCount(sh, |payload|);
        NewCache(Quot(info.nPayload - info.nLocal + ovflSize - 1, ovflSize), payload, ps);
      } else {
        PageOf(info.nLocal, ovflSize, offset, |payload|, |ps|);
        if aOverflow[Quot(offset, ovflSize)] != 0 {
          iIdx := Quot(offset, ovflSize);
          nextPage := aOverflow[iIdx];
          off := Rest(offset, ovflSize);
        }
      }
    }

    /** The page after page `iIdx` of the chain, from the cache if it is there. */
    method NextInChain(iIdx: nat, page: nat, ghost ps: seq<nat>) returns (nextPage: nat)
      requires pBt.Valid() && CacheOk(aOverflow, true, ps) && Linked(pBt.pages, ps)
      requires iIdx + 1 < |ps| && page == ps[iIdx]
      ensures nextPage == ps[iIdx + 1]
    {
      hide Linked, Mapped, SizedPages, Get4;
      NextOf(pBt.pages, ps, iIdx);
      if aOverflow[iIdx + 1] != 0 {
        nextPage := aOverflow[iIdx + 1];
      } else {
        nextPage := pBt.GetOverflowPage(page);
      }
    }

    /** Make room for `nOvfl` page numbers and mark all of them unknown. */
    method NewCache(nOvfl: nat, ghost payload: seq<Byte>, ghost ps: seq<nat>)
      requires nOvfl == |ps|
      modifies `aOverflow, `validOvfl
      ensures validOvfl && CacheOk(aOverflow, true, ps)
    {
      if nOvfl > |aOverflow| {
        aOverflow := aOverflow + seq(2 * nOvfl - |aOverflow|, _ => 0);
      }
      aOverflow := seq(nOvfl, _ => 0) + aOverflow[nOvfl..];
      validOvfl := true;
    }
  }

  lemma {:induction false} HeadsValid(a: Pages, b: Pages, ptrmap: map<nat, Entry>, usableSize: nat, nPage: nat,
          autoVacuum: bool, g: Geometry)
    requires SameHeads(a, b) && SizedPages(a, usableSize, nPage, autoVacuum, g) && (autoVacuum ==> Mapped(a, ptrmap, 0))
    ensures SizedPages(b, usableSize, nPage, autoVacuum, g) && (autoVacuum ==> Mapped(b, ptrmap, 0))
  {
    hide Special, Mapped;
    if autoVacuum { HeadsMapped(a, b, ptrmap); }
  }

  lemma {:induction false} HeadsStep(a: Pages, b: Pages, c: Pages, p: nat, s: set<nat>)
    requires SameHeads(a, b) && SameHeads(b, c) && KeptBut(a, b, s) && KeptBut(b, c, {p}) && p in s
    ensures SameHeads(a, c) && KeptBut(a, c, s)
  {
  }

  lemma {:induction false} HeadsSelf(a: Pages, s: set<nat>)
    ensures SameHeads(a, a) && KeptBut(a, a, s)
  {
  }

  lemma {:induction false} KeptMore(a: Pages, b: Pages, p: nat, s: set<nat>)
    requires KeptBut(a, b, {p}) && p in s
    ensures KeptBut(a, b, s)
  {
  }

  lemma {:induction false} CopiedOut(sh: Shape, pages: Pages, pg: nat, cell: nat, key: int, payload: seq<Byte>, ps: seq<nat>, pos: nat,
                                     was: seq<Byte>, from: nat, n: nat, eOp: bool, buf: seq<Byte>)
    requires Copied(sh, pages, pg, cell, key, payload, ps, pos, was, from, n, eOp, buf)
    ensures pos + n <= |payload| && from + n <= |was| && |buf| == |was|
    ensures PayloadAt(sh, pages, pg, cell, key, Now(payload, pos, was, from, n, eOp), ps)
  {
    hide PayloadAt;
  }

  lemma {:induction false} Finish(sh: Shape, pages: Pages, pg: nat, cell: nat, key: int, payload: seq<Byte>, ps: seq<nat>, pos: nat,
                                  was: seq<Byte>, n: nat, eOp: bool, buf: seq<Byte>)
    requires Copied(sh, pages, pg, cell, key, payload, ps, pos, was, 0, n, eOp, buf) && |was| == n
    ensures PayloadAt(sh, pages, pg, cell, key, if eOp then Splice(payload, pos, was) else payload, ps)
    ensures eOp ==> buf == was
    ensures !eOp ==> buf == payload[pos..pos + n]
  {
    hide PayloadAt;
    assert was[0..n] == was;
  }

  lemma {:induction false} TextParts(sh: Shape, d: seq<Byte>, at: nat, key: int, payload: seq<Byte>, ps: seq<nat>)
    requires TextHolds(sh, d, at, key, payload, ps)
    ensures CellAt(sh, d, at, key, |payload|) && at + HeaderLen(sh, key, |payload|) + Local(sh.u, sh.kind, |payload|) <= |d|
    ensures Local(sh.u, sh.kind, |payload|) <= |payload| && SizeOf(sh, key, |payload|) > 0
  {
  }

  /** The cell names the first overflow page. */
  lemma {:induction false} FirstPage(sh: Shape, pages: Pages, pg: nat, at: nat, key: int, payload: seq<Byte>, ps: seq<nat>)
    requires PayloadAt(sh, pages, pg, at, key, payload, ps) && Local(sh.u, sh.kind, |payload|) < |payload|
    ensures |ps| == OverflowPages(sh, |payload|) > 0
    ensures var i := at + HeaderLen(sh, key, |payload|) + Local(sh.u, sh.kind, |payload|);
      i + 4 <= |pages[pg]| && Get4(pages[pg], i) == ps[0]
  {
    hide Get4, HeaderLen, Linked, Held, OverflowPages, VarintAt;
    JustEnough(sh, |payload|);
  }

  lemma {:induction false} OverflowCount(sh: Shape, n: nat)
    requires Proper(sh)
    ensures Local(sh.u, sh.kind, n) <= n
    ensures OverflowPages(sh, n) == Quot(n - Local(sh.u, sh.kind, n) + (sh.u - 4) - 1, sh.u - 4)
  {
  }

  lemma {:induction false} AllPositive(pages: Pages, ps: seq<nat>)
    requires Linked(pages, ps)
    ensures forall i :: 0 <= i < |ps| ==> ps[i] >= 2
  {
  }

  lemma {:induction false} NextOf(pages: Pages, ps: seq<nat>, i: nat)
    requires Linked(pages, ps) && i < |ps|
    ensures ps[i] >= 2 && ps[i] in pages && |pages[ps[i]]| >= 4 && Get4(pages[ps[i]], 0) == At(ps, i + 1)
  {
    assert LinkAt(pages, ps, i);
  }

  /** A place before the end of the payload is on a page of the chain. */
  lemma {:induction false} InChain(local: nat, room: nat, i: nat, off: nat, total: nat, k: nat)
    requires total <= ChunkAt(local, room, k) && ChunkAt(local, room, i) + off < total
    ensures i < k
  {
    hide ChunkAt;
    if k <= i { ChunkOrder(local, room, k, i); }
  }

  function Quot(a: nat, b: nat): nat
    requires b > 0
  {
    a / b
  }

  function Rest(a: nat, b: nat): nat
    requires b > 0
  {
    a % b
  }

  lemma {:induction false} PageOf(local: nat, room: nat, offset: nat, total: nat, k: nat)
    requires room > 0 && total <= ChunkAt(local, room, k) && local + offset < total
    ensures Quot(offset, room) < k && ChunkAt(local, room, Quot(offset, room)) + Rest(offset, room) == local + offset
  {
    var q := offset / room;
    assert room * q + offset % room == offset && q * room == room * q;
    InChain(local, room, q, offset % room, total, k);
  }

  function PagesOf(ps: seq<nat>): set<nat>
  {
    set p | p in ps
  }

  function Last(ps: seq<nat>): nat
  {
    if ps == [] then 0 else ps[|ps| - 1]
  }

  lemma {:induction false} LastIn(pages: Pages, ps: seq<nat>)
    requires Linked(pages, ps)
    ensures ps != [] ==> Last(ps) >= 2 && Last(ps) in pages && |pages[Last(ps)]| >= 4 && Get4(pages[Last(ps)], 0) == 0
    ensures forall i :: 0 <= i < |ps| ==> ps[i] in pages
    ensures forall i :: 0 <= i < |ps| - 1 ==> ps[i] != Last(ps)
    ensures forall i :: 0 <= i < |ps| ==> ps[i] != 0
  {
    hide Get4;
    if ps != [] { assert LinkAt(pages, ps, |ps| - 1); }
    forall i | 0 <= i < |ps| ensures ps[i] in pages { assert LinkAt(pages, ps, i); }
  }

  /** The first four bytes after the new page `p` has been linked to `prior`. */
  lemma {:induction false} Heads(old_: Pages, mid: Pages, pages: Pages, prior: nat, p: nat)
    requires p >= 2 && p < TWO32 && p !in old_ && p in mid && mid == old_[p := mid[p]] && |mid[p]| >= 4
    requires prior != 0 ==> prior in old_ && |old_[prior]| >= 4
    requires pages == (if prior == 0 then mid else mid[prior := Splice(mid[prior], 0, Be32(p))])[p := Splice(mid[p], 0, Be32(0))]
    ensures Get4(pages[p], 0) == 0 && |pages[p]| == |mid[p]|
    ensures prior != 0 ==> prior in pages && |pages[prior]| == |old_[prior]| && Get4(pages[prior], 0) == p
    ensures forall q :: q in old_ && q != prior ==> q in pages && pages[q] == old_[q]
  {
    hide Get4, Be32, Splice;
    SpliceAcross(mid[p], 0, Be32(0), 0, 4);
    SpliceAll(mid[p][0..4], Be32(0));
    GetBe32(pages[p], 0, 0);
    if prior != 0 {
      SpliceAcross(mid[prior], 0, Be32(p), 0, 4);
      SpliceAll(mid[prior][0..4], Be32(p));
      GetBe32(pages[prior], 0, p);
    }
  }

  lemma {:induction false} SpliceAll(d: seq<Byte>, b: seq<Byte>)
    requires |d| == |b|
    ensures Splice(d, 0, b) == b
  {
  }

  /** Linking leaves what the pages hold after their first four bytes. */
  lemma {:induction false} SpliceTails(old_: Pages, pages: Pages, ps: seq<nat>, prior: nat, p: nat)
    requires forall i :: 0 <= i < |ps| ==> ps[i] in old_
    requires forall q :: q in old_ && q != prior ==> q in pages && pages[q] == old_[q]
    requires prior != 0 ==> prior in old_ && prior in pages && |old_[prior]| >= 4 && pages[prior] == Splice(old_[prior], 0, Be32(p))
    requires prior == 0 ==> forall i :: 0 <= i < |ps| ==> ps[i] != 0
    ensures forall i :: 0 <= i < |ps| ==> ps[i] in pages && |pages[ps[i]]| == |old_[ps[i]]|
    ensures forall i :: 0 <= i < |ps| && |old_[ps[i]]| >= 4 ==> pages[ps[i]][4..] == old_[ps[i]][4..]
  {
  }

  /** After linking, the pointer map is right again. */
  lemma {:induction false} NowMapped(old_: Pages, pages: Pages, was: map<nat, Entry>, ptrmap: map<nat, Entry>, prior: nat, p: nat)
    requires Mapped(old_, was, 0) && p >= 2 && p !in old_ && 0 !in old_
    requires ptrmap == was[p := Entry(if prior != 0 then PTRMAP_OVERFLOW2 else PTRMAP_OVERFLOW1, prior)]
    requires prior != 0 ==> prior in old_ && |old_[prior]| >= 4 && Get4(old_[prior], 0) == 0
    requires prior != 0 ==> prior in pages && |pages[prior]| >= 4 && Get4(pages[prior], 0) == p
    requires forall q :: q in old_ && q != prior ==> q in pages && pages[q] == old_[q]
    ensures Mapped(pages, ptrmap, 0)
  {
    hide Get4;
    forall q: nat | q != 0 ensures EntryOk(pages, ptrmap, q) {
      if q != p { assert EntryOk(old_, was, q); }
    }
  }

  lemma {:induction false} SizesOf(pages: Pages, usableSize: nat, nPage: nat, autoVacuum: bool, g: Geometry)
    requires SizedPages(pages, usableSize, nPage, autoVacuum, g)
    ensures forall p :: p in pages ==> 1 <= p <= nPage && |pages[p]| == usableSize
  {
  }

  lemma {:induction false} SizedAfter(mid: Pages, pages: Pages, usableSize: nat, nPage: nat, autoVacuum: bool, g: Geometry)
    requires SizedPages(mid, usableSize, nPage, autoVacuum, g)
    requires pages.Keys == mid.Keys && forall q :: q in mid ==> |pages[q]| == |mid[q]|
    ensures SizedPages(pages, usableSize, nPage, autoVacuum, g)
  {
    hide Special;
  }

  // ------------------------------------------------------------------ a cell being filled

  function ZeroFilled(src: seq<Byte>, nZero: nat): (r: seq<Byte>)
    ensures |r| == |src| + nZero
  {
    src + seq(nZero, _ => 0)
  }

  /** Pages `ps` have been added, the others are as they were. */
  ghost predicate NewChain(pages0: Pages, pages: Pages, ps: seq<nat>)
  {
    && (forall i :: 0 <= i < |ps| ==> ps[i] !in pages0)
    && pages.Keys == pages0.Keys + (set p | p in ps)
    && (forall q :: q in pages0 ==> pages[q] == pages0[q])
  }

  ghost predicate EntryAt(ptrmap: map<nat, Entry>, ps: seq<nat>, i: nat)
  {
    && i < |ps| && ps[i] in ptrmap
    && ptrmap[ps[i]] == if i == 0 then Entry(PTRMAP_OVERFLOW1, 0) else Entry(PTRMAP_OVERFLOW2, ps[i - 1])
  }

  /** Every page of the chain has its entry, the entries of other pages are as they were. */
  ghost predicate ChainMapped(was: map<nat, Entry>, ptrmap: map<nat, Entry>, ps: seq<nat>)
  {
    && (forall i :: 0 <= i < |ps| ==> EntryAt(ptrmap, ps, i))
    && (forall q :: q !in ps ==> (q in ptrmap <==> q in was) && (q in was ==> ptrmap[q] == was[q]))
  }

  lemma {:induction false} MapStart(ptrmap: map<nat, Entry>)
    ensures ChainMapped(ptrmap, ptrmap, [])
  {
  }

  lemma {:induction false} MapGrown(was: map<nat, Entry>, mid: map<nat, Entry>, ptrmap: map<nat, Entry>,
          pages0: Pages, ps: seq<nat>, p: nat)
    requires ChainMapped(was, mid, ps) && p !in ps && (ps != [] ==> Last(ps) != 0)
    requires ptrmap == mid[p := Entry(if Last(ps) != 0 then PTRMAP_OVERFLOW2 else PTRMAP_OVERFLOW1, Last(ps))]
    ensures ChainMapped(was, ptrmap, ps + [p])
  {
    forall i | 0 <= i < |ps + [p]| ensures EntryAt(ptrmap, ps + [p], i) {
      if i < |ps| { assert EntryAt(mid, ps, i); }
    }
    assert forall q :: q !in ps + [p] ==> q !in ps && q != p;
  }

  /** The local part of a payload of which `done` bytes have been written. */
  ghost predicate LocalPart(d: seq<Byte>, hdr: nat, local: nat, payload: seq<Byte>, done: nat, ps: seq<nat>)
  {
    && hdr + local + 4 <= |d| && local <= |payload|
    && d[hdr..hdr + Least(done, local)] == payload[..Least(done, local)]
    && (ps != [] ==> local <= done && d[hdr + local..hdr + local + 4] == Be32(ps[0]))
  }

  /** The state of fillInCell after `done` bytes. */
  ghost predicate Filling(u: nat, d: seq<Byte>, hdr: nat, local: nat, pages0: Pages, pages: Pages, payload: seq<Byte>,
          done: nat, ps: seq<nat>)
  {
    && u >= 5 && done <= |payload| && LocalPart(d, hdr, local, payload, done, ps)
    && Linked(pages, ps) && Held(pages, u, local, ps, payload[..done]) && NewChain(pages0, pages, ps)
    && (ps != [] ==> ChunkAt(local, u - 4, |ps| - 1) <= done) && done <= ChunkAt(local, u - 4, |ps|)
  }

  /** Where the next byte goes, in the last page or in the buffer. */
  function PlaceOf(u: nat, hdr: nat, local: nat, done: nat, ps: seq<nat>): int
    requires u >= 4
  {
    if ps == [] then hdr + done else 4 + (done - ChunkAt(local, u - 4, |ps| - 1))
  }

  lemma {:induction false} FillStart(u: nat, d: seq<Byte>, hdr: nat, local: nat, pages: Pages, payload: seq<Byte>)
    requires u >= 5 && hdr + local + 4 <= |d| && local <= |payload|
    ensures Filling(u, d, hdr, local, pages, pages, payload, 0, [])
  {
    ChunkNext(local, u - 4, 0);
  }

  lemma {:induction false} FillOut(u: nat, d: seq<Byte>, hdr: nat, local: nat, pages0: Pages, pages: Pages, payload: seq<Byte>, done: nat,
                                   ps: seq<nat>)
    requires Filling(u, d, hdr, local, pages0, pages, payload, done, ps)
    ensures u >= 5 && done <= |payload| && Linked(pages, ps) && Held(pages, u, local, ps, payload[..done])
    ensures (forall i :: 0 <= i < |ps| ==> ps[i] >= 2 && ps[i] !in pages0 && ps[i] in pages) && hdr + local + 4 <= |d|
    ensures ps == [] <==> Last(ps) == 0
  {
    hide Held, ChunkAt;
    forall i | 0 <= i < |ps| ensures ps[i] in pages { assert LinkAt(pages, ps, i); }
  }

  lemma {:induction false} FillPlace(u: nat, d: seq<Byte>, hdr: nat, local: nat, pages0: Pages, pages: Pages, payload: seq<Byte>, done: nat,
                                     ps: seq<nat>, b: seq<Byte>)
    requires Filling(u, d, hdr, local, pages0, pages, payload, done, ps)
    requires done + |b| <= ChunkAt(local, u - 4, |ps|)
    ensures ps == [] <==> Last(ps) == 0
    ensures ps == [] ==> 0 <= PlaceOf(u, hdr, local, done, ps) && hdr + done + |b| <= |d|
    ensures hdr <= |d|
    ensures ps != [] ==> Last(ps) in pages && 4 <= PlaceOf(u, hdr, local, done, ps)
    ensures ps != [] ==> PlaceOf(u, hdr, local, done, ps) + |b| <= |pages[Last(ps)]|
  {
    hide Splice, LocalPart, Linked, NewChain;
    LocalPartRoom(d, hdr, local, payload, done, ps);
    if ps == [] {
      ChunkNext(local, u - 4, 0);
    } else {
      LastIn(pages, ps);
      assert ChunkHeld(pages, u, local, ps, payload[..done], |ps| - 1);
      ChunkNext(local, u - 4, |ps| - 1);
    }
  }

  lemma {:induction false} LocalPartRoom(d: seq<Byte>, hdr: nat, local: nat, payload: seq<Byte>, done: nat, ps: seq<nat>)
    requires LocalPart(d, hdr, local, payload, done, ps)
    ensures hdr + local + 4 <= |d| && local <= |payload|
  {
  }

  lemma {:induction false} FillLocal(u: nat, d: seq<Byte>, hdr: nat, local: nat, pages0: Pages, pages: Pages, payload: seq<Byte>, done: nat,
                                     ps: seq<nat>, b: seq<Byte>)
    requires Filling(u, d, hdr, local, pages0, pages, payload, done, ps) && ps == []
    requires done + |b| <= |payload| && b == payload[done..done + |b|] && done + |b| <= ChunkAt(local, u - 4, |ps|)
    ensures hdr + done + |b| <= |d|
    ensures Filling(u, Splice(d, hdr + done, b), hdr, local, pages0, pages, payload, done + |b|, ps)
  {
    hide Linked, NewChain;
    ChunkNext(local, u - 4, 0);
    assert d[hdr..hdr + |payload[..done]|] == payload[..done];
    Appended(d, hdr, payload[..done], b);
    assert payload[..done] + b == payload[..done + |b|];
  }

  lemma {:induction false} FillPage(u: nat, d: seq<Byte>, hdr: nat, local: nat, pages0: Pages, pages: Pages, payload: seq<Byte>, done: nat,
                                    ps: seq<nat>, b: seq<Byte>)
    requires Filling(u, d, hdr, local, pages0, pages, payload, done, ps) && ps != []
    requires done + |b| <= |payload| && b == payload[done..done + |b|] && done + |b| <= ChunkAt(local, u - 4, |ps|)
    ensures var last, at := Last(ps), PlaceOf(u, hdr, local, done, ps);
      && last in pages && 4 <= at && at + |b| <= |pages[last]|
      && SameHeads(pages, pages[last := Splice(pages[last], at, b)])
      && Filling(u, d, hdr, local, pages0, pages[last := Splice(pages[last], at, b)], payload, done + |b|, ps)
  {
    hide Splice, ChunkAt, Held, Linked, Be32;
    FillPlace(u, d, hdr, local, pages0, pages, payload, done, ps, b);
    var last, at := Last(ps), PlaceOf(u, hdr, local, done, ps);
    var pages' := pages[last := Splice(pages[last], at, b)];
    SpliceOutside(pages[last], at, b, 0, 4);
    FillOut(u, d, hdr, local, pages0, pages, payload, done, ps);
    IsDistinct(pages, ps);
    Extend(pages, u, local, ps, payload[..done], b);
    assert payload[..done] + b == payload[..done + |b|];
    assert pages'[last][..4] == pages'[last][0..4] && pages[last][..4] == pages[last][0..4];
    LinkedWrite(pages, ps, last, Splice(pages[last], at, b));
  }

  lemma {:induction false} IsDistinct(pages: Pages, ps: seq<nat>)
    requires Linked(pages, ps)
    ensures Distinct(ps)
  {
  }

  lemma {:induction false} FillGrown(u: nat, d: seq<Byte>, d': seq<Byte>, hdr: nat, local: nat, pages0: Pages, pages: Pages, pages': Pages,
                                     payload: seq<Byte>, done: nat, ps: seq<nat>, p: nat)
    requires Filling(u, d, hdr, local, pages0, pages, payload, done, ps) && done == ChunkAt(local, u - 4, |ps|)
    requires p !in pages && Linked(pages', ps + [p]) && Held(pages', u, local, ps + [p], payload[..done])
    requires pages'.Keys == pages.Keys + {p} && forall q :: q in pages && q != Last(ps) ==> pages'[q] == pages[q]
    requires 0 !in pages0
    requires hdr + local + 4 <= |d| && d' == if Last(ps) == 0 then Splice(d, hdr + local, Be32(p)) else d
    ensures Filling(u, d', hdr, local, pages0, pages', payload, done, ps + [p]) && p !in ps
    ensures hdr <= |d'| && d'[..hdr] == d[..hdr]
  {
    hide ChunkAt, Held, Linked, LocalPart, NewChain, Splice, Be32;
    FillOut(u, d, hdr, local, pages0, pages, payload, done, ps);
    ChunkNext(local, u - 4, |ps|);
    ChunkNext(local, u - 4, 0);
    ChunkOrder(local, u - 4, 0, |ps|);
    LocalGrown(d, d', hdr, local, payload, done, ps, p);
    ChainGrown(pages0, pages, pages', ps, p);
  }

  lemma {:induction false} LocalGrown(d: seq<Byte>, d': seq<Byte>, hdr: nat, local: nat, payload: seq<Byte>,
          done: nat, ps: seq<nat>, p: nat)
    requires LocalPart(d, hdr, local, payload, done, ps) && local <= done
    requires (ps == [] <==> Last(ps) == 0) && hdr + local + 4 <= |d|
    requires d' == if Last(ps) == 0 then Splice(d, hdr + local, Be32(p)) else d
    ensures LocalPart(d', hdr, local, payload, done, ps + [p])
    ensures hdr <= |d'| && d'[..hdr] == d[..hdr]
  {
    hide Be32, Splice;
    if ps == [] {
      SpliceOutside(d, hdr + local, Be32(p), hdr, hdr + local);
      SpliceAcross(d, hdr + local, Be32(p), hdr + local, hdr + local + 4);
      SpliceAll(d[hdr + local..hdr + local + 4], Be32(p));
      SpliceOutside(d, hdr + local, Be32(p), 0, hdr);
      assert d'[..hdr] == d'[0..hdr] && d[..hdr] == d[0..hdr];
    }
  }

  lemma {:induction false} ChainGrown(pages0: Pages, pages: Pages, pages': Pages, ps: seq<nat>, p: nat)
    requires NewChain(pages0, pages, ps) && p !in pages && 0 !in pages0
    requires pages'.Keys == pages.Keys + {p} && forall q :: q in pages && q != Last(ps) ==> pages'[q] == pages[q]
    requires ps != [] ==> Last(ps) != 0
    ensures NewChain(pages0, pages', ps + [p]) && p !in ps
  {
    assert (set q | q in ps + [p]) == (set q | q in ps) + {p};
    assert ps != [] ==> Last(ps) !in pages0;
  }

  /** If the pages so far are full and bytes are left, another page is due. */
  lemma {:induction false} RoomForMore(local: nat, room: nat, total: nat, k: nat)
    requires room > 0 && local <= total && ChunkAt(local, room, k) < total
    ensures k + 1 <= CeilOf(total - local, room)
  {
    hide ChunkAt, CeilOf;
    CeilDiv(total - local, room);
    var m := CeilOf(total - local, room);
    ChunkOf(local, room, m);
    if m <= k { ChunkOrder(local, room, m, k); }
  }

  lemma {:induction false} ChunkOf(local: nat, room: nat, m: nat)
    ensures ChunkAt(local, room, m) == local + m * room
  {
  }

  /** At the end there are no more pages than needed, and no fewer. */
  lemma {:induction false} Enough(local: nat, room: nat, total: nat, k: nat, spaceLeft: nat)
    requires room > 0 && local < total && k <= CeilOf(total - local, room) && total + spaceLeft == ChunkAt(local, room, k)
    ensures k == CeilOf(total - local, room)
  {
    hide ChunkAt, CeilOf;
    CeilDiv(total - local, room);
    var m := CeilOf(total - local, room);
    if k < m {
      ChunkOf(local, room, m - 1);
      ChunkOrder(local, room, k, m - 1);
    }
  }

  // ------------------------------------------------------------------ clearing a chain

  /** With the first `i` pages of a chain freed, the entries of all pages but the next one are right. */
  ghost predicate MappedFrom(pages: Pages, ptrmap: map<nat, Entry>, ps: seq<nat>, i: nat)
  {
    forall p: nat :: p != 0 && !(0 < i < |ps| && p == ps[i]) ==> EntryOk(pages, ptrmap, p)
  }

  /** The entries of the pages of a chain say that they are free, the others are as they were. */
  ghost predicate Cleared(was: map<nat, Entry>, ptrmap: map<nat, Entry>, ps: seq<nat>)
  {
    && (forall p :: p in ps ==> p in ptrmap && ptrmap[p] == Entry(PTRMAP_FREEPAGE, 0))
    && (forall q :: q !in ps ==> (q in ptrmap <==> q in was) && (q in was ==> ptrmap[q] == was[q]))
  }

  lemma {:induction false} ClearedNone(ptrmap: map<nat, Entry>)
    ensures Cleared(ptrmap, ptrmap, [])
  {
  }

  lemma {:induction false} ClearedMore(was: map<nat, Entry>, mid: map<nat, Entry>, ptrmap: map<nat, Entry>, ps: seq<nat>, p: nat)
    requires Cleared(was, mid, ps) && ptrmap == mid[p := Entry(PTRMAP_FREEPAGE, 0)]
    ensures Cleared(was, ptrmap, ps + [p])
  {
    assert forall q :: q !in ps + [p] ==> q !in ps && q != p;
  }

  lemma {:induction false} StartsMapped(pages: Pages, ptrmap: map<nat, Entry>, ps: seq<nat>, autoVacuum: bool)
    ensures autoVacuum && Mapped(pages, ptrmap, 0) ==> MappedFrom(pages, ptrmap, ps, 0)
  {
  }

  lemma {:induction false} EndsMapped(pages: Pages, ptrmap: map<nat, Entry>, ps: seq<nat>)
    requires MappedFrom(pages, ptrmap, ps, |ps|)
    ensures Mapped(pages, ptrmap, 0)
  {
  }

  lemma {:induction false} ChainStep(pages0: Pages, pages: Pages, ps: seq<nat>, i: nat)
    requires Linked(pages0, ps) && i < |ps| && pages == pages0 - PagesOf(ps[..i])
    ensures ps[i] >= 2 && ps[i] in pages && LinkAt(pages, ps, i)
  {
    hide Get4, At;
    assert LinkAt(pages0, ps, i);
    assert ps[i] !in ps[..i];
  }

  /** A page that says it follows page `i` is the next page of the chain. */
  lemma {:induction false} GuessIs(pages: Pages, ptrmap: map<nat, Entry>, ps: seq<nat>, i: nat, guess: nat)
    requires MappedFrom(pages, ptrmap, ps, i) && LinkAt(pages, ps, i) && guess > ps[i]
    requires guess in ptrmap && ptrmap[guess] == Entry(PTRMAP_OVERFLOW2, ps[i])
    ensures guess == At(ps, i + 1)
  {
    hide Get4, At;
    assert EntryOk(pages, ptrmap, guess);
  }

  /** Freeing page `i` leaves wrong at most the entry of page `i + 1`. */
  lemma {:induction false} FreedMapped(was: Pages, pages: Pages, map0: map<nat, Entry>, ptrmap: map<nat, Entry>, ps: seq<nat>, i: nat)
    requires MappedFrom(was, map0, ps, i) && LinkAt(was, ps, i) && pages == was - {ps[i]}
    requires ptrmap == map0[ps[i] := Entry(PTRMAP_FREEPAGE, 0)]
    ensures MappedFrom(pages, ptrmap, ps, i + 1)
  {
    hide Get4;
    forall p: nat | p != 0 && !(0 < i + 1 < |ps| && p == ps[i + 1]) ensures EntryOk(pages, ptrmap, p) {
      if p != ps[i] {
        assert EntryOk(was, map0, p);
      }
    }
  }

  // ------------------------------------------------------------------ a finished cell

  lemma {:induction false} SizeParts(sh: Shape, key: int, n: nat)
    requires Proper(sh)
    ensures Local(sh.u, sh.kind, n) <= n
    ensures n <= MaxLocal(sh.u, sh.kind) ==>
      SizeOf(sh, key, n) == (if HeaderLen(sh, key, n) + n < 4 then 4 else HeaderLen(sh, key, n) + n)
    ensures n > MaxLocal(sh.u, sh.kind) ==> SizeOf(sh, key, n) == HeaderLen(sh, key, n) + Local(sh.u, sh.kind, n) + 4
  {
  }

  lemma {:induction false} LocalOf2(sh: Shape, n: nat)
    requires Proper(sh)
    ensures Local(sh.u, sh.kind, n) == n <==> n <= MaxLocal(sh.u, sh.kind)
  {
    LocalLimits(sh.u, sh.kind);
  }

  lemma {:induction false} VarintShape(v: nat)
    requires v < TWO64
    ensures |Encode(v)| == VarintLen(v)
  {
    EncodeShape(v);
  }

  lemma {:induction false} LocalIs(sh: Shape, n: nat)
    requires Proper(sh)
    ensures var maxLocal, mn := MaxLocal(sh.u, sh.kind), MinLocal(sh.u);
      && 0 < mn <= maxLocal
      && (n > maxLocal ==>
          && Local(sh.u, sh.kind, n) == (var s := mn + Rest(n - mn, sh.u - 4); if s > maxLocal then mn else s)
          && 0 < Local(sh.u, sh.kind, n) < n
          && OverflowPages(sh, n) == CeilOf(n - Local(sh.u, sh.kind, n), sh.u - 4))
  {
    LocalOf(sh, n);
    LocalLimits(sh.u, sh.kind);
  }

  lemma {:induction false} FilledSmall(sh: Shape, d: seq<Byte>, key: int, payload: seq<Byte>, pages: Pages, ptrmap: map<nat, Entry>)
    requires CellAt(sh, d, 0, key, |payload|) && |payload| <= MaxLocal(sh.u, sh.kind)
    ensures HeaderLen(sh, key, |payload|) + |payload| <= |d|
    ensures TextHolds(sh, Splice(d, HeaderLen(sh, key, |payload|), payload), 0, key, payload, [])
    ensures OverflowHolds(sh, pages, payload, [])
    ensures NewChain(pages, pages, []) && ChainMapped(ptrmap, ptrmap, [])
  {
    hide VarintAt, VarintLen, MaxLocal, Splice, HeaderLen, Get4, ChunkAt, CellAt;
    CellRoom(sh, d, 0, key, |payload|);
    JustEnough(sh, |payload|);
    LocalOf2(sh, |payload|);
    SizeParts(sh, key, |payload|);
    var hdr := HeaderLen(sh, key, |payload|);
    var e := Splice(d, hdr, payload);
    SpliceOutside(d, hdr, payload, 0, hdr);
    HeaderSame(sh, d, 0, e, 0, key, |payload|);
    SpliceAcross(d, hdr, payload, hdr, hdr + |payload|);
    SpliceAll(d[hdr..hdr + |payload|], payload);
  }

  lemma {:induction false} FilledLarge(sh: Shape, d: seq<Byte>, e: seq<Byte>, key: int, payload: seq<Byte>, pages0: Pages, pages: Pages,
                                       nPage: nat, ps: seq<nat>)
    requires CellAt(sh, d, 0, key, |payload|) && |payload| > MaxLocal(sh.u, sh.kind) && |e| == |d| && nPage <= MAX_PAGE
    requires var hdr, local := HeaderLen(sh, key, |payload|), Local(sh.u, sh.kind, |payload|);
      && Filling(sh.u, e, hdr, local, pages0, pages, payload, |payload|, ps)
      && |ps| == CeilOf(|payload| - local, sh.u - 4)
      && hdr <= |d| && e[..hdr] == d[..hdr]
    requires forall p :: p in pages ==> p <= nPage
    ensures TextHolds(sh, e, 0, key, payload, ps) && OverflowHolds(sh, pages, payload, ps) && NewChain(pages0, pages, ps)
  {
    hide VarintAt, VarintLen, MaxLocal, Local, HeaderLen, Get4, ChunkAt, CellAt, Held, Linked, CeilOf, Be32, NewChain;
    CellRoom(sh, d, 0, key, |payload|);
    var hdr, local := HeaderLen(sh, key, |payload|), Local(sh.u, sh.kind, |payload|);
    assert e[0..hdr] == e[..hdr] && d[0..hdr] == d[..hdr];
    HeaderSame(sh, d, 0, e, 0, key, |payload|);
    assert payload[..|payload|] == payload;
    JustEnough(sh, |payload|);
    FillOut(sh.u, e, hdr, local, pages0, pages, payload, |payload|, ps);
    assert ps[0] in pages;
    GetBe32(e, hdr + local, ps[0]);
  }

  lemma {:induction false} HeaderIs(sh: Shape, key: int, n: nat)
    ensures HeaderLen(sh, key, n) == sh.child + VarintLen(n) + if sh.kind.TableLeaf? then VarintLen(KeyBits(key)) else 0
  {
  }

  /** A cell that fillInCell has built, copied into a page, stores its payload there. */
  lemma {:induction false} Placed(sh: Shape, d: seq<Byte>, pages: Pages, pg: nat, at: nat, key: int, payload: seq<Byte>, ps: seq<nat>)
    requires TextHolds(sh, d, 0, key, payload, ps) && OverflowHolds(sh, pages, payload, ps)
    requires pg in pages && |pages[pg]| == sh.u && pg !in ps && at + SizeOf(sh, key, |payload|) <= sh.u
    requires pages[pg][at..at + SizeOf(sh, key, |payload|)] == d[0..SizeOf(sh, key, |payload|)]
    ensures PayloadAt(sh, pages, pg, at, key, payload, ps)
  {
    hide SizeOf, OverflowHolds;
    CellCopied(sh, d, 0, pages[pg], at, key, payload, ps);
  }

  /** Two payloads in one place are the same payload. */
  lemma {:induction false} PayloadUnique(sh: Shape, pages: Pages, pg: nat, at: nat, key: int, a: seq<Byte>, b: seq<Byte>, ps: seq<nat>)
    requires PayloadAt(sh, pages, pg, at, key, a, ps) && PayloadAt(sh, pages, pg, at, key, b, ps) && |a| == |b|
    ensures a == b
  {
    hide Local, ChunkAt, OverflowPages, CellAt, Linked, Get4, MaxLocal, HeaderLen;
    var local, room := Local(sh.u, sh.kind, |a|), sh.u - 4;
    JustEnough(sh, |a|);
    LocalInside(sh, pages[pg], at, key, |a|);
    forall k | 0 <= k < |a| ensures a[k] == b[k] {
      if k < local {
        assert a[k] == a[..local][k] && b[k] == b[..local][k];
      } else {
        PageOf(local, room, k - local, |a|, |ps|);
        var i := Quot(k - local, room);
        var lo := ChunkAt(local, room, i);
        ChunkNext(local, room, i);
        RestBelow(k - local, room);
        assert ChunkHeld(pages, sh.u, local, ps, a, i) && ChunkHeld(pages, sh.u, local, ps, b, i);
        var hi := Least(lo + room, |a|);
        assert a[lo..hi][k - lo] == b[lo..hi][k - lo];
      }
    }
  }

  lemma {:induction false} RestBelow(a: nat, b: nat)
    requires b > 0
    ensures Rest(a, b) < b
  {
  }
}
