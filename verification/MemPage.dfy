/** The in-memory b-tree page (struct MemPage in btreeInt.h) with the operations that edit it in
    place: allocateSpace, freeSpace, defragmentPage, insertCell and dropCell of btree.c. */
module MemPages {
  import opened PageLayout
  import opened PageEdits
  import opened PageFree
  import opened PageImage
  import opened PageDefrag
  import opened PageRebuild
  import opened PageRelease
  import opened PageCells

  /** A cell that did not fit, and the index at which it belongs (apOvfl and aiOvfl). */
  datatype Ovfl = Ovfl(idx: nat, cell: seq<Byte>)

  /** The cell with its first four bytes replaced by a child page number, unless that is zero. */
  function WithChild(cell: seq<Byte>, iChild: nat): (r: seq<Byte>)
    requires iChild == 0 || |cell| >= 4
    ensures |r| == |cell|
  {
    if iChild == 0 then cell
    else [(iChild / 0x100_0000) % 256, (iChild / 0x1_0000) % 256, (iChild / 256) % 256, iChild % 256] + cell[4..]
  }

  /** Freeblock `k` is the first of at least `n` bytes. */
  ghost predicate IsFirstFit(blocks: seq<Block>, n: nat, k: nat)
  {
    k < |blocks| && blocks[k].size >= n && forall j :: 0 <= j < k ==> blocks[j].size < n
  }

  /** A freeblock gives up `n` bytes at its end: the first that is large enough, unless it would leave a
      fragment and the header counts too many of these bytes already. */
  ghost predicate GivesSlot(blocks: seq<Block>, nFrag: int, n: nat)
  {
    exists k: nat :: IsFirstFit(blocks, n, k) && (blocks[k].size >= n + 4 || nFrag <= 57)
  }

  ghost predicate SlotIs(blocks: seq<Block>, n: nat, at: nat)
  {
    exists k: nat :: IsFirstFit(blocks, n, k) && at == blocks[k].at + blocks[k].size - n
  }

  lemma {:induction false} SlotOf(blocks: seq<Block>, nFrag: int, n: nat, k: nat)
    requires IsFirstFit(blocks, n, k)
    ensures GivesSlot(blocks, nFrag, n) <==> blocks[k].size >= n + 4 || nFrag <= 57
    ensures SlotIs(blocks, n, blocks[k].at + blocks[k].size - n)
  {
  }

  lemma {:induction false} NoSlot(blocks: seq<Block>, nFrag: int, n: nat)
    requires forall j :: 0 <= j < |blocks| ==> blocks[j].size < n
    ensures !GivesSlot(blocks, nFrag, n)
  {
  }

  lemma {:induction false} NoBlocks(nFrag: int, n: nat)
    ensures !GivesSlot([], nFrag, n)
  {
  }

  /** Fragment bytes after defragmentation: kept when stretches of cells are moved over one or two
      freeblocks, which is done if they are few enough; otherwise the page is rebuilt without any. */
  function FragAfter(nFrag: int, nBlock: nat, nMaxFrag: int): (r: int)
    ensures r == 0 || r <= nMaxFrag
  {
    if nFrag <= nMaxFrag && 1 <= nBlock <= 2 then nFrag else 0
  }

  class MemPage {
    const usable: nat
    const hdr: nat
    const cellOffset: nat
    const xCellSize: seq<Byte> -> nat
    const aData: array<Byte>
    var nCell: nat
    var nFree: int
    var ovfl: seq<Ovfl>
    ghost var cells: seq<Block>
    ghost var blocks: seq<Block>

    function First(): nat
      reads this
    {
      cellOffset + 2 * nCell
    }

    /** The page is well formed and `nFree` is what btreeInitPage would compute. */
    ghost predicate Valid()
      reads this, aData
    {
      && PageOk(aData[..], usable, hdr, cellOffset, xCellSize, cells, blocks)
      && nCell == |cells|
      && nFree == FreeBytes(aData[..], hdr, First(), blocks)
    }

    /** The bytes of every cell, in order. */
    ghost function Value(): seq<seq<Byte>>
      reads this, aData
    {
      Contents(aData[..], cells)
    }

    /** `n` bytes at `at` have been set aside for one more cell. */
    ghost predicate Reserved(at: nat, n: nat)
      reads this, aData
    {
      nCell == |cells| && Holds(aData[..], usable, hdr, cellOffset, cells, blocks, Block(at, n))
    }

    /** put2byte. */
    method Put(i: nat, v: nat)
      requires i + 2 <= aData.Length && v <= 0x1_0000
      modifies aData
      ensures Get2(aData[..], i) == v % 0x1_0000
      ensures Keeps(old(aData[..]), aData[..], 0, i)
      ensures Keeps(old(aData[..]), aData[..], i + 2, aData.Length - i - 2)
    {
      aData[i] := (v / 256) % 256;
      aData[i + 1] := v % 256;
    }

    function Get(i: nat): (v: nat)
      requires i + 2 <= aData.Length
      reads aData
      ensures v == Get2(aData[..], i)
    {
      var hi: int, lo: int := aData[i], aData[i + 1];
      256 * hi + lo
    }

    // ---------------------------------------------------------------- allocation

    /** The first freeblock of at least `nByte` bytes, and the address of the link to it. */
    method FirstFit(nByte: nat) returns (found: bool, iAddr: nat, pc: nat, ghost k: nat)
      requires Valid() && blocks != []
      ensures !found ==> forall j :: 0 <= j < |blocks| ==> blocks[j].size < nByte
      ensures found ==> IsFirstFit(blocks, nByte, k) && iAddr == Link(hdr, blocks, k) && pc == blocks[k].at
    {
      ghost var d := aData[..];
      found, iAddr, k := false, hdr + 1, 0;
      pc := Get(iAddr);
      assert FreeAt(d, usable, blocks, 0);
      while pc <= usable - 4
        invariant k < |blocks| && iAddr == Link(hdr, blocks, k) && pc == Head(blocks, k)
        invariant FreeAt(d, usable, blocks, k)
        invariant forall j :: 0 <= j < k ==> blocks[j].size < nByte
        decreases |blocks| - k
      {
        var size := Get(pc + 2);
        if size >= nByte {
          found := true;
          return;
        }
        iAddr := pc;
        pc := Get(pc);
        k := k + 1;
        if k < |blocks| { assert FreeAt(d, usable, blocks, k); }
        if pc < iAddr + size { break; }
      }
      if pc != 0 {
        // SQLITE_CORRUPT: the freeblocks are not in ascending order
        assert false;
      }
    }

    /** Take the freeblock at `pc` out of the chain and count its `x` spare bytes as fragments. */
    method Unlink(iAddr: nat, pc: nat, x: nat)
      requires hdr + 8 <= aData.Length && pc + 2 <= aData.Length && aData[hdr + 7] + x < 256
      requires hdr + 1 == iAddr || (hdr + 8 <= iAddr && iAddr + 2 <= aData.Length)
      requires iAddr + 2 <= pc
      modifies aData
      ensures Get2(aData[..], iAddr) == old(Get2(aData[..], pc))
      ensures aData[hdr + 7] == old(aData[hdr + 7]) + x
      ensures forall j :: 0 <= j < aData.Length && j != hdr + 7 && !(iAddr <= j < iAddr + 2) ==> aData[j] == old(aData[j])
    {
      aData[iAddr] := aData[pc];
      aData[iAddr + 1] := aData[pc + 1];
      aData[hdr + 7] := aData[hdr + 7] + x;
    }

    /** pageFindSlot: the first freeblock large enough gives up its last `nByte` bytes. */
    method FindSlot(nByte: nat) returns (found: bool, at: nat)
      requires Valid() && blocks != [] && nByte >= 4 && First() + 2 <= Top(aData[..], hdr)
      modifies aData, `blocks
      ensures found ==> Reserved(at, nByte) && Value() == old(Value())
      ensures TypeKept(old(aData[..]), aData[..], hdr, cellOffset)
      ensures !found ==> aData[..] == old(aData[..]) && blocks == old(blocks)
      ensures found == GivesSlot(old(blocks), old(aData[hdr + 7]), nByte)
      ensures found ==> SlotIs(old(blocks), nByte, at)
    {
      hide PageOk, Holds, Contents, GivesSlot, SlotIs;
      ghost var d := aData[..];
      PageSize(d, usable, hdr, cellOffset, xCellSize, cells, blocks);
      at := 0;
      var iAddr, pc;
      ghost var k;
      found, iAddr, pc, k := FirstFit(nByte);
      if !found {
        NoSlot(blocks, aData[hdr + 7], nByte);
        return;
      }
      SlotOf(blocks, aData[hdr + 7], nByte, k);
      SlotPlace(d, usable, hdr, cellOffset, xCellSize, cells, blocks, k);
      var size := Get(pc + 2);
      var x := size - nByte;
      if size + pc > usable {
        // SQLITE_CORRUPT: the freeblock extends past the end of the page
        assert false;
      } else if x < 4 {
        if aData[hdr + 7] > 57 { found := false; return; }
        TakeWhole(iAddr, pc, k, x, nByte);
      } else {
        TakeTail(pc, k, x, nByte);
      }
      at := pc + x;
    }

    method TakeWhole(iAddr: nat, pc: nat, ghost k: nat, x: nat, nByte: nat)
      requires Valid() && k < |blocks| && iAddr == Link(hdr, blocks, k) && pc == blocks[k].at
      requires nByte >= 4 && x == blocks[k].size - nByte && x < 4
      requires First() + 2 <= Top(aData[..], hdr) && aData[hdr + 7] <= 57
      modifies aData, `blocks
      ensures Reserved(pc + x, nByte) && Value() == old(Value())
      ensures TypeKept(old(aData[..]), aData[..], hdr, cellOffset)
    {
      hide PageOk, Holds, Contents, Spliced;
      ghost var d := aData[..];
      SlotPlace(d, usable, hdr, cellOffset, xCellSize, cells, blocks, k);
      Unlink(iAddr, pc, x);
      TookWhole(d, aData[..], usable, hdr, cellOffset, xCellSize, cells, blocks, k, nByte);
      blocks := Spliced(blocks, k, k + 1, []);
    }

    method TakeTail(pc: nat, ghost k: nat, x: nat, nByte: nat)
      requires Valid() && k < |blocks| && pc == blocks[k].at
      requires nByte >= 4 && x == blocks[k].size - nByte && x >= 4
      requires First() + 2 <= Top(aData[..], hdr)
      modifies aData, `blocks
      ensures Reserved(pc + x, nByte) && Value() == old(Value())
      ensures TypeKept(old(aData[..]), aData[..], hdr, cellOffset)
    {
      hide PageOk, Holds, Contents, Spliced, Get2, Top, TypeKept;
      ghost var d := aData[..];
      SlotPlace(d, usable, hdr, cellOffset, xCellSize, cells, blocks, k);
      Put(pc + 2, x);
      TypePut(d, aData[..], hdr, cellOffset, pc + 2);
      TookTail(d, aData[..], usable, hdr, cellOffset, xCellSize, cells, blocks, k, nByte);
      blocks := Spliced(blocks, k, k + 1, [Block(blocks[k].at, blocks[k].size - nByte)]);
    }

    // ---------------------------------------------------------------- defragmentation

    /** memmove within the page. */
    method MemMove(dst: nat, src: nat, n: nat)
      requires dst + n <= aData.Length && src + n <= aData.Length
      modifies aData
      ensures Moved(old(aData[..]), aData[..], dst, src, n)
    {
      forall x | dst <= x < dst + n { aData[x] := aData[x - dst + src]; }
    }

    /** The cell pointers follow the cells over the freeblocks. */
    method SlidePointers(ghost moved: seq<Block>, iFree: nat, sz: nat, iFree2: nat, sz2: nat)
      requires Points(aData[..], cellOffset, cells) && |cells| == nCell && First() <= aData.Length
      requires moved == SlidCells(cells, iFree, sz, iFree2, sz2)
      requires forall i :: 0 <= i < |moved| ==> moved[i].at < 0x1_0000
      modifies aData
      ensures Points(aData[..], cellOffset, moved)
      ensures Keeps(old(aData[..]), aData[..], 0, cellOffset)
      ensures Keeps(old(aData[..]), aData[..], First(), aData.Length - First())
    {
      var i := 0;
      ghost var d := aData[..];
      while i < nCell
        invariant i <= nCell
        invariant forall j :: 0 <= j < i ==> PointsTo(aData[..], cellOffset, moved, j)
        invariant forall j :: i <= j < nCell ==> PointsTo(aData[..], cellOffset, cells, j)
        invariant Keeps(d, aData[..], 0, cellOffset) && Keeps(d, aData[..], First(), aData.Length - First())
      {
        ghost var e := aData[..];
        assert PointsTo(e, cellOffset, cells, i);
        var pAddr := cellOffset + 2 * i;
        var pc := Get(pAddr);
        assert pc == cells[i].at && moved[i].at < 0x1_0000;
        if pc < iFree {
          Put(pAddr, pc + sz);
        } else if pc < iFree2 {
          Put(pAddr, pc + sz2);
        }
        PointerSet(e, aData[..], cellOffset, cells, moved, i);
        i := i + 1;
      }
    }

    /** The one or two memmove calls of the fast path. */
    method MoveStretches(top: nat, iFree: nat, sz1: nat, iFree2: nat, sz2: nat)
      requires top < iFree && iFree + sz1 <= aData.Length
      requires if iFree2 == 0 then sz2 == 0 else iFree + sz1 <= iFree2 && iFree2 + sz2 <= aData.Length
      modifies aData
      ensures SlidOver(old(aData[..]), aData[..], top, iFree, sz1 + sz2, iFree2, sz2)
      ensures Keeps(old(aData[..]), aData[..], 0, top)
    {
      hide Moved, SlidOver, Keeps;
      ghost var d := aData[..];
      if iFree2 != 0 {
        MemMove(iFree + sz1 + sz2, iFree + sz1, iFree2 - (iFree + sz1));
        ghost var m := aData[..];
        MemMove(top + sz1 + sz2, top, iFree - top);
        TwoMoves(d, m, aData[..], top, iFree, sz1, iFree2, sz2);
      } else {
        MemMove(top + sz1, top, iFree - top);
        OneMove(d, aData[..], top, iFree, sz1);
      }
    }

    /** defragmentPage's fast path: at most two freeblocks, squeezed out by moving whole stretches of
        cells. */
    method SqueezeOut(iFree: nat, iFree2: nat) returns (cbrk: nat, ghost moved: seq<Block>)
      requires Valid() && 1 <= |blocks| <= 2
      requires iFree == blocks[0].at && iFree2 == Head(blocks, 1)
      modifies aData
      ensures Compacted(old(aData[..]), aData[..], usable, hdr, cellOffset, cells, moved, cbrk)
      ensures aData[hdr + 7] == old(aData[hdr + 7])
      ensures TypeKept(old(aData[..]), aData[..], hdr, cellOffset)
    {
      hide PageOk, Compacted, SlidCells, Total, Moved, SlidOver, Rearranged, Points, Keeps, Get2, Top;
      ghost var d := aData[..];
      FewPlace(d, usable, hdr, cellOffset, xCellSize, cells, blocks);
      var sz1 := Get(iFree + 2);
      var sz2 := 0;
      var top := Get(hdr + 5);
      if top >= iFree {
        // SQLITE_CORRUPT: a freeblock below the content area
        assert false;
      }
      if iFree2 != 0 { sz2 := Get(iFree2 + 2); }
      MoveStretches(top, iFree, sz1, iFree2, sz2);
      ghost var e := aData[..];
      moved := SlidCells(cells, iFree, sz1 + sz2, iFree2, sz2);
      Squeezed(d, e, usable, hdr, cellOffset, xCellSize, cells, blocks, iFree, sz1 + sz2, iFree2, sz2);
      SlidePointers(moved, iFree, sz1 + sz2, iFree2, sz2);
      cbrk := top + sz1 + sz2;
      TypeLow(d, e, hdr, cellOffset, top);
      TypeLow(e, aData[..], hdr, cellOffset, cellOffset);
      CompactedBy(d, e, aData[..], usable, hdr, cellOffset, cells, moved, cbrk);
    }

    /** memcpy into the page. */
    method Write(at: nat, bytes: seq<Byte>)
      requires at + |bytes| <= aData.Length
      modifies aData
      ensures forall x :: 0 <= x < |bytes| ==> aData[at + x] == bytes[x]
      ensures CellBytes(aData[..], Block(at, |bytes|)) == bytes
      ensures Keeps(old(aData[..]), aData[..], 0, at)
      ensures Keeps(old(aData[..]), aData[..], at + |bytes|, aData.Length - at - |bytes|)
    {
      forall x | 0 <= x < |bytes| { aData[at + x] := bytes[x]; }
      assert aData[at..at + |bytes|] == bytes;
    }

    /** defragmentPage's slow path. */
    method Rebuild() returns (cbrk: nat, ghost moved: seq<Block>)
      requires Valid()
      modifies aData
      ensures Compacted(old(aData[..]), aData[..], usable, hdr, cellOffset, cells, moved, cbrk)
      ensures aData[hdr + 7] == 0
      ensures TypeKept(old(aData[..]), aData[..], hdr, cellOffset)
    {
      hide PageOk, Progress, Still, Readable, Compacted, Layout, Total, Keeps, Get2, PointsTo;
      ghost var d := aData[..];
      PageSize(d, usable, hdr, cellOffset, xCellSize, cells, blocks);
      StartStill(d, usable, hdr, cellOffset, xCellSize, cells, blocks);
      TotalNone(cells);
      var temp: array<Byte> := new Byte[usable];
      var saved := false;
      var i := 0;
      cbrk := usable;
      while i < nCell
        invariant i <= nCell && cbrk == usable - Total(cells[..i])
        invariant Progress(d, aData[..], usable, cellOffset, cells, i)
        invariant if saved then Readable(d, temp[..], cells, i) else Still(d, aData[..], usable, First(), cells, i)
      {
        cbrk, saved := MoveCell(i, cbrk, temp, saved, d);
        i := i + 1;
      }
      ghost var e := aData[..];
      ProgressLow(d, e, usable, hdr, cellOffset, cells, nCell);
      aData[hdr + 7] := 0;
      assert cells[..nCell] == cells;
      moved := Stacked(cells, usable);
      Finished(d, e, aData[..], usable, hdr, cellOffset, xCellSize, cells, blocks);
    }

    /** The size of cell `i`, read from the page or, once that is saved, from the temporary copy. */
    method ReadSize(i: nat, pc: nat, temp: array<Byte>, saved: bool, ghost d: seq<Byte>) returns (size: nat)
      requires PageOk(d, usable, hdr, cellOffset, xCellSize, cells, blocks) && i < |cells| && pc == cells[i].at
      requires temp.Length == aData.Length == usable
      requires if saved then Readable(d, temp[..], cells, i) else Still(d, aData[..], usable, cellOffset + 2 * |cells|, cells, i)
      ensures size == cells[i].size
    {
      hide PageOk, Still, Readable;
      if saved {
        SizeRead(d, temp[..], usable, hdr, cellOffset, xCellSize, cells, blocks, i);
        assert temp[..][pc..] == temp[pc..];
        size := xCellSize(temp[pc..]);
      } else {
        StillReadable(d, aData[..], usable, hdr, cellOffset, xCellSize, cells, blocks, i);
        SizeRead(d, aData[..], usable, hdr, cellOffset, xCellSize, cells, blocks, i);
        assert aData[..][pc..] == aData[pc..];
        size := xCellSize(aData[pc..]);
      }
    }

    /** Copy the content area up to `end` before the first cell in it is overwritten. */
    method SaveContent(i: nat, end: nat, temp: array<Byte>, ghost d: seq<Byte>, ghost e: seq<Byte>)
      requires PageOk(d, usable, hdr, cellOffset, xCellSize, cells, blocks) && i < |cells|
      requires temp != aData && temp.Length == aData.Length == usable && end == usable - Total(cells[..i])
      requires Still(d, e, usable, cellOffset + 2 * |cells|, cells, i)
      requires cellOffset + 2 * |cells| <= usable && Keeps(e, aData[..], cellOffset + 2 * |cells|, usable - cellOffset - 2 * |cells|)
      requires hdr + 8 <= usable && Get2(aData[..], hdr + 5) == Get2(d, hdr + 5)
      modifies temp
      ensures Readable(d, temp[..], cells, i)
    {
      hide PageOk, Still, Readable, Total;
      Turn(d, usable, hdr, cellOffset, xCellSize, cells, blocks, i);
      var x := Get(hdr + 5);
      forall n | x <= n < end { temp[n] := aData[n]; }
      Saved(d, e, temp[..], usable, hdr, cellOffset, xCellSize, cells, blocks, i);
    }

    /** One turn of the loop: cell `i` goes to the end of the free part of the page. */
    method MoveCell(i: nat, top: nat, temp: array<Byte>, saved0: bool, ghost d: seq<Byte>) returns (cbrk: nat, saved: bool)
      requires PageOk(d, usable, hdr, cellOffset, xCellSize, cells, blocks) && i < nCell == |cells|
      requires temp != aData && temp.Length == aData.Length == usable && top == usable - Total(cells[..i])
      requires Progress(d, aData[..], usable, cellOffset, cells, i)
      requires if saved0 then Readable(d, temp[..], cells, i) else Still(d, aData[..], usable, First(), cells, i)
      modifies aData, temp
      ensures cbrk == usable - Total(cells[..i + 1])
      ensures Progress(d, aData[..], usable, cellOffset, cells, i + 1)
      ensures if saved then Readable(d, temp[..], cells, i + 1) else Still(d, aData[..], usable, First(), cells, i + 1)
    {
      hide PageOk, Progress, Still, Readable, Layout, Total, PointsTo, Get2, Top, CellBytes;
      ghost var e := aData[..];
      Turn(d, usable, hdr, cellOffset, xCellSize, cells, blocks, i);
      TurnPointer(d, e, usable, hdr, cellOffset, xCellSize, cells, blocks, i);
      var iCellFirst := First();
      var pAddr := cellOffset + 2 * i;
      var pc := Get(pAddr);
      if pc < iCellFirst || pc > usable - 4 {
        // SQLITE_CORRUPT: a cell pointer outside the content area
        assert false;
      }
      var size := ReadSize(i, pc, temp, saved0, d);
      cbrk := top - size;
      if cbrk < iCellFirst || pc + size > usable {
        // SQLITE_CORRUPT: the cells do not fit
        assert false;
      }
      Put(pAddr, cbrk);
      ghost var g := aData[..];
      saved := saved0;
      if !saved {
        if cbrk == pc {
          Stays(d, e, g, usable, hdr, cellOffset, xCellSize, cells, blocks, i);
          PutPointer(d, e, g, usable, hdr, cellOffset, xCellSize, cells, blocks, i);
          return;
        }
        KeepsGet(e, g, 0, pAddr, hdr + 5);
        SaveContent(i, top, temp, d, e);
        saved := true;
      }
      CopyCell(i, pc, size, cbrk, temp, d, e);
      ReadableOn(d, temp[..], cells, i);
    }

    method CopyCell(i: nat, pc: nat, size: nat, cbrk: nat, temp: array<Byte>, ghost d: seq<Byte>, ghost e: seq<Byte>)
      requires PageOk(d, usable, hdr, cellOffset, xCellSize, cells, blocks) && i < |cells|
      requires temp != aData && temp.Length == aData.Length == usable && pc == cells[i].at && size == cells[i].size
      requires cbrk == usable - Total(cells[..i + 1])
      requires Progress(d, e, usable, cellOffset, cells, i) && Readable(d, temp[..], cells, i)
      requires |e| == usable && cellOffset + 2 * |cells| <= usable
      requires Keeps(e, aData[..], 0, cellOffset + 2 * i)
      requires Keeps(e, aData[..], cellOffset + 2 * i + 2, usable - cellOffset - 2 * i - 2)
      requires Get2(aData[..], cellOffset + 2 * i) == cbrk
      modifies aData
      ensures Progress(d, aData[..], usable, cellOffset, cells, i + 1)
    {
      hide PageOk, Progress, Readable, Total, Keeps, Get2;
      ghost var g := aData[..];
      Turn(d, usable, hdr, cellOffset, xCellSize, cells, blocks, i);
      SizeRead(d, temp[..], usable, hdr, cellOffset, xCellSize, cells, blocks, i);
      assert temp[..][pc..pc + size] == temp[pc..pc + size];
      Write(cbrk, temp[pc..pc + size]);
      PutCell(d, e, g, aData[..], usable, hdr, cellOffset, xCellSize, cells, blocks, i);
    }

    /** defragment_out: the header is rewritten for a page with no freeblock, the gap is cleared. */
    method Settle(cbrk: nat, ghost moved: seq<Block>, ghost d: seq<Byte>)
      requires PageOk(d, usable, hdr, cellOffset, xCellSize, cells, blocks) && nCell == |cells|
      requires Compacted(d, aData[..], usable, hdr, cellOffset, cells, moved, cbrk)
      modifies aData
      ensures PageOk(aData[..], usable, hdr, cellOffset, xCellSize, moved, []) && Contents(aData[..], moved) == Contents(d, cells)
      ensures Total(moved) == Total(cells)
      ensures aData[hdr + 7] == old(aData[hdr + 7]) && Top(aData[..], hdr) == cbrk
      ensures TypeKept(old(aData[..]), aData[..], hdr, cellOffset)
      ensures forall x :: First() <= x < cbrk ==> aData[x] == 0
    {
      hide PageOk, Layout, Contents, Total, CellBytes;
      ghost var e := aData[..];
      PageSize(d, usable, hdr, cellOffset, xCellSize, cells, blocks);
      Put(hdr + 5, cbrk);
      ghost var g := aData[..];
      aData[hdr + 1] := 0;
      aData[hdr + 2] := 0;
      var first := First();
      forall x | first <= x < cbrk { aData[x] := 0; }
      GetSame(g, aData[..], hdr + 5);
      Settled(d, e, aData[..], usable, hdr, cellOffset, xCellSize, cells, blocks, moved, cbrk);
    }

    /** Bring the free space together (defragmentPage).  The fast path is taken on at most two
        freeblocks and `nMaxFrag` fragment bytes. */
    method DefragmentPage(nMaxFrag: int)
      requires Valid()
      modifies aData, `cells, `blocks
      ensures Valid() && Value() == old(Value()) && blocks == [] && Total(cells) == old(Total(cells))
      ensures aData[hdr + 7] == FragAfter(old(aData[hdr + 7]), old(|blocks|), nMaxFrag)
      ensures TypeKept(old(aData[..]), aData[..], hdr, cellOffset)
      ensures forall x :: First() <= x < Top(aData[..], hdr) ==> aData[x] == 0
    {
      hide PageOk, Compacted, Contents, Total;
      ghost var d := aData[..];
      PageSize(d, usable, hdr, cellOffset, xCellSize, cells, blocks);
      var few, iFree, iFree2 := AtMostTwo();
      var cbrk;
      ghost var moved;
      if aData[hdr + 7] <= nMaxFrag && few {
        cbrk, moved := SqueezeOut(iFree, iFree2);
      } else {
        cbrk, moved := Rebuild();
      }
      CompactedCount(d, aData[..], usable, hdr, cellOffset, xCellSize, cells, blocks, moved, cbrk);
      if aData[hdr + 7] + cbrk - First() != nFree {
        // SQLITE_CORRUPT: the free bytes do not add up
        assert false;
      }
      Settle(cbrk, moved, d);
      cells, blocks := moved, [];
      PackedFree(aData[..], usable, hdr, cellOffset, xCellSize, cells);
    }

    /** Whether there are one or two freeblocks, and where. */
    method AtMostTwo() returns (few: bool, iFree: nat, iFree2: nat)
      requires Valid()
      ensures few == (1 <= |blocks| <= 2)
      ensures few ==> iFree == blocks[0].at && iFree2 == Head(blocks, 1)
    {
      few, iFree2 := false, 0;
      iFree := Get(hdr + 1);
      if blocks != [] {
        BlocksAboveTop(aData[..], usable, hdr, First(), cells, blocks, 0);
        assert FreeAt(aData[..], usable, blocks, 0);
      }
      if iFree != 0 {
        iFree2 := Get(iFree);
        if |blocks| > 1 {
          BlocksAboveTop(aData[..], usable, hdr, First(), cells, blocks, 1);
          assert FreeAt(aData[..], usable, blocks, 1);
        }
        if |blocks| > 2 { BlocksAboveTop(aData[..], usable, hdr, First(), cells, blocks, 2); }
        few := iFree2 == 0 || (aData[iFree2] == 0 && aData[iFree2 + 1] == 0);
      }
    }

    // ---------------------------------------------------------------- allocateSpace

    /** The page is defragmented, since the gap does not hold the pointer and the cell. */
    method MakeRoom(nByte: nat) returns (top: nat)
      requires Valid() && nByte >= 4 && nFree >= nByte + 2
      modifies aData, `cells, `blocks
      ensures Valid() && Value() == old(Value()) && Total(cells) == old(Total(cells)) && |cells| == old(|cells|) && blocks == []
      ensures top == Top(aData[..], hdr) && First() + 2 + nByte <= top
      ensures TypeKept(old(aData[..]), aData[..], hdr, cellOffset)
      ensures aData[hdr + 7] == FragAfter(old(aData[hdr + 7]), old(|blocks|), if nFree - (2 + nByte) < 4 then nFree - (2 + nByte) else 4)
    {
      hide PageOk, Holds, Contents, Total, FragAfter, Top;
      PageSize(aData[..], usable, hdr, cellOffset, xCellSize, cells, blocks);
      DefragmentPage(if nFree - (2 + nByte) < 4 then nFree - (2 + nByte) else 4);
      PackedGap(aData[..], usable, hdr, cellOffset, xCellSize, cells, nFree);
      PageSize(aData[..], usable, hdr, cellOffset, xCellSize, cells, blocks);
      TopIs(aData[..], usable, hdr, cellOffset, xCellSize, cells, blocks);
      top := Get(hdr + 5);
      if top == 0 { top := 0x1_0000; }
    }

    /** allocateSpace: whenever `nFree` covers the cell and its pointer, `nByte` bytes are found. */
    method AllocateSpace(nByte: nat) returns (idx: nat)
      requires Valid() && nByte >= 4 && nFree >= nByte + 2
      modifies aData, `cells, `blocks
      ensures Reserved(idx, nByte) && Value() == old(Value()) && Total(cells) == old(Total(cells))
      ensures TypeKept(old(aData[..]), aData[..], hdr, cellOffset)
      ensures if old(First() + 2 <= Top(aData[..], hdr) && GivesSlot(blocks, aData[hdr + 7], nByte)) then
                SlotIs(old(blocks), nByte, idx) && cells == old(cells)
              else if old(First() + 2 + nByte <= Top(aData[..], hdr)) then
                idx == Top(aData[..], hdr) && cells == old(cells) && blocks == old(blocks) && aData[hdr + 7] == old(aData[hdr + 7])
              else
                && idx == Top(aData[..], hdr) && blocks == []
                && aData[hdr + 7] == FragAfter(old(aData[hdr + 7]), old(|blocks|), if nFree - (2 + nByte) < 4 then nFree - (2 + nByte) else 4)
    {
      hide PageOk, Holds, Contents, Total, GivesSlot, SlotIs, FragAfter, Top;
      TopIs(aData[..], usable, hdr, cellOffset, xCellSize, cells, blocks);
      NoBlocks(aData[hdr + 7], nByte);
      idx := 0;
      var gap := First();
      PageSize(aData[..], usable, hdr, cellOffset, xCellSize, cells, blocks);
      var top := Get(hdr + 5);
      if gap > top {
        if top == 0 && usable == 0x1_0000 {
          top := 0x1_0000;
        } else {
          // SQLITE_CORRUPT: the content area starts inside the pointer array
          assert false;
        }
      }
      ChainEmpty(aData[..], usable, hdr, cellOffset, xCellSize, cells, blocks);
      if (aData[hdr + 2] != 0 || aData[hdr + 1] != 0) && gap + 2 <= top {
        var found, at := FindSlot(nByte);
        if found {
          idx := at;
          return;
        }
      }
      if gap + 2 + nByte > top { top := MakeRoom(nByte); }
      idx := FromGap(nByte, top);
    }

    /** The gap between the pointer array and the content area gives up its last `nByte` bytes. */
    method FromGap(nByte: nat, top0: nat) returns (top: nat)
      requires Valid() && nByte >= 4 && top0 == Top(aData[..], hdr) && First() + 2 + nByte <= top0
      modifies aData
      ensures Reserved(top, nByte) && Value() == old(Value())
      ensures top == Top(aData[..], hdr) && aData[hdr + 7] == old(aData[hdr + 7])
      ensures TypeKept(old(aData[..]), aData[..], hdr, cellOffset)
    {
      hide PageOk, Holds, Contents;
      ghost var d := aData[..];
      PageSize(d, usable, hdr, cellOffset, xCellSize, cells, blocks);
      top := top0 - nByte;
      Put(hdr + 5, top);
      TookGap(d, aData[..], usable, hdr, cellOffset, xCellSize, cells, blocks, nByte);
    }

    // ---------------------------------------------------------------- freeSpace

    /** The place of `iStart` in the ascending chain. */
    method FindSpot(iStart: nat, ghost i: nat) returns (iPtr: nat, iFreeBlk: nat, ghost p: nat)
      requires Valid() && i < |cells| && iStart == cells[i].at
      ensures Spot(aData[..], usable, hdr, cellOffset, xCellSize, cells, blocks, i, p)
      ensures iPtr == Link(hdr, blocks, p) && iFreeBlk == Head(blocks, p)
      ensures iFreeBlk <= usable - 4
    {
      hide PageOk, Contents, Get2;
      ghost var d := aData[..];
      PageSize(d, usable, hdr, cellOffset, xCellSize, cells, blocks);
      ChainStart(d, usable, hdr, cellOffset, xCellSize, cells, blocks, i);
      iPtr, p := hdr + 1, 0;
      iFreeBlk := Get(iPtr);
      while iFreeBlk < iStart
        invariant p <= |blocks| && iPtr == Link(hdr, blocks, p) && iFreeBlk == Head(blocks, p)
        invariant forall j :: 0 <= j < p ==> blocks[j].at < iStart
        decreases |blocks| - p
      {
        if p < |blocks| { ChainNext(d, usable, hdr, cellOffset, xCellSize, cells, blocks, p); }
        if iFreeBlk < iPtr + 4 {
          if iFreeBlk == 0 { break; }
          // SQLITE_CORRUPT: the chain does not ascend
          assert false;
        }
        iPtr := iFreeBlk;
        iFreeBlk := Get(iPtr);
        p := p + 1;
      }
      if p < |blocks| { ChainNext(d, usable, hdr, cellOffset, xCellSize, cells, blocks, p); }
      if iFreeBlk > usable - 4 {
        // SQLITE_CORRUPT: a freeblock past the end of the page
        assert false;
      }
    }

    /** Coalesce with the freeblock after and the one before, each at most three bytes away. */
    method Coalesce(iStart0: nat, iSize0: nat, iPtr: nat, iFreeBlk0: nat, ghost i: nat, ghost p: nat)
      returns (iStart: nat, iEnd: nat, iFreeBlk: nat, nFrag: nat)
      requires Spot(aData[..], usable, hdr, cellOffset, xCellSize, cells, blocks, i, p)
      requires iStart0 == cells[i].at && iSize0 == cells[i].size && iPtr == Link(hdr, blocks, p) && iFreeBlk0 == Head(blocks, p)
      requires aData.Length == usable && hdr + 8 <= usable
      ensures iStart == Begin(blocks, cells[i], p) && iEnd == End(blocks, cells[i], p)
      ensures iFreeBlk == Head(blocks, Hi(blocks, cells[i], p)) && nFrag == FragDrop(blocks, cells[i], p)
      ensures nFrag <= aData[hdr + 7]
    {
      hide PageOk, Contents, Get2, Layout;
      ghost var d := aData[..];
      CoalescePlace(d, usable, hdr, cellOffset, xCellSize, cells, blocks, i, p);
      iStart, iEnd, iFreeBlk, nFrag := iStart0, iStart0 + iSize0, iFreeBlk0, 0;
      if iFreeBlk != 0 && iEnd + 3 >= iFreeBlk {
        if iEnd > iFreeBlk {
          // SQLITE_CORRUPT: the cell overlaps a freeblock
          assert false;
        }
        nFrag := iFreeBlk - iEnd;
        iEnd := iFreeBlk + Get(iFreeBlk + 2);
        if iEnd > usable {
          // SQLITE_CORRUPT: the freeblock extends past the end of the page
          assert false;
        }
        iFreeBlk := Get(iFreeBlk);
      }
      if iPtr > hdr + 1 {
        var iPtrEnd := iPtr + Get(iPtr + 2);
        if iPtrEnd + 3 >= iStart {
          if iPtrEnd > iStart {
            // SQLITE_CORRUPT: the cell overlaps a freeblock
            assert false;
          }
          nFrag := nFrag + (iStart - iPtrEnd);
          iStart := iPtr;
        }
      }
      if nFrag > aData[hdr + 7] {
        // SQLITE_CORRUPT: more fragment bytes than the header counts
        assert false;
      }
    }

    /** freeSpace: the bytes of cell `i` go back to the page. */
    method FreeSpace(iStart0: nat, iSize0: nat, ghost i: nat)
      requires Valid() && i < |cells| && iStart0 == cells[i].at && iSize0 == cells[i].size
      modifies aData, `nFree, `blocks
      ensures Released(aData[..], usable, hdr, cellOffset, cells, blocks, i)
      ensures Contents(aData[..], Without(cells, i)) == Without(old(Value()), i)
      ensures nFree == old(nFree) + iSize0
      ensures TypeKept(old(aData[..]), aData[..], hdr, cellOffset)
    {
      hide PageOk, Layout, Contents, Get2, Released, Freed, End, Begin, Hi, FragDrop, Top;
      ghost var d := aData[..];
      PageSize(d, usable, hdr, cellOffset, xCellSize, cells, blocks);
      var iPtr, iFreeBlk;
      ghost var p;
      iPtr, iFreeBlk, p := FindSpot(iStart0, i);
      var iStart, iEnd, nFrag;
      iStart, iEnd, iFreeBlk, nFrag := Coalesce(iStart0, iSize0, iPtr, iFreeBlk, i, p);
      ReleasePlace(d, usable, hdr, cellOffset, xCellSize, cells, blocks, i, p);
      aData[hdr + 7] := aData[hdr + 7] - nFrag;
      GetSame(d, aData[..], hdr + 5);
      var x := Get(hdr + 5);
      if iStart <= x {
        if iStart < x || iPtr != hdr + 1 {
          // SQLITE_CORRUPT: the cell lies outside the content area
          assert false;
        }
        ShrinkContent(iStart, iEnd, iFreeBlk, d, i, p);
      } else {
        LinkBlock(iPtr, iStart, iEnd, iFreeBlk, d, i, p);
      }
      nFree := nFree + iSize0;
      blocks := Freed(Top(d, hdr), blocks, cells[i], p);
    }

    /** The freed block starts the content area: move the start up. */
    method ShrinkContent(iStart: nat, iEnd: nat, iFreeBlk: nat, ghost d: seq<Byte>, ghost i: nat, ghost p: nat)
      requires Spot(d, usable, hdr, cellOffset, xCellSize, cells, blocks, i, p)
      requires |d| == usable && hdr + 8 <= usable
      requires iStart == Begin(blocks, cells[i], p) <= Top(d, hdr) && iEnd == End(blocks, cells[i], p)
      requires iFreeBlk == Head(blocks, Hi(blocks, cells[i], p)) < 0x1_0000
      requires hdr + 8 <= cellOffset <= iStart && iStart + 4 <= iEnd <= usable <= 0x1_0000
      requires 0 <= FragDrop(blocks, cells[i], p) <= d[hdr + 7]
      requires aData[..] == d[hdr + 7 := d[hdr + 7] - FragDrop(blocks, cells[i], p)]
      modifies aData
      ensures Released(aData[..], usable, hdr, cellOffset, cells, Freed(Top(d, hdr), blocks, cells[i], p), i)
      ensures Contents(aData[..], Without(cells, i)) == Without(Contents(d, cells), i)
      ensures TypeKept(old(aData[..]), aData[..], hdr, cellOffset)
    {
      hide PageOk, Layout, Contents, Released, Freed, End, Begin, Hi, FragDrop, Head, Top, TypeKept, Get2;
      WriteTop(iStart, iEnd, iFreeBlk);
      ReleaseTop(d, aData[..], usable, hdr, cellOffset, xCellSize, cells, blocks, i, p);
    }

    /** The chain begins at `iFreeBlk` and the content area at `iEnd`; the freed bytes get the header of a
        block all the same. */
    method WriteTop(iStart: nat, iEnd: nat, iFreeBlk: nat)
      requires aData.Length == usable && hdr + 8 <= cellOffset <= iStart && iStart + 4 <= iEnd <= usable <= 0x1_0000
      requires iFreeBlk < 0x1_0000
      modifies aData
      ensures forall x :: 0 <= x < usable && !(hdr + 1 <= x < hdr + 3) && !(hdr + 5 <= x < hdr + 7) && !(iStart <= x < iStart + 4) ==>
        aData[x] == old(aData[x])
      ensures Get2(aData[..], hdr + 1) == iFreeBlk && Get2(aData[..], hdr + 5) == iEnd % 0x1_0000
      ensures TypeKept(old(aData[..]), aData[..], hdr, cellOffset)
    {
      hide Get2;
      Put(hdr + 1, iFreeBlk);
      ghost var g := aData[..];
      Put(hdr + 5, iEnd);
      ghost var h := aData[..];
      Put(iStart, iFreeBlk);
      ghost var k := aData[..];
      Put(iStart + 2, iEnd - iStart);
      KeepsGet(g, h, 0, hdr + 5, hdr + 1);
      KeepsGet(h, k, 0, iStart, hdr + 1);
      KeepsGet(k, aData[..], 0, iStart + 2, hdr + 1);
      KeepsGet(h, k, 0, iStart, hdr + 5);
      KeepsGet(k, aData[..], 0, iStart + 2, hdr + 5);
    }

    /** The freed block joins the chain. */
    method LinkBlock(iPtr: nat, iStart: nat, iEnd: nat, iFreeBlk: nat, ghost d: seq<Byte>, ghost i: nat, ghost p: nat)
      requires Spot(d, usable, hdr, cellOffset, xCellSize, cells, blocks, i, p)
      requires |d| == usable && hdr + 8 <= usable
      requires iStart == Begin(blocks, cells[i], p) > Top(d, hdr) && iEnd == End(blocks, cells[i], p)
      requires iFreeBlk == Head(blocks, Hi(blocks, cells[i], p)) < 0x1_0000
      requires hdr + 8 <= cellOffset <= iStart && iStart + 4 <= iEnd <= usable <= 0x1_0000
      requires iPtr == Link(hdr, blocks, p) && if MergePrev(blocks, cells[i], p) then iPtr == iStart else iPtr + 2 <= iStart == cells[i].at
      requires iPtr == hdr + 1 || cellOffset <= iPtr
      requires 0 <= FragDrop(blocks, cells[i], p) <= d[hdr + 7]
      requires aData[..] == d[hdr + 7 := d[hdr + 7] - FragDrop(blocks, cells[i], p)]
      modifies aData
      ensures Released(aData[..], usable, hdr, cellOffset, cells, Freed(Top(d, hdr), blocks, cells[i], p), i)
      ensures Contents(aData[..], Without(cells, i)) == Without(Contents(d, cells), i)
      ensures TypeKept(old(aData[..]), aData[..], hdr, cellOffset)
    {
      hide PageOk, Layout, Contents, Released, Freed, End, Begin, Hi, FragDrop, Head, Top, MergePrev, Link, TypeKept, Get2;
      WriteLinks(iPtr, iStart, iEnd, iFreeBlk);
      ReleaseAbove(d, aData[..], usable, hdr, cellOffset, xCellSize, cells, blocks, i, p);
    }

    /** The pointer at `iPtr` leads to `iStart`, where the block's own header is written. */
    method WriteLinks(iPtr: nat, iStart: nat, iEnd: nat, iFreeBlk: nat)
      requires aData.Length == usable && hdr + 8 <= cellOffset <= iStart && iStart + 4 <= iEnd <= usable <= 0x1_0000
      requires iFreeBlk < 0x1_0000 && (iPtr == iStart || iPtr + 2 <= iStart) && (iPtr == hdr + 1 || cellOffset <= iPtr)
      modifies aData
      ensures forall x :: 0 <= x < usable && !(iPtr <= x < iPtr + 2) && !(iStart <= x < iStart + 4) ==> aData[x] == old(aData[x])
      ensures Get2(aData[..], iStart) == iFreeBlk && Get2(aData[..], iStart + 2) == iEnd - iStart
      ensures iPtr != iStart ==> Get2(aData[..], iPtr) == iStart
      ensures TypeKept(old(aData[..]), aData[..], hdr, cellOffset)
    {
      hide Get2;
      Put(iPtr, iStart);
      ghost var g := aData[..];
      Put(iStart, iFreeBlk);
      ghost var h := aData[..];
      Put(iStart + 2, iEnd - iStart);
      KeepsGet(h, aData[..], 0, iStart + 2, iStart);
      if iPtr != iStart {
        KeepsGet(g, h, 0, iStart, iPtr);
        KeepsGet(h, aData[..], 0, iStart + 2, iPtr);
      }
    }

    // ---------------------------------------------------------------- insertCell and dropCell

    /** insertCell: the new cell becomes cell `i` if it fits; otherwise it is set aside. */
    method InsertCell(i: nat, pCell: seq<Byte>, iChild: nat)
      requires Valid() && |pCell| >= 4 && IsCell(xCellSize, WithChild(pCell, iChild))
      requires ovfl == [] ==> i <= nCell
      modifies this, aData
      ensures Valid()
      ensures TypeKept(old(aData[..]), aData[..], hdr, cellOffset)
      ensures var cell := WithChild(pCell, iChild);
        if old(ovfl) == [] && |cell| + 2 <= old(nFree) then
          Value() == Inserted(old(Value()), i, cell) && ovfl == [] && nFree == old(nFree) - |cell| - 2
        else
          aData[..] == old(aData[..]) && Value() == old(Value()) && nFree == old(nFree) && ovfl == old(ovfl) + [Ovfl(i, cell)]
    {
      hide PageOk, Holds, Contents, IsCell, AllCells, Total, FreeBytes;
      PageSize(aData[..], usable, hdr, cellOffset, xCellSize, cells, blocks);
      var sz := |pCell|;
      if ovfl != [] || sz + 2 > nFree {
        ovfl := ovfl + [Ovfl(i, WithChild(pCell, iChild))];
        return;
      }
      ValidCells(aData[..], usable, hdr, cellOffset, xCellSize, cells, blocks);
      var idx := AllocateSpace(sz);
      nFree := nFree - (2 + sz);
      PlaceCell(i, idx, WithChild(pCell, iChild));
      ValidCells(aData[..], usable, hdr, cellOffset, xCellSize, cells, blocks);
    }

    /** Copy the cell, open up the pointer array and bump the cell count. */
    method PlaceCell(i: nat, idx: nat, cell: seq<Byte>)
      requires Reserved(idx, |cell|) && i <= nCell && IsCell(xCellSize, cell)
      requires AllCells(xCellSize, Value())
      modifies aData, `nCell, `cells
      ensures PageOk(aData[..], usable, hdr, cellOffset, xCellSize, cells, blocks) && nCell == |cells| == old(nCell) + 1
      ensures Value() == Inserted(old(Value()), i, cell)
      ensures Total(cells) == old(Total(cells)) + |cell|
      ensures TypeKept(old(aData[..]), aData[..], hdr, cellOffset)
    {
      hide PageOk, Layout, Contents, IsCell, AllCells, Total, Points, Moved, CellBytes, CellWrite, Holds, Top;
      ghost var d := aData[..];
      ghost var c := Block(idx, |cell|);
      HeldPlace(d, usable, hdr, cellOffset, cells, blocks, c);
      Write(idx, cell);
      ghost var w := aData[..];
      var pIns := cellOffset + i * 2;
      MemMove(pIns + 2, pIns, 2 * (nCell - i));
      ghost var m := aData[..];
      Put(pIns, idx);
      ghost var p := aData[..];
      CountCell(d, w, m, p, i, c, cell);
      InsertDone(d, aData[..], usable, hdr, cellOffset, xCellSize, cells, blocks, i, c, cell);
      nCell := nCell + 1;
      cells := Inserted(cells, i, c);
    }

    /** Increment the cell count in the header, low byte first. */
    method CountCell(ghost d: seq<Byte>, ghost w: seq<Byte>, ghost m: seq<Byte>, ghost p: seq<Byte>, ghost i: nat,
            ghost c: Block, ghost cell: seq<Byte>)
      requires p == aData[..]
      requires |d| == usable && hdr + 8 <= cellOffset <= usable && cellOffset + 2 * |cells| + 2 <= Top(d, hdr) <= c.at && c.at + c.size <= usable && i <= |cells|
      requires Points(d, cellOffset, cells) && Get2(d, hdr + 3) == |cells| && usable <= 0x1_0000 && |cell| == c.size
      requires Keeps(d, w, 0, c.at) && Keeps(d, w, c.at + c.size, usable - c.at - c.size) && CellBytes(w, c) == cell
      requires Moved(w, m, cellOffset + 2 * i + 2, cellOffset + 2 * i, 2 * (|cells| - i))
      requires Keeps(m, p, 0, cellOffset + 2 * i) && Keeps(m, p, cellOffset + 2 * i + 2, usable - cellOffset - 2 * i - 2)
      requires Get2(p, cellOffset + 2 * i) == c.at
      modifies aData
      ensures CellWrite(d, aData[..], usable, hdr, c) && CellBytes(aData[..], c) == cell
      ensures Points(aData[..], cellOffset, Inserted(cells, i, c)) && Get2(aData[..], hdr + 3) == |cells| + 1
      ensures TypeKept(old(aData[..]), aData[..], hdr, cellOffset)
    {
      hide Points, CellWrite, CellBytes, Top;
      CountSmall(d, w, m, p, usable, hdr, cellOffset, cells, i, c);
      var hi: int, lo: int := aData[hdr + 3], aData[hdr + 4];
      assert hi == p[hdr + 3];
      aData[hdr + 4] := (lo + 1) % 256;
      if aData[hdr + 4] == 0 { aData[hdr + 3] := hi + 1; }
      hide Moved, Keeps;
      InsertSteps(d, w, m, p, aData[..], usable, hdr, cellOffset, cells, i, c, cell);
    }

    /** dropCell: remove cell `idx`, `sz` bytes long. */
    method DropCell(idx: nat, sz: nat)
      requires Valid() && idx < nCell && sz == cells[idx].size
      modifies this, aData
      ensures Valid() && ovfl == old(ovfl)
      ensures TypeKept(old(aData[..]), aData[..], hdr, cellOffset)
      ensures Value() == Without(old(Value()), idx)
      ensures if old(nCell) > 1 then nFree == old(nFree) + sz + 2 else IsBlank()
    {
      hide PageOk, Contents, Total, Points, Released, Get2, AllCells, FreeBytes;
      ghost var v := Value();
      ValidCells(aData[..], usable, hdr, cellOffset, xCellSize, cells, blocks);
      var ptr := cellOffset + 2 * idx;
      DropPlace(aData[..], usable, hdr, cellOffset, xCellSize, cells, blocks, idx);
      var pc := Get(ptr);
      if pc + sz > usable {
        // SQLITE_CORRUPT: the cell extends past the end of the page
        assert false;
      }
      TotalSplit(cells, idx);
      FreeSpace(pc, sz, idx);
      ReleasedPlace(aData[..], usable, hdr, cellOffset, cells, blocks, idx);
      CellsDropped(xCellSize, v, idx);
      if nCell == 1 {
        Reset();
      } else {
        ClosePointers(idx, ptr, Without(v, idx));
        nFree := nFree + 2;
        ValidCells(aData[..], usable, hdr, cellOffset, xCellSize, cells, blocks);
      }
    }

    /** Without cells, freeblocks and fragments: all that follows the header is one gap. */
    ghost predicate IsBlank()
      requires aData.Length == usable && hdr + 8 <= usable
      reads this, aData
    {
      nCell == 0 && cells == [] && blocks == [] && aData[hdr + 7] == 0 && Top(aData[..], hdr) == usable && nFree == usable - cellOffset
    }

    /** The last cell is gone: the whole content area is free again. */
    method Reset()
      requires hdr + 8 <= cellOffset <= aData.Length == usable <= 0x1_0000
      modifies this, aData
      ensures Valid() && Value() == [] && ovfl == old(ovfl) && IsBlank()
      ensures TypeKept(old(aData[..]), aData[..], hdr, cellOffset)
    {
      forall x | hdr + 1 <= x < hdr + 5 { aData[x] := 0; }
      aData[hdr + 7] := 0;
      ghost var e := aData[..];
      Put(hdr + 5, usable);
      KeepsGet(e, aData[..], 0, hdr + 5, hdr + 1);
      KeepsGet(e, aData[..], 0, hdr + 5, hdr + 3);
      Blank(aData[..], usable, hdr, cellOffset, xCellSize);
      nCell, nFree := 0, usable - cellOffset;
      cells, blocks := [], [];
    }

    /** Close the hole in the pointer array and lower the cell count. */
    method ClosePointers(idx: nat, ptr: nat, ghost v: seq<seq<Byte>>)
      requires idx < nCell == |cells| && ptr == cellOffset + 2 * idx
      requires Released(aData[..], usable, hdr, cellOffset, cells, blocks, idx)
      requires Contents(aData[..], Without(cells, idx)) == v && AllCells(xCellSize, v)
      modifies aData, `nCell, `cells
      ensures PageOk(aData[..], usable, hdr, cellOffset, xCellSize, cells, blocks) && nCell == |cells| == old(nCell) - 1
      ensures Value() == v && cells == Without(old(cells), idx)
      ensures TypeKept(old(aData[..]), aData[..], hdr, cellOffset)
    {
      hide PageOk, Contents, Points, Released, AllCells, CellWrite, Moved;
      ghost var d := aData[..];
      ReleasedPlace(d, usable, hdr, cellOffset, cells, blocks, idx);
      nCell := nCell - 1;
      MemMove(ptr, ptr + 2, 2 * (nCell - idx));
      ghost var m := aData[..];
      Put(hdr + 3, nCell);
      DropSteps(d, m, aData[..], usable, hdr, cellOffset, cells, blocks, idx);
      DropDone(d, aData[..], usable, hdr, cellOffset, xCellSize, cells, blocks, idx, v);
      cells := Without(cells, idx);
    }

    // ---------------------------------------------------------------- counting the free bytes

    /** btreeInitPage's count of the free bytes is `nFree`, and finds nothing wrong with the page. */
    method CountFree() returns (n: int)
      requires Valid()
      ensures n == nFree
    {
      var iCellFirst := First();
      var iCellLast := usable - 4;
      var top := Get(hdr + 5);
      if top == 0 { top := 0x1_0000; }
      var pc := Get(hdr + 1);
      n := aData[hdr + 7] + top;
      ghost var d := aData[..];
      if blocks != [] { BlocksAboveTop(d, usable, hdr, First(), cells, blocks, 0); }
      hide PageOk, Layout, Get2;
      if pc > 0 {
        if pc < iCellFirst {
          // SQLITE_CORRUPT: a freeblock inside the pointer array
          assert false;
        }
        var sum := SumBlocks(pc, iCellLast);
        n := n + sum;
      }
      n := n - iCellFirst;
    }

    /** The sizes of the freeblocks, following the chain from its head. */
    method SumBlocks(pc0: nat, iCellLast: int) returns (sum: nat)
      requires Valid() && blocks != [] && pc0 == blocks[0].at && iCellLast == usable - 4
      ensures sum == Total(blocks)
    {
      hide PageOk, Layout, Get2;
      ghost var d, k := aData[..], 0;
      var pc := pc0;
      sum := 0;
      TotalNone(blocks);
      while true
        invariant k < |blocks| && pc == blocks[k].at && sum == Total(blocks[..k])
        decreases |blocks| - k
      {
        SlotPlace(d, usable, hdr, cellOffset, xCellSize, cells, blocks, k);
        if pc > iCellLast {
          // SQLITE_CORRUPT: a freeblock past the end of the page
          assert false;
        }
        var next := Get(pc);
        var size := Get(pc + 2);
        TotalStep(blocks, k);
        sum := sum + size;
        if k + 1 < |blocks| { ChainGap(d, usable, hdr, cellOffset, xCellSize, cells, blocks, k); }
        if next <= pc + size + 3 {
          if next > 0 {
            // SQLITE_CORRUPT: freeblocks not in ascending order
            assert false;
          }
          if pc + size > usable {
            // SQLITE_CORRUPT: the last freeblock extends past the end of the page
            assert false;
          }
          assert k + 1 == |blocks| && blocks[..k + 1] == blocks;
          return;
        }
        pc := next;
        k := k + 1;
      }
    }

    /** zeroPage: a page without cells. */
    constructor (usable: nat, hdr: nat, flags: Byte, leaf: bool, xCellSize: seq<Byte> -> nat)
      requires hdr + 12 <= usable <= 0x1_0000
      ensures Valid() && Value() == [] && ovfl == [] && fresh(aData)
      ensures this.usable == usable && this.hdr == hdr && this.xCellSize == xCellSize && cellOffset == hdr + if leaf then 8 else 12
      ensures hdr < aData.Length && aData[hdr] == flags
      ensures nFree == usable - hdr - (if leaf then 8 else 12) && IsBlank()
    {
      this.usable, this.hdr, this.xCellSize := usable, hdr, xCellSize;
      cellOffset := if leaf then hdr + 8 else hdr + 12;
      aData := new Byte[usable];
      nCell, nFree, ovfl, cells, blocks := 0, 0, [], [], [];
      new;
      aData[hdr] := flags;
      Reset();
    }
  }

  lemma {:induction false} ChainGap(d: seq<Byte>, u: nat, hdr: nat, off: nat, f: seq<Byte> -> nat, cells: seq<Block>,
          blocks: seq<Block>, k: nat)
    requires PageOk(d, u, hdr, off, f, cells, blocks) && k + 1 < |blocks|
    ensures blocks[k].at + blocks[k].size + 4 <= blocks[k + 1].at
  {
    ChainAscends(d, u, hdr, blocks, k, k + 1);
  }

  lemma {:induction false} ChainStart(d: seq<Byte>, u: nat, hdr: nat, off: nat, f: seq<Byte> -> nat,
          cells: seq<Block>, blocks: seq<Block>, i: nat)
    requires PageOk(d, u, hdr, off, f, cells, blocks) && i < |cells|
    ensures hdr + 3 <= |d| && Get2(d, hdr + 1) == Head(blocks, 0)
    ensures hdr + 8 <= cells[i].at
    ensures forall j, k :: 0 <= j < k < |blocks| ==> blocks[j].at < blocks[k].at
    ensures forall k :: 0 <= k < |blocks| ==> blocks[k].at != cells[i].at
  {
    assert CellIn(cells[i], Top(d, hdr), u);
    forall k | 0 <= k < |blocks| ensures blocks[k].at != cells[i].at && forall j :: 0 <= j < k ==> blocks[j].at < blocks[k].at {
      BlocksAboveTop(d, u, hdr, off + 2 * |cells|, cells, blocks, k);
      assert Apart(cells[i], blocks[k]);
    }
  }

  lemma {:induction false} ChainNext(d: seq<Byte>, u: nat, hdr: nat, off: nat, f: seq<Byte> -> nat, cells: seq<Block>,
          blocks: seq<Block>, p: nat)
    requires PageOk(d, u, hdr, off, f, cells, blocks) && p < |blocks|
    ensures |d| == u && blocks[p].at + 4 <= u && Get2(d, blocks[p].at) == Head(blocks, p + 1)
    ensures Link(hdr, blocks, p) + 4 <= blocks[p].at
  {
    SlotPlace(d, u, hdr, off, f, cells, blocks, p);
    LinkHeld(d, u, hdr, off + 2 * |cells|, cells, blocks, p);
  }

  /** The freeblocks around a freed cell, as Coalesce reads them. */
  lemma {:induction false} CoalescePlace(d: seq<Byte>, u: nat, hdr: nat, off: nat, f: seq<Byte> -> nat,
          cells: seq<Block>, blocks: seq<Block>, i: nat, p: nat)
    requires Spot(d, u, hdr, off, f, cells, blocks, i, p)
    ensures |d| == u && hdr + 8 <= u && FragDrop(blocks, cells[i], p) <= d[hdr + 7] && End(blocks, cells[i], p) <= u
    ensures p < |blocks| ==>
      && 0 < blocks[p].at && blocks[p].at + 4 <= u && cells[i].at + cells[i].size <= blocks[p].at
      && Get2(d, blocks[p].at) == Head(blocks, p + 1) && Get2(d, blocks[p].at + 2) == blocks[p].size
    ensures p > 0 ==>
      && hdr + 8 <= blocks[p - 1].at && blocks[p - 1].at + 4 <= u && blocks[p - 1].at + blocks[p - 1].size <= cells[i].at
      && Get2(d, blocks[p - 1].at + 2) == blocks[p - 1].size
  {
    var first := off + 2 * |cells|;
    FragEnough(d, u, hdr, first, cells, blocks, i, p);
    MergeOrdered(d, u, hdr, first, cells, blocks, i, p);
    if p < |blocks| { SlotPlace(d, u, hdr, off, f, cells, blocks, p); }
    if p > 0 { SlotPlace(d, u, hdr, off, f, cells, blocks, p - 1); }
  }

  /** Where freeSpace writes. */
  lemma {:induction false} ReleasePlace(d: seq<Byte>, u: nat, hdr: nat, off: nat, f: seq<Byte> -> nat,
          cells: seq<Block>, blocks: seq<Block>, i: nat, p: nat)
    requires Spot(d, u, hdr, off, f, cells, blocks, i, p)
    ensures |d| == u && hdr + 8 <= u && 0 <= FragDrop(blocks, cells[i], p)
    ensures var b, end := Begin(blocks, cells[i], p), End(blocks, cells[i], p);
      && hdr + 8 <= off <= b && Top(d, hdr) <= b && b + 4 <= end <= u && (b == Top(d, hdr) ==> p == 0)
      && Top(d, hdr) == Get2(d, hdr + 5)
      && (if MergePrev(blocks, cells[i], p) then Link(hdr, blocks, p) == b else Link(hdr, blocks, p) + 2 <= b == cells[i].at)
    ensures Link(hdr, blocks, p) == hdr + 1 || off <= Link(hdr, blocks, p)
    ensures p == 0 <==> Link(hdr, blocks, p) == hdr + 1
    ensures Head(blocks, Hi(blocks, cells[i], p)) < 0x1_0000
  {
    var first := off + 2 * |cells|;
    MergeOrdered(d, u, hdr, first, cells, blocks, i, p);
    assert CellIn(cells[i], Top(d, hdr), u);
    if Begin(blocks, cells[i], p) <= Top(d, hdr) { AtTop(d, u, hdr, first, cells, blocks, i, p); }
    if p > 0 { BlocksAboveTop(d, u, hdr, first, cells, blocks, p - 1); }
    var hi := Hi(blocks, cells[i], p);
    if hi < |blocks| { BlocksAboveTop(d, u, hdr, first, cells, blocks, hi); }
  }

  lemma {:induction false} ChainEmpty(d: seq<Byte>, u: nat, hdr: nat, off: nat, f: seq<Byte> -> nat, cells: seq<Block>, blocks: seq<Block>)
    requires PageOk(d, u, hdr, off, f, cells, blocks)
    ensures hdr + 8 <= |d| && (blocks == [] <==> d[hdr + 1] == 0 && d[hdr + 2] == 0)
  {
    if blocks != [] { BlocksAboveTop(d, u, hdr, off + 2 * |cells|, cells, blocks, 0); }
  }

  lemma {:induction false} CompactedCount(d: seq<Byte>, e: seq<Byte>, u: nat, hdr: nat, off: nat, f: seq<Byte> -> nat,
          cells: seq<Block>, blocks: seq<Block>, moved: seq<Block>, top: nat)
    requires PageOk(d, u, hdr, off, f, cells, blocks) && Compacted(d, e, u, hdr, off, cells, moved, top)
    ensures hdr + 8 <= |d| && hdr + 8 <= |e|
    ensures e[hdr + 7] + top - (off + 2 * |cells|) == FreeBytes(d, hdr, off + 2 * |cells|, blocks)
    ensures |moved| == |cells|
  {
    FreeIsRest(d, u, hdr, off + 2 * |cells|, cells, blocks);
  }

  lemma {:induction false} PackedFree(d: seq<Byte>, u: nat, hdr: nat, off: nat, f: seq<Byte> -> nat, cells: seq<Block>)
    requires PageOk(d, u, hdr, off, f, cells, [])
    ensures hdr + 8 <= |d| && FreeBytes(d, hdr, off + 2 * |cells|, []) == d[hdr + 7] + Top(d, hdr) - (off + 2 * |cells|)
  {
  }

  /** After defragmentation all free bytes but the fragments lie in the gap. */
  lemma {:induction false} PackedGap(d: seq<Byte>, u: nat, hdr: nat, off: nat, f: seq<Byte> -> nat, cells: seq<Block>, nFree: int)
    requires PageOk(d, u, hdr, off, f, cells, [])
    requires hdr + 8 <= |d| && nFree == FreeBytes(d, hdr, off + 2 * |cells|, [])
    ensures Top(d, hdr) == off + 2 * |cells| + nFree - d[hdr + 7]
  {
  }

  lemma {:induction false} ProgressLow(d: seq<Byte>, e: seq<Byte>, u: nat, hdr: nat, off: nat, cells: seq<Block>, i: nat)
    requires Progress(d, e, u, off, cells, i) && hdr + 8 <= off
    ensures TypeKept(d, e, hdr, off)
  {
    TypeLow(d, e, hdr, off, off);
  }

  /** The start of the content area, as the header has it. */
  lemma {:induction false} TopIs(d: seq<Byte>, u: nat, hdr: nat, off: nat, f: seq<Byte> -> nat, cells: seq<Block>, blocks: seq<Block>)
    requires PageOk(d, u, hdr, off, f, cells, blocks)
    ensures hdr + 8 <= |d| == u && off + 2 * |cells| <= Top(d, hdr) <= u <= 0x1_0000
    ensures Get2(d, hdr + 5) == if Top(d, hdr) == 0x1_0000 then 0 else Top(d, hdr)
  {
  }

  lemma {:induction false} TotalNone(cells: seq<Block>)
    ensures Total(cells[..0]) == 0
  {
  }

  /** What SqueezeOut needs to know about the one or two freeblocks. */
  lemma {:induction false} FewPlace(d: seq<Byte>, u: nat, hdr: nat, off: nat, f: seq<Byte> -> nat, cells: seq<Block>, blocks: seq<Block>)
    requires PageOk(d, u, hdr, off, f, cells, blocks) && 1 <= |blocks| <= 2
    ensures |d| == u && Get2(d, hdr + 5) == Top(d, hdr) < blocks[0].at
    ensures 4 <= blocks[0].size && blocks[0].at + blocks[0].size <= u && Get2(d, blocks[0].at + 2) == blocks[0].size
    ensures |blocks| == 2 ==>
      && blocks[0].at + blocks[0].size + 4 <= blocks[1].at
      && 4 <= blocks[1].size && blocks[1].at + blocks[1].size <= u && Get2(d, blocks[1].at + 2) == blocks[1].size
    ensures hdr + 8 <= off && off + 2 * |cells| <= Top(d, hdr) && Points(d, off, cells)
  {
    SlotPlace(d, u, hdr, off, f, cells, blocks, 0);
    assert FreeAt(d, u, blocks, 0);
    if |blocks| == 2 { SlotPlace(d, u, hdr, off, f, cells, blocks, 1); }
  }

  lemma {:induction false} PointerSet(d: seq<Byte>, e: seq<Byte>, off: nat, cells: seq<Block>, moved: seq<Block>, i: nat)
    requires |d| == |e| && i < |cells| == |moved| && off + 2 * |cells| <= |d|
    requires Keeps(d, e, 0, off + 2 * i) && Keeps(d, e, off + 2 * i + 2, |d| - off - 2 * i - 2)
    requires Get2(e, off + 2 * i) == moved[i].at
    requires forall j :: 0 <= j < i ==> PointsTo(d, off, moved, j)
    requires forall j :: i <= j < |cells| ==> PointsTo(d, off, cells, j)
    ensures forall j :: 0 <= j < i + 1 ==> PointsTo(e, off, moved, j)
    ensures forall j :: i + 1 <= j < |cells| ==> PointsTo(e, off, cells, j)
  {
    forall j | 0 <= j < i + 1 ensures PointsTo(e, off, moved, j) {
      if j < i {
        assert PointsTo(d, off, moved, j);
        KeepsGet(d, e, 0, off + 2 * i, off + 2 * j);
      }
    }
    forall j | i + 1 <= j < |cells| ensures PointsTo(e, off, cells, j) {
      assert PointsTo(d, off, cells, j);
      KeepsGet(d, e, off + 2 * i + 2, |d| - off - 2 * i - 2, off + 2 * j);
    }
  }

  lemma {:induction false} SlotPlace(d: seq<Byte>, u: nat, hdr: nat, off: nat, f: seq<Byte> -> nat, cells: seq<Block>,
          blocks: seq<Block>, k: nat)
    requires PageOk(d, u, hdr, off, f, cells, blocks) && k < |blocks|
    ensures |d| == u && blocks[k].at + blocks[k].size <= u && blocks[k].size >= 4
    ensures Get2(d, blocks[k].at + 2) == blocks[k].size && Get2(d, blocks[k].at) == Head(blocks, k + 1)
    ensures hdr + 8 <= off < blocks[k].at && Link(hdr, blocks, k) + 2 <= blocks[k].at
    ensures Link(hdr, blocks, k) == hdr + 1 || off <= Link(hdr, blocks, k)
  {
    var first := off + 2 * |cells|;
    BlocksAboveTop(d, u, hdr, first, cells, blocks, k);
    assert FreeAt(d, u, blocks, k);
    if k > 0 { BlocksAboveTop(d, u, hdr, first, cells, blocks, k - 1); }
  }
}
