/** The pointer array when a cell is inserted or dropped (insertCell and dropCell in btree.c). */
module PageCells {
  import opened PageLayout
  import opened PageEdits
  import opened PageFree
  import opened PageImage
  import opened PageDefrag
  import opened PageRelease

  function Inserted<T>(s: seq<T>, i: nat, x: T): (r: seq<T>)
    requires i <= |s|
    ensures |r| == |s| + 1
    ensures forall n :: 0 <= n < |r| ==> r[n] == if n < i then s[n] else if n == i then x else s[n - 1]
  {
    s[..i] + [x] + s[i..]
  }

  /** The pointer array of `e` is that of `d` with one pointer inserted at position `i`. */
  lemma {:induction false} PointersInserted(d: seq<Byte>, m: seq<Byte>, e: seq<Byte>, off: nat, cells: seq<Block>, i: nat, c: Block)
    requires Points(d, off, cells) && i <= |cells| && off + 2 * |cells| + 2 <= |d|
    requires Moved(d, m, off + 2 * i + 2, off + 2 * i, 2 * (|cells| - i))
    requires Keeps(m, e, off, 2 * i) && Keeps(m, e, off + 2 * i + 2, |d| - off - 2 * i - 2)
    requires Get2(e, off + 2 * i) == c.at
    ensures Points(e, off, Inserted(cells, i, c))
  {
    var r := Inserted(cells, i, c);
    forall n | 0 <= n < |r| ensures PointsTo(e, off, r, n) {
      if n != i {
        var k := if n < i then n else n - 1;
        assert PointsTo(d, off, cells, k);
        assert e[off + 2 * n] == d[off + 2 * k] && e[off + 2 * n + 1] == d[off + 2 * k + 1];
      }
    }
  }

  lemma {:induction false} PointersDropped(d: seq<Byte>, e: seq<Byte>, off: nat, cells: seq<Block>, i: nat)
    requires Points(d, off, cells) && i < |cells| && off + 2 * |cells| <= |d|
    requires Moved(d, e, off + 2 * i, off + 2 * i + 2, 2 * (|cells| - 1 - i))
    ensures Points(e, off, Without(cells, i))
  {
    var r := Without(cells, i);
    forall n | 0 <= n < |r| ensures PointsTo(e, off, r, n) {
      var k := if n < i then n else n + 1;
      assert PointsTo(d, off, cells, k);
      assert e[off + 2 * n] == d[off + 2 * k] && e[off + 2 * n + 1] == d[off + 2 * k + 1];
    }
  }

  /** Only the bytes of cell `n` and bytes outside the layout change. */
  ghost predicate CellWrite(d: seq<Byte>, e: seq<Byte>, u: nat, hdr: nat, c: Block)
  {
    && |d| == |e| == u && hdr + 8 <= u && Top(d, hdr) <= u
    && Keeps(d, e, hdr + 1, 2) && Keeps(d, e, hdr + 5, 3)
    && forall x :: Top(d, hdr) <= x < u ==> c.at <= x < c.at + c.size || e[x] == d[x]
  }

  lemma {:induction false} LayoutWrite(d: seq<Byte>, e: seq<Byte>, u: nat, hdr: nat, first: nat, cells: seq<Block>,
          blocks: seq<Block>, c: Block)
    requires Layout(d, u, hdr, first, cells, blocks) && CellWrite(d, e, u, hdr, c)
    requires forall k :: 0 <= k < |blocks| ==> Apart(c, blocks[k])
    ensures Layout(e, u, hdr, first, cells, blocks) && Top(e, hdr) == Top(d, hdr)
  {
    KeepsGet(d, e, hdr + 1, 2, hdr + 1);
    KeepsGet(d, e, hdr + 5, 3, hdr + 5);
    assert e[hdr + 7] == d[hdr + 7];
    forall k | 0 <= k < |blocks| ensures FreeAt(e, u, blocks, k) {
      assert FreeAt(d, u, blocks, k) && Apart(c, blocks[k]);
      BlocksAboveTop(d, u, hdr, first, cells, blocks, k);
      GetSame(d, e, blocks[k].at);
      GetSame(d, e, blocks[k].at + 2);
    }
  }

  /** A page after insertCell. */
  lemma {:induction false} InsertDone(d: seq<Byte>, e: seq<Byte>, u: nat, hdr: nat, off: nat, f: seq<Byte> -> nat,
          cells: seq<Block>, blocks: seq<Block>, i: nat, c: Block, cell: seq<Byte>)
    requires Holds(d, u, hdr, off, cells, blocks, c) && AllCells(f, Contents(d, cells)) && i <= |cells|
    requires CellWrite(d, e, u, hdr, c) && CellBytes(e, c) == cell && |cell| == c.size && IsCell(f, cell)
    requires Points(e, off, Inserted(cells, i, c)) && Get2(e, hdr + 3) == |cells| + 1
    ensures PageOk(e, u, hdr, off, f, Inserted(cells, i, c), blocks)
    ensures Contents(e, Inserted(cells, i, c)) == Inserted(Contents(d, cells), i, cell)
    ensures Total(Inserted(cells, i, c)) == Total(cells) + c.size
  {
    hide Layout, IsCell, Contents, CellBytes, CellWrite, Points, Total;
    var first := off + 2 * |cells| + 2;
    HeldApart(d, u, hdr, first, cells, blocks, c);
    LayoutWrite(d, e, u, hdr, first, cells + [c], blocks, c);
    LayoutMoved(e, u, hdr, first, cells, blocks, c, i);
    InsertContents(d, e, u, hdr, first, cells, blocks, i, c, cell);
    InsertedTotal(cells, i, c);
  }

  lemma {:induction false} HeldApart(d: seq<Byte>, u: nat, hdr: nat, first: nat, cells: seq<Block>, blocks: seq<Block>, c: Block)
    requires Layout(d, u, hdr, first, cells + [c], blocks)
    ensures forall k :: 0 <= k < |blocks| ==> Apart(c, blocks[k])
    ensures forall n :: 0 <= n < |cells| ==> Apart(cells[n], c) && CellIn(cells[n], Top(d, hdr), u)
    ensures CellIn(c, Top(d, hdr), u)
  {
    var all := cells + [c];
    assert all[|cells|] == c;
    forall n | 0 <= n < |cells| ensures Apart(cells[n], c) && CellIn(cells[n], Top(d, hdr), u) {
      assert all[n] == cells[n] && Apart(all[n], all[|cells|]);
    }
  }

  lemma {:induction false} InsertedTotal(cells: seq<Block>, i: nat, c: Block)
    requires i <= |cells|
    ensures Total(Inserted(cells, i, c)) == Total(cells) + c.size
  {
    TotalConcat(cells[..i] + [c], cells[i..]);
    TotalConcat(cells[..i], [c]);
    TotalConcat(cells[..i], cells[i..]);
    assert cells[..i] + cells[i..] == cells;
    TotalOne(c);
  }

  /** A cell apart from the one written keeps its bytes. */
  lemma {:induction false} OtherCell(d: seq<Byte>, e: seq<Byte>, u: nat, hdr: nat, c: Block, x: Block)
    requires CellWrite(d, e, u, hdr, c) && Apart(x, c) && CellIn(x, Top(d, hdr), u)
    ensures CellBytes(e, x) == CellBytes(d, x)
  {
    hide Top, Keeps;
    SliceMoved(d, e, x.at, x.at, x.size);
  }

  lemma {:induction false} InsertContents(d: seq<Byte>, e: seq<Byte>, u: nat, hdr: nat, first: nat, cells: seq<Block>,
          blocks: seq<Block>, i: nat, c: Block, cell: seq<Byte>)
    requires Layout(d, u, hdr, first, cells + [c], blocks) && i <= |cells|
    requires CellWrite(d, e, u, hdr, c) && CellBytes(e, c) == cell
    ensures Contents(e, Inserted(cells, i, c)) == Inserted(Contents(d, cells), i, cell)
  {
    hide Layout, Top, CellWrite, CellBytes, Apart;
    var r := Inserted(cells, i, c);
    HeldApart(d, u, hdr, first, cells, blocks, c);
    forall n | 0 <= n < |r| ensures CellBytes(e, r[n]) == Inserted(Contents(d, cells), i, cell)[n] {
      if n != i {
        OtherCell(d, e, u, hdr, c, cells[if n < i then n else n - 1]);
      }
    }
  }

  /** A page after dropCell, when cells remain. */
  lemma {:induction false} DropDone(d: seq<Byte>, e: seq<Byte>, u: nat, hdr: nat, off: nat, f: seq<Byte> -> nat,
          cells: seq<Block>, blocks: seq<Block>, i: nat, v: seq<seq<Byte>>)
    requires i < |cells| && Released(d, u, hdr, off, cells, blocks, i) && Contents(d, Without(cells, i)) == v && AllCells(f, v)
    requires CellWrite(d, e, u, hdr, Block(0, 0)) && Points(e, off, Without(cells, i)) && Get2(e, hdr + 3) == |cells| - 1
    ensures PageOk(e, u, hdr, off, f, Without(cells, i), blocks) && Contents(e, Without(cells, i)) == v
  {
    var r := Without(cells, i);
    var first := off + 2 * |cells|;
    LayoutWrite(d, e, u, hdr, first, r, blocks, Block(0, 0));
    forall n | 0 <= n < |r| ensures CellBytes(e, r[n]) == CellBytes(d, r[n]) {
      assert CellIn(r[n], Top(d, hdr), u);
      SliceMoved(d, e, r[n].at, r[n].at, r[n].size);
    }
    assert Contents(e, r) == v;
  }

  /** A page with no cell, no freeblock and no fragment. */
  lemma {:induction false} Blank(e: seq<Byte>, u: nat, hdr: nat, off: nat, f: seq<Byte> -> nat)
    requires |e| == u <= 0x1_0000 && hdr + 8 <= off <= u
    requires Get2(e, hdr + 1) == 0 && Get2(e, hdr + 3) == 0 && Get2(e, hdr + 5) == u % 0x1_0000 && e[hdr + 7] == 0
    ensures PageOk(e, u, hdr, off, f, [], []) && FreeBytes(e, hdr, off, []) == u - off
  {
  }

  // ------------------------------------------------------------------ the steps of insertCell

  lemma {:induction false} ValidCells(d: seq<Byte>, u: nat, hdr: nat, off: nat, f: seq<Byte> -> nat, cells: seq<Block>, blocks: seq<Block>)
    requires PageOk(d, u, hdr, off, f, cells, blocks)
    ensures AllCells(f, Contents(d, cells))
    ensures hdr + 8 <= |d| && FreeBytes(d, hdr, off + 2 * |cells|, blocks) == u - (off + 2 * |cells|) - Total(cells)
  {
    FreeIsRest(d, u, hdr, off + 2 * |cells|, cells, blocks);
  }

  lemma {:induction false} HeldPlace(d: seq<Byte>, u: nat, hdr: nat, off: nat, cells: seq<Block>, blocks: seq<Block>, c: Block)
    requires Holds(d, u, hdr, off, cells, blocks, c)
    ensures |d| == u <= 0x1_0000 && hdr + 8 <= off && off + 2 * |cells| + 2 <= Top(d, hdr) <= c.at && c.at + c.size <= u
    ensures c.size >= 4 && Points(d, off, cells) && Get2(d, hdr + 3) == |cells|
  {
    HeldApart(d, u, hdr, off + 2 * |cells| + 2, cells, blocks, c);
  }

  /** The bytes after insertCell's four steps: cell content, shifted pointers, new pointer, count. */
  lemma {:induction false} InsertSteps(d: seq<Byte>, w: seq<Byte>, m: seq<Byte>, p: seq<Byte>, e: seq<Byte>, u: nat,
          hdr: nat, off: nat, cells: seq<Block>, i: nat, c: Block, cell: seq<Byte>)
    requires |d| == u && hdr + 8 <= off <= u && off + 2 * |cells| + 2 <= Top(d, hdr) <= c.at && c.at + c.size <= u && i <= |cells|
    requires Points(d, off, cells) && Get2(d, hdr + 3) == |cells| && u <= 0x1_0000 && |cell| == c.size
    requires Keeps(d, w, 0, c.at) && Keeps(d, w, c.at + c.size, u - c.at - c.size) && CellBytes(w, c) == cell
    requires Moved(w, m, off + 2 * i + 2, off + 2 * i, 2 * (|cells| - i))
    requires Keeps(m, p, 0, off + 2 * i) && Keeps(m, p, off + 2 * i + 2, u - off - 2 * i - 2) && Get2(p, off + 2 * i) == c.at
    requires Counted(p, e, hdr)
    ensures CellWrite(d, e, u, hdr, c) && CellBytes(e, c) == cell && Points(e, off, Inserted(cells, i, c)) && Get2(e, hdr + 3) == |cells| + 1
  {
    hide Top, Get2;
    assert Points(w, off, cells) by {
      forall n | 0 <= n < |cells| ensures PointsTo(w, off, cells, n) {
        assert PointsTo(d, off, cells, n);
        KeepsGet(d, w, 0, c.at, off + 2 * n);
      }
    }
    assert Get2(e, off + 2 * i) == c.at by { GetSame(p, e, off + 2 * i); }
    PointersInserted(w, m, e, off, cells, i, c);
    SliceMoved(w, e, c.at, c.at, c.size);
    GetSame(d, p, hdr + 3);
    CountUp(p, e, hdr);
  }

  /** `e` is `p` with the two-byte count at `hdr + 3` incremented byte by byte. */
  ghost predicate Counted(p: seq<Byte>, e: seq<Byte>, hdr: nat)
  {
    && |p| == |e| && hdr + 5 <= |p| && p[hdr + 3] < 255
    && (var hi: int, lo: int := p[hdr + 3], p[hdr + 4];
        e[hdr + 4] == (lo + 1) % 256 && e[hdr + 3] == if e[hdr + 4] == 0 then hi + 1 else hi)
    && forall x :: 0 <= x < |p| && x != hdr + 3 && x != hdr + 4 ==> e[x] == p[x]
  }

  lemma {:induction false} CountUp(p: seq<Byte>, e: seq<Byte>, hdr: nat)
    requires Counted(p, e, hdr)
    ensures Get2(e, hdr + 3) == Get2(p, hdr + 3) + 1
  {
  }

  lemma {:induction false} CountSmall(d: seq<Byte>, w: seq<Byte>, m: seq<Byte>, p: seq<Byte>, u: nat, hdr: nat,
          off: nat, cells: seq<Block>, i: nat, c: Block)
    requires |d| == u && hdr + 8 <= off && off + 2 * |cells| + 2 <= c.at && c.at + c.size <= u <= 0x1_0000 && i <= |cells|
    requires Get2(d, hdr + 3) == |cells|
    requires Keeps(d, w, 0, c.at) && Moved(w, m, off + 2 * i + 2, off + 2 * i, 2 * (|cells| - i)) && Keeps(m, p, 0, off + 2 * i)
    ensures |p| == u && p[hdr + 3] < 255
  {
    GetSame(d, p, hdr + 3);
  }

  lemma {:induction false} CellsDropped(f: seq<Byte> -> nat, v: seq<seq<Byte>>, i: nat)
    requires AllCells(f, v) && i < |v|
    ensures AllCells(f, Without(v, i))
  {
    forall n | 0 <= n < |v| - 1 ensures IsCell(f, Without(v, i)[n]) {
      assert IsCell(f, v[if n < i then n else n + 1]);
    }
  }

  // ------------------------------------------------------------------ the steps of dropCell

  lemma {:induction false} DropPlace(d: seq<Byte>, u: nat, hdr: nat, off: nat, f: seq<Byte> -> nat, cells: seq<Block>,
          blocks: seq<Block>, i: nat)
    requires PageOk(d, u, hdr, off, f, cells, blocks) && i < |cells|
    ensures |d| == u && off + 2 * |cells| <= u && Get2(d, off + 2 * i) == cells[i].at && cells[i].at + cells[i].size <= u
  {
    assert PointsTo(d, off, cells, i) && CellIn(cells[i], Top(d, hdr), u);
  }

  lemma {:induction false} ReleasedPlace(d: seq<Byte>, u: nat, hdr: nat, off: nat, cells: seq<Block>, blocks: seq<Block>, i: nat)
    requires i < |cells| && Released(d, u, hdr, off, cells, blocks, i)
    ensures |d| == u <= 0x1_0000 && hdr + 8 <= off && off + 2 * |cells| <= Top(d, hdr) <= u
  {
  }

  lemma {:induction false} DropSteps(d: seq<Byte>, m: seq<Byte>, e: seq<Byte>, u: nat, hdr: nat, off: nat,
          cells: seq<Block>, blocks: seq<Block>, i: nat)
    requires i < |cells| && Released(d, u, hdr, off, cells, blocks, i)
    requires Moved(d, m, off + 2 * i, off + 2 * i + 2, 2 * (|cells| - 1 - i))
    requires Keeps(m, e, 0, hdr + 3) && Keeps(m, e, hdr + 5, u - hdr - 5) && Get2(e, hdr + 3) == |cells| - 1
    ensures CellWrite(d, e, u, hdr, Block(0, 0)) && Points(e, off, Without(cells, i))
  {
    PointersDropped(d, m, off, cells, i);
    var r := Without(cells, i);
    forall n | 0 <= n < |r| ensures PointsTo(e, off, r, n) {
      assert PointsTo(m, off, r, n);
      KeepsGet(m, e, hdr + 5, u - hdr - 5, off + 2 * n);
    }
  }
}
