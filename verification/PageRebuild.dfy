/** The slow path of defragmentPage (btree.c:1457-1491): every cell is copied, in pointer order, to the
    end of the free part of the page.  The content area is saved in a temporary buffer before the
    first cell that has to move is overwritten. */
module PageRebuild {
  import opened PageLayout
  import opened PageEdits
  import opened PageImage
  import opened PageDefrag

  /** Cell `j` has reached its new place, and its pointer follows. */
  ghost predicate Placed(d: seq<Byte>, e: seq<Byte>, u: nat, off: nat, cells: seq<Block>, j: nat)
    requires j < |cells|
  {
    PointsTo(e, off, Stacked(cells, u), j) && CellBytes(e, StackedAt(cells, u, j)) == CellBytes(d, cells[j])
  }

  /** The first `i` cells are in place; the pointers of the others are the old ones. */
  ghost predicate Progress(d: seq<Byte>, e: seq<Byte>, u: nat, off: nat, cells: seq<Block>, i: nat)
  {
    && |d| == |e| == u && Keeps(d, e, 0, off) && i <= |cells|
    && (forall j :: 0 <= j < i ==> Placed(d, e, u, off, cells, j))
    && (forall j :: i <= j < |cells| ==> PointsTo(e, off, cells, j))
  }

  /** The bytes of the cells still to be moved can be read from `s`. */
  ghost predicate Readable(d: seq<Byte>, s: seq<Byte>, cells: seq<Block>, i: nat)
  {
    forall j :: i <= j < |cells| ==> SameCell(d, s, cells, j)
  }

  ghost predicate SameCell(d: seq<Byte>, s: seq<Byte>, cells: seq<Block>, j: nat)
    requires j < |cells|
  {
    cells[j].at + cells[j].size <= |s| && CellBytes(s, cells[j]) == CellBytes(d, cells[j])
  }

  /** No cell has moved so far: the first `i` were in place already, at the end of the page. */
  ghost predicate Still(d: seq<Byte>, e: seq<Byte>, u: nat, first: nat, cells: seq<Block>, i: nat)
  {
    && |d| == |e| == u && first <= u && Keeps(d, e, first, u - first) && i <= |cells|
    && forall j :: i <= j < |cells| ==> Below(cells, u, i, j)
  }

  ghost predicate Below(cells: seq<Block>, u: nat, i: nat, j: nat)
    requires i <= |cells| && j < |cells|
  {
    cells[j].at + cells[j].size + Total(cells[..i]) <= u
  }

  lemma {:induction false} StartStill(d: seq<Byte>, u: nat, hdr: nat, off: nat, f: seq<Byte> -> nat, cells: seq<Block>, blocks: seq<Block>)
    requires PageOk(d, u, hdr, off, f, cells, blocks)
    ensures Progress(d, d, u, off, cells, 0) && Still(d, d, u, off + 2 * |cells|, cells, 0)
  {
    forall j | 0 <= j < |cells| ensures Below(cells, u, 0, j) { assert CellIn(cells[j], Top(d, hdr), u); }
  }

  /** What is known of cell `i` when its turn comes. */
  lemma {:induction false} Turn(d: seq<Byte>, u: nat, hdr: nat, off: nat, f: seq<Byte> -> nat, cells: seq<Block>,
          blocks: seq<Block>, i: nat)
    requires PageOk(d, u, hdr, off, f, cells, blocks) && i < |cells|
    ensures |d| == u && u <= 0x1_0000 && off + 2 * |cells| <= Top(d, hdr) && CellIn(cells[i], Top(d, hdr), u)
    ensures Top(d, hdr) < 0x1_0000 && Get2(d, hdr + 5) == Top(d, hdr)
    ensures Total(cells[..i + 1]) == Total(cells[..i]) + cells[i].size && Top(d, hdr) + Total(cells[..i + 1]) <= u
  {
    assert CellIn(cells[i], Top(d, hdr), u);
    TotalStep(cells, i);
  }

  /** The pointer and header fields read during turn `i`. */
  lemma {:induction false} TurnPointer(d: seq<Byte>, e: seq<Byte>, u: nat, hdr: nat, off: nat, f: seq<Byte> -> nat,
          cells: seq<Block>, blocks: seq<Block>, i: nat)
    requires PageOk(d, u, hdr, off, f, cells, blocks) && i < |cells| && Progress(d, e, u, off, cells, i)
    ensures |e| == u && off + 2 * |cells| <= u && Get2(e, off + 2 * i) == cells[i].at
    ensures hdr + 8 <= off && Get2(e, hdr + 5) == Top(d, hdr)
  {
    assert PointsTo(e, off, cells, i);
    Turn(d, u, hdr, off, f, cells, blocks, i);
    KeepsGet(d, e, 0, off, hdr + 5);
  }

  /** The size routine reads the cell off the bytes that start at its pointer. */
  lemma {:induction false} SizeRead(d: seq<Byte>, s: seq<Byte>, u: nat, hdr: nat, off: nat, f: seq<Byte> -> nat,
          cells: seq<Block>, blocks: seq<Block>, i: nat)
    requires PageOk(d, u, hdr, off, f, cells, blocks) && i < |cells| && |s| == u && Readable(d, s, cells, i)
    ensures cells[i].at <= |s| && f(s[cells[i].at..]) == cells[i].size
    ensures cells[i].at + cells[i].size <= |s| && s[cells[i].at..cells[i].at + cells[i].size] == CellBytes(d, cells[i])
  {
    assert SameCell(d, s, cells, i);
    var c := cells[i];
    var x := CellBytes(s, c);
    assert CellIn(c, Top(d, hdr), u);
    assert IsCell(f, Contents(d, cells)[i]);
    assert s[c.at..] == x + s[c.at + c.size..];
  }

  lemma {:induction false} StillReadable(d: seq<Byte>, e: seq<Byte>, u: nat, hdr: nat, off: nat, f: seq<Byte> -> nat,
          cells: seq<Block>, blocks: seq<Block>, i: nat)
    requires PageOk(d, u, hdr, off, f, cells, blocks) && Still(d, e, u, off + 2 * |cells|, cells, i)
    ensures Readable(d, e, cells, i)
  {
    forall j | i <= j < |cells| ensures SameCell(d, e, cells, j) {
      assert CellIn(cells[j], Top(d, hdr), u);
      SliceMoved(d, e, cells[j].at, cells[j].at, cells[j].size);
    }
  }

  /** The temporary buffer holds every cell still to be moved. */
  lemma {:induction false} Saved(d: seq<Byte>, e: seq<Byte>, t: seq<Byte>, u: nat, hdr: nat, off: nat,
          f: seq<Byte> -> nat, cells: seq<Block>, blocks: seq<Block>, i: nat)
    requires PageOk(d, u, hdr, off, f, cells, blocks) && Still(d, e, u, off + 2 * |cells|, cells, i) && |t| == u
    requires Total(cells[..i]) <= u
    requires forall x :: Top(d, hdr) <= x < u - Total(cells[..i]) ==> t[x] == e[x]
    ensures Readable(d, t, cells, i)
  {
    hide Top, Total;
    forall j | i <= j < |cells| ensures SameCell(d, t, cells, j) {
      assert CellIn(cells[j], Top(d, hdr), u) && Below(cells, u, i, j);
      SliceMoved(d, t, cells[j].at, cells[j].at, cells[j].size);
    }
  }

  /** Cell `i` was at its new place already. */
  lemma {:induction false} Stays(d: seq<Byte>, e: seq<Byte>, g: seq<Byte>, u: nat, hdr: nat, off: nat,
          f: seq<Byte> -> nat, cells: seq<Block>, blocks: seq<Block>, i: nat)
    requires PageOk(d, u, hdr, off, f, cells, blocks) && i < |cells| && Still(d, e, u, off + 2 * |cells|, cells, i)
    requires cells[i].at + Total(cells[..i + 1]) == u
    requires Keeps(e, g, 0, off + 2 * i) && Keeps(e, g, off + 2 * i + 2, u - off - 2 * i - 2)
    ensures Still(d, g, u, off + 2 * |cells|, cells, i + 1)
    ensures CellBytes(g, StackedAt(cells, u, i)) == CellBytes(d, cells[i])
  {
    hide PageOk;
    Turn(d, u, hdr, off, f, cells, blocks, i);
    var n := i + 1;
    forall j | n <= j < |cells| ensures Below(cells, u, n, j) {
      assert Below(cells, u, i, j);
      NextBelow(d, u, hdr, off, f, cells, blocks, i, j);
    }
    SliceMoved(d, g, cells[i].at, cells[i].at, cells[i].size);
  }

  lemma {:induction false} NextBelow(d: seq<Byte>, u: nat, hdr: nat, off: nat, f: seq<Byte> -> nat, cells: seq<Block>,
          blocks: seq<Block>, i: nat, j: nat)
    requires PageOk(d, u, hdr, off, f, cells, blocks) && i < j < |cells| && Below(cells, u, i, j)
    requires cells[i].at + Total(cells[..i + 1]) == u && Total(cells[..i + 1]) == Total(cells[..i]) + cells[i].size
    ensures Below(cells, u, i + 1, j)
  {
    assert Apart(cells[i], cells[j]) && CellIn(cells[j], Top(d, hdr), u);
  }

  /** Writing cell `i` and its pointer disturbs no cell in place and no other pointer. */
  lemma {:induction false} Advance(d: seq<Byte>, e: seq<Byte>, g: seq<Byte>, u: nat, hdr: nat, off: nat,
          f: seq<Byte> -> nat, cells: seq<Block>, blocks: seq<Block>, i: nat)
    requires PageOk(d, u, hdr, off, f, cells, blocks) && i < |cells| && Progress(d, e, u, off, cells, i) && |g| == u
    requires Keeps(e, g, 0, off + 2 * i) && Keeps(e, g, off + 2 * i + 2, 2 * (|cells| - i - 1))
    requires Total(cells[..i]) <= u && Keeps(e, g, u - Total(cells[..i]), Total(cells[..i]))
    requires PointsTo(g, off, Stacked(cells, u), i) && CellBytes(g, StackedAt(cells, u, i)) == CellBytes(d, cells[i])
    ensures Progress(d, g, u, off, cells, i + 1)
  {
    hide PageOk;
    forall j | 0 <= j < i ensures Placed(d, g, u, off, cells, j) {
      StillPlaced(d, e, g, u, hdr, off, f, cells, blocks, i, j);
    }
    forall j | i + 1 <= j < |cells| ensures PointsTo(g, off, cells, j) {
      assert PointsTo(e, off, cells, j);
      KeepsGet(e, g, off + 2 * i + 2, 2 * (|cells| - i - 1), off + 2 * j);
    }
    assert Placed(d, g, u, off, cells, i);
  }

  lemma {:induction false} StillPlaced(d: seq<Byte>, e: seq<Byte>, g: seq<Byte>, u: nat, hdr: nat, off: nat,
          f: seq<Byte> -> nat, cells: seq<Block>, blocks: seq<Block>, i: nat, j: nat)
    requires PageOk(d, u, hdr, off, f, cells, blocks) && j < i < |cells| && |e| == |g| == u && Placed(d, e, u, off, cells, j)
    requires off + 2 * |cells| <= u && Keeps(e, g, 0, off + 2 * i)
    requires Total(cells[..i]) <= u && Keeps(e, g, u - Total(cells[..i]), Total(cells[..i]))
    ensures Placed(d, g, u, off, cells, j)
  {
    hide PageOk, Layout;
    KeepsGet(e, g, 0, off + 2 * i, off + 2 * j);
    Turn(d, u, hdr, off, f, cells, blocks, j);
    Higher(cells, j, i);
    var m := StackedAt(cells, u, j);
    SliceMoved(e, g, m.at, m.at, m.size);
  }

  lemma {:induction false} ReadableOn(d: seq<Byte>, s: seq<Byte>, cells: seq<Block>, i: nat)
    requires Readable(d, s, cells, i)
    ensures Readable(d, s, cells, i + 1)
  {
  }

  lemma {:induction false} PutPointer(d: seq<Byte>, e: seq<Byte>, g: seq<Byte>, u: nat, hdr: nat, off: nat,
          f: seq<Byte> -> nat, cells: seq<Block>, blocks: seq<Block>, i: nat)
    requires PageOk(d, u, hdr, off, f, cells, blocks) && i < |cells| && Progress(d, e, u, off, cells, i) && |g| == u
    requires Keeps(e, g, 0, off + 2 * i) && Keeps(e, g, off + 2 * i + 2, u - off - 2 * i - 2)
    requires Total(cells[..i + 1]) <= u && Get2(g, off + 2 * i) == u - Total(cells[..i + 1])
    requires CellBytes(g, StackedAt(cells, u, i)) == CellBytes(d, cells[i])
    ensures Progress(d, g, u, off, cells, i + 1)
  {
    hide PageOk, Progress;
    Turn(d, u, hdr, off, f, cells, blocks, i);
    Advance(d, e, g, u, hdr, off, f, cells, blocks, i);
  }

  lemma {:induction false} PutCell(d: seq<Byte>, e: seq<Byte>, g: seq<Byte>, h: seq<Byte>, u: nat, hdr: nat, off: nat,
          f: seq<Byte> -> nat, cells: seq<Block>, blocks: seq<Block>, i: nat)
    requires PageOk(d, u, hdr, off, f, cells, blocks) && i < |cells| && Progress(d, e, u, off, cells, i) && |g| == |h| == u
    requires Keeps(e, g, 0, off + 2 * i) && Keeps(e, g, off + 2 * i + 2, u - off - 2 * i - 2)
    requires Total(cells[..i + 1]) <= u && Get2(g, off + 2 * i) == u - Total(cells[..i + 1])
    requires var m := StackedAt(cells, u, i);
      m.at + m.size <= u && Keeps(g, h, 0, m.at) && Keeps(g, h, m.at + m.size, u - m.at - m.size) && CellBytes(h, m) == CellBytes(d, cells[i])
    ensures Progress(d, h, u, off, cells, i + 1)
  {
    hide PageOk, Progress;
    Turn(d, u, hdr, off, f, cells, blocks, i);
    KeepsGet(g, h, 0, StackedAt(cells, u, i).at, off + 2 * i);
    Advance(d, e, h, u, hdr, off, f, cells, blocks, i);
  }

  lemma {:induction false} Higher(cells: seq<Block>, j: nat, i: nat)
    requires j < i <= |cells|
    ensures Total(cells[..j + 1]) <= Total(cells[..i])
  {
    assert cells[..i][..j + 1] == cells[..j + 1];
    TotalStep(cells[..i], j);
  }

  /** All cells are in place. */
  lemma {:induction false} Finished(d: seq<Byte>, e: seq<Byte>, g: seq<Byte>, u: nat, hdr: nat, off: nat,
          f: seq<Byte> -> nat, cells: seq<Block>, blocks: seq<Block>)
    requires PageOk(d, u, hdr, off, f, cells, blocks) && Progress(d, e, u, off, cells, |cells|) && hdr + 8 <= |e|
    requires g == e[hdr + 7 := 0] && Total(cells) <= u
    ensures Compacted(d, g, u, hdr, off, cells, Stacked(cells, u), u - Total(cells))
  {
    hide PageOk, Progress, Apart, Carried, PointsTo, Top, Total;
    PageSize(d, u, hdr, off, f, cells, blocks);
    FinishedFrame(d, e, g, u, hdr, off, f, cells, blocks);
    var moved, top := Stacked(cells, u), u - Total(cells);
    forall j | 0 <= j < |cells| ensures Carried(d, g, u, cells[j], moved[j], top) && PointsTo(g, off, moved, j) {
      FinishedCell(d, e, g, u, hdr, off, f, cells, blocks, j);
    }
    forall j, k | 0 <= j < k < |cells| ensures Apart(moved[j], moved[k]) { StackedApart(cells, u, j, k); }
  }

  lemma {:induction false} FinishedFrame(d: seq<Byte>, e: seq<Byte>, g: seq<Byte>, u: nat, hdr: nat, off: nat,
          f: seq<Byte> -> nat, cells: seq<Block>, blocks: seq<Block>)
    requires PageOk(d, u, hdr, off, f, cells, blocks) && Progress(d, e, u, off, cells, |cells|) && hdr + 8 <= |e|
    requires g == e[hdr + 7 := 0]
    ensures |e| == u && Get2(g, hdr + 3) == |cells| && Top(d, hdr) + Total(cells) <= u
  {
    KeepsGet(d, e, 0, off, hdr + 3);
    GetSame(e, g, hdr + 3);
  }

  lemma {:induction false} FinishedCell(d: seq<Byte>, e: seq<Byte>, g: seq<Byte>, u: nat, hdr: nat, off: nat,
          f: seq<Byte> -> nat, cells: seq<Block>, blocks: seq<Block>, j: nat)
    requires PageOk(d, u, hdr, off, f, cells, blocks) && Progress(d, e, u, off, cells, |cells|) && hdr + 8 <= |e| == u
    requires g == e[hdr + 7 := 0] && Total(cells) <= u && j < |cells|
    ensures Carried(d, g, u, cells[j], Stacked(cells, u)[j], u - Total(cells)) && PointsTo(g, off, Stacked(cells, u), j)
  {
    hide PageOk;
    var m := StackedAt(cells, u, j);
    PageSize(d, u, hdr, off, f, cells, blocks);
    Turn(d, u, hdr, off, f, cells, blocks, j);
    assert Placed(d, e, u, off, cells, j);
    TotalStep(cells, j);
    SliceMoved(e, g, m.at, m.at, m.size);
    GetSame(e, g, off + 2 * j);
  }
}
