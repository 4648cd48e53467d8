/** Moving the cells of a page together (defragmentPage in btree.c:1379-1504). */
module PageDefrag {
  import opened PageLayout
  import opened PageEdits
  import opened PageImage

  /** The cells of `d` lie at `moved` in `e`, byte for byte. */
  ghost predicate Rearranged(d: seq<Byte>, e: seq<Byte>, u: nat, cells: seq<Block>, moved: seq<Block>, top: nat)
  {
    && |moved| == |cells| && AllApart(moved)
    && forall i :: 0 <= i < |cells| ==> Carried(d, e, u, cells[i], moved[i], top)
  }

  ghost predicate Carried(d: seq<Byte>, e: seq<Byte>, u: nat, c: Block, m: Block, top: nat)
  {
    m.size == c.size && CellIn(m, top, u) && CellBytes(e, m) == CellBytes(d, c)
  }

  lemma {:induction false} TotalSame(a: seq<Block>, b: seq<Block>)
    requires |a| == |b| && forall i :: 0 <= i < |a| ==> a[i].size == b[i].size
    ensures Total(a) == Total(b)
  {
    if a != [] { TotalSame(a[1..], b[1..]); }
  }

  /** A page whose cells have been moved above `top`, with no freeblock left. */
  lemma {:induction false} Packed(d: seq<Byte>, e: seq<Byte>, u: nat, hdr: nat, off: nat, f: seq<Byte> -> nat,
          cells: seq<Block>, blocks: seq<Block>, moved: seq<Block>, top: nat)
    requires PageOk(d, u, hdr, off, f, cells, blocks) && Rearranged(d, e, u, cells, moved, top)
    requires |e| == u && hdr + 8 <= u && Get2(e, hdr + 1) == 0 && Top(e, hdr) == top && Get2(e, hdr + 3) == |cells|
    requires off + 2 * |cells| <= top <= u && e[hdr + 7] + Total(cells) == u - top && e[hdr + 7] <= 60
    requires Points(e, off, moved)
    ensures PageOk(e, u, hdr, off, f, moved, []) && Contents(e, moved) == Contents(d, cells) && Total(moved) == Total(cells)
  {
    forall i | 0 <= i < |cells| ensures moved[i].size == cells[i].size && CellIn(moved[i], top, u) && CellBytes(e, moved[i]) == CellBytes(d, cells[i]) {
      assert Carried(d, e, u, cells[i], moved[i], top);
    }
    TotalSame(moved, cells);
    assert Contents(e, moved) == Contents(d, cells);
  }

  // ------------------------------------------------------------------ at most two freeblocks

  /** Where the byte at `at` goes when the bytes before freeblock `f1` move up by `s` and those between
      the two freeblocks by `s2`. */
  function Slid(at: nat, f1: nat, s: nat, f2: nat, s2: nat): nat
  {
    if at < f1 then at + s else if at < f2 then at + s2 else at
  }

  function SlidCells(cells: seq<Block>, f1: nat, s: nat, f2: nat, s2: nat): (r: seq<Block>)
    ensures |r| == |cells|
    ensures forall i :: 0 <= i < |r| ==> r[i] == Block(Slid(cells[i].at, f1, s, f2, s2), cells[i].size)
  {
    seq(|cells|, (i: int) requires 0 <= i < |cells| => Block(Slid(cells[i].at, f1, s, f2, s2), cells[i].size))
  }

  /** One or two freeblocks: the first at `f1`, the second (if any) at `f2` with `s2` bytes; `s` bytes
      in all. */
  ghost predicate Few(blocks: seq<Block>, f1: nat, s: nat, f2: nat, s2: nat)
  {
    && 1 <= |blocks| <= 2 && blocks[0].at == f1
    && (if |blocks| == 1 then f2 == 0 && s2 == 0 && s == blocks[0].size
        else f2 == blocks[1].at && s2 == blocks[1].size && s == blocks[0].size + s2)
  }

  /** The content area of `e` is that of `d` slid over the freeblocks. */
  ghost predicate SlidOver(d: seq<Byte>, e: seq<Byte>, top: nat, f1: nat, s: nat, f2: nat, s2: nat)
  {
    && |d| == |e| && s2 <= s
    && (forall x :: top + s <= x < f1 + s && x < |e| ==> e[x] == d[x - s])
    && (forall x :: f1 + s <= x < f2 + s2 && x < |e| ==> e[x] == d[x - s2])
    && (forall x :: f1 + s <= x && f2 + s2 <= x < |e| ==> e[x] == d[x])
  }

  /** `n` bytes at `src` of `d` have been copied to `dst`. */
  ghost predicate Moved(d: seq<Byte>, e: seq<Byte>, dst: nat, src: nat, n: nat)
  {
    && |d| == |e| && dst + n <= |d| && src + n <= |d|
    && (forall x :: dst <= x < dst + n ==> e[x] == d[x - dst + src])
    && (forall x :: 0 <= x < |d| && !(dst <= x < dst + n) ==> e[x] == d[x])
  }

  /** The moves of the fast path: first the bytes between the two freeblocks, then those before. */
  lemma {:induction false} TwoMoves(d: seq<Byte>, m: seq<Byte>, e: seq<Byte>, top: nat, f1: nat, s1: nat, f2: nat, s2: nat)
    requires top < f1 && f1 + s1 <= f2
    requires Moved(d, m, f1 + s1 + s2, f1 + s1, f2 - (f1 + s1)) && Moved(m, e, top + s1 + s2, top, f1 - top)
    ensures SlidOver(d, e, top, f1, s1 + s2, f2, s2) && Keeps(d, e, 0, top)
  {
  }

  lemma {:induction false} OneMove(d: seq<Byte>, e: seq<Byte>, top: nat, f1: nat, s1: nat)
    requires top < f1 && Moved(d, e, top + s1, top, f1 - top)
    ensures SlidOver(d, e, top, f1, s1, 0, 0) && Keeps(d, e, 0, top)
  {
  }

  /** How a cell lies relative to the content area and to a freeblock. */
  lemma {:induction false} CellClear(d: seq<Byte>, u: nat, hdr: nat, first: nat, cells: seq<Block>, blocks: seq<Block>, i: nat, k: nat)
    requires Layout(d, u, hdr, first, cells, blocks) && i < |cells| && k < |blocks|
    ensures |d| == u && CellIn(cells[i], Top(d, hdr), u) && Apart(cells[i], blocks[k])
    ensures Top(d, hdr) < blocks[k].at && 4 <= blocks[k].size && blocks[k].at + blocks[k].size <= u
    ensures k > 0 ==> blocks[k - 1].at + blocks[k - 1].size + 4 <= blocks[k].at
  {
    BlocksAboveTop(d, u, hdr, first, cells, blocks, k);
  }

  lemma {:induction false} SlideOne(d: seq<Byte>, e: seq<Byte>, u: nat, hdr: nat, first: nat, cells: seq<Block>,
          blocks: seq<Block>, f1: nat, s: nat, f2: nat, s2: nat, i: nat)
    requires Layout(d, u, hdr, first, cells, blocks) && Few(blocks, f1, s, f2, s2)
    requires SlidOver(d, e, Top(d, hdr), f1, s, f2, s2) && i < |cells|
    ensures Carried(d, e, u, cells[i], SlidCells(cells, f1, s, f2, s2)[i], Top(d, hdr) + s)
  {
    hide Layout;
    var c, m := cells[i], SlidCells(cells, f1, s, f2, s2)[i];
    CellClear(d, u, hdr, first, cells, blocks, i, 0);
    if |blocks| == 2 { CellClear(d, u, hdr, first, cells, blocks, i, 1); }
    SliceMoved(d, e, c.at, m.at, c.size);
  }

  lemma {:induction false} SliceMoved(d: seq<Byte>, e: seq<Byte>, a: nat, b: nat, n: nat)
    requires a + n <= |d| && b + n <= |e| && forall x :: b <= x < b + n ==> e[x] == d[x - b + a]
    ensures e[b..b + n] == d[a..a + n]
  {
  }

  lemma {:induction false} SlideApart(d: seq<Byte>, u: nat, hdr: nat, first: nat, cells: seq<Block>,
          blocks: seq<Block>, f1: nat, s: nat, f2: nat, s2: nat, i: nat, j: nat)
    requires Layout(d, u, hdr, first, cells, blocks) && Few(blocks, f1, s, f2, s2) && i < |cells| && j < |cells| && i < j
    ensures Apart(SlidCells(cells, f1, s, f2, s2)[i], SlidCells(cells, f1, s, f2, s2)[j])
  {
    assert Apart(cells[i], cells[j]);
    hide Layout;
    CellClear(d, u, hdr, first, cells, blocks, i, 0);
    CellClear(d, u, hdr, first, cells, blocks, j, 0);
    if |blocks| == 2 {
      CellClear(d, u, hdr, first, cells, blocks, i, 1);
      CellClear(d, u, hdr, first, cells, blocks, j, 1);
    }
  }

  lemma {:induction false} Slide(d: seq<Byte>, e: seq<Byte>, u: nat, hdr: nat, first: nat, cells: seq<Block>,
          blocks: seq<Block>, f1: nat, s: nat, f2: nat, s2: nat)
    requires Layout(d, u, hdr, first, cells, blocks) && Few(blocks, f1, s, f2, s2)
    requires SlidOver(d, e, Top(d, hdr), f1, s, f2, s2)
    ensures Rearranged(d, e, u, cells, SlidCells(cells, f1, s, f2, s2), Top(d, hdr) + s)
    ensures Total(blocks) == s
  {
    var moved := SlidCells(cells, f1, s, f2, s2);
    forall i | 0 <= i < |cells| ensures Carried(d, e, u, cells[i], moved[i], Top(d, hdr) + s) {
      SlideOne(d, e, u, hdr, first, cells, blocks, f1, s, f2, s2, i);
    }
    forall i, j | 0 <= i < j < |moved| ensures Apart(moved[i], moved[j]) {
      SlideApart(d, u, hdr, first, cells, blocks, f1, s, f2, s2, i, j);
    }
    if |blocks| == 2 { assert blocks[1..] == [blocks[1]]; TotalOne(blocks[1]); } else { assert blocks == [blocks[0]]; TotalOne(blocks[0]); }
  }

  // ------------------------------------------------------------------ rebuilding the page

  /** Cells packed downwards from the end of the page, in pointer order. */
  function Stacked(cells: seq<Block>, u: nat): (r: seq<Block>)
    ensures |r| == |cells|
    ensures forall i :: 0 <= i < |r| ==> r[i] == StackedAt(cells, u, i)
  {
    seq(|cells|, (i: int) requires 0 <= i < |cells| => StackedAt(cells, u, i))
  }

  function StackedAt(cells: seq<Block>, u: nat, i: nat): Block
    requires i < |cells|
  {
    var used := Total(cells[..i + 1]);
    Block(if used <= u then u - used else 0, cells[i].size)
  }

  lemma {:induction false} TotalLast(cells: seq<Block>)
    requires cells != []
    ensures Total(cells) == Total(cells[..|cells| - 1]) + cells[|cells| - 1].size
  {
    var n := |cells| - 1;
    assert cells == cells[..n] + [cells[n]];
    TotalConcat(cells[..n], [cells[n]]);
    TotalOne(cells[n]);
  }

  lemma {:induction false} TotalStep(cells: seq<Block>, i: nat)
    requires i < |cells|
    ensures Total(cells[..i + 1]) == Total(cells[..i]) + cells[i].size
    ensures Total(cells[..i + 1]) <= Total(cells)
  {
    TotalLast(cells[..i + 1]);
    assert cells[..i + 1][..i] == cells[..i];
    TotalConcat(cells[..i + 1], cells[i + 1..]);
    assert cells[..i + 1] + cells[i + 1..] == cells;
  }

  lemma {:induction false} StackedApart(cells: seq<Block>, u: nat, i: nat, j: nat)
    requires Total(cells) <= u && i < j < |cells|
    ensures Stacked(cells, u)[j].at + cells[j].size <= Stacked(cells, u)[i].at
    ensures Apart(Stacked(cells, u)[i], Stacked(cells, u)[j])
    decreases j - i
  {
    TotalStep(cells, i);
    TotalStep(cells, j);
    if i + 1 < j { StackedApart(cells, u, i, j - 1); }
  }

  // ------------------------------------------------------------------ the state before the header is rewritten

  /** Cells and pointers have been moved above `top`; the header still describes the old chain. */
  ghost predicate Compacted(d: seq<Byte>, e: seq<Byte>, u: nat, hdr: nat, off: nat, cells: seq<Block>, moved: seq<Block>, top: nat)
  {
    && |e| == u && hdr + 8 <= off && off + 2 * |cells| <= top <= u
    && Rearranged(d, e, u, cells, moved, top)
    && Points(e, off, moved)
    && Get2(e, hdr + 3) == |cells|
    && e[hdr + 7] + Total(cells) == u - top && e[hdr + 7] <= 60
  }

  lemma {:induction false} PageSize(d: seq<Byte>, u: nat, hdr: nat, off: nat, f: seq<Byte> -> nat, cells: seq<Block>, blocks: seq<Block>)
    requires PageOk(d, u, hdr, off, f, cells, blocks)
    ensures |d| == u <= 0x1_0000 && hdr + 8 <= off && off + 2 * |cells| <= Top(d, hdr) <= u
  {
  }

  /** Rewriting the header and clearing the gap completes the page. */
  lemma {:induction false} Settled(d: seq<Byte>, e: seq<Byte>, g: seq<Byte>, u: nat, hdr: nat, off: nat,
          f: seq<Byte> -> nat, cells: seq<Block>, blocks: seq<Block>, moved: seq<Block>, top: nat)
    requires PageOk(d, u, hdr, off, f, cells, blocks) && Compacted(d, e, u, hdr, off, cells, moved, top)
    requires Keeps(e, g, hdr + 3, 2) && Keeps(e, g, hdr + 7, 1) && Keeps(e, g, off, 2 * |cells|) && Keeps(e, g, top, u - top)
    requires Get2(g, hdr + 1) == 0 && Get2(g, hdr + 5) == top % 0x1_0000
    ensures PageOk(g, u, hdr, off, f, moved, []) && Contents(g, moved) == Contents(d, cells) && Total(moved) == Total(cells)
    ensures g[hdr + 7] == e[hdr + 7] && Top(g, hdr) == top
  {
    hide PageOk, Contents, Total;
    PageSize(d, u, hdr, off, f, cells, blocks);
    KeepsGet(e, g, hdr + 3, 2, hdr + 3);
    assert g[hdr + 7] == e[hdr + 7];
    forall i | 0 <= i < |cells| ensures Carried(d, g, u, cells[i], moved[i], top) {
      assert Carried(d, e, u, cells[i], moved[i], top);
      SliceMoved(e, g, moved[i].at, moved[i].at, moved[i].size);
    }
    forall i | 0 <= i < |moved| ensures PointsTo(g, off, moved, i) {
      assert PointsTo(e, off, moved, i);
      KeepsGet(e, g, off, 2 * |cells|, off + 2 * i);
    }
    Packed(d, g, u, hdr, off, f, cells, blocks, moved, top);
  }

  /** Moving the stretches between the freeblocks leaves header and pointer array as they were. */
  lemma {:induction false} Squeezed(d: seq<Byte>, e: seq<Byte>, u: nat, hdr: nat, off: nat, f: seq<Byte> -> nat,
          cells: seq<Block>, blocks: seq<Block>, f1: nat, s: nat, f2: nat, s2: nat)
    requires PageOk(d, u, hdr, off, f, cells, blocks) && Few(blocks, f1, s, f2, s2)
    requires SlidOver(d, e, Top(d, hdr), f1, s, f2, s2) && Keeps(d, e, 0, Top(d, hdr))
    ensures var moved := SlidCells(cells, f1, s, f2, s2);
      && Rearranged(d, e, u, cells, moved, Top(d, hdr) + s) && Points(e, off, cells)
      && (forall i :: 0 <= i < |moved| ==> moved[i].at < 0x1_0000)
    ensures |e| == u && Get2(e, hdr + 3) == |cells| && e[hdr + 7] == d[hdr + 7] && off + 2 * |cells| <= Top(d, hdr)
    ensures Top(d, hdr) + s <= u && d[hdr + 7] + Total(cells) == u - Top(d, hdr) - s && d[hdr + 7] <= 60
  {
    var first := off + 2 * |cells|;
    Slide(d, e, u, hdr, first, cells, blocks, f1, s, f2, s2);
    hide Layout;
    assert Keeps(d, e, 0, first);
    KeepsGet(d, e, 0, first, hdr + 3);
    forall i | 0 <= i < |cells| ensures PointsTo(e, off, cells, i) {
      assert PointsTo(d, off, cells, i);
      KeepsGet(d, e, 0, first, off + 2 * i);
    }
    var moved := SlidCells(cells, f1, s, f2, s2);
    forall i | 0 <= i < |moved| ensures moved[i].at < 0x1_0000 {
      assert Carried(d, e, u, cells[i], moved[i], Top(d, hdr) + s);
    }
  }

  /** The pointer array has been rewritten to follow the cells. */
  lemma {:induction false} CompactedBy(d: seq<Byte>, e: seq<Byte>, g: seq<Byte>, u: nat, hdr: nat, off: nat,
          cells: seq<Block>, moved: seq<Block>, top: nat)
    requires |e| == u && hdr + 8 <= off && off + 2 * |cells| <= top <= u
    requires Rearranged(d, e, u, cells, moved, top) && Get2(e, hdr + 3) == |cells|
    requires e[hdr + 7] + Total(cells) == u - top && e[hdr + 7] <= 60
    requires Keeps(e, g, 0, off) && Keeps(e, g, off + 2 * |cells|, u - off - 2 * |cells|) && Points(g, off, moved)
    ensures Compacted(d, g, u, hdr, off, cells, moved, top) && g[hdr + 7] == e[hdr + 7]
  {
    KeepsGet(e, g, 0, off, hdr + 3);
    forall i | 0 <= i < |cells| ensures Carried(d, g, u, cells[i], moved[i], top) {
      assert Carried(d, e, u, cells[i], moved[i], top);
      SliceMoved(e, g, moved[i].at, moved[i].at, moved[i].size);
    }
  }
}
