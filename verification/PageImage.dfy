/** A whole b-tree page: layout, cell pointer array and cell contents. */
module PageImage {
  import opened PageLayout
  import opened PageEdits

  /** Pointer `i` of the cell pointer array addresses cell `i`. */
  ghost predicate PointsTo(d: seq<Byte>, off: nat, cells: seq<Block>, i: nat)
    requires i < |cells|
  {
    off + 2 * i + 2 <= |d| && Get2(d, off + 2 * i) == cells[i].at
  }

  ghost predicate Points(d: seq<Byte>, off: nat, cells: seq<Block>)
  {
    forall i :: 0 <= i < |cells| ==> PointsTo(d, off, cells, i)
  }

  function CellBytes(d: seq<Byte>, b: Block): seq<Byte>
  {
    if b.at + b.size <= |d| then d[b.at..b.at + b.size] else []
  }

  /** The cells of the page, in the order of the pointer array. */
  function Contents(d: seq<Byte>, cells: seq<Block>): (r: seq<seq<Byte>>)
    ensures |r| == |cells|
    ensures forall i :: 0 <= i < |r| ==> r[i] == CellBytes(d, cells[i])
  {
    seq(|cells|, (i: int) requires 0 <= i < |cells| => CellBytes(d, cells[i]))
  }

  /** `x` is one whole cell for the page's cell-size routine, whatever bytes follow it. */
  ghost predicate IsCell(f: seq<Byte> -> nat, x: seq<Byte>)
  {
    |x| >= 4 && forall y: seq<Byte> :: f(x + y) == |x|
  }

  ghost predicate AllCells(f: seq<Byte> -> nat, xs: seq<seq<Byte>>)
  {
    forall i :: 0 <= i < |xs| ==> IsCell(f, xs[i])
  }

  /** A well-formed page image; `off` is the offset of the cell pointer array. */
  ghost predicate PageOk(d: seq<Byte>, u: nat, hdr: nat, off: nat, f: seq<Byte> -> nat, cells: seq<Block>, blocks: seq<Block>)
  {
    && hdr + 8 <= off
    && Layout(d, u, hdr, off + 2 * |cells|, cells, blocks)
    && Points(d, off, cells)
    && Get2(d, hdr + 3) == |cells|
    && AllCells(f, Contents(d, cells))
  }

  /** The free bytes as btreeInitPage counts them (btree.c:1919-1964). */
  ghost function FreeBytes(d: seq<Byte>, hdr: nat, first: nat, blocks: seq<Block>): int
    requires hdr + 8 <= |d|
  {
    d[hdr + 7] + Top(d, hdr) + Total(blocks) - first
  }

  /** Counting free bytes one by one leaves exactly the bytes of the cells and their pointers. */
  lemma {:induction false} FreeIsRest(d: seq<Byte>, u: nat, hdr: nat, first: nat, cells: seq<Block>, blocks: seq<Block>)
    requires Layout(d, u, hdr, first, cells, blocks)
    ensures hdr + 8 <= |d| && FreeBytes(d, hdr, first, blocks) == u - first - Total(cells)
  {
  }

  // ------------------------------------------------------------------ what a write leaves alone

  lemma {:induction false} BytesKept(d: seq<Byte>, e: seq<Byte>, hdr: nat, link: nat, at: nat, b: Block)
    requires Framed(d, e, hdr, link, at) && hdr + 8 <= b.at
    requires Apart(b, Block(link, 2)) && Apart(b, Block(at, 4))
    ensures CellBytes(e, b) == CellBytes(d, b)
  {
    if b.at + b.size <= |d| {
      forall x | b.at <= x < b.at + b.size ensures e[x] == d[x] { assert !Touched(hdr, link, at, x); }
      assert e[b.at..b.at + b.size] == d[b.at..b.at + b.size];
    }
  }

  /** A write that spares the pointer array and the cells changes neither. */
  lemma {:induction false} ImageKept(d: seq<Byte>, e: seq<Byte>, hdr: nat, link: nat, at: nat, off: nat,
          ptrs: seq<Block>, cells: seq<Block>)
    requires Framed(d, e, hdr, link, at) && hdr + 8 <= off && Points(d, off, ptrs)
    requires link + 2 <= off || off + 2 * |ptrs| <= link
    requires off + 2 * |ptrs| <= at
    requires forall i :: 0 <= i < |cells| ==> hdr + 8 <= cells[i].at && Apart(cells[i], Block(link, 2)) && Apart(cells[i], Block(at, 4))
    ensures Points(e, off, ptrs) && Contents(e, cells) == Contents(d, cells)
  {
    forall i | 0 <= i < |ptrs| ensures PointsTo(e, off, ptrs, i) {
      assert PointsTo(d, off, ptrs, i);
      FramedGet(d, e, hdr, link, at, off + 2 * i);
    }
    forall i | 0 <= i < |cells| ensures CellBytes(e, cells[i]) == CellBytes(d, cells[i]) {
      BytesKept(d, e, hdr, link, at, cells[i]);
    }
  }

  /** The order of the cells does not matter to the layout. */
  lemma {:induction false} LayoutMoved(d: seq<Byte>, u: nat, hdr: nat, first: nat, cells: seq<Block>, blocks: seq<Block>, c: Block, i: nat)
    requires Layout(d, u, hdr, first, cells + [c], blocks) && i <= |cells|
    ensures Layout(d, u, hdr, first, cells[..i] + [c] + cells[i..], blocks)
  {
    var all, new_ := cells + [c], cells[..i] + [c] + cells[i..];
    TotalConcat(cells, [c]);
    TotalConcat(cells[..i] + [c], cells[i..]);
    TotalConcat(cells[..i], [c]);
    TotalConcat(cells[..i], cells[i..]);
    assert cells[..i] + cells[i..] == cells;
    forall n | 0 <= n < |new_| ensures new_[n] == all[Origin(n, i, |cells|)] {}
    forall n | 0 <= n < |new_| ensures CellIn(new_[n], Top(d, hdr), u) {
      assert CellIn(all[Origin(n, i, |cells|)], Top(d, hdr), u);
    }
    forall n, m | 0 <= n < m < |new_| ensures Apart(new_[n], new_[m]) {
      var x, y := Origin(n, i, |cells|), Origin(m, i, |cells|);
      if x < y { assert Apart(all[x], all[y]); } else { assert Apart(all[y], all[x]); }
    }
    forall n, k | 0 <= n < |new_| && 0 <= k < |blocks| ensures Apart(new_[n], blocks[k]) {
      assert Apart(all[Origin(n, i, |cells|)], blocks[k]);
    }
  }

  /** Where element `n` of a list with one element moved from the end (index `count`) to `i` came from. */
  function Origin(n: nat, i: nat, count: nat): nat
  {
    if n < i then n else if n == i then count else n - 1
  }

  /** Rewriting freeblock headers and the page header changes no pointer and no cell. */
  lemma {:induction false} ImageSpared(d: seq<Byte>, e: seq<Byte>, u: nat, hdr: nat, off: nat, first: nat,
          cells: seq<Block>, blocks: seq<Block>, lo: nat, k: nat)
    requires Layout(d, u, hdr, first, cells, blocks) && lo <= |blocks| && k < |blocks|
    requires hdr + 8 <= off && off + 2 * |cells| <= first && Points(d, off, cells)
    requires Framed(d, e, hdr, Link(hdr, blocks, lo), blocks[k].at)
    ensures Points(e, off, cells) && Contents(e, cells) == Contents(d, cells)
  {
    var link := Link(hdr, blocks, lo);
    BlocksAboveTop(d, u, hdr, first, cells, blocks, k);
    if lo > 0 { BlocksAboveTop(d, u, hdr, first, cells, blocks, lo - 1); }
    forall i | 0 <= i < |cells|
      ensures hdr + 8 <= cells[i].at && Apart(cells[i], Block(link, 2)) && Apart(cells[i], Block(blocks[k].at, 4)) {
      assert CellIn(cells[i], Top(d, hdr), u);
      assert Apart(cells[i], blocks[k]);
      if lo > 0 { assert Apart(cells[i], blocks[lo - 1]); }
    }
    ImageKept(d, e, hdr, link, blocks[k].at, off, cells, cells);
  }

  /** Bytes `c` have been set aside for one more cell; the pointer array still lists `cells`. */
  ghost predicate Holds(d: seq<Byte>, u: nat, hdr: nat, off: nat, cells: seq<Block>, blocks: seq<Block>, c: Block)
  {
    && hdr + 8 <= off
    && Layout(d, u, hdr, off + 2 * |cells| + 2, cells + [c], blocks)
    && Points(d, off, cells)
    && Get2(d, hdr + 3) == |cells|
  }

  lemma {:induction false} TookWhole(d: seq<Byte>, e: seq<Byte>, u: nat, hdr: nat, off: nat, f: seq<Byte> -> nat,
          cells: seq<Block>, blocks: seq<Block>, k: nat, n: nat)
    requires PageOk(d, u, hdr, off, f, cells, blocks) && k < |blocks| && n >= 4
    requires off + 2 * |cells| + 2 <= Top(d, hdr)
    requires n <= blocks[k].size < n + 4 && d[hdr + 7] <= 57
    requires |e| == u && e[hdr + 7] == d[hdr + 7] + blocks[k].size - n
    requires Link(hdr, blocks, k) + 2 <= u && Get2(e, Link(hdr, blocks, k)) == Head(blocks, k + 1)
    requires forall j :: 0 <= j < u && j != hdr + 7 && !(Link(hdr, blocks, k) <= j < Link(hdr, blocks, k) + 2) ==> e[j] == d[j]
    ensures Holds(e, u, hdr, off, cells, Spliced(blocks, k, k + 1, []), Block(blocks[k].at + blocks[k].size - n, n))
    ensures Contents(e, cells) == Contents(d, cells)
  {
    var first := off + 2 * |cells|;
    Roomier(d, u, hdr, first, cells, blocks);
    RemoveSlot(d, e, u, hdr, first + 2, cells, blocks, k, n);
    ImageSpared(d, e, u, hdr, off, first, cells, blocks, k, k);
    if k > 0 { BlocksAboveTop(d, u, hdr, first, cells, blocks, k - 1); }
    GetSame(d, e, hdr + 3);
  }

  lemma {:induction false} TookTail(d: seq<Byte>, e: seq<Byte>, u: nat, hdr: nat, off: nat, f: seq<Byte> -> nat,
          cells: seq<Block>, blocks: seq<Block>, k: nat, n: nat)
    requires PageOk(d, u, hdr, off, f, cells, blocks) && k < |blocks| && n >= 4
    requires off + 2 * |cells| + 2 <= Top(d, hdr)
    requires blocks[k].size >= n + 4 && blocks[k].at + 4 <= u
    requires Keeps(d, e, 0, blocks[k].at + 2) && Keeps(d, e, blocks[k].at + 4, u - blocks[k].at - 4)
    requires Get2(e, blocks[k].at + 2) == blocks[k].size - n
    ensures Holds(e, u, hdr, off, cells, Spliced(blocks, k, k + 1, [Block(blocks[k].at, blocks[k].size - n)]),
                  Block(blocks[k].at + blocks[k].size - n, n))
    ensures Contents(e, cells) == Contents(d, cells)
  {
    var first := off + 2 * |cells|;
    Roomier(d, u, hdr, first, cells, blocks);
    ShrinkSlot(d, e, u, hdr, first + 2, cells, blocks, k, n);
    ImageSpared(d, e, u, hdr, off, first, cells, blocks, k, k);
    BlocksAboveTop(d, u, hdr, first, cells, blocks, k);
    KeepsGet(d, e, 0, blocks[k].at + 2, hdr + 3);
  }

  lemma {:induction false} TookGap(d: seq<Byte>, e: seq<Byte>, u: nat, hdr: nat, off: nat, f: seq<Byte> -> nat,
          cells: seq<Block>, blocks: seq<Block>, n: nat)
    requires PageOk(d, u, hdr, off, f, cells, blocks) && n >= 4
    requires off + 2 * |cells| + 2 + n <= Top(d, hdr)
    requires Keeps(d, e, 0, hdr + 5) && Keeps(d, e, hdr + 7, u - hdr - 7)
    requires Get2(e, hdr + 5) == Top(d, hdr) - n
    ensures Holds(e, u, hdr, off, cells, blocks, Block(Top(d, hdr) - n, n))
    ensures Contents(e, cells) == Contents(d, cells)
  {
    var first := off + 2 * |cells|;
    Roomier(d, u, hdr, first, cells, blocks);
    GapAlloc(d, e, u, hdr, first + 2, cells, blocks, n);
    forall i | 0 <= i < |cells| ensures hdr + 8 <= cells[i].at && cells[i].at + cells[i].size <= u {
      assert CellIn(cells[i], Top(d, hdr), u);
    }
    KeepsImage(d, e, hdr + 7, off, cells, cells);
    KeepsGet(d, e, 0, hdr + 5, hdr + 3);
  }

  lemma {:induction false} Roomier(d: seq<Byte>, u: nat, hdr: nat, first: nat, cells: seq<Block>, blocks: seq<Block>)
    requires Layout(d, u, hdr, first, cells, blocks) && first + 2 <= Top(d, hdr)
    ensures Layout(d, u, hdr, first + 2, cells, blocks)
  {
  }

  /** Bytes from `at` on are the same: so are the pointers and cells that lie there. */
  lemma {:induction false} KeepsImage(d: seq<Byte>, e: seq<Byte>, at: nat, off: nat, ptrs: seq<Block>, cells: seq<Block>)
    requires at <= |d| && Keeps(d, e, at, |d| - at) && at <= off && Points(d, off, ptrs)
    requires forall i :: 0 <= i < |cells| ==> at <= cells[i].at
    ensures Points(e, off, ptrs) && Contents(e, cells) == Contents(d, cells)
  {
    forall i | 0 <= i < |ptrs| ensures PointsTo(e, off, ptrs, i) {
      assert PointsTo(d, off, ptrs, i);
      KeepsGet(d, e, at, |d| - at, off + 2 * i);
    }
    forall i | 0 <= i < |cells| ensures CellBytes(e, cells[i]) == CellBytes(d, cells[i]) {
      var b := cells[i];
      if b.at + b.size <= |d| { assert d[b.at..b.at + b.size] == e[b.at..b.at + b.size]; }
    }
  }
}
