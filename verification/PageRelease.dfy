/** What freeSpace leaves behind on a whole page: the freed cell's pointer is still in the pointer
    array, everything else is as before. */
module PageRelease {
  import opened PageLayout
  import opened PageEdits
  import opened PageFree
  import opened PageImage

  /** Cell `i` has been freed; its pointer is still there. */
  ghost predicate Released(d: seq<Byte>, u: nat, hdr: nat, off: nat, cells: seq<Block>, blocks: seq<Block>, i: nat)
    requires i < |cells|
  {
    && hdr + 8 <= off
    && Layout(d, u, hdr, off + 2 * |cells|, Without(cells, i), blocks)
    && Points(d, off, cells)
    && Get2(d, hdr + 3) == |cells|
  }

  /** `p` freeblocks lie before cell `i` of a well-formed page. */
  ghost predicate Spot(d: seq<Byte>, u: nat, hdr: nat, off: nat, f: seq<Byte> -> nat, cells: seq<Block>, blocks: seq<Block>, i: nat, p: nat)
  {
    PageOk(d, u, hdr, off, f, cells, blocks) && i < |cells| && SpotFor(blocks, cells[i], p)
  }

  /** Pointers and remaining cells survive the rewriting of the chain. */
  lemma {:induction false} ReleaseSpares(d: seq<Byte>, e: seq<Byte>, u: nat, hdr: nat, off: nat, f: seq<Byte> -> nat,
          cells: seq<Block>, blocks: seq<Block>, i: nat, p: nat)
    requires Spot(d, u, hdr, off, f, cells, blocks, i, p)
    requires Framed(d, e, hdr, Link(hdr, blocks, Lo(blocks, cells[i], p)), Begin(blocks, cells[i], p))
    ensures Points(e, off, cells) && Contents(e, Without(cells, i)) == Without(Contents(d, cells), i)
  {
    var c := cells[i];
    var lo, b, first := Lo(blocks, c, p), Begin(blocks, c, p), off + 2 * |cells|;
    var link := Link(hdr, blocks, lo);
    MergeOrdered(d, u, hdr, first, cells, blocks, i, p);
    if lo > 0 { BlocksAboveTop(d, u, hdr, first, cells, blocks, lo - 1); }
    var rest := Without(cells, i);
    forall n | 0 <= n < |rest| ensures hdr + 8 <= rest[n].at && Apart(rest[n], Block(link, 2)) && Apart(rest[n], Block(b, 4)) {
      var x := if n < i then n else n + 1;
      RestApart(d, u, hdr, first, cells, blocks, i, p, x);
      RestClear(d, u, hdr, first, cells, blocks, x, lo);
      assert CellIn(c, Top(d, hdr), u);
    }
    ImageKept(d, e, hdr, link, b, off, cells, rest);
    assert Contents(d, rest) == Without(Contents(d, cells), i);
  }

  lemma {:induction false} RestClear(d: seq<Byte>, u: nat, hdr: nat, first: nat, cells: seq<Block>, blocks: seq<Block>, x: nat, lo: nat)
    requires Layout(d, u, hdr, first, cells, blocks) && x < |cells| && lo <= |blocks|
    ensures hdr + 8 <= cells[x].at && Apart(cells[x], Block(Link(hdr, blocks, lo), 2))
  {
    assert CellIn(cells[x], Top(d, hdr), u);
    if lo > 0 {
      BlocksAboveTop(d, u, hdr, first, cells, blocks, lo - 1);
      assert Apart(cells[x], blocks[lo - 1]);
    }
  }

  /** The new block is linked into the chain. */
  lemma {:induction false} ReleaseAbove(d: seq<Byte>, e: seq<Byte>, u: nat, hdr: nat, off: nat, f: seq<Byte> -> nat,
          cells: seq<Block>, blocks: seq<Block>, i: nat, p: nat)
    requires Spot(d, u, hdr, off, f, cells, blocks, i, p) && Begin(blocks, cells[i], p) > Top(d, hdr)
    requires |e| == |d| && e[hdr + 7] == d[hdr + 7] - FragDrop(blocks, cells[i], p)
    requires forall x :: 0 <= x < |d| ==>
      x == hdr + 7 || Link(hdr, blocks, p) <= x < Link(hdr, blocks, p) + 2
      || Begin(blocks, cells[i], p) <= x < Begin(blocks, cells[i], p) + 4 || e[x] == d[x]
    requires Begin(blocks, cells[i], p) + 4 <= |e|
    requires Get2(e, Begin(blocks, cells[i], p)) == Head(blocks, Hi(blocks, cells[i], p))
    requires Get2(e, Begin(blocks, cells[i], p) + 2) == End(blocks, cells[i], p) - Begin(blocks, cells[i], p)
    requires !MergePrev(blocks, cells[i], p) ==>
      Link(hdr, blocks, p) + 2 <= |e| && Get2(e, Link(hdr, blocks, p)) == cells[i].at
    ensures Released(e, u, hdr, off, cells, Freed(Top(d, hdr), blocks, cells[i], p), i)
    ensures Contents(e, Without(cells, i)) == Without(Contents(d, cells), i)
  {
    var first := off + 2 * |cells|;
    AboveWritten(d, e, u, hdr, first, cells, blocks, i, p);
    FreedLayout(d, e, u, hdr, first, cells, blocks, i, p);
    ReleaseSpares(d, e, u, hdr, off, f, cells, blocks, i, p);
    CountKept(d, e, u, hdr, first, cells, blocks, i, p);
  }

  lemma {:induction false} CountKept(d: seq<Byte>, e: seq<Byte>, u: nat, hdr: nat, first: nat, cells: seq<Block>,
          blocks: seq<Block>, i: nat, p: nat)
    requires Freeing(d, u, hdr, first, cells, blocks, i, p) && |e| == |d|
    requires forall x :: 0 <= x < |d| ==>
      x == hdr + 7 || Link(hdr, blocks, p) <= x < Link(hdr, blocks, p) + 2
      || Begin(blocks, cells[i], p) <= x < Begin(blocks, cells[i], p) + 4 || e[x] == d[x]
    ensures Get2(e, hdr + 3) == Get2(d, hdr + 3) && Top(e, hdr) == Top(d, hdr)
    ensures p > 0 ==> Get2(e, hdr + 1) == Get2(d, hdr + 1)
  {
    MergeOrdered(d, u, hdr, first, cells, blocks, i, p);
    if p > 0 { BlocksAboveTop(d, u, hdr, first, cells, blocks, p - 1); }
    GetSame(d, e, hdr + 3);
    GetSame(d, e, hdr + 5);
    if p > 0 { GetSame(d, e, hdr + 1); }
  }

  lemma {:induction false} AboveWritten(d: seq<Byte>, e: seq<Byte>, u: nat, hdr: nat, first: nat, cells: seq<Block>,
          blocks: seq<Block>, i: nat, p: nat)
    requires Freeing(d, u, hdr, first, cells, blocks, i, p) && Begin(blocks, cells[i], p) > Top(d, hdr)
    requires |e| == |d|
    requires forall x :: 0 <= x < |d| ==>
      x == hdr + 7 || Link(hdr, blocks, p) <= x < Link(hdr, blocks, p) + 2
      || Begin(blocks, cells[i], p) <= x < Begin(blocks, cells[i], p) + 4 || e[x] == d[x]
    requires Begin(blocks, cells[i], p) + 4 <= |e|
    requires Get2(e, Begin(blocks, cells[i], p)) == Head(blocks, Hi(blocks, cells[i], p))
    requires Get2(e, Begin(blocks, cells[i], p) + 2) == End(blocks, cells[i], p) - Begin(blocks, cells[i], p)
    requires !MergePrev(blocks, cells[i], p) ==>
      Link(hdr, blocks, p) + 2 <= |e| && Get2(e, Link(hdr, blocks, p)) == cells[i].at
    ensures Framed(d, e, hdr, Link(hdr, blocks, Lo(blocks, cells[i], p)), Begin(blocks, cells[i], p))
    ensures Written(e, Top(d, hdr), hdr, blocks, cells[i], p)
    ensures Lo(blocks, cells[i], p) > 0 ==> Get2(e, hdr + 1) == Get2(d, hdr + 1)
  {
    var c := cells[i];
    CountKept(d, e, u, hdr, first, cells, blocks, i, p);
    forall x | 0 <= x < |d| ensures Touched(hdr, Link(hdr, blocks, Lo(blocks, c, p)), Begin(blocks, c, p), x) || e[x] == d[x] {}
    MergeClear(d, u, hdr, first, cells, blocks, i, p);
    if MergePrev(blocks, c, p) {
      LinkHeld(d, u, hdr, first, cells, blocks, p - 1);
      BlocksAboveTop(d, u, hdr, first, cells, blocks, p - 1);
      GetSame(d, e, Link(hdr, blocks, p - 1));
    }
  }

  lemma {:induction false} LinkHeld(d: seq<Byte>, u: nat, hdr: nat, first: nat, cells: seq<Block>, blocks: seq<Block>, k: nat)
    requires Layout(d, u, hdr, first, cells, blocks) && k < |blocks|
    ensures Link(hdr, blocks, k) + 2 <= |d| && Get2(d, Link(hdr, blocks, k)) == blocks[k].at
    ensures k == 0 || hdr + 8 <= Link(hdr, blocks, k)
    ensures Link(hdr, blocks, k) + 4 <= blocks[k].at
  {
    BlocksAboveTop(d, u, hdr, first, cells, blocks, k);
    if k > 0 {
      BlocksAboveTop(d, u, hdr, first, cells, blocks, k - 1);
      assert FreeAt(d, u, blocks, k - 1);
    }
  }

  /** The content area shrinks instead. */
  lemma {:induction false} ReleaseTop(d: seq<Byte>, e: seq<Byte>, u: nat, hdr: nat, off: nat, f: seq<Byte> -> nat,
          cells: seq<Block>, blocks: seq<Block>, i: nat, p: nat)
    requires Spot(d, u, hdr, off, f, cells, blocks, i, p) && Begin(blocks, cells[i], p) <= Top(d, hdr)
    requires |e| == |d| && e[hdr + 7] == d[hdr + 7] - FragDrop(blocks, cells[i], p)
    requires forall x :: 0 <= x < |d| ==>
      hdr + 1 <= x < hdr + 3 || hdr + 5 <= x < hdr + 8
      || Begin(blocks, cells[i], p) <= x < Begin(blocks, cells[i], p) + 4 || e[x] == d[x]
    requires Get2(e, hdr + 1) == Head(blocks, Hi(blocks, cells[i], p))
    requires Get2(e, hdr + 5) == End(blocks, cells[i], p) % 0x1_0000
    ensures Released(e, u, hdr, off, cells, Freed(Top(d, hdr), blocks, cells[i], p), i)
    ensures Contents(e, Without(cells, i)) == Without(Contents(d, cells), i)
  {
    var first, c := off + 2 * |cells|, cells[i];
    AtTop(d, u, hdr, first, cells, blocks, i, p);
    MergeOrdered(d, u, hdr, first, cells, blocks, i, p);
    TopWritten(d, e, hdr, blocks, c, p);
    FreedLayout(d, e, u, hdr, first, cells, blocks, i, p);
    ReleaseSpares(d, e, u, hdr, off, f, cells, blocks, i, p);
    GetSame(d, e, hdr + 3);
  }

  lemma {:induction false} TopWritten(d: seq<Byte>, e: seq<Byte>, hdr: nat, blocks: seq<Block>, c: Block, p: nat)
    requires |e| == |d| && hdr + 8 <= |d| <= 0x1_0000 && p == 0
    requires forall x :: 0 <= x < |d| ==>
      hdr + 1 <= x < hdr + 3 || hdr + 5 <= x < hdr + 8 || c.at <= x < c.at + 4 || e[x] == d[x]
    requires Get2(e, hdr + 1) == Head(blocks, Hi(blocks, c, p))
    requires 0 < End(blocks, c, p) <= |d| && Get2(e, hdr + 5) == End(blocks, c, p) % 0x1_0000
    ensures Framed(d, e, hdr, hdr + 1, c.at) && Get2(e, hdr + 1) == Head(blocks, Hi(blocks, c, p)) && Top(e, hdr) == End(blocks, c, p)
  {
    hide Get2, Head, End, Hi;
    forall x | 0 <= x < |d| ensures Touched(hdr, hdr + 1, c.at, x) || e[x] == d[x] {}
  }
}
