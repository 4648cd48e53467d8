/** The elementary changes the page allocator makes (pageFindSlot, allocateSpace and freeSpace in
    btree.c), each keeping the page layout. */
module PageEdits {
  import opened PageLayout

  /** `e` has the bytes of `d` in the given interval. */
  ghost predicate Keeps(d: seq<Byte>, e: seq<Byte>, at: nat, n: nat)
  {
    |d| == |e| && at + n <= |d| && forall j :: at <= j < at + n ==> e[j] == d[j]
  }

  /** Before the pointer array, nothing has changed but the seven header bytes the allocator keeps: the bytes
      before the header, on page 1, the flags, and the right child are as they were. */
  ghost predicate TypeKept(d: seq<Byte>, e: seq<Byte>, hdr: nat, off: nat)
  {
    |d| == |e| && hdr + 8 <= off <= |d| && forall j :: 0 <= j < off && !(hdr < j < hdr + 8) ==> e[j] == d[j]
  }

  lemma {:induction false} TypeLow(d: seq<Byte>, e: seq<Byte>, hdr: nat, off: nat, n: nat)
    requires Keeps(d, e, 0, n) && hdr + 8 <= off <= n
    ensures TypeKept(d, e, hdr, off)
  {
  }

  /** Two bytes written in the allocator's part of the header, or past it. */
  lemma {:induction false} TypePut(d: seq<Byte>, e: seq<Byte>, hdr: nat, off: nat, i: nat)
    requires i + 2 <= |d| && Keeps(d, e, 0, i) && Keeps(d, e, i + 2, |d| - i - 2)
    requires hdr + 8 <= off <= |d| && ((hdr < i && i + 2 <= hdr + 8) || off <= i)
    ensures TypeKept(d, e, hdr, off)
  {
  }

  lemma {:induction false} KeepsGet(d: seq<Byte>, e: seq<Byte>, at: nat, n: nat, i: nat)
    requires Keeps(d, e, at, n) && at <= i && i + 2 <= at + n
    ensures Get2(e, i) == Get2(d, i)
  {
    GetSame(d, e, i);
  }

  /** The address of the link to freeblock `k`: in the header or in the freeblock before it. */
  function Link(hdr: nat, blocks: seq<Block>, k: nat): nat
    requires k <= |blocks|
  {
    if k == 0 then hdr + 1 else blocks[k - 1].at
  }

  // ------------------------------------------------------------------ rewriting the chain

  /** The chain with blocks `lo .. hi - 1` replaced by `mid`. */
  function Spliced(blocks: seq<Block>, lo: nat, hi: nat, mid: seq<Block>): (r: seq<Block>)
    requires lo <= hi <= |blocks|
    ensures |r| == lo + |mid| + (|blocks| - hi)
    ensures forall m :: 0 <= m < |r| ==>
      r[m] == if m < lo then blocks[m] else if m < lo + |mid| then mid[m - lo] else blocks[m - lo - |mid| + hi]
  {
    blocks[..lo] + mid + blocks[hi..]
  }

  /** Block `j` is outside the replaced part; its size and, unless it is the one whose link is
      rewritten, its link are the same in `e`. */
  ghost predicate Undisturbed(d: seq<Byte>, e: seq<Byte>, blocks: seq<Block>, lo: nat, j: nat)
    requires j < |blocks|
  {
    && blocks[j].at + 4 <= |d| && |d| == |e|
    && Get2(e, blocks[j].at + 2) == Get2(d, blocks[j].at + 2)
    && (j + 1 != lo ==> Get2(e, blocks[j].at) == Get2(d, blocks[j].at))
  }

  /** A new block that fits between its neighbours and is written down in `e`. */
  ghost predicate Fitted(e: seq<Byte>, blocks: seq<Block>, lo: nat, hi: nat, b: Block)
    requires lo <= hi <= |blocks|
  {
    && 4 <= b.size && 0 < b.at && b.at + b.size <= |e|
    && (hi < |blocks| ==> b.at + b.size + 4 <= blocks[hi].at)
    && (lo > 0 ==> blocks[lo - 1].at + blocks[lo - 1].size + 4 <= b.at)
    && Get2(e, b.at) == Head(blocks, hi) && Get2(e, b.at + 2) == b.size
  }

  lemma {:induction false} Splice(d: seq<Byte>, e: seq<Byte>, u: nat, hdr: nat, blocks: seq<Block>, lo: nat, hi: nat, mid: seq<Block>)
    requires hdr + 8 <= |d| == |e| == u && Chain(d, u, hdr, blocks) && lo <= hi <= |blocks| && |mid| <= 1
    requires forall j :: 0 <= j < |blocks| && (j < lo || hi <= j) ==> Undisturbed(d, e, blocks, lo, j)
    requires Link(hdr, blocks, lo) + 2 <= u
    requires Get2(e, Link(hdr, blocks, lo)) == if mid != [] then mid[0].at else Head(blocks, hi)
    requires lo > 0 ==> Get2(e, hdr + 1) == Get2(d, hdr + 1)
    requires mid != [] ==> Fitted(e, blocks, lo, hi, mid[0])
    ensures Chain(e, u, hdr, Spliced(blocks, lo, hi, mid))
  {
    var r := Spliced(blocks, lo, hi, mid);
    forall m | 0 <= m < |r| ensures FreeAt(e, u, r, m) {
      if lo <= m < lo + |mid| {
        assert r[m] == mid[0] && Fitted(e, blocks, lo, hi, mid[0]);
      } else {
        SpliceKept(d, e, u, hdr, blocks, lo, hi, mid, m);
      }
    }
  }

  lemma {:induction false} SpliceKept(d: seq<Byte>, e: seq<Byte>, u: nat, hdr: nat, blocks: seq<Block>, lo: nat,
          hi: nat, mid: seq<Block>, m: nat)
    requires hdr + 8 <= |d| == |e| == u && Chain(d, u, hdr, blocks) && lo <= hi <= |blocks| && |mid| <= 1
    requires m < |Spliced(blocks, lo, hi, mid)| && !(lo <= m < lo + |mid|)
    requires var j := if m < lo then m else m - lo - |mid| + hi; Undisturbed(d, e, blocks, lo, j)
    requires Link(hdr, blocks, lo) + 2 <= u
    requires Get2(e, Link(hdr, blocks, lo)) == if mid != [] then mid[0].at else Head(blocks, hi)
    requires mid != [] ==> Fitted(e, blocks, lo, hi, mid[0])
    ensures FreeAt(e, u, Spliced(blocks, lo, hi, mid), m)
  {
    var j := if m < lo then m else m - lo - |mid| + hi;
    assert FreeAt(d, u, blocks, j);
    if m + 1 == lo && mid == [] && hi < |blocks| { ChainAscends(d, u, hdr, blocks, j, hi); }
  }

  // ------------------------------------------------------------------ separation

  lemma {:induction false} BlocksAboveTop(d: seq<Byte>, u: nat, hdr: nat, first: nat, cells: seq<Block>, blocks: seq<Block>, k: nat)
    requires Layout(d, u, hdr, first, cells, blocks) && k < |blocks|
    ensures Top(d, hdr) < blocks[k].at && 4 <= blocks[k].size && blocks[k].at + blocks[k].size <= u
    ensures forall j :: 0 <= j < k ==> blocks[j].at + blocks[j].size + 4 <= blocks[k].at
    ensures forall j :: k < j < |blocks| ==> blocks[k].at + blocks[k].size + 4 <= blocks[j].at
  {
    assert FreeAt(d, u, blocks, k);
    if k > 0 { ChainAscends(d, u, hdr, blocks, 0, k); }
    forall j | 0 <= j < k ensures blocks[j].at + blocks[j].size + 4 <= blocks[k].at {
      ChainAscends(d, u, hdr, blocks, j, k);
    }
    forall j | k < j < |blocks| ensures blocks[k].at + blocks[k].size + 4 <= blocks[j].at {
      ChainAscends(d, u, hdr, blocks, k, j);
    }
  }

  /** One more cell, apart from the others and from the new chain. */
  lemma {:induction false} CellAdded(cells: seq<Block>, blocks: seq<Block>, c: Block)
    requires AllApart(cells)
    requires forall i :: 0 <= i < |cells| ==> Apart(cells[i], c)
    requires forall k :: 0 <= k < |blocks| ==> Apart(c, blocks[k]) && forall i :: 0 <= i < |cells| ==> Apart(cells[i], blocks[k])
    ensures CellsApart(cells + [c], blocks)
  {
    var all := cells + [c];
    forall i, j | 0 <= i < j < |all| ensures Apart(all[i], all[j]) {
      if j < |cells| { assert Apart(cells[i], cells[j]); }
    }
    forall i, k | 0 <= i < |all| && 0 <= k < |blocks| ensures Apart(all[i], blocks[k]) {
      if i < |cells| { assert Apart(cells[i], blocks[k]); }
    }
  }

  lemma {:induction false} SplicedTotal(blocks: seq<Block>, lo: nat, hi: nat, mid: seq<Block>)
    requires lo <= hi <= |blocks| && |mid| <= 1
    ensures Total(Spliced(blocks, lo, hi, mid)) == Total(blocks) - Total(blocks[lo..hi]) + (if mid == [] then 0 else mid[0].size)
  {
    assert blocks == blocks[..lo] + (blocks[lo..hi] + blocks[hi..]);
    TotalConcat(blocks[..lo], blocks[lo..hi] + blocks[hi..]);
    TotalConcat(blocks[lo..hi], blocks[hi..]);
    TotalConcat(blocks[..lo] + mid, blocks[hi..]);
    TotalConcat(blocks[..lo], mid);
    if mid != [] { assert mid == [mid[0]]; TotalOne(mid[0]); }
  }

  // ------------------------------------------------------------------ allocation from the gap

  /** allocateSpace's last resort: lower the content area by `n` bytes. */
  lemma {:induction false} GapAlloc(d: seq<Byte>, e: seq<Byte>, u: nat, hdr: nat, first: nat, cells: seq<Block>, blocks: seq<Block>, n: nat)
    requires Layout(d, u, hdr, first, cells, blocks) && n >= 4
    requires first + n <= Top(d, hdr)
    requires Keeps(d, e, 0, hdr + 5) && Keeps(d, e, hdr + 7, u - hdr - 7)
    requires Get2(e, hdr + 5) == Top(d, hdr) - n
    ensures Layout(e, u, hdr, first, cells + [Block(Top(d, hdr) - n, n)], blocks)
  {
    var c := Block(Top(d, hdr) - n, n);
    KeepsGet(d, e, 0, hdr + 5, hdr + 1);
    forall k | 0 <= k < |blocks| ensures FreeAt(e, u, blocks, k) && Apart(c, blocks[k]) {
      assert FreeAt(d, u, blocks, k);
      BlocksAboveTop(d, u, hdr, first, cells, blocks, k);
      KeepsGet(d, e, hdr + 7, u - hdr - 7, blocks[k].at);
      KeepsGet(d, e, hdr + 7, u - hdr - 7, blocks[k].at + 2);
    }
    forall i | 0 <= i < |cells| ensures CellIn(cells[i], c.at, u) && Apart(cells[i], c) {
      assert CellIn(cells[i], Top(d, hdr), u);
    }
    CellAdded(cells, blocks, c);
    TotalConcat(cells, [c]);
    TotalOne(c);
  }

  // ------------------------------------------------------------------ allocation from a freeblock

  /** Block `k` shrinks to `mid` (or leaves the chain) and its last `n` bytes become a cell. */
  lemma {:induction false} SlotApart(d: seq<Byte>, u: nat, hdr: nat, first: nat, cells: seq<Block>,
          blocks: seq<Block>, k: nat, n: nat, mid: seq<Block>)
    requires Layout(d, u, hdr, first, cells, blocks) && k < |blocks| && 4 <= n <= blocks[k].size
    requires mid == [] || mid == [Block(blocks[k].at, blocks[k].size - n)]
    ensures var c := Block(blocks[k].at + blocks[k].size - n, n);
      && CellIn(c, Top(d, hdr), u)
      && CellsApart(cells + [c], Spliced(blocks, k, k + 1, mid))
  {
    var c := Block(blocks[k].at + blocks[k].size - n, n);
    var r := Spliced(blocks, k, k + 1, mid);
    BlocksAboveTop(d, u, hdr, first, cells, blocks, k);
    forall i | 0 <= i < |cells| ensures Apart(cells[i], c) { assert Apart(cells[i], blocks[k]); }
    forall m | 0 <= m < |r| ensures Apart(c, r[m]) && forall i :: 0 <= i < |cells| ==> Apart(cells[i], r[m]) {
      if k <= m < k + |mid| {
        forall i | 0 <= i < |cells| ensures Apart(cells[i], r[m]) { assert Apart(cells[i], blocks[k]); }
      } else {
        var j := if m < k then m else m - |mid| + 1;
        assert r[m] == blocks[j];
        forall i | 0 <= i < |cells| ensures Apart(cells[i], r[m]) { assert Apart(cells[i], blocks[j]); }
      }
    }
    CellAdded(cells, r, c);
  }

  lemma {:induction false} SlotTotals(cells: seq<Block>, blocks: seq<Block>, k: nat, c: Block, mid: seq<Block>)
    requires k < |blocks| && |mid| <= 1
    ensures Total(cells + [c]) == Total(cells) + c.size
    ensures Total(Spliced(blocks, k, k + 1, mid)) == Total(blocks) - blocks[k].size + (if mid == [] then 0 else mid[0].size)
  {
    TotalConcat(cells, [c]);
    TotalOne(c);
    SplicedTotal(blocks, k, k + 1, mid);
    assert blocks[k..k + 1] == [blocks[k]];
    TotalOne(blocks[k]);
  }

  /** `e` differs from `d` only in the header, in the link at `link` and in the freeblock header at
      `at`. */
  ghost predicate Framed(d: seq<Byte>, e: seq<Byte>, hdr: nat, link: nat, at: nat)
  {
    |d| == |e| && forall x :: 0 <= x < |d| ==> Touched(hdr, link, at, x) || e[x] == d[x]
  }

  ghost predicate Touched(hdr: nat, link: nat, at: nat, x: nat)
  {
    hdr + 1 <= x < hdr + 8 || link <= x < link + 2 || at <= x < at + 4
  }

  lemma {:induction false} FramedGet(d: seq<Byte>, e: seq<Byte>, hdr: nat, link: nat, at: nat, i: nat)
    requires Framed(d, e, hdr, link, at) && hdr + 8 <= i && i + 2 <= |d|
    requires i + 2 <= link || link + 2 <= i
    requires i + 2 <= at || at + 4 <= i
    ensures Get2(e, i) == Get2(d, i)
  {
    assert !Touched(hdr, link, at, i) && !Touched(hdr, link, at, i + 1);
    GetSame(d, e, i);
  }

  /** A write confined to the link before `lo` and to bytes outside the other blocks. */
  lemma {:induction false} FramedBlock(d: seq<Byte>, e: seq<Byte>, u: nat, hdr: nat, first: nat, cells: seq<Block>,
          blocks: seq<Block>, lo: nat, at: nat, j: nat)
    requires Layout(d, u, hdr, first, cells, blocks) && lo <= |blocks| && j < |blocks|
    requires Framed(d, e, hdr, Link(hdr, blocks, lo), at)
    requires blocks[j].at + 4 <= at || at + 4 <= blocks[j].at
    ensures Undisturbed(d, e, blocks, lo, j)
  {
    BlocksAboveTop(d, u, hdr, first, cells, blocks, j);
    if lo > 0 { BlocksAboveTop(d, u, hdr, first, cells, blocks, lo - 1); }
    var link := Link(hdr, blocks, lo);
    FramedGet(d, e, hdr, link, at, blocks[j].at + 2);
    if j + 1 != lo { FramedGet(d, e, hdr, link, at, blocks[j].at); }
  }

  lemma {:induction false} ChainSpliced(d: seq<Byte>, e: seq<Byte>, u: nat, hdr: nat, first: nat, cells: seq<Block>,
          blocks: seq<Block>, lo: nat, hi: nat, mid: seq<Block>, at: nat)
    requires Layout(d, u, hdr, first, cells, blocks) && lo <= hi <= |blocks| && |mid| <= 1
    requires Framed(d, e, hdr, Link(hdr, blocks, lo), at)
    requires forall j :: 0 <= j < |blocks| && (j < lo || hi <= j) ==> blocks[j].at + 4 <= at || at + 4 <= blocks[j].at
    requires Link(hdr, blocks, lo) + 2 <= u
    requires Get2(e, Link(hdr, blocks, lo)) == if mid != [] then mid[0].at else Head(blocks, hi)
    requires lo > 0 ==> Get2(e, hdr + 1) == Get2(d, hdr + 1)
    requires mid != [] ==> Fitted(e, blocks, lo, hi, mid[0])
    ensures Chain(e, u, hdr, Spliced(blocks, lo, hi, mid))
  {
    forall j | 0 <= j < |blocks| && (j < lo || hi <= j) ensures Undisturbed(d, e, blocks, lo, j) {
      FramedBlock(d, e, u, hdr, first, cells, blocks, lo, at, j);
    }
    Splice(d, e, u, hdr, blocks, lo, hi, mid);
  }

  /** A freeblock with room to spare gives up its last `n` bytes. */
  lemma {:induction false} ShrinkSlot(d: seq<Byte>, e: seq<Byte>, u: nat, hdr: nat, first: nat, cells: seq<Block>,
          blocks: seq<Block>, k: nat, n: nat)
    requires Layout(d, u, hdr, first, cells, blocks) && k < |blocks| && n >= 4 && blocks[k].size >= n + 4
    requires blocks[k].at + 4 <= u
    requires Keeps(d, e, 0, blocks[k].at + 2) && Keeps(d, e, blocks[k].at + 4, u - blocks[k].at - 4)
    requires Get2(e, blocks[k].at + 2) == blocks[k].size - n
    ensures Layout(e, u, hdr, first, cells + [Block(blocks[k].at + blocks[k].size - n, n)],
                   Spliced(blocks, k, k + 1, [Block(blocks[k].at, blocks[k].size - n)]))
  {
    SlotApart(d, u, hdr, first, cells, blocks, k, n, [Block(blocks[k].at, blocks[k].size - n)]);
    SlotTotals(cells, blocks, k, Block(blocks[k].at + blocks[k].size - n, n), [Block(blocks[k].at, blocks[k].size - n)]);
    ShrinkChain(d, e, u, hdr, first, cells, blocks, k, n);
  }

  lemma {:induction false} ShrinkChain(d: seq<Byte>, e: seq<Byte>, u: nat, hdr: nat, first: nat, cells: seq<Block>,
          blocks: seq<Block>, k: nat, n: nat)
    requires Layout(d, u, hdr, first, cells, blocks) && k < |blocks| && n >= 4 && blocks[k].size >= n + 4
    requires blocks[k].at + 4 <= u
    requires Keeps(d, e, 0, blocks[k].at + 2) && Keeps(d, e, blocks[k].at + 4, u - blocks[k].at - 4)
    requires Get2(e, blocks[k].at + 2) == blocks[k].size - n
    ensures Chain(e, u, hdr, Spliced(blocks, k, k + 1, [Block(blocks[k].at, blocks[k].size - n)]))
    ensures Top(e, hdr) == Top(d, hdr) && e[hdr + 7] == d[hdr + 7] && Top(d, hdr) < blocks[0].at
  {
    var at := blocks[k].at;
    BlocksAboveTop(d, u, hdr, first, cells, blocks, k);
    KeepsGet(d, e, 0, at + 2, hdr + 5);
    KeepsGet(d, e, 0, at + 2, hdr + 1);
    KeepsGet(d, e, 0, at + 2, at);
    assert FreeAt(d, u, blocks, k);
    if k > 0 {
      BlocksAboveTop(d, u, hdr, first, cells, blocks, k - 1);
      assert FreeAt(d, u, blocks, k - 1);
      KeepsGet(d, e, 0, at + 2, blocks[k - 1].at);
    }
    ChainSpliced(d, e, u, hdr, first, cells, blocks, k, k + 1, [Block(at, blocks[k].size - n)], at);
  }

  /** A freeblock that fits closely leaves the chain; up to three left-over bytes become fragments. */
  lemma {:induction false} RemoveSlot(d: seq<Byte>, e: seq<Byte>, u: nat, hdr: nat, first: nat, cells: seq<Block>,
          blocks: seq<Block>, k: nat, n: nat)
    requires Layout(d, u, hdr, first, cells, blocks) && k < |blocks| && n >= 4
    requires n <= blocks[k].size < n + 4 && d[hdr + 7] <= 57
    requires |e| == u && e[hdr + 7] == d[hdr + 7] + blocks[k].size - n
    requires Link(hdr, blocks, k) + 2 <= u && Get2(e, Link(hdr, blocks, k)) == Head(blocks, k + 1)
    requires forall j :: 0 <= j < u && j != hdr + 7 && !(Link(hdr, blocks, k) <= j < Link(hdr, blocks, k) + 2) ==> e[j] == d[j]
    ensures Layout(e, u, hdr, first, cells + [Block(blocks[k].at + blocks[k].size - n, n)], Spliced(blocks, k, k + 1, []))
  {
    SlotApart(d, u, hdr, first, cells, blocks, k, n, []);
    SlotTotals(cells, blocks, k, Block(blocks[k].at + blocks[k].size - n, n), []);
    RemoveChain(d, e, u, hdr, first, cells, blocks, k);
  }

  lemma {:induction false} RemoveChain(d: seq<Byte>, e: seq<Byte>, u: nat, hdr: nat, first: nat, cells: seq<Block>,
          blocks: seq<Block>, k: nat)
    requires Layout(d, u, hdr, first, cells, blocks) && k < |blocks| && |e| == u
    requires Link(hdr, blocks, k) + 2 <= u && Get2(e, Link(hdr, blocks, k)) == Head(blocks, k + 1)
    requires forall j :: 0 <= j < u && j != hdr + 7 && !(Link(hdr, blocks, k) <= j < Link(hdr, blocks, k) + 2) ==> e[j] == d[j]
    ensures Chain(e, u, hdr, Spliced(blocks, k, k + 1, []))
    ensures Top(e, hdr) == Top(d, hdr)
    ensures Spliced(blocks, k, k + 1, []) != [] ==> Top(d, hdr) < Spliced(blocks, k, k + 1, [])[0].at
  {
    if k > 0 { BlocksAboveTop(d, u, hdr, first, cells, blocks, k - 1); }
    KeepsGet(d, e, hdr + 5, 2, hdr + 5);
    if k > 0 { KeepsGet(d, e, hdr + 1, 2, hdr + 1); }
    forall j | 0 <= j < |blocks| ensures 4 <= blocks[j].at { BlocksAboveTop(d, u, hdr, first, cells, blocks, j); }
    ChainSpliced(d, e, u, hdr, first, cells, blocks, k, k + 1, [], 0);
    if k == 0 && |blocks| > 1 { BlocksAboveTop(d, u, hdr, first, cells, blocks, 1); }
  }
}
