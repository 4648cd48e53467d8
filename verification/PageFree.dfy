/** Returning a cell's bytes to the page (freeSpace in btree.c:1671-1763): the new freeblock is merged
    with a neighbour at most three bytes away, and extends the gap when it starts the content area. */
module PageFree {
  import opened PageLayout
  import opened PageEdits

  /** `p` freeblocks lie before cell `c`. */
  ghost predicate SpotFor(blocks: seq<Block>, c: Block, p: nat)
  {
    && p <= |blocks|
    && (forall j :: 0 <= j < p ==> blocks[j].at < c.at)
    && (forall j :: p <= j < |blocks| ==> c.at <= blocks[j].at)
  }

  predicate MergeNext(blocks: seq<Block>, c: Block, p: nat)
  {
    p < |blocks| && blocks[p].at <= c.at + c.size + 3
  }

  predicate MergePrev(blocks: seq<Block>, c: Block, p: nat)
  {
    0 < p <= |blocks| && c.at <= blocks[p - 1].at + blocks[p - 1].size + 3
  }

  function End(blocks: seq<Block>, c: Block, p: nat): nat
  {
    if MergeNext(blocks, c, p) then blocks[p].at + blocks[p].size else c.at + c.size
  }

  function Begin(blocks: seq<Block>, c: Block, p: nat): nat
  {
    if MergePrev(blocks, c, p) then blocks[p - 1].at else c.at
  }

  function Lo(blocks: seq<Block>, c: Block, p: nat): int
  {
    if MergePrev(blocks, c, p) then p - 1 else p
  }

  function Hi(blocks: seq<Block>, c: Block, p: nat): int
  {
    if MergeNext(blocks, c, p) then p + 1 else p
  }

  /** Fragment bytes swallowed by the merge. */
  function FragDrop(blocks: seq<Block>, c: Block, p: nat): int
  {
    (if MergeNext(blocks, c, p) then blocks[p].at - (c.at + c.size) else 0)
    + (if MergePrev(blocks, c, p) then c.at - (blocks[p - 1].at + blocks[p - 1].size) else 0)
  }

  /** What is needed of the page and of cell `i`, freed at position `p` of the chain. */
  ghost predicate Freeing(d: seq<Byte>, u: nat, hdr: nat, first: nat, cells: seq<Block>, blocks: seq<Block>, i: nat, p: nat)
  {
    Layout(d, u, hdr, first, cells, blocks) && i < |cells| && SpotFor(blocks, cells[i], p)
  }

  /** The merged freeblock, ordered against its neighbours. */
  ghost predicate Ordered(blocks: seq<Block>, c: Block, p: nat)
    requires p <= |blocks|
  {
    var lo, hi := Lo(blocks, c, p), Hi(blocks, c, p);
    && Begin(blocks, c, p) <= c.at && c.at + c.size <= End(blocks, c, p)
    && (forall j :: 0 <= j < lo ==> blocks[j].at + blocks[j].size + 4 <= Begin(blocks, c, p))
    && (forall j :: hi <= j < |blocks| ==> End(blocks, c, p) + 4 <= blocks[j].at)
    && 0 <= FragDrop(blocks, c, p) <= 6
  }

  lemma {:induction false} MergeOrdered(d: seq<Byte>, u: nat, hdr: nat, first: nat, cells: seq<Block>, blocks: seq<Block>, i: nat, p: nat)
    requires Freeing(d, u, hdr, first, cells, blocks, i, p)
    ensures Ordered(blocks, cells[i], p)
    ensures End(blocks, cells[i], p) <= u && Top(d, hdr) <= Begin(blocks, cells[i], p)
    ensures forall j :: 0 <= j < p ==> blocks[j].at + blocks[j].size <= cells[i].at
    ensures forall j :: p <= j < |blocks| ==> cells[i].at + cells[i].size <= blocks[j].at
  {
    var c := cells[i];
    assert CellIn(c, Top(d, hdr), u);
    forall j | 0 <= j < |blocks|
      ensures Apart(c, blocks[j]) && 4 <= blocks[j].size && blocks[j].at + blocks[j].size <= u && Top(d, hdr) < blocks[j].at
      ensures j + 1 < p ==> blocks[j].at + blocks[j].size + 4 <= blocks[p - 1].at
      ensures p < j ==> blocks[p].at + blocks[p].size + 4 <= blocks[j].at
    {
      BlocksAboveTop(d, u, hdr, first, cells, blocks, j);
    }
  }

  // ------------------------------------------------------------------ fragments

  /** Blocks apart from everything else in the content area are made of fragment bytes. */
  lemma {:induction false} GapsAreFragments(d: seq<Byte>, u: nat, hdr: nat, first: nat, cells: seq<Block>,
          blocks: seq<Block>, gaps: seq<Block>)
    requires Layout(d, u, hdr, first, cells, blocks) && AllApart(gaps) && AllWithin(gaps, Top(d, hdr), u)
    requires forall g, x :: g in gaps && x in cells + blocks ==> Apart(x, g)
    ensures Total(gaps) <= d[hdr + 7]
  {
    var all := cells + blocks;
    LayoutApart(d, u, hdr, first, cells, blocks);
    var n := |all|;
    var every := all + gaps;
    forall i, j | 0 <= i < j < |every| ensures Apart(every[i], every[j]) {
      if j < n { assert Apart(all[i], all[j]); }
      else if i < n { assert all[i] in all && gaps[j - n] in gaps; }
      else { assert Apart(gaps[i - n], gaps[j - n]); }
    }
    forall i | 0 <= i < |every| ensures Top(d, hdr) <= every[i].at && every[i].at + every[i].size <= u {
      if i < n { assert every[i] == all[i]; } else { assert every[i] == gaps[i - n]; }
    }
    TotalBound(every, Top(d, hdr), u);
    TotalConcat(all, gaps);
    TotalConcat(cells, blocks);
  }

  /** The bytes between the freed cell and its neighbours in the chain. */
  ghost function Gaps(blocks: seq<Block>, c: Block, p: nat): (g: seq<Block>)
    requires p <= |blocks| && Ordered(blocks, c, p)
    requires p < |blocks| ==> c.at + c.size <= blocks[p].at
    requires p > 0 ==> blocks[p - 1].at + blocks[p - 1].size <= c.at
  {
    (if MergeNext(blocks, c, p) then [Block(c.at + c.size, blocks[p].at - (c.at + c.size))] else [])
    + (if MergePrev(blocks, c, p)
       then [Block(blocks[p - 1].at + blocks[p - 1].size, c.at - (blocks[p - 1].at + blocks[p - 1].size))] else [])
  }

  /** The merge never swallows more fragment bytes than the header counts. */
  lemma {:induction false} FragEnough(d: seq<Byte>, u: nat, hdr: nat, first: nat, cells: seq<Block>, blocks: seq<Block>, i: nat, p: nat)
    requires Freeing(d, u, hdr, first, cells, blocks, i, p)
    ensures hdr + 8 <= |d| && 0 <= FragDrop(blocks, cells[i], p) <= d[hdr + 7]
  {
    var c := cells[i];
    MergeOrdered(d, u, hdr, first, cells, blocks, i, p);
    assert hdr + 8 <= |d|;
    hide Layout;
    var gaps := Gaps(blocks, c, p);
    forall g, x | g in gaps && x in cells + blocks ensures Apart(x, g) {
      GapApart(d, u, hdr, first, cells, blocks, i, p, g, x);
    }
    GapsAreFragments(d, u, hdr, first, cells, blocks, gaps);
    GapTotal(gaps);
  }

  lemma {:induction false} GapTotal(gaps: seq<Block>)
    requires |gaps| <= 2
    ensures Total(gaps) == (if |gaps| > 0 then gaps[0].size else 0) + (if |gaps| > 1 then gaps[1].size else 0)
  {
    if |gaps| == 2 { assert gaps[1..] == [gaps[1]]; TotalOne(gaps[1]); }
    if |gaps| == 1 { assert gaps == [gaps[0]]; TotalOne(gaps[0]); }
  }

  lemma {:induction false} GapApart(d: seq<Byte>, u: nat, hdr: nat, first: nat, cells: seq<Block>, blocks: seq<Block>,
          i: nat, p: nat, g: Block, x: Block)
    requires Freeing(d, u, hdr, first, cells, blocks, i, p)
    requires Ordered(blocks, cells[i], p)
    requires p < |blocks| ==> cells[i].at + cells[i].size <= blocks[p].at
    requires p > 0 ==> blocks[p - 1].at + blocks[p - 1].size <= cells[i].at
    requires g in Gaps(blocks, cells[i], p) && x in cells + blocks
    ensures Apart(x, g)
  {
    hide Top, Total, Get2, Chain;
    var c := cells[i];
    if x in cells {
      var n :| 0 <= n < |cells| && cells[n] == x;
      assert CellIn(x, Top(d, hdr), u);
      if n != i {
        assert Apart(x, c) by { if n < i { assert Apart(cells[n], cells[i]); } else { assert Apart(cells[i], cells[n]); } }
        if p < |blocks| { assert Apart(cells[n], blocks[p]); }
        if p > 0 { assert Apart(cells[n], blocks[p - 1]); }
      }
    } else {
      var k :| 0 <= k < |blocks| && blocks[k] == x;
      BlocksAboveTop(d, u, hdr, first, cells, blocks, k);
    }
  }

  // ------------------------------------------------------------------ the page afterwards

  function Without<T>(s: seq<T>, i: nat): (r: seq<T>)
    requires i < |s|
    ensures |r| == |s| - 1
    ensures forall n :: 0 <= n < |r| ==> r[n] == s[if n < i then n else n + 1]
  {
    s[..i] + s[i + 1..]
  }

  /** The chain after the merge; nothing is added when the content area shrinks instead. */
  function Freed(top: nat, blocks: seq<Block>, c: Block, p: nat): seq<Block>
    requires p <= |blocks|
  {
    var b := Begin(blocks, c, p);
    Spliced(blocks, Lo(blocks, c, p), Hi(blocks, c, p),
            if b <= top || End(blocks, c, p) < b then [] else [Block(b, End(blocks, c, p) - b)])
  }

  /** No other cell touches the merged block. */
  lemma {:induction false} RestApart(d: seq<Byte>, u: nat, hdr: nat, first: nat, cells: seq<Block>,
          blocks: seq<Block>, i: nat, p: nat, n: nat)
    requires Freeing(d, u, hdr, first, cells, blocks, i, p) && n < |cells| && n != i
    ensures 4 <= cells[n].size
    ensures cells[n].at + cells[n].size <= Begin(blocks, cells[i], p) || End(blocks, cells[i], p) <= cells[n].at
  {
    var c, x := cells[i], cells[n];
    MergeOrdered(d, u, hdr, first, cells, blocks, i, p);
    assert CellIn(x, Top(d, hdr), u);
    assert Apart(x, c) by { if n < i { assert Apart(cells[n], cells[i]); } else { assert Apart(cells[i], cells[n]); } }
    if p < |blocks| { assert Apart(cells[n], blocks[p]); }
    if p > 0 { assert Apart(cells[n], blocks[p - 1]); }
  }

  lemma {:induction false} FreedApart(d: seq<Byte>, u: nat, hdr: nat, first: nat, cells: seq<Block>, blocks: seq<Block>, i: nat, p: nat)
    requires Freeing(d, u, hdr, first, cells, blocks, i, p)
    ensures CellsApart(Without(cells, i), Freed(Top(d, hdr), blocks, cells[i], p))
  {
    var rest, r := Without(cells, i), Freed(Top(d, hdr), blocks, cells[i], p);
    var lo, hi := Lo(blocks, cells[i], p), Hi(blocks, cells[i], p);
    forall n, m | 0 <= n < m < |rest| ensures Apart(rest[n], rest[m]) {
      assert Apart(cells[if n < i then n else n + 1], cells[if m < i then m else m + 1]);
    }
    forall n, m | 0 <= n < |rest| && 0 <= m < |r| ensures Apart(rest[n], r[m]) {
      var x := if n < i then n else n + 1;
      RestApart(d, u, hdr, first, cells, blocks, i, p, x);
      if m < lo { assert Apart(cells[x], blocks[m]); }
      else if !(m == lo && |r| == lo + 1 + |blocks| - hi) {
        var j := m - (|r| - (|blocks| - hi)) + hi;
        assert r[m] == blocks[j] && Apart(cells[x], blocks[j]);
      }
    }
  }

  lemma {:induction false} FreedTotal(d: seq<Byte>, u: nat, hdr: nat, first: nat, cells: seq<Block>, blocks: seq<Block>, i: nat, p: nat)
    requires Freeing(d, u, hdr, first, cells, blocks, i, p)
    ensures var c := cells[i];
      var b := Begin(blocks, c, p);
      Total(Without(cells, i)) + Total(Freed(Top(d, hdr), blocks, c, p))
      == Total(cells) + Total(blocks) + FragDrop(blocks, c, p) - (if b <= Top(d, hdr) then End(blocks, c, p) - b else 0)
  {
    var c := cells[i];
    MergeOrdered(d, u, hdr, first, cells, blocks, i, p);
    TotalSplit(cells, i);
    SplicedTotal(blocks, Lo(blocks, c, p), Hi(blocks, c, p),
                 if Begin(blocks, c, p) <= Top(d, hdr) then [] else [Block(Begin(blocks, c, p), End(blocks, c, p) - Begin(blocks, c, p))]);
    Swallowed(blocks, c, p);
  }

  /** The merged block is the cell, the freeblocks it absorbs and the fragment bytes between them. */
  lemma {:induction false} Swallowed(blocks: seq<Block>, c: Block, p: nat)
    requires p <= |blocks|
    ensures Total(blocks[Lo(blocks, c, p)..Hi(blocks, c, p)]) + c.size + FragDrop(blocks, c, p)
            == End(blocks, c, p) - Begin(blocks, c, p)
  {
    GapTotal(blocks[Lo(blocks, c, p)..Hi(blocks, c, p)]);
  }

  /** When the merged block starts the content area, it has no predecessor in the chain. */
  lemma {:induction false} AtTop(d: seq<Byte>, u: nat, hdr: nat, first: nat, cells: seq<Block>, blocks: seq<Block>, i: nat, p: nat)
    requires Freeing(d, u, hdr, first, cells, blocks, i, p) && Begin(blocks, cells[i], p) <= Top(d, hdr)
    ensures p == 0 && Lo(blocks, cells[i], p) == 0 && Begin(blocks, cells[i], p) == Top(d, hdr)
  {
    MergeOrdered(d, u, hdr, first, cells, blocks, i, p);
    if p > 0 { BlocksAboveTop(d, u, hdr, first, cells, blocks, p - 1); }
  }

  lemma {:induction false} FreedChainAtTop(d: seq<Byte>, e: seq<Byte>, u: nat, hdr: nat, first: nat,
          cells: seq<Block>, blocks: seq<Block>, i: nat, p: nat)
    requires Freeing(d, u, hdr, first, cells, blocks, i, p)
    requires var c := cells[i];
      && Framed(d, e, hdr, Link(hdr, blocks, Lo(blocks, c, p)), Begin(blocks, c, p))
      && Written(e, Top(d, hdr), hdr, blocks, c, p)
      && (Lo(blocks, c, p) > 0 ==> Get2(e, hdr + 1) == Get2(d, hdr + 1))
    requires Begin(blocks, cells[i], p) <= Top(d, hdr)
    ensures Chain(e, u, hdr, Freed(Top(d, hdr), blocks, cells[i], p))
  {
    MergeClear(d, u, hdr, first, cells, blocks, i, p);
    AtTop(d, u, hdr, first, cells, blocks, i, p);
    ChainSpliced(d, e, u, hdr, first, cells, blocks, 0, Hi(blocks, cells[i], p), [], Begin(blocks, cells[i], p));
  }

  lemma {:induction false} MergedFits(d: seq<Byte>, e: seq<Byte>, u: nat, hdr: nat, first: nat, cells: seq<Block>,
          blocks: seq<Block>, i: nat, p: nat)
    requires Freeing(d, u, hdr, first, cells, blocks, i, p)
    requires |d| == |e| == u && hdr + 8 <= u && Written(e, Top(d, hdr), hdr, blocks, cells[i], p)
    requires Begin(blocks, cells[i], p) > Top(d, hdr)
    ensures Begin(blocks, cells[i], p) <= End(blocks, cells[i], p)
    ensures Fitted(e, blocks, Lo(blocks, cells[i], p), Hi(blocks, cells[i], p),
                   Block(Begin(blocks, cells[i], p), End(blocks, cells[i], p) - Begin(blocks, cells[i], p)))
  {
    MergeOrdered(d, u, hdr, first, cells, blocks, i, p);
    assert CellIn(cells[i], Top(d, hdr), u);
  }

  lemma {:induction false} FreedChain(d: seq<Byte>, e: seq<Byte>, u: nat, hdr: nat, first: nat, cells: seq<Block>,
          blocks: seq<Block>, i: nat, p: nat)
    requires Freeing(d, u, hdr, first, cells, blocks, i, p)
    requires var c := cells[i];
      && Framed(d, e, hdr, Link(hdr, blocks, Lo(blocks, c, p)), Begin(blocks, c, p))
      && Written(e, Top(d, hdr), hdr, blocks, c, p)
      && (Lo(blocks, c, p) > 0 ==> Get2(e, hdr + 1) == Get2(d, hdr + 1))
    ensures Chain(e, u, hdr, Freed(Top(d, hdr), blocks, cells[i], p))
  {
    var c := cells[i];
    var b, end := Begin(blocks, c, p), End(blocks, c, p);
    if b <= Top(d, hdr) {
      FreedChainAtTop(d, e, u, hdr, first, cells, blocks, i, p);
    } else {
      MergedFits(d, e, u, hdr, first, cells, blocks, i, p);
      MergeClear(d, u, hdr, first, cells, blocks, i, p);
      ChainSpliced(d, e, u, hdr, first, cells, blocks, Lo(blocks, c, p), Hi(blocks, c, p), [Block(b, end - b)], b);
    }
  }

  /** The kept freeblocks stay clear of the header of the merged one. */
  lemma {:induction false} MergeClear(d: seq<Byte>, u: nat, hdr: nat, first: nat, cells: seq<Block>, blocks: seq<Block>, i: nat, p: nat)
    requires Freeing(d, u, hdr, first, cells, blocks, i, p)
    ensures var c := cells[i];
      forall j :: 0 <= j < |blocks| && (j < Lo(blocks, c, p) || Hi(blocks, c, p) <= j) ==>
        blocks[j].at + 4 <= Begin(blocks, c, p) || Begin(blocks, c, p) + 4 <= blocks[j].at
    ensures Link(hdr, blocks, Lo(blocks, cells[i], p)) + 2 <= u
  {
    var c := cells[i];
    var lo, hi := Lo(blocks, c, p), Hi(blocks, c, p);
    MergeOrdered(d, u, hdr, first, cells, blocks, i, p);
    assert CellIn(c, Top(d, hdr), u);
    if lo > 0 { BlocksAboveTop(d, u, hdr, first, cells, blocks, lo - 1); }
    forall j | 0 <= j < |blocks| && (j < lo || hi <= j)
      ensures blocks[j].at + 4 <= Begin(blocks, c, p) || Begin(blocks, c, p) + 4 <= blocks[j].at {
      BlocksAboveTop(d, u, hdr, first, cells, blocks, j);
    }
  }

  /** The links and sizes freeSpace writes. */
  ghost predicate Written(e: seq<Byte>, top: nat, hdr: nat, blocks: seq<Block>, c: Block, p: nat)
    requires p <= |blocks| && hdr + 8 <= |e|
  {
    var lo, hi := Lo(blocks, c, p), Hi(blocks, c, p);
    var b, end := Begin(blocks, c, p), End(blocks, c, p);
    if b <= top then Get2(e, hdr + 1) == Head(blocks, hi) && Top(e, hdr) == end
    else
      && Link(hdr, blocks, lo) + 2 <= |e| && b + 4 <= |e| && Top(e, hdr) == top
      && Get2(e, Link(hdr, blocks, lo)) == b && Get2(e, b) == Head(blocks, hi) && Get2(e, b + 2) == end - b
  }

  /** After freeSpace the remaining cells and the merged chain make up the content area. */
  lemma {:induction false} FreedLayout(d: seq<Byte>, e: seq<Byte>, u: nat, hdr: nat, first: nat, cells: seq<Block>,
          blocks: seq<Block>, i: nat, p: nat)
    requires Freeing(d, u, hdr, first, cells, blocks, i, p)
    requires var c := cells[i];
      && Framed(d, e, hdr, Link(hdr, blocks, Lo(blocks, c, p)), Begin(blocks, c, p))
      && Written(e, Top(d, hdr), hdr, blocks, c, p)
      && (Lo(blocks, c, p) > 0 ==> Get2(e, hdr + 1) == Get2(d, hdr + 1))
      && e[hdr + 7] == d[hdr + 7] - FragDrop(blocks, c, p)
    ensures Layout(e, u, hdr, first, Without(cells, i), Freed(Top(d, hdr), blocks, cells[i], p))
  {
    var c := cells[i];
    var rest, r := Without(cells, i), Freed(Top(d, hdr), blocks, c, p);
    FreedChain(d, e, u, hdr, first, cells, blocks, i, p);
    FreedApart(d, u, hdr, first, cells, blocks, i, p);
    FreedTotal(d, u, hdr, first, cells, blocks, i, p);
    FreedBounds(d, e, u, hdr, first, cells, blocks, i, p);
  }

  lemma {:induction false} FreedBounds(d: seq<Byte>, e: seq<Byte>, u: nat, hdr: nat, first: nat, cells: seq<Block>,
          blocks: seq<Block>, i: nat, p: nat)
    requires Freeing(d, u, hdr, first, cells, blocks, i, p)
    requires hdr + 8 <= |e| && Written(e, Top(d, hdr), hdr, blocks, cells[i], p)
    ensures Top(d, hdr) <= Top(e, hdr) <= u
    ensures Top(e, hdr) == if Begin(blocks, cells[i], p) <= Top(d, hdr) then End(blocks, cells[i], p) else Top(d, hdr)
    ensures Begin(blocks, cells[i], p) <= Top(d, hdr) ==> Begin(blocks, cells[i], p) == Top(d, hdr)
    ensures FragDrop(blocks, cells[i], p) >= 0
    ensures forall n :: 0 <= n < |cells| - 1 ==> CellIn(Without(cells, i)[n], Top(e, hdr), u)
    ensures var r := Freed(Top(d, hdr), blocks, cells[i], p); r != [] ==> Top(e, hdr) < r[0].at
  {
    var c := cells[i];
    var rest, r := Without(cells, i), Freed(Top(d, hdr), blocks, c, p);
    MergeOrdered(d, u, hdr, first, cells, blocks, i, p);
    if Begin(blocks, c, p) <= Top(d, hdr) { AtTop(d, u, hdr, first, cells, blocks, i, p); }
    forall n | 0 <= n < |rest| ensures CellIn(rest[n], Top(e, hdr), u) {
      var x := if n < i then n else n + 1;
      assert CellIn(cells[x], Top(d, hdr), u);
      RestApart(d, u, hdr, first, cells, blocks, i, p, x);
    }
    if r != [] && Lo(blocks, c, p) > 0 { BlocksAboveTop(d, u, hdr, first, cells, blocks, 0); }
    if Begin(blocks, c, p) > Top(d, hdr) { assert r != []; }
  }
}
