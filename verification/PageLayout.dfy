/** The layout of a b-tree page (btreeInt.h): header, cell pointer array, gap, and the content area
    with its cells, freeblocks and fragments. */
module PageLayout {
  import Counting

  type Byte = b: int | 0 <= b < 256

  /** `size` bytes of the page starting at `at`: a cell or a freeblock. */
  datatype Block = Block(at: nat, size: nat)

  // ------------------------------------------------------------------ two-byte integers

  /** Big-endian two-byte integer. */
  function Get2(d: seq<Byte>, i: nat): (v: nat)
    requires i + 2 <= |d|
    ensures v < 0x1_0000
  {
    var hi: int, lo: int := d[i], d[i + 1];
    256 * hi + lo
  }

  /** Get2 depends on its two bytes only. */
  lemma {:induction false} GetSame(d: seq<Byte>, e: seq<Byte>, i: nat)
    requires i + 2 <= |d| && i + 2 <= |e| && d[i] == e[i] && d[i + 1] == e[i + 1]
    ensures Get2(d, i) == Get2(e, i)
  {
  }

  /** Start of the cell content area; a stored zero means 65536. */
  function Top(d: seq<Byte>, hdr: nat): (t: nat)
    requires hdr + 8 <= |d|
    ensures 0 < t <= 0x1_0000
  {
    if Get2(d, hdr + 5) == 0 then 0x1_0000 else Get2(d, hdr + 5)
  }

  // ------------------------------------------------------------------ blocks

  ghost predicate Apart(a: Block, b: Block)
  {
    a.at + a.size <= b.at || b.at + b.size <= a.at
  }

  function Total(bs: seq<Block>): nat
  {
    if bs == [] then 0 else bs[0].size + Total(bs[1..])
  }

  lemma {:induction false} TotalConcat(a: seq<Block>, b: seq<Block>)
    ensures Total(a + b) == Total(a) + Total(b)
  {
    if a == [] {
      assert a + b == b;
    } else {
      assert (a + b)[1..] == a[1..] + b;
      TotalConcat(a[1..], b);
    }
  }

  lemma {:induction false} TotalOne(b: Block)
    ensures Total([b]) == b.size
  {
    assert [b][1..] == [];
  }

  lemma {:induction false} TotalSplit(bs: seq<Block>, i: nat)
    requires i < |bs|
    ensures Total(bs) == Total(bs[..i]) + bs[i].size + Total(bs[i + 1..])
    ensures Total(bs[..i] + bs[i + 1..]) == Total(bs) - bs[i].size
  {
    assert bs == bs[..i] + ([bs[i]] + bs[i + 1..]);
    TotalConcat(bs[..i], [bs[i]] + bs[i + 1..]);
    TotalConcat([bs[i]], bs[i + 1..]);
    TotalOne(bs[i]);
    TotalConcat(bs[..i], bs[i + 1..]);
  }

  /** The offsets from `a` to `b - 1`. */
  ghost function Range(a: nat, b: nat): set<nat>
  {
    if a < b then Range(a, b - 1) + {b - 1} else {}
  }

  lemma {:induction false} RangeSize(a: nat, b: nat)
    requires a <= b
    ensures |Range(a, b)| == b - a
    ensures forall x :: x in Range(a, b) <==> a <= x < b
  {
    if a < b { RangeSize(a, b - 1); }
  }

  /** The offsets a family of blocks covers. */
  ghost function Covered(bs: seq<Block>): set<nat>
  {
    if bs == [] then {} else Range(bs[0].at, bs[0].at + bs[0].size) + Covered(bs[1..])
  }

  ghost predicate AllApart(bs: seq<Block>)
  {
    forall i, j :: 0 <= i < j < |bs| ==> Apart(bs[i], bs[j])
  }

  ghost predicate AllWithin(bs: seq<Block>, lo: nat, hi: nat)
  {
    forall i :: 0 <= i < |bs| ==> lo <= bs[i].at && bs[i].at + bs[i].size <= hi
  }

  lemma {:induction false} CoveredBy(bs: seq<Block>, x: nat)
    ensures x in Covered(bs) <==> exists i :: 0 <= i < |bs| && bs[i].at <= x < bs[i].at + bs[i].size
  {
    if bs != [] {
      RangeSize(bs[0].at, bs[0].at + bs[0].size);
      CoveredBy(bs[1..], x);
      if x in Covered(bs[1..]) {
        var i :| 0 <= i < |bs[1..]| && bs[1..][i].at <= x < bs[1..][i].at + bs[1..][i].size;
        assert bs[i + 1].at <= x < bs[i + 1].at + bs[i + 1].size;
      }
      forall i | 0 <= i < |bs| && bs[i].at <= x < bs[i].at + bs[i].size ensures x in Covered(bs) {
        if i > 0 { assert bs[1..][i - 1].at <= x < bs[1..][i - 1].at + bs[1..][i - 1].size; }
      }
    }
  }

  /** Blocks that do not overlap cover as many bytes as their sizes add up to. */
  lemma {:induction false} CoveredSize(bs: seq<Block>)
    requires AllApart(bs)
    ensures |Covered(bs)| == Total(bs)
  {
    if bs != [] {
      var rest := bs[1..];
      forall i, j | 0 <= i < j < |rest| ensures Apart(rest[i], rest[j]) {
        assert Apart(bs[i + 1], bs[j + 1]);
      }
      CoveredSize(rest);
      var first := Range(bs[0].at, bs[0].at + bs[0].size);
      RangeSize(bs[0].at, bs[0].at + bs[0].size);
      forall x | x in first ensures x !in Covered(rest) {
        CoveredBy(rest, x);
        forall i | 0 <= i < |rest| ensures !(rest[i].at <= x < rest[i].at + rest[i].size) {
          assert Apart(bs[0], bs[i + 1]);
        }
      }
      assert first !! Covered(rest);
      assert Covered(bs) == first + Covered(rest);
    }
  }

  /** Blocks that do not overlap cannot add up to more than the room they lie in. */
  lemma {:induction false} TotalBound(bs: seq<Block>, lo: nat, hi: nat)
    requires AllApart(bs) && AllWithin(bs, lo, hi) && lo <= hi
    ensures Total(bs) <= hi - lo
  {
    CoveredSize(bs);
    RangeSize(lo, hi);
    forall x | x in Covered(bs) ensures x in Range(lo, hi) {
      CoveredBy(bs, x);
      var i :| 0 <= i < |bs| && bs[i].at <= x < bs[i].at + bs[i].size;
    }
    Counting.SubsetSize(Covered(bs), Range(lo, hi));
  }

  // ------------------------------------------------------------------ the freeblock chain

  function Head(blocks: seq<Block>, k: nat): nat
  {
    if k < |blocks| then blocks[k].at else 0
  }

  /** Freeblock `k` in the data: link to the next one, size, and its distance to the next. */
  ghost predicate FreeAt(d: seq<Byte>, u: nat, blocks: seq<Block>, k: nat)
    requires k < |blocks| && |d| == u
  {
    var b := blocks[k];
    && 4 <= b.size && 0 < b.at && b.at + b.size <= u
    && (k + 1 < |blocks| ==> b.at + b.size + 4 <= blocks[k + 1].at)
    && Get2(d, b.at) == Head(blocks, k + 1)
    && Get2(d, b.at + 2) == b.size
  }

  ghost predicate Chain(d: seq<Byte>, u: nat, hdr: nat, blocks: seq<Block>)
    requires hdr + 8 <= |d| == u
  {
    && Get2(d, hdr + 1) == Head(blocks, 0)
    && forall k :: 0 <= k < |blocks| ==> FreeAt(d, u, blocks, k)
  }

  lemma {:induction false} ChainAscends(d: seq<Byte>, u: nat, hdr: nat, blocks: seq<Block>, j: nat, k: nat)
    requires hdr + 8 <= |d| == u && Chain(d, u, hdr, blocks) && j < k < |blocks|
    ensures blocks[j].at + blocks[j].size + 4 <= blocks[k].at
    decreases k - j
  {
    assert FreeAt(d, u, blocks, j);
    if j + 1 < k {
      ChainAscends(d, u, hdr, blocks, j + 1, k);
      assert FreeAt(d, u, blocks, j + 1);
    }
  }

  // ------------------------------------------------------------------ the whole page

  ghost predicate CellIn(c: Block, top: nat, u: nat)
  {
    4 <= c.size && top <= c.at && c.at + c.size <= u
  }

  ghost predicate CellsApart(cells: seq<Block>, blocks: seq<Block>)
  {
    && AllApart(cells)
    && forall i, k :: 0 <= i < |cells| && 0 <= k < |blocks| ==> Apart(cells[i], blocks[k])
  }

  /** The content area is made up of `cells`, `blocks` and as many fragment bytes as the header
      counts; `first` is the end of the cell pointer array. */
  ghost predicate Layout(d: seq<Byte>, u: nat, hdr: nat, first: nat, cells: seq<Block>, blocks: seq<Block>)
  {
    && |d| == u <= 0x1_0000 && hdr + 8 <= first <= u && first <= Top(d, hdr) <= u
    && Chain(d, u, hdr, blocks)
    && (blocks != [] ==> Top(d, hdr) < blocks[0].at)
    && (forall i :: 0 <= i < |cells| ==> CellIn(cells[i], Top(d, hdr), u))
    && CellsApart(cells, blocks)
    && d[hdr + 7] + Total(cells) + Total(blocks) == u - Top(d, hdr)
    && d[hdr + 7] <= 60
  }

  /** The fragment count is exactly the number of bytes of the content area that belong neither to a
      cell nor to a freeblock. */
  lemma {:induction false} FragmentsAreLeftover(d: seq<Byte>, u: nat, hdr: nat, first: nat, cells: seq<Block>, blocks: seq<Block>)
    requires Layout(d, u, hdr, first, cells, blocks)
    ensures hdr + 8 <= |d| && |Range(Top(d, hdr), u) - Covered(cells + blocks)| == d[hdr + 7]
  {
    var all, top := cells + blocks, Top(d, hdr);
    LayoutApart(d, u, hdr, first, cells, blocks);
    CoveredSize(all);
    TotalConcat(cells, blocks);
    RangeSize(top, u);
    forall x | x in Covered(all) ensures x in Range(top, u) {
      CoveredBy(all, x);
      var i :| 0 <= i < |all| && all[i].at <= x < all[i].at + all[i].size;
    }
    assert Range(top, u) == (Range(top, u) - Covered(all)) + Covered(all);
  }

  lemma {:induction false} LayoutApart(d: seq<Byte>, u: nat, hdr: nat, first: nat, cells: seq<Block>, blocks: seq<Block>)
    requires Layout(d, u, hdr, first, cells, blocks)
    ensures hdr + 8 <= |d| && AllApart(cells + blocks) && AllWithin(cells + blocks, Top(d, hdr), u)
  {
    var all, n := cells + blocks, |cells|;
    forall i | 0 <= i < |all| ensures Top(d, hdr) <= all[i].at && all[i].at + all[i].size <= u {
      if i < n { assert CellIn(cells[i], Top(d, hdr), u); }
      else {
        assert FreeAt(d, u, blocks, i - n);
        if i > n { ChainAscends(d, u, hdr, blocks, 0, i - n); }
      }
    }
    forall i, j | 0 <= i < j < |all| ensures Apart(all[i], all[j]) {
      if j < n { assert Apart(cells[i], cells[j]); }
      else if i < n { assert Apart(cells[i], blocks[j - n]); }
      else { ChainAscends(d, u, hdr, blocks, i - n, j - n); }
    }
  }
}
