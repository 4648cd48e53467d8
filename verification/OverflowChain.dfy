/** Payload bytes spread over the local part of a cell and a chain of overflow pages, each beginning
    with the number of the next (btree.c). */
module OverflowChain {
  import opened PageLayout
  import opened CellFormat
  import opened Varint
  import opened CellText

  type Pages = map<nat, seq<Byte>>

  // ------------------------------------------------------------------ four-byte integers

  function Get4(d: seq<Byte>, i: nat): (v: nat)
    requires i + 4 <= |d|
    ensures v < TWO32
  {
    var a: int, b: int, c: int, e: int := d[i], d[i + 1], d[i + 2], d[i + 3];
    0x100_0000 * a + 0x1_0000 * b + 256 * c + e
  }

  function Be32(v: nat): (s: seq<Byte>)
    ensures |s| == 4
  {
    [v / 0x100_0000 % 256, v / 0x1_0000 % 256, v / 256 % 256, v % 256]
  }

  lemma {:induction false} BytesOf(v: nat)
    requires v < TWO32
    ensures 0x100_0000 * (v / 0x100_0000 % 256) + 0x1_0000 * (v / 0x1_0000 % 256) + 256 * (v / 256 % 256) + v % 256 == v
  {
    var a, b := v / 256, v / 256 / 256;
    assert v / 0x1_0000 == b && v / 0x100_0000 == b / 256;
  }

  lemma {:induction false} Get4Same(d: seq<Byte>, i: nat, e: seq<Byte>, j: nat)
    requires i + 4 <= |d| && j + 4 <= |e| && d[i..i + 4] == e[j..j + 4]
    ensures Get4(d, i) == Get4(e, j)
  {
    var a, b := d[i..i + 4], e[j..j + 4];
    assert a[0] == d[i] && a[1] == d[i + 1] && a[2] == d[i + 2] && a[3] == d[i + 3];
    assert b[0] == e[j] && b[1] == e[j + 1] && b[2] == e[j + 2] && b[3] == e[j + 3];
  }

  lemma {:induction false} GetBe32(d: seq<Byte>, i: nat, v: nat)
    requires v < TWO32 && i + 4 <= |d| && d[i..i + 4] == Be32(v)
    ensures Get4(d, i) == v
  {
    BytesOf(v);
    var b := Be32(v);
    assert b[0..4] == b;
    Get4Same(d, i, b, 0);
  }

  /** A slice of a slice. */
  lemma {:induction false} SubSlice(d: seq<Byte>, from: nat, to: nat, lo: nat, hi: nat)
    requires from <= to <= |d| && lo <= hi <= to - from
    ensures d[from..to][lo..hi] == d[from + lo..from + hi]
  {
    var a, b := d[from..to][lo..hi], d[from + lo..from + hi];
    forall k | 0 <= k < |a| ensures a[k] == b[k] {
      assert a[k] == d[from..to][lo + k] == d[from + (lo + k)];
    }
  }

  // ------------------------------------------------------------------ splicing

  /** `d` with the bytes `b` written at `at`. */
  function Splice(d: seq<Byte>, at: nat, b: seq<Byte>): (r: seq<Byte>)
    requires at + |b| <= |d|
    ensures |r| == |d|
  {
    d[..at] + b + d[at + |b|..]
  }

  /** A slice of spliced bytes: outside the splice, inside it, and across it. */
  lemma {:induction false} SpliceOutside(d: seq<Byte>, at: nat, b: seq<Byte>, lo: nat, hi: nat)
    requires at + |b| <= |d| && lo <= hi <= |d| && (hi <= at || at + |b| <= lo || b == [])
    ensures Splice(d, at, b)[lo..hi] == d[lo..hi]
  {
    var r := Splice(d, at, b);
    forall k | lo <= k < hi ensures r[k] == d[k] {}
  }

  lemma {:induction false} SpliceAcross(d: seq<Byte>, at: nat, b: seq<Byte>, lo: nat, hi: nat)
    requires lo <= at && at + |b| <= hi <= |d|
    ensures Splice(d, at, b)[lo..hi] == Splice(d[lo..hi], at - lo, b)
  {
  }

  lemma {:induction false} SpliceTwice(d: seq<Byte>, at: nat, b: seq<Byte>, c: seq<Byte>)
    requires at + |b| + |c| <= |d|
    ensures Splice(Splice(d, at, b), at + |b|, c) == Splice(d, at, b + c)
  {
  }

  // ------------------------------------------------------------------ chains

  /** Page `i` of a chain, or zero past its end. */
  function At(ps: seq<nat>, i: nat): nat
  {
    if i < |ps| then ps[i] else 0
  }

  /** Page `i` of the chain begins with the number of the next. */
  ghost predicate LinkAt(pages: Pages, ps: seq<nat>, i: nat)
  {
    i < |ps| && ps[i] in pages && |pages[ps[i]]| >= 4 && Get4(pages[ps[i]], 0) == At(ps, i + 1)
  }

  ghost predicate Distinct(ps: seq<nat>)
  {
    && (forall i :: 0 <= i < |ps| ==> ps[i] >= 2)
    && (forall i, j :: 0 <= i < j < |ps| ==> ps[i] != ps[j])
  }

  ghost predicate Linked(pages: Pages, ps: seq<nat>)
  {
    Distinct(ps) && forall i :: 0 <= i < |ps| ==> LinkAt(pages, ps, i)
  }

  function Least(a: nat, b: nat): nat
  {
    if a <= b then a else b
  }

  /** Overflow page `i` holds its share of the payload. */
  ghost predicate ChunkHeld(pages: Pages, u: nat, local: nat, ps: seq<nat>, payload: seq<Byte>, i: nat)
    requires u >= 4
  {
    && i < |ps| && ps[i] in pages && |pages[ps[i]]| == u
    && (var lo := ChunkAt(local, u - 4, i);
        var hi := Least(lo + (u - 4), |payload|);
        lo <= hi && pages[ps[i]][4..4 + (hi - lo)] == payload[lo..hi])
  }

  ghost predicate Held(pages: Pages, u: nat, local: nat, ps: seq<nat>, payload: seq<Byte>)
    requires u >= 4
  {
    forall i :: 0 <= i < |ps| ==> ChunkHeld(pages, u, local, ps, payload, i)
  }

  /** The overflow part of a payload: the right number of linked pages with the right bytes. */
  ghost predicate OverflowHolds(sh: Shape, pages: Pages, payload: seq<Byte>, ps: seq<nat>)
    requires Proper(sh)
  {
    && |ps| == OverflowPages(sh, |payload|)
    && Linked(pages, ps)
    && Held(pages, sh.u, Local(sh.u, sh.kind, |payload|), ps, payload)
  }

  /** The part in the cell: header, first bytes, and the number of the first overflow page. */
  ghost predicate TextHolds(sh: Shape, d: seq<Byte>, at: nat, key: int, payload: seq<Byte>, ps: seq<nat>)
  {
    && CellAt(sh, d, at, key, |payload|)
    && (var pp := at + HeaderLen(sh, key, |payload|);
        var local := Local(sh.u, sh.kind, |payload|);
        && d[pp..pp + local] == payload[..local]
        && (|payload| > MaxLocal(sh.u, sh.kind) ==> Get4(d, pp + local) == At(ps, 0)))
  }

  /** The cell at `at` of page `pg` stores `payload` under `key`, with overflow pages `ps`. */
  ghost predicate PayloadAt(sh: Shape, pages: Pages, pg: nat, at: nat, key: int, payload: seq<Byte>, ps: seq<nat>)
  {
    && Proper(sh) && pg in pages && |pages[pg]| == sh.u && pg !in ps
    && TextHolds(sh, pages[pg], at, key, payload, ps)
    && OverflowHolds(sh, pages, payload, ps)
  }

  /** A cell copied to another place is the same cell. */
  lemma {:induction false} CellCopied(sh: Shape, d: seq<Byte>, at: nat, e: seq<Byte>, to: nat, key: int, payload: seq<Byte>,
                                      ps: seq<nat>)
    requires TextHolds(sh, d, at, key, payload, ps)
    requires var size := SizeOf(sh, key, |payload|);
      to + size <= |e| && e[to..to + size] == d[at..at + size]
    ensures TextHolds(sh, e, to, key, payload, ps)
  {
    hide VarintLen, Local, MaxLocal, Get4, CellAt, VarintAt, HeaderLen;
    var n := |payload|;
    CellRoom(sh, d, at, key, n);
    var size := SizeOf(sh, key, n);
    var local := Local(sh.u, sh.kind, n);
    var hdr := HeaderLen(sh, key, n);
    SliceCopied(d, at, e, to, size, 0, hdr);
    HeaderSame(sh, d, at, e, to, key, n);
    SliceCopied(d, at, e, to, size, hdr, hdr + local);
    if n > MaxLocal(sh.u, sh.kind) {
      SliceCopied(d, at, e, to, size, hdr + local, hdr + local + 4);
      Get4Same(d, at + hdr + local, e, to + hdr + local);
    }
  }

  lemma {:induction false} CellRoom(sh: Shape, d: seq<Byte>, at: nat, key: int, n: nat)
    requires CellAt(sh, d, at, key, n)
    ensures Proper(sh) && at + SizeOf(sh, key, n) <= |d|
  {
  }

  /** The header decides what cell is stored. */
  lemma {:induction false} HeaderSame(sh: Shape, d: seq<Byte>, at: nat, e: seq<Byte>, to: nat, key: int, n: nat)
    requires CellAt(sh, d, at, key, n) && to + SizeOf(sh, key, n) <= |e|
    requires var hdr := HeaderLen(sh, key, n);
      at + hdr <= |d| && to + hdr <= |e| && d[at..at + hdr] == e[to..to + hdr]
    ensures CellAt(sh, e, to, key, n)
  {
    hide Encode, VarintLen, Local, MaxLocal, VarintAt;
    var hdr := HeaderLen(sh, key, n);
    VarintRoom(d, at + sh.child, n);
    VarintCopied(d, at, e, to, hdr, sh.child, n);
    if sh.kind.TableLeaf? {
      VarintRoom(d, at + sh.child + VarintLen(n), KeyBits(key));
      VarintCopied(d, at, e, to, hdr, sh.child + VarintLen(n), KeyBits(key));
    }
  }

  lemma {:induction false} VarintRoom(d: seq<Byte>, at: nat, v: nat)
    requires VarintAt(d, at, v)
    ensures v < TWO64 && |Encode(v)| == VarintLen(v)
  {
    EncodeShape(v);
  }

  lemma {:induction false} SliceCopied(d: seq<Byte>, at: nat, e: seq<Byte>, to: nat, size: nat, lo: nat, hi: nat)
    requires at + size <= |d| && to + size <= |e| && e[to..to + size] == d[at..at + size] && lo <= hi <= size
    ensures d[at + lo..at + hi] == e[to + lo..to + hi]
  {
    SubSlice(d, at, at + size, lo, hi);
    SubSlice(e, to, to + size, lo, hi);
  }

  lemma {:induction false} VarintCopied(d: seq<Byte>, at: nat, e: seq<Byte>, to: nat, size: nat, lo: nat, v: nat)
    requires at + size <= |d| && to + size <= |e| && e[to..to + size] == d[at..at + size]
    requires VarintAt(d, at + lo, v) && v < TWO64 && lo + |Encode(v)| <= size
    ensures VarintAt(e, to + lo, v)
  {
    hide Encode;
    SliceCopied(d, at, e, to, size, lo, lo + |Encode(v)|);
  }

  // ------------------------------------------------------------------ writing within a payload

  lemma {:induction false} DistinctAt(ps: seq<nat>, i: nat, j: nat)
    requires Distinct(ps) && i < |ps| && j < |ps| && i != j
    ensures ps[i] != ps[j]
  {
    if i < j { assert ps[i] != ps[j]; } else { assert ps[j] != ps[i]; }
  }

  /** Writing beyond the first four bytes of a page leaves the chain alone. */
  lemma {:induction false} LinkedWrite(pages: Pages, ps: seq<nat>, p: nat, d: seq<Byte>)
    requires Linked(pages, ps) && p in pages && |d| == |pages[p]|
    requires p in ps ==> |d| >= 4 && d[..4] == pages[p][..4]
    ensures Linked(pages[p := d], ps)
  {
    hide Get4, At, Distinct;
    var pages' := pages[p := d];
    forall i | 0 <= i < |ps| ensures LinkAt(pages', ps, i) {
      assert LinkAt(pages, ps, i);
      if ps[i] == p {
        assert d[0..4] == d[..4] && pages[p][0..4] == pages[p][..4];
        Get4Same(d, 0, pages[p], 0);
      }
    }
  }

  /** Writing `b` at `offset` of overflow page `i` changes exactly those bytes of the payload. */
  lemma {:induction false} ChunkWrite(pages: Pages, u: nat, local: nat, ps: seq<nat>, payload: seq<Byte>, i: nat, offset: nat, b: seq<Byte>)
    requires u >= 4 && Distinct(ps) && Held(pages, u, local, ps, payload) && i < |ps|
    requires offset + |b| <= u - 4 && ChunkAt(local, u - 4, i) + offset + |b| <= |payload|
    ensures ps[i] in pages && |pages[ps[i]]| == u
    ensures Held(pages[ps[i] := Splice(pages[ps[i]], 4 + offset, b)], u, local, ps,
                 Splice(payload, ChunkAt(local, u - 4, i) + offset, b))
  {
    hide ChunkAt, Splice, Distinct;
    assert ChunkHeld(pages, u, local, ps, payload, i);
    var d := pages[ps[i]];
    var pos := ChunkAt(local, u - 4, i) + offset;
    var pages', payload' := pages[ps[i] := Splice(d, 4 + offset, b)], Splice(payload, pos, b);
    forall j | 0 <= j < |ps| ensures ChunkHeld(pages', u, local, ps, payload', j) {
      assert ChunkHeld(pages, u, local, ps, payload, j);
      var lo := ChunkAt(local, u - 4, j);
      var hi := Least(lo + (u - 4), |payload|);
      if j == i {
        SpliceAcross(d, 4 + offset, b, 4, 4 + (hi - lo));
        SpliceAcross(payload, pos, b, lo, hi);
      } else {
        DistinctAt(ps, i, j);
        if j < i { ChunkOrder(local, u - 4, j, i); } else { ChunkOrder(local, u - 4, i, j); }
        SpliceOutside(payload, pos, b, lo, hi);
      }
    }
  }

  /** Bytes before the overflow part are not in any overflow page. */
  lemma {:induction false} LocalWrite(pages: Pages, u: nat, local: nat, ps: seq<nat>, payload: seq<Byte>, p: nat, d: seq<Byte>, at: nat,
                                      b: seq<Byte>)
    requires u >= 4 && Held(pages, u, local, ps, payload) && p !in ps && at + |b| <= local && at + |b| <= |payload|
    ensures Held(pages[p := d], u, local, ps, Splice(payload, at, b))
  {
    hide ChunkAt, Splice;
    var pages', payload' := pages[p := d], Splice(payload, at, b);
    forall j | 0 <= j < |ps| ensures ChunkHeld(pages', u, local, ps, payload', j) {
      assert ChunkHeld(pages, u, local, ps, payload, j);
      ChunkNext(local, u - 4, 0);
      ChunkOrder(local, u - 4, 0, j);
      var lo := ChunkAt(local, u - 4, j);
      SpliceOutside(payload, at, b, lo, Least(lo + (u - 4), |payload|));
    }
  }

  /** Writing local payload bytes changes exactly those bytes of the payload. */
  lemma {:induction false} TextWrite(sh: Shape, d: seq<Byte>, at: nat, key: int, payload: seq<Byte>, ps: seq<nat>,
          offset: nat, b: seq<Byte>)
    requires TextHolds(sh, d, at, key, payload, ps) && offset + |b| <= Local(sh.u, sh.kind, |payload|)
    ensures at + HeaderLen(sh, key, |payload|) + offset + |b| <= |d|
    ensures TextHolds(sh, Splice(d, at + HeaderLen(sh, key, |payload|) + offset, b), at, key, Splice(payload, offset, b), ps)
  {
    hide VarintLen, Local, MaxLocal, Get4, Splice, CellAt, VarintAt, HeaderLen;
    var n := |payload|;
    CellRoom(sh, d, at, key, n);
    var local := Local(sh.u, sh.kind, n);
    var hdr := HeaderLen(sh, key, n);
    var pp := at + hdr;
    var e := Splice(d, pp + offset, b);
    SpliceOutside(d, pp + offset, b, at, pp);
    HeaderSame(sh, d, at, e, at, key, n);
    SpliceAcross(d, pp + offset, b, pp, pp + local);
    SpliceAcross(payload, offset, b, 0, local);
    if n > MaxLocal(sh.u, sh.kind) {
      SpliceOutside(d, pp + offset, b, pp + local, pp + local + 4);
      Get4Same(d, pp + local, e, pp + local);
    }
  }

  /** Bytes of the payload beyond the local part do not matter to the cell. */
  lemma {:induction false} TextKept(sh: Shape, d: seq<Byte>, at: nat, key: int, payload: seq<Byte>, ps: seq<nat>, offset: nat, b: seq<Byte>)
    requires TextHolds(sh, d, at, key, payload, ps)
    requires Local(sh.u, sh.kind, |payload|) <= offset && offset + |b| <= |payload|
    ensures TextHolds(sh, d, at, key, Splice(payload, offset, b), ps)
  {
    hide Encode, VarintLen, Local, MaxLocal, Get4, Splice, VarintAt;
    SpliceOutside(payload, offset, b, 0, Local(sh.u, sh.kind, |payload|));
  }

  /** One write to the local part. */
  lemma {:induction false} WriteLocal(sh: Shape, pages: Pages, pg: nat, at: nat, key: int, payload: seq<Byte>, ps: seq<nat>, offset: nat,
                                      b: seq<Byte>)
    requires PayloadAt(sh, pages, pg, at, key, payload, ps) && offset + |b| <= Local(sh.u, sh.kind, |payload|)
    ensures at + HeaderLen(sh, key, |payload|) + offset + |b| <= sh.u
    ensures PayloadAt(sh, pages[pg := Splice(pages[pg], at + HeaderLen(sh, key, |payload|) + offset, b)], pg, at, key,
                      Splice(payload, offset, b), ps)
  {
    hide TextHolds, Linked, Held, Splice, OverflowPages, Local, HeaderLen;
    TextWrite(sh, pages[pg], at, key, payload, ps, offset, b);
    var d := Splice(pages[pg], at + HeaderLen(sh, key, |payload|) + offset, b);
    LinkedWrite(pages, ps, pg, d);
    LocalWrite(pages, sh.u, Local(sh.u, sh.kind, |payload|), ps, payload, pg, d, offset, b);
  }

  /** One write to overflow page `i`. */
  lemma {:induction false} WriteChunk(sh: Shape, pages: Pages, pg: nat, at: nat, key: int, payload: seq<Byte>, ps: seq<nat>, i: nat,
                                      offset: nat, b: seq<Byte>)
    requires PayloadAt(sh, pages, pg, at, key, payload, ps) && i < |ps| && offset + |b| <= sh.u - 4
    requires ChunkAt(Local(sh.u, sh.kind, |payload|), sh.u - 4, i) + offset + |b| <= |payload|
    ensures ps[i] in pages && |pages[ps[i]]| == sh.u && ps[i] != pg
    ensures PayloadAt(sh, pages[ps[i] := Splice(pages[ps[i]], 4 + offset, b)], pg, at, key,
                      Splice(payload, ChunkAt(Local(sh.u, sh.kind, |payload|), sh.u - 4, i) + offset, b), ps)
  {
    hide TextHolds, Held, Splice, OverflowPages, Local, HeaderLen, ChunkAt, LinkAt;
    var local := Local(sh.u, sh.kind, |payload|);
    ChunkWrite(pages, sh.u, local, ps, payload, i, offset, b);
    ChunkNext(local, sh.u - 4, 0);
    ChunkOrder(local, sh.u - 4, 0, i);
    TextKept(sh, pages[pg], at, key, payload, ps, ChunkAt(local, sh.u - 4, i) + offset, b);
    var d := Splice(pages[ps[i]], 4 + offset, b);
    SpliceOutside(pages[ps[i]], 4 + offset, b, 0, 4);
    assert d[..4] == d[0..4] && pages[ps[i]][..4] == pages[ps[i]][0..4];
    LinkedWrite(pages, ps, ps[i], d);
  }

  /** What overflow page `i` holds at `offset`. */
  lemma {:induction false} ReadChunk(sh: Shape, pages: Pages, payload: seq<Byte>, ps: seq<nat>, i: nat, offset: nat, n: nat)
    requires Proper(sh) && OverflowHolds(sh, pages, payload, ps) && i < |ps| && offset + n <= sh.u - 4
    requires ChunkAt(Local(sh.u, sh.kind, |payload|), sh.u - 4, i) + offset + n <= |payload|
    ensures ps[i] in pages && |pages[ps[i]]| == sh.u && Get4(pages[ps[i]], 0) == At(ps, i + 1)
    ensures var pos := ChunkAt(Local(sh.u, sh.kind, |payload|), sh.u - 4, i) + offset;
      pages[ps[i]][4 + offset..4 + offset + n] == payload[pos..pos + n]
  {
    hide Local, ChunkAt, OverflowPages, Get4, Distinct;
    var local := Local(sh.u, sh.kind, |payload|);
    assert LinkAt(pages, ps, i);
    assert ChunkHeld(pages, sh.u, local, ps, payload, i);
    var lo := ChunkAt(local, sh.u - 4, i);
    var hi := Least(lo + (sh.u - 4), |payload|);
    SubSlice(pages[ps[i]], 4, 4 + (hi - lo), offset, offset + n);
    SubSlice(payload, lo, hi, offset, offset + n);
  }

  // ------------------------------------------------------------------ growing a payload

  /** Appending `b` to the last overflow page, or to the local part. */
  lemma {:induction false} Extend(pages: Pages, u: nat, local: nat, ps: seq<nat>, done: seq<Byte>, b: seq<Byte>)
    requires u >= 4 && ps != [] && Distinct(ps) && Held(pages, u, local, ps, done)
    requires |done| + |b| <= ChunkAt(local, u - 4, |ps|)
    ensures var last, lo := ps[|ps| - 1], ChunkAt(local, u - 4, |ps| - 1);
      && last in pages && |pages[last]| == u && lo <= |done| && 4 + (|done| - lo) + |b| <= u
      && Held(pages[last := Splice(pages[last], 4 + (|done| - lo), b)], u, local, ps, done + b)
  {
    hide ChunkAt, Splice, Distinct;
    var k := |ps| - 1;
    assert ChunkHeld(pages, u, local, ps, done, k);
    ChunkNext(local, u - 4, k);
    var last, lo := ps[k], ChunkAt(local, u - 4, k);
    var pages' := pages[last := Splice(pages[last], 4 + (|done| - lo), b)];
    forall j | 0 <= j < |ps| ensures ChunkHeld(pages', u, local, ps, done + b, j) {
      assert ChunkHeld(pages, u, local, ps, done, j);
      if j == k {
        ExtendLast(pages[last], lo, done, b);
      } else {
        DistinctAt(ps, k, j);
        ChunkOrder(local, u - 4, j, k);
        Prefix(done, b, ChunkAt(local, u - 4, j), u - 4);
      }
    }
  }

  lemma {:induction false} ExtendLast(d: seq<Byte>, lo: nat, done: seq<Byte>, b: seq<Byte>)
    requires lo <= |done| && 4 + (|done| - lo) + |b| <= |d| && d[4..4 + (|done| - lo)] == done[lo..|done|]
    ensures Splice(d, 4 + (|done| - lo), b)[4..4 + (|done + b| - lo)] == (done + b)[lo..|done + b|]
  {
    hide Splice;
    assert done[lo..|done|] == done[lo..];
    Appended(d, 4, done[lo..], b);
    assert (done + b)[lo..|done + b|] == done[lo..] + b;
  }

  lemma {:induction false} Prefix(done: seq<Byte>, b: seq<Byte>, at: nat, n: nat)
    requires at + n <= |done|
    ensures (done + b)[at..at + n] == done[at..at + n]
  {
  }

  lemma {:induction false} Appended(d: seq<Byte>, at: nat, a: seq<Byte>, b: seq<Byte>)
    requires at + |a| + |b| <= |d| && d[at..at + |a|] == a
    ensures Splice(d, at + |a|, b)[at..at + |a| + |b|] == a + b
  {
  }

  /** A new page at the end of a chain whose pages are full. */
  lemma {:induction false} AddPage(pages: Pages, u: nat, local: nat, ps: seq<nat>, done: seq<Byte>, pages': Pages, p: nat)
    requires u >= 4 && Held(pages, u, local, ps, done)
    requires |done| == ChunkAt(local, u - 4, |ps|)
    requires p in pages' && |pages'[p]| == u && p !in ps
    requires forall i :: 0 <= i < |ps| ==> ps[i] in pages' && |pages'[ps[i]]| == u
    requires forall i :: 0 <= i < |ps| && ps[i] in pages && |pages[ps[i]]| == u ==> pages'[ps[i]][4..] == pages[ps[i]][4..]
    ensures Held(pages', u, local, ps + [p], done)
  {
    hide ChunkAt;
    forall j | 0 <= j < |ps + [p]| ensures ChunkHeld(pages', u, local, ps + [p], done, j) {
      if j < |ps| {
        assert ChunkHeld(pages, u, local, ps, done, j);
        var lo := ChunkAt(local, u - 4, j);
        var hi := Least(lo + (u - 4), |done|);
        SameTail(pages[ps[j]], pages'[ps[j]], hi - lo);
      }
    }
  }

  lemma {:induction false} SameTail(d: seq<Byte>, e: seq<Byte>, n: nat)
    requires |d| == |e| && 4 + n <= |d| && d[4..] == e[4..]
    ensures d[4..4 + n] == e[4..4 + n]
  {
    assert d[4..4 + n] == d[4..][..n] && e[4..4 + n] == e[4..][..n];
  }

  /** The chain with page `p` linked at the end. */
  lemma {:induction false} LinkPage(pages: Pages, ps: seq<nat>, pages': Pages, p: nat)
    requires Linked(pages, ps) && p >= 2 && p !in ps && p in pages' && |pages'[p]| >= 4 && Get4(pages'[p], 0) == 0
    requires forall i :: 0 <= i < |ps| - 1 ==> ps[i] in pages && pages'.Keys >= {ps[i]} && pages'[ps[i]] == pages[ps[i]]
    requires ps != [] ==> ps[|ps| - 1] in pages' && |pages'[ps[|ps| - 1]]| >= 4 && Get4(pages'[ps[|ps| - 1]], 0) == p
    ensures Linked(pages', ps + [p])
  {
    hide Get4;
    forall i | 0 <= i < |ps + [p]| ensures LinkAt(pages', ps + [p], i) {
      if i < |ps| { assert LinkAt(pages, ps, i); }
    }
  }
}
