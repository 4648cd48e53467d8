/** The bytes of a payload cell and the four places that work out how much of the payload is local: the
    parser, the size function, the writer (btree.c) and the statistics table (dbstat.c). */
module CellText {
  import opened PageLayout
  import opened CellFormat
  import opened Varint

  /** What a cell looks like on a page: usable bytes of the page, its kind, and the bytes of a child
      pointer before the cell proper. */
  datatype Shape = Shape(u: nat, kind: Kind, child: nat)

  ghost predicate Proper(sh: Shape)
  {
    && MIN_USABLE <= sh.u <= MAX_USABLE
    && (sh.child == 0 || (sh.child == 4 && sh.kind.IndexPage?))
  }

  /** Parsed form; `pPayload` is the offset of the first payload byte. */
  datatype CellInfo = CellInfo(nKey: int, pPayload: nat, nPayload: nat, nLocal: nat, nSize: nat)

  const MIN_KEY := -0x8000_0000_0000_0000
  const MAX_KEY := 0x7fff_ffff_ffff_ffff

  /** A key and a payload size that a cell of the shape can have. */
  ghost predicate Storable(sh: Shape, key: int, n: nat)
  {
    && n <= 0x7fff_ffff
    && (sh.kind.TableLeaf? ==> MIN_KEY <= key <= MAX_KEY) && (sh.kind.IndexPage? ==> key == n)
  }

  function HeaderLen(sh: Shape, key: int, n: nat): (r: nat)
    ensures r <= sh.child + 18
  {
    sh.child + VarintLen(n) + if sh.kind.TableLeaf? then VarintLen(KeyBits(key)) else 0
  }

  /** Bytes of the cell on its page. */
  function SizeOf(sh: Shape, key: int, n: nat): (r: nat)
    requires Proper(sh)
  {
    var size := HeaderLen(sh, key, n) + Local(sh.u, sh.kind, n);
    if n > MaxLocal(sh.u, sh.kind) then size + 4 else if size < 4 then 4 else size
  }

  /** A cell with this key and payload size is stored at `at`. */
  ghost predicate CellAt(sh: Shape, d: seq<Byte>, at: nat, key: int, n: nat)
  {
    && Proper(sh) && Storable(sh, key, n) && at + SizeOf(sh, key, n) <= |d|
    && VarintAt(d, at + sh.child, n)
    && (sh.kind.TableLeaf? ==> VarintAt(d, at + sh.child + VarintLen(n), KeyBits(key)))
  }

  /** What every reader of the cell should find. */
  function Info(sh: Shape, at: nat, key: int, n: nat): CellInfo
    requires Proper(sh)
  {
    CellInfo(key, at + HeaderLen(sh, key, n), n, Local(sh.u, sh.kind, n), SizeOf(sh, key, n))
  }

  /** Truncation to 16 bits. */
  function Mod16(v: nat): (r: nat)
    ensures v < 0x1_0000 ==> r == v
  {
    v % 0x1_0000
  }

  /** The unsigned bits of a varint read as a signed key. */
  function Signed(bits: nat): int
  {
    if bits <= MAX_KEY then bits else bits - TWO64
  }

  lemma {:induction false} SizesFit(sh: Shape, key: int, n: nat)
    requires Proper(sh)
    ensures SizeOf(sh, key, n) < 0x1_0000 && Local(sh.u, sh.kind, n) < 0x1_0000
  {
    hide VarintLen;
    LocalLimits(sh.u, sh.kind);
  }

  /** Remainder by usable bytes less four, as the C operator computes it: towards zero. */
  function TruncatedRem(a: int, b: int): int
    requires b > 0
  {
    if a >= 0 then a % b else -((-a) % b)
  }

  // ------------------------------------------------------------------ reading a cell

  /** btreeParseCellAdjustSizeForOverflow. */
  method AdjustSizeForOverflow(sh: Shape, at: nat, nPayload: nat, pPayload: nat) returns (nLocal: nat, nSize: nat)
    requires Proper(sh) && nPayload > MaxLocal(sh.u, sh.kind) && at <= pPayload <= at + 22
    ensures nLocal == Local(sh.u, sh.kind, nPayload) && nSize == pPayload - at + nLocal + 4
  {
    LocalLimits(sh.u, sh.kind);
    var minLocal := MinLocal(sh.u);
    var maxLocal := MaxLocal(sh.u, sh.kind);
    var surplus := minLocal + (nPayload - minLocal) % (sh.u - 4);
    if surplus <= maxLocal {
      nLocal := Mod16(surplus);
    } else {
      nLocal := Mod16(minLocal);
    }
    nSize := Mod16(pPayload + nLocal - at) + 4;
  }

  /** btreeParseCellPtr and btreeParseCellPtrIndex. */
  method ParseCell(sh: Shape, d: seq<Byte>, at: nat, ghost key: int, ghost n: nat) returns (info: CellInfo)
    requires CellAt(sh, d, at, key, n)
    ensures info == Info(sh, at, key, n)
  {
    hide VarintAt, VarintLen, Local, MaxLocal, MinLocal;
    SizesFit(sh, key, n);
    var nPayload, iter := GetSize(d, at + sh.child, n);
    var nKey := nPayload;
    if sh.kind.TableLeaf? {
      nKey, iter := GetKey(d, iter, KeyBits(key));
      KeyRoundTrip(key);
    }
    var signed: int := if sh.kind.TableLeaf? then Signed(nKey) else nKey;
    if nPayload <= MaxLocal(sh.u, sh.kind) {
      LocalSmall(sh, nPayload);
      var nSize := nPayload + Mod16(iter - at);
      if nSize < 4 { nSize := 4; }
      info := CellInfo(signed, iter, nPayload, Mod16(nPayload), nSize);
    } else {
      var nLocal, nSize := AdjustSizeForOverflow(sh, at, nPayload, iter);
      info := CellInfo(signed, iter, nPayload, nLocal, nSize);
    }
  }

  lemma {:induction false} KeyRoundTrip(key: int)
    requires MIN_KEY <= key <= MAX_KEY
    ensures Signed(KeyBits(key)) == key && KeyBits(key) < TWO64
  {
  }

  lemma {:induction false} LocalSmall(sh: Shape, n: nat)
    requires Proper(sh) && n <= MaxLocal(sh.u, sh.kind)
    ensures Local(sh.u, sh.kind, n) == n
  {
  }

  /** cellSizePtr: the size without a parse. */
  method CellSizePtr(sh: Shape, d: seq<Byte>, at: nat, ghost key: int, ghost n: nat) returns (nSize: nat)
    requires CellAt(sh, d, at, key, n)
    ensures nSize == Info(sh, at, key, n).nSize
  {
    hide VarintAt, VarintLen, Local, MaxLocal, MinLocal;
    SizesFit(sh, key, n);
    LocalOf(sh, n);
    var iter;
    nSize, iter := GetSize(d, at + sh.child, n);
    if sh.kind.TableLeaf? {
      iter := SkipVarint(d, iter, KeyBits(key));
    }
    if nSize <= MaxLocal(sh.u, sh.kind) {
      nSize := nSize + (iter - at);
      if nSize < 4 { nSize := 4; }
    } else {
      var minLocal := MinLocal(sh.u);
      nSize := minLocal + (nSize - minLocal) % (sh.u - 4);
      if nSize > MaxLocal(sh.u, sh.kind) {
        nSize := minLocal;
      }
      nSize := nSize + 4 + Mod16(iter - at);
    }
    nSize := Mod16(nSize);
  }

  lemma {:induction false} LocalOf(sh: Shape, n: nat)
    requires Proper(sh)
    ensures var maxLocal, minLocal := MaxLocal(sh.u, sh.kind), MinLocal(sh.u);
      && minLocal <= maxLocal
      && Local(sh.u, sh.kind, n) ==
        (if n <= maxLocal then n
        else (var s := minLocal + (n - minLocal) % (sh.u - 4); if s <= maxLocal then s else minLocal))
  {
    LocalLimits(sh.u, sh.kind);
  }

  /** getLocalPayload of dbstat.c computes the limits anew, does not ask first whether the payload fits,
      and relies on the remainder of a negative number being negative; the result is the same. */
  method GetLocalPayload(nUsable: nat, kind: Kind, nTotal: nat) returns (nLocal: int)
    requires MIN_USABLE <= nUsable <= MAX_USABLE
    ensures nLocal == Local(nUsable, kind, nTotal)
  {
    var nMinLocal, nMaxLocal;
    if kind.TableLeaf? {
      nMinLocal := (nUsable - 12) * 32 / 255 - 23;
      nMaxLocal := nUsable - 35;
    } else {
      nMinLocal := (nUsable - 12) * 32 / 255 - 23;
      nMaxLocal := (nUsable - 12) * 64 / 255 - 23;
    }
    LocalLimits(nUsable, kind);
    SmallRem(nTotal, nMinLocal, nUsable - 4);
    nLocal := nMinLocal + TruncatedRem(nTotal - nMinLocal, nUsable - 4);
    if nLocal > nMaxLocal { nLocal := nMinLocal; }
  }

  lemma {:induction false} SmallRem(n: nat, low: nat, b: nat)
    requires low < b
    ensures n < low + b ==> low + TruncatedRem(n - low, b) == n
  {
    if n < low { assert (low - n) % b == low - n; }
  }

  // ------------------------------------------------------------------ overflow pages

  /** Overflow pages of an `n`-byte payload. */
  function OverflowPages(sh: Shape, n: nat): nat
    requires Proper(sh)
  {
    CeilOf(n - Local(sh.u, sh.kind, n), sh.u - 4)
  }

  function CeilOf(a: nat, b: nat): nat
    requires b > 0
  {
    (a + b - 1) / b
  }

  /** First payload byte of overflow page `i`. */
  function ChunkAt(local: nat, room: nat, i: nat): nat
  {
    local + i * room
  }

  lemma {:induction false} ChunkNext(local: nat, room: nat, i: nat)
    ensures ChunkAt(local, room, 0) == local
    ensures ChunkAt(local, room, i + 1) == ChunkAt(local, room, i) + room
  {
  }

  lemma {:induction false} ChunkOrder(local: nat, room: nat, i: nat, j: nat)
    requires i <= j
    ensures ChunkAt(local, room, i) <= ChunkAt(local, room, j)
    ensures i < j ==> ChunkAt(local, room, i) + room <= ChunkAt(local, room, j)
  {
    assert j * room == i * room + (j - i) * room;
    if i < j { assert (j - i) * room == room + (j - i - 1) * room; }
  }

  /** The overflow pages are just enough: every one but the last is filled, the last is not empty. */
  lemma {:induction false} JustEnough(sh: Shape, n: nat)
    requires Proper(sh)
    ensures var local, room, k := Local(sh.u, sh.kind, n), sh.u - 4, OverflowPages(sh, n);
      && n <= ChunkAt(local, room, k)
      && (k > 0 ==> ChunkAt(local, room, k - 1) < n)
      && (k == 0 <==> n <= MaxLocal(sh.u, sh.kind))
  {
    var local, room := Local(sh.u, sh.kind, n), sh.u - 4;
    var rest := n - local;
    CeilDiv(rest, room);
    LocalLimits(sh.u, sh.kind);
  }

  lemma {:induction false} CeilDiv(a: nat, b: nat)
    requires b > 0
    ensures var k := CeilOf(a, b);
      a <= k * b && (k > 0 ==> (k - 1) * b < a) && (k == 0 <==> a == 0)
  {
    var k := (a + b - 1) / b;
    assert b * k + (a + b - 1) % b == a + b - 1;
    assert k * b == b * k;
    assert (k - 1) * b == k * b - b;
  }

  /** The number of pages is the only one that fits. */
  lemma {:induction false} PagesUnique(sh: Shape, n: nat, k: nat)
    requires Proper(sh)
    requires n <= ChunkAt(Local(sh.u, sh.kind, n), sh.u - 4, k)
    requires k > 0 ==> ChunkAt(Local(sh.u, sh.kind, n), sh.u - 4, k - 1) < n
    ensures k == OverflowPages(sh, n)
  {
    hide ChunkAt, Local, OverflowPages;
    JustEnough(sh, n);
    var local, room, m := Local(sh.u, sh.kind, n), sh.u - 4, OverflowPages(sh, n);
    ChunkNext(local, room, 0);
    if k < m { ChunkOrder(local, room, k, m - 1); }
    if m < k { ChunkOrder(local, room, m, k - 1); }
  }
}
