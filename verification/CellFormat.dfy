/** Sizes of b-tree cells: how much of a payload stays on the page, and how many bytes the cell
    takes.  The limits follow lockBtree and the split follows btreeParseCellAdjustSizeForOverflow
    in btree.c. */
module CellFormat {

  /** The page kinds that hold payload: index pages, leaf or interior, and table leaves. */
  datatype Kind = IndexPage | TableLeaf

  const MIN_USABLE := 480
  const MAX_USABLE := 65536

  function MaxLocal(u: nat, kind: Kind): nat
    requires MIN_USABLE <= u
  {
    match kind
    case IndexPage => (u - 12) * 64 / 255 - 23
    case TableLeaf => u - 35
  }

  function MinLocal(u: nat): nat
    requires MIN_USABLE <= u
  {
    (u - 12) * 32 / 255 - 23
  }

  lemma LocalLimits(u: nat, kind: Kind)
    requires MIN_USABLE <= u <= MAX_USABLE
    ensures MinLocal(u) <= MaxLocal(u, kind) <= u - 35
    ensures 35 <= MinLocal(u)
    ensures kind.IndexPage? ==> 4 * (MaxLocal(u, kind) + 19) <= u + 241 && 3 * (MaxLocal(u, kind) + 19) <= u - 12
  {
  }

  /** Bytes of an `n`-byte payload kept on the page. */
  function Local(u: nat, kind: Kind, n: nat): (r: nat)
    requires MIN_USABLE <= u <= MAX_USABLE
    ensures r <= n && r <= MaxLocal(u, kind)
  {
    var maxLocal, minLocal := MaxLocal(u, kind), MinLocal(u);
    LocalLimits(u, kind);
    if n <= maxLocal then n
    else
      var surplus := minLocal + (n - minLocal) % (u - 4);
      if surplus <= maxLocal then surplus else minLocal
  }

  /** Length of a variable-length integer. */
  function VarintLen(v: nat): (r: nat)
    ensures 1 <= r <= 9
  {
    if v < 0x80 then 1
    else if v < 0x4000 then 2
    else if v < 0x20_0000 then 3
    else if v < 0x1000_0000 then 4
    else if v < 0x8_0000_0000 then 5
    else if v < 0x400_0000_0000 then 6
    else if v < 0x2_0000_0000_0000 then 7
    else if v < 0x100_0000_0000_0000 then 8
    else 9
  }

  /** A signed 64-bit key as the unsigned value its varint encodes. */
  function KeyBits(key: int): nat
  {
    if key < 0 then (if key < -0x8000_0000_0000_0000 then 0xffff_ffff_ffff_ffff else key + 0x1_0000_0000_0000_0000) else key
  }

  /** Bytes of a cell without child pointer: header, local payload, overflow page number. */
  function PayloadCellSize(u: nat, kind: Kind, key: int, n: nat): (r: nat)
    requires MIN_USABLE <= u <= MAX_USABLE
    ensures r <= (if kind.IndexPage? then MaxLocal(u, kind) + 13 else u - 13)
  {
    var header := VarintLen(n) + if kind.TableLeaf? then VarintLen(KeyBits(key)) else 0;
    header + Local(u, kind, n) + if n <= MaxLocal(u, kind) then 0 else 4
  }

  // ------------------------------------------------------------------ how many cells fit

  const MAX_PAYLOAD := 0x8000_0000

  /** Four interior index cells, with their pointers, always fit on a page. */
  ghost predicate FourFit(u: nat)
    requires MIN_USABLE <= u <= MAX_USABLE
  {
    forall n: nat :: n < MAX_PAYLOAD ==> 4 * (2 + 4 + PayloadCellSize(u, IndexPage, 0, n)) <= u - 12
  }

  /** The file format promises that four cells fit on every index page.  That holds on pages of at most
      8172 bytes, and on larger ones only if little is lost in the division by 255. */
  lemma {:induction false} FourFitExactly(u: nat)
    requires MIN_USABLE <= u <= MAX_USABLE
    ensures FourFit(u) <==> u - 12 <= 8160 + 4 * ((u - 12) * 64 % 255)
  {
    hide PayloadCellSize, Local;
    var n := LargestCell(u);
    var q, rem := (u - 12) * 64 / 255, (u - 12) * 64 % 255;
    assert (u - 12) * 64 == 255 * q + rem;
    forall n: nat | n < MAX_PAYLOAD
      ensures PayloadCellSize(u, IndexPage, 0, n) <= MaxLocal(u, IndexPage) + 9
    {
      VarintOfPayload(u, n);
    }
    assert PayloadCellSize(u, IndexPage, 0, n) == q - 14;
  }

  /** On the largest pages the promise does not hold. */
  lemma {:induction false} FourTooMany()
    ensures !FourFit(MAX_USABLE) && !FourFit(16384) && FourFit(8192) && FourFit(512)
  {
    hide FourFit;
    FourFitExactly(MAX_USABLE);
    FourFitExactly(16384);
    FourFitExactly(8192);
    FourFitExactly(512);
  }

  lemma {:induction false} VarintOfPayload(u: nat, n: nat)
    requires MIN_USABLE <= u <= MAX_USABLE && n < MAX_PAYLOAD
    ensures PayloadCellSize(u, IndexPage, 0, n) <= MaxLocal(u, IndexPage) + 9
  {
    hide Local;
  }

  /** A payload with the longest possible length field and as many local bytes as a page allows. */
  lemma {:induction false} LargestCell(u: nat) returns (n: nat)
    requires MIN_USABLE <= u <= MAX_USABLE
    ensures n < MAX_PAYLOAD && PayloadCellSize(u, IndexPage, 0, n) == MaxLocal(u, IndexPage) + 9
  {
    LocalLimits(u, IndexPage);
    var room, k := u - 4, 0x1000_0000 / (u - 4) + 1;
    var most, least := MaxLocal(u, IndexPage), MinLocal(u);
    n := most + k * room;
    assert 0x1000_0000 <= k * room <= 0x1000_0000 + room by {
      assert 0x1000_0000 == (k - 1) * room + 0x1000_0000 % room;
      assert k * room == (k - 1) * room + room;
    }
    RemainderOf(most - least, k, room);
    assert n - least == k * room + (most - least);
    assert Local(u, IndexPage, n) == most;
    assert VarintLen(n) == 5;
  }

  lemma {:induction false} RemainderOf(a: nat, k: nat, m: nat)
    requires a < m
    ensures (k * m + a) % m == a
  {
    var n := k * m + a;
    assert n == (n / m) * m + n % m;
    SameRemainder(m, k, a, n / m, n % m);
  }

  lemma {:induction false} SameRemainder(m: nat, k: nat, a: nat, q: nat, r: nat)
    requires a < m && r < m && k * m + a == q * m + r
    ensures a == r
  {
    if q > k {
      assert (q - k) * m == q * m - k * m;
      AtLeast(q - k, m);
    } else if q < k {
      assert (k - q) * m == k * m - q * m;
      AtLeast(k - q, m);
    }
  }

  lemma {:induction false} AtLeast(j: nat, m: nat)
    requires j >= 1
    ensures j * m >= m
  {
    assert j * m == m + (j - 1) * m;
  }
}
