/** Byte images of two databases with different page sizes, and what copying one page does to them. */
module BackupImage {
  import opened PageLayout
  import opened OverflowChain

  type Image = map<nat, seq<Byte>>

  const PENDING_BYTE := 0x4000_0000

  // ------------------------------------------------------------------ offsets and pages

  /** The page, counted from one, that holds byte `o` when pages have `z` bytes. */
  function PageNo(o: nat, z: nat): nat
    requires z > 0
  {
    o / z + 1
  }

  function Within(o: nat, z: nat): nat
    requires z > 0
  {
    o % z
  }

  function Start(q: nat, z: nat): nat
    requires q >= 1
  {
    (q - 1) * z
  }

  function PendingPage(z: nat): nat
    requires z > 0
  {
    PENDING_BYTE / z + 1
  }

  /** Page sizes of source and destination: one divides the other, and both divide the offset of the
      pending byte, as powers of two from 512 to 65536 do. */
  ghost predicate Sizes(s: nat, d: nat)
  {
    && 512 <= s <= 0x1_0000 && 512 <= d <= 0x1_0000
    && Multiple(PENDING_BYTE, s) && Multiple(PENDING_BYTE, d)
    && (s <= d ==> Multiple(d, s)) && (d <= s ==> Multiple(s, d))
  }

  ghost predicate Multiple(a: nat, b: nat)
    requires b > 0
  {
    a % b == 0
  }

  /** The page sizes that a database may have. */
  function Size(i: nat): (z: nat)
    ensures z >= 512
  {
    if i == 0 then 512 else 2 * Size(i - 1)
  }

  lemma {:induction false} PowersOfTwo(i: nat, j: nat)
    requires i <= 7 && j <= 7
    ensures Sizes(Size(i), Size(j))
  {
    hide Size, Multiple;
    SizeIs();
    Divides(i, 21);
    Divides(j, 21);
    if i <= j { Divides(i, j); Larger(i, j); }
    if j <= i { Divides(j, i); Larger(j, i); }
    Larger(i, 7);
    Larger(j, 7);
  }

  lemma {:induction false} SizeIs()
    ensures Size(7) == 65536 && Size(21) == PENDING_BYTE
  {
    assert Size(2) == 2 * Size(1);
    assert Size(4) == 2 * Size(3);
    assert Size(6) == 2 * Size(5);
    assert Size(8) == 2 * Size(7);
    assert Size(10) == 2 * Size(9);
    assert Size(12) == 2 * Size(11);
    assert Size(14) == 2 * Size(13);
    assert Size(16) == 2 * Size(15);
    assert Size(18) == 2 * Size(17);
    assert Size(20) == 2 * Size(19);
  }

  lemma {:induction false} Larger(i: nat, j: nat)
    requires i <= j
    ensures 512 <= Size(i) <= Size(j) && (i < j ==> Size(i) < Size(j))
    decreases j
  {
    if i < j { Larger(i, j - 1); }
  }

  lemma {:induction false} Divides(i: nat, j: nat)
    requires i <= j
    ensures Multiple(Size(j), Size(i))
    decreases j
  {
    hide Multiple;
    if i < j {
      Divides(i, j - 1);
      TwiceRem(Size(j - 1), Size(i));
    } else {
      Itself(Size(i));
    }
  }

  lemma {:induction false} Itself(a: nat)
    requires a > 0
    ensures Multiple(a, a)
  {
  }

  lemma {:induction false} TwiceRem(a: nat, b: nat)
    requires b > 0 && Multiple(a, b)
    ensures Multiple(2 * a, b)
  {
    var k := a / b;
    assert a == b * k;
    assert 2 * a == (2 * k) * b + 0;
    RemUnique(2 * a, b, 2 * k, 0);
  }

  lemma {:induction false} Split(o: nat, z: nat)
    requires z > 0
    ensures Within(o, z) < z && Start(PageNo(o, z), z) + Within(o, z) == o
  {
    assert z * (o / z) + o % z == o;
    assert (o / z) * z == z * (o / z);
  }

  lemma {:induction false} SplitUnique(q: nat, w: nat, z: nat)
    requires q >= 1 && w < z
    ensures PageNo(Start(q, z) + w, z) == q && Within(Start(q, z) + w, z) == w
  {
    hide PageNo, Within, Start;
    var o := Start(q, z) + w;
    Split(o, z);
    var p, v := PageNo(o, z), Within(o, z);
    PagePositive(o, z);
    StartNext(p, z);
    StartNext(q, z);
    if p < q { StartOrder(p + 1, q, z); }
    if q < p { StartOrder(q + 1, p, z); }
  }

  lemma {:induction false} PagePositive(o: nat, z: nat)
    requires z > 0
    ensures PageNo(o, z) >= 1
  {
  }

  lemma {:induction false} StartNext(q: nat, z: nat)
    requires q >= 1
    ensures Start(q + 1, z) == Start(q, z) + z && Start(1, z) == 0
  {
  }

  lemma {:induction false} StartOrder(p: nat, q: nat, z: nat)
    requires 1 <= p <= q
    ensures Start(p, z) <= Start(q, z)
  {
    assert (q - 1) * z == (p - 1) * z + (q - p) * z;
    assert (q - p) * z >= 0;
  }

  /** The pending page covers the bytes from the pending byte on. */
  lemma {:induction false} PendingCovers(o: nat, z: nat)
    requires z > 0 && Multiple(PENDING_BYTE, z)
    ensures PageNo(o, z) == PendingPage(z) <==> PENDING_BYTE <= o < PENDING_BYTE + z
    ensures Start(PendingPage(z), z) == PENDING_BYTE
  {
    hide PageNo, Within, Start;
    Split(PENDING_BYTE, z);
    PendingIs(z);
    Split(o, z);
    StartNext(PendingPage(z), z);
    if PENDING_BYTE <= o < PENDING_BYTE + z { SplitUnique(PendingPage(z), o - PENDING_BYTE, z); }
  }

  lemma {:induction false} PendingIs(z: nat)
    requires z > 0 && Multiple(PENDING_BYTE, z)
    ensures PageNo(PENDING_BYTE, z) == PendingPage(z) && Within(PENDING_BYTE, z) == 0
  {
  }

  /** Start of a page in pages `k` times as large: it does not cross their boundary. */
  lemma {:induction false} SmallInLarge(q: nat, s: nat, d: nat)
    requires q >= 1 && s > 0 && d > 0 && Multiple(d, s)
    ensures Within(Start(q, s), d) + s <= d
  {
    var o := Start(q, s);
    var k := d / s;
    assert d == k * s by { assert s * (d / s) + d % s == d; }
    Nested(q - 1, k, s);
  }

  /** Remainder of `x * s` by `k * s`. */
  lemma {:induction false} Nested(x: nat, k: nat, s: nat)
    requires s > 0 && k > 0 && k * s > 0
    ensures (x * s) % (k * s) + s <= k * s
  {
    hide Within, PageNo, Start;
    var a, b := PageNo(x, k) - 1, Within(x, k);
    Split(x, k);
    PagePositive(x, k);
    StartIs(a + 1, k);
    Regrouped(x, a, k, b, s);
    Scale(b, k, s);
    RemUnique(x * s, k * s, a, b * s);
  }

  lemma {:induction false} StartIs(q: nat, z: nat)
    requires q >= 1
    ensures Start(q, z) == (q - 1) * z
  {
  }

  lemma {:induction false} Scale(b: nat, k: nat, s: nat)
    requires b < k
    ensures b * s + s <= k * s
    decreases k
  {
    assert k * s == (k - 1) * s + s;
    if b + 1 < k { Scale(b, k - 1, s); }
  }

  lemma {:induction false} Regrouped(x: nat, a: nat, k: nat, b: nat, s: nat)
    requires x == a * k + b
    ensures x * s == a * (k * s) + b * s
  {
    assert (a * k + b) * s == (a * k) * s + b * s;
    assert (a * k) * s == a * (k * s);
  }

  lemma {:induction false} RemUnique(v: nat, z: nat, a: nat, r: nat)
    requires r < z && v == a * z + r
    ensures v % z == r
  {
    hide PageNo, Within;
    SplitUnique(a + 1, r, z);
    WithinIs(v, z);
  }

  lemma {:induction false} WithinIs(v: nat, z: nat)
    requires z > 0
    ensures Within(v, z) == v % z && Start(v / z + 1, z) == (v / z) * z && PageNo(v, z) == v / z + 1
  {
  }

  // ------------------------------------------------------------------ bytes of an image

  /** Byte `o` of an image; what has never been written is zero. */
  function ByteAt(img: Image, z: nat, o: nat): Byte
    requires z > 0
  {
    var p, w := PageNo(o, z), Within(o, z);
    if p in img && w < |img[p]| then img[p][w] else 0
  }

  /** A page of an image, made of zeros if it is new. */
  function PageAt(img: Image, z: nat, p: nat): seq<Byte>
  {
    if p in img then img[p] else seq(z, _ => 0)
  }

  ghost predicate Sized(img: Image, z: nat)
  {
    forall p :: p in img ==> |img[p]| == z
  }

  /** The image with `b` written at `w` of page `p`. */
  function Patched(img: Image, z: nat, p: nat, w: nat, b: seq<Byte>): Image
  {
    var page := PageAt(img, z, p);
    if w + |b| <= |page| then img[p := Splice(page, w, b)] else img
  }

  /** Writing `b` at `w` of page `p` changes the bytes there and no others. */
  lemma {:induction false} WriteBytes(img: Image, z: nat, p: nat, w: nat, b: seq<Byte>, o: nat)
    requires z > 0 && p >= 1 && Sized(img, z) && w + |b| <= z
    ensures |PageAt(img, z, p)| == z && Sized(Patched(img, z, p, w, b), z)
    ensures var from := Start(p, z) + w;
      ByteAt(Patched(img, z, p, w, b), z, o) == if from <= o < from + |b| then b[o - from] else ByteAt(img, z, o)
  {
    hide PageNo, Within, Start;
    Split(o, z);
    var from := Start(p, z) + w;
    if PageNo(o, z) == p {
      assert o == Start(p, z) + Within(o, z);
    } else {
      if from <= o < from + |b| { SplitUnique(p, o - Start(p, z), z); }
    }
  }
}
