/** Online backup (backup.c): an incremental copy of a source database that goes on changing. */
module Backups {
  import opened PageLayout
  import opened OverflowChain
  import opened BackupImage

  datatype Rc = Ok | Busy | Locked | ReadOnly | Done

  predicate IsFatalError(rc: Rc)
  {
    rc != Ok && rc != Busy && rc != Locked
  }

  const TWO32 := 0x1_0000_0000

  /** The page count in the header of page 1, which a copied page gets from the source's size. */
  predicate SizeField(o: nat)
  {
    28 <= o < 32
  }

  /** Header fields that the copy does not take from the source: the file format versions, the change
      counter, the page count, the schema cookie, and the version fields at the end of the header. */
  predicate Stamped(o: nat)
  {
    18 <= o < 20 || 24 <= o < 32 || 40 <= o < 44 || 92 <= o < 100
  }

  /** Header fields that the last step writes itself. */
  predicate Written(o: nat, wal: bool)
  {
    (wal && 18 <= o < 20) || 24 <= o < 28 || 40 <= o < 44 || 92 <= o < 100
  }

  /** The header of a new database of one empty table page (newDatabase in btree.c:3229-3250), without
      reserved bytes and without auto-vacuum. */
  function EmptyHeader(z: nat): (h: seq<Byte>)
    ensures |h| == 108
  {
    [0x53, 0x51, 0x4c, 0x69, 0x74, 0x65, 0x20, 0x66, 0x6f, 0x72, 0x6d, 0x61, 0x74, 0x20, 0x33, 0x00]
    + [z / 256 % 256, z / 0x1_0000 % 256, 1, 1, 0, 64, 32, 32]
    + seq(7, _ => 0) + [1] + seq(68, _ => 0)
    + [0x0D, 0, 0, 0, 0, z / 256 % 256, z % 256, 0]
  }

  /** The bytes from `at` on are `b`. */
  ghost predicate FieldIs(img: Image, z: nat, at: nat, b: seq<Byte>)
    requires z > 0
  {
    forall i :: 0 <= i < |b| ==> ByteAt(img, z, at + i) == b[i]
  }

  /** Byte `o` is in the page of the pending byte, for pages of `z` bytes. */
  predicate Pending(o: nat, z: nat)
  {
    PENDING_BYTE <= o < PENDING_BYTE + z
  }

  // ------------------------------------------------------------------ what one page copy does

  /** Byte `o` after the source bytes from `lo` to `upto` have been copied. */
  ghost predicate CopiedAt(was: Image, img: Image, d: nat, lo: nat, upto: nat, data: seq<Byte>, bUpdate: bool,
          last: nat, nDest: nat, o: nat)
    requires d > 0
  {
    if lo <= o < upto && !Pending(o, d) then
      && o - lo < |data| && PageNo(o, d) <= nDest
      && ByteAt(img, d, o) == if SizeField(o) && !bUpdate then Be32(last)[o - 28] else data[o - lo]
    else ByteAt(img, d, o) == ByteAt(was, d, o)
  }

  ghost predicate CopiedTo(was: Image, img: Image, d: nat, lo: nat, upto: nat, data: seq<Byte>, bUpdate: bool, last: nat, nDest: nat)
    requires d > 0
  {
    forall o: nat :: CopiedAt(was, img, d, lo, upto, data, bUpdate, last, nDest, o)
  }

  /** What a copy writes at `from`: source bytes, with the page count put in if this is page 1. */
  function Outgoing(data: seq<Byte>, off: nat, n: nat, from: nat, bUpdate: bool, last: nat): (b: seq<Byte>)
    requires off + n <= |data| && n >= 512
    ensures |b| == n
  {
    var b := data[off..off + n];
    if from == 0 && !bUpdate then Splice(b, 28, Be32(last)) else b
  }

  lemma {:induction false} OutgoingAt(data: seq<Byte>, off: nat, n: nat, from: nat, bUpdate: bool, last: nat, k: nat)
    requires off + n <= |data| && n >= 512 && k < n && (from > 0 ==> from >= 512)
    ensures Outgoing(data, off, n, from, bUpdate, last)[k] ==
      if SizeField(from + k) && !bUpdate then Be32(last)[from + k - 28] else data[off + k]
  {
    hide Be32;
  }

  /** One destination page written; the bytes before `from` had been copied already. */
  lemma {:induction false} CopyPart(was: Image, img: Image, d: nat, lo: nat, from: nat, n: nat, data: seq<Byte>, bUpdate: bool, last: nat,
                                    nDest: nat, nDest': nat, p: nat, w: nat)
    requires d >= 512 && Sized(img, d) && lo <= from && from - lo + n <= |data| && n >= 512 && (from > 0 ==> from >= 512)
    requires p >= 1 && from == Start(p, d) + w && w + n <= d && nDest <= nDest' && p <= nDest' && Multiple(PENDING_BYTE, d)
    requires CopiedTo(was, img, d, lo, from, data, bUpdate, last, nDest) && p != PendingPage(d)
    ensures CopiedTo(was, Patched(img, d, p, w, Outgoing(data, from - lo, n, from, bUpdate, last)), d, lo, from + n, data, bUpdate, last, nDest')
    ensures Sized(Patched(img, d, p, w, Outgoing(data, from - lo, n, from, bUpdate, last)), d)
  {
    hide Splice, Outgoing, PageAt, Patched, ByteAt, PageNo, Start, PendingPage, Be32, Sized, Multiple;
    var b := Outgoing(data, from - lo, n, from, bUpdate, last);
    WriteBytes(img, d, p, w, b, 0);
    var img', upto := Patched(img, d, p, w, b), from + n;
    forall o: nat ensures CopiedAt(was, img', d, lo, upto, data, bUpdate, last, nDest', o) {
      assert CopiedAt(was, img, d, lo, from, data, bUpdate, last, nDest, o);
      WriteBytes(img, d, p, w, b, o);
      PendingCovers(o, d);
      if from <= o < from + n {
        OutgoingAt(data, from - lo, n, from, bUpdate, last, o - from);
        SplitUnique(p, w + (o - from), d);
      }
    }
  }

  /** A destination page that is not written because it is that of the pending byte. */
  lemma {:induction false} SkipPart(was: Image, img: Image, d: nat, lo: nat, from: nat, n: nat, data: seq<Byte>, bUpdate: bool, last: nat,
                                    nDest: nat, p: nat, w: nat)
    requires d > 0 && p >= 1 && from == Start(p, d) + w && w + n <= d && p == PendingPage(d) && Multiple(PENDING_BYTE, d)
    requires CopiedTo(was, img, d, lo, from, data, bUpdate, last, nDest)
    ensures CopiedTo(was, img, d, lo, from + n, data, bUpdate, last, nDest)
  {
    hide ByteAt, PageNo, Start, PendingPage, Be32, Multiple;
    var upto := from + n;
    forall o: nat ensures CopiedAt(was, img, d, lo, upto, data, bUpdate, last, nDest, o) {
      assert CopiedAt(was, img, d, lo, from, data, bUpdate, last, nDest, o);
      PendingCovers(o, d);
      if from <= o < from + n { SplitUnique(p, w + (o - from), d); }
    }
  }

  lemma {:induction false} CopiedNothing(img: Image, d: nat, lo: nat, data: seq<Byte>, bUpdate: bool, last: nat, nDest: nat)
    requires d > 0
    ensures CopiedTo(img, img, d, lo, lo, data, bUpdate, last, nDest)
  {
  }

  /** Source pages are whole numbers of destination pages, or lie within one. */
  lemma {:induction false} SourceStart(q: nat, s: nat, d: nat) returns (p: nat)
    requires q >= 1 && s > 0 && d > 0 && Multiple(s, d)
    ensures p >= 1 && Start(p, d) == Start(q, s)
  {
    var k := s / d;
    p := (q - 1) * k + 1;
    assert s == k * d by { assert d * (s / d) + s % d == s; }
    Regrouped(q - 1, q - 1, 1, 0, s);
    assert ((q - 1) * k) * d == (q - 1) * (k * d);
  }

  lemma {:induction false} PageAfter(p: nat, r: nat, d: nat)
    requires p >= 1 && r >= 1 && d > 0 && Start(p, d) < Start(r, d)
    ensures Start(p, d) + d <= Start(r, d)
  {
    hide Start;
    if r <= p { StartOrder(r, p, d); }
    StartNext(p, d);
    StartOrder(p + 1, r, d);
  }

  // ------------------------------------------------------------------ how far the copy agrees

  /** Source byte `o`, if it is on a page already copied, is in the destination.  Not so the bytes of
      pages that hold the pending byte, and the page count in the header. */
  ghost predicate SyncedAt(src: Image, s: nat, nSrc: nat, dest: Image, d: nat, nDest: nat, iNext: nat, o: nat)
    requires s > 0 && d > 0
  {
    PageNo(o, s) < iNext && PageNo(o, s) <= nSrc && !Pending(o, s) && !Pending(o, d) ==>
      PageNo(o, d) <= nDest && (!SizeField(o) ==> ByteAt(dest, d, o) == ByteAt(src, s, o))
  }

  ghost predicate Synced(src: Image, s: nat, nSrc: nat, dest: Image, d: nat, nDest: nat, iNext: nat)
    requires s > 0 && d > 0
  {
    forall o: nat :: SyncedAt(src, s, nSrc, dest, d, nDest, iNext, o)
  }

  /** Writing page `q` leaves the size of the source, or makes `q` its last page. */
  ghost predicate GrownTo(nSrc: nat, nSrc': nat, q: nat, s: nat)
    requires s > 0
  {
    nSrc' == nSrc || (nSrc' == q && (q == nSrc + 1 || (q == nSrc + 2 && nSrc + 1 == PendingPage(s))))
  }

  /** Page `q` has changed in the source and has been copied; the pages before `iNext` agree again, and
      so do those before `q + 1` if `q` is next. */
  lemma {:induction false} PageSynced(src: Image, src': Image, s: nat, nSrc: nat, nSrc': nat, dest: Image, dest': Image, d: nat,
                                      nDest: nat, nDest': nat, iNext: nat, iNext': nat, q: nat, data: seq<Byte>, bUpdate: bool)
    requires Sizes(s, d) && Synced(src, s, nSrc, dest, d, nDest, iNext) && q >= 1 && |data| == s && nDest <= nDest'
    requires iNext' == iNext || (iNext' == q + 1 == iNext + 1)
    requires src' == src[q := data] && CopiedTo(dest, dest', d, Start(q, s), Start(q, s) + s, data, bUpdate, nSrc, nDest')
    requires GrownTo(nSrc, nSrc', q, s)
    ensures Synced(src', s, nSrc', dest', d, nDest', iNext')
  {
    hide ByteAt, PageNo, Within, Start, Be32, PendingPage, Multiple;
    var lo := Start(q, s);
    forall o: nat ensures SyncedAt(src', s, nSrc', dest', d, nDest', iNext', o) {
      assert SyncedAt(src, s, nSrc, dest, d, nDest, iNext, o);
      assert CopiedAt(dest, dest', d, lo, lo + s, data, bUpdate, nSrc, nDest', o);
      PendingCovers(o, s);
      Split(o, s);
      PagePositive(o, s);
      SourceByte(src, s, q, data, o);
    }
  }

  /** Byte `o` of the source after page `q` has been written. */
  lemma {:induction false} SourceByte(src: Image, s: nat, q: nat, data: seq<Byte>, o: nat)
    requires s > 0 && q >= 1 && |data| == s
    ensures PageNo(o, s) == q ==> Start(q, s) <= o < Start(q, s) + s && ByteAt(src[q := data], s, o) == data[o - Start(q, s)]
    ensures PageNo(o, s) != q ==> !(Start(q, s) <= o < Start(q, s) + s) && ByteAt(src[q := data], s, o) == ByteAt(src, s, o)
  {
    hide PageNo, Within, Start;
    Split(o, s);
    if Start(q, s) <= o < Start(q, s) + s { SplitUnique(q, o - Start(q, s), s); }
  }

  /** A page beyond those copied has changed in the source. */
  lemma {:induction false} LaterPage(src: Image, src': Image, s: nat, nSrc: nat, nSrc': nat, dest: Image, d: nat, nDest: nat, iNext: nat,
                                     q: nat, data: seq<Byte>)
    requires Sizes(s, d) && Synced(src, s, nSrc, dest, d, nDest, iNext) && q >= iNext && q >= 1 && |data| == s
    requires src' == src[q := data] && GrownTo(nSrc, nSrc', q, s)
    ensures Synced(src', s, nSrc', dest, d, nDest, iNext)
  {
    hide ByteAt, PageNo, Start, PendingPage, Multiple;
    forall o: nat ensures SyncedAt(src', s, nSrc', dest, d, nDest, iNext, o) {
      assert SyncedAt(src, s, nSrc, dest, d, nDest, iNext, o);
      PendingCovers(o, s);
      SourceByte(src, s, q, data, o);
    }
  }

  /** With nothing copied, nothing is claimed. */
  lemma {:induction false} NothingSynced(src: Image, s: nat, nSrc: nat, dest: Image, d: nat, nDest: nat)
    requires s > 0 && d > 0
    ensures Synced(src, s, nSrc, dest, d, nDest, 1)
  {
    forall o: nat ensures SyncedAt(src, s, nSrc, dest, d, nDest, 1, o) { PagePositive(o, s); }
  }

  /** The page of the pending byte is passed over; a smaller source leaves fewer pages to agree. */
  lemma {:induction false} FewerPages(src: Image, s: nat, nSrc: nat, nSrc': nat, dest: Image, d: nat, nDest: nat, iNext: nat, iNext': nat)
    requires Sizes(s, d) && Synced(src, s, nSrc, dest, d, nDest, iNext) && nSrc' <= nSrc
    requires iNext' == iNext || (iNext' == iNext + 1 && iNext == PendingPage(s))
    ensures Synced(src, s, nSrc', dest, d, nDest, iNext')
  {
    hide ByteAt, PageNo, PendingPage, Multiple;
    forall o: nat ensures SyncedAt(src, s, nSrc', dest, d, nDest, iNext', o) {
      assert SyncedAt(src, s, nSrc, dest, d, nDest, iNext, o);
      PendingCovers(o, s);
    }
  }

  // ------------------------------------------------------------------ what one step copies

  /** Byte `o` after the source pages from `from` to `upto` have been copied: it is that of the source, and in
      the header the number of source pages, unless it is on one of the pages that hold the pending byte. */
  ghost predicate RangeAt(src: Image, s: nat, nSrc: nat, was: Image, img: Image, d: nat, from: nat, upto: nat, o: nat)
    requires s > 0 && d > 0
  {
    if from <= PageNo(o, s) < upto && !Pending(o, s) && !Pending(o, d) then
      |Be32(nSrc)| == 4 && ByteAt(img, d, o) == if SizeField(o) then Be32(nSrc)[o - 28] else ByteAt(src, s, o)
    else ByteAt(img, d, o) == ByteAt(was, d, o)
  }

  ghost predicate CopiedRange(src: Image, s: nat, nSrc: nat, was: Image, img: Image, d: nat, from: nat, upto: nat)
    requires s > 0 && d > 0
  {
    forall o: nat :: RangeAt(src, s, nSrc, was, img, d, from, upto, o)
  }

  lemma {:induction false} NothingCopied(src: Image, s: nat, nSrc: nat, img: Image, d: nat, from: nat)
    requires s > 0 && d > 0
    ensures CopiedRange(src, s, nSrc, img, img, d, from, from)
  {
  }

  lemma {:induction false} OneMoreCopied(src: Image, s: nat, nSrc: nat, was: Image, img: Image, img': Image, d: nat,
          from: nat, q: nat, nDest: nat)
    requires Sizes(s, d) && 1 <= from <= q && CopiedRange(src, s, nSrc, was, img, d, from, q)
    requires q != PendingPage(s) && q in src && |src[q]| == s
    requires CopiedTo(img, img', d, Start(q, s), Start(q, s) + s, src[q], false, nSrc, nDest)
    ensures CopiedRange(src, s, nSrc, was, img', d, from, q + 1)
  {
    hide ByteAt, PageNo, Within, Start, Be32, PendingPage, Multiple;
    FourBytes(nSrc);
    assert src[q := src[q]] == src;
    var lo, upto, data, next := Start(q, s), Start(q, s) + s, src[q], q + 1;
    forall o: nat ensures RangeAt(src, s, nSrc, was, img', d, from, next, o) {
      assert RangeAt(src, s, nSrc, was, img, d, from, q, o);
      assert CopiedAt(img, img', d, lo, upto, data, false, nSrc, nDest, o);
      PendingCovers(o, s);
      SourceByte(src, s, q, src[q], o);
    }
  }

  lemma {:induction false} PendingNotCopied(src: Image, s: nat, nSrc: nat, was: Image, img: Image, d: nat, from: nat, q: nat)
    requires Sizes(s, d) && 1 <= from <= q && CopiedRange(src, s, nSrc, was, img, d, from, q) && q == PendingPage(s)
    ensures CopiedRange(src, s, nSrc, was, img, d, from, q + 1)
  {
    hide ByteAt, PageNo, Be32, PendingPage, Multiple;
    var next := q + 1;
    forall o: nat ensures RangeAt(src, s, nSrc, was, img, d, from, next, o) {
      assert RangeAt(src, s, nSrc, was, img, d, from, q, o);
      PendingCovers(o, s);
    }
  }

  /** The page that is next after a step of `nPage` pages, of all if that is negative. */
  function NextAfter(iNext: nat, nPage: int, nSrc: nat): nat
  {
    if iNext > nSrc then iNext else if nPage < 0 || iNext + nPage > nSrc then nSrc + 1 else iNext + nPage
  }

  lemma {:induction false} NextIs(iNext: nat, nPage: int, nSrc: nat)
    ensures NextAfter(iNext, nPage, nSrc) >= iNext
  {
  }

  /** Some page from `from` to `upto` has to be copied: the pending-byte page does not. */
  ghost predicate AnyToCopy(from: nat, upto: nat, s: nat)
    requires s > 0
  {
    exists q :: from <= q < upto && NotPending(q, s)
  }

  ghost predicate NotPending(q: nat, s: nat)
    requires s > 0
  {
    q != PendingPage(s)
  }

  /** The result of a step from page `iNext` on, when the source is not being written: what locking the
      destination gave, if it is still not locked; refusal, where pages of another size would be put into a
      database in WAL mode or in memory; done, if no page is left. */
  ghost function Outcome(isLocked: bool, lock: Rc, s: nat, d: nat, wal: bool, memDb: bool, iNext: nat, nPage: int, nSrc: nat): Rc
    requires s > 0
  {
    if !isLocked then lock
    else if s != d && (wal || (memDb && AnyToCopy(iNext, NextAfter(iNext, nPage, nSrc), s))) then ReadOnly
    else if NextAfter(iNext, nPage, nSrc) > nSrc then Done
    else Ok
  }

  lemma {:induction false} NothingToCopy(from: nat, s: nat)
    requires s > 0
    ensures !AnyToCopy(from, from, s)
  {
  }

  /** The first page is never that of the pending byte. */
  lemma {:induction false} FirstToCopy(upto: nat, s: nat)
    requires 0 < s <= 0x1_0000 && upto > 1
    ensures AnyToCopy(1, upto, s)
  {
    assert NotPending(1, s);
  }

  lemma {:induction false} OneMoreToCopy(from: nat, upto: nat, s: nat)
    requires from <= upto && s > 0
    ensures AnyToCopy(from, upto + 1, s) <==> AnyToCopy(from, upto, s) || NotPending(upto, s)
  {
    hide NotPending;
  }

  lemma {:induction false} MoreToCopy(from: nat, upto: nat, upto': nat, s: nat)
    requires s > 0 && upto <= upto'
    ensures AnyToCopy(from, upto, s) ==> AnyToCopy(from, upto', s)
  {
  }

  /** The first 512 bytes, and so the header, are the same. */
  ghost predicate SameHeader(was: Image, img: Image, z: nat)
    requires z > 0
  {
    forall o: nat :: o < 512 ==> ByteAt(img, z, o) == ByteAt(was, z, o)
  }

  // ------------------------------------------------------------------ the end of a backup

  /** All bytes of the source agree, but for the pending-byte page, which no database uses, and the
      stamped header fields. */
  ghost predicate AgreeAt(src: Image, s: nat, nSrc: nat, dest: Image, d: nat, o: nat)
    requires s > 0 && d > 0
  {
    o < Start(nSrc + 1, s) && !Pending(o, s) && !Stamped(o) ==> ByteAt(dest, d, o) == ByteAt(src, s, o)
  }

  ghost predicate Agree(src: Image, s: nat, nSrc: nat, dest: Image, d: nat)
    requires s > 0 && d > 0
  {
    forall o: nat :: AgreeAt(src, s, nSrc, dest, d, o)
  }

  /** Agreement outside the destination's pending-byte page, up to offset `upto` within it. */
  ghost predicate Almost(src: Image, s: nat, nSrc: nat, dest: Image, d: nat, upto: nat)
    requires s > 0 && d > 0
  {
    forall o: nat :: AlmostAt(src, s, nSrc, dest, d, upto, o)
  }

  ghost predicate AlmostAt(src: Image, s: nat, nSrc: nat, dest: Image, d: nat, upto: nat, o: nat)
    requires s > 0 && d > 0
  {
    (Pending(o, d) ==> o < upto) ==> AgreeAt(src, s, nSrc, dest, d, o)
  }

  lemma {:induction false} AllCopied(src: Image, s: nat, nSrc: nat, dest: Image, d: nat, nDest: nat, iNext: nat)
    requires Sizes(s, d) && Synced(src, s, nSrc, dest, d, nDest, iNext) && iNext > nSrc
    ensures Almost(src, s, nSrc, dest, d, PENDING_BYTE + s)
  {
    hide ByteAt, PageNo, Start, Multiple;
    var upto := PENDING_BYTE + s;
    forall o: nat ensures AlmostAt(src, s, nSrc, dest, d, upto, o) {
      assert SyncedAt(src, s, nSrc, dest, d, nDest, iNext, o);
      if o < Start(nSrc + 1, s) { PageBelow(o, nSrc + 1, s); }
    }
  }

  lemma {:induction false} PageBelow(o: nat, q: nat, z: nat)
    requires q >= 1 && z > 0 && o < Start(q, z)
    ensures PageNo(o, z) < q
  {
    hide PageNo, Within, Start;
    Split(o, z);
    PagePositive(o, z);
    if q <= PageNo(o, z) { StartOrder(q, PageNo(o, z), z); }
  }

  /** Writing stamped header fields, or any bytes that are right, keeps the agreement. */
  lemma {:induction false} StampKept(src: Image, s: nat, nSrc: nat, dest: Image, d: nat, upto: nat, at: nat, b: seq<Byte>)
    requires Sizes(s, d) && Sized(dest, d) && Almost(src, s, nSrc, dest, d, upto) && at + |b| <= d
    requires forall o :: at <= o < at + |b| ==> Stamped(o)
    ensures var dest' := Patched(dest, d, 1, at, b);
      Sized(dest', d) && Almost(src, s, nSrc, dest', d, upto)
  {
    hide ByteAt, PageAt, Start, Splice, Multiple, Patched;
    WriteBytes(dest, d, 1, at, b, 0);
    StartNext(1, d);
    var dest' := Patched(dest, d, 1, at, b);
    forall o: nat ensures AlmostAt(src, s, nSrc, dest', d, upto, o) {
      assert AlmostAt(src, s, nSrc, dest, d, upto, o);
      WriteBytes(dest, d, 1, at, b, o);
    }
  }

  lemma {:induction false} Stamped1(dest: Image, d: nat, at: nat, b: seq<Byte>)
    requires d >= 512 && Sized(dest, d) && at + |b| <= 512
    ensures FieldIs(Patched(dest, d, 1, at, b), d, at, b)
    ensures forall o: nat :: o < at || at + |b| <= o ==> ByteAt(Patched(dest, d, 1, at, b), d, o) == ByteAt(dest, d, o)
  {
    hide ByteAt, Patched, Start;
    StartNext(1, d);
    forall o: nat ensures o < at || at + |b| <= o ==> ByteAt(Patched(dest, d, 1, at, b), d, o) == ByteAt(dest, d, o) {
      WriteBytes(dest, d, 1, at, b, o);
    }
    forall i | 0 <= i < |b| ensures ByteAt(Patched(dest, d, 1, at, b), d, at + i) == b[i] {
      WriteBytes(dest, d, 1, at, b, at + i);
    }
  }

  /** The header fields that the last step writes: the schema cookie is one more than the destination's
      was, the file format is 2 in WAL mode and the source's otherwise, then come the pager's own stamps.  An
      empty source gives the header of a new database. */
  ghost predicate HeaderIs(src: Image, s: nat, nSrc: nat, dest: Image, d: nat, wal: bool, cookie: nat, counter: nat, version: nat)
    requires s > 0 && d > 0
  {
    && FieldIs(dest, d, 40, Be32(cookie)) && FieldIs(dest, d, 24, Be32(counter)) && FieldIs(dest, d, 92, Be32(counter) + Be32(version))
    && (wal ==> FieldIs(dest, d, 18, [2, 2]))
    && (!wal && nSrc >= 1 ==> forall o: nat :: 18 <= o < 20 ==> ByteAt(dest, d, o) == ByteAt(src, s, o))
    && (nSrc == 0 ==> forall o: nat :: o < 108 && !Written(o, wal) ==> ByteAt(dest, d, o) == EmptyHeader(d)[o])
  }

  /** From the copied pages, or the new header, through the stamps `d2` to the final image. */
  lemma {:induction false} HeaderDone(src: Image, s: nat, nSrc: nat, d1: Image, d2: Image, dest: Image, d: nat,
          wal: bool, cookie: nat, counter: nat, version: nat)
    requires s > 0 && d > 0 && SameHeader(d2, dest, d)
    requires nSrc >= 1 ==> forall o: nat :: 18 <= o < 20 ==> ByteAt(d1, d, o) == ByteAt(src, s, o)
    requires nSrc == 0 ==> FieldIs(d1, d, 0, EmptyHeader(d))
    requires forall o: nat :: !Written(o, wal) ==> ByteAt(d2, d, o) == ByteAt(d1, d, o)
    requires FieldIs(d2, d, 40, Be32(cookie)) && FieldIs(d2, d, 24, Be32(counter)) && FieldIs(d2, d, 92, Be32(counter) + Be32(version))
    requires wal ==> FieldIs(d2, d, 18, [2, 2])
    ensures HeaderIs(src, s, nSrc, dest, d, wal, cookie, counter, version)
    ensures forall o: nat :: SizeField(o) ==> ByteAt(dest, d, o) == ByteAt(d1, d, o)
  {
    hide ByteAt, Be32, EmptyHeader, FieldIs;
    FourBytes(cookie);
    FourBytes(counter);
    FourBytes(version);
    HeaderKept(d2, dest, d, 40, Be32(cookie));
    HeaderKept(d2, dest, d, 24, Be32(counter));
    HeaderKept(d2, dest, d, 92, Be32(counter) + Be32(version));
    if wal { HeaderKept(d2, dest, d, 18, [2, 2]); }
    if nSrc == 0 { EmptyKept(d1, d2, dest, d, wal); }
  }

  lemma {:induction false} EmptyKept(d1: Image, d2: Image, dest: Image, d: nat, wal: bool)
    requires d > 0 && FieldIs(d1, d, 0, EmptyHeader(d)) && SameHeader(d2, dest, d)
    requires forall o: nat :: !Written(o, wal) ==> ByteAt(d2, d, o) == ByteAt(d1, d, o)
    ensures forall o: nat :: o < 108 && !Written(o, wal) ==> ByteAt(dest, d, o) == EmptyHeader(d)[o]
  {
    hide ByteAt, EmptyHeader;
    forall o: nat | o < 108 && !Written(o, wal) ensures ByteAt(dest, d, o) == EmptyHeader(d)[o] {
      assert ByteAt(d1, d, 0 + o) == EmptyHeader(d)[o];
    }
  }

  lemma {:induction false} Unchanged(img: Image, z: nat)
    requires z > 0
    ensures SameHeader(img, img, z)
  {
  }

  lemma {:induction false} HeaderKept(was: Image, dest: Image, d: nat, at: nat, b: seq<Byte>)
    requires d > 0 && at + |b| <= 512 && FieldIs(was, d, at, b) && SameHeader(was, dest, d)
    ensures FieldIs(dest, d, at, b)
  {
    hide ByteAt;
  }

  /** The file format bytes of a copied first page. */
  lemma {:induction false} FormatCopied(src: Image, s: nat, nSrc: nat, dest: Image, d: nat, nDest: nat, iNext: nat)
    requires Sizes(s, d) && Synced(src, s, nSrc, dest, d, nDest, iNext) && iNext > nSrc
    ensures nSrc >= 1 ==> forall o: nat :: 18 <= o < 20 ==> ByteAt(dest, d, o) == ByteAt(src, s, o)
  {
    hide ByteAt, PageNo, Start, Multiple;
    StartNext(1, s);
    forall o: nat | nSrc >= 1 && 18 <= o < 20 ensures ByteAt(dest, d, o) == ByteAt(src, s, o) {
      SplitUnique(1, o, s);
      assert SyncedAt(src, s, nSrc, dest, d, nDest, iNext, o);
    }
  }

  lemma {:induction false} NotHeader(dest: Image, d: nat, w: nat, b: seq<Byte>)
    requires d > 0 && Sized(dest, d) && w + |b| <= d && Multiple(PENDING_BYTE, d)
    ensures PendingPage(d) >= 1 && SameHeader(dest, Patched(dest, d, PendingPage(d), w, b), d)
  {
    hide ByteAt, Patched, Start, PendingPage, Multiple;
    PendingCovers(0, d);
    PendingPositive(d);
    forall o: nat | o < 512 ensures ByteAt(Patched(dest, d, PendingPage(d), w, b), d, o) == ByteAt(dest, d, o) {
      WriteBytes(dest, d, PendingPage(d), w, b, o);
    }
  }

  /** The page count after the copy of a range of pages. */
  lemma {:induction false} CountCopied(src: Image, s: nat, nSrc: nat, was: Image, img: Image, d: nat, from: nat, upto: nat)
    requires Sizes(s, d) && CopiedRange(src, s, nSrc, was, img, d, from, upto) && upto > 1
    ensures if from <= 1 then FieldIs(img, d, 28, Be32(nSrc)) else forall o: nat :: SizeField(o) ==> ByteAt(img, d, o) == ByteAt(was, d, o)
  {
    hide ByteAt, PageNo, Be32, Start, Multiple;
    StartNext(1, s);
    forall o: nat | SizeField(o) ensures RangeAt(src, s, nSrc, was, img, d, from, upto, o) && PageNo(o, s) == 1 {
      SplitUnique(1, o, s);
    }
    FourBytes(nSrc);
    assert SizeField(28) && SizeField(29) && SizeField(30) && SizeField(31);
  }

  lemma {:induction false} CountKept(was: Image, img: Image, d: nat, b: seq<Byte>)
    requires d > 0 && |b| == 4 && FieldIs(was, d, 28, b) && forall o: nat :: SizeField(o) ==> ByteAt(img, d, o) == ByteAt(was, d, o)
    ensures FieldIs(img, d, 28, b)
  {
    hide ByteAt;
  }

  /** Source page `q` begins `w` bytes into the destination's page `p`, that of the pending byte. */
  ghost predicate OnPendingPage(q: nat, s: nat, d: nat, p: nat, w: nat)
  {
    s > 0 && d > 0 && q >= 1 && p == PendingPage(d) && Start(q, s) == PENDING_BYTE + w && w + s <= d
  }

  /** Such a page is written to the file directly. */
  lemma {:induction false} ExtraPage(src: Image, s: nat, nSrc: nat, dest: Image, d: nat, q: nat, p: nat, w: nat)
    requires Sizes(s, d) && s < d && Sized(dest, d) && Almost(src, s, nSrc, dest, d, PENDING_BYTE + w)
    requires OnPendingPage(q, s, d, p, w) && q in src && |src[q]| == s
    ensures Sized(Patched(dest, d, p, w, src[q]), d) && Almost(src, s, nSrc, Patched(dest, d, p, w, src[q]), d, PENDING_BYTE + w + s)
  {
    hide ByteAt, PageAt, Patched, Start, Splice, PendingPage, PageNo, Multiple;
    PendingCovers(0, d);
    PendingPositive(d);
    WriteBytes(dest, d, p, w, src[q], 0);
    var dest', upto, off := Patched(dest, d, p, w, src[q]), PENDING_BYTE + w + s, PENDING_BYTE + w;
    forall o: nat ensures AlmostAt(src, s, nSrc, dest', d, upto, o) {
      assert AlmostAt(src, s, nSrc, dest, d, off, o);
      WriteBytes(dest, d, p, w, src[q], o);
      SourceByte(src, s, q, src[q], o);
      if off <= o < upto {
        SplitUnique(q, o - off, s);
        assert src[q := src[q]] == src;
      }
    }
  }

  lemma {:induction false} PendingPositive(z: nat)
    requires z > 0
    ensures PendingPage(z) >= 1
  {
  }

  /** Once the pending-byte page has been dealt with, the images agree. */
  lemma {:induction false} NowAgree(src: Image, s: nat, nSrc: nat, dest: Image, d: nat, upto: nat)
    requires Sizes(s, d) && Almost(src, s, nSrc, dest, d, upto)
    requires s >= d || PENDING_BYTE + d <= upto || Start(nSrc + 1, s) <= upto
    requires upto >= PENDING_BYTE + s
    ensures Agree(src, s, nSrc, dest, d)
  {
    hide ByteAt, Start, Multiple;
    forall o: nat ensures AgreeAt(src, s, nSrc, dest, d, o) {
      assert AlmostAt(src, s, nSrc, dest, d, upto, o);
    }
  }

  // ------------------------------------------------------------------ the backup object

  class Backup {
    // The source database.
    const pgszSrc: nat
    var src: Image
    var nSrc: nat
    // The destination: page size, pages, number of pages, size of its file once committed.
    var pgszDest: nat
    var dest: Image
    var nDest: nat
    var fileSize: nat
    /** The destination pages that the end of the backup puts in the rollback journal. */
    var journal: set<nat>
    const memDb: bool
    const wal: bool
    // The fields of sqlite3_backup.
    var iDestSchema: nat
    var bDestLocked: bool
    var iNext: nat
    var rc: Rc
    var nRemaining: nat
    var nPagecount: nat
    var isAttached: bool

    ghost predicate Shaped()
      reads this
    {
      && Sizes(pgszSrc, pgszDest) && Sized(dest, pgszDest) && iNext >= 1
      && (forall q :: 1 <= q <= nSrc && q != PendingPage(pgszSrc) ==> q in src)
      && (forall q :: q in src ==> |src[q]| == pgszSrc)
    }

    /** Unless the backup has failed or is done, all copied pages agree with the source; and once
        something has been copied, changes of the source are reported to the backup. */
    ghost predicate Valid()
      reads this
    {
      && Shaped()
      && (!IsFatalError(rc) ==> Synced(src, pgszSrc, nSrc, dest, pgszDest, nDest, iNext) && Started())
    }

    /** Once a page has been copied, changes of the source are reported, the destination is locked, and it
        takes pages of the source's size. */
    ghost predicate Started()
      reads this
    {
      iNext > 1 ==> isAttached && bDestLocked && (pgszSrc == pgszDest || !memDb)
    }

    /** The copy is complete and right. */
    ghost predicate Complete()
      reads this
    {
      && Shaped() && Agree(src, pgszSrc, nSrc, dest, pgszDest)
      && (nSrc >= 1 && nSrc != PendingPage(pgszSrc) ==> fileSize == Bytes(nSrc, pgszSrc))
      && (pgszDest <= pgszSrc ==> Bytes(nDest, pgszDest) == fileSize == Bytes(if nSrc == 0 then 1 else nSrc, pgszSrc))
    }

    /** Whatever the destination loses when its file is cut to size is in the journal. */
    ghost predicate Journalled()
      requires pgszSrc > 0 && pgszDest > 0
      reads this
    {
      pgszSrc < pgszDest ==> forall o: nat ::
        Bytes(if nSrc == 0 then 1 else nSrc, pgszSrc) <= o && PageNo(o, pgszDest) <= nDest && !Pending(o, pgszDest) ==> PageNo(o, pgszDest) in journal
    }

    ghost predicate Header(counter: nat, version: nat)
      requires Shaped()
      reads this
    {
      HeaderIs(src, pgszSrc, nSrc, dest, pgszDest, wal, (iDestSchema + 1) % TWO32, counter, version)
    }

    constructor (pgszSrc: nat, src: Image, nSrc: nat, pgszDest: nat, dest: Image, nDest: nat, memDb: bool, wal: bool)
      requires Sizes(pgszSrc, pgszDest) && Sized(dest, pgszDest)
      requires forall q :: 1 <= q <= nSrc && q != PendingPage(pgszSrc) ==> q in src
      requires forall q :: q in src ==> |src[q]| == pgszSrc
      ensures Valid() && iNext == 1 && rc == Ok && !isAttached && !bDestLocked
      ensures this.pgszSrc == pgszSrc && this.src == src && this.nSrc == nSrc && this.memDb == memDb && this.wal == wal
      ensures this.pgszDest == pgszDest && this.dest == dest && this.nDest == nDest
      ensures fileSize == 0 && iDestSchema == 0 && nRemaining == 0 && nPagecount == 0 && journal == {}
    {
      this.pgszSrc, this.src, this.nSrc := pgszSrc, src, nSrc;
      this.pgszDest, this.dest, this.nDest, this.memDb, this.wal := pgszDest, dest, nDest, memDb, wal;
      fileSize, iDestSchema, bDestLocked, iNext, rc := 0, 0, false, 1, Ok;
      nRemaining, nPagecount, isAttached, journal := 0, 0, false, {};
      NothingSynced(src, pgszSrc, nSrc, dest, pgszDest, nDest);
    }

    // ---------------------------------------------------------------- one page

    /** backupOnePage: the bytes of source page `iSrcPg` into the one or more destination pages they span,
        or into part of one; the destination's pending-byte page is left out. */
    method BackupOnePage(iSrcPg: nat, zSrcData: seq<Byte>, bUpdate: bool) returns (rc: Rc)
      requires Shaped() && iSrcPg >= 1 && |zSrcData| == pgszSrc
      modifies `dest, `nDest
      ensures Sized(dest, pgszDest) && nDest >= old(nDest) && rc in {Ok, ReadOnly}
      ensures rc == ReadOnly <==> pgszSrc != pgszDest && memDb
      ensures rc == Ok ==> CopiedTo(old(dest), dest, pgszDest, Start(iSrcPg, pgszSrc), Start(iSrcPg, pgszSrc) + pgszSrc, zSrcData, bUpdate,
                                    nSrc, nDest)
    {
      hide Start, PageNo, PendingPage, Multiple, Sized, CopiedTo, Within;
      rc := Ok;
      if pgszSrc != pgszDest && memDb {
        rc := ReadOnly;
        return;
      }
      if pgszSrc <= pgszDest {
        var iOff := Start(iSrcPg, pgszSrc);
        SmallInLarge(iSrcPg, pgszSrc, pgszDest);
        Split(iOff, pgszDest);
        PagePositive(iOff, pgszDest);
        FirstFar(iSrcPg, pgszSrc);
        CopiedNothing(dest, pgszDest, iOff, zSrcData, bUpdate, nSrc, nDest);
        SplitUnique(iSrcPg, 0, pgszSrc);
        CopyInto(iOff, zSrcData, Within(iOff, pgszSrc), iOff, pgszSrc, bUpdate, PageNo(iOff, pgszDest), Within(iOff, pgszDest), dest);
      } else {
        CopySpan(iSrcPg, zSrcData, bUpdate);
      }
    }

    /** The loop of backupOnePage when the source page spans several destination pages. */
    method CopySpan(iSrcPg: nat, zSrcData: seq<Byte>, bUpdate: bool)
      requires Shaped() && iSrcPg >= 1 && |zSrcData| == pgszSrc > pgszDest
      modifies `dest, `nDest
      ensures Sized(dest, pgszDest) && nDest >= old(nDest)
      ensures CopiedTo(old(dest), dest, pgszDest, Start(iSrcPg, pgszSrc), Start(iSrcPg, pgszSrc) + pgszSrc, zSrcData, bUpdate, nSrc, nDest)
    {
      hide Start, PageNo, PendingPage, Multiple, Sized, CopiedTo, Within;
      ghost var lo := Start(iSrcPg, pgszSrc);
      ghost var p := SourceStart(iSrcPg, pgszSrc, pgszDest);
      ghost var r := SourceStart(iSrcPg + 1, pgszSrc, pgszDest);
      StartNext(iSrcPg, pgszSrc);
      CopiedNothing(dest, pgszDest, lo, zSrcData, bUpdate, nSrc, nDest);
      var iEnd := iSrcPg * pgszSrc;
      EndIs(iSrcPg, pgszSrc);
      var iOff := iEnd - pgszSrc;
      while iOff < iEnd
        invariant lo <= iOff <= iEnd == lo + pgszSrc && p >= 1 && iOff == Start(p, pgszDest) && iEnd == Start(r, pgszDest)
        invariant nDest >= old(nDest) && Sized(dest, pgszDest)
        invariant CopiedTo(old(dest), dest, pgszDest, lo, iOff, zSrcData, bUpdate, nSrc, nDest)
        decreases iEnd - iOff
      {
        PageAfter(p, r, pgszDest);
        SplitUnique(p, 0, pgszDest);
        SplitUnique(iSrcPg, iOff - lo, pgszSrc);
        FirstFar(p, pgszDest);
        CopyInto(lo, zSrcData, Within(iOff, pgszSrc), iOff, pgszDest, bUpdate, PageNo(iOff, pgszDest), Within(iOff, pgszDest), old(dest));
        StartNext(p, pgszDest);
        p := p + 1;
        iOff := iOff + pgszDest;
      }
    }

    /** One turn: `nCopy` bytes at `iOff` into page `iDest`, unless that is the pending-byte page. */
    method CopyInto(ghost lo: nat, zSrcData: seq<Byte>, off: nat, iOff: nat, nCopy: nat, bUpdate: bool, iDest: nat,
            w: nat, ghost was: Image)
      requires Sizes(pgszSrc, pgszDest) && Sized(dest, pgszDest) && lo <= iOff && off == iOff - lo && off + nCopy <= |zSrcData| && nCopy >= 512
      requires iOff > 0 ==> iOff >= 512
      requires iDest >= 1 && iOff == Start(iDest, pgszDest) + w && w + nCopy <= pgszDest
      requires CopiedTo(was, dest, pgszDest, lo, iOff, zSrcData, bUpdate, nSrc, nDest)
      modifies `dest, `nDest
      ensures Sized(dest, pgszDest) && nDest >= old(nDest)
      ensures CopiedTo(was, dest, pgszDest, lo, iOff + nCopy, zSrcData, bUpdate, nSrc, nDest)
    {
      hide Start, PageNo, PendingPage, Multiple, Sized, CopiedTo, PageAt, Outgoing, Be32, Splice, Patched;
      if iDest == PendingPage(pgszDest) {
        SkipPart(was, dest, pgszDest, lo, iOff, nCopy, zSrcData, bUpdate, nSrc, nDest, iDest, w);
        return;
      }
      ghost var n0 := nDest;
      CopyPart(was, dest, pgszDest, lo, iOff, nCopy, zSrcData, bUpdate, nSrc, nDest, if nDest < iDest then iDest else nDest, iDest, w);
      NewPage(dest, pgszDest, iDest);
      var page := PageAt(dest, pgszDest, iDest);
      ghost var img := dest;
      if nDest < iDest { nDest := iDest; }
      page := Splice(page, w, zSrcData[off..off + nCopy]);
      if iOff == 0 && !bUpdate {
        page := Splice(page, w + 28, Be32(nSrc));
      }
      dest := dest[iDest := page];
      OutgoingIs(img, pgszDest, iDest, w, zSrcData, off, nCopy, iOff, bUpdate, nSrc);
    }

    // ---------------------------------------------------------------- the source changes

    /** A page of the source is written by its own connection, which tells the backup. */
    method SourceWrite(iPage: nat, aData: seq<Byte>)
      requires Valid() && iPage >= 1 && iPage != PendingPage(pgszSrc) && |aData| == pgszSrc
      requires iPage <= nSrc + 1 || (iPage == nSrc + 2 && nSrc + 1 == PendingPage(pgszSrc))
      modifies `src, `nSrc, `dest, `nDest
      ensures Valid() && src == old(src)[iPage := aData] && nSrc == (if iPage > old(nSrc) then iPage else old(nSrc))
      ensures if !IsFatalError(rc) && iPage < iNext then
                CopiedTo(old(dest), dest, pgszDest, Start(iPage, pgszSrc), Start(iPage, pgszSrc) + pgszSrc, aData, true, nSrc, nDest)
              else dest == old(dest) && nDest == old(nDest)
    {
      hide Synced, PendingPage, Multiple, Sized;
      ghost var src0, nSrc0, dest0, nDest0 := src, nSrc, dest, nDest;
      src := src[iPage := aData];
      if iPage > nSrc { nSrc := iPage; }
      if isAttached {
        BackupUpdate(iPage, aData, src0, nSrc0);
      } else if !IsFatalError(rc) {
        LaterPage(src0, src, pgszSrc, nSrc0, nSrc, dest, pgszDest, nDest, iNext, iPage, aData);
      }
    }

    /** backupUpdate: a page that has been copied is copied again.  That cannot be refused, because the
        first copy was not. */
    method BackupUpdate(iPage: nat, aData: seq<Byte>, ghost src0: Image, ghost nSrc0: nat)
      requires Shaped() && iPage >= 1 && |aData| == pgszSrc && src == src0[iPage := aData] && GrownTo(nSrc0, nSrc, iPage, pgszSrc)
      requires !IsFatalError(rc) ==>
        Synced(src0, pgszSrc, nSrc0, dest, pgszDest, nDest, iNext) && Started()
      modifies `dest, `nDest
      ensures Valid()
      ensures if !IsFatalError(rc) && iPage < iNext then
                CopiedTo(old(dest), dest, pgszDest, Start(iPage, pgszSrc), Start(iPage, pgszSrc) + pgszSrc, aData, true, nSrc, nDest)
              else dest == old(dest) && nDest == old(nDest)
    {
      hide Synced, Multiple, Sized, Start, CopiedTo, PendingPage;
      if !IsFatalError(rc) {
        if iPage < iNext {
          ghost var dest0, nDest0 := dest, nDest;
          var r := BackupOnePage(iPage, aData, true);
          assert r == Ok;
          AnySize(dest0, dest, pgszDest, Start(iPage, pgszSrc), Start(iPage, pgszSrc) + pgszSrc, aData, nSrc, nSrc0, nDest);
          PageSynced(src0, src, pgszSrc, nSrc0, nSrc, dest0, dest, pgszDest, nDest0, nDest, iNext, iNext, iPage, aData, true);
        } else {
          LaterPage(src0, src, pgszSrc, nSrc0, nSrc, dest, pgszDest, nDest, iNext, iPage, aData);
        }
      }
    }

    /** The source loses its last pages. */
    method SourceShrink(n: nat)
      requires Valid() && n <= nSrc
      modifies `nSrc
      ensures Valid() && nSrc == n
    {
      hide Synced, Multiple, Sized, PendingPage;
      if !IsFatalError(rc) { FewerPages(src, pgszSrc, nSrc, n, dest, pgszDest, nDest, iNext, iNext); }
      nSrc := n;
    }

    /** Another process has changed the source in any way; sqlite3BackupRestart begins anew. */
    method SourceReplaced(newSrc: Image, n: nat)
      requires Valid()
      requires forall q :: 1 <= q <= n && q != PendingPage(pgszSrc) ==> q in newSrc
      requires forall q :: q in newSrc ==> |newSrc[q]| == pgszSrc
      modifies `src, `nSrc, `iNext
      ensures Valid() && src == newSrc && nSrc == n && iNext == if isAttached then 1 else old(iNext)
    {
      hide Synced, Multiple, Sized, PendingPage;
      src, nSrc := newSrc, n;
      if isAttached {
        iNext := 1;
      }
      if iNext == 1 { NothingSynced(src, pgszSrc, nSrc, dest, pgszDest, nDest); }
    }

    // ---------------------------------------------------------------- a step

    /** sqlite3_backup_step: copy up to `nPage` pages, all if that is negative; finish when none is left.
        `srcWriting`: the source connection is in a write transaction; `canResize`: the destination can
        still take the page size of the source; `lock`: what locking the destination gives, with the
        schema cookie found there; `counter` and `version` are the pager's header stamps. */
    method Step(nPage: int, srcWriting: bool, canResize: bool, lock: Rc, schema: nat, counter: nat, version: nat) returns (r: Rc)
      requires Valid() && lock in {Ok, Busy, Locked} && nSrc < TWO32 - 1
      modifies `pgszDest, `dest, `nDest, `fileSize, `iDestSchema, `bDestLocked, `iNext, `rc, `nRemaining, `nPagecount, `isAttached, `journal
      ensures r == rc && (!IsFatalError(r) ==> Valid())
      ensures IsFatalError(old(rc)) || srcWriting ==>
        && r == (if IsFatalError(old(rc)) then old(rc) else Busy)
        && iNext == old(iNext) && dest == old(dest) && pgszDest == old(pgszDest) && bDestLocked == old(bDestLocked)
      ensures !IsFatalError(old(rc)) && !srcWriting ==>
        && pgszSrc > 0 && r == Outcome(bDestLocked, lock, pgszSrc, pgszDest, wal, memDb, old(iNext), nPage, nSrc)
        && pgszDest == (if !old(bDestLocked) && canResize then pgszSrc else old(pgszDest))
        && bDestLocked == (old(bDestLocked) || lock == Ok) && iDestSchema == (if !old(bDestLocked) && lock == Ok then schema else old(iDestSchema))
      ensures !IsFatalError(old(rc)) && r in {Ok, Done} ==> nPagecount == nSrc && iNext == NextAfter(old(iNext), nPage, nSrc)
      ensures r == Ok ==> isAttached && nRemaining == nSrc + 1 - iNext
      ensures r == Ok ==> CopiedRange(src, pgszSrc, nSrc, if pgszDest == old(pgszDest) then old(dest) else map[], dest, pgszDest, old(iNext), iNext)
      ensures r in {Busy, Locked} ==> iNext == old(iNext) && (pgszDest == old(pgszDest) ==> dest == old(dest))
      ensures r == Done && !IsFatalError(old(rc)) ==> Complete() && Header(counter, version) && Journalled()
      ensures r == Done && !IsFatalError(old(rc)) && nSrc >= 1 ==>
        if old(iNext) == 1 then FieldIs(dest, pgszDest, 28, Be32(nSrc))
        else forall o: nat :: SizeField(o) ==> ByteAt(dest, pgszDest, o) == ByteAt(old(dest), pgszDest, o)
    {
      hide Synced, Multiple, Sizes, Sized, PendingPage, Agree, Remaining, CopiedRange, AnyToCopy, FieldIs, NextAfter, ByteAt, Be32, HeaderIs, PageNo;
      hide Written, EmptyHeader;
      r := rc;
      if IsFatalError(rc) { return; }
      if srcWriting {
        r := Busy;
      } else {
        r := Proceed(nPage, canResize, lock, schema);
      }
      if r == Done {
        ghost var copied := dest;
        if nSrc >= 1 { CountCopied(src, pgszSrc, nSrc, if pgszDest == old(pgszDest) then old(dest) else map[], copied, pgszDest, old(iNext), iNext); }
        FinishCopy(counter, version);
        if nSrc >= 1 && old(iNext) == 1 { CountKept(copied, dest, pgszDest, Be32(nSrc)); }
      }
      rc := r;
    }

    /** The step up to its last part. */
    method Proceed(nPage: int, canResize: bool, lock: Rc, schema: nat) returns (r: Rc)
      requires Valid() && !IsFatalError(rc) && lock in {Ok, Busy, Locked} && nSrc < TWO32 - 1
      modifies `pgszDest, `dest, `nDest, `iDestSchema, `bDestLocked, `iNext, `nRemaining, `nPagecount, `isAttached
      ensures Shaped() && pgszSrc > 0 && r == Outcome(bDestLocked, lock, pgszSrc, pgszDest, wal, memDb, old(iNext), nPage, nSrc)
      ensures pgszDest == (if !old(bDestLocked) && canResize then pgszSrc else old(pgszDest))
        && bDestLocked == (old(bDestLocked) || lock == Ok) && iDestSchema == (if !old(bDestLocked) && lock == Ok then schema else old(iDestSchema))
      ensures r != ReadOnly ==> Synced(src, pgszSrc, nSrc, dest, pgszDest, nDest, iNext)
      ensures !IsFatalError(r) ==> Started()
      ensures r in {Ok, Done} ==> nPagecount == nSrc && iNext == NextAfter(old(iNext), nPage, nSrc)
      ensures r == Ok ==> isAttached && nRemaining == nSrc + 1 - iNext
      ensures r in {Ok, Done} ==>
        CopiedRange(src, pgszSrc, nSrc, if pgszDest == old(pgszDest) then old(dest) else map[], dest, pgszDest, old(iNext), iNext)
      ensures r in {Busy, Locked} ==> iNext == old(iNext) && (pgszDest == old(pgszDest) ==> dest == old(dest))
      ensures old(iNext) > 1 ==> pgszDest == old(pgszDest)
      ensures r == Done ==> iNext > nSrc && (wal ==> pgszSrc == pgszDest)
    {
      hide Synced, Multiple, Sized, PendingPage, Remaining, CopiedRange, AnyToCopy, NextAfter;
      NextIs(iNext, nPage, nSrc);
      r := Begin(canResize, lock, schema);
      if r == Ok {
        ghost var upto := NextAfter(iNext, nPage, nSrc);
        if upto > 1 { FirstToCopy(upto, pgszSrc); }
        r := CopyPages(nPage);
      }
      if r == Ok {
        r := Report();
      }
    }

    /** Before the copying: lock the destination if that has not been done, and refuse to write pages of
        another size to a destination in WAL mode. */
    method Begin(canResize: bool, lock: Rc, schema: nat) returns (r: Rc)
      requires Valid() && !IsFatalError(rc) && lock in {Ok, Busy, Locked}
      modifies `pgszDest, `dest, `nDest, `bDestLocked, `iDestSchema
      ensures Shaped() && Synced(src, pgszSrc, nSrc, dest, pgszDest, nDest, iNext) && Started()
      ensures r == if !bDestLocked then lock else if wal && pgszSrc != pgszDest then ReadOnly else Ok
      ensures pgszDest == if !old(bDestLocked) && canResize then pgszSrc else old(pgszDest)
      ensures dest == if pgszDest == old(pgszDest) then old(dest) else map[]
      ensures bDestLocked == (old(bDestLocked) || lock == Ok) && iDestSchema == if !old(bDestLocked) && lock == Ok then schema else old(iDestSchema)
    {
      hide Synced, Multiple, Sizes, Sized, PendingPage;
      r := Ok;
      if !bDestLocked {
        r := LockDestination(canResize, lock, schema);
      }
      if r == Ok && wal && pgszSrc != pgszDest {
        r := ReadOnly;
      }
    }

    /** After the copying: how much there is and how much is left; if anything is left, changes of the
        source must be reported from now on. */
    method Report() returns (r: Rc)
      requires iNext >= 1 && nSrc < TWO32 - 1
      modifies `nPagecount, `nRemaining, `isAttached
      ensures r == if iNext > nSrc then Done else Ok
      ensures nPagecount == nSrc && isAttached == (old(isAttached) || r == Ok) && (r == Ok ==> nRemaining == nSrc + 1 - iNext)
    {
      hide Remaining;
      nPagecount := nSrc;
      nRemaining := Remaining(nSrc, iNext);
      RemainingIs(nSrc, iNext);
      if iNext > nSrc {
        r := Done;
      } else {
        r := Ok;
        isAttached := true;
      }
    }

    /** Give the destination the page size of the source if it will take it, then lock it. */
    method LockDestination(canResize: bool, lock: Rc, schema: nat) returns (r: Rc)
      requires Valid() && !IsFatalError(rc) && !bDestLocked && lock in {Ok, Busy, Locked}
      modifies `pgszDest, `dest, `nDest, `bDestLocked, `iDestSchema
      ensures Shaped() && Synced(src, pgszSrc, nSrc, dest, pgszDest, nDest, iNext) && r == lock && iNext == 1
      ensures pgszDest == if canResize then pgszSrc else old(pgszDest)
      ensures dest == (if pgszDest == old(pgszDest) then old(dest) else map[]) && nDest == if pgszDest == old(pgszDest) then old(nDest) else 0
      ensures bDestLocked == (lock == Ok) && iDestSchema == if lock == Ok then schema else old(iDestSchema)
    {
      hide Synced, Multiple, PendingPage;
      if canResize && pgszDest != pgszSrc {
        SameSize(pgszSrc, pgszDest);
        pgszDest, dest, nDest := pgszSrc, map[], 0;
      }
      r := lock;
      if lock == Ok {
        bDestLocked := true;
        iDestSchema := schema;
      }
      NothingSynced(src, pgszSrc, nSrc, dest, pgszDest, nDest);
    }

    /** The copying loop of a step. */
    method CopyPages(nPage: int) returns (r: Rc)
      requires Shaped() && Synced(src, pgszSrc, nSrc, dest, pgszDest, nDest, iNext)
      modifies `dest, `nDest, `iNext
      ensures Shaped() && iNext >= old(iNext)
      ensures r == if pgszSrc != pgszDest && memDb && AnyToCopy(old(iNext), NextAfter(old(iNext), nPage, nSrc), pgszSrc) then ReadOnly else Ok
      ensures r == Ok ==> Synced(src, pgszSrc, nSrc, dest, pgszDest, nDest, iNext) && iNext == NextAfter(old(iNext), nPage, nSrc)
      ensures r == Ok ==> CopiedRange(src, pgszSrc, nSrc, old(dest), dest, pgszDest, old(iNext), iNext)
    {
      hide Synced, Multiple, Sized, PendingPage, Start, CopiedTo, CopiedRange, AnyToCopy;
      r := Ok;
      var ii := 0;
      NothingCopied(src, pgszSrc, nSrc, dest, pgszDest, iNext);
      NothingToCopy(iNext, pgszSrc);
      while (nPage < 0 || ii < nPage) && iNext <= nSrc && r == Ok
        invariant Shaped() && ii >= 0 && iNext == old(iNext) + ii && (nPage >= 0 ==> ii <= nPage) && (ii > 0 ==> iNext <= nSrc + 1)
        invariant r == Ok ==> Synced(src, pgszSrc, nSrc, dest, pgszDest, nDest, iNext)
        invariant r == Ok ==> CopiedRange(src, pgszSrc, nSrc, old(dest), dest, pgszDest, old(iNext), iNext)
        invariant r == if pgszSrc != pgszDest && memDb && AnyToCopy(old(iNext), iNext, pgszSrc) then ReadOnly else Ok
        decreases nSrc + 1 - iNext
      {
        var iSrcPg := iNext;
        ghost var dest0, nDest0 := dest, nDest;
        OneMoreToCopy(old(iNext), iNext, pgszSrc);
        if iSrcPg != PendingPage(pgszSrc) {
          r := BackupOnePage(iSrcPg, src[iSrcPg], false);
          if r == Ok {
            assert src == src[iSrcPg := src[iSrcPg]];
            PageSynced(src, src, pgszSrc, nSrc, nSrc, dest0, dest, pgszDest, nDest0, nDest, iNext, iNext + 1, iSrcPg, src[iSrcPg], false);
            OneMoreCopied(src, pgszSrc, nSrc, old(dest), dest0, dest, pgszDest, old(iNext), iSrcPg, nDest);
          }
        } else {
          FewerPages(src, pgszSrc, nSrc, nSrc, dest, pgszDest, nDest, iNext, iNext + 1);
          PendingNotCopied(src, pgszSrc, nSrc, old(dest), dest, pgszDest, old(iNext), iSrcPg);
        }
        iNext := iNext + 1;
        ii := ii + 1;
      }
      MoreToCopy(old(iNext), iNext, NextAfter(old(iNext), nPage, nSrc), pgszSrc);
    }

    // ---------------------------------------------------------------- the last step

    /** Write stamped header fields of page 1. */
    method Stamp(at: nat, b: seq<Byte>, ghost upto: nat)
      requires Shaped() && Almost(src, pgszSrc, nSrc, dest, pgszDest, upto) && at + |b| <= 100
      requires forall o :: at <= o < at + |b| ==> Stamped(o)
      modifies `dest
      ensures Shaped() && Almost(src, pgszSrc, nSrc, dest, pgszDest, upto)
      ensures FieldIs(dest, pgszDest, at, b)
      ensures forall o: nat :: o < at || at + |b| <= o ==> ByteAt(dest, pgszDest, o) == ByteAt(old(dest), pgszDest, o)
    {
      hide Almost, Multiple, PendingPage, Splice, ByteAt;
      Stamped1(dest, pgszDest, at, b);
      StampKept(src, pgszSrc, nSrc, dest, pgszDest, upto, at, b);
      NewPage(dest, pgszDest, 1);
      dest := dest[1 := Splice(PageAt(dest, pgszDest, 1), at, b)];
    }

    /** What the step does when all pages have been copied: schema cookie, file format, the extra pages
        where the destination has its pending-byte page, the size of the file. */
    method FinishCopy(counter: nat, version: nat)
      requires Shaped() && Synced(src, pgszSrc, nSrc, dest, pgszDest, nDest, iNext) && iNext > nSrc
      requires wal ==> pgszSrc == pgszDest
      modifies `dest, `nDest, `fileSize, `journal
      ensures Complete() && Header(counter, version) && Journalled()
      ensures nSrc >= 1 ==> forall o: nat :: SizeField(o) ==> ByteAt(dest, pgszDest, o) == ByteAt(old(dest), pgszDest, o)
    {
      hide Synced, Almost, Agree, Multiple, Sized, PendingPage, Start, Be32, FieldIs, ByteAt, PageNo, HeaderIs, SameHeader, EmptyHeader;
      AllCopied(src, pgszSrc, nSrc, dest, pgszDest, nDest, iNext);
      LastReached(src, pgszSrc, nSrc, dest, pgszDest, nDest, iNext);
      FormatCopied(src, pgszSrc, nSrc, dest, pgszDest, nDest, iNext);
      ghost var upto := PENDING_BYTE + pgszSrc;
      var nSrcPage := nSrc;
      if nSrcPage == 0 {
        NewDb(upto);
        nSrcPage := 1;
      }
      ghost var d1 := dest;
      StampHeader(counter, version, upto);
      ghost var d2 := dest;
      if pgszSrc < pgszDest {
        FinishLarger(nSrcPage);
      } else {
        FinishSmaller(nSrcPage);
        Unchanged(dest, pgszDest);
      }
      HeaderDone(src, pgszSrc, nSrc, d1, d2, dest, pgszDest, wal, (iDestSchema + 1) % TWO32, counter, version);
    }

    /** The end for destination pages that are not larger. */
    method FinishSmaller(nSrcPage: nat)
      requires Shaped() && pgszSrc >= pgszDest && nSrcPage == (if nSrc == 0 then 1 else nSrc)
      requires Almost(src, pgszSrc, nSrc, dest, pgszDest, PENDING_BYTE + pgszSrc)
      modifies `nDest, `fileSize
      ensures Complete()
    {
      hide Almost, Agree, Multiple, Sized, PendingPage, Start, Bytes;
      var nDestTruncate := nSrcPage * Ratio(pgszSrc, pgszDest);
      RatioIs(nSrcPage, pgszSrc, pgszDest);
      nDest := nDestTruncate;
      fileSize := Bytes(nDestTruncate, pgszDest);
      NowAgree(src, pgszSrc, nSrc, dest, pgszDest, PENDING_BYTE + pgszSrc);
    }

    /** The header fields that the copy does not get from the source. */
    method StampHeader(counter: nat, version: nat, ghost upto: nat)
      requires Shaped() && Almost(src, pgszSrc, nSrc, dest, pgszDest, upto)
      modifies `dest
      ensures Shaped() && Almost(src, pgszSrc, nSrc, dest, pgszDest, upto)
      ensures FieldIs(dest, pgszDest, 40, Be32((iDestSchema + 1) % TWO32)) && |Be32((iDestSchema + 1) % TWO32)| == 4
      ensures wal ==> FieldIs(dest, pgszDest, 18, [2, 2])
      ensures forall o: nat :: !Written(o, wal) ==> ByteAt(dest, pgszDest, o) == ByteAt(old(dest), pgszDest, o)
      ensures FieldIs(dest, pgszDest, 24, Be32(counter)) && |Be32(counter)| == 4
      ensures FieldIs(dest, pgszDest, 92, Be32(counter) + Be32(version)) && |Be32(version)| == 4
    {
      hide Almost, Multiple, Sized, PendingPage, Be32, ByteAt, Sizes;
      FourBytes((iDestSchema + 1) % TWO32);
      FourBytes(counter);
      FourBytes(version);
      Stamp(40, Be32((iDestSchema + 1) % TWO32), upto);
      if wal {
        Stamp(18, [2, 2], upto);
      }
      Stamp(24, Be32(counter), upto);
      Stamp(92, Be32(counter) + Be32(version), upto);
    }

    /** sqlite3BtreeNewDb: the source was empty, so the destination gets a first page of its own. */
    method NewDb(ghost upto: nat)
      requires Shaped() && nSrc == 0
      modifies `dest, `nDest
      ensures Shaped() && Almost(src, pgszSrc, nSrc, dest, pgszDest, upto) && nDest == if old(nDest) < 1 then 1 else old(nDest)
      ensures FieldIs(dest, pgszDest, 0, EmptyHeader(pgszDest))
    {
      hide Almost, Multiple, PendingPage, ByteAt, EmptyHeader, Splice;
      NewPage(dest, pgszDest, 1);
      Stamped1(dest, pgszDest, 0, EmptyHeader(pgszDest));
      dest := dest[1 := Splice(PageAt(dest, pgszDest, 1), 0, EmptyHeader(pgszDest))];
      if nDest < 1 { nDest := 1; }
      EmptyAgrees(src, pgszSrc, dest, pgszDest, upto);
    }

    /** The final number of destination pages, rounded up; the pending-byte page is never the last. */
    method DestTruncate(nSrcPage: nat) returns (nDestTruncate: nat)
      requires Sizes(pgszSrc, pgszDest) && pgszSrc < pgszDest && nSrcPage > 0
      ensures nDestTruncate > 0 && nDestTruncate != PendingPage(pgszDest)
      ensures var iSize := Bytes(nSrcPage, pgszSrc);
        || iSize <= Bytes(nDestTruncate, pgszDest) < iSize + pgszDest
        || (nDestTruncate + 1 == PendingPage(pgszDest) && PENDING_BYTE < iSize <= PENDING_BYTE + pgszDest)
    {
      hide PendingPage, Multiple, Ratio, Quotient, Bytes;
      TruncateCovers(nSrcPage, pgszSrc, pgszDest);
      var ratio := Ratio(pgszDest, pgszSrc);
      RatioPositive(pgszDest, pgszSrc);
      nDestTruncate := Quotient(nSrcPage + ratio - 1, ratio);
      TruncatePositive(nSrcPage, ratio);
      if nDestTruncate == PendingPage(pgszDest) {
        PendingLate(pgszDest);
        nDestTruncate := nDestTruncate - 1;
      }
    }

    /** The end for larger destination pages: the source pages after the pending byte that lie on the
        destination's pending-byte page go to the file directly, and the file is cut to size. */
    method FinishLarger(nSrcPage: nat)
      requires Shaped() && pgszSrc < pgszDest && nSrcPage == (if nSrc == 0 then 1 else nSrc)
      requires Almost(src, pgszSrc, nSrc, dest, pgszDest, PENDING_BYTE + pgszSrc)
      requires nSrc >= 1 && nSrc != PendingPage(pgszSrc) && !EndsOnPending(nSrc, pgszSrc, pgszDest) ==>
        Bytes(nSrc, pgszSrc) <= Bytes(nDest, pgszDest)
      modifies `dest, `fileSize, `journal
      ensures Complete() && SameHeader(old(dest), dest, pgszDest) && Journalled()
    {
      hide Almost, Agree, Multiple, Sized, PendingPage, Start, Bytes, SameHeader, PageNo;
      var nDestTruncate := DestTruncate(nSrcPage);
      var iSize := Bytes(nSrcPage, pgszSrc);
      JournalPages(nDestTruncate);
      CutIsJournalled(nSrcPage, pgszSrc, pgszDest, nDestTruncate, nDest, journal);
      // all pages are written out here
      fileSize := Bytes(nDest, pgszDest);
      var iEnd := if PENDING_BYTE + pgszDest <= iSize then PENDING_BYTE + pgszDest else iSize;
      ExtraPages(iEnd, nSrcPage);
      if fileSize > iSize {
        fileSize := iSize;
      }
      SizeIsRight(nSrc, pgszSrc);
    }

    /** Put the destination pages from `nDestTruncate` on in the journal. */
    method JournalPages(nDestTruncate: nat)
      requires pgszDest > 0
      modifies `journal
      ensures journal == old(journal) + set p | nDestTruncate <= p <= nDest && NotPending(p, pgszDest)
    {
      hide PendingPage;
      var iPg := nDestTruncate;
      while iPg <= nDest
        invariant nDestTruncate <= iPg && (iPg <= nDest + 1 || iPg == nDestTruncate)
        invariant journal == old(journal) + set p | nDestTruncate <= p < iPg && NotPending(p, pgszDest)
      {
        if iPg != PendingPage(pgszDest) {
          journal := journal + {iPg};
        }
        iPg := iPg + 1;
      }
    }

    /** The loop over the extra pages. */
    method ExtraPages(iEnd: nat, ghost nSrcPage: nat)
      requires Shaped() && pgszSrc < pgszDest && nSrcPage == (if nSrc == 0 then 1 else nSrc)
      requires iEnd == if PENDING_BYTE + pgszDest <= Bytes(nSrcPage, pgszSrc) then PENDING_BYTE + pgszDest else Bytes(nSrcPage, pgszSrc)
      requires Almost(src, pgszSrc, nSrc, dest, pgszDest, PENDING_BYTE + pgszSrc)
      modifies `dest, `fileSize
      ensures Shaped() && Agree(src, pgszSrc, nSrc, dest, pgszDest) && SameHeader(old(dest), dest, pgszDest)
      ensures fileSize == if iEnd > PENDING_BYTE + pgszSrc && iEnd > old(fileSize) then iEnd else old(fileSize)
    {
      hide Almost, Agree, Multiple, Sized, PendingPage, Start, PageNo, Patched, ByteAt;
      var iOff := PENDING_BYTE + pgszSrc;
      ghost var q := AfterPending(pgszSrc);
      ghost var e := ExtraEnd(pgszSrc, pgszDest, nSrc, nSrcPage, iEnd);
      while iOff < iEnd
        invariant Shaped() && Almost(src, pgszSrc, nSrc, dest, pgszDest, iOff) && SameHeader(old(dest), dest, pgszDest)
        invariant q >= 1 && iOff == Start(q, pgszSrc) && iOff >= PENDING_BYTE + pgszSrc
        invariant fileSize == if iOff > PENDING_BYTE + pgszSrc && iOff > old(fileSize) then iOff else old(fileSize)
        invariant iOff <= iEnd || iOff == PENDING_BYTE + pgszSrc
        decreases iEnd - iOff
      {
        PageAfter(q, e, pgszSrc);
        SplitUnique(q, 0, pgszSrc);
        var iSrcPg := PageNo(iOff, pgszSrc);
        OneExtra(pgszSrc, pgszDest, nSrc, nSrcPage, iEnd, q, iOff);
        var w := iOff - PENDING_BYTE;
        ExtraPage(src, pgszSrc, nSrc, dest, pgszDest, iSrcPg, PendingPage(pgszDest), w);
        NotHeader(dest, pgszDest, w, src[iSrcPg]);
        dest := Patched(dest, pgszDest, PendingPage(pgszDest), w, src[iSrcPg]);
        if fileSize < iOff + pgszSrc { fileSize := iOff + pgszSrc; }
        StartNext(q, pgszSrc);
        q := q + 1;
        iOff := iOff + pgszSrc;
      }
      AtEnd(pgszSrc, pgszDest, nSrc, nSrcPage, iEnd, iOff);
      NowAgree(src, pgszSrc, nSrc, dest, pgszDest, iOff);
    }
  }

  lemma {:induction false} NewPage(img: Image, z: nat, p: nat)
    requires Sized(img, z)
    ensures |PageAt(img, z, p)| == z
  {
  }

  lemma {:induction false} FirstFar(q: nat, z: nat)
    requires q >= 1 && z >= 512
    ensures Start(q, z) > 0 ==> Start(q, z) >= 512
  {
    if q > 1 { assert (q - 1) * z == z + (q - 2) * z; }
  }

  lemma {:induction false} EndIs(q: nat, z: nat)
    requires q >= 1
    ensures q * z == Start(q, z) + z
  {
  }

  /** Copying, and then putting the page count in, writes what Outgoing says. */
  lemma {:induction false} OutgoingIs(img: Image, z: nat, p: nat, w: nat, data: seq<Byte>, off: nat, n: nat,
          from: nat, bUpdate: bool, last: nat)
    requires |PageAt(img, z, p)| == z && w + n <= z && off + n <= |data| && n >= 512
    ensures var page := Splice(PageAt(img, z, p), w, data[off..off + n]);
      Patched(img, z, p, w, Outgoing(data, off, n, from, bUpdate, last)) ==
        img[p := if from == 0 && !bUpdate then Splice(page, w + 28, Be32(last)) else page]
  {
    hide Be32, PageAt;
    if from == 0 && !bUpdate {
      SpliceInner(PageAt(img, z, p), w, data[off..off + n], 28, Be32(last));
    }
  }

  lemma {:induction false} SpliceInner(d: seq<Byte>, w: nat, b: seq<Byte>, at: nat, c: seq<Byte>)
    requires w + |b| <= |d| && at + |c| <= |b|
    ensures Splice(Splice(d, w, b), w + at, c) == Splice(d, w, Splice(b, at, c))
  {
  }

  // ------------------------------------------------------------------ arithmetic of the last step

  /** Pages left to copy, in 32-bit arithmetic. */
  function Remaining(nSrc: nat, iNext: nat): nat
  {
    (nSrc + 1 - iNext) % TWO32
  }

  lemma {:induction false} RemainingIs(nSrc: nat, iNext: nat)
    requires 1 <= iNext
    ensures iNext <= nSrc + 1 && nSrc < TWO32 - 1 ==> Remaining(nSrc, iNext) == nSrc + 1 - iNext
  {
  }

  lemma {:induction false} FourBytes(v: nat)
    ensures |Be32(v)| == 4
  {
  }

  lemma {:induction false} SameSize(s: nat, d: nat)
    requires Sizes(s, d)
    ensures Sizes(s, s)
  {
    Itself(s);
  }

  /** An update copies a page without regard to the size of the source. */
  lemma {:induction false} AnySize(was: Image, img: Image, d: nat, lo: nat, upto: nat, data: seq<Byte>, a: nat, b: nat, nDest: nat)
    requires d > 0 && CopiedTo(was, img, d, lo, upto, data, true, a, nDest)
    ensures CopiedTo(was, img, d, lo, upto, data, true, b, nDest)
  {
    hide ByteAt, PageNo, Be32;
    forall o: nat ensures CopiedAt(was, img, d, lo, upto, data, true, b, nDest, o) {
      assert CopiedAt(was, img, d, lo, upto, data, true, a, nDest, o);
    }
  }

  lemma {:induction false} EmptyAgrees(src: Image, s: nat, dest: Image, d: nat, upto: nat)
    requires s > 0 && d > 0
    ensures Almost(src, s, 0, dest, d, upto)
  {
    forall o: nat ensures AlmostAt(src, s, 0, dest, d, upto, o) {}
  }

  /** The last byte of the source has been copied, so the destination has a page for it. */
  lemma {:induction false} LastReached(src: Image, s: nat, nSrc: nat, dest: Image, d: nat, nDest: nat, iNext: nat)
    requires Sizes(s, d) && Synced(src, s, nSrc, dest, d, nDest, iNext) && iNext > nSrc
    ensures nSrc >= 1 && nSrc != PendingPage(s) && !EndsOnPending(nSrc, s, d) ==> Bytes(nSrc, s) <= Bytes(nDest, d)
  {
    hide ByteAt, PageNo, Start, PendingPage, Multiple;
    if nSrc >= 1 && nSrc != PendingPage(s) && !EndsOnPending(nSrc, s, d) {
      EndIs(nSrc, s);
      var o := nSrc * s - 1;
      SplitUnique(nSrc, s - 1, s);
      PendingCovers(o, s);
      assert SyncedAt(src, s, nSrc, dest, d, nDest, iNext, o);
      Split(o, d);
      PagePositive(o, d);
      EndIs(nDest, d);
      StartOrder(PageNo(o, d), nDest, d);
    }
  }

  function Ratio(a: nat, b: nat): nat
    requires b > 0
  {
    a / b
  }

  function Quotient(a: nat, b: nat): nat
    requires b > 0
  {
    a / b
  }

  /** Bytes of `n` pages. */
  function Bytes(n: nat, z: nat): nat
  {
    n * z
  }

  /** The last byte of the source is on the pending-byte page of the destination. */
  predicate EndsOnPending(n: nat, s: nat, d: nat)
  {
    PENDING_BYTE < Bytes(n, s) <= PENDING_BYTE + d
  }

  lemma {:induction false} RatioIs(n: nat, s: nat, d: nat)
    requires s > 0 && d > 0 && Multiple(s, d)
    ensures Bytes(n * Ratio(s, d), d) == Bytes(n, s)
  {
    assert s == d * (s / d);
    assert n * (s / d) * d == n * ((s / d) * d);
  }

  lemma {:induction false} RatioPositive(a: nat, b: nat)
    requires a >= b > 0
    ensures Ratio(a, b) > 0
  {
  }

  lemma {:induction false} TruncatePositive(n: nat, ratio: nat)
    requires n > 0 && ratio > 0
    ensures Quotient(n + ratio - 1, ratio) > 0
  {
  }

  /** Rounding up to whole pages of the larger size. */
  lemma {:induction false} TruncateCovers(n: nat, s: nat, d: nat)
    requires Sizes(s, d) && s < d && n > 0
    ensures Ratio(d, s) > 0
    ensures var q := Quotient(n + Ratio(d, s) - 1, Ratio(d, s));
      && Bytes(n, s) <= Bytes(q, d) < Bytes(n, s) + d
      && (q == PendingPage(d) ==> PENDING_BYTE < Bytes(n, s) <= PENDING_BYTE + d)
  {
    var r := Ratio(d, s);
    RatioPositive(d, s);
    var q := Quotient(n + r - 1, r);
    assert d == r * s;
    RoundedUp(n, r);
    assert q * d == (q * r) * s;
    ScaledLess(n, q * r, r, s);
    if q == PendingPage(d) { assert PENDING_BYTE == (PENDING_BYTE / d) * d; }
  }

  lemma {:induction false} RoundedUp(n: nat, r: nat)
    requires r > 0
    ensures n <= Quotient(n + r - 1, r) * r < n + r
  {
    var q, m := (n + r - 1) / r, (n + r - 1) % r;
    assert n + r - 1 == q * r + m;
  }

  lemma {:induction false} ScaledLess(n: nat, p: nat, r: nat, s: nat)
    requires n <= p < n + r && s > 0
    ensures n * s <= p * s < n * s + r * s
  {
    assert p * s == n * s + (p - n) * s;
    assert r * s == (p - n) * s + (r - (p - n)) * s;
  }

  lemma {:induction false} PendingLate(d: nat)
    requires 0 < d <= 0x1_0000
    ensures PendingPage(d) >= 2
  {
  }

  /** The source page after that of the pending byte. */
  lemma {:induction false} AfterPending(s: nat) returns (q: nat)
    requires s > 0 && Multiple(PENDING_BYTE, s)
    ensures q >= 2 && q == PendingPage(s) + 1 && Start(q, s) == PENDING_BYTE + s
  {
    hide Start, PageNo;
    PendingCovers(0, s);
    PendingPositive(s);
    q := PendingPage(s) + 1;
    StartNext(PendingPage(s), s);
  }

  /** The extra pages end where a source page ends. */
  lemma {:induction false} ExtraEnd(s: nat, d: nat, nSrc: nat, nSrcPage: nat, iEnd: nat) returns (e: nat)
    requires Sizes(s, d) && s < d && nSrcPage == (if nSrc == 0 then 1 else nSrc)
    requires iEnd == if PENDING_BYTE + d <= Bytes(nSrcPage, s) then PENDING_BYTE + d else Bytes(nSrcPage, s)
    ensures e >= 1 && Start(e, s) == iEnd
  {
    hide Start, PageNo, PendingPage, Multiple;
    if PENDING_BYTE + d <= Bytes(nSrcPage, s) {
      var p := AfterPending(d);
      e := SourceStart(p, d, s);
    } else {
      e := nSrcPage + 1;
      EndIs(nSrcPage, s);
      StartNext(nSrcPage, s);
    }
  }

  lemma {:induction false} OneExtra(s: nat, d: nat, nSrc: nat, nSrcPage: nat, iEnd: nat, q: nat, iOff: nat)
    requires Sizes(s, d) && s < d && nSrcPage == (if nSrc == 0 then 1 else nSrc)
    requires iEnd == if PENDING_BYTE + d <= Bytes(nSrcPage, s) then PENDING_BYTE + d else Bytes(nSrcPage, s)
    requires q >= 1 && iOff == Start(q, s) && PENDING_BYTE + s <= iOff && iOff + s <= iEnd
    ensures q <= nSrc && q != PendingPage(s) && OnPendingPage(q, s, d, PendingPage(d), iOff - PENDING_BYTE)
  {
    hide Start, PageNo, PendingPage, Multiple;
    EndIs(nSrcPage, s);
    StartNext(nSrcPage, s);
    if nSrcPage < q { StartOrder(nSrcPage + 1, q, s); }
    PendingCovers(0, s);
  }

  lemma {:induction false} AtEnd(s: nat, d: nat, nSrc: nat, nSrcPage: nat, iEnd: nat, iOff: nat)
    requires s > 0 && nSrcPage == (if nSrc == 0 then 1 else nSrc)
    requires iEnd == if PENDING_BYTE + d <= Bytes(nSrcPage, s) then PENDING_BYTE + d else Bytes(nSrcPage, s)
    requires iOff >= iEnd
    ensures PENDING_BYTE + d <= iOff || Start(nSrc + 1, s) <= iOff
  {
    hide Start;
    if nSrc > 0 {
      EndIs(nSrc, s);
      StartNext(nSrc, s);
    } else {
      StartNext(1, s);
    }
  }

  /** The bytes that are cut off lie on pages from `nDestTruncate` on. */
  lemma {:induction false} CutIsJournalled(n: nat, s: nat, d: nat, t: nat, nDest: nat, journal: set<nat>)
    requires Sizes(s, d) && s < d && t > 0
    requires Bytes(n, s) <= Bytes(t, d) < Bytes(n, s) + d || (t + 1 == PendingPage(d) && PENDING_BYTE < Bytes(n, s))
    requires forall p :: t <= p <= nDest && NotPending(p, d) ==> p in journal
    ensures forall o: nat :: Bytes(n, s) <= o && PageNo(o, d) <= nDest && !Pending(o, d) ==> PageNo(o, d) in journal
  {
    hide Start, PageNo, PendingPage, Multiple;
    forall o: nat | Bytes(n, s) <= o && PageNo(o, d) <= nDest && !Pending(o, d) ensures PageNo(o, d) in journal {
      PendingCovers(o, d);
      EndIs(t, d);
      StartNext(t, d);
      Split(o, d);
      if PageNo(o, d) < t {
        PagePositive(o, d);
        StartNext(PageNo(o, d), d);
        StartOrder(PageNo(o, d) + 1, t, d);
      }
    }
  }

  /** A source that ends on the page of the pending byte ends with that page. */
  lemma {:induction false} SizeIsRight(nSrc: nat, s: nat)
    requires s > 0 && Multiple(PENDING_BYTE, s)
    ensures nSrc >= 1 && PENDING_BYTE < Bytes(nSrc, s) <= PENDING_BYTE + s ==> nSrc == PendingPage(s)
  {
    hide Start, PageNo, PendingPage, Multiple;
    if nSrc >= 1 && PENDING_BYTE < Bytes(nSrc, s) <= PENDING_BYTE + s {
      EndIs(nSrc, s);
      SplitUnique(nSrc, s - 1, s);
      PendingCovers(nSrc * s - 1, s);
    }
  }
}
