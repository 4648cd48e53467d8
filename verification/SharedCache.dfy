/** The transaction and table-lock protocol of handles sharing one cache (struct BtShared in btreeInt.h;
    btree.c:275-466, 3303-3427, 3920-4009, 9986-10003). */
module SharedCache {
  import opened TableLocks

  datatype Rc = Ok | Locked | Failed

  class BtShared {
    /** The open handles with their transaction states. */
    var inTrans: map<nat, Trans>
    /** The list of table locks, newest first. */
    var locks: seq<BtLock>
    var writer: Writer
    var exclusive: bool
    var pending: bool
    var nTransaction: nat
    var inTransaction: Trans

    /** What holds between any two steps of any number of handles. */
    ghost predicate Valid()
      reads this
    {
      && TransOk(inTrans, writer, inTransaction, nTransaction)
      && LocksOk(locks, inTrans, writer)
      && SchemaLocked(locks, inTrans)
      && FlagsOk(locks, writer, exclusive, pending, nTransaction)
    }

    constructor ()
      ensures Valid() && inTrans == map[]
    {
      inTrans, locks, writer, exclusive, pending := map[], [], NoWriter, false, false;
      nTransaction, inTransaction := 0, TransNone;
      new;
      assert Open(inTrans) == {};
    }

    method OpenHandle(p: nat)
      requires Valid() && p !in inTrans
      modifies `inTrans
      ensures Valid() && inTrans == old(inTrans)[p := TransNone] && Open(inTrans) == old(Open(inTrans))
    {
      inTrans := inTrans[p := TransNone];
      assert Open(inTrans) == old(Open(inTrans));
      HandleAdded(locks, old(inTrans), writer, p);
    }

    // ---------------------------------------------------------------- table locks

    /** querySharedCacheTableLock: whether `p` may lock the table.  The test for unequal lock types in the
        loop finds every conflict, because only the writer holds or asks for write locks. */
    method QueryLock(p: nat, table: nat, eLock: LockType) returns (rc: Rc)
      requires Valid() && p in inTrans && (eLock == WriteLock ==> writer == Writer(p))
      modifies `pending
      ensures rc == Ok <==> !(exclusive && writer != Writer(p)) && forall i :: 0 <= i < |locks| ==> !Conflicts(locks[i], p, table, eLock)
      ensures rc != Failed
      ensures pending == (old(pending) || (rc == Locked && eLock == WriteLock))
      ensures inTrans[p] != TransNone ==> Valid()
      ensures rc == Ok ==> Valid()
      ensures nTransaction == 1 && inTrans[p] != TransNone ==> rc == Ok
    {
      if nTransaction == 1 && inTrans[p] != TransNone { OnlyOne(locks, inTrans, writer, p); }
      if writer != Writer(p) && exclusive {
        return Locked;
      }
      var i := 0;
      while i < |locks|
        invariant i <= |locks|
        invariant forall j :: 0 <= j < i ==> !Conflicts(locks[j], p, table, eLock)
      {
        assert LockOk(locks[i], inTrans, writer);
        if locks[i].h != p && locks[i].table == table && locks[i].eLock != eLock {
          if inTrans[p] != TransNone { TwoOpen(inTrans, p, locks[i].h); }
          if eLock == WriteLock { pending := true; }
          assert Conflicts(locks[i], p, table, eLock);
          return Locked;
        }
        i := i + 1;
      }
      rc := Ok;
    }

    /** setSharedCacheTableLock, after a successful query. */
    method SetLock(p: nat, table: nat, eLock: LockType)
      requires Valid() && p in inTrans && Level(inTrans[p]) >= NeededLevel(eLock)
      requires !(exclusive && writer != Writer(p)) && forall i :: 0 <= i < |locks| ==> !Conflicts(locks[i], p, table, eLock)
      modifies `locks
      ensures Valid()
      ensures LockRaisedTo(old(locks), locks, p, table, eLock)
    {
      hide LocksOk, SchemaLocked, TransOk, FlagsOk, Conflicts, LockRaisedTo;
      ghost var l0 := locks;
      var k := 0;
      while k < |locks| && !(locks[k].table == table && locks[k].h == p)
        invariant k <= |locks|
        invariant forall j :: 0 <= j < k ==> locks[j].h != p || locks[j].table != table
      {
        k := k + 1;
      }
      LevelOk(locks, inTrans, writer, inTransaction, nTransaction, p, table, eLock);
      if k < |l0| { RaisedInPlace(l0, inTrans, writer, k, BtLock(p, table, eLock)); }
      if k == |locks| {
        LockAdded(locks, inTrans, writer, BtLock(p, table, eLock));
        FlagsKept(l0, [BtLock(p, table, eLock)] + l0, writer, exclusive, pending, nTransaction, p);
        MoreLocks(l0, [BtLock(p, table, eLock)] + l0, inTrans, 1);
        locks := [BtLock(p, table, eLock)] + locks;
        RaisedByNew(l0, BtLock(p, table, eLock));
      } else if NeededLevel(eLock) > NeededLevel(locks[k].eLock) {
        LockRaised(locks, inTrans, writer, k, BtLock(p, table, eLock));
        FlagsKept(l0, l0[k := BtLock(p, table, eLock)], writer, exclusive, pending, nTransaction, p);
        SameLocks(l0, l0[k := BtLock(p, table, eLock)], inTrans);
        locks := locks[k := BtLock(p, table, eLock)];
      }
    }

    /** sqlite3BtreeLockTable: granted exactly when no other handle is in the way; a write request that is
        refused leaves the cache pending. */
    method LockTable(p: nat, table: nat, isWriteLock: bool) returns (rc: Rc)
      requires Valid() && p in inTrans && inTrans[p] != TransNone && (isWriteLock ==> inTrans[p] == TransWrite)
      modifies `locks, `pending
      ensures Valid() && rc != Failed
      ensures rc == Ok <==> (!(exclusive && writer != Writer(p))
                             && forall i :: 0 <= i < |old(locks)| ==> !Conflicts(old(locks)[i], p, table, if isWriteLock then WriteLock else ReadLock))
      ensures rc == Ok ==> LockRaisedTo(old(locks), locks, p, table, if isWriteLock then WriteLock else ReadLock)
      ensures rc == Locked ==> locks == old(locks)
      ensures pending == (old(pending) || (rc == Locked && isWriteLock))
      ensures nTransaction == 1 ==> rc == Ok
    {
      var lockType := if isWriteLock then WriteLock else ReadLock;
      rc := QueryLock(p, table, lockType);
      if rc == Ok { SetLock(p, table, lockType); }
    }

    // ---------------------------------------------------------------- transactions

    /** `p` has a transaction already that is enough. */
    ghost predicate AlreadyOpen(p: nat, wrflag: nat)
      requires p in inTrans
      reads this
    {
      inTrans[p] == TransWrite || (inTrans[p] == TransRead && wrflag == 0)
    }

    /** Nothing stands in the way of a new or stronger transaction of `p`. */
    ghost predicate MayBegin(p: nat, wrflag: nat, readOnly: bool, pagerOk: bool)
      reads this
    {
      !(readOnly && wrflag > 0) && pagerOk && Unblocked(p, wrflag)
    }

    /** No other handle stands in the way of the transaction. */
    ghost predicate Unblocked(p: nat, wrflag: nat)
      reads this
    {
      && !pending
      && !(wrflag > 0 && writer.Writer?) && !(exclusive && writer != Writer(p))
      && (wrflag > 1 ==> forall l :: l in locks ==> l.h == p)
      && forall i :: 0 <= i < |locks| ==> !Conflicts(locks[i], p, MASTER_ROOT, ReadLock)
    }

    /** sqlite3BtreeBeginTrans: `wrflag` 0 asks for a read transaction, 1 for a write transaction, 2 for an
        exclusive one; `pagerOk` is whether the pager grants it. */
    method BeginTrans(p: nat, wrflag: nat, readOnly: bool, pagerOk: bool) returns (rc: Rc)
      requires Valid() && p in inTrans && wrflag <= 2
      modifies `inTrans, `locks, `writer, `exclusive, `pending, `nTransaction, `inTransaction
      ensures Valid() && inTrans.Keys == old(inTrans.Keys) && pending == old(pending)
      ensures rc == Ok <==> old(AlreadyOpen(p, wrflag) || MayBegin(p, wrflag, readOnly, pagerOk))
      ensures rc == Locked <==> old(!AlreadyOpen(p, wrflag) && !(readOnly && wrflag > 0) && !Unblocked(p, wrflag))
      ensures rc == Ok ==> Level(inTrans[p]) >= (if wrflag > 0 then 2 else 1)
      ensures old(AlreadyOpen(p, wrflag)) ==> inTrans == old(inTrans) && locks == old(locks) && writer == old(writer) && exclusive == old(exclusive)
      ensures rc == Ok && !old(AlreadyOpen(p, wrflag)) ==>
        && inTrans == old(inTrans)[p := if wrflag > 0 then TransWrite else TransRead]
        && locks == (if old(inTrans)[p] == TransNone then [BtLock(p, MASTER_ROOT, ReadLock)] else []) + old(locks)
        && writer == (if wrflag > 0 then Writer(p) else old(writer))
        && exclusive == (if wrflag > 0 then wrflag > 1 else old(exclusive))
      ensures rc != Ok ==> inTrans == old(inTrans) && locks == old(locks) && writer == old(writer) && exclusive == old(exclusive)
      ensures forall h :: h in old(inTrans) && h != p ==> h in inTrans && inTrans[h] == old(inTrans)[h]
      ensures pending ==> inTrans == old(inTrans)
      ensures wrflag > 0 && old(writer).Writer? && old(writer) != Writer(p) ==> rc != Ok
      ensures rc == Ok && wrflag == 2 && old(inTrans)[p] != TransWrite ==> exclusive && forall l :: l in locks ==> l.h == p
    {
      if inTrans[p] == TransWrite || (inTrans[p] == TransRead && wrflag == 0) { return Ok; }
      if readOnly && wrflag > 0 { return Failed; }
      if (wrflag > 0 && inTransaction == TransWrite) || pending {
        return Locked;
      } else if wrflag > 1 {
        var i := 0;
        while i < |locks|
          invariant i <= |locks| && forall j :: 0 <= j < i ==> locks[j].h == p
        {
          if locks[i].h != p { return Locked; }
          i := i + 1;
        }
      }
      rc := QueryLock(p, MASTER_ROOT, ReadLock);
      if rc != Ok { return; }
      if !pagerOk { return Failed; }
      StartTrans(p, wrflag);
    }

    /** The state changes of a transaction that starts or is upgraded. */
    method StartTrans(p: nat, wrflag: nat)
      requires Valid() && p in inTrans && wrflag <= 2 && !pending && !exclusive
      requires inTrans[p] == TransNone || (inTrans[p] == TransRead && wrflag > 0)
      requires wrflag > 0 ==> writer == NoWriter
      requires wrflag > 1 ==> forall i :: 0 <= i < |locks| ==> locks[i].h == p
      requires forall i :: 0 <= i < |locks| ==> !Conflicts(locks[i], p, MASTER_ROOT, ReadLock)
      modifies `inTrans, `locks, `writer, `exclusive, `nTransaction, `inTransaction
      ensures Valid() && inTrans == old(inTrans)[p := if wrflag > 0 then TransWrite else TransRead]
      ensures locks == (if old(inTrans)[p] == TransNone then [BtLock(p, MASTER_ROOT, ReadLock)] else []) + old(locks)
      ensures writer == (if wrflag > 0 then Writer(p) else old(writer)) && exclusive == (if wrflag > 0 then wrflag > 1 else old(exclusive))
      ensures wrflag > 1 ==> exclusive && forall l :: l in locks ==> l.h == p
    {
      hide LocksOk, SchemaLocked, FlagsOk, Conflicts, TransOk, Open, HasLock;
      ghost var l0, t0, w0 := locks, inTrans, writer;
      var t := if wrflag > 0 then TransWrite else TransRead;
      NewState(t0, w0, inTransaction, nTransaction, p, wrflag);
      LocksStarted(l0, t0, w0, p, t, if wrflag > 0 then Writer(p) else w0);
      if inTrans[p] == TransNone {
        nTransaction := nTransaction + 1;
        locks := [BtLock(p, MASTER_ROOT, ReadLock)] + locks;
      }
      assert locks == (if t0[p] == TransNone then [BtLock(p, MASTER_ROOT, ReadLock)] else []) + l0;
      inTrans := inTrans[p := t];
      if Level(t) > Level(inTransaction) { inTransaction := t; }
      if wrflag > 0 {
        writer := Writer(p);
        exclusive := wrflag > 1;
      }
      NewFlags(locks, writer, exclusive, nTransaction, p);
    }

    /** sqlite3BtreeCommitPhaseTwo and the end of sqlite3BtreeRollback.  `moreReaders` is whether other
        statements of the same connection still read; then a read transaction remains. */
    method Conclude(p: nat, moreReaders: bool)
      requires Valid() && p in inTrans
      modifies `inTrans, `locks, `writer, `exclusive, `pending, `nTransaction, `inTransaction
      ensures Valid()
      ensures inTrans == old(inTrans)[p := if moreReaders && old(inTrans)[p] != TransNone then TransRead else TransNone]
      ensures Open(inTrans) <= old(Open(inTrans))
      ensures writer == if old(writer) == Writer(p) then NoWriter else old(writer)
      ensures old(writer) == Writer(p) ==> !pending && !exclusive
      ensures old(writer) != Writer(p) ==> exclusive == old(exclusive)
      ensures old(writer) != Writer(p) ==> (pending <==> old(pending) && (moreReaders || nTransaction >= 2))
      ensures inTrans[p] == TransNone ==> locks == Without(old(locks), p)
      ensures inTrans[p] == TransRead ==> locks == if old(writer) == Writer(p) then AllRead(old(locks)) else old(locks)
    {
      if inTrans[p] == TransNone {
        NoLocksWithout(locks, inTrans, writer, p);
        WithoutNothing(locks, p);
        assert inTrans[p := TransNone] == inTrans;
        return;
      }
      if inTrans[p] == TransWrite { inTransaction := TransRead; }
      EndTransaction(p, moreReaders);
    }

    /** btreeEndTransaction. */
    method EndTransaction(p: nat, moreReaders: bool)
      requires p in inTrans && inTrans[p] != TransNone
      requires TransOk(inTrans, writer, if inTrans[p] == TransWrite then TransWrite else inTransaction, nTransaction)
      requires inTrans[p] == TransWrite ==> inTransaction == TransRead
      requires LocksOk(locks, inTrans, writer) && SchemaLocked(locks, inTrans) && FlagsOk(locks, writer, exclusive, pending, nTransaction)
      modifies `inTrans, `locks, `writer, `exclusive, `pending, `nTransaction, `inTransaction
      ensures Valid()
      ensures inTrans == old(inTrans)[p := if moreReaders then TransRead else TransNone]
      ensures Open(inTrans) <= old(Open(inTrans))
      ensures writer == if old(writer) == Writer(p) then NoWriter else old(writer)
      ensures old(writer) == Writer(p) ==> !pending && !exclusive
      ensures old(writer) != Writer(p) ==> exclusive == old(exclusive)
      ensures old(writer) != Writer(p) ==> (pending <==> old(pending) && (moreReaders || nTransaction >= 2))
      ensures inTrans[p] == TransNone ==> locks == Without(old(locks), p)
      ensures inTrans[p] == TransRead ==> locks == if old(writer) == Writer(p) then AllRead(old(locks)) else old(locks)
    {
      hide LocksOk, SchemaLocked, FlagsOk, Conflicts, TransOk, Open;
      ghost var t0, l0, w0 := inTrans, locks, writer;
      ConcludedState(t0, writer, inTransaction, nTransaction, p, moreReaders);
      if moreReaders {
        Downgraded(locks, t0, writer, p);
        DowngradedFlags(locks, t0, writer, exclusive, pending, nTransaction, p);
        if writer == Writer(p) {
          writer, exclusive, pending := NoWriter, false, false;
          DowngradeLocks();
        }
        inTrans := inTrans[p := TransRead];
      } else {
        Cleared(locks, t0, writer, p);
        ClearedFlags(locks, writer, exclusive, pending, nTransaction, p);
        ClearLocks(p);
        if writer == Writer(p) {
          writer, exclusive, pending := NoWriter, false, false;
        } else if nTransaction == 2 {
          pending := false;
        }
        nTransaction := nTransaction - 1;
        if nTransaction == 0 { inTransaction := TransNone; }
        inTrans := inTrans[p := TransNone];
      }
    }

    /** The loop of clearAllSharedCacheTableLocks. */
    method ClearLocks(p: nat)
      modifies `locks
      ensures locks == Without(old(locks), p)
    {
      var i := |locks|;
      var kept: seq<BtLock> := [];
      while i > 0
        invariant 0 <= i <= |locks| && locks == old(locks) && kept == Without(locks[i..], p)
      {
        i := i - 1;
        assert locks[i..][1..] == locks[i + 1..];
        if locks[i].h != p { kept := [locks[i]] + kept; }
      }
      assert locks[0..] == locks;
      locks := kept;
    }

    /** The loop of downgradeAllSharedCacheTableLocks. */
    method DowngradeLocks()
      modifies `locks
      ensures locks == AllRead(old(locks))
    {
      var i := 0;
      ghost var l0 := locks;
      while i < |locks|
        invariant i <= |locks| == |l0|
        invariant forall j :: 0 <= j < i ==> locks[j] == l0[j].(eLock := ReadLock)
        invariant forall j :: i <= j < |locks| ==> locks[j] == l0[j]
      {
        locks := locks[i := locks[i].(eLock := ReadLock)];
        i := i + 1;
      }
    }

    /** sqlite3BtreeClose: the handle rolls back and goes away. */
    method CloseHandle(p: nat)
      requires Valid() && p in inTrans
      modifies this
      ensures Valid() && inTrans == old(inTrans) - {p} && Open(inTrans) <= old(Open(inTrans))
      ensures locks == Without(old(locks), p) && forall l :: l in locks ==> l.h != p
      ensures writer == if old(writer) == Writer(p) then NoWriter else old(writer)
    {
      hide LocksOk, SchemaLocked, FlagsOk, TransOk, Open, Without;
      ghost var t0 := inTrans;
      Conclude(p, false);
      HandleGone(locks, inTrans, writer, inTransaction, nTransaction, p);
      assert inTrans - {p} == t0 - {p};
      inTrans := inTrans - {p};
    }
  }

  lemma {:induction false} WithoutNothing(locks: seq<BtLock>, p: nat)
    requires forall i :: 0 <= i < |locks| ==> locks[i].h != p
    ensures Without(locks, p) == locks
  {
    if locks != [] {
      WithoutNothing(locks[1..], p);
      assert locks == [locks[0]] + locks[1..];
    }
  }

  /** Where the locks that remain come from. */
  lemma {:induction false} WithoutOrder(locks: seq<BtLock>, p: nat, i: nat, j: nat) returns (a: nat, b: nat)
    requires i < j < |Without(locks, p)|
    ensures a < b < |locks| && locks[a] == Without(locks, p)[i] && locks[b] == Without(locks, p)[j]
  {
    var rest := Without(locks[1..], p);
    if locks[0].h == p {
      a, b := WithoutOrder(locks[1..], p, i, j);
      a, b := a + 1, b + 1;
    } else if i > 0 {
      a, b := WithoutOrder(locks[1..], p, i - 1, j - 1);
      a, b := a + 1, b + 1;
    } else {
      a := 0;
      assert rest[j - 1] in locks[1..];
      var k :| 0 <= k < |locks[1..]| && locks[1..][k] == rest[j - 1];
      b := k + 1;
    }
  }

  /** All locks of `p` released. */
  lemma {:induction false} Cleared(locks: seq<BtLock>, inTrans: map<nat, Trans>, writer: Writer, p: nat)
    requires LocksOk(locks, inTrans, writer) && SchemaLocked(locks, inTrans) && p in inTrans
    ensures LocksOk(Without(locks, p), inTrans[p := TransNone], if writer == Writer(p) then NoWriter else writer)
    ensures SchemaLocked(Without(locks, p), inTrans[p := TransNone])
  {
    var r, t, w := Without(locks, p), inTrans[p := TransNone], if writer == Writer(p) then NoWriter else writer;
    forall i | 0 <= i < |r| ensures LockOk(r[i], t, w) {
      assert r[i] in locks;
      var k :| 0 <= k < |locks| && locks[k] == r[i];
      assert LockOk(locks[k], inTrans, writer);
    }
    forall i, j | 0 <= i < j < |r| ensures r[i].h != r[j].h || r[i].table != r[j].table {
      var a, b := WithoutOrder(locks, p, i, j);
    }
    forall i, j | 0 <= i < |r| && 0 <= j < |r| ensures !Conflicts(r[i], r[j].h, r[j].table, r[j].eLock) {
      assert r[i] in locks && r[j] in locks;
      var a :| 0 <= a < |locks| && locks[a] == r[i];
      var b :| 0 <= b < |locks| && locks[b] == r[j];
    }
    forall h | h in t && t[h] != TransNone ensures HasLock(r, h, MASTER_ROOT) {
      assert HasLock(locks, h, MASTER_ROOT);
      var i :| 0 <= i < |locks| && locks[i].h == h && locks[i].table == MASTER_ROOT;
      assert locks[i] in r;
      var k :| 0 <= k < |r| && r[k] == locks[i];
    }
  }

  /** The flags when `p`, not the writer, ends its transaction, and in particular that a pending writer
      still waits for someone as long as two transactions are open besides. */
  lemma {:induction false} ClearedFlags(locks: seq<BtLock>, writer: Writer, exclusive: bool, pending: bool, nTransaction: nat, p: nat)
    requires FlagsOk(locks, writer, exclusive, pending, nTransaction) && nTransaction > 0
    ensures if writer == Writer(p) then FlagsOk(Without(locks, p), NoWriter, false, false, nTransaction - 1)
            else FlagsOk(Without(locks, p), writer, exclusive, pending && nTransaction != 2, nTransaction - 1)
    ensures pending ==> nTransaction >= 2
  {
    var r := Without(locks, p);
    forall i | 0 <= i < |r| ensures r[i] in locks {}
  }

  /** The transaction states after `p` has concluded. */
  lemma {:induction false} ConcludedState(inTrans: map<nat, Trans>, writer: Writer, inTransaction: Trans,
          nTransaction: nat, p: nat, moreReaders: bool)
    requires p in inTrans && inTrans[p] != TransNone
    requires TransOk(inTrans, writer, if inTrans[p] == TransWrite then TransWrite else inTransaction, nTransaction)
    requires inTrans[p] == TransWrite ==> inTransaction == TransRead
    ensures var t := if moreReaders then TransRead else TransNone;
      var w := if writer == Writer(p) then NoWriter else writer;
      var n := if moreReaders then nTransaction else nTransaction - 1;
      && n >= 0 && TransOk(inTrans[p := t], w, if n == 0 then TransNone else inTransaction, n)
      && Open(inTrans[p := t]) <= Open(inTrans)
      && (moreReaders ==> n > 0)
      && (inTrans[p] == TransWrite <==> writer == Writer(p))
  {
    OpenSet(inTrans, p, if moreReaders then TransRead else TransNone);
    if writer.Writer? && writer.h != p { TwoOpen(inTrans, p, writer.h); }
    assert p in Open(inTrans);
  }

  /** The write locks of `p` become read locks; if `p` is not the writer it has none. */
  lemma {:induction false} Downgraded(locks: seq<BtLock>, inTrans: map<nat, Trans>, writer: Writer, p: nat)
    requires LocksOk(locks, inTrans, writer) && SchemaLocked(locks, inTrans) && p in inTrans && inTrans[p] != TransNone
    requires inTrans[p] == TransWrite <==> writer == Writer(p)
    ensures var r := if writer == Writer(p) then AllRead(locks) else locks;
      && LocksOk(r, inTrans[p := TransRead], if writer == Writer(p) then NoWriter else writer)
      && SchemaLocked(r, inTrans[p := TransRead])
  {
    var t := inTrans[p := TransRead];
    if writer == Writer(p) {
      var r := AllRead(locks);
      forall i | 0 <= i < |r| ensures LockOk(r[i], t, NoWriter) { assert LockOk(locks[i], inTrans, writer); }
      forall h | h in t && t[h] != TransNone ensures HasLock(r, h, MASTER_ROOT) {
        assert HasLock(locks, h, MASTER_ROOT);
        var i :| 0 <= i < |locks| && locks[i].h == h && locks[i].table == MASTER_ROOT;
        assert r[i].h == h;
      }
    } else {
      assert t == inTrans;
    }
  }

  lemma {:induction false} DowngradedFlags(locks: seq<BtLock>, inTrans: map<nat, Trans>, writer: Writer,
          exclusive: bool, pending: bool, nTransaction: nat, p: nat)
    requires FlagsOk(locks, writer, exclusive, pending, nTransaction)
    ensures FlagsOk(AllRead(locks), NoWriter, false, false, nTransaction)
    ensures pending ==> nTransaction >= 2
  {
  }

  /** A handle without a transaction goes away. */
  lemma {:induction false} HandleGone(locks: seq<BtLock>, inTrans: map<nat, Trans>, writer: Writer,
          inTransaction: Trans, nTransaction: nat, p: nat)
    requires TransOk(inTrans, writer, inTransaction, nTransaction)
    requires LocksOk(locks, inTrans, writer) && SchemaLocked(locks, inTrans) && p in inTrans && inTrans[p] == TransNone
    ensures LocksOk(locks, inTrans - {p}, writer) && SchemaLocked(locks, inTrans - {p})
    ensures Open(inTrans - {p}) == Open(inTrans) && TransOk(inTrans - {p}, writer, inTransaction, nTransaction)
    ensures forall l :: l in locks ==> l.h != p
  {
    forall i | 0 <= i < |locks| ensures LockOk(locks[i], inTrans - {p}, writer) { assert LockOk(locks[i], inTrans, writer); }
    assert Open(inTrans - {p}) == Open(inTrans);
  }

  lemma {:induction false} LevelOk(locks: seq<BtLock>, inTrans: map<nat, Trans>, writer: Writer, inTransaction: Trans,
          nTransaction: nat, p: nat, table: nat, eLock: LockType)
    requires TransOk(inTrans, writer, inTransaction, nTransaction) && p in inTrans && Level(inTrans[p]) >= NeededLevel(eLock)
    ensures LockOk(BtLock(p, table, eLock), inTrans, writer)
  {
  }

  lemma {:induction false} FlagsKept(l0: seq<BtLock>, locks: seq<BtLock>, writer: Writer, exclusive: bool,
          pending: bool, nTransaction: nat, p: nat)
    requires FlagsOk(l0, writer, exclusive, pending, nTransaction) && !(exclusive && writer != Writer(p))
    requires forall i :: 0 <= i < |locks| ==> locks[i].h == p || locks[i] in l0
    ensures FlagsOk(locks, writer, exclusive, pending, nTransaction)
  {
  }

  lemma {:induction false} NewFlags(locks: seq<BtLock>, writer: Writer, exclusive: bool, nTransaction: nat, p: nat)
    requires exclusive ==> writer == Writer(p) && forall i :: 0 <= i < |locks| ==> locks[i].h == p
    ensures FlagsOk(locks, writer, exclusive, false, nTransaction)
  {
  }

  lemma {:induction false} NewState(inTrans: map<nat, Trans>, writer: Writer, inTransaction: Trans, nTransaction: nat, p: nat, wrflag: nat)
    requires TransOk(inTrans, writer, inTransaction, nTransaction) && p in inTrans
    requires inTrans[p] == TransNone || (inTrans[p] == TransRead && wrflag > 0)
    requires wrflag > 0 ==> writer == NoWriter
    ensures var t := if wrflag > 0 then TransWrite else TransRead;
      TransOk(inTrans[p := t], if wrflag > 0 then Writer(p) else writer,
              if Level(t) > Level(inTransaction) then t else inTransaction,
              nTransaction + if inTrans[p] == TransNone then 1 else 0)
  {
    OpenSet(inTrans, p, if wrflag > 0 then TransWrite else TransRead);
    if wrflag == 0 && writer.Writer? { assert inTrans[writer.h] == TransWrite; }
  }

  lemma {:induction false} SchemaStarted(locks: seq<BtLock>, inTrans: map<nat, Trans>, p: nat, t: Trans)
    requires SchemaLocked(locks, inTrans) && p in inTrans && t != TransNone
    requires inTrans[p] == TransNone ==> HasLock(locks, p, MASTER_ROOT)
    ensures SchemaLocked(locks, inTrans[p := t])
  {
  }

  // ------------------------------------------------------------------ lemmas about the steps

  /** The locks when the transaction of `p` starts or is upgraded: a new one begins with a lock on the schema. */
  lemma {:induction false} LocksStarted(locks: seq<BtLock>, inTrans: map<nat, Trans>, writer: Writer, p: nat, t: Trans, writer': Writer)
    requires LocksOk(locks, inTrans, writer) && SchemaLocked(locks, inTrans) && p in inTrans
    requires Level(t) >= Level(inTrans[p]) && t != TransNone && (writer' == writer || writer == NoWriter)
    requires forall i :: 0 <= i < |locks| ==> !Conflicts(locks[i], p, MASTER_ROOT, ReadLock)
    ensures var all := (if inTrans[p] == TransNone then [BtLock(p, MASTER_ROOT, ReadLock)] else []) + locks;
      LocksOk(all, inTrans[p := t], writer') && SchemaLocked(all, inTrans[p := t])
  {
    hide LocksOk, SchemaLocked, Conflicts;
    Started(locks, inTrans, writer, p, t, writer');
    if inTrans[p] == TransNone {
      var l := BtLock(p, MASTER_ROOT, ReadLock);
      NoLocksWithout(locks, inTrans, writer, p);
      LockAdded(locks, inTrans[p := t], writer', l);
      MoreLocks(locks, [l] + locks, inTrans, 1);
      assert ([l] + locks)[0] == l;
      SchemaStarted([l] + locks, inTrans, p, t);
    } else {
      assert [] + locks == locks;
      SchemaStarted(locks, inTrans, p, t);
    }
  }

  lemma {:induction false} HandleAdded(locks: seq<BtLock>, inTrans: map<nat, Trans>, writer: Writer, p: nat)
    requires LocksOk(locks, inTrans, writer) && p !in inTrans
    ensures LocksOk(locks, inTrans[p := TransNone], writer)
  {
    forall i | 0 <= i < |locks| ensures LockOk(locks[i], inTrans[p := TransNone], writer) { assert LockOk(locks[i], inTrans, writer); }
  }

  /** With a single open transaction, all locks are held by its handle. */
  lemma {:induction false} OnlyOne(locks: seq<BtLock>, inTrans: map<nat, Trans>, writer: Writer, p: nat)
    requires LocksOk(locks, inTrans, writer) && p in inTrans && inTrans[p] != TransNone && |Open(inTrans)| == 1
    ensures forall i :: 0 <= i < |locks| ==> locks[i].h == p
  {
    forall i | 0 <= i < |locks| ensures locks[i].h == p {
      assert LockOk(locks[i], inTrans, writer);
      if locks[i].h != p { TwoOpen(inTrans, p, locks[i].h); }
    }
  }

  lemma {:induction false} MoreLocks(l0: seq<BtLock>, locks: seq<BtLock>, inTrans: map<nat, Trans>, k: nat)
    requires k + |l0| == |locks| && forall i :: 0 <= i < |l0| ==> locks[i + k] == l0[i]
    ensures SchemaLocked(l0, inTrans) ==> SchemaLocked(locks, inTrans)
  {
    forall h, table | HasLock(l0, h, table) ensures HasLock(locks, h, table) {
      var i :| 0 <= i < |l0| && l0[i].h == h && l0[i].table == table;
      assert locks[i + k].h == h;
    }
  }

  lemma {:induction false} SameLocks(l0: seq<BtLock>, locks: seq<BtLock>, inTrans: map<nat, Trans>)
    requires |l0| == |locks| && forall i :: 0 <= i < |l0| ==> locks[i].h == l0[i].h && locks[i].table == l0[i].table
    ensures SchemaLocked(l0, inTrans) ==> SchemaLocked(locks, inTrans)
  {
    forall h, table | HasLock(l0, h, table) ensures HasLock(locks, h, table) {
      var i :| 0 <= i < |l0| && l0[i].h == h && l0[i].table == table;
      assert locks[i].h == h;
    }
  }

  /** A lock prepended to the list, where the handle held none on the table. */
  lemma {:induction false} RaisedByNew(l0: seq<BtLock>, l: BtLock)
    requires !HasLock(l0, l.h, l.table)
    ensures LockRaisedTo(l0, [l] + l0, l.h, l.table, l.eLock)
  {
    var all := [l] + l0;
    assert all[0] == l;
    assert forall m :: m in l0 ==> m.h != l.h || m.table != l.table;
  }

  /** A lock that is in the list already, raised where the request is stronger. */
  lemma {:induction false} RaisedInPlace(l0: seq<BtLock>, inTrans: map<nat, Trans>, writer: Writer, k: nat, l: BtLock)
    requires LocksOk(l0, inTrans, writer) && k < |l0| && l.h == l0[k].h && l.table == l0[k].table
    ensures LockRaisedTo(l0, if NeededLevel(l.eLock) > NeededLevel(l0[k].eLock) then l0[k := l] else l0, l.h, l.table, l.eLock)
  {
    var all := if NeededLevel(l.eLock) > NeededLevel(l0[k].eLock) then l0[k := l] else l0;
    assert all[k].h == l.h && all[k].table == l.table;
    forall m | m in l0 && m.h == l.h && m.table == l.table ensures m == l0[k] {
      var i :| 0 <= i < |l0| && l0[i] == m;
    }
    forall m | m in all && m.h == l.h && m.table == l.table ensures m == all[k] {
      var i :| 0 <= i < |all| && all[i] == m;
      if i != k { assert l0[i] == m; }
    }
    forall m | m in l0 && (m.h != l.h || m.table != l.table) ensures m in all {
      var i :| 0 <= i < |l0| && l0[i] == m;
      assert all[i] == m;
    }
  }

  /** A handle without a transaction holds no lock. */
  lemma {:induction false} NoLocksWithout(locks: seq<BtLock>, inTrans: map<nat, Trans>, writer: Writer, p: nat)
    requires LocksOk(locks, inTrans, writer) && p in inTrans
    ensures inTrans[p] == TransNone ==> forall i :: 0 <= i < |locks| ==> locks[i].h != p
    ensures inTrans[p] == TransNone ==> forall table :: !HasLock(locks, p, table)
  {
    forall i | 0 <= i < |locks| && inTrans[p] == TransNone ensures locks[i].h != p { assert LockOk(locks[i], inTrans, writer); }
  }

  /** The existing locks stay in order when the transaction of `p` starts or is upgraded. */
  lemma {:induction false} Started(locks: seq<BtLock>, inTrans: map<nat, Trans>, writer: Writer, p: nat, t: Trans, writer': Writer)
    requires LocksOk(locks, inTrans, writer) && p in inTrans && Level(t) >= Level(inTrans[p])
    requires writer' == writer || writer == NoWriter
    ensures LocksOk(locks, inTrans[p := t], writer')
  {
    forall i | 0 <= i < |locks| ensures LockOk(locks[i], inTrans[p := t], writer') { assert LockOk(locks[i], inTrans, writer); }
  }
}
