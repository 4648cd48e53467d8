/** Table locks of handles that share one page cache (btree.c:275-466, 3303-3427, 3920-4009): the state
    and what must hold of it. */
module TableLocks {
  import Counting

  datatype Trans = TransNone | TransRead | TransWrite

  datatype LockType = ReadLock | WriteLock

  /** struct BtLock: handle `h` holds a lock on the table with root page `table`. */
  datatype BtLock = BtLock(h: nat, table: nat, eLock: LockType)

  datatype Writer = NoWriter | Writer(h: nat)

  const MASTER_ROOT: nat := 1

  function Level(t: Trans): nat
  {
    match t case TransNone => 0 case TransRead => 1 case TransWrite => 2
  }

  function NeededLevel(l: LockType): nat
  {
    if l == ReadLock then 1 else 2
  }

  /** Another handle holds a lock that rules out the requested one. */
  ghost predicate Conflicts(l: BtLock, p: nat, table: nat, eLock: LockType)
  {
    l.h != p && l.table == table && (l.eLock == WriteLock || eLock == WriteLock)
  }

  /** The handles with an open transaction. */
  ghost function Open(inTrans: map<nat, Trans>): set<nat>
  {
    set h | h in inTrans && inTrans[h] != TransNone
  }

  /** One lock: its holder has a transaction open that allows it, and a write lock is the writer's. */
  ghost predicate LockOk(l: BtLock, inTrans: map<nat, Trans>, writer: Writer)
  {
    && l.h in inTrans && Level(inTrans[l.h]) >= NeededLevel(l.eLock)
    && (l.eLock == WriteLock ==> writer == Writer(l.h))
  }

  ghost predicate LocksOk(locks: seq<BtLock>, inTrans: map<nat, Trans>, writer: Writer)
  {
    && (forall i :: 0 <= i < |locks| ==> LockOk(locks[i], inTrans, writer))
    && (forall i, j :: 0 <= i < j < |locks| ==> locks[i].h != locks[j].h || locks[i].table != locks[j].table)
    && (forall i, j :: 0 <= i < |locks| && 0 <= j < |locks| ==> !Conflicts(locks[i], locks[j].h, locks[j].table, locks[j].eLock))
  }

  /** The transaction states: at most one writer, and the shared state is the highest of them. */
  ghost predicate TransOk(inTrans: map<nat, Trans>, writer: Writer, inTransaction: Trans, nTransaction: nat)
  {
    && (forall h :: h in inTrans ==> (inTrans[h] == TransWrite <==> writer == Writer(h)))
    && (writer.Writer? ==> writer.h in inTrans)
    && nTransaction == |Open(inTrans)|
    && (inTransaction == TransNone <==> nTransaction == 0)
    && (inTransaction == TransWrite <==> writer.Writer?)
  }

  /** Every open transaction holds a lock on the schema table. */
  ghost predicate SchemaLocked(locks: seq<BtLock>, inTrans: map<nat, Trans>)
  {
    forall h :: h in inTrans && inTrans[h] != TransNone ==> HasLock(locks, h, MASTER_ROOT)
  }

  ghost predicate HasLock(locks: seq<BtLock>, h: nat, table: nat)
  {
    exists i :: 0 <= i < |locks| && locks[i].h == h && locks[i].table == table
  }

  /** The flags: an exclusive writer is alone with its locks; a pending lock request has a writer that
      waits and at least one other open transaction that it waits for. */
  ghost predicate FlagsOk(locks: seq<BtLock>, writer: Writer, exclusive: bool, pending: bool, nTransaction: nat)
  {
    && (exclusive ==> writer.Writer? && forall i :: 0 <= i < |locks| ==> locks[i].h == writer.h)
    && (pending ==> writer.Writer? && nTransaction >= 2)
  }

  /** `p` holds on `table` the stronger of what it held and what it asked for; every other lock, of another
      handle or on another table, is there after exactly when it was there before. */
  ghost predicate LockRaisedTo(before: seq<BtLock>, after: seq<BtLock>, p: nat, table: nat, eLock: LockType)
  {
    && HasLock(after, p, table)
    && (forall l :: l in after && l.h == p && l.table == table ==>
         (l.eLock == WriteLock <==> eLock == WriteLock || BtLock(p, table, WriteLock) in before))
    && (forall l: BtLock :: l.h != p || l.table != table ==> (l in after <==> l in before))
  }

  // ------------------------------------------------------------------ counting open transactions

  lemma {:induction false} OpenSet(inTrans: map<nat, Trans>, p: nat, t: Trans)
    requires p in inTrans
    ensures t != TransNone ==> Open(inTrans[p := t]) == Open(inTrans) + {p}
    ensures t == TransNone ==> Open(inTrans[p := t]) == Open(inTrans) - {p}
    ensures |Open(inTrans[p := t])| == |Open(inTrans)| - (if inTrans[p] != TransNone then 1 else 0) + if t != TransNone then 1 else 0
  {
    if t != TransNone {
      assert Open(inTrans[p := t]) == Open(inTrans) + {p};
    } else {
      assert Open(inTrans[p := t]) == Open(inTrans) - {p};
    }
    assert p in Open(inTrans) <==> inTrans[p] != TransNone;
  }

  lemma {:induction false} TwoOpen(inTrans: map<nat, Trans>, p: nat, q: nat)
    requires p in inTrans && q in inTrans && p != q && inTrans[p] != TransNone && inTrans[q] != TransNone
    ensures |Open(inTrans)| >= 2
  {
    assert {p, q} <= Open(inTrans);
    Counting.SubsetSize({p, q}, Open(inTrans));
  }

  // ------------------------------------------------------------------ changes to the lock list

  /** A lock granted to `p`. */
  lemma {:induction false} LockAdded(locks: seq<BtLock>, inTrans: map<nat, Trans>, writer: Writer, l: BtLock)
    requires LocksOk(locks, inTrans, writer) && LockOk(l, inTrans, writer) && !HasLock(locks, l.h, l.table)
    requires forall i :: 0 <= i < |locks| ==> !Conflicts(locks[i], l.h, l.table, l.eLock)
    ensures LocksOk([l] + locks, inTrans, writer)
  {
    var all := [l] + locks;
    forall i | 0 <= i < |all| ensures LockOk(all[i], inTrans, writer) && (i > 0 ==> all[i] == locks[i - 1]) {}
    forall i, j | 0 <= i < |all| && 0 <= j < |all| ensures !Conflicts(all[i], all[j].h, all[j].table, all[j].eLock) {
      if i > 0 && j > 0 { assert !Conflicts(locks[i - 1], locks[j - 1].h, locks[j - 1].table, locks[j - 1].eLock); }
      else if i > 0 { assert !Conflicts(locks[i - 1], l.h, l.table, l.eLock); }
      else if j > 0 { assert !Conflicts(locks[j - 1], l.h, l.table, l.eLock); }
    }
  }

  /** A lock of `p` strengthened. */
  lemma {:induction false} LockRaised(locks: seq<BtLock>, inTrans: map<nat, Trans>, writer: Writer, k: nat, l: BtLock)
    requires LocksOk(locks, inTrans, writer) && k < |locks| && l.h == locks[k].h && l.table == locks[k].table
    requires LockOk(l, inTrans, writer)
    requires forall i :: 0 <= i < |locks| ==> !Conflicts(locks[i], l.h, l.table, l.eLock)
    ensures LocksOk(locks[k := l], inTrans, writer)
  {
    var all := locks[k := l];
    forall i, j | 0 <= i < |all| && 0 <= j < |all| ensures !Conflicts(all[i], all[j].h, all[j].table, all[j].eLock) {
      assert !Conflicts(locks[i], locks[j].h, locks[j].table, locks[j].eLock);
      assert !Conflicts(locks[i], l.h, l.table, l.eLock) && !Conflicts(locks[j], l.h, l.table, l.eLock);
    }
  }

  /** The locks without those of `p`. */
  function Without(locks: seq<BtLock>, p: nat): (r: seq<BtLock>)
    ensures forall l :: l in r <==> l in locks && l.h != p
    ensures |r| <= |locks|
  {
    if locks == [] then [] else
      var rest := Without(locks[1..], p);
      assert locks == [locks[0]] + locks[1..];
      if locks[0].h == p then rest else [locks[0]] + rest
  }

  /** All locks as read locks. */
  function AllRead(locks: seq<BtLock>): (r: seq<BtLock>)
    ensures |r| == |locks|
    ensures forall i :: 0 <= i < |r| ==> r[i] == locks[i].(eLock := ReadLock)
  {
    seq(|locks|, (i: int) requires 0 <= i < |locks| => locks[i].(eLock := ReadLock))
  }
}
