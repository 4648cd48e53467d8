/** The mutexes of shared b-trees (btmutex.c) as a state machine: any number of connections, each going
    through sqlite3BtreeEnter and sqlite3BtreeLeave one atomic action at a time, in any interleaving. */
module BtMutex {

  /** A sharable Btree of a connection; `pBt` is the address of its BtShared. */
  datatype Btree = Btree(pBt: nat, wantToLock: nat, locked: bool)

  /** Where a connection is: outside, about to try the mutex of Btree `i`, releasing the later Btrees
      from `k` on, waiting for the mutex of `i`, or locking the later Btrees again from `k` on. */
  datatype Pc =
    | Outside
    | Trying(i: nat)
    | Releasing(i: nat, k: nat)
    | Waiting(i: nat)
    | Relocking(i: nat, k: nat)

  /** `list` follows the pNext links. */
  datatype Connection = Connection(list: seq<Btree>, pc: Pc)

  /** `owner` names the connection that holds a mutex; a free mutex has none. */
  datatype State = State(conns: map<nat, Connection>, owner: map<nat, nat>)

  // ------------------------------------------------------------------ the steps

  datatype Action =
    | Open(pBt: nat)      // a new handle joins the list
    | Close(i: nat)       // a handle that nobody wants leaves it
    | Enter(i: nat)       // the call of sqlite3BtreeEnter
    | TryLock             // sqlite3_mutex_try succeeds
    | TryFail             // or does not; it need not have a reason
    | Release             // one turn of the first loop of btreeLockCarefully
    | Lock                // lockBtreeMutex on the wanted Btree
    | Relock              // one turn of the second loop
    | Leave(i: nat)       // sqlite3BtreeLeave

  predicate Free(s: State, pBt: nat)
  {
    pBt !in s.owner
  }

  /** Place of a new handle in the list, which is ascending by address. */
  function Place(list: seq<Btree>, pBt: nat): (k: nat)
    ensures k <= |list|
    ensures forall j :: 0 <= j < k ==> list[j].pBt <= pBt
    ensures k < |list| ==> pBt < list[k].pBt
  {
    if list == [] || pBt < list[0].pBt then 0
    else
      var k := Place(list[1..], pBt);
      assert forall j :: 1 <= j < k + 1 ==> list[j] == list[1..][j - 1];
      k + 1
  }

  function Inserted(list: seq<Btree>, k: nat, b: Btree): seq<Btree>
    requires k <= |list|
  {
    list[..k] + [b] + list[k..]
  }

  function Removed(list: seq<Btree>, i: nat): seq<Btree>
    requires i < |list|
  {
    list[..i] + list[i + 1..]
  }

  /** Whether connection `c` can do `a` now. */
  predicate Enabled(s: State, c: nat, a: Action)
  {
    c in s.conns &&
    var n, list := s.conns[c], s.conns[c].list;
    match a
    case Open(pBt) => n.pc.Outside? && forall j :: 0 <= j < |list| ==> list[j].pBt != pBt
    case Close(i) => n.pc.Outside? && i < |list| && list[i].wantToLock == 0
    case Enter(i) => n.pc.Outside? && i < |list|
    case TryLock => n.pc.Trying? && n.pc.i < |list| && Free(s, list[n.pc.i].pBt)
    case TryFail => n.pc.Trying?
    case Release => n.pc.Releasing?
    case Lock => n.pc.Waiting? && n.pc.i < |list| && Free(s, list[n.pc.i].pBt)
    case Relock =>
      && n.pc.Relocking?
      && (n.pc.k < |list| && list[n.pc.k].wantToLock > 0 ==> !list[n.pc.k].locked && Free(s, list[n.pc.k].pBt))
    case Leave(i) => n.pc.Outside? && i < |list| && list[i].wantToLock > 0
  }

  function Update(s: State, c: nat, n: Connection): State
  {
    s.(conns := s.conns[c := n])
  }

  /** lockBtreeMutex: handle `i` takes its mutex. */
  function LockHandle(s: State, c: nat, n: Connection, i: nat, pc: Pc): State
    requires i < |n.list|
  {
    var list := n.list[i := n.list[i].(locked := true)];
    State(s.conns[c := Connection(list, pc)], s.owner[n.list[i].pBt := c])
  }

  /** unlockBtreeMutex: handle `i`, with `want` references left, gives its mutex up. */
  function UnlockHandle(s: State, c: nat, n: Connection, i: nat, want: nat, pc: Pc): State
    requires i < |n.list|
  {
    var list := n.list[i := Btree(n.list[i].pBt, want, false)];
    State(s.conns[c := Connection(list, pc)], s.owner - {n.list[i].pBt})
  }

  function Next(s: State, c: nat, a: Action): State
    requires Enabled(s, c, a)
  {
    var n, list := s.conns[c], s.conns[c].list;
    match a
    case Open(pBt) =>
      var k := Place(list, pBt);
      Update(s, c, n.(list := Inserted(list, k, Btree(pBt, 0, false))))
    case Close(i) => Update(s, c, n.(list := Removed(list, i)))
    case Enter(i) =>
      var b := list[i].(wantToLock := list[i].wantToLock + 1);
      Update(s, c, Connection(list[i := b], if b.locked then Outside else Trying(i)))
    case TryLock => LockHandle(s, c, n, n.pc.i, Outside)
    case TryFail => Update(s, c, n.(pc := Releasing(n.pc.i, n.pc.i + 1)))
    case Release =>
      var k := n.pc.k;
      if k >= |list| then Update(s, c, n.(pc := Waiting(n.pc.i)))
      else if list[k].locked then UnlockHandle(s, c, n, k, list[k].wantToLock, Releasing(n.pc.i, k + 1))
      else Update(s, c, n.(pc := Releasing(n.pc.i, k + 1)))
    case Lock => LockHandle(s, c, n, n.pc.i, Relocking(n.pc.i, n.pc.i + 1))
    case Relock =>
      var k := n.pc.k;
      if k >= |list| then Update(s, c, n.(pc := Outside))
      else if list[k].wantToLock > 0 then LockHandle(s, c, n, k, Relocking(n.pc.i, k + 1))
      else Update(s, c, n.(pc := Relocking(n.pc.i, k + 1)))
    case Leave(i) =>
      var want := list[i].wantToLock - 1;
      if want == 0 then UnlockHandle(s, c, n, i, 0, Outside)
      else Update(s, c, n.(list := list[i := list[i].(wantToLock := want)]))
  }

  // ------------------------------------------------------------------ the invariant

  ghost predicate Ascending(list: seq<Btree>)
  {
    forall i, j :: 0 <= i < j < |list| ==> list[i].pBt < list[j].pBt
  }

  /** A handle is locked exactly if it is wanted. */
  ghost predicate Settled(b: Btree)
  {
    b.locked <==> b.wantToLock > 0
  }

  /** What is locked at each place of the protocol. */
  ghost predicate Consistent(n: Connection)
  {
    var list := n.list;
    match n.pc
    case Outside => forall j :: 0 <= j < |list| ==> Settled(list[j])
    case Trying(i) =>
      && i < |list| && list[i].wantToLock > 0 && !list[i].locked
      && forall j :: 0 <= j < |list| && j != i ==> Settled(list[j])
    case Releasing(i, k) =>
      && i < |list| && i < k <= |list| && list[i].wantToLock > 0 && !list[i].locked
      && forall j :: 0 <= j < |list| && j != i ==> if i < j < k then !list[j].locked else Settled(list[j])
    case Waiting(i) =>
      && i < |list| && list[i].wantToLock > 0 && !list[i].locked
      && forall j :: 0 <= j < |list| && j != i ==> if i < j then !list[j].locked else Settled(list[j])
    case Relocking(i, k) =>
      && i < |list| && i < k <= |list|
      && forall j :: 0 <= j < |list| ==> if k <= j then !list[j].locked else Settled(list[j])
  }

  /** Connection `c` holds exactly the mutexes of its locked handles. */
  ghost predicate Holds(owner: map<nat, nat>, c: nat, list: seq<Btree>)
  {
    && (forall j :: 0 <= j < |list| ==> (list[j].locked <==> list[j].pBt in owner && owner[list[j].pBt] == c))
    && (forall a :: a in owner && owner[a] == c ==> Listed(list, a))
  }

  ghost predicate Listed(list: seq<Btree>, a: nat)
  {
    exists j :: 0 <= j < |list| && list[j].pBt == a
  }

  ghost predicate ConnOk(s: State, c: nat)
  {
    c in s.conns ==> Ascending(s.conns[c].list) && Consistent(s.conns[c]) && Holds(s.owner, c, s.conns[c].list)
  }

  ghost predicate Inv(s: State)
  {
    && (forall c: nat :: ConnOk(s, c))
    && (forall a :: a in s.owner ==> s.owner[a] in s.conns)
  }

  /** Connections without handles and no mutex held. */
  ghost predicate Initial(s: State)
  {
    s.owner == map[] && forall c :: c in s.conns ==> s.conns[c] == Connection([], Outside)
  }

  /** A run: the states between the actions. */
  ghost predicate Run(trace: seq<State>, steps: seq<(nat, Action)>)
  {
    && |trace| == |steps| + 1 && Initial(trace[0])
    && forall t :: 0 <= t < |steps| ==> StepAt(trace, steps, t)
  }

  ghost predicate StepAt(trace: seq<State>, steps: seq<(nat, Action)>, t: nat)
    requires |trace| == |steps| + 1
  {
    t < |steps| && Enabled(trace[t], steps[t].0, steps[t].1) && trace[t + 1] == Next(trace[t], steps[t].0, steps[t].1)
  }

  // ------------------------------------------------------------------ every step keeps the invariant

  lemma {:induction false} InitialInv(s: State)
    requires Initial(s)
    ensures Inv(s)
  {
    forall c: nat ensures ConnOk(s, c) {}
  }

  /** Another connection does not see its own part of the state change. */
  lemma {:induction false} OtherConn(s: State, s': State, c: nat, d: nat, pBt: nat)
    requires ConnOk(s, d) && c != d
    requires s'.conns.Keys == s.conns.Keys && (d in s.conns ==> s'.conns[d] == s.conns[d])
    requires forall a :: a != pBt ==> (a in s'.owner <==> a in s.owner) && (a in s.owner ==> s'.owner[a] == s.owner[a])
    requires pBt in s.owner ==> s.owner[pBt] == c
    requires pBt in s'.owner ==> s'.owner[pBt] == c
    ensures ConnOk(s', d)
  {
    if d in s.conns {
      hide Ascending, Consistent, Listed;
      var list := s.conns[d].list;
      forall j | 0 <= j < |list| ensures list[j].locked <==> list[j].pBt in s'.owner && s'.owner[list[j].pBt] == d {
      }
    }
  }

  lemma {:induction false} OthersOk(s: State, s': State, c: nat, pBt: nat)
    requires Inv(s) && c in s.conns && s'.conns.Keys == s.conns.Keys
    requires forall d :: d in s.conns && d != c ==> s'.conns[d] == s.conns[d]
    requires forall a :: a != pBt ==> (a in s'.owner <==> a in s.owner) && (a in s.owner ==> s'.owner[a] == s.owner[a])
    requires pBt in s.owner ==> s.owner[pBt] == c
    requires pBt in s'.owner ==> s'.owner[pBt] == c
    requires ConnOk(s', c)
    ensures Inv(s')
  {
    hide ConnOk;
    forall d: nat ensures ConnOk(s', d) {
      if d != c { OtherConn(s, s', c, d, pBt); }
    }
  }

  /** A step that touches no mutex. */
  lemma {:induction false} UpdateInv(s: State, c: nat, n: Connection)
    requires Inv(s) && c in s.conns && Ascending(n.list) && Consistent(n) && Holds(s.owner, c, n.list)
    ensures Inv(Update(s, c, n))
  {
    hide Ascending, Consistent, Listed;
    var s' := Update(s, c, n);
    forall d: nat ensures ConnOk(s', d) {
      if d != c { assert ConnOk(s, d); }
    }
  }

  lemma {:induction false} AscendingKept(list: seq<Btree>, i: nat, b: Btree)
    requires Ascending(list) && i < |list| && b.pBt == list[i].pBt
    ensures Ascending(list[i := b])
  {
  }

  lemma {:induction false} ListedKept(list: seq<Btree>, i: nat, b: Btree, a: nat)
    requires i < |list| && b.pBt == list[i].pBt && Listed(list, a)
    ensures Listed(list[i := b], a)
  {
    var j :| 0 <= j < |list| && list[j].pBt == a;
    assert list[i := b][j].pBt == a;
  }

  /** Taking a free mutex. */
  lemma {:induction false} LockHolds(s: State, c: nat, i: nat)
    requires Inv(s) && c in s.conns && i < |s.conns[c].list| && Free(s, s.conns[c].list[i].pBt)
    ensures var list := s.conns[c].list;
      var list' := list[i := list[i].(locked := true)];
      Ascending(list') && Holds(s.owner[list[i].pBt := c], c, list')
  {
    assert ConnOk(s, c);
    var list := s.conns[c].list;
    var b := list[i].(locked := true);
    AscendingKept(list, i, b);
    var owner' := s.owner[list[i].pBt := c];
    forall a | a in owner' && owner'[a] == c ensures Listed(list[i := b], a) {
      if a == list[i].pBt { assert list[i := b][i].pBt == a; } else { ListedKept(list, i, b, a); }
    }
  }

  lemma {:induction false} LockInv(s: State, c: nat, i: nat, pc: Pc)
    requires Inv(s) && c in s.conns && i < |s.conns[c].list| && Free(s, s.conns[c].list[i].pBt)
    requires Consistent(Connection(s.conns[c].list[i := s.conns[c].list[i].(locked := true)], pc))
    ensures Inv(LockHandle(s, c, s.conns[c], i, pc))
  {
    hide Consistent, Ascending;
    LockHolds(s, c, i);
    OthersOk(s, LockHandle(s, c, s.conns[c], i, pc), c, s.conns[c].list[i].pBt);
  }

  /** Giving up a mutex. */
  lemma {:induction false} UnlockHolds(s: State, c: nat, i: nat, want: nat)
    requires Inv(s) && c in s.conns && i < |s.conns[c].list| && s.conns[c].list[i].locked
    ensures var list := s.conns[c].list;
      && list[i].pBt in s.owner && s.owner[list[i].pBt] == c
      && Ascending(list[i := Btree(list[i].pBt, want, false)])
      && Holds(s.owner - {list[i].pBt}, c, list[i := Btree(list[i].pBt, want, false)])
  {
    assert ConnOk(s, c);
    var list := s.conns[c].list;
    var b := Btree(list[i].pBt, want, false);
    AscendingKept(list, i, b);
    var owner' := s.owner - {list[i].pBt};
    forall a | a in owner' && owner'[a] == c ensures Listed(list[i := b], a) { ListedKept(list, i, b, a); }
  }

  lemma {:induction false} UnlockInv(s: State, c: nat, i: nat, want: nat, pc: Pc)
    requires Inv(s) && c in s.conns && i < |s.conns[c].list| && s.conns[c].list[i].locked
    requires Consistent(Connection(s.conns[c].list[i := Btree(s.conns[c].list[i].pBt, want, false)], pc))
    ensures Inv(UnlockHandle(s, c, s.conns[c], i, want, pc))
  {
    hide Consistent, Ascending;
    UnlockHolds(s, c, i, want);
    OthersOk(s, UnlockHandle(s, c, s.conns[c], i, want, pc), c, s.conns[c].list[i].pBt);
  }

  lemma {:induction false} InsertedAt(list: seq<Btree>, k: nat, b: Btree)
    requires k <= |list|
    ensures |Inserted(list, k, b)| == |list| + 1 && Inserted(list, k, b)[k] == b
    ensures forall j :: 0 <= j < k ==> Inserted(list, k, b)[j] == list[j]
    ensures forall j :: k < j <= |list| ==> Inserted(list, k, b)[j] == list[j - 1]
  {
  }

  lemma {:induction false} RemovedAt(list: seq<Btree>, i: nat)
    requires i < |list|
    ensures |Removed(list, i)| == |list| - 1
    ensures forall j :: 0 <= j < i ==> Removed(list, i)[j] == list[j]
    ensures forall j :: i <= j < |list| - 1 ==> Removed(list, i)[j] == list[j + 1]
  {
  }

  lemma {:induction false} InsertedOk(list: seq<Btree>, pBt: nat)
    requires Ascending(list) && Consistent(Connection(list, Outside)) && forall j :: 0 <= j < |list| ==> list[j].pBt != pBt
    ensures var list' := Inserted(list, Place(list, pBt), Btree(pBt, 0, false));
      Ascending(list') && Consistent(Connection(list', Outside))
  {
    hide Inserted, Place;
    var k := Place(list, pBt);
    PlaceIs(list, pBt);
    InsertedAt(list, k, Btree(pBt, 0, false));
  }

  /** Addresses before the place are smaller, those after it larger. */
  lemma {:induction false} PlaceIs(list: seq<Btree>, pBt: nat)
    requires Ascending(list) && forall j :: 0 <= j < |list| ==> list[j].pBt != pBt
    ensures Place(list, pBt) <= |list|
    ensures forall j :: 0 <= j < Place(list, pBt) ==> list[j].pBt < pBt
    ensures forall j :: Place(list, pBt) <= j < |list| ==> pBt < list[j].pBt
  {
  }

  lemma {:induction false} OpenInv(s: State, c: nat, pBt: nat)
    requires Inv(s) && Enabled(s, c, Open(pBt))
    ensures Inv(Next(s, c, Open(pBt)))
  {
    hide Ascending, Consistent, Inserted, Place;
    ConnParts(s, c);
    var list := s.conns[c].list;
    var k := Place(list, pBt);
    var list' := Inserted(list, k, Btree(pBt, 0, false));
    InsertedAt(list, k, Btree(pBt, 0, false));
    InsertedOk(list, pBt);
    forall a | a in s.owner && s.owner[a] == c ensures Listed(list', a) {
      assert Listed(list, a);
      var j :| 0 <= j < |list| && list[j].pBt == a;
      assert list'[if j < k then j else j + 1] == list[j];
    }
    NotHeld(s, c, pBt);
    UpdateInv(s, c, s.conns[c].(list := list'));
  }

  /** A mutex of no handle in the list is not held by the connection. */
  lemma {:induction false} NotHeld(s: State, c: nat, pBt: nat)
    requires Inv(s) && c in s.conns && forall j :: 0 <= j < |s.conns[c].list| ==> s.conns[c].list[j].pBt != pBt
    ensures !(pBt in s.owner && s.owner[pBt] == c)
  {
    ConnParts(s, c);
    assert pBt in s.owner && s.owner[pBt] == c ==> Listed(s.conns[c].list, pBt);
  }

  lemma {:induction false} CloseInv(s: State, c: nat, i: nat)
    requires Inv(s) && Enabled(s, c, Close(i))
    ensures Inv(Next(s, c, Close(i)))
  {
    hide Removed, Update;
    ConnParts(s, c);
    var list := s.conns[c].list;
    var list' := Removed(list, i);
    RemovedAt(list, i);
    assert Settled(list[i]);
    RemovedHolds(s.owner, c, list, i);
    UpdateInv(s, c, s.conns[c].(list := list'));
  }

  lemma {:induction false} RemovedHolds(owner: map<nat, nat>, c: nat, list: seq<Btree>, i: nat)
    requires Holds(owner, c, list) && i < |list| && !list[i].locked
    ensures Holds(owner, c, Removed(list, i))
  {
    hide Removed;
    RemovedAt(list, i);
    var list' := Removed(list, i);
    forall a | a in owner && owner[a] == c ensures Listed(list', a) {
      assert Listed(list, a);
      var j :| 0 <= j < |list| && list[j].pBt == a;
      assert list[j].locked && j != i;
      assert list'[if j < i then j else j - 1] == list[j];
    }
  }

  /** A changed count of references. */
  lemma {:induction false} CountInv(s: State, c: nat, i: nat, want: nat, pc: Pc)
    requires Inv(s) && c in s.conns && i < |s.conns[c].list|
    requires Consistent(Connection(s.conns[c].list[i := s.conns[c].list[i].(wantToLock := want)], pc))
    ensures Inv(Update(s, c, Connection(s.conns[c].list[i := s.conns[c].list[i].(wantToLock := want)], pc)))
  {
    hide Consistent;
    assert ConnOk(s, c);
    var list := s.conns[c].list;
    var b := list[i].(wantToLock := want);
    AscendingKept(list, i, b);
    forall a | a in s.owner && s.owner[a] == c ensures Listed(list[i := b], a) { ListedKept(list, i, b, a); }
    UpdateInv(s, c, Connection(list[i := b], pc));
  }

  /** A step that only moves on. */
  lemma {:induction false} MoveInv(s: State, c: nat, pc: Pc)
    requires Inv(s) && c in s.conns && Consistent(s.conns[c].(pc := pc))
    ensures Inv(Update(s, c, s.conns[c].(pc := pc)))
  {
    hide Consistent;
    assert ConnOk(s, c);
    UpdateInv(s, c, s.conns[c].(pc := pc));
  }

  lemma {:induction false} ReleaseInv(s: State, c: nat)
    requires Inv(s) && Enabled(s, c, Release)
    ensures Inv(Next(s, c, Release))
  {
    hide Inv, Holds, Ascending, UnlockHandle, Update;
    var n := s.conns[c];
    ConnParts(s, c);
    if n.pc.k >= |n.list| {
      MoveInv(s, c, Waiting(n.pc.i));
    } else if n.list[n.pc.k].locked {
      UnlockInv(s, c, n.pc.k, n.list[n.pc.k].wantToLock, Releasing(n.pc.i, n.pc.k + 1));
    } else {
      MoveInv(s, c, Releasing(n.pc.i, n.pc.k + 1));
    }
  }

  lemma {:induction false} RelockInv(s: State, c: nat)
    requires Inv(s) && Enabled(s, c, Relock)
    ensures Inv(Next(s, c, Relock))
  {
    hide Inv, Holds, Ascending, LockHandle, Update;
    var n := s.conns[c];
    ConnParts(s, c);
    if n.pc.k >= |n.list| {
      MoveInv(s, c, Outside);
    } else if n.list[n.pc.k].wantToLock > 0 {
      LockInv(s, c, n.pc.k, Relocking(n.pc.i, n.pc.k + 1));
    } else {
      MoveInv(s, c, Relocking(n.pc.i, n.pc.k + 1));
    }
  }

  /** Every action of every connection keeps the invariant. */
  lemma {:induction false} StepInv(s: State, c: nat, a: Action)
    requires Inv(s) && Enabled(s, c, a)
    ensures Inv(Next(s, c, a))
  {
    hide Inv, Holds, Ascending, UnlockHandle, LockHandle, Update;
    var n := s.conns[c];
    ConnParts(s, c);
    match a
    case Open(pBt) => OpenInv(s, c, pBt);
    case Close(i) => CloseInv(s, c, i);
    case Enter(i) =>
      CountInv(s, c, i, n.list[i].wantToLock + 1, if n.list[i].locked then Outside else Trying(i));
    case TryLock => LockInv(s, c, n.pc.i, Outside);
    case TryFail => MoveInv(s, c, Releasing(n.pc.i, n.pc.i + 1));
    case Release => ReleaseInv(s, c);
    case Lock => LockInv(s, c, n.pc.i, Relocking(n.pc.i, n.pc.i + 1));
    case Relock => RelockInv(s, c);
    case Leave(i) =>
      if n.list[i].wantToLock == 1 {
        UnlockInv(s, c, i, 0, Outside);
      } else {
        CountInv(s, c, i, n.list[i].wantToLock - 1, Outside);
      }
  }

  lemma {:induction false} ConnParts(s: State, c: nat)
    requires Inv(s) && c in s.conns
    ensures Ascending(s.conns[c].list) && Consistent(s.conns[c]) && Holds(s.owner, c, s.conns[c].list)
  {
    assert ConnOk(s, c);
  }

  /** Every state of every run satisfies the invariant. */
  lemma {:induction false} RunInv(trace: seq<State>, steps: seq<(nat, Action)>, t: nat)
    requires Run(trace, steps) && t <= |steps|
    ensures Inv(trace[t])
  {
    hide Inv, Initial;
    if t == 0 {
      InitialInv(trace[0]);
    } else {
      RunInv(trace, steps, t - 1);
      assert StepAt(trace, steps, t - 1);
      StepInv(trace[t - 1], steps[t - 1].0, steps[t - 1].1);
    }
  }

  // ------------------------------------------------------------------ blocking

  /** The handle whose mutex the connection waits for without being able to do anything else. */
  ghost predicate BlockedOn(s: State, c: nat, i: nat)
  {
    && c in s.conns && i < |s.conns[c].list| && !Free(s, s.conns[c].list[i].pBt)
    && ((s.conns[c].pc.Waiting? && s.conns[c].pc.i == i)
        || (s.conns[c].pc.Relocking? && s.conns[c].pc.k == i && s.conns[c].list[i].wantToLock > 0))
  }

  /** `c` waits for a mutex, that of address `a`, which `d` holds. */
  ghost predicate WaitsFor(s: State, c: nat, a: nat, d: nat)
  {
    && a in s.owner && s.owner[a] == d
    && exists i: nat :: BlockedOn(s, c, i) && s.conns[c].list[i].pBt == a
  }

  /** A connection blocked on a mutex holds only mutexes of smaller address. */
  lemma {:induction false} HoldsSmaller(s: State, c: nat, i: nat, a: nat)
    requires Inv(s) && BlockedOn(s, c, i) && a in s.owner && s.owner[a] == c
    ensures a < s.conns[c].list[i].pBt
  {
    ConnParts(s, c);
    var list := s.conns[c].list;
    assert Listed(list, a);
    var j :| 0 <= j < |list| && list[j].pBt == a;
    assert list[j].locked;
    assert j < i;
  }

  /** A path in the wait-for graph: connection `cs[k]` waits for `cs[k + 1]` on address `via[k]`. */
  ghost predicate WaitPath(s: State, cs: seq<nat>, via: seq<nat>)
  {
    |cs| == |via| + 1 && forall k :: 0 <= k < |via| ==> WaitStep(s, cs, via, k)
  }

  ghost predicate WaitStep(s: State, cs: seq<nat>, via: seq<nat>, k: nat)
    requires |cs| == |via| + 1
  {
    k < |via| && WaitsFor(s, cs[k], via[k], cs[k + 1])
  }

  /** Along such a path the addresses grow. */
  lemma {:induction false} PathAscends(s: State, cs: seq<nat>, via: seq<nat>, k: nat)
    requires Inv(s) && WaitPath(s, cs, via) && k < |via|
    ensures via[0] <= via[k]
  {
    hide Inv;
    if k > 0 {
      PathAscends(s, cs, via, k - 1);
      assert WaitStep(s, cs, via, k - 1) && WaitStep(s, cs, via, k);
      var i: nat :| BlockedOn(s, cs[k], i) && s.conns[cs[k]].list[i].pBt == via[k];
      HoldsSmaller(s, cs[k], i, via[k - 1]);
    }
  }

  /** The wait-for graph has no cycle. */
  lemma {:induction false} NoCycle(s: State, cs: seq<nat>, via: seq<nat>)
    requires Inv(s) && WaitPath(s, cs, via) && via != []
    ensures cs[0] != cs[|cs| - 1]
  {
    hide Inv;
    if cs[0] == cs[|cs| - 1] {
      var m := |via| - 1;
      PathAscends(s, cs, via, m);
      assert WaitStep(s, cs, via, 0) && WaitStep(s, cs, via, m);
      var i: nat :| BlockedOn(s, cs[0], i) && s.conns[cs[0]].list[i].pBt == via[0];
      HoldsSmaller(s, cs[0], i, via[m]);
    }
  }

  /** No deadlock: from every blocked connection a path of waits leads to one that is not blocked. */
  lemma {:induction false} Progress(s: State, c: nat) returns (cs: seq<nat>, via: seq<nat>)
    requires Inv(s) && c in s.conns
    ensures WaitPath(s, cs, via) && cs[0] == c
    ensures var d := cs[|cs| - 1]; d in s.conns && forall i: nat :: !BlockedOn(s, d, i)
  {
    cs, via := ProgressFrom(s, c, s.owner.Keys);
  }

  lemma {:induction false} ProgressFrom(s: State, c: nat, later: set<nat>) returns (cs: seq<nat>, via: seq<nat>)
    requires Inv(s) && c in s.conns && later <= s.owner.Keys
    requires forall i: nat :: BlockedOn(s, c, i) ==> s.conns[c].list[i].pBt in later
    requires forall a, b :: a in later && b in s.owner && a < b ==> b in later
    ensures WaitPath(s, cs, via) && cs[0] == c
    ensures var d := cs[|cs| - 1]; d in s.conns && forall i: nat :: !BlockedOn(s, d, i)
    decreases |later|
  {
    hide Holds, Consistent, Ascending, ConnOk;
    if i: nat :| BlockedOn(s, c, i) {
      var a := s.conns[c].list[i].pBt;
      var d := s.owner[a];
      assert WaitsFor(s, c, a, d);
      var rest := set b | b in later && a < b;
      assert a !in rest && rest < later;
      SmallerSet(rest, later);
      forall j: nat | BlockedOn(s, d, j) ensures s.conns[d].list[j].pBt in rest {
        HoldsSmaller(s, d, j, a);
      }
      var cs', via' := ProgressFrom(s, d, rest);
      cs, via := [c] + cs', [a] + via';
      forall k | 0 <= k < |via| ensures WaitStep(s, cs, via, k) {
        if k > 0 { assert WaitStep(s, cs', via', k - 1); }
      }
    } else {
      cs, via := [c], [];
    }
  }

  lemma {:induction false} SmallerSet(a: set<nat>, b: set<nat>)
    requires a < b
    ensures |a| < |b|
  {
    assert |b - a| > 0 && a + (b - a) == b && a !! (b - a) by { var x :| x in b && x !in a; assert x in b - a; }
    assert |a + (b - a)| == |a| + |b - a|;
  }

  // ------------------------------------------------------------------ what Enter and Leave promise

  /** Two connections never have the same b-tree locked. */
  lemma {:induction false} Exclusive(s: State, c: nat, i: nat, d: nat, j: nat)
    requires Inv(s) && c in s.conns && d in s.conns && i < |s.conns[c].list| && j < |s.conns[d].list|
    requires s.conns[c].list[i].locked && s.conns[d].list[j].locked && s.conns[c].list[i].pBt == s.conns[d].list[j].pBt
    ensures c == d && i == j
  {
    ConnParts(s, c);
    ConnParts(s, d);
  }

  /** Once back outside, a connection has every b-tree it wants locked, and no other. */
  lemma {:induction false} AllWantedLocked(s: State, c: nat, i: nat)
    requires Inv(s) && c in s.conns && s.conns[c].pc.Outside? && i < |s.conns[c].list|
    ensures s.conns[c].list[i].locked <==> s.conns[c].list[i].wantToLock > 0
    ensures s.conns[c].list[i].locked <==> s.conns[c].list[i].pBt in s.owner && s.owner[s.conns[c].list[i].pBt] == c
  {
    ConnParts(s, c);
  }

  /** Only Enter and Leave change the count of references of a handle, by one and of their own handle. */
  lemma {:induction false} Balanced(s: State, c: nat, a: Action, d: nat, i: nat)
    requires Inv(s) && Enabled(s, c, a) && !a.Open? && !a.Close? && d in s.conns && i < |s.conns[d].list|
    ensures var s' := Next(s, c, a);
      && d in s'.conns && |s'.conns[d].list| == |s.conns[d].list| && s'.conns[d].list[i].pBt == s.conns[d].list[i].pBt
      && s'.conns[d].list[i].wantToLock == s.conns[d].list[i].wantToLock +
        (if c == d && a == Enter(i) then 1 else if c == d && a == Leave(i) then -1 else 0)
  {
  }

  /** How many actions a connection inside Enter still has to do, at most. */
  function Distance(n: Connection): nat
  {
    var m := |n.list|;
    match n.pc
    case Outside => 0
    case Trying(_) => 3 * m + 5
    case Releasing(_, k) => if k <= m then 2 * m + 4 + (m - k) else 2 * m + 3
    case Waiting(_) => 2 * m + 2
    case Relocking(_, k) => if k <= m then 1 + (m - k) else 1
  }

  /** Enter ends: each action inside it brings its end nearer, and one is always enabled unless the
      connection is blocked. */
  lemma {:induction false} EnterEnds(s: State, c: nat)
    requires Inv(s) && c in s.conns && !s.conns[c].pc.Outside?
    ensures forall a :: Enabled(s, c, a) ==> Distance(Next(s, c, a).conns[c]) < Distance(s.conns[c])
    ensures (exists a :: Enabled(s, c, a)) <==> (forall i: nat :: !BlockedOn(s, c, i))
  {
    hide Holds, Ascending;
    ConnParts(s, c);
    var n := s.conns[c];
    match n.pc
    case Trying(i) => assert Enabled(s, c, TryFail);
    case Releasing(i, k) => assert Enabled(s, c, Release);
    case Waiting(i) =>
      assert Enabled(s, c, Lock) <==> Free(s, n.list[i].pBt);
      assert BlockedOn(s, c, i) <==> !Free(s, n.list[i].pBt);
    case Relocking(i, k) =>
      assert Enabled(s, c, Relock) <==> !BlockedOn(s, c, k);
  }

  // ------------------------------------------------------------------ handles

  /** An action of `c` that is about its own list of handles only. */
  ghost predicate OnlyList(s: State, s': State, c: nat)
  {
    && s'.owner == s.owner && s'.conns.Keys == s.conns.Keys && c in s.conns && s'.conns[c].pc == s.conns[c].pc
    && forall d :: d in s.conns && d != c ==> s'.conns[d] == s.conns[d]
  }

  /** A handle that is opened joins the list, unwanted and not locked; the others stay. */
  lemma {:induction false} OpenAdds(s: State, c: nat, pBt: nat)
    requires Inv(s) && Enabled(s, c, Open(pBt))
    ensures var s', list := Next(s, c, Open(pBt)), s.conns[c].list;
      && OnlyList(s, s', c) && |s'.conns[c].list| == |list| + 1 && Ascending(s'.conns[c].list)
      && forall b :: b in s'.conns[c].list <==> b in list || b == Btree(pBt, 0, false)
  {
    OpenInv(s, c, pBt);
    ConnParts(Next(s, c, Open(pBt)), c);
    var list := s.conns[c].list;
    var k := Place(list, pBt);
    var list' := Inserted(list, k, Btree(pBt, 0, false));
    InsertedAt(list, k, Btree(pBt, 0, false));
    assert list == list[..k] + list[k..];
  }

  /** A handle that is closed leaves the list; the others stay. */
  lemma {:induction false} CloseRemoves(s: State, c: nat, i: nat)
    requires Inv(s) && Enabled(s, c, Close(i))
    ensures var s', list := Next(s, c, Close(i)), s.conns[c].list;
      && OnlyList(s, s', c) && |s'.conns[c].list| == |list| - 1
      && forall b :: b in s'.conns[c].list <==> b in list && b != list[i]
  {
    ConnParts(s, c);
    var list := s.conns[c].list;
    var list' := Removed(list, i);
    RemovedAt(list, i);
    assert list == list[..i] + [list[i]] + list[i + 1..];
    forall b | b in list' ensures b != list[i] {
      var j :| 0 <= j < |list'| && list'[j] == b;
      assert list[if j < i then j else j + 1] == b;
    }
  }

  /** Outside, a connection may enter any of its handles, leave exactly those it has locked, and close
      exactly the others; inside Enter it can do none of these. */
  lemma {:induction false} OutsideChoices(s: State, c: nat, i: nat)
    requires Inv(s) && c in s.conns && i < |s.conns[c].list|
    ensures Enabled(s, c, Enter(i)) <==> s.conns[c].pc.Outside?
    ensures Enabled(s, c, Leave(i)) <==> s.conns[c].pc.Outside? && s.conns[c].list[i].locked
    ensures Enabled(s, c, Close(i)) <==> s.conns[c].pc.Outside? && !s.conns[c].list[i].locked
  {
    ConnParts(s, c);
  }

  /** Leaving a handle for the last time frees its mutex; before that the mutex is kept. */
  lemma {:induction false} LastLeave(s: State, c: nat, i: nat)
    requires Inv(s) && Enabled(s, c, Leave(i))
    ensures var s', b := Next(s, c, Leave(i)), s.conns[c].list[i];
      && s'.conns[c].pc.Outside? && i < |s'.conns[c].list|
      && s'.conns[c].list[i].wantToLock == b.wantToLock - 1
      && (Free(s', b.pBt) <==> b.wantToLock == 1)
  {
    ConnParts(s, c);
  }
}
