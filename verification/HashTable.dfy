/** The hash table of hash.c: one doubly linked list on which every bucket is a contiguous run (hash.h:30-54). */
module HashTable {
  import opened HashBuckets

  class HashElem {
    var next: HashElem?
    var prev: HashElem?
    var data: int
    var pKey: Key

    constructor (pKey: Key, data: int)
      ensures this.pKey == pKey && this.data == data
    {
      this.pKey, this.data := pKey, data;
      next, prev := null, null;
    }
  }

  function Nth(elems: seq<HashElem>, i: int): HashElem?
  {
    if 0 <= i < |elems| then elems[i] else null
  }

  /** Element `i` is linked to its neighbours. */
  ghost predicate LinkedAt(elems: seq<HashElem>, i: nat)
    requires i < |elems|
    reads elems[i]
  {
    elems[i].next == Nth(elems, i + 1) && elems[i].prev == Nth(elems, i - 1)
  }

  ghost predicate Distinct(elems: seq<HashElem>)
  {
    forall i, j :: 0 <= i < j < |elems| ==> elems[i] != elems[j]
  }

  /** `first` heads the doubly linked list `elems`. */
  ghost predicate Linked(first: HashElem?, elems: seq<HashElem>)
    reads set e | e in elems
  {
    first == Nth(elems, 0) && Distinct(elems) && forall i :: 0 <= i < |elems| ==> LinkedAt(elems, i)
  }

  function BucketsOf(keys: seq<Key>, n: nat): (b: seq<nat>)
    requires n > 0
    ensures |b| == |keys| && forall i :: 0 <= i < |b| ==> b[i] == StrHash(keys[i]) % n
  {
    seq(|keys|, (i: int) requires 0 <= i < |keys| => StrHash(keys[i]) % n)
  }

  /** The map from keys, up to case, to data. */
  ghost predicate Represents(m: map<Key, int>, keys: seq<Key>, vals: seq<int>)
    requires |keys| == |vals|
  {
    && (forall i :: 0 <= i < |keys| ==> Entry(m, keys, vals, i))
    && (forall i, j :: 0 <= i < j < |keys| ==> Fold(keys[i]) != Fold(keys[j]))
    && (forall f :: f in m ==> HasKey(keys, f))
  }

  ghost predicate Entry(m: map<Key, int>, keys: seq<Key>, vals: seq<int>, i: nat)
    requires i < |keys| == |vals|
  {
    Fold(keys[i]) in m && m[Fold(keys[i])] == vals[i] && vals[i] != 0
  }

  ghost predicate HasKey(keys: seq<Key>, f: Key)
  {
    exists i :: 0 <= i < |keys| && Fold(keys[i]) == f
  }

  /** The list of elements and what they hold. */
  ghost predicate ListIs(first: HashElem?, elems: seq<HashElem>, keys: seq<Key>, vals: seq<int>)
    reads set e | e in elems
  {
    Linked(first, elems) && |keys| == |vals| == |elems| && forall i :: 0 <= i < |elems| ==> Holds(elems, keys, vals, i)
  }

  ghost predicate Holds(elems: seq<HashElem>, keys: seq<Key>, vals: seq<int>, i: nat)
    requires i < |elems|
    reads elems[i]
  {
    i < |keys| && i < |vals| && elems[i].pKey == keys[i] && elems[i].data == vals[i]
  }

  /** The bucket array describes the list: the chain pointer of a bucket with elements is right; that of an
      empty bucket may be stale. */
  ghost predicate BucketsAre(htsize: nat, counts: seq<nat>, chains: seq<HashElem?>, pos: seq<nat>, elems: seq<HashElem>, keys: seq<Key>)
  {
    && |counts| == |chains| == |pos| == htsize
    && (htsize > 0 ==> Bucketed(BucketsOf(keys, htsize), counts, pos))
    && forall k :: 0 <= k < htsize && counts[k] > 0 ==> chains[k] == Nth(elems, pos[k])
  }

  /** The number of buckets asked for. */
  function Asked(newSize: nat): nat
  {
    if newSize > SOFT_LIMIT then SOFT_LIMIT else newSize
  }

  /** The number of buckets when there are `count` elements, of which one is new: with ten or more elements,
      and more than two for each bucket, twice as many buckets as elements are asked for. */
  function SizeWith(count: nat, htsize: nat, spare: int): nat
  {
    if count >= 10 && count > 2 * htsize && Asked(2 * count) != htsize && spare >= 0 then Asked(2 * count) + spare else htsize
  }

  class Hash {
    var htsize: nat
    var count: nat
    var first: HashElem?
    /** The buckets: number of elements and first element of each. */
    var counts: seq<nat>
    var chains: seq<HashElem?>
    ghost var elems: seq<HashElem>
    ghost var keys: seq<Key>
    ghost var vals: seq<int>
    ghost var pos: seq<nat>
    ghost var model: map<Key, int>

    ghost function Nodes(): set<object>
      reads this
    {
      set e | e in elems
    }

    ghost predicate ListOk()
      reads this, Nodes()
    {
      ListIs(first, elems, keys, vals)
    }

    ghost predicate BucketsOk()
      reads this
    {
      BucketsAre(htsize, counts, chains, pos, elems, keys)
    }

    ghost predicate Valid()
      reads this, Nodes()
    {
      ListOk() && BucketsOk() && count == |elems| && Represents(model, keys, vals)
    }

    constructor ()
      ensures Valid() && model == map[]
    {
      htsize, count, first, counts, chains := 0, 0, null, [], [];
      elems, keys, vals, pos, model := [], [], [], [], map[];
    }

    // ---------------------------------------------------------------- linking

    /** insertElement into bucket `k`, or into the list only if there are no buckets; `p` is where the
        element goes. */
    method InsertElement(k: nat, pNew: HashElem) returns (ghost p: nat)
      requires ListOk() && BucketsOk() && pNew !in elems
      requires htsize > 0 ==> k == StrHash(pNew.pKey) % htsize
      modifies this, Nodes(), pNew
      ensures ListOk() && BucketsOk() && htsize == old(htsize) && count == old(count) && model == old(model)
      ensures p <= old(|elems|) && elems == InsertedAt(old(elems), p, pNew)
      ensures keys == InsertedAt(old(keys), p, old(pNew.pKey)) && vals == InsertedAt(old(vals), p, old(pNew.data))
    {
      hide ListIs, BucketsAre, StrHash, InsertedAt, ShiftUp, Place;
      p := 0;
      var pHead: HashElem? := null;
      ListFacts(first, elems, keys, vals);
      BucketFacts(htsize, counts, chains, pos, elems, keys, k);
      if htsize > 0 {
        p := Place(counts, pos, k);
        if counts[k] > 0 { pHead := chains[k]; }
      }
      BucketsInserted(htsize, counts, chains, pos, elems, keys, k, pNew, pNew.pKey);
      LinkBefore(pHead, pNew, p);
      if htsize > 0 {
        counts := counts[k := counts[k] + 1];
        chains := chains[k := pNew];
        pos := ShiftUp(pos, k, p);
      }
    }

    /** Link `pNew` before `pHead`, which is element `p`, or at the front of the list. */
    method LinkBefore(pHead: HashElem?, pNew: HashElem, ghost p: nat)
      requires ListOk() && pNew !in elems && p <= |elems|
      requires if pHead == null then p == 0 else pHead == Nth(elems, p)
      modifies `first, `elems, `keys, `vals, Nodes(), pNew
      ensures ListOk() && pNew.pKey == old(pNew.pKey)
      ensures elems == InsertedAt(old(elems), p, pNew)
      ensures keys == InsertedAt(old(keys), p, old(pNew.pKey)) && vals == InsertedAt(old(vals), p, old(pNew.data))
    {
      Wire(pHead, pNew, p);
      Relinked(first, elems, keys, vals, p, pNew);
      elems := InsertedAt(elems, p, pNew);
      keys := InsertedAt(keys, p, pNew.pKey);
      vals := InsertedAt(vals, p, pNew.data);
    }

    /** The pointer assignments of insertElement. */
    method Wire(pHead: HashElem?, pNew: HashElem, ghost p: nat)
      requires ListOk() && pNew !in elems && p <= |elems|
      requires if pHead == null then p == 0 else pHead == Nth(elems, p)
      modifies `first, Nodes(), pNew
      ensures first == (if p == 0 then pNew else old(first)) && Opened(elems, keys, vals, p, pNew)
      ensures pNew.next == Nth(elems, p) && pNew.prev == Nth(elems, p - 1) && pNew.pKey == old(pNew.pKey) && pNew.data == old(pNew.data)
    {
      ghost var e := elems;
      if pHead != null {
        assert LinkedAt(elems, p);
        pNew.next := pHead;
        pNew.prev := pHead.prev;
        if pHead.prev != null { pHead.prev.next := pNew; } else { first := pNew; }
        pHead.prev := pNew;
      } else {
        pNew.next := first;
        if first != null { first.prev := pNew; }
        pNew.prev := null;
        first := pNew;
      }
      forall i | 0 <= i < |e| ensures OpenedAt(e, keys, vals, p, pNew, i) {
        assert old(LinkedAt(e, i) && Holds(e, keys, vals, i));
      }
    }

    // ---------------------------------------------------------------- rehash

    /** rehash: rebuild the list bucket by bucket.  `spare` is how many buckets more than
        asked for the allocator gives, negative if it fails. */
    method Rehash(newSize: nat, spare: int) returns (resized: bool)
      requires ListOk() && BucketsOk() && Represents(model, keys, vals) && newSize > 0
      modifies this, Nodes()
      ensures ListOk() && BucketsOk() && Represents(model, keys, vals) && model == old(model) && count == old(count)
      ensures |elems| == old(|elems|) && forall e :: e in elems <==> e in old(elems)
      ensures resized == (Asked(newSize) != old(htsize) && spare >= 0) && htsize == if resized then Asked(newSize) + spare else old(htsize)
    {
      var new_size := if newSize > SOFT_LIMIT then SOFT_LIMIT else newSize;
      if new_size == htsize || spare < 0 { return false; }
      Reinsert(new_size + spare);
      resized := true;
    }

    /** The loop of rehash. */
    method Reinsert(new_size: nat)
      requires ListOk() && Represents(model, keys, vals) && new_size > 0
      modifies this, Nodes()
      ensures ListOk() && BucketsOk() && Represents(model, keys, vals) && model == old(model) && count == old(count) && htsize == new_size
      ensures |elems| == old(|elems|) && forall e :: e in elems <==> e in old(elems)
    {
      hide ListIs, BucketsAre, Represents, StrHash, Distinct;
      ghost var e0, k0, v0, m0 := elems, keys, vals, model;
      ListFacts(first, elems, keys, vals);
      EmptyBuckets(new_size);
      htsize := new_size;
      counts := seq(new_size, i => 0);
      chains := seq(new_size, i => null);
      pos := seq(new_size, i => 0);
      var elem := first;
      first := null;
      elems, keys, vals := [], [], [];
      ghost var j := 0;
      NothingYet();
      while elem != null
        invariant j <= |e0| && elem == Nth(e0, j) && Distinct(e0) && Represents(m0, k0, v0)
        invariant count == old(count) && model == m0 && htsize == new_size
        invariant Midway(e0, k0, v0, j)
        decreases |e0| - j
      {
        elem := ReinsertOne(elem, e0, k0, v0, m0, j);
        j := j + 1;
      }
      MidwayEnds(e0, k0, v0, m0, j);
    }

    /** The first `j` elements have been put into the new buckets; the others are still as they were. */
    ghost predicate Midway(e0: seq<HashElem>, k0: seq<Key>, v0: seq<int>, j: nat)
      reads this, Nodes(), set e | e in e0
    {
      && j <= |e0| == |k0| == |v0| && |elems| == |keys| == |vals| == j
      && ListOk() && BucketsOk()
      && Represents(MapTo(k0[..j], v0[..j]), keys, vals)
      && (forall e :: e in elems ==> e in e0[..j]) && (forall e :: e in e0[..j] ==> e in elems)
      && (forall i :: j <= i < |e0| ==> e0[i].next == Nth(e0, i + 1) && e0[i].pKey == k0[i] && e0[i].data == v0[i])
    }

    method ReinsertOne(elem: HashElem, ghost e0: seq<HashElem>, ghost k0: seq<Key>, ghost v0: seq<int>,
            ghost m0: map<Key, int>, ghost j: nat)
      returns (next_elem: HashElem?)
      requires htsize > 0 && j < |e0| && elem == e0[j] && Distinct(e0) && Midway(e0, k0, v0, j) && Represents(m0, k0, v0)
      modifies this, set e | e in e0
      ensures Midway(e0, k0, v0, j + 1) && next_elem == Nth(e0, j + 1)
      ensures count == old(count) && model == old(model) && htsize == old(htsize)
    {
      hide ListIs, BucketsAre, Represents, StrHash, Distinct;
      var h := StrHash(elem.pKey) % htsize;
      next_elem := elem.next;
      NotBefore(e0, j);
      ghost var ks, vs := keys, vals;
      ghost var p := InsertElement(h, elem);
      AddEntry(m0, k0, v0, j, ks, vs, p);
      InsertedMembers(old(elems), p, elem);
    }

    lemma {:induction false} MidwayEnds(e0: seq<HashElem>, k0: seq<Key>, v0: seq<int>, m0: map<Key, int>, j: nat)
      requires Midway(e0, k0, v0, j) && j == |e0| && Represents(m0, k0, v0)
      ensures ListOk() && BucketsOk() && Represents(m0, keys, vals) && |elems| == |e0| && forall e :: e in elems <==> e in e0
    {
      hide ListIs, BucketsAre, Represents;
      assert k0[..j] == k0 && v0[..j] == v0 && e0[..j] == e0;
      MapToIs(m0, k0, v0);
    }

    // ---------------------------------------------------------------- finding

    /** findElementWithHash: the element with the key, up to case, if there is one, and the bucket. */
    method FindElement(pKey: Key) returns (elem: HashElem?, h: nat, ghost at: nat)
      requires Valid()
      ensures elem == null <==> Fold(pKey) !in model
      ensures elem != null ==> at < |elems| && elem == elems[at] && Fold(keys[at]) == Fold(pKey)
      ensures h == if htsize > 0 then StrHash(pKey) % htsize else 0
    {
      hide ListIs, BucketsAre, Represents, StrHash, Fold;
      ListFacts(first, elems, keys, vals);
      var n := count;
      h, elem, at := 0, first, 0;
      if htsize > 0 {
        h := StrHash(pKey) % htsize;
        SegmentFacts(htsize, counts, chains, pos, elems, keys, pKey);
        elem, n, at := chains[h], counts[h], pos[h];
      }
      if n == 0 {
        NotThere(model, keys, vals, pKey, 0, 0);
        elem := null;
      } else {
        elem, at := Walk(elem, n, pKey, at);
      }
    }

    /** The loop of findElementWithHash over the `n` elements from `start` on, where the key must be if it is
        anywhere. */
    method Walk(elem0: HashElem?, n0: nat, pKey: Key, ghost start: nat) returns (elem: HashElem?, ghost at: nat)
      requires ListOk() && Represents(model, keys, vals) && start + n0 <= |elems| && n0 > 0 && elem0 == Nth(elems, start)
      requires forall i :: 0 <= i < |keys| && Fold(keys[i]) == Fold(pKey) ==> start <= i < start + n0
      ensures elem == null <==> Fold(pKey) !in model
      ensures elem != null ==> at < |elems| && elem == elems[at] && Fold(keys[at]) == Fold(pKey)
    {
      hide ListIs, Represents, Fold;
      ListFacts(first, elems, keys, vals);
      elem, at := elem0, start;
      var n := n0;
      while n > 0
        invariant n <= n0 && at == start + (n0 - n) && (n > 0 ==> elem == Nth(elems, at))
        invariant forall i :: start <= i < at ==> Fold(keys[i]) != Fold(pKey)
      {
        n := n - 1;
        var same := StrICmp(elem.pKey, pKey);
        if same {
          KeyThere(model, keys, vals, at);
          return;
        }
        elem := elem.next;
        at := at + 1;
      }
      NotThere(model, keys, vals, pKey, start, n0);
      elem := null;
    }

    /** sqlite3HashFind. */
    method HashFind(pKey: Key) returns (data: int)
      requires Valid()
      ensures data == if Fold(pKey) in model then model[Fold(pKey)] else 0
    {
      var elem, h;
      ghost var at;
      elem, h, at := FindElement(pKey);
      if elem == null { return 0; }
      assert Holds(elems, keys, vals, at) && Entry(model, keys, vals, at);
      data := elem.data;
    }

    // ---------------------------------------------------------------- removing

    /** sqlite3HashClear. */
    method HashClear()
      requires ListOk()
      modifies this
      ensures Valid() && model == map[] && htsize == 0 && elems == []
    {
      first := null;
      counts, chains, htsize := [], [], 0;
      count := 0;
      elems, keys, vals, pos, model := [], [], [], [], map[];
    }

    /** removeElementGivenHash: element `at`, which lies in bucket `h`. */
    method RemoveElement(elem: HashElem, h: nat, ghost at: nat)
      requires Valid() && at < |elems| && elem == elems[at] && (htsize > 0 ==> h == StrHash(keys[at]) % htsize)
      modifies this, Nodes()
      ensures Valid() && model == old(model) - {Fold(old(keys)[at])}
      ensures forall e :: e in elems ==> e in old(elems)
      ensures htsize == if elems == [] then 0 else old(htsize)
    {
      hide ListIs, BucketsAre, Represents, StrHash, Fold;
      Detach(elem, h, at);
      RemovedMembers(old(elems), at);
      ListFacts(first, elems, keys, vals);
      if count == 0 {
        EmptyModel(model, keys, vals);
        HashClear();
      }
    }

    /** The element leaves the list and its bucket. */
    method Detach(elem: HashElem, h: nat, ghost at: nat)
      requires Valid() && at < |elems| && elem == elems[at] && (htsize > 0 ==> h == StrHash(keys[at]) % htsize)
      modifies this, Nodes()
      ensures Valid() && model == old(model) - {Fold(old(keys)[at])}
      ensures elems == RemovedAt(old(elems), at) && htsize == old(htsize) && count == |elems|
    {
      hide ListIs, BucketsAre, Represents, StrHash, Fold, RemovedAt, ShiftDown;
      ListSizes(first, elems, keys, vals);
      RemovedSize(elems, at);
      RemoveKey(model, keys, vals, at);
      ghost var m := model - {Fold(keys[at])};
      TakeOff(elem, h, at);
      count := count - 1;
      model := m;
    }

    /** Unlink the element and correct the bucket. */
    method TakeOff(elem: HashElem, h: nat, ghost at: nat)
      requires ListOk() && BucketsOk() && at < |elems| == |keys| && elem == elems[at] && (htsize > 0 ==> h == StrHash(keys[at]) % htsize)
      modifies `first, `elems, `keys, `vals, `counts, `chains, `pos, Nodes()
      ensures ListOk() && BucketsOk()
      ensures elems == RemovedAt(old(elems), at) && keys == RemovedAt(old(keys), at) && vals == RemovedAt(old(vals), at)
    {
      hide ListIs, BucketsAre, StrHash, RemovedAt, ShiftDown, Distinct, Nth;
      ElemFacts(first, elems, keys, vals, at);
      BucketsRemoved(htsize, counts, chains, pos, elems, keys, h, at);
      var next := elem.next;
      Unlink(elem, at);
      if htsize > 0 {
        chains := if chains[h] == elem then chains[h := next] else chains;
        pos := ShiftDown(pos, at);
        counts := counts[h := counts[h] - 1];
      }
    }

    /** The pointer assignments of removeElementGivenHash. */
    method Unlink(elem: HashElem, ghost at: nat)
      requires ListOk() && at < |elems| && elem == elems[at]
      modifies `first, `elems, `keys, `vals, Nodes()
      ensures ListOk() && elems == RemovedAt(old(elems), at) && keys == RemovedAt(old(keys), at) && vals == RemovedAt(old(vals), at)
    {
      ghost var e, ks, vs := elems, keys, vals;
      assert LinkedAt(e, at);
      if elem.prev != null {
        assert elem.prev == e[at - 1];
        elem.prev.next := elem.next;
      } else {
        first := elem.next;
      }
      if elem.next != null {
        assert elem.next == e[at + 1];
        elem.next.prev := elem.prev;
      }
      elems, keys, vals := RemovedAt(e, at), RemovedAt(ks, at), RemovedAt(vs, at);
      forall i | 0 <= i < |elems| ensures LinkedAt(elems, i) && Holds(elems, keys, vals, i) {
        var o := if i < at then i else i + 1;
        assert old(LinkedAt(e, o) && Holds(e, ks, vs, o));
      }
    }

    // ---------------------------------------------------------------- inserting

    /** sqlite3HashInsert: bind the key to `data`, or remove it if `data` is zero; the previous data is
        returned.  `spare` is for a rehash. */
    method HashInsert(pKey: Key, data: int, spare: int) returns (old_data: int)
      requires Valid()
      modifies this, Nodes()
      ensures Valid() && fresh(Nodes() - old(Nodes()))
      ensures old_data == if Fold(pKey) in old(model) then old(model)[Fold(pKey)] else 0
      ensures model == if data == 0 then old(model) - {Fold(pKey)} else old(model)[Fold(pKey) := data]
      ensures data != 0 ==> pKey in keys
      ensures htsize == if data != 0 && Fold(pKey) !in old(model) then SizeWith(count, old(htsize), spare)
                        else if count < old(count) && count == 0 then 0 else old(htsize)
    {
      hide ListIs, BucketsAre, Represents, StrHash, Fold;
      var elem, h;
      ghost var at;
      elem, h, at := FindElement(pKey);
      if elem != null {
        ListFacts(first, elems, keys, vals);
        KeyThere(model, keys, vals, at);
        old_data := elem.data;
        if data == 0 {
          SameBucket(keys[at], pKey);
          RemoveElement(elem, h, at);
        } else {
          Overwrite(elem, pKey, data, at);
          assert keys[at] == pKey;
        }
        return;
      }
      old_data := 0;
      if data == 0 { return; }
      AddNew(pKey, data, h, spare);
    }

    /** The element takes the new data and the new spelling of the key. */
    method Overwrite(elem: HashElem, pKey: Key, data: int, ghost at: nat)
      requires Valid() && at < |elems| && elem == elems[at] && Fold(keys[at]) == Fold(pKey) && data != 0
      modifies this, elem
      ensures Valid() && model == old(model)[Fold(pKey) := data] && elems == old(elems) && keys == old(keys)[at := pKey] && htsize == old(htsize)
    {
      hide Fold, StrHash;
      ghost var ks, vs := keys, vals;
      elem.data := data;
      elem.pKey := pKey;
      keys, vals := keys[at := pKey], vals[at := data];
      model := model[Fold(pKey) := data];
      forall i | 0 <= i < |elems| ensures LinkedAt(elems, i) && Holds(elems, keys, vals, i) {
        assert old(LinkedAt(elems, i) && Holds(elems, ks, vs, i));
      }
      ReplaceKey(old(model), ks, vs, at, pKey, data);
      SameBuckets(ks, at, pKey, htsize);
    }

    /** A new element, after enlarging the bucket array if that is due. */
    method AddNew(pKey: Key, data: int, h0: nat, spare: int)
      requires Valid() && Fold(pKey) !in model && data != 0 && h0 == (if htsize > 0 then StrHash(pKey) % htsize else 0)
      modifies this, Nodes()
      ensures Valid() && fresh(Nodes() - old(Nodes())) && model == old(model)[Fold(pKey) := data]
      ensures pKey in keys && count == old(count) + 1 && htsize == SizeWith(count, old(htsize), spare)
    {
      hide ListIs, BucketsAre, Represents, StrHash, Fold, InsertedAt;
      var new_elem := new HashElem(pKey, data);
      var h := Grow(pKey, h0, spare);
      ghost var ks, vs, m, e := keys, vals, model, elems;
      ListFacts(first, elems, keys, vals);
      ghost var p := InsertElement(h, new_elem);
      KeyInserted(ks, p, pKey);
      AddKey(m, ks, vs, p, pKey, data);
      InsertedMembers(e, p, new_elem);
      model := model[Fold(pKey) := data];
    }

    /** Count the element to come, and enlarge the bucket array if that is due. */
    method Grow(pKey: Key, h0: nat, spare: int) returns (h: nat)
      requires Valid() && h0 == (if htsize > 0 then StrHash(pKey) % htsize else 0)
      modifies this, Nodes()
      ensures ListOk() && BucketsOk() && Represents(model, keys, vals) && model == old(model)
      ensures count == old(count) + 1 && |elems| == old(|elems|) == old(count)
      ensures forall e :: e in elems <==> e in old(elems)
      ensures htsize > 0 ==> h == StrHash(pKey) % htsize
      ensures htsize == SizeWith(count, old(htsize), spare)
    {
      hide ListIs, BucketsAre, Represents, StrHash;
      h := h0;
      count := count + 1;
      if count >= 10 && count > 2 * htsize {
        var resized := Rehash(count * 2, spare);
        if resized { h := StrHash(pKey) % htsize; }
      }
    }
  }

  lemma {:induction false} KeyInserted(keys: seq<Key>, p: nat, key: Key)
    requires p <= |keys|
    ensures key in InsertedAt(keys, p, key)
  {
    assert InsertedAt(keys, p, key)[p] == key;
  }

  /** Keys equal up to case fall into the same bucket. */
  lemma {:induction false} SameBucket(a: Key, b: Key)
    requires Fold(a) == Fold(b)
    ensures StrHash(a) == StrHash(b)
  {
    SameHash(0, a, b);
  }

  lemma {:induction false} SameBuckets(keys: seq<Key>, at: nat, key: Key, n: nat)
    requires at < |keys| && Fold(keys[at]) == Fold(key)
    ensures n > 0 ==> BucketsOf(keys[at := key], n) == BucketsOf(keys, n)
  {
    SameBucket(keys[at], key);
  }

  lemma {:induction false} ReplaceKey(m: map<Key, int>, keys: seq<Key>, vals: seq<int>, at: nat, key: Key, data: int)
    requires |keys| == |vals| && Represents(m, keys, vals) && at < |keys| && Fold(keys[at]) == Fold(key) && data != 0
    ensures Represents(m[Fold(key) := data], keys[at := key], vals[at := data])
  {
    hide Fold;
    var m', ks, vs := m[Fold(key) := data], keys[at := key], vals[at := data];
    forall i | 0 <= i < |keys| && i != at ensures Fold(keys[i]) != Fold(key) {}
    forall i | 0 <= i < |ks| ensures Entry(m', ks, vs, i) { assert Entry(m, keys, vals, i); }
    forall f | f in m' ensures HasKey(ks, f) {
      if f == Fold(key) {
        assert Fold(ks[at]) == f;
      } else {
        assert HasKey(keys, f);
        var i :| 0 <= i < |keys| && Fold(keys[i]) == f;
        assert Fold(ks[i]) == f;
      }
    }
  }

  lemma {:induction false} RemoveKey(m: map<Key, int>, keys: seq<Key>, vals: seq<int>, at: nat)
    requires |keys| == |vals| && Represents(m, keys, vals) && at < |keys|
    ensures Represents(m - {Fold(keys[at])}, RemovedAt(keys, at), RemovedAt(vals, at))
  {
    hide Fold;
    var m', ks, vs := m - {Fold(keys[at])}, RemovedAt(keys, at), RemovedAt(vals, at);
    forall i | 0 <= i < |keys| && i != at ensures Fold(keys[i]) != Fold(keys[at]) {}
    forall i | 0 <= i < |ks| ensures Entry(m', ks, vs, i) { assert Entry(m, keys, vals, if i < at then i else i + 1); }
    forall f | f in m' ensures HasKey(ks, f) {
      assert HasKey(keys, f);
      var i :| 0 <= i < |keys| && Fold(keys[i]) == f;
      assert Fold(ks[if i < at then i else i - 1]) == f;
    }
  }

  lemma {:induction false} EmptyModel(m: map<Key, int>, keys: seq<Key>, vals: seq<int>)
    requires |keys| == |vals| && Represents(m, keys, vals)
    ensures keys == [] ==> m == map[]
  {
    assert keys == [] ==> forall f :: f in m ==> HasKey(keys, f);
  }

  /** The bucket array after element `at` is removed: if it was the first of its bucket, the chain pointer
      moves on to the next element of the list, whichever bucket that is in. */
  lemma {:induction false} BucketsRemoved(htsize: nat, counts: seq<nat>, chains: seq<HashElem?>, pos: seq<nat>,
          elems: seq<HashElem>, keys: seq<Key>, h: nat, at: nat)
    requires BucketsAre(htsize, counts, chains, pos, elems, keys) && Distinct(elems) && at < |elems| == |keys|
    requires htsize > 0 ==> h == StrHash(keys[at]) % htsize
    ensures htsize == 0 ==> BucketsAre(0, counts, chains, pos, RemovedAt(elems, at), RemovedAt(keys, at))
    ensures htsize > 0 ==>
      && h < |counts| == |pos| == |chains| && counts[h] > 0
      && BucketsAre(htsize, counts[h := counts[h] - 1], if chains[h] == elems[at] then chains[h := Nth(elems, at + 1)] else chains,
                    ShiftDown(pos, at), RemovedAt(elems, at), RemovedAt(keys, at))
  {
    if htsize > 0 {
      var b := BucketsOf(keys, htsize);
      RemoveKeeps(b, counts, pos, at);
      RemoveBuckets(keys, htsize, at);
      assert InSegment(b, counts, pos, at);
      var c, s, e := counts[h := counts[h] - 1], ShiftDown(pos, at), RemovedAt(elems, at);
      var ch := if chains[h] == elems[at] then chains[h := Nth(elems, at + 1)] else chains;
      forall k | 0 <= k < htsize && c[k] > 0 ensures ch[k] == Nth(e, s[k]) {
        assert Segment(b, counts, pos, k);
        assert k != h ==> pos[k] != at;
        assert pos[h] != at ==> chains[h] != elems[at];
      }
    }
  }

  lemma {:induction false} RemovedMembers(s: seq<HashElem>, p: nat)
    requires p < |s|
    ensures forall e :: e in RemovedAt(s, p) ==> e in s
  {
  }

  lemma {:induction false} RemoveBuckets(keys: seq<Key>, n: nat, p: nat)
    requires n > 0 && p < |keys|
    ensures BucketsOf(RemovedAt(keys, p), n) == RemovedAt(BucketsOf(keys, n), p)
  {
  }

  /** sqlite3StrICmp(a, b) == 0. */
  method StrICmp(a: Key, b: Key) returns (same: bool)
    ensures same <==> Fold(a) == Fold(b)
  {
    if |a| != |b| {
      assert |Fold(a)| != |Fold(b)|;
      return false;
    }
    var i := 0;
    while i < |a|
      invariant i <= |a| && forall j :: 0 <= j < i ==> Lower(a[j]) == Lower(b[j])
    {
      if Lower(a[i]) != Lower(b[i]) {
        assert Fold(a)[i] != Fold(b)[i];
        return false;
      }
      i := i + 1;
    }
    same := true;
  }

  /** All elements with the key lie in the segment of the key's bucket. */
  lemma {:induction false} SegmentFacts(htsize: nat, counts: seq<nat>, chains: seq<HashElem?>, pos: seq<nat>,
          elems: seq<HashElem>, keys: seq<Key>, pKey: Key)
    requires htsize > 0 && BucketsAre(htsize, counts, chains, pos, elems, keys) && |keys| == |elems|
    ensures var h := StrHash(pKey) % htsize;
      && |counts| == |chains| == |pos| == htsize
      && (counts[h] > 0 ==> pos[h] + counts[h] <= |elems| && chains[h] == Nth(elems, pos[h]))
      && forall i :: 0 <= i < |keys| && Fold(keys[i]) == Fold(pKey) ==> pos[h] <= i < pos[h] + counts[h]
  {
    var h := StrHash(pKey) % htsize;
    var b := BucketsOf(keys, htsize);
    assert Segment(b, counts, pos, h);
    hide Fold;
    forall i | 0 <= i < |keys| && Fold(keys[i]) == Fold(pKey) ensures pos[h] <= i < pos[h] + counts[h] {
      SameHash(0, keys[i], pKey);
      assert b[i] == h && InSegment(b, counts, pos, i);
    }
  }

  /** A key not met in the stretch that would hold it is not in the map. */
  lemma {:induction false} NotThere(m: map<Key, int>, keys: seq<Key>, vals: seq<int>, pKey: Key, start: nat, total: nat)
    requires |keys| == |vals| && Represents(m, keys, vals)
    requires forall i :: 0 <= i < |keys| && Fold(keys[i]) == Fold(pKey) ==> start <= i < start + total
    requires start + total <= |keys| && forall i :: start <= i < start + total ==> Fold(keys[i]) != Fold(pKey)
    ensures Fold(pKey) !in m
  {
    hide Fold;
    assert Fold(pKey) in m ==> HasKey(keys, Fold(pKey));
  }

  lemma {:induction false} KeyThere(m: map<Key, int>, keys: seq<Key>, vals: seq<int>, i: nat)
    requires i < |keys| == |vals| && Represents(m, keys, vals)
    ensures Fold(keys[i]) in m && m[Fold(keys[i])] == vals[i] != 0
  {
    assert Entry(m, keys, vals, i);
  }

  /** SQLITE_MALLOC_SOFT_LIMIT (1024 bytes) in buckets of 16 bytes. */
  const SOFT_LIMIT: nat := 64

  /** The map that a list of keys and data represents. */
  ghost function MapTo(keys: seq<Key>, vals: seq<int>): map<Key, int>
    requires |keys| == |vals|
  {
    if keys == [] then map[] else
      var n := |keys| - 1;
      MapTo(keys[..n], vals[..n])[Fold(keys[n]) := vals[n]]
  }

  /** The list with its links at position `p` redirected to `x`. */
  ghost predicate Opened(elems: seq<HashElem>, keys: seq<Key>, vals: seq<int>, p: nat, x: HashElem)
    reads set e | e in elems
  {
    forall i :: 0 <= i < |elems| ==> OpenedAt(elems, keys, vals, p, x, i)
  }

  ghost predicate OpenedAt(elems: seq<HashElem>, keys: seq<Key>, vals: seq<int>, p: nat, x: HashElem, i: nat)
    requires i < |elems|
    reads elems[i]
  {
    && elems[i].next == (if i + 1 == p then x else Nth(elems, i + 1))
    && elems[i].prev == (if i == p then x else Nth(elems, i - 1))
    && Holds(elems, keys, vals, i)
  }

  lemma {:induction false} Relinked(first: HashElem?, elems: seq<HashElem>, keys: seq<Key>, vals: seq<int>, p: nat, x: HashElem)
    requires Opened(elems, keys, vals, p, x) && Distinct(elems) && x !in elems && p <= |elems| == |keys| == |vals|
    requires first == (if p == 0 then x else Nth(elems, 0)) && x.next == Nth(elems, p) && x.prev == Nth(elems, p - 1)
    ensures ListIs(first, InsertedAt(elems, p, x), InsertedAt(keys, p, x.pKey), InsertedAt(vals, p, x.data))
  {
    var e, ks, vs := InsertedAt(elems, p, x), InsertedAt(keys, p, x.pKey), InsertedAt(vals, p, x.data);
    DistinctInserted(elems, p, x);
    forall i | 0 <= i < |e| ensures LinkedAt(e, i) && Holds(e, ks, vs, i) {
      if i != p { assert OpenedAt(elems, keys, vals, p, x, if i < p then i else i - 1); }
    }
  }

  lemma {:induction false} ElemFacts(first: HashElem?, elems: seq<HashElem>, keys: seq<Key>, vals: seq<int>, at: nat)
    requires ListIs(first, elems, keys, vals) && at < |elems|
    ensures |keys| == |vals| == |elems| && Distinct(elems) && elems[at].next == Nth(elems, at + 1)
  {
    assert LinkedAt(elems, at);
  }

  lemma {:induction false} ListSizes(first: HashElem?, elems: seq<HashElem>, keys: seq<Key>, vals: seq<int>)
    requires ListIs(first, elems, keys, vals)
    ensures |keys| == |vals| == |elems|
  {
  }

  lemma {:induction false} RemovedSize<T>(s: seq<T>, at: nat)
    requires at < |s|
    ensures |RemovedAt(s, at)| == |s| - 1
  {
  }

  lemma {:induction false} ListFacts(first: HashElem?, elems: seq<HashElem>, keys: seq<Key>, vals: seq<int>)
    requires ListIs(first, elems, keys, vals)
    ensures |keys| == |vals| == |elems| && Distinct(elems) && first == Nth(elems, 0)
    ensures forall i :: 0 <= i < |elems| ==> elems[i].pKey == keys[i] && elems[i].data == vals[i] && elems[i].next == Nth(elems, i + 1)
  {
    forall i | 0 <= i < |elems| ensures elems[i].pKey == keys[i] && elems[i].data == vals[i] && elems[i].next == Nth(elems, i + 1) {
      assert LinkedAt(elems, i) && Holds(elems, keys, vals, i);
    }
  }

  lemma {:induction false} BucketFacts(htsize: nat, counts: seq<nat>, chains: seq<HashElem?>, pos: seq<nat>,
          elems: seq<HashElem>, keys: seq<Key>, k: nat)
    requires BucketsAre(htsize, counts, chains, pos, elems, keys) && (htsize > 0 ==> k < htsize) && |keys| == |elems|
    ensures |counts| == |chains| == |pos| == htsize
    ensures htsize > 0 ==>
      && Place(counts, pos, k) <= |elems|
      && (counts[k] == 0 ==> Place(counts, pos, k) == 0)
      && (counts[k] > 0 ==> Place(counts, pos, k) == pos[k] < |elems| && chains[k] == elems[pos[k]])
  {
    if htsize > 0 { InsertKeeps(BucketsOf(keys, htsize), counts, pos, k); }
  }

  /** The bucket array after an insertion. */
  lemma {:induction false} BucketsInserted(htsize: nat, counts: seq<nat>, chains: seq<HashElem?>, pos: seq<nat>,
          elems: seq<HashElem>, keys: seq<Key>, k: nat, x: HashElem, key: Key)
    requires BucketsAre(htsize, counts, chains, pos, elems, keys) && |keys| == |elems|
    requires htsize > 0 ==> k == StrHash(key) % htsize
    ensures htsize == 0 ==> BucketsAre(0, counts, chains, pos, InsertedAt(elems, 0, x), InsertedAt(keys, 0, key))
    ensures htsize > 0 ==>
      && k < |counts| == |pos| == |chains| && Place(counts, pos, k) <= |elems|
      && BucketsAre(htsize, counts[k := counts[k] + 1], chains[k := x], ShiftUp(pos, k, Place(counts, pos, k)),
                    InsertedAt(elems, Place(counts, pos, k), x), InsertedAt(keys, Place(counts, pos, k), key))
  {
    if htsize > 0 {
      var p := Place(counts, pos, k);
      hide StrHash, Bucketed;
      InsertKeeps(BucketsOf(keys, htsize), counts, pos, k);
      InsertBuckets(keys, htsize, p, key);
      ChainsInserted(elems, counts, chains, pos, k, p, x);
    }
  }

  /** The chain pointers of the buckets with elements are right after an insertion. */
  lemma {:induction false} ChainsInserted(elems: seq<HashElem>, counts: seq<nat>, chains: seq<HashElem?>,
          pos: seq<nat>, k: nat, p: nat, x: HashElem)
    requires k < |counts| == |chains| == |pos| && p <= |elems|
    requires forall j :: 0 <= j < |counts| && counts[j] > 0 ==> chains[j] == Nth(elems, pos[j])
    ensures var c, h, s, e := counts[k := counts[k] + 1], chains[k := x], ShiftUp(pos, k, p), InsertedAt(elems, p, x);
      forall j :: 0 <= j < |c| && c[j] > 0 ==> h[j] == Nth(e, s[j])
  {
  }

  lemma {:induction false} DistinctInserted(elems: seq<HashElem>, p: nat, x: HashElem)
    requires Distinct(elems) && p <= |elems| && x !in elems
    ensures Distinct(InsertedAt(elems, p, x))
  {
  }

  lemma {:induction false} InsertBuckets(keys: seq<Key>, n: nat, p: nat, key: Key)
    requires n > 0 && p <= |keys|
    ensures BucketsOf(InsertedAt(keys, p, key), n) == InsertedAt(BucketsOf(keys, n), p, StrHash(key) % n)
  {
  }

  lemma {:induction false} EmptyBuckets(n: nat)
    requires n > 0
    ensures BucketsAre(n, seq(n, i => 0), seq(n, i => null), seq(n, i => 0), [], [])
    ensures ListIs(null, [], [], [])
  {
    NoElements(seq(n, i => 0), seq(n, i => 0));
    assert BucketsOf([], n) == [];
  }

  lemma {:induction false} NothingYet()
    ensures Represents(map[], [], []) && MapTo([], []) == map[]
  {
  }

  /** The elements from position `j` on are not among the first `j`. */
  lemma {:induction false} NotBefore(elems: seq<HashElem>, j: nat)
    requires Distinct(elems) && j < |elems|
    ensures elems[j] !in elems[..j]
    ensures forall i :: j < i < |elems| ==> elems[i] !in elems[..j] && elems[i] != elems[j]
    ensures forall e :: e in elems[..j + 1] <==> e in elems[..j] || e == elems[j]
  {
    assert elems[..j + 1] == elems[..j] + [elems[j]];
  }

  lemma {:induction false} InsertedMembers(s: seq<HashElem>, p: nat, x: HashElem)
    requires p <= |s|
    ensures forall e :: e in InsertedAt(s, p, x) <==> e in s || e == x
  {
    var r := InsertedAt(s, p, x);
    forall e | e in s ensures e in r {
      var i :| 0 <= i < |s| && s[i] == e;
      assert r[if i < p then i else i + 1] == e;
    }
    assert r[p] == x;
  }

  /** A new key enters the map. */
  lemma {:induction false} AddKey(m: map<Key, int>, keys: seq<Key>, vals: seq<int>, p: nat, key: Key, data: int)
    requires |keys| == |vals| && Represents(m, keys, vals) && p <= |keys| && Fold(key) !in m && data != 0
    ensures Represents(m[Fold(key) := data], InsertedAt(keys, p, key), InsertedAt(vals, p, data))
  {
    hide Fold;
    var m', ks, vs := m[Fold(key) := data], InsertedAt(keys, p, key), InsertedAt(vals, p, data);
    forall i | 0 <= i < |keys| ensures Fold(keys[i]) != Fold(key) { assert Entry(m, keys, vals, i); }
    forall i | 0 <= i < |ks| ensures Entry(m', ks, vs, i) {
      if i != p { assert Entry(m, keys, vals, if i < p then i else i - 1); }
    }
    forall f | f in m' ensures HasKey(ks, f) {
      if f in m {
        assert HasKey(keys, f);
        var i :| 0 <= i < |keys| && Fold(keys[i]) == f;
        assert Fold(ks[if i < p then i else i + 1]) == f;
      } else {
        assert Fold(ks[p]) == f;
      }
    }
  }

  lemma {:induction false} AddEntry(m: map<Key, int>, keys: seq<Key>, vals: seq<int>, j: nat, ks: seq<Key>, vs: seq<int>, p: nat)
    requires |keys| == |vals| && Represents(m, keys, vals) && j < |keys| && |ks| == |vs| && p <= |ks|
    requires Represents(MapTo(keys[..j], vals[..j]), ks, vs)
    ensures Represents(MapTo(keys[..j + 1], vals[..j + 1]), InsertedAt(ks, p, keys[j]), InsertedAt(vs, p, vals[j]))
  {
    assert keys[..j + 1][..j] == keys[..j] && vals[..j + 1][..j] == vals[..j];
    MapToKeys(keys[..j], vals[..j]);
    assert Entry(m, keys, vals, j);
    hide Fold;
    assert Fold(keys[j]) !in MapTo(keys[..j], vals[..j]);
    AddKey(MapTo(keys[..j], vals[..j]), ks, vs, p, keys[j], vals[j]);
  }

  lemma {:induction false} MapToKeys(keys: seq<Key>, vals: seq<int>)
    requires |keys| == |vals|
    ensures forall f :: f in MapTo(keys, vals) <==> HasKey(keys, f)
  {
    hide Fold;
    if keys != [] {
      var n := |keys| - 1;
      MapToKeys(keys[..n], vals[..n]);
      forall f ensures HasKey(keys, f) <==> HasKey(keys[..n], f) || f == Fold(keys[n]) {
        if HasKey(keys[..n], f) {
          var i :| 0 <= i < n && Fold(keys[..n][i]) == f;
          assert Fold(keys[i]) == f;
        }
        if HasKey(keys, f) {
          var i :| 0 <= i < |keys| && Fold(keys[i]) == f;
          assert i < n ==> Fold(keys[..n][i]) == f;
        }
      }
    }
  }

  /** The map is determined by the list. */
  lemma {:induction false} MapToIs(m: map<Key, int>, keys: seq<Key>, vals: seq<int>)
    requires |keys| == |vals| && Represents(m, keys, vals)
    ensures MapTo(keys, vals) == m
  {
    hide Fold;
    MapToKeys(keys, vals);
    forall f | f in m ensures f in MapTo(keys, vals) && MapTo(keys, vals)[f] == m[f] {
      assert HasKey(keys, f);
      var i :| 0 <= i < |keys| && Fold(keys[i]) == f;
      assert Entry(m, keys, vals, i);
      MapToAt(keys, vals, i);
    }
    forall f | f in MapTo(keys, vals) ensures f in m {
      var i :| 0 <= i < |keys| && Fold(keys[i]) == f;
      assert Entry(m, keys, vals, i);
    }
  }

  lemma {:induction false} MapToAt(keys: seq<Key>, vals: seq<int>, i: nat)
    requires |keys| == |vals| && i < |keys| && forall j, k :: 0 <= j < k < |keys| ==> Fold(keys[j]) != Fold(keys[k])
    ensures Fold(keys[i]) in MapTo(keys, vals) && MapTo(keys, vals)[Fold(keys[i])] == vals[i]
  {
    hide Fold;
    var n := |keys| - 1;
    if i < n { MapToAt(keys[..n], vals[..n], i); }
  }
}
