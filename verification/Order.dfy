/** Key order and the map a scan stands for. */
module Order {
  import opened Tree

  /** An entry sorts just before a divider with the same key: the divider of a table page is at
      least every key to its left and less than every key to its right. */
  function Rank(c: Cell): int
  {
    match c
    case Entry(k, _) => 2 * k
    case Divider(k) => 2 * k + 1
  }

  ghost predicate Sorted(s: seq<Cell>)
  {
    forall i, j :: 0 <= i < j < |s| ==> Rank(s[i]) < Rank(s[j])
  }

  ghost predicate AllBelow(s: seq<Cell>, r: int)
  {
    forall i :: 0 <= i < |s| ==> Rank(s[i]) < r
  }

  ghost predicate AllAbove(s: seq<Cell>, r: int)
  {
    forall i :: 0 <= i < |s| ==> r < Rank(s[i])
  }

  /** The entries of a scan, dividers of interior table pages left out. */
  ghost function Entries(s: seq<Cell>): seq<Cell>
  {
    if s == [] then [] else (if s[0].Entry? then [s[0]] else []) + Entries(s[1..])
  }

  lemma {:induction false} EntriesConcat(a: seq<Cell>, b: seq<Cell>)
    ensures Entries(a + b) == Entries(a) + Entries(b)
  {
    if a == [] {
      assert a + b == b;
    } else {
      assert (a + b)[1..] == a[1..] + b;
      EntriesConcat(a[1..], b);
    }
  }

  lemma {:induction false} EntriesOfEntries(s: seq<Cell>)
    requires forall i :: 0 <= i < |s| ==> s[i].Entry?
    ensures Entries(s) == s
  {
    if s != [] { EntriesOfEntries(s[1..]); }
  }

  /** The map from keys to payloads that a scan visits. */
  ghost function MapOf(s: seq<Cell>): map<int, seq<int>>
  {
    if s == [] then map[]
    else (if s[0].Entry? then map[s[0].key := s[0].payload] else map[]) + MapOf(s[1..])
  }

  lemma {:induction false} MapAssoc<K, V>(a: map<K, V>, b: map<K, V>, c: map<K, V>)
    ensures a + (b + c) == (a + b) + c
  {
  }

  lemma {:induction false} MapConcat(a: seq<Cell>, b: seq<Cell>)
    ensures MapOf(a + b) == MapOf(a) + MapOf(b)
  {
    if a == [] {
      assert a + b == b;
    } else {
      assert (a + b)[1..] == a[1..] + b;
      MapConcat(a[1..], b);
      MapAssoc(if a[0].Entry? then map[a[0].key := a[0].payload] else map[], MapOf(a[1..]), MapOf(b));
    }
  }

  lemma {:induction false} MapOfEntries(s: seq<Cell>)
    ensures MapOf(s) == MapOf(Entries(s))
  {
    if s != [] {
      MapOfEntries(s[1..]);
      if s[0].Entry? {
        MapConcat([s[0]], Entries(s[1..]));
        assert MapOf([s[0]]) == map[s[0].key := s[0].payload] by { assert [s[0]][1..] == []; }
      } else {
        assert Entries(s) == Entries(s[1..]);
      }
    }
  }

  /** Keys of the map are keys of entries. */
  lemma {:induction false} MapKey(s: seq<Cell>, k: int)
    ensures k in MapOf(s) <==> exists i :: 0 <= i < |s| && s[i].Entry? && s[i].key == k
  {
    if s != [] {
      MapKey(s[1..], k);
      if k in MapOf(s[1..]) {
        var i :| 0 <= i < |s[1..]| && s[1..][i].Entry? && s[1..][i].key == k;
        assert s[i + 1].Entry? && s[i + 1].key == k;
      }
      forall i | 0 <= i < |s| && s[i].Entry? && s[i].key == k
        ensures k in MapOf(s)
      {
        if i > 0 { assert s[1..][i - 1].Entry? && s[1..][i - 1].key == k; }
      }
    }
  }

  /** A key strictly between two halves of a scan is not in the map. */
  lemma {:induction false} KeyAbsent(a: seq<Cell>, b: seq<Cell>, k: int)
    requires AllBelow(a, 2 * k) && AllAbove(b, 2 * k)
    ensures k !in MapOf(a) && k !in MapOf(b) && k !in MapOf(a + b)
  {
    MapKey(a, k);
    MapKey(b, k);
    MapConcat(a, b);
  }

  lemma {:induction false} MapAround<K, V>(a: map<K, V>, m: map<K, V>, b: map<K, V>, k: K, v: V)
    requires k !in a && k !in b && m.Keys <= {k}
    ensures a + map[k := v] + b == (a + m + b)[k := v]
    ensures a + b == (a + map[k := v] + b) - {k}
  {
  }

  lemma {:induction false} MapThree(a: seq<Cell>, m: seq<Cell>, b: seq<Cell>)
    ensures MapOf(a + m + b) == MapOf(a) + MapOf(m) + MapOf(b)
  {
    MapConcat(a + m, b);
    MapConcat(a, m);
  }

  lemma {:induction false} MapOne(c: Cell)
    requires c.Entry?
    ensures MapOf([c]) == map[c.key := c.payload]
  {
    assert [c][1..] == [];
  }

  /** Putting an entry where its key belongs, or in place of the entry with its key. */
  lemma {:induction false} MapPut(a: seq<Cell>, was: seq<Cell>, c: Cell, b: seq<Cell>)
    requires c.Entry? && AllBelow(a, 2 * c.key) && AllAbove(b, 2 * c.key)
    requires was == [] || (|was| == 1 && was[0].Entry? && was[0].key == c.key)
    ensures MapOf(a + [c] + b) == MapOf(a + was + b)[c.key := c.payload]
  {
    KeyAbsent(a, b, c.key);
    MapThree(a, [c], b);
    MapThree(a, was, b);
    MapOne(c);
    if was != [] { assert was == [was[0]]; MapOne(was[0]); }
    MapAround(MapOf(a), MapOf(was), MapOf(b), c.key, c.payload);
  }

  /** Removing an entry. */
  lemma {:induction false} MapDrop(a: seq<Cell>, c: Cell, b: seq<Cell>)
    requires c.Entry? && Sorted(a + [c] + b)
    ensures MapOf(a + b) == MapOf(a + [c] + b) - {c.key}
    ensures c.key in MapOf(a + [c] + b) && MapOf(a + [c] + b)[c.key] == c.payload
  {
    var s := a + [c] + b;
    forall i | 0 <= i < |a| ensures Rank(a[i]) < 2 * c.key { assert Rank(s[i]) < Rank(s[|a|]); }
    forall i | 0 <= i < |b| ensures 2 * c.key < Rank(b[i]) { assert Rank(s[|a|]) < Rank(s[|a| + 1 + i]); }
    KeyAbsent(a, b, c.key);
    MapConcat(a, b);
    MapThree(a, [c], b);
    MapOne(c);
    MapAround(MapOf(a), map[], MapOf(b), c.key, c.payload);
  }

  lemma {:induction false} SortedPut(a: seq<Cell>, was: seq<Cell>, c: Cell, b: seq<Cell>)
    requires Sorted(a + was + b)
    requires AllBelow(a, Rank(c)) && AllAbove(b, Rank(c))
    ensures Sorted(a + [c] + b)
  {
    var s, t := a + was + b, a + [c] + b;
    forall i, j | 0 <= i < j < |t| ensures Rank(t[i]) < Rank(t[j]) {
      var x := if i < |a| then i else i - 1 + |was|;
      var y := if j < |a| then j else j - 1 + |was|;
      if i != |a| && j != |a| { assert t[i] == s[x] && t[j] == s[y]; }
    }
  }

  lemma {:induction false} SortedParts(a: seq<Cell>, m: seq<Cell>, b: seq<Cell>)
    requires Sorted(a + m + b)
    ensures Sorted(a) && Sorted(m) && Sorted(b) && Sorted(a + b)
    ensures forall i, j :: 0 <= i < |a| && 0 <= j < |m| ==> Rank(a[i]) < Rank(m[j])
    ensures forall i, j :: 0 <= i < |m| && 0 <= j < |b| ==> Rank(m[i]) < Rank(b[j])
    ensures forall i, j :: 0 <= i < |a| && 0 <= j < |b| ==> Rank(a[i]) < Rank(b[j])
  {
    var s := a + m + b;
    forall i | 0 <= i < |a| ensures a[i] == s[i] {}
    forall i | 0 <= i < |m| ensures m[i] == s[|a| + i] {}
    forall i | 0 <= i < |b| ensures b[i] == s[|a| + |m| + i] {}
    var ab := a + b;
    forall i | 0 <= i < |ab| ensures ab[i] == s[if i < |a| then i else i + |m|] {}
  }
}
