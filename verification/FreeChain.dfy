/** The freelist of the database file: a chain of trunk pages, each listing leaf pages (btree.c:5757-6206). */
module FreeChain {
  /** A trunk page as stored: the next trunk page (zero at the end) and its leaf entries. */
  datatype TrunkData = TrunkData(next: nat, leaves: seq<nat>)

  /** A trunk page together with its number. */
  datatype Trunk = Trunk(pgno: nat, leaves: seq<nat>)

  /** All pages of one trunk. */
  function Part(t: Trunk): multiset<nat>
  {
    multiset{t.pgno} + multiset(t.leaves)
  }

  /** All pages on the freelist, with multiplicity. */
  function Bag(chain: seq<Trunk>): multiset<nat>
  {
    if chain == [] then multiset{} else Part(chain[0]) + Bag(chain[1..])
  }

  function HeadOf(chain: seq<Trunk>, i: nat): nat
  {
    if i < |chain| then chain[i].pgno else 0
  }

  ghost predicate TrunkAt(pages: map<nat, TrunkData>, chain: seq<Trunk>, i: nat)
    requires i < |chain|
  {
    chain[i].pgno in pages && pages[chain[i].pgno] == TrunkData(HeadOf(chain, i + 1), chain[i].leaves)
  }

  /** The pages store `chain`. */
  ghost predicate Stored(pages: map<nat, TrunkData>, chain: seq<Trunk>)
  {
    forall i :: 0 <= i < |chain| ==> TrunkAt(pages, chain, i)
  }

  /** No page is listed twice, and none is page 0 or 1 or beyond the end of the file. */
  ghost predicate Sound(chain: seq<Trunk>, nPage: nat)
  {
    forall p :: p in Bag(chain) ==> 2 <= p <= nPage && Bag(chain)[p] == 1
  }

  // ------------------------------------------------------------------ bags

  lemma {:induction false} BagConcat(a: seq<Trunk>, b: seq<Trunk>)
    ensures Bag(a + b) == Bag(a) + Bag(b)
  {
    if a == [] {
      assert a + b == b;
    } else {
      assert (a + b)[1..] == a[1..] + b;
      BagConcat(a[1..], b);
    }
  }

  lemma {:induction false} BagOne(t: Trunk)
    ensures Bag([t]) == Part(t)
  {
    assert [t][1..] == [];
  }

  lemma {:induction false} BagSplit(chain: seq<Trunk>, i: nat)
    requires i < |chain|
    ensures Bag(chain) == Bag(chain[..i]) + Part(chain[i]) + Bag(chain[i + 1..])
  {
    assert chain == chain[..i] + ([chain[i]] + chain[i + 1..]);
    BagConcat(chain[..i], [chain[i]] + chain[i + 1..]);
    BagConcat([chain[i]], chain[i + 1..]);
    BagOne(chain[i]);
  }

  /** Trunk `i` replaced by `t`, or dropped. */
  lemma {:induction false} BagReplace(chain: seq<Trunk>, i: nat, t: seq<Trunk>)
    requires i < |chain| && |t| <= 1
    ensures Bag(chain[..i] + t + chain[i + 1..]) + Part(chain[i]) == Bag(chain) + if t == [] then multiset{} else Part(t[0])
  {
    hide Bag, Part;
    BagSplit(chain, i);
    BagConcat(chain[..i] + t, chain[i + 1..]);
    BagConcat(chain[..i], t);
    if t != [] { assert t == [t[0]]; BagOne(t[0]); } else { BagNone(); }
    Shuffle(Bag(chain[..i]), Part(chain[i]), Bag(chain[i + 1..]), Bag(t));
  }

  lemma {:induction false} BagNone()
    ensures Bag([]) == multiset{}
  {
  }

  lemma {:induction false} Shuffle(a: multiset<nat>, p: multiset<nat>, c: multiset<nat>, t: multiset<nat>)
    ensures (a + t + c) + p == (a + p + c) + t
  {
  }

  lemma {:induction false} TrunkInBag(chain: seq<Trunk>, i: nat)
    requires i < |chain|
    ensures Part(chain[i]) <= Bag(chain) && chain[i].pgno in Bag(chain)
    ensures forall p :: p in chain[i].leaves ==> p in Bag(chain)
  {
    BagSplit(chain, i);
    forall p | p in chain[i].leaves ensures p in Bag(chain) { assert p in multiset(chain[i].leaves); }
  }

  /** Different trunks share no page, and a trunk page is not its own leaf. */
  lemma {:induction false} TrunksApart(chain: seq<Trunk>, nPage: nat, i: nat, j: nat)
    requires Sound(chain, nPage) && i < |chain| && j < |chain|
    ensures i != j ==> chain[i].pgno != chain[j].pgno
    ensures chain[i].pgno !in chain[j].leaves
    ensures 2 <= chain[i].pgno <= nPage
  {
    TrunkInBag(chain, i);
    hide Bag, Part;
    if i < j { TwoParts(chain, i, j); } else if j < i { TwoParts(chain, j, i); }
    PartTwice(chain, nPage, i, j);
  }

  lemma {:induction false} TwoParts(chain: seq<Trunk>, i: nat, j: nat)
    requires i < j < |chain|
    ensures Part(chain[i]) + Part(chain[j]) <= Bag(chain)
  {
    hide Part;
    BagSplit(chain, i);
    var rest := chain[i + 1..];
    BagSplit(rest, j - i - 1);
    assert rest[j - i - 1] == chain[j];
  }

  lemma {:induction false} PartTwice(chain: seq<Trunk>, nPage: nat, i: nat, j: nat)
    requires Sound(chain, nPage) && i < |chain| && j < |chain|
    requires if i == j then Part(chain[i]) <= Bag(chain) else Part(chain[i]) + Part(chain[j]) <= Bag(chain)
    requires chain[i].pgno in Bag(chain)
    ensures i != j ==> chain[i].pgno != chain[j].pgno
    ensures chain[i].pgno !in chain[j].leaves
    ensures 2 <= chain[i].pgno <= nPage
  {
    hide Bag;
    var p := chain[i].pgno;
    assert Part(chain[i])[p] >= 1 && Bag(chain)[p] == 1;
    assert multiset(chain[j].leaves)[p] == 0;
  }

  /** A bag without duplicates has as many pages as elements; they fit between 2 and `nPage`. */
  lemma {:induction false} BagFits(b: multiset<nat>, nPage: nat)
    requires nPage >= 1 && forall p :: p in b ==> 2 <= p <= nPage && b[p] == 1
    ensures |b| <= nPage - 1
    decreases nPage
  {
    if nPage == 1 {
      assert b == multiset{};
    } else {
      var rest := b - multiset{nPage};
      assert |b| <= |rest| + 1;
      forall p | p in rest ensures 2 <= p <= nPage - 1 && rest[p] == 1 { assert p in b; }
      BagFits(rest, nPage - 1);
    }
  }

  /** The pages of a bag, as a set. */
  ghost function Support(b: multiset<nat>): set<nat>
  {
    set p | p in b
  }

  /** Without duplicates, the set is as large as the bag. */
  lemma {:induction false} SupportSize(b: multiset<nat>)
    requires forall p :: p in b ==> b[p] == 1
    ensures |Support(b)| == |b|
    decreases |b|
  {
    if b == multiset{} {
      assert Support(b) == {};
    } else {
      var p :| p in b;
      SupportLess(b, p);
      SupportSize(b - multiset{p});
      assert p in Support(b);
    }
  }

  lemma {:induction false} SupportLess(b: multiset<nat>, p: nat)
    requires p in b && b[p] == 1
    ensures Support(b - multiset{p}) == Support(b) - {p}
  {
  }

  lemma {:induction false} SupportMore(b: multiset<nat>, p: nat)
    ensures Support(b + multiset{p}) == Support(b) + {p}
  {
  }

  // ------------------------------------------------------------------ changing the chain

  /** Trunk `i` taken off the chain. */
  lemma {:induction false} StoredDrop(pages: map<nat, TrunkData>, chain: seq<Trunk>, nPage: nat, i: nat)
    requires Stored(pages, chain) && Sound(chain, nPage) && i < |chain|
    ensures var next := HeadOf(chain, i + 1);
      var pages' := if i == 0 then pages else pages[chain[i - 1].pgno := TrunkData(next, chain[i - 1].leaves)];
      Stored(pages', chain[..i] + chain[i + 1..])
  {
    var next := HeadOf(chain, i + 1);
    var pages' := if i == 0 then pages else pages[chain[i - 1].pgno := TrunkData(next, chain[i - 1].leaves)];
    var r := chain[..i] + chain[i + 1..];
    forall m | 0 <= m < |r| ensures TrunkAt(pages', r, m) {
      var j := if m < i then m else m + 1;
      assert TrunkAt(pages, chain, j);
      if i > 0 && j != i - 1 { TrunksApart(chain, nPage, j, i - 1); }
    }
  }

  /** Trunk `i` replaced by a trunk on the page `t.pgno`, which was a leaf of trunk `i` or is that page. */
  lemma {:induction false} StoredReplace(pages: map<nat, TrunkData>, chain: seq<Trunk>, nPage: nat, i: nat, t: Trunk)
    requires Stored(pages, chain) && Sound(chain, nPage) && i < |chain|
    requires t.pgno == chain[i].pgno || t.pgno in chain[i].leaves
    ensures var mid := pages[t.pgno := TrunkData(HeadOf(chain, i + 1), t.leaves)];
      var pages' := if i == 0 || t.pgno == chain[i].pgno then mid else mid[chain[i - 1].pgno := TrunkData(t.pgno, chain[i - 1].leaves)];
      Stored(pages', chain[..i] + [t] + chain[i + 1..])
  {
    var mid := pages[t.pgno := TrunkData(HeadOf(chain, i + 1), t.leaves)];
    var pages' := if i == 0 || t.pgno == chain[i].pgno then mid else mid[chain[i - 1].pgno := TrunkData(t.pgno, chain[i - 1].leaves)];
    var r := chain[..i] + [t] + chain[i + 1..];
    forall m | 0 <= m < |r| ensures TrunkAt(pages', r, m) {
      assert TrunkAt(pages, chain, m);
      NextInReplaced(chain, i, t, m);
      if m != i {
        TrunksApart(chain, nPage, m, i);
        if i > 0 && m != i - 1 { TrunksApart(chain, nPage, m, i - 1); }
      } else if i > 0 {
        TrunksApart(chain, nPage, i - 1, i);
      }
    }
  }

  lemma {:induction false} NextInReplaced(chain: seq<Trunk>, i: nat, t: Trunk, m: nat)
    requires i < |chain| && m < |chain|
    ensures var r := chain[..i] + [t] + chain[i + 1..];
      && |r| == |chain| && r[m] == (if m == i then t else chain[m])
      && HeadOf(r, m + 1) == if m + 1 == i then t.pgno else HeadOf(chain, m + 1)
  {
  }

  /** A new first trunk. */
  lemma {:induction false} StoredPush(pages: map<nat, TrunkData>, chain: seq<Trunk>, p: nat)
    requires Stored(pages, chain) && p !in Bag(chain)
    ensures Stored(pages[p := TrunkData(HeadOf(chain, 0), [])], [Trunk(p, [])] + chain)
  {
    var pages' := pages[p := TrunkData(HeadOf(chain, 0), [])];
    var r := [Trunk(p, [])] + chain;
    forall m | 0 <= m < |r| ensures TrunkAt(pages', r, m) {
      if m > 0 {
        assert r[m] == chain[m - 1];
        assert TrunkAt(pages, chain, m - 1);
        TrunkInBag(chain, m - 1);
        assert r[m].pgno != p;
        assert HeadOf(r, m + 1) == HeadOf(chain, m);
      } else {
        assert r[0] == Trunk(p, []);
        assert HeadOf(r, 1) == HeadOf(chain, 0);
      }
    }
  }

  // ------------------------------------------------------------------ what becomes of the bag

  /** Leaf `j` taken off: the last leaf takes its place. */
  function DropLeaf(leaves: seq<nat>, j: nat): (r: seq<nat>)
    requires j < |leaves|
    ensures multiset(r) + multiset{leaves[j]} == multiset(leaves)
  {
    var k := |leaves| - 1;
    assert leaves == leaves[..k] + [leaves[k]];
    if j < k then
      assert leaves[..k][j := leaves[k]] == leaves[..j] + [leaves[k]] + leaves[j + 1..k];
      assert leaves[..k] == leaves[..j] + [leaves[j]] + leaves[j + 1..k];
      leaves[..k][j := leaves[k]]
    else leaves[..k]
  }

  lemma {:induction false} SoundMinus(chain: seq<Trunk>, chain': seq<Trunk>, nPage: nat, p: nat)
    requires Sound(chain, nPage) && Bag(chain') + multiset{p} == Bag(chain)
    ensures Sound(chain', nPage) && p in Bag(chain) && p !in Bag(chain')
    ensures Bag(chain') == Bag(chain) - multiset{p} && |Bag(chain')| == |Bag(chain)| - 1
  {
    hide Bag;
    assert p in Bag(chain);
    forall q | q in Bag(chain') ensures 2 <= q <= nPage && Bag(chain')[q] == 1 { assert q in Bag(chain); }
  }

  /** A trunk without leaves is taken: it leaves the chain. */
  lemma {:induction false} TookTrunk(chain: seq<Trunk>, nPage: nat, i: nat)
    requires Sound(chain, nPage) && i < |chain| && chain[i].leaves == []
    ensures Bag(chain[..i] + chain[i + 1..]) + multiset{chain[i].pgno} == Bag(chain)
  {
    hide Bag;
    BagReplace(chain, i, []);
    assert chain[..i] + [] + chain[i + 1..] == chain[..i] + chain[i + 1..];
    PartBare(chain[i]);
  }

  lemma {:induction false} PartBare(t: Trunk)
    requires t.leaves == []
    ensures Part(t) == multiset{t.pgno}
  {
  }

  /** A trunk with leaves is taken: its first leaf becomes the trunk. */
  lemma {:induction false} PromotedLeaf(chain: seq<Trunk>, nPage: nat, i: nat)
    requires Sound(chain, nPage) && i < |chain| && chain[i].leaves != []
    ensures Bag(chain[..i] + [Trunk(chain[i].leaves[0], chain[i].leaves[1..])] + chain[i + 1..]) + multiset{chain[i].pgno} == Bag(chain)
  {
    hide Bag, Part;
    var t := Trunk(chain[i].leaves[0], chain[i].leaves[1..]);
    BagReplace(chain, i, [t]);
    PartShift(chain[i]);
    Cancel(Bag(chain[..i] + [t] + chain[i + 1..]), Part(t), multiset{chain[i].pgno}, Bag(chain));
  }

  /** A leaf is taken. */
  lemma {:induction false} TookLeaf(chain: seq<Trunk>, nPage: nat, i: nat, j: nat)
    requires Sound(chain, nPage) && i < |chain| && j < |chain[i].leaves|
    ensures Bag(chain[..i] + [Trunk(chain[i].pgno, DropLeaf(chain[i].leaves, j))] + chain[i + 1..]) + multiset{chain[i].leaves[j]} == Bag(chain)
  {
    hide Bag, Part;
    var t := Trunk(chain[i].pgno, DropLeaf(chain[i].leaves, j));
    BagReplace(chain, i, [t]);
    PartLess(chain[i], j);
    Cancel(Bag(chain[..i] + [t] + chain[i + 1..]), Part(t), multiset{chain[i].leaves[j]}, Bag(chain));
  }

  lemma {:induction false} PartShift(t: Trunk)
    requires t.leaves != []
    ensures Part(t) == Part(Trunk(t.leaves[0], t.leaves[1..])) + multiset{t.pgno}
  {
    assert t.leaves == [t.leaves[0]] + t.leaves[1..];
  }

  lemma {:induction false} PartLess(t: Trunk, j: nat)
    requires j < |t.leaves|
    ensures Part(t) == Part(Trunk(t.pgno, DropLeaf(t.leaves, j))) + multiset{t.leaves[j]}
  {
  }

  lemma {:induction false} Cancel(x: multiset<nat>, t: multiset<nat>, m: multiset<nat>, b: multiset<nat>)
    requires x + (t + m) == b + t
    ensures x + m == b
  {
    forall p: nat ensures (x + m)[p] == b[p] { assert (x + (t + m))[p] == (b + t)[p]; }
  }
}
