/** The open-addressing hash form of a Bitvec (bitvec.c:60-74, 146-151, 190-231, 256-271): values between 1
    and iSize, zero for an empty slot, linear probing from the value's home slot. */
module BitHash {
  /** BITVEC_NINT: 32-bit values in the 496-byte union (64-bit build). */
  const NINT: nat := 124

  /** BITVEC_MXHASH. */
  const MXHASH: nat := 62

  /** The home slot of value `v` (BITVEC_HASH of v - 1). */
  function Home(v: nat): nat
    requires v > 0
  {
    (v - 1) % NINT
  }

  /** The slot `t` places after `h`, around the end of the table. */
  function At(h: nat, t: nat): (k: nat)
    ensures k < NINT
  {
    (h + t) % NINT
  }

  /** One place further. */
  lemma {:induction false} NextSlot(h: nat, t: nat)
    ensures At(h, t + 1) == if At(h, t) + 1 >= NINT then 0 else At(h, t) + 1
    ensures h < NINT ==> At(h, 0) == h
  {
  }

  /** How far slot `k` is after slot `h`. */
  function Dist(h: nat, k: nat): (t: nat)
    requires h < NINT && k < NINT
    ensures t < NINT && At(h, t) == k
  {
    if k >= h then k - h else k + NINT - h
  }

  /** The slots between the home slot of the value in slot `k` and `k` itself are occupied, so probing
      for the value reaches it. */
  ghost predicate Reachable(a: seq<nat>, k: nat)
    requires |a| == NINT && k < NINT
  {
    a[k] != 0 ==> forall t :: 0 <= t < Dist(Home(a[k]), k) ==> a[At(Home(a[k]), t)] != 0
  }

  ghost predicate Distinct(a: seq<nat>)
  {
    forall j, k :: 0 <= j < k < |a| && a[j] != 0 ==> a[j] != a[k]
  }

  /** The nonzero entries. */
  ghost function Values(a: seq<nat>): set<nat>
  {
    set k | 0 <= k < |a| && a[k] != 0 :: a[k]
  }

  ghost predicate TableOk(a: seq<nat>)
  {
    |a| == NINT && Distinct(a) && forall k :: 0 <= k < NINT ==> Reachable(a, k)
  }

  lemma {:induction false} EmptyTable(a: seq<nat>)
    requires |a| == NINT && forall k :: 0 <= k < NINT ==> a[k] == 0
    ensures TableOk(a) && Values(a) == {}
  {
  }

  // ------------------------------------------------------------------ probing

  /** The first `t` slots from `h` on are occupied by other values. */
  ghost predicate Probed(a: seq<nat>, v: nat, h: nat, t: nat)
    requires |a| == NINT
  {
    forall s :: 0 <= s < t ==> Other(a, v, h, s)
  }

  ghost predicate Other(a: seq<nat>, v: nat, h: nat, s: nat)
    requires |a| == NINT
  {
    a[At(h, s)] != 0 && a[At(h, s)] != v
  }

  /** A probe that meets an empty slot has established that the value is not in the table. */
  lemma {:induction false} ProbeMisses(a: seq<nat>, v: nat, t: nat)
    requires TableOk(a) && v > 0 && t < NINT && Probed(a, v, Home(v), t) && a[At(Home(v), t)] == 0
    ensures v !in Values(a)
  {
    forall k | 0 <= k < NINT ensures a[k] != v { MissesSlot(a, v, t, k); }
  }

  lemma {:induction false} MissesSlot(a: seq<nat>, v: nat, t: nat, k: nat)
    requires TableOk(a) && v > 0 && t < NINT && Probed(a, v, Home(v), t) && a[At(Home(v), t)] == 0 && k < NINT
    ensures a[k] != v
  {
    var d := Dist(Home(v), k);
    assert d < t ==> Other(a, v, Home(v), d);
    assert Reachable(a, k);
  }

  /** With an empty slot somewhere, a probe cannot go all the way around. */
  lemma {:induction false} ProbeEnds(a: seq<nat>, v: nat, h: nat, t: nat, z: nat)
    requires |a| == NINT && h < NINT && Probed(a, v, h, t) && z < NINT && a[z] == 0
    ensures t <= Dist(h, z) < NINT
  {
    assert Dist(h, z) < t ==> Other(a, v, h, Dist(h, z));
  }

  /** Entering a new value into the empty slot where its probe ended. */
  lemma {:induction false} Enter(a: seq<nat>, v: nat, t: nat)
    requires TableOk(a) && v > 0 && t < NINT && Probed(a, v, Home(v), t) && a[At(Home(v), t)] == 0
    ensures TableOk(a[At(Home(v), t) := v]) && Values(a[At(Home(v), t) := v]) == Values(a) + {v} && v !in Values(a)
  {
    ProbeMisses(a, v, t);
    var h := At(Home(v), t);
    var b := a[h := v];
    forall k | 0 <= k < NINT ensures Reachable(b, k) {
      if k == h {
        forall s | 0 <= s < Dist(Home(v), h) ensures b[At(Home(v), s)] != 0 {
          SameDist(Home(v), t);
          assert Other(a, v, Home(v), s);
        }
      } else {
        assert Reachable(a, k);
      }
    }
    forall x ensures x in Values(b) <==> x in Values(a) + {v} {
      if x in Values(a) {
        var k :| 0 <= k < |a| && a[k] != 0 && a[k] == x;
        assert b[k] == x;
      }
      if x == v { assert b[h] == v; }
    }
    forall j, k | 0 <= j < k < |b| && b[j] != 0 ensures b[j] != b[k] {
      if b[j] == v || b[k] == v { assert forall m :: 0 <= m < |a| && a[m] != 0 ==> a[m] in Values(a); }
    }
  }

  lemma {:induction false} SameDist(h: nat, t: nat)
    requires h < NINT && t < NINT
    ensures Dist(h, At(h, t)) == t
  {
    if h + t < NINT { assert (h + t) % NINT == h + t; } else { assert (h + t) % NINT == h + t - NINT; }
  }

  // ------------------------------------------------------------------ counting

  /** How many slots are occupied. */
  function Count(a: seq<nat>): (n: nat)
    ensures n <= |a|
  {
    if a == [] then 0 else Count(a[..|a| - 1]) + if a[|a| - 1] != 0 then 1 else 0
  }

  lemma {:induction false} CountUpdate(a: seq<nat>, h: nat, v: nat)
    requires h < |a| && a[h] == 0 && v > 0
    ensures Count(a[h := v]) == Count(a) + 1
  {
    var n := |a| - 1;
    if h < n {
      CountUpdate(a[..n], h, v);
      assert a[h := v][..n] == a[..n][h := v];
    } else {
      assert a[h := v][..n] == a[..n];
    }
  }

  lemma {:induction false} CountZero(a: seq<nat>)
    requires forall k :: 0 <= k < |a| ==> a[k] == 0
    ensures Count(a) == 0
  {
    if a != [] { CountZero(a[..|a| - 1]); }
  }

  lemma {:induction false} SomeEmpty(a: seq<nat>)
    requires Count(a) < |a|
    ensures exists z :: 0 <= z < |a| && a[z] == 0
  {
    var n := |a| - 1;
    if a[n] != 0 {
      SomeEmpty(a[..n]);
      var z :| 0 <= z < |a[..n]| && a[..n][z] == 0;
      assert a[z] == 0;
    }
  }
}
