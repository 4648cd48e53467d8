/** Facts about products and finite sets that several parts need. */
module Counting {
  lemma {:induction false} SubsetSize<T>(a: set<T>, b: set<T>)
    requires a <= b
    ensures |a| <= |b|
    ensures |a| == |b| ==> a == b
  {
    assert b == a + (b - a) && a !! (b - a);
  }

  lemma {:induction false} MulLe(a: nat, b: nat, x: nat)
    requires a <= b
    ensures a * x <= b * x
  {
    assert b * x == a * x + (b - a) * x;
  }

  lemma {:induction false} MulLess(a: nat, b: nat, x: nat)
    requires a * x < b * x
    ensures a < b
  {
    if b <= a { MulLe(b, a, x); }
  }
}
