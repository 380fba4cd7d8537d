/** The distinct elements of a sequence in order of first appearance: what
    iterating over the keys of a dict built from pairs yields, and what
    pandas Series.unique() returns. */
module Unique {

  function Distinct<T(==)>(s: seq<T>): (r: seq<T>)
    ensures forall i | 0 <= i < |s| :: s[i] in r
    ensures forall i | 0 <= i < |r| :: r[i] in s
    ensures forall i, j | 0 <= i < j < |r| :: r[i] != r[j]
  {
    if s == [] then []
    else
      var p := Distinct(s[..|s| - 1]);
      var l := s[|s| - 1];
      assert s == s[..|s| - 1] + [l];
      if l in p then p else p + [l]
  }

  /** The position of the first occurrence of x in s. */
  function FirstIndex<T(==)>(s: seq<T>, x: T): (i: nat)
    requires x in s
    ensures i < |s| && s[i] == x
    ensures forall j | 0 <= j < i :: s[j] != x
  {
    if s[0] == x then 0 else 1 + FirstIndex(s[1..], x)
  }

  lemma {:induction false} FirstIndexPrefix<T>(p: seq<T>, l: T, x: T)
    requires x in p
    ensures FirstIndex(p + [l], x) == FirstIndex(p, x)
  {
    var s := p + [l];
    assert s[FirstIndex(p, x)] == x;
  }

  /** Distinct keeps the order in which the elements first appear. */
  lemma {:induction false} DistinctInFirstAppearanceOrder<T>(s: seq<T>)
    ensures forall i, j | 0 <= i < j < |Distinct(s)| ::
              FirstIndex(s, Distinct(s)[i]) < FirstIndex(s, Distinct(s)[j])
  {
    if s != [] {
      var p, l := s[..|s| - 1], s[|s| - 1];
      assert s == p + [l];
      DistinctInFirstAppearanceOrder(p);
      var q := Distinct(p);
      var r := Distinct(s);
      forall i, j | 0 <= i < j < |r| ensures FirstIndex(s, r[i]) < FirstIndex(s, r[j]) {
        assert r[i] == q[i] && q[i] in p;
        FirstIndexPrefix(p, l, r[i]);
        if j < |q| {
          assert r[j] == q[j] && q[j] in p;
          FirstIndexPrefix(p, l, r[j]);
          assert FirstIndex(p, q[i]) < FirstIndex(p, q[j]);
        } else {
          assert r[j] == l && l !in p;
          assert FirstIndex(s, l) == |p|;
        }
      }
    }
  }
}
