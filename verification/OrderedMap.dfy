/** The `BTreeMap` queries the crate relies on. */
module OrderedMap {
  import opened Words

  predicate IsFloor<V>(m: map<u64, V>, a: u64, k: u64) {
    k in m && k <= a && forall j :: j in m && j <= a ==> j <= k
  }

  lemma {:induction false} MaxExists(s: set<u64>) returns (max: u64)
    requires s != {}
    ensures max in s && forall x :: x in s ==> x <= max
    decreases |s|
  {
    var x :| x in s;
    if s == {x} {
      return x;
    }
    var rest := s - {x};
    assert forall z :: z in s ==> z == x || z in rest;
    var y := MaxExists(rest);
    max := if x < y then y else x;
  }

  lemma FloorExists<V>(m: map<u64, V>, a: u64)
    requires exists k :: k in m && k <= a
    ensures exists k :: IsFloor(m, a, k)
  {
    var below := set k | k in m && k <= a;
    var w :| w in m && w <= a;
    assert w in below;
    var k := MaxExists(below);
    assert forall j :: j in m && j <= a ==> j in below;
    assert IsFloor(m, a, k);
  }

  /** `range(..=a).next_back()`: the greatest key at or below `a`. */
  function Floor<V>(m: map<u64, V>, a: u64): (r: Option<u64>)
    ensures r.Some? ==> IsFloor(m, a, r.value)
    ensures r.None? <==> forall k :: k in m ==> a < k
  {
    if forall k | k in m :: a < k then None
    else
      FloorExists(m, a);
      var k :| k in m && IsFloor(m, a, k);
      Some(k)
  }

  lemma FloorIs<V>(m: map<u64, V>, a: u64, k: u64)
    requires IsFloor(m, a, k)
    ensures Floor(m, a) == Some(k)
  {
    assert k in m && !(a < k);
  }

  lemma {:induction false} MinExists(s: set<u64>) returns (min: u64)
    requires s != {}
    ensures min in s && forall x :: x in s ==> min <= x
    decreases |s|
  {
    var x :| x in s;
    if s == {x} {
      return x;
    }
    var rest := s - {x};
    assert forall z :: z in s ==> z == x || z in rest;
    var y := MinExists(rest);
    min := if x < y then x else y;
  }

  /** The next key of an in-order walk. */
  function Least(s: set<u64>): (k: u64)
    requires s != {}
    ensures k in s && forall x :: x in s ==> k <= x
  {
    assert exists k :: k in s && forall x :: x in s ==> k <= x by {
      var min := MinExists(s);
    }
    var k :| k in s && forall x :: x in s ==> k <= x;
    k
  }

  lemma {:induction false} SubsetSize<T>(a: set<T>, b: set<T>)
    requires a <= b
    ensures |a| <= |b|
    decreases |a|
  {
    if a != {} {
      var x :| x in a;
      SubsetSize(a - {x}, b - {x});
    }
  }
}
