/** `intersection` from addon/utils/array-helpers.ts: an order-preserving filter. */
module ArrayHelpers {

  /** No element occurs twice. */
  predicate Distinct<T(==)>(s: seq<T>) {
    forall i, j :: 0 <= i < j < |s| ==> s[i] != s[j]
  }

  /** `arr1.filter((key) => arr2.has(key))`. */
  function Intersection<T(==)>(arr1: seq<T>, arr2: set<T>): (r: seq<T>)
    ensures |r| <= |arr1|
    ensures forall x :: x in r ==> x in arr1 && x in arr2
    ensures forall x :: x in arr1 && x in arr2 ==> x in r
  {
    if arr1 == [] then []
    else (if arr1[0] in arr2 then [arr1[0]] else []) + Intersection(arr1[1..], arr2)
  }

  /** The filter distributes over concatenation, so the result keeps `arr1`'s order. */
  lemma {:induction false} IntersectionAppend<T>(a: seq<T>, b: seq<T>, s: set<T>)
    ensures Intersection(a + b, s) == Intersection(a, s) + Intersection(b, s)
  {
    if a == [] {
      assert a + b == b;
    } else {
      assert (a + b)[0] == a[0];
      assert (a + b)[1..] == a[1..] + b;
      IntersectionAppend(a[1..], b, s);
    }
  }

  /** Every kept element keeps its multiplicity; every other element is dropped. */
  lemma {:induction false} IntersectionCount<T>(a: seq<T>, s: set<T>, x: T)
    ensures multiset(Intersection(a, s))[x] == if x in s then multiset(a)[x] else 0
  {
    if a != [] {
      IntersectionCount(a[1..], s, x);
      assert a == [a[0]] + a[1..];
      assert multiset(a) == multiset([a[0]]) + multiset(a[1..]);
    }
  }

  /** Filtering a list without duplicates gives a list without duplicates. */
  lemma {:induction false} IntersectionDistinct<T>(a: seq<T>, s: set<T>)
    requires Distinct(a)
    ensures Distinct(Intersection(a, s))
  {
    if a != [] {
      IntersectionDistinct(a[1..], s);
      var rest := Intersection(a[1..], s);
      assert a[0] !in a[1..];
      assert a[0] !in rest;
    }
  }

  /** The examples of tests/unit/utils/array-helpers-test.js. */
  lemma IntersectionExamples()
    ensures Intersection([1, 2, 3], {2, 1}) == [1, 2]
    ensures Intersection([], {2, 1}) == []
  {
  }
}
