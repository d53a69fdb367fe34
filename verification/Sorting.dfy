/** Ordered listings: what iterating a sorted map or set, or sort followed by dedup, yields. */
module Sorting {

  ghost predicate StrictTotalOrder<T(!new)>(less: (T, T) -> bool) {
    && (forall x :: !less(x, x))
    && (forall x, y :: x != y ==> less(x, y) || less(y, x))
    && (forall x, y, z :: less(x, y) && less(y, z) ==> less(x, z))
  }

  predicate Smaller(a: nat, b: nat) { a < b }

  ghost predicate Ascending<T>(less: (T, T) -> bool, s: seq<T>) {
    forall i, j :: 0 <= i < j < |s| ==> less(s[i], s[j])
  }

  /** Insert `x` into an ascending sequence, dropping it when it is there already. */
  function Insert<T(==,!new)>(less: (T, T) -> bool, x: T, s: seq<T>): (r: seq<T>)
    requires StrictTotalOrder(less) && Ascending(less, s)
    ensures Ascending(less, r)
    ensures forall y :: y in r <==> y == x || y in s
  {
    if s == [] || less(x, s[0]) then [x] + s
    else if x == s[0] then s
    else
      var rest := Insert(less, x, s[1..]);
      assert forall y :: y in s <==> y == s[0] || y in s[1..];
      assert forall y :: y in rest ==> less(s[0], y);
      [s[0]] + rest
  }

  /** Sort and remove duplicates. */
  function SortDedup<T(==,!new)>(less: (T, T) -> bool, s: seq<T>): (r: seq<T>)
    requires StrictTotalOrder(less)
    ensures Ascending(less, r)
    ensures forall y :: y in r <==> y in s
  {
    if s == [] then [] else
      assert forall y :: y in s <==> y == s[0] || y in s[1..];
      Insert(less, s[0], SortDedup(less, s[1..]))
  }

  /** An ascending sequence is determined by its elements. */
  lemma {:induction false} AscendingUnique<T(!new)>(less: (T, T) -> bool, a: seq<T>, b: seq<T>)
    requires StrictTotalOrder(less) && Ascending(less, a) && Ascending(less, b)
    requires forall x :: x in a <==> x in b
    ensures a == b
  {
    assert forall i :: 0 <= i < |a| ==> a[i] in b;
    assert forall i :: 0 <= i < |b| ==> b[i] in a;
    if a == [] || b == [] {
    } else {
      assert a[0] == b[0];
      forall x ensures x in a[1..] <==> x in b[1..] {
        assert x in a <==> x == a[0] || x in a[1..];
        assert x in b <==> x == b[0] || x in b[1..];
      }
      AscendingUnique(less, a[1..], b[1..]);
    }
  }

  /** The elements of a set in ascending order. */
  method Listing<T(==,!new)>(less: (T, T) -> bool, s: set<T>) returns (r: seq<T>)
    requires StrictTotalOrder(less)
    ensures Ascending(less, r)
    ensures forall x :: x in r <==> x in s
  {
    r := [];
    var todo := s;
    while todo != {}
      invariant todo <= s && Ascending(less, r)
      invariant forall x :: x in r <==> x in s - todo
    {
      var x :| x in todo;
      r := Insert(less, x, r);
      todo := todo - {x};
    }
  }
}
