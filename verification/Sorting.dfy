/** Sorting what a map or set holds, which Go code does to get a fixed order out of map iteration. */
module Sorting {
  import opened Choice

  ghost predicate StrictOrder<T(!new)>(before: (T, T) -> bool) {
    && (forall a, b, c | before(a, b) && before(b, c) :: before(a, c))
    && (forall a, b :: a == b || before(a, b) || before(b, a))
  }

  ghost predicate Sorted<T>(s: seq<T>, before: (T, T) -> bool) {
    forall i, j | 0 <= i < j < |s| :: before(s[i], s[j])
  }

  /** Putting a new element in its place. */
  function Insert<T(!new)>(x: T, s: seq<T>, before: (T, T) -> bool): (r: seq<T>)
    requires StrictOrder(before) && Sorted(s, before) && x !in s
    ensures Sorted(r, before)
    ensures forall y :: y in r <==> y == x || y in s
  {
    if s == [] then [x]
    else if before(x, s[0]) then
      assert forall y :: y in [x] + s <==> y == x || y in s;
      [x] + s
    else
      var rest := Insert(x, s[1..], before);
      assert s[0] in s && forall y | y in s[1..] :: before(s[0], y);
      assert forall y | y in rest :: before(s[0], y);
      assert forall k | 0 <= k < |rest| :: rest[k] in rest;
      assert forall y :: y in s <==> y == s[0] || y in s[1..];
      assert forall y :: y in [s[0]] + rest <==> y == s[0] || y in rest;
      [s[0]] + rest
  }

  /** The elements of a set, visited in any order and sorted. */
  method SortedElements<T(!new)>(all: set<T>, before: (T, T) -> bool) returns (s: seq<T>)
    requires StrictOrder(before)
    ensures Sorted(s, before)
    ensures forall x :: x in s <==> x in all
  {
    s := [];
    var rest := all;
    while rest != {}
      invariant rest <= all && Sorted(s, before)
      invariant forall x :: x in s <==> x in all && x !in rest
      decreases |rest|
    {
      var x := Any(rest);
      rest := rest - {x};
      s := Insert(x, s, before);
    }
  }
}
