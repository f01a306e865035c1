/** Picking an element of a non-empty set. */
module Choice {
  /** Some fixed element, for recursion over a set in specifications. */
  ghost function Pick<T>(s: set<T>): (x: T)
    requires s != {}
    ensures x in s
  {
    var x :| x in s;
    x
  }

  /** Any element: the order in which a map or a set is ranged over is arbitrary. */
  method Any<T>(s: set<T>) returns (x: T)
    requires s != {}
    ensures x in s
  {
    x :| x in s;
  }
}
