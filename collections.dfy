/** Choosing from a hash set or hash map, whose iteration order is unspecified. */
module Collections {

  /** Some member of a non-empty set; which one is left open. */
  method Pick<T>(s: set<T>) returns (x: T)
    requires s != {}
    ensures x in s
  {
    x :| x in s;
  }
}
