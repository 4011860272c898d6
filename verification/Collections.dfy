/** Optional values, and elements of sets. */
module Collections {

  datatype Option<T> = None | Some(value: T)

  /** Some element of a set. */
  ghost function Pick<T>(s: set<T>): (x: T)
    requires s != {}
    ensures x in s
  {
    var x :| x in s; x
  }

  /** Any element of a set: a choice the kernel leaves to code that is not modelled. */
  method PickOne<T>(s: set<T>) returns (x: T)
    requires s != {}
    ensures x in s
  {
    x :| x in s;
  }
}
