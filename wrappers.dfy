/** Optional values: a Java reference that may be null is an Option here. */
module Wrappers {

  datatype Option<+T> = None | Some(value: T) {

    /** This value when present, `fallback` otherwise: a null source field
        leaves the target field as it was. */
    function Or(fallback: Option<T>): (r: Option<T>)
      ensures Some? ==> r == this
      ensures None? ==> r == fallback
    {
      if Some? then this else fallback
    }
  }
}
