/** Option and Result (the absent value and the raised exception of the source),
    and the choice of an element of a set, which stands for Python's iteration over
    a set or dict and for `set.pop()`, whose order is unspecified. */
module Wrappers {
  datatype Option<+T> = None | Some(value: T)

  datatype Result<+T, +E> = Ok(value: T) | Err(error: E)

  /** Some element of a nonempty set; which one is left unspecified. */
  method Pick<T>(s: set<T>) returns (x: T)
    requires s != {}
    ensures x in s
  {
    x :| x in s;
  }
}
