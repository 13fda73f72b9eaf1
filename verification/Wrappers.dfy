/** What several of the models share: optional values, floats, and laws of concatenation. */
module Wrappers {

  /** The source's std::optional. */
  datatype Option<+T> = None | Some(value: T)

  /** A float: None is NaN, which NullChecker calls null; arithmetic hands it on, and comparisons with it are false. */
  type Float = Option<real>

  lemma Reassociate<T>(a: seq<T>, b: seq<T>, c: seq<T>)
    ensures (a + b) + c == a + (b + c)
  {
  }

  lemma AddNothing<T>(s: seq<T>)
    ensures [] + s == s
  {
  }
}
