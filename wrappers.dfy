/** The optional value that stands for Kotlin's nullable types (`T?`). */
module Wrappers {

  datatype Option<+T> = None | Some(value: T)

  /** The zero- or one-element sequence holding what an optional value holds. */
  function OptionToSeq<T>(o: Option<T>): (s: seq<T>)
    ensures |s| == (if o.Some? then 1 else 0)
    ensures o.Some? ==> s[0] == o.value
  {
    match o
    case None => []
    case Some(v) => [v]
  }
}
