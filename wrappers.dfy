/** Optional values, the model's rendering of Python's `None`, and a sequence fact the recording loops share. */
module Wrappers {

  datatype Option<+T> = None | Some(value: T) {

    /** The value, or `default` when there is none (Python's `dict.get(key, default)`). */
    function GetOr(default: T): (r: T)
      ensures Some? ==> r == value
      ensures None? ==> r == default
    {
      match this
      case Some(v) => v
      case None => default
    }
  }

  /** Appending one element, then the rest, is appending the element with the rest: the step the recording loops take. */
  lemma AppendAssociates<T>(before: seq<T>, x: T, rest: seq<T>)
    ensures (before + [x]) + rest == before + ([x] + rest)
  {
  }
}
