/** Small failure-carrying datatypes shared by the model. */
module Wrappers {

  datatype Option<+T> = None | Some(value: T)

  /** The result of a step that may abort the whole run. The crawler
      panics on every unexpected condition (an unexpected HTTP status, a
      transport error, indexing an empty slice); the model makes that abort
      a value so that it can be reasoned about. */
  datatype Outcome<+T> = Ok(value: T) | Panic

  /** A batch of steps that each may abort: the values of all of them, or
      an abort as soon as one of them aborts. */
  function AllOk<T>(os: seq<Outcome<T>>): (r: Outcome<seq<T>>)
    ensures r.Ok? <==> forall i | 0 <= i < |os| :: os[i].Ok?
    ensures r.Ok? ==> |r.value| == |os| && forall i | 0 <= i < |os| :: os[i] == Ok(r.value[i])
  {
    if os == [] then Ok([])
    else match os[0]
      case Panic => Panic
      case Ok(x) =>
        match AllOk(os[1..])
        case Panic => Panic
        case Ok(xs) => Ok([x] + xs)
  }
}
