/** The two failure-carrying wrappers the model uses in place of Python's
    `None` returns and raised exceptions. */
module Results {

  datatype Option<+T> = None | Some(value: T)

  /** Either a value or the exception the Python code would raise. */
  datatype Result<+T, +E> = Ok(value: T) | Err(error: E)

  /** The items `out` already collected, followed by whatever the rest of a
      loop yields; a failure of the rest is the failure of the whole. */
  function Prepend<T, E>(out: seq<T>, rest: Result<seq<T>, E>): (r: Result<seq<T>, E>)
    ensures r.Ok? == rest.Ok?
    ensures r.Ok? ==> r.value == out + rest.value
    ensures r.Err? ==> r.error == rest.error
  {
    match rest
    case Ok(s) => Ok(out + s)
    case Err(e) => Err(e)
  }

  lemma PrependNothing<T, E>(rest: Result<seq<T>, E>)
    ensures Prepend([], rest) == rest
  {
    match rest
    case Ok(s) => assert [] + s == s;
    case Err(_) =>
  }

  lemma PrependAppend<T, E>(a: seq<T>, b: seq<T>, rest: Result<seq<T>, E>)
    ensures Prepend(a, Prepend(b, rest)) == Prepend(a + b, rest)
  {
    match rest
    case Ok(s) => assert a + (b + s) == (a + b) + s;
    case Err(_) =>
  }

  /** Two steps run in order, their outputs concatenated; the first to fail
      decides the failure. */
  function Then<T, E>(a: Result<seq<T>, E>, b: Result<seq<T>, E>): (r: Result<seq<T>, E>)
    ensures r.Ok? <==> a.Ok? && b.Ok?
    ensures r.Ok? ==> r.value == a.value + b.value
    ensures a.Err? ==> r == a
    ensures a.Ok? && b.Err? ==> r.error == b.error
  {
    if a.Err? then a else Prepend(a.value, b)
  }
}
