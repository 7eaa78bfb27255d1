/** The outcome of a fallible operation, with the handful of combinators the
    library itself uses: `map` on success, `map_err` on failure, and `expect`
    for an outcome that cannot be an error. */
module Results {

  datatype Result<T, E> = Ok(value: T) | Err(error: E) {

    /** Applies `f` to a success value and passes an error through untouched. */
    function Map<U>(f: T -> U): (r: Result<U, E>)
      ensures r.Ok? <==> Ok?
      ensures Ok? ==> r.value == f(value)
      ensures Err? ==> r.error == error
    {
      match this
      case Ok(v) => Ok(f(v))
      case Err(e) => Err(e)
    }

    /** Applies `f` to an error value and passes a success value through untouched. */
    function MapErr<F>(f: E -> F): (r: Result<T, F>)
      ensures r.Ok? <==> Ok?
      ensures Ok? ==> r.value == value
      ensures Err? ==> r.error == f(error)
    {
      match this
      case Ok(v) => Ok(v)
      case Err(e) => Err(f(e))
    }

    /** The success value of an outcome that is known not to be an error: the
        precondition is what turns the panic of `expect` into a proof obligation. */
    function Expect(): (v: T)
      requires Ok?
      ensures this == Ok(v)
    {
      value
    }
  }
}
