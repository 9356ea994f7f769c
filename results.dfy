/** Failure-compatible result values for the codecs, standing in for `std::io::Result`. */
module Results {

  datatype Option<+T> = None | Some(value: T)

  /** The two `std::io::ErrorKind`s the codecs produce: a short read, and rejected data with its message. */
  datatype Error = UnexpectedEof | InvalidData(message: string)

  datatype Result<+T> = Ok(value: T) | Err(error: Error) {

    predicate IsFailure() {
      Err?
    }

    function PropagateFailure<U>(): Result<U>
      requires Err?
    {
      Err(error)
    }

    function Extract(): T
      requires Ok?
    {
      value
    }
  }

  /** Forgets the unread remainder that a decoding function returns beside its value. */
  function DropRest<T, R>(r: Result<(T, R)>): (d: Result<T>)
    ensures d.Ok? <==> r.Ok?
    ensures d.Ok? ==> d.value == r.value.0
    ensures d.Err? ==> d.error == r.error
  {
    match r
    case Ok(p) => Ok(p.0)
    case Err(e) => Err(e)
  }
}
