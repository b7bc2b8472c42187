/** Failure values of the query operators.
    Three of the failures the library throws are returned here as values instead. */
module LinqResults {

  datatype Option<T> = None | Some(value: T)

  /** Three of the failures the operators raise. */
  datatype LinqError =
    | NotFound         // MyFirst: no (matching) element
    | IndexOutOfBound  // MyTake / MySkip: count larger than the source
    | NoElements       // MyMin: empty source (an InvalidOperationException)

  datatype Result<T> = Success(value: T) | Failure(error: LinqError)

  /** The exception text the library attaches to each failure. */
  function Message(e: LinqError): (m: string)
    ensures m != []
  {
    match e
    case NotFound => "Not Found"
    case IndexOutOfBound => "Index out of bound."
    case NoElements => "Sequence contains no elements"
  }

  /** The message tells the failure kinds apart. */
  lemma MessagesDistinct(a: LinqError, b: LinqError)
    ensures Message(a) == Message(b) ==> a == b
  {
  }
}
