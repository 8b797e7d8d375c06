/** Error outcomes of the trie library.

    The Java code reports errors by throwing: `IllegalArgumentException` when a
    word holds a symbol outside the alphabet, and the runtime's
    `ArrayIndexOutOfBoundsException` / `NullPointerException` when a decoder or
    a reference rewrite is handed malformed data.  The model returns them as
    values instead. */
module Outcome {

  datatype Error =
    | InvalidSymbol      // IllegalArgumentException from inspectWord
    | IndexOutOfBounds   // an array index outside its array in a decoder
    | NullReference      // a method called on a null reference

  datatype Result<+T> = Ok(value: T) | Err(error: Error) {

    predicate IsFailure() {
      Err?
    }

    function PropagateFailure<U>(): Result<U>
      requires Err?
    {
      Err(error)
    }

    function Extract(): T
      requires Ok?
    {
      value
    }
  }
}
