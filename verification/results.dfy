/** Failure-compatible wrappers shared by every module of the model.
    A Java exception thrown by the modelled code becomes a `Failure` carrying
    an `Exception` that names the Java exception class it stands for. */
module Results {

  datatype Option<+T> = None | Some(value: T) {
    function GetOr(default: T): T {
      match this
      case Some(v) => v
      case None => default
    }
  }

  /** The Java exceptions the modelled code can raise, plus `OutOfFuel` for
      the evaluation bound that the model adds. */
  datatype Exception =
    | NoSuchElement(message: string)      // java.util.NoSuchElementException
    | IndexOutOfBounds                    // IndexOutOfBounds / StringIndexOutOfBounds
    | NumberFormat(text: string)          // NumberFormatException from Integer.parseInt
    | IllegalArgument                     // e.g. appendCodePoint of a negative code point
    | Unrepresentable                     // a lone UTF-16 surrogate, not a Dafny char
    | NullPointer                         // a missing JSON member dereferenced
    | ClassCast                           // a JSON member of the wrong kind
    | UnsupportedOperation                // e.g. getAsString on a JSON object
    | IllegalState(message: string)       // e.g. a duplicate key in Collectors.toMap
    | DateTimeParse(text: string)         // Instant.parse rejected its text
    | Arithmetic(message: string)         // division by zero
    | OutOfFuel

  datatype Result<+T> = Success(value: T) | Failure(error: Exception) {
    predicate IsFailure() {
      Failure?
    }

    function PropagateFailure<U>(): Result<U>
      requires Failure?
    {
      Failure(error)
    }

    function Extract(): T
      requires Success?
    {
      value
    }
  }
}
