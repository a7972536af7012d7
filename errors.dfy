/** The Java exceptions the modelled code can raise, as values. */
module Errors {

  datatype JavaError =
    | IndexOutOfBounds  // `List.subList` or an array index past the end
    | NoSuchElement     // `Collections.max` of an empty collection
    | NullPointer       // unboxing a missing map entry
    | ClassCast         // a downcast to the wrong context class
    | IllegalArgument   // `String.repeat` with a negative count

  datatype Result<T> = Ok(value: T) | Err(error: JavaError)
}
