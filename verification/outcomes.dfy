/** Success/failure results used where the C# code would throw. */
module Outcomes {

  datatype Result<+T, +E> = Success(value: T) | Failure(error: E)

}
