/** Small value types shared by the rest of the model. */
module Basics {

  /** Python's `None` or a present value. */
  datatype Option<T> = None | Some(value: T)

  /** A computation that either produced a value or raised an error. */
  datatype Result<T, E> = Success(value: T) | Failure(error: E)

  /** The right-hand operand of a Python `__eq__`: either an instance of the
      class being compared, or an object of some other type. */
  datatype Operand<T> = Instance(obj: T) | OtherType
}
