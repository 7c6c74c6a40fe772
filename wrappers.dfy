/** Small result datatypes shared by the model: Java's null and Java's exceptions made explicit. */
module Wrappers {

  /** `None` stands for a Java `null` reference, `Some(v)` for a present value. */
  datatype Option<+T> = None | Some(value: T)

  /** The exceptions the modelled code can raise by itself. */
  datatype Exception = NullPointerException

  /** What a Java method call ends with: a returned value or a thrown exception. */
  datatype Outcome<+T> = Return(value: T) | Throw(exception: Exception)
}
