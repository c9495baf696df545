/** Option and Result types shared by the whole model. */
module Wrappers {

  /** Python's `None` or a present value. */
  datatype Option<+T> = None | Some(value: T)

  /** The Python exceptions that the scrapers let escape. */
  datatype Fault =
    | AttributeError  // an attribute or method looked up on `None`
    | TypeError       // iterating over `None`
    | ValueError      // `int()` on text that is not a decimal integer

  /** The outcome of an operation that either returns a value or raises. */
  datatype Result<+T> = Ok(value: T) | Fail(fault: Fault)
}
