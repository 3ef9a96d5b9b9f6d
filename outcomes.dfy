/** The failure values of the model: Python's optional value, the exceptions the
    program lets escape, and results that carry either a value or such an exception. */
module Outcomes {

  datatype Option<+T> = None | Some(value: T)

  /** The exceptions stack.py can raise on the paths this model covers. */
  datatype Error =
    | IndexError      // subscript past the end of a list
    | KeyError        // missing dictionary key or header keyword
    | TypeError       // subscript of None, or arithmetic on a string
    | AttributeError  // `.groups()` on a failed regular-expression match
    | FileNotFound    // opening a sidecar file that does not exist

  datatype Result<+T> = Ok(value: T) | Err(error: Error)

  /** The result of a procedure that returns nothing when it succeeds. */
  datatype Outcome = Pass | Fail(error: Error)
}
