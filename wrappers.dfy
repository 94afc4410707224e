/** Small failure-carrying datatypes shared by every module of the model. */
module Wrappers {

  /** A value or its absence: stands for a C# reference that may be null. */
  datatype Option<+T> = None | Some(value: T)

  /** The .NET exceptions the modelled code can raise. */
  datatype Exception =
    | ArgumentException             // Dictionary.Add on a key that is present, Array.CopyTo past the end
    | ArgumentOutOfRangeException   // an index outside a List or an array
    | InvalidOperationException     // Stack.Peek / Stack.Pop / Queue.Peek on an empty collection
    | NullReferenceException        // a member access through null

  /** Success, or the exception a C# call would have thrown. */
  datatype Outcome = Pass | Fail(error: Exception)

  /** A result, or the exception a C# call would have thrown instead of returning it. */
  datatype Result<+T> = Ok(value: T) | Err(error: Exception)
}
