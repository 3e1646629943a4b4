/** Values shared by every part of the selector model. */
module Common {

  /** A value that may be absent; `None` stands for a C# `null` reference. */
  datatype Option<+T> = None | Some(value: T)

  /** The exceptions raised on bad arguments: by the widget's own null checks, or by list indexing. */
  datatype Error =
    | ArgumentNull(paramName: string)  // System.ArgumentNullException
    | ArgumentOutOfRange               // an index outside a List<T>

  /** The result of an operation that yields a value or throws. */
  datatype Result<+T> = Ok(value: T) | Err(error: Error)

  /** The result of an operation that returns nothing or throws. */
  datatype Outcome = Done | Failed(error: Error)
}
