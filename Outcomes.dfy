/** Error kinds and result wrappers shared by every module of the model.
    Each constructor of Error stands for one .NET exception type that the
    library throws or lets escape. */
module Outcomes {

  datatype Error =
    | ObjectDisposed      // ObjectDisposedException
    | InvalidOperation    // InvalidOperationException (also Queue.Dequeue on an empty queue)
    | DirectoryNotFound   // DirectoryNotFoundException
    | IOFailure           // any exception of File.ReadAllText / File.WriteAllText
    | Argument            // ArgumentException (a timer interval that is not positive)
    | OperationCanceled   // OperationCanceledException

  datatype Option<T> = None | Some(value: T) {
    function GetOr(default: T): T {
      match this
      case Some(v) => v
      case None => default
    }
  }

  datatype Result<T> = Ok(value: T) | Err(error: Error)

  /** The outcome of an operation that returns nothing (a C# void method). */
  datatype Outcome = Done | Fail(error: Error)
}
