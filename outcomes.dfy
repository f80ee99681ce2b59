/** Failure values for the places where the Python code raises. */
module Outcomes {

  /** The exception the Python code raises, by class. */
  datatype Error =
    | IndexError      // a list or string subscript out of range
    | KeyError        // a dict lookup of a missing key
    | ValueError      // a failed unpacking, an int() conversion, an empty module name
    | NameError       // a reference to an undefined name
    | AttributeError  // a read of an attribute that was never set
    | TypeError       // a subscript assignment on a value that is not a dict
    | ImportError     // `importlib.import_module` of a module that cannot be imported
    | GitError        // the git library's failure to open a repository or read its head
    | FileNotFound(path: string)

  datatype Result<+T> = Ok(value: T) | Err(error: Error) {
    predicate IsFailure() { Err? }

    function PropagateFailure<U>(): Result<U>
      requires Err?
    {
      Err(error)
    }

    function Extract(): T
      requires Ok?
    {
      value
    }
  }

  datatype Option<+T> = None | Some(value: T)
}
