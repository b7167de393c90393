/** Failure-carrying values shared by every module of the model.
    Python code in this repository signals failure in two ways: by returning
    `None` and by letting an exception escape. The first is `Option`, the
    second is `Result`, whose `Raise` case names the exception kind. */
module Wrappers {

  datatype Option<T> = None | Some(value: T)

  /** The built-in Python exceptions the modelled code can let escape. */
  datatype PyError =
    | ValueError      // `int()` of a non-decimal string; `json.loads` of non-JSON text
    | IndexError      // indexing past the end of a `split()` result
    | AttributeError  // `.groups()` on `None`; `.items()` on a non-object
    | OSError         // writing a shard file fails

  datatype Result<T> = Ok(value: T) | Raise(error: PyError)
}
