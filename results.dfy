/** The exceptions the modelled code raises, turned into values. */
module Results {
  /** `ForceUnwrapError` is raised by `Nothing.unwrap`; `IndexError` by the
      `parent_idx` of a tree root. */
  datatype Error = ForceUnwrapError | IndexError(reason: string)

  /** Either the value an operation returns or the exception it raises. */
  datatype Result<+T> = Ok(value: T) | Raise(error: Error)
}
