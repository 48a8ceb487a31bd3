/** Optional values and the results of calls that may raise. */
module Wrappers {

  datatype Option<T> = None | Some(value: T)

  /** The result of one external call: its value, or the exception it raised
      (for `subprocess.check_output` and `subprocess.run(..., check=True)`,
      the `CalledProcessError` of a non-zero exit). */
  datatype Result<T> = Ok(value: T) | Err
}
