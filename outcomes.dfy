/** The exceptions a synthesis run can raise, and a failure-compatible result type.
    Every exception in `generate_tf.py` is fatal: it ends the run before `main.tf` is written. */
module Outcomes {

  datatype Error =
    | KeyError(key: string)        // a dictionary lookup or `del` of a missing key
    | IndexError                   // `[0]` on an empty match list, `split(...)[3]` on a short path
    | TypeError                    // indexing a non-dictionary, `+` on a non-string, iterating a scalar
    | AttributeError               // `.replace` on a value that is not a string
    | ValueError                   // `key, value = line.split(" = ")` with more than two parts
    | Ambiguous(what: string)      // `raise Exception("Too much ... found")`
    | NotModelled                  // formatting a list or dictionary with `str()`

  datatype Option<+T> = None | Some(value: T)

  datatype Result<+T> = Ok(value: T) | Err(error: Error) {
    predicate IsFailure() { Err? }

    function PropagateFailure<U>(): Result<U>
      requires Err?
    {
      Err(error)
    }

    function Extract(): T
      requires Ok?
    {
      value
    }
  }

  /** What a state-changing step reports. */
  datatype Status = Done | Failed(error: Error)
}
