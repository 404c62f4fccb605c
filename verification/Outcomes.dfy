/** The two outcome types every module shares: a value that may be missing, and a call that may fail. */
module Outcomes {
  datatype Option<+T> = None | Some(value: T)

  datatype Result<+T, +E> = Ok(value: T) | Err(error: E)

  newtype byte = b: int | 0 <= b < 256

  type Bytes = seq<byte>

  // Whether one read or write fails: at any time, unless the host can be relied on.
  method Fault(reliable: bool) returns (fails: bool)
    ensures reliable ==> !fails
  {
    fails := false;
    if !reliable {
      fails := *;
    }
  }
}
