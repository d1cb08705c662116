/** Optional values, results and the Python exceptions the modelled code can raise. */
module Outcomes {

  datatype Option<+T> = None | Some(value: T) {
    function GetOr(default: T): T {
      match this
      case Some(v) => v
      case None => default
    }
  }

  /** The exceptions that reach a caller along a modelled path. */
  datatype Error =
    | IndexError          // a sequence index out of range
    | ValueError          // a bad argument (window longer than the data, list.remove of an absent item)
    | TypeError           // arithmetic or comparison on None
    | AttributeError      // a field that the curve kind does not have
    | RuntimeError        // the least-squares solver did not converge
    | UnboundLocalError   // a loop that never ran left its variable unset
    | OtherError          // any other exception from a foreign call

  datatype Result<+T> = Ok(value: T) | Err(error: Error)

  /** What a method that returns nothing in Python ends with: normally, or by raising. */
  datatype Outcome = Done | Raised(error: Error)
}
