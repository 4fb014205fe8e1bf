/** Small wrappers shared by every module of the model. */
module Results {

  /** A Python argument that may be left as `None`. */
  datatype Option<T> = None | Some(value: T) {
    function GetOr(default: T): T {
      if Some? then value else default
    }
  }

  /** The two Python exceptions the elimination can raise on well-shaped input. */
  datatype Fault = ZeroDivision | IndexOutOfRange

  /** The value a computation produces, or the exception that ends it. */
  datatype Result<T> = Ok(value: T) | Err(fault: Fault)

  /** What a state-changing step reports: it ran to the end, or it raised. */
  datatype Outcome = Done | Raised(fault: Fault)

  function Min(a: int, b: int): int { if a <= b then a else b }
  function Max(a: int, b: int): int { if a <= b then b else a }
}
