/** Failure-compatible result types standing in for Rust's `Option` and
    `anyhow::Result`. An error carries the message the source attaches. */
module Results {

  datatype Option<+T> = None | Some(value: T) {
    function GetOr(default: T): T {
      match this
      case Some(v) => v
      case None => default
    }
  }

  datatype Result<+T> = Ok(value: T) | Err(error: string) {
    predicate IsFailure() {
      Err?
    }

    function PropagateFailure<U>(): Result<U>
      requires Err?
    {
      Err(error)
    }

    function Extract(): T
      requires Ok?
    {
      value
    }
  }

  /** `Result<()>`: success carries no value. */
  datatype Outcome = Pass | Fail(error: string)
}
