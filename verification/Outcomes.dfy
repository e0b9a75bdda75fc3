/** How a call ends, and what may be absent. */
module Outcomes {
  datatype Outcome<+T> = Ok(value: T) | Throws

  datatype Option<+T> = Some(value: T) | None
}
