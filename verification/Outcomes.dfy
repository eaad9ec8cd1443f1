/** Results shared by the modelled components. */
module Outcomes {

  datatype Option<+T> = Some(value: T) | None

  /** A value, or the exception the source throws instead. */
  datatype Result<+T> = Ok(value: T) | Thrown

  type byte = b: int | 0 <= b < 256
}
