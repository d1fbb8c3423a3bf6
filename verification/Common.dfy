/** Types shared by all modules. */
module Common {

  datatype Option<+T> = None | Some(value: T)

  /** A result, a returned error, a run-time panic, or a random draw still outstanding. */
  datatype Outcome<+T> = Ok(value: T) | Error | Panic | Drawing

  const TWO_TO_THE_63: int := 0x8000_0000_0000_0000

  type Int64 = x: int | -0x8000_0000_0000_0000 <= x < 0x8000_0000_0000_0000

  /** The outcome of a verification. */
  datatype Verdict = Accept | Reject | Panics
}
