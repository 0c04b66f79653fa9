/** Results of computations that can panic. */
module Outcomes {
  /** The panics of the corrector: the `expect` on a word missing from the
      model, integer division by a zero total, and the `expect` on a maximum
      of no candidates. */
  datatype Panic = WordNotExistent | DivideByZero | NoGreatest

  datatype Outcome<+T> = Ok(value: T) | Panicked(reason: Panic)
}
