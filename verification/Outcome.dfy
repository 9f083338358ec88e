/** What a kernel routine comes to: it returns, or it panics and the machine halts there. */
module Outcomes {
  datatype Outcome<+T> = Returned(value: T) | Panicked

  datatype Option<+T> = None | Some(value: T)
}
