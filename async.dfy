/** Shared vocabulary of the poll-driven interface: an optional value and the
    outcome of polling a future once. */
module Async {

  datatype Option<+T> = None | Some(value: T)

  /** The result of polling a future once: not yet ready, or ready with its output. */
  datatype Poll<+T> = Pending | Ready(value: T)
}
