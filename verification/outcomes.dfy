/** Result of a computation in the compiler: a value, the parser's recoverable error
    message, or a Rust panic (an abort the caller cannot recover from). */
module Outcomes {

  /** Where a panic is raised. */
  datatype PanicSite =
    | UnexpectedOp       // operator where a character class is expected
    | SliceOutOfRange    // `&remain[1..]` on the empty remainder after a group
    | PopEmpty           // `stack.pop().unwrap()` on an empty fragment stack
    | UnhandledOp        // a parenthesis operator reaching the NFA builder
    | StackHeight        // more or fewer than one fragment left after building
    | NoTransition       // the matcher finds no edge for an input character

  datatype Outcome<+T> = Ok(value: T) | Err(msg: string) | Panic(site: PanicSite) {

    predicate IsFailure() {
      !Ok?
    }

    function PropagateFailure<U>(): Outcome<U>
      requires !Ok?
    {
      if Err? then Err(msg) else Panic(site)
    }

    function Extract(): T
      requires Ok?
    {
      value
    }
  }

  datatype Option<+T> = None | Some(value: T)
}
