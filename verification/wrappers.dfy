/** Option and Result types shared by every layer of the state backend, and the
    error taxonomy the backend operations can report. */
module Wrappers {

  datatype Option<+T> = None | Some(value: T)

  /** The ways a state-backend call can fail.
      - Deserialization: stored bytes that the value codec cannot decode;
      - Unimplemented: an operation whose body is `unimplemented!()`;
      - Panic: a Rust panic on the call path (an `expect` on a missing value);
      - InvalidArgument: an argument the operation rejects (used only by the
        corrected prefix deletion). */
  datatype Error = Deserialization | Unimplemented | Panic | InvalidArgument

  datatype Result<+R> = Ok(value: R) | Err(error: Error)

  /** The outcome of a call on a stateful backend: what it returned, and the
      backend state afterwards (which may have changed even when the call
      failed part-way). */
  datatype Step<+R, S> = Step(result: Result<R>, state: S)
}
