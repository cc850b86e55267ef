/**
 * Failure-carrying values shared by every module of the hasher model.
 *
 * `Error` lists the outcomes a call can end in other than success:
 * `Hashing` is the error the state machine returns for an event that is not
 * legal in the current state, `Failed` is what a poisoned hasher answers, and
 * `Abort` stands for the places where the Rust code panics instead of
 * returning an error (an `unreachable!()` and an unchecked `usize`
 * subtraction); the model treats a panic as one more terminal outcome.
 */
module Results {

  datatype Option<+T> = None | Some(value: T)

  datatype Error = Hashing | Failed | Abort

  datatype Result<+T> = Ok(value: T) | Err(error: Error)
}
