/** Result and error types shared by the model. The error kinds are the `anyhow!` errors that
    src/lib.rs raises, plus the two outcomes the model makes explicit (a panic, a spent fuel bound). */
module Errors {

  datatype Option<T> = None | Some(value: T)

  datatype Error =
    | LocationNotFound     // "Location '..' not found in locations list"
    | InvalidHex           // "Invalid hex in semiprime"
    | ChallengeIdMismatch  // "Challenge ID mismatch"
    | FactorizationFailed  // "Failed to factor the semiprime"
    | NoSemiprimes         // `index % semiprimes.len()` with no semiprimes: the source panics
    | IterationLimit       // Pollard's rho ran out of its fuel bound: the source keeps looping

  datatype Result<T> = Ok(value: T) | Err(error: Error)
}
