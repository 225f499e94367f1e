/** Option, Result, and the errors the library and its stream adapters report. */
module Failures {
  datatype Option<+T> = None | Some(value: T)

  datatype Result<+T, +E> = Ok(value: T) | Err(error: E) {
    predicate IsFailure() {
      Err?
    }

    function PropagateFailure<U>(): Result<U, E>
      requires Err?
    {
      Err(error)
    }

    function Extract(): T
      requires Ok?
    {
      value
    }
  }

  datatype LengthRequirement =
    | Exactly(length: nat)
    | AtLeast(length: nat)
    | AtMost(length: nat)
    | Between(minimum: nat, maximum: nat)

  datatype Error =
    | InvalidParameters
    | InvalidSegmentLength(actual: nat)
    | InvalidPlaintextLength(actual: nat, required: LengthRequirement)
    | InvalidHeaderLength(actual: nat)
    | InvalidHeaderParameters
    | InvalidHeaderTag
    | InvalidCiphertextLength(actual: nat, required: LengthRequirement)
    | InvalidSegmentPrefix
    | AuthenticationFailed
    | Closed
    | Truncated
    | SegmentLimit
    | OutputTooSmall(actual: nat, needed: nat)
    | InvalidBufferState
    | LengthOverflow
    | RngFailure
    | CryptoFailure

  /** What a stream adapter reports: a failure of the wrapped object, a library error, or misuse. */
  datatype IoError =
    | Device
    | Floe(cause: Error)
    | Poisoned
    | AlreadyFinished
    | TrailingData
    | InvalidInput

  type Outcome<+T> = Result<T, Error>
  type IoResult<+T> = Result<T, IoError>

  function Lift<T>(r: Outcome<T>): (io: IoResult<T>)
  {
    match r
    case Ok(value) => Ok(value)
    case Err(error) => Err(Floe(error))
  }
}
