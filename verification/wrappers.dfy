/** Failure-compatible wrappers and the error values the membership code can raise. */
module Wrappers {

  /** A value that may be absent (a C# null or a nullable without a value). */
  datatype Option<+T> = None | Some(value: T) {
    predicate IsFailure() { None? }

    function PropagateFailure<U>(): Option<U>
      requires None?
    {
      None
    }

    function Extract(): T
      requires Some?
    {
      value
    }

    /** The value, or `default` when absent (C#'s `GetValueOrDefault`). */
    function GetValueOrDefault(default: T): T {
      match this
      case Some(v) => v
      case None => default
    }
  }

  /** Either a value or the exception the source would throw. */
  datatype Result<+R, +E> = Success(value: R) | Failure(error: E) {
    predicate IsFailure() { Failure? }

    function PropagateFailure<U>(): Result<U, E>
      requires Failure?
    {
      Failure(error)
    }

    function Extract(): R
      requires Success?
    {
      value
    }
  }

  /** The exceptions raised on the modelled paths. */
  datatype Error =
    | SuspicionLengthMismatch(silos: nat, times: nat)  // OrleansException on a corrupt row
    | InvalidAddress(text: string)                     // FormatException from IPAddress.Parse
    | PortOutOfRange(port: int)                        // ArgumentOutOfRangeException from IPEndPoint
    | InvalidSiloAddress(text: string)                 // failure of SiloAddress.FromParsableString
    | MissingProxyPort                                 // InvalidOperationException from ProxyPort.Value
    | NotImplemented                                   // NotImplementedException
}
