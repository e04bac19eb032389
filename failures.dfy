/** The ways an estimate can fail, and the result type that carries them. */
module Failures {

  /** Why an estimator produced no velocity. */
  datatype Error =
    | EmptySignal            // a probe signal has no samples: the correlation and its maximum are undefined
    | ZeroSamplingRate       // the lag cannot be turned into a time delay
    | ZeroLag                // the correlation peaks at lag 0: the time delay is 0
    | InsufficientCoherence  // no frequency bin reaches the coherence threshold
    | DegenerateFit          // fewer than two distinct frequencies in the fit range
    | ZeroSlope              // the fitted phase slope is 0

  datatype Result<T> = Ok(value: T) | Err(error: Error)

  datatype Option<T> = None | Some(value: T)
}
