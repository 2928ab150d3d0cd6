/** Outcomes of a call that may panic. Rust's `assert!`, integer underflow, out-of-bounds
    indexing and allocation-size checks abort the call; the model returns the panic site
    instead of a value, so callers and lemmas can talk about exactly when it happens. */
module Panics {

  /** One constructor per panic site of the modelled code. */
  datatype Panic =
    | NoPeaksRequested   // find_peaks: assert!(npeaks > 0)
    | LengthUnderflow    // find_peaks: data.len() - 1 on an empty slice
    | TooFewMaxima       // find_peaks: assert!(npeaks <= local_maxima.len())
    | CapacityOverflow   // string_length: Vec::with_capacity(nsteps as usize)
    | IndexOutOfBounds   // string_length: lc.mag[i] with i >= lc.mag.len()

  datatype Result<T> = Ok(value: T) | Panicked(reason: Panic)
}
