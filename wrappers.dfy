/** Option and Result, and the failures the metric functions can end in. */
module Wrappers {

  datatype Option<+T> = None | Some(value: T)

  datatype Result<+R, +E> = Ok(value: R) | Err(error: E)

  /** How a metric computation can fail. Each constructor but the last is the
      Python exception `metrics.py` raises at that point; the last is the
      explicit failure that replaces a silent NaN/inf. */
  datatype Failure =
    | AttributeError     // a method called on `None` (the first frame could not be read)
    | IndexError         // an index past the end of a list
    | KeyError           // a sample width with no struct format
    | ValueError         // `max` of an empty sequence, or arrays that do not broadcast
    | ZeroDivisionError  // integer division by a zero frame count
    | ZeroPeak           // peak normalisation of a sequence whose maximum is 0
}
