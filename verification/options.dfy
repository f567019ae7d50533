/** The optional value returned by every pattern matcher of the converter. */
module Options {

  /** A regular-expression match that either failed (`None`) or captured a value. */
  datatype Option<+T> = None | Some(value: T)
}
