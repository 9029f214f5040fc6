/** The Java `null` of an optional argument or result, made explicit. */
module Optional {

  /** `None` stands for a Java `null` reference, `Some(v)` for a present value. */
  datatype Option<+T> = None | Some(value: T)
}
