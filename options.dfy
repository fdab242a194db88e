/** The optional value used wherever the Java code passes or returns a possibly-null reference. */
module Options {

  datatype Option<+T> = None | Some(value: T)
}
