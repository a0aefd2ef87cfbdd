/** A value that may be absent: a date that did not parse, a file that could not be read. */
module Optional {

  datatype Option<+T> = None | Some(value: T)
}
