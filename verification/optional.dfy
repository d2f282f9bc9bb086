/** A value that may be missing: the result of a parse or of a run that can fail. */
module Optional {

  datatype Option<+T> = None | Some(value: T)
}
