/** Values that several components share. */
module Common {

  datatype Option<+T> = None | Some(value: T)

  /** A C string, as a value of its own. */
  datatype Str = Str(text: string)
}
