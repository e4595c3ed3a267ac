/** The optional value used wherever the C code passes a pointer that may be NULL. */
module Options {

  datatype Option<+T> = None | Some(value: T)

}
