/** The optional value used for an absent form field and a missing file. */
module Options {

  datatype Option<T> = None | Some(value: T)
}
