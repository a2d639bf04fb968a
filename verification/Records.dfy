/** What the modules about database rows share. */
module Records {

  /** A UUID, in text form. */
  type Id = string

  datatype Option<T> = None | Some(value: T)
}
