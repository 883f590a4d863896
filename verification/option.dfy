/** The optional value used wherever the cleaner may find nothing. */
module Optional {

  datatype Option<T> = None | Some(value: T)
}
