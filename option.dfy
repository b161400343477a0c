/** The optional value used wherever the script returns `None`. */
module Optional {
  datatype Option<T> = None | Some(value: T)
}
