/** An optional value, shared by the discovery and acquisition modules. */
module Options {
  datatype Option<T> = None | Some(value: T)
}
