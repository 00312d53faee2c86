/** The one optional-value type of the project. */
module Optional {
  datatype Option<T> = None | Some(value: T)
}
