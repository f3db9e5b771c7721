/** Small shared vocabulary of the model. */
module Common {

  /** An optional value: a Unity object reference that may be null. */
  datatype Option<T> = None | Some(value: T)
}
