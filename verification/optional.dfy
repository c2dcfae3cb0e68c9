/** A value that may be absent: a null pointer, `npos`, or a Python call
    that raises. */
module Optional {

  datatype Option<T> = None | Some(value: T)
}
