/** The optional-value wrapper used for absent rows, JSON keys and session fields. */
module Optional {

  datatype Option<T> = None | Some(value: T)
}
