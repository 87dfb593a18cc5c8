/** The optional value used wherever the application reads a row that may be
    absent (`.first()`, a missing profile, a missing form field). */
module Optional {

  datatype Option<T> = None | Some(value: T)
}
