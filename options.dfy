/** An optional value, for the reference fields and configuration slots
    that the scripts test against null. */
module Options {

  datatype Option<+T> = None | Some(value: T)
}
