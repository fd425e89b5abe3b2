/** A value that may be absent: `undefined`, a missing response field, or a
    date string that does not parse. */
module Optional {

  datatype Option<+T> = None | Some(value: T)
}
