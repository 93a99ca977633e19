/** An explicit "absent" marker, used where the source has `undefined`. */
module Options {

  datatype Option<+T> = None | Some(value: T)
}
