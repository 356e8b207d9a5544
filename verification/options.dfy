/** An optional value, used for JavaScript values that may be `undefined`. */
module Options {

  datatype Option<+T> = None | Some(value: T)
}
