/** An optional value: JavaScript's `null`/`undefined` beside a present one. */
module Optional {

  datatype Option<+T> = None | Some(value: T)
}
