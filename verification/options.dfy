/** An optional value: JavaScript's `null`/`undefined` beside a present value. */
module Options {

  datatype Option<+T> = None | Some(value: T)
}
