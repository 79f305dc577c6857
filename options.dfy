/** The "value or nothing" type: `None` stands for JavaScript's `undefined` result. */
module Options {

  datatype Option<+T> = None | Some(value: T)
}
