/** An optional value: `None` stands for JavaScript's `null`/`undefined` and
    for a call that threw before producing a value. */
module Wrappers {

  datatype Option<+T> = None | Some(value: T)

}
