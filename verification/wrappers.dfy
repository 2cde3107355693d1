/** A value that may be absent: a JavaScript `undefined`/`null`, or an omitted argument. */
module Wrappers {

  datatype Option<+T> = None | Some(value: T)
}
