/** The optional value returned by lookups: `None` stands for the `null`
    that `find` and `findField` return when nothing matches. */
module Wrappers {

  datatype Option<+T> = None | Some(value: T)

}
