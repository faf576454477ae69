/** An optional value: Java's nullable references and `Optional`. */
module Wrappers {

  datatype Option<+T> = None | Some(value: T)
}
