/** The optional value the game uses where JavaScript has `null` or `undefined`. */
module Wrappers {

  datatype Option<+T> = None | Some(value: T)
}
