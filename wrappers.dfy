/** The optional value returned where the bot's Python code returns None or raises. */
module Wrappers {

  datatype Option<+T> = None | Some(value: T)
}
