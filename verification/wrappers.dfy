/** What several of the models share. */
module Wrappers {

  datatype Option<T> = None | Some(value: T) {
    function UnwrapOr(other: T): T {
      match this
      case None => other
      case Some(v) => v
    }
  }

  /** tolower on ASCII letters. */
  function LowerChar(c: char): char {
    if 'A' <= c <= 'Z' then (c as int + 32) as char else c
  }
}
