// What all components share.

module Basics {

  // The source's null pointers and failed calls.
  datatype Option<+T> = None | Some(value: T) {
    function GetOr(default: T): T {
      if Some? then value else default
    }
  }

  // One for a condition that holds, to count with.
  function B(b: bool): nat {
    if b then 1 else 0
  }
}
