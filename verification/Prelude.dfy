/** Notions shared by the other modules. */
module Prelude {
  datatype Option<+T> = None | Some(value: T)

  function Max(a: nat, b: nat): nat {
    if a < b then b else a
  }
}
