/**
  Values that may be absent, and the smaller of two numbers.
 */
module Options {
  datatype Option<T> = None | Some(value: T)

  function Min(a: nat, b: nat): nat {
    if a < b then a else b
  }
}
