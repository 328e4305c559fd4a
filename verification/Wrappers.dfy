/** What several of the models share: optional values, results of operations that may throw, magnitudes. */
module Wrappers {

  datatype Option<+T> = None | Some(value: T)

  datatype Result<+T, +E> = Ok(value: T) | Err(error: E)

  function Abs(x: real): real {
    if x < 0.0 then -x else x
  }

  function Magnitude(a: int): nat {
    if a < 0 then -a else a
  }
}
