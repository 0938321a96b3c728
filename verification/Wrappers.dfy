/**
 A value that may be missing, and the result of a call that may raise.
 */
module Wrappers {

  datatype Option<T> = None | Some(value: T) {
    // This value, or else the other one.
    function Or(other: Option<T>): Option<T> {
      if Some? then this else other
    }
  }

  datatype Result<T> = Ok(value: T) | Err
}

/**
 Powers of two.
 */
module Powers {

  function Pow2(n: nat): (r: nat)
    ensures 0 < r
  {
    if n == 0 then 1 else 2 * Pow2(n - 1)
  }
}
