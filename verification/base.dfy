/** Small shared datatypes: optional values and results with an error reason. */
module Base {

  /** An optional value. Also stands for an IEEE float that may be NaN
      (None) where the aligner divides 0 by 0. */
  datatype Option<T> = None | Some(value: T)

  /** A computation that either succeeds or stops with an error message. */
  datatype Result<T> = Ok(value: T) | Err(reason: string)

  function MaxNat(x: nat, y: nat): nat
  {
    if x < y then y else x
  }

  function MaxReal(x: real, y: real): real
  {
    if x < y then y else x
  }

  function AbsReal(x: real): real
  {
    if x < 0.0 then -x else x
  }

  /** A ratio of a non-negative value to a larger positive one lies in [0,1],
      and is 1 exactly when the two are equal. */
  lemma RatioAtMostOne(n: real, d: real)
    requires 0.0 <= n <= d && d > 0.0
    ensures 0.0 <= n / d <= 1.0
    ensures n / d == 1.0 <==> n == d
  {
  }
}
