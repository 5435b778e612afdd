/** Types, functions and a fact about lists that several modules share. */
module Basics {
  /** The usual optional value; stands for a pointer that may be NULL. */
  datatype Option<+T> = None | Some(value: T)

  /** A value, or the positive number of an errno. */
  datatype Result<+T> = Ok(value: T) | Err(errno: nat)

  /** A byte where only its value counts. */
  type Octet = b: nat | b < 256

  function Min(a: nat, b: nat): nat { if a <= b then a else b }

  function Max(a: nat, b: nat): nat { if a >= b then a else b }

  lemma Regroup<T>(a: seq<T>, b: seq<T>, c: seq<T>)
    ensures a + b + c == a + (b + c)
  {}
}
