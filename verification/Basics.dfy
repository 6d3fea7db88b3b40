/** Types shared by every module: options, results, bytes and nibbles. */
module Basics {

  datatype Option<+T> = None | Some(value: T) {
    predicate IsFailure() {
      None?
    }

    function PropagateFailure<U>(): Option<U>
      requires None?
    {
      None
    }

    function Extract(): T
      requires Some?
    {
      value
    }
  }

  /** `Err` stands for a raised exception; `error` says which `raise` it was. */
  datatype Result<+T, +E> = Ok(value: T) | Err(error: E) {
    predicate IsFailure() {
      Err?
    }

    function PropagateFailure<U>(): Result<U, E>
      requires Err?
    {
      Err(error)
    }

    function Extract(): T
      requires Ok?
    {
      value
    }
  }

  type Byte = b: int | 0 <= b < 256

  type Nibble = n: int | 0 <= n < 16

  type Bytes = seq<Byte>

  /** `bytes(n)`. */
  function Zeros(n: nat): (b: Bytes)
    ensures |b| == n && forall i :: 0 <= i < n ==> b[i] == 0
  {
    if n == 0 then [] else Zeros(n - 1) + [0]
  }

  /** A 32-byte hash value. */
  type Digest = b: Bytes | |b| == 32 witness seq(32, _ => 0)

  /** A hash function such as keccak; nothing else is assumed about it. */
  type Hash = Bytes -> Digest
}
