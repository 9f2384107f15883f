/** Failure-carrying values used in place of the exceptions the C# code throws. */
module Results {

  datatype Option<+T> = None | Some(value: T) {

    /** Converts a missing value into the given error. */
    function ToResult<E>(error: E): Result<T, E> {
      match this
      case Some(v) => Success(v)
      case None => Failure(error)
    }
  }

  /** Either a value or the reason the computation was abandoned; usable with `:-`. */
  datatype Result<+T, +E> = Success(value: T) | Failure(error: E) {

    predicate IsFailure() {
      Failure?
    }

    function PropagateFailure<U>(): Result<U, E>
      requires Failure?
    {
      Failure(error)
    }

    function Extract(): T
      requires Success?
    {
      value
    }
  }
}

/** The fixed-width integers of the C# source, and powers of two. */
module Ints {

  /** C# `byte`. */
  type byte = b: int | 0 <= b < 0x100

  /** C# `ushort`. */
  type u16 = x: int | 0 <= x < 0x1_0000

  function Max(a: int, b: int): int {
    if a < b then b else a
  }

  function Pow2(n: nat): (r: nat)
    ensures r >= 1
  {
    if n == 0 then 1 else 2 * Pow2(n - 1)
  }

  lemma {:induction false} Pow2Add(a: nat, b: nat)
    ensures Pow2(a) * Pow2(b) == Pow2(a + b)
  {
    if a > 0 {
      Pow2Add(a - 1, b);
      assert Pow2(a) * Pow2(b) == 2 * (Pow2(a - 1) * Pow2(b));
    }
  }

  lemma Pow2Sixteen()
    ensures Pow2(8) == 0x100 && Pow2(15) == 0x8000 && Pow2(16) == 0x1_0000
  {
  }

  /** Scaling a strict bound by a positive factor keeps it strict. */
  lemma MulStrict(x: nat, y: nat, p: nat)
    requires x < y && p > 0
    ensures x * p < y * p
  {
  }
}
