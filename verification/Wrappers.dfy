/** Optional values, results of operations that may fail, the smaller of two numbers, and facts about lists used everywhere. */
module Wrappers {
  datatype Option<+T> = None | Some(value: T)

  datatype Result<+T, +E> = Success(value: T) | Failure(error: E) {
    predicate IsFailure() {
      Failure?
    }

    function PropagateFailure<U>(): Result<U, E>
      requires Failure?
    {
      Failure(error)
    }

    function Extract(): T
      requires Success?
    {
      value
    }
  }

  function Min(a: nat, b: nat): nat {
    if a <= b then a else b
  }

  lemma {:induction false} Associates<T>(a: seq<T>, b: seq<T>, c: seq<T>)
    ensures (a + b) + c == a + (b + c)
  {
  }

  /** A prefix of a concatenation ends in the first part or in the second. */
  lemma {:induction false} CutConcat<T>(a: seq<T>, b: seq<T>, k: nat)
    requires k <= |a| + |b|
    ensures k <= |a| ==> (a + b)[..k] == a[..k]
    ensures k >= |a| ==> (a + b)[..k] == a + b[..k - |a|]
  {
  }
}
