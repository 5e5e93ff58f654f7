/**
 * The shape every page decoder shares: decode `count` elements in order,
 * stopping at the first element that fails to decode.
 */
module Collecting {
  import opened Wrappers

  /** The results of elements 0 .. count-1 of `f`, in order, or the first failure among them. */
  function Collect<T>(f: nat -> Result<T>, count: nat): Result<seq<T>> {
    if count == 0 then Success([])
    else
      var prefix :- Collect(f, count - 1);
      var last :- f(count - 1);
      Success(prefix + [last])
  }

  /** Collecting one more element after a success appends that element's value. */
  lemma CollectStep<T>(f: nat -> Result<T>, n: nat)
    requires Collect(f, n).Success? && f(n).Success?
    ensures Collect(f, n + 1) == Success(Collect(f, n).value + [f(n).value])
  {
  }

  /** Once collecting fails, collecting more elements fails with the same error. */
  lemma {:induction false} CollectFailurePersists<T>(f: nat -> Result<T>, n: nat, m: nat)
    requires n <= m
    requires Collect(f, n).Failure?
    ensures Collect(f, m) == Collect(f, n)
  {
    if n < m {
      CollectFailurePersists(f, n, m - 1);
    }
  }

  /** When elements before `n` succeed and element `n` fails, collecting any `m > n` elements fails with its error. */
  lemma CollectStopsAt<T>(f: nat -> Result<T>, n: nat, m: nat)
    requires n < m
    requires Collect(f, n).Success? && f(n).Failure?
    ensures Collect(f, m) == Failure(f(n).error)
  {
    assert Collect(f, n + 1) == Failure(f(n).error);
    CollectFailurePersists(f, n + 1, m);
  }

  /** A successful collection holds exactly `count` values, value i being the result of element i. */
  lemma {:induction false} CollectAt<T>(f: nat -> Result<T>, count: nat, i: nat)
    requires Collect(f, count).Success?
    requires i < count
    ensures |Collect(f, count).value| == count
    ensures f(i) == Success(Collect(f, count).value[i])
  {
    if i < count - 1 {
      CollectAt(f, count - 1, i);
    } else if count > 1 {
      CollectAt(f, count - 1, 0);
    }
  }

  /**
   * The first failing element of a failed collection: it fails with the
   * collection's error, and every element before it succeeds.
   */
  lemma {:induction false} CollectFirstFailure<T>(f: nat -> Result<T>, count: nat) returns (i: nat)
    requires Collect(f, count).Failure?
    ensures i < count && f(i) == Failure(Collect(f, count).error)
    ensures forall j :: 0 <= j < i ==> f(j).Success?
  {
    var prefix := Collect(f, count - 1);
    if prefix.Failure? {
      i := CollectFirstFailure(f, count - 1);
    } else {
      i := count - 1;
      forall j | 0 <= j < i
        ensures f(j).Success?
      {
        CollectAt(f, count - 1, j);
      }
    }
  }
}
