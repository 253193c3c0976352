/** What every component uses: optional values and calls that may raise. */
module Basics {

  datatype Option<+T> = None | Some(value: T)

  /** Outcome of a call that may raise an exception. */
  datatype Attempt<+T> = Raised | Returned(value: T)

  lemma Regroup<T>(a: seq<T>, b: seq<T>, c: seq<T>)
    ensures a + (b + c) == a + b + c
  {
  }

  lemma DivideExactly(x: nat, n: nat, q: nat, rest: nat)
    requires rest < n && x == q * n + rest
    ensures x / n == q
  {
    var d := x / n - q;
    assert x == (x / n) * n + x % n;
    assert d * n == rest - x % n;
    AtLeastOnce(d, n);
  }

  lemma AtLeastOnce(d: int, n: nat)
    ensures d > 0 ==> d * n >= n
    ensures d < 0 ==> d * n + n <= 0
  {
  }
}
