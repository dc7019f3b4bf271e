/** Shared helpers: an optional value, distinctness, absolute value,
    maxima and powers over `real`, and the repeat-until search of the
    `while True` loops. */
module Common {

  datatype Option<+T> = None | Some(value: T)

  predicate Distinct<T(==)>(xs: seq<T>) {
    forall i, j :: 0 <= i < j < |xs| ==> xs[i] != xs[j]
  }

  function Abs(x: real): real {
    if x < 0.0 then -x else x
  }

  /** Python's two-argument `max(a, b)`: keeps `a` unless `b` is strictly larger. */
  function Max(a: real, b: real): (m: real)
    ensures a <= m && b <= m
    ensures m == a || m == b
  {
    if b > a then b else a
  }

  /** A position below `n` is its own remainder modulo `n`. */
  lemma ModBelow(p: nat, n: nat)
    requires p < n
    ensures p % n == p
  {
  }

  function Pow(x: real, n: nat): real {
    if n == 0 then 1.0 else x * Pow(x, n - 1)
  }

  /** A `while True` loop that repeats a sweep until the sweep's largest
      change drops below `theta`, as the number of sweeps it runs: after
      `k` sweeps it sweeps once more, and stops when that sweep's change
      `delta(k)` is below `theta`. `fuel` bounds the number of further
      sweeps, and `None` reports that it ran out first. */
  function SweepsUntil(delta: nat -> real, theta: real, k: nat, fuel: nat): (r: Option<nat>)
    ensures r.Some? ==> k < r.value <= k + fuel && delta(r.value - 1) < theta
    ensures r.Some? ==> forall i :: k <= i < r.value - 1 ==> delta(i) >= theta
    ensures r.None? ==> forall i :: k <= i < k + fuel ==> delta(i) >= theta
    decreases fuel
  {
    if fuel == 0 then None
    else if delta(k) < theta then Some(k + 1)
    else SweepsUntil(delta, theta, k + 1, fuel - 1)
  }
}
