/** Small shared pieces: an optional value, and the uniqueness of integer
    division that the calendar and duration arithmetic lean on. */
module Basics {

  datatype Option<T> = None | Some(value: T)

  /** A number written as `q * k + r` with `0 <= r < k` leaves remainder `r`. */
  lemma RemainderOf(y: int, q: int, k: int, r: int)
    requires 0 <= r < k && y == q * k + r
    ensures y % k == r
  {
    var d := y / k;
    assert (q - d) * k == y % k - r;
    SmallMultiple(q - d, k);
  }

  /** The only multiple of `k` strictly between `-k` and `k` is zero. */
  lemma SmallMultiple(a: int, k: int)
    requires 0 < k && -k < a * k < k
    ensures a == 0
  {
    if a != 0 {
      NonZeroMultiple(a, k);
    }
  }

  lemma NonZeroMultiple(a: int, k: int)
    requires 0 < k && a != 0
    ensures a * k >= k || a * k <= -k
  {
  }
}
