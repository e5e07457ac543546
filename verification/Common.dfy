/** Types and arithmetic shared by the kernel models. */
module Common {

  datatype Option<+T> = None | Some(value: T)

  /** A byte of memory, of a file or of a pipe. */
  type Byte = b: int | 0 <= b < 256 witness 0

  function Min(a: int, b: int): (m: int)
    ensures m <= a && m <= b && (m == a || m == b)
  {
    if a < b then a else b
  }

  /** Quotient and remainder are the only pair that fits. */
  lemma ModUnique(x: int, n: nat, q: int, r: nat)
    requires n > 0 && x == q * n + r && r < n
    ensures x % n == r && x / n == q
  {
    var d := x / n - q;
    assert x == (x / n) * n + x % n;
    assert d * n == r - x % n;
    MulBounds(d, n);
  }

  lemma MulBounds(d: int, n: nat)
    ensures d >= 1 ==> d * n >= n
    ensures d <= -1 ==> d * n <= 0 - n
  {
  }
}
