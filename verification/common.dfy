/** Shared vocabulary: optional values, bytes, colour triples and integer clamping. */
module Common {

  /** A value that may be missing, standing for Python's `None` and C's error returns. */
  datatype Option<T> = None | Some(value: T)

  /** An unsigned 8-bit quantity (`unsigned char`, a `bytes` element, a numpy `uint8`). */
  type Byte = x: int | 0 <= x < 256

  /** An (r, g, b) colour triple as the Python helpers pass them around. */
  datatype Rgb = Rgb(r: int, g: int, b: int)

  const Off: Rgb := Rgb(0, 0, 0)

  predicate IsByte(x: int) {
    0 <= x < 256
  }

  predicate IsColour(c: Rgb) {
    IsByte(c.r) && IsByte(c.g) && IsByte(c.b)
  }

  function Min(a: int, b: int): int {
    if a <= b then a else b
  }

  function Max(a: int, b: int): int {
    if a >= b then a else b
  }

  /** `max(lo, min(hi, x))`, the clamp idiom every source file writes out by hand. */
  function Clamp(lo: int, hi: int, x: int): (r: int)
    requires lo <= hi
    ensures lo <= r <= hi
    ensures lo <= x <= hi ==> r == x
    ensures x < lo ==> r == lo
    ensures x > hi ==> r == hi
  {
    Max(lo, Min(hi, x))
  }

  /** Euclidean division has one quotient and one remainder. */
  lemma DivModUnique(x: int, m: int, q: int, r: int)
    requires m > 0 && x == m * q + r && 0 <= r < m
    ensures x / m == q && x % m == r
  {
    var q', r' := x / m, x % m;
    assert x == m * q' + r';
    if q > q' {
      MulAtLeast(m, q - q');
    } else if q < q' {
      MulAtLeast(m, q' - q);
    }
  }

  lemma MulAtLeast(m: int, d: int)
    requires m > 0 && d >= 1
    ensures m * d >= m
  {
  }
}
