/** Types shared by every module of the model. */
module Basics {

  datatype Option<+T> = None | Some(value: T)

  datatype Result<+T, +E> = Ok(value: T) | Err(error: E)

  // A Go string or []byte is a sequence of bytes.
  type Byte = x: int | 0 <= x < 256
  type Bytes = seq<Byte>
}

/** Powers of ten, and facts about division by a variable, which the solver does not find on its own. */
module Arithmetic {

  function Pow10(k: nat): nat { if k == 0 then 1 else 10 * Pow10(k - 1) }

  lemma DivisionIsUnique(x: int, q: int, r: int, m: int)
    requires m >= 1 && 0 <= r < m && x == q * m + r
    ensures x / m == q && x % m == r
  {
    var d := x / m - q;
    assert d * m == r - x % m by {
      assert x == x / m * m + x % m;
      Distribute(x / m, q, m);
    }
    if d >= 1 {
      OrderedProduct(1, d, m);
    } else if d <= -1 {
      OrderedProduct(d, -1, m);
    }
  }

  lemma Distribute(a: int, b: int, m: int)
    ensures (a - b) * m == a * m - b * m
  {
  }

  lemma OrderedProduct(a: int, b: int, m: int)
    requires a <= b && m >= 0
    ensures a * m <= b * m
  {
  }

  // Two-digit numbers in radix `m` compare by the high digit first.
  lemma MixedRadix(a: int, x: int, b: int, y: int, m: int)
    requires 0 <= x < m && 0 <= y < m
    ensures a * m + x < b * m + y <==> a < b || (a == b && x < y)
    ensures a * m + x == b * m + y <==> a == b && x == y
  {
    if a < b {
      OrderedProduct(a + 1, b, m);
    } else if b < a {
      OrderedProduct(b + 1, a, m);
    }
  }
}
