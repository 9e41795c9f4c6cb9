/** Ring-buffer arithmetic: remainders by a variable capacity. */
module Modular {
  lemma MulZero(k: int, size: int)
    requires size > 0 && -size < k * size < size
    ensures k == 0
  {
    assert k >= 1 ==> k * size >= size;
    assert k <= -1 ==> k * size <= -size;
  }

  /** A remainder is determined by any decomposition. */
  lemma ModUnique(x: int, q: int, r: int, size: int)
    requires 0 <= r < size && x == q * size + r
    ensures x % size == r
  {
    var k := x / size - q;
    assert x == size * (x / size) + x % size;
    assert k * size == (x / size) * size - q * size;
    MulZero(k, size);
  }

  /** Stepping on inside a ring either stays below the end or wraps once. */
  lemma ModStep(x: int, i: int, size: int)
    requires size > 0 && 0 <= i <= size
    ensures (x + i) % size == if x % size + i < size then x % size + i else x % size + i - size
  {
    var q, r := x / size, x % size;
    assert x == size * q + r;
    if r + i < size {
      ModUnique(x + i, q, r + i, size);
    } else {
      assert (q + 1) * size == q * size + size;
      ModUnique(x + i, q + 1, r + i - size, size);
    }
  }

  lemma ModBack(x: int, i: int, size: int)
    requires size > 0 && 0 <= i <= size
    ensures (x - i) % size == if x % size >= i then x % size - i else x % size - i + size
  {
    var q, r := x / size, x % size;
    assert x == size * q + r;
    if r >= i {
      ModUnique(x - i, q, r - i, size);
    } else {
      assert (q - 1) * size == q * size - size;
      ModUnique(x - i, q - 1, r - i + size, size);
    }
  }

  lemma ModSmall(x: int, size: int)
    requires 0 <= x < size
    ensures x % size == x
  {
    ModUnique(x, 0, x, size);
  }

  /** Remainders may be taken before subtracting or adding. */
  lemma ModSub(a: int, b: int, size: int)
    requires size > 0
    ensures (a % size - b % size) % size == (a - b) % size
  {
    var d := a % size - b % size;
    var k, y := d / size, d % size;
    assert d == size * k + y && a == size * (a / size) + a % size && b == size * (b / size) + b % size;
    assert a - b == size * (a / size) - size * (b / size) + size * k + y;
    assert (a / size - b / size + k) * size == size * (a / size) - size * (b / size) + size * k;
    ModUnique(a - b, a / size - b / size + k, y, size);
  }

  lemma ModSubRight(a: int, b: int, size: int)
    requires size > 0
    ensures (a - b % size) % size == (a - b) % size
  {
    var k, y := (a - b) / size, (a - b) % size;
    assert a - b == size * k + y && b == size * (b / size) + b % size;
    assert (k + b / size) * size == size * k + size * (b / size);
    ModUnique(a - b % size, k + b / size, y, size);
  }

  lemma ModAddLeft(a: int, g: int, size: int)
    requires size > 0
    ensures (a % size + g) % size == (a + g) % size
  {
    var d := a % size + g;
    var k, y := d / size, d % size;
    assert d == size * k + y && a == size * (a / size) + a % size;
    assert (a / size + k) * size == size * (a / size) + size * k;
    ModUnique(a + g, a / size + k, y, size);
  }
}
