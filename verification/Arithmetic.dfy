/** Minimum and maximum, 64-bit arithmetic, and division with remainder. */
module Arithmetic {

  function Max(a: nat, b: nat): nat {
    if a < b then b else a
  }

  function Min(a: nat, b: nat): nat {
    if a < b then a else b
  }

  function SaturatingSub(a: nat, b: nat): (r: nat)
    ensures r <= a
  {
    if b <= a then a - b else 0
  }

  const U64_MAX: nat := 0xFFFF_FFFF_FFFF_FFFF

  type U64 = n: nat | n <= U64_MAX

  function SaturatingAdd(a: U64, b: U64): U64 {
    if a + b <= U64_MAX then a + b else U64_MAX
  }

  /** A number cut down to 64 bits. */
  function Wrap(n: int): U64 {
    n % (U64_MAX + 1)
  }

  lemma ModUnique(a: nat, q: nat, r: nat, size: nat)
    requires a == q * size + r && r < size
    ensures a % size == r
  {
    var q', r' := a / size, a % size;
    assert a == q' * size + r';
    if q < q' {
      MulGap(q, q', size);
    } else if q' < q {
      MulGap(q', q, size);
    }
  }

  lemma MulGap(a: nat, b: nat, size: nat)
    requires a < b
    ensures a * size + size <= b * size
  {
    assert b * size == a * size + (b - a) * size;
    MulAtLeast(b - a, size);
  }

  /** Dividing by two or more makes a positive number smaller. */
  lemma DivShrinks(n: nat, k: nat)
    requires n > 0 && k >= 2
    ensures n / k < n
  {
    var q := n / k;
    assert n == q * k + n % k;
    assert q * k == q * 2 + q * (k - 2);
  }

  lemma MulMonotone(a: nat, b: nat, k: nat)
    requires a <= b
    ensures a * k <= b * k
  {
    assert b * k == a * k + (b - a) * k;
  }

  lemma MulAtLeast(k: nat, size: nat)
    requires k >= 1
    ensures k * size >= size
  {
    assert k * size == (k - 1) * size + size;
  }
}
