/** Types shared by the models. */
module Prelude {

  datatype Option<+T> = None | Some(value: T)

  /** A word of w bits read as a number: arithmetic on it is modulo 2^w. */
  const POW8: nat := 0x100
  const POW16: nat := 0x1_0000
  const POW24: nat := 0x100_0000
  const POW32: nat := 0x1_0000_0000
  const POW40: nat := 0x100_0000_0000
  const POW64: nat := 0x1_0000_0000_0000_0000

  lemma MulMono(a: nat, b: nat, n: nat)
    requires a <= b
    ensures a * n <= b * n
  {
  }

  /** Quotient and remainder are determined by their defining equation. */
  lemma QuotientIs(x: nat, n: nat, q: nat, r: nat)
    requires r < n && x == q * n + r
    ensures x / n == q && x % n == r
  {
    var p := x / n;
    assert p * n + x % n == x;
    if p < q {
      MulMono(p + 1, q, n);
      assert false;
    } else if q < p {
      MulMono(q + 1, p, n);
      assert false;
    }
  }

  /** Numbers less than n apart have different remainders. */
  lemma ApartMod(x: nat, d: nat, n: nat)
    requires 0 < d < n
    ensures x % n != (x + d) % n
  {
    var q := x / n;
    assert x == q * n + x % n;
    if x % n + d < n {
      QuotientIs(x + d, n, q, x % n + d);
    } else {
      assert (q + 1) * n == q * n + n;
      QuotientIs(x + d, n, q + 1, x % n + d - n);
    }
  }

  // Facts about reductions, with the moduli as numerals: the solver divides by those without search.

  lemma Sum64(x: int, y: int)
    ensures (x % 0x1_0000_0000_0000_0000 + y) % 0x1_0000_0000_0000_0000 == (x + y) % 0x1_0000_0000_0000_0000
  {
  }

  lemma Sum40(x: int, y: int)
    ensures (x % 0x100_0000_0000 + y) % 0x100_0000_0000 == (x + y) % 0x100_0000_0000
  {
  }

  lemma Low40(x: int)
    ensures x % 0x1_0000_0000_0000_0000 % 0x100_0000_0000 == x % 0x100_0000_0000
  {
  }

  lemma Low9(x: int)
    ensures x % 0x1_0000_0000_0000_0000 % 512 == x % 512
  {
  }

  /** Numbers in range that reduce alike after the same offset are equal. */
  lemma Cancel64(x: int, u: nat, v: nat)
    requires u < 0x1_0000_0000_0000_0000 && v < 0x1_0000_0000_0000_0000
    requires (x + u) % 0x1_0000_0000_0000_0000 == (x + v) % 0x1_0000_0000_0000_0000
    ensures u == v
  {
  }
}
