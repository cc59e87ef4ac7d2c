/** Facts about products and quotients that the address calculations need. */
module Arithmetic {
  /** Words, sizes and addresses have 32 bits. */
  const WORD_MODULUS: nat := 0x1_0000_0000

  lemma MulMonotone(a: nat, b: nat, d: nat)
    requires a <= b
    ensures a * d <= b * d
  {
  }

  lemma MulNext(a: nat, d: nat)
    ensures (a + 1) * d == a * d + d
  {
  }

  lemma MulGap(a: nat, b: nat, d: nat)
    requires a < b
    ensures a * d + d <= b * d
  {
    MulMonotone(a + 1, b, d);
  }

  /** Two decompositions of one number agree when their remainders are less than d apart. */
  lemma DigitsUnique(q: nat, q': nat, r: nat, r': nat, d: nat)
    requires q * d + r == q' * d + r' && r < r' + d && r' < r + d
    ensures q == q' && r == r'
  {
    if q < q' {
      MulGap(q, q', d);
    } else if q' < q {
      MulGap(q', q, d);
    }
  }

  lemma MulCancel(a: nat, b: nat, d: nat)
    requires a * d < b * d
    ensures a < b
  {
    if b <= a {
      MulMonotone(b, a, d);
    }
  }

  lemma QuotientBound(a: nat, d: nat, n: nat)
    requires d > 0 && a < n * d
    ensures a / d < n
  {
    assert a / d * d <= a;
    MulCancel(a / d, n, d);
  }

  lemma ModOfMultiple(q: nat, d: nat)
    requires d > 0
    ensures (q * d) % d == 0 && (q * d) / d == q
  {
    DigitsUnique((q * d) / d, q, (q * d) % d, 0, d);
  }
}
