/** Facts about division that the solver needs spelled out. */
module Arithmetic {

  /** A number has one quotient and one remainder. */
  lemma QuotientUnique(q: nat, r: nat, q': nat, r': nat, c: nat)
    requires r < c && r' < c && q * c + r == q' * c + r'
    ensures q == q' && r == r'
  {
    if q < q' {
      MulGap(q, q', c);
    } else if q' < q {
      MulGap(q', q, c);
    }
  }

  lemma MulGap(a: nat, b: nat, c: nat)
    requires a < b
    ensures a * c + c <= b * c
  {
    assert (a + 1) * c <= b * c;
  }
}
