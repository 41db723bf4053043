/** Multiples of an alignment. */
module Alignment {

  /** The least multiple of the alignment from value on; an alignment of 0 counts as 1. */
  function Ceiling(value: nat, alignment: nat): nat {
    if alignment <= 1 || value % alignment == 0 then value else value + (alignment - value % alignment)
  }

  predicate Aligned(p: nat, a: nat) {
    a <= 1 || p % a == 0
  }

  lemma {:induction false} ScaledOrder(a: nat, p: int, q: int)
    requires p < q
    ensures a * p + a <= a * q
    decreases q - p
  {
    assert a * q == a * (q - 1) + a;
    if p == q - 1 {
    } else {
      ScaledOrder(a, p, q - 1);
    }
  }

  /** Quotient and remainder are the only ones. */
  lemma QuotientIs(x: int, a: nat, q: int, r: nat)
    requires a > 0 && r < a && x == a * q + r
    ensures x / a == q && x % a == r
  {
    assert x == a * (x / a) + x % a;
    if q < x / a {
      ScaledOrder(a, q, x / a);
    } else if x / a < q {
      ScaledOrder(a, x / a, q);
    }
  }

  lemma MultipleIsAligned(q: int, a: nat)
    requires a > 0
    ensures a * q % a == 0
  {
    QuotientIs(a * q, a, q, 0);
  }

  lemma CeilingIsAligned(value: nat, a: nat)
    ensures Aligned(Ceiling(value, a), a) && value <= Ceiling(value, a)
    ensures a > 0 ==> Ceiling(value, a) < value + a
  {
    if a > 1 && value % a != 0 {
      var q := value / a;
      assert value + (a - value % a) == a * (q + 1);
      MultipleIsAligned(q + 1, a);
    }
  }

  /** It is aligned, not before value, and no later than any aligned place that is not before value. */
  lemma CeilingIsLeast(value: nat, a: nat, p: nat)
    ensures Aligned(Ceiling(value, a), a) && value <= Ceiling(value, a)
    ensures Aligned(p, a) && value <= p ==> Ceiling(value, a) <= p
  {
    CeilingIsAligned(value, a);
    if a > 1 && value % a != 0 && p % a == 0 && value <= p {
      var q := value / a;
      assert value == a * q + value % a && p == a * (p / a);
      if p / a < q {
        ScaledOrder(a, p / a, q);
      } else if q < p / a {
        ScaledOrder(a, q, p / a);
      }
    }
  }
}
