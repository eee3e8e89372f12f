/** Facts about products that the solver does not find reliably by itself. */
module Products {

  lemma {:induction false} NonNegative(a: nat, b: nat)
    ensures a * b >= 0
  {
    if a > 0 {
      NonNegative(a - 1, b);
      OneLess(a, b);
    }
  }

  lemma OneLess(a: int, b: int)
    ensures a * b == (a - 1) * b + b
  {}

  /** A step of at least one in the first factor adds at least the second. */
  lemma StepAdds(a: int, b: int, c: nat)
    requires a < b
    ensures a * c + c <= b * c
  {
    NonNegative(b - a - 1, c);
    Difference(a, b, c);
  }

  lemma Difference(a: int, b: int, c: int)
    ensures (b - a - 1) * c == b * c - a * c - c
  {}

  /** Division with remainder has one answer. */
  lemma QuotientUnique(n: int, d: nat, q: int, r: nat)
    requires d > 0 && n == q * d + r && r < d
    ensures n / d == q && n % d == r
  {
    var q', r' := n / d, n % d;
    assert n == q' * d + r' by { Recompose(n, d); }
    if q < q' {
      StepAdds(q, q', d);
    } else if q' < q {
      StepAdds(q', q, d);
    }
  }

  lemma Recompose(n: int, d: nat)
    requires d > 0
    ensures n == (n / d) * d + n % d
  {}
}
