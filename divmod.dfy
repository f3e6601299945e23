/** Facts about Euclidean division on naturals used by the codec proofs. */
module DivMod {

  /** Quotient and remainder are determined by any decomposition a == q * d + r with 0 <= r < d. */
  lemma {:induction false} Unique(a: int, d: int, q: int, r: int)
    requires d > 0 && 0 <= r < d && a == q * d + r
    ensures a / d == q && a % d == r
  {
    var k := a / d - q;
    assert k * d == r - a % d by {
      assert a == (a / d) * d + a % d;
      assert (a / d) * d == q * d + k * d;
    }
    if k >= 1 {
      MulAtLeast(k, d);
    } else if k <= -1 {
      MulAtLeast(-k, d);
    }
  }

  lemma {:induction false} MulAtLeast(k: int, d: int)
    requires k >= 1 && d > 0
    ensures k * d >= d
  {
  }

  /** Dividing by b and then by c is dividing by b * c. */
  lemma {:induction false} DivDiv(a: nat, b: nat, c: nat)
    requires b > 0 && c > 0
    ensures b * c > 0 && a / (b * c) == (a / b) / c
  {
    var q := (a / b) / c;
    var rc := (a / b) % c;
    var rb := a % b;
    assert a / b == q * c + rc;
    assert a == (q * c + rc) * b + rb;
    assert rc * b + rb <= (c - 1) * b + (b - 1) by {
      assert rc * b <= (c - 1) * b;
    }
    calc {
      a;
      (q * c + rc) * b + rb;
      q * (b * c) + (rc * b + rb);
    }
    Unique(a, b * c, q, rc * b + rb);
  }

  /** A number below b * c has a quotient by c below b. */
  lemma {:induction false} DivBelow(a: nat, b: nat, c: nat)
    requires c > 0 && a < b * c
    ensures a / c < b
  {
  }

  /** With a positive divisor, the quotient is zero exactly when 0 <= a < d. */
  lemma {:induction false} QuotientZero(a: int, d: int)
    requires d > 0
    ensures a / d == 0 <==> 0 <= a < d
  {
    if 0 <= a < d {
      Unique(a, d, 0, a);
    }
  }
}
