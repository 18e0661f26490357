/** Residues modulo a number: congruence and the field the curve needs. */
module Residues {

  type Modulus = p: int | p > 2 witness 3

  /** a and b differ by k times p. */
  predicate Apart(p: Modulus, k: int, a: int, b: int)
  {
    a - b == k * p
  }

  ghost predicate Cong(p: Modulus, a: int, b: int)
  {
    exists k :: Apart(p, k, a, b)
  }

  lemma SmallMultiple(p: Modulus, m: int)
    requires 0 <= m * p < p
    ensures m == 0
  {
  }

  lemma Cancelled(p: Modulus, k: int, q: int, r: int)
    requires k * p == q * p + r && 0 <= r < p
    ensures r == 0
  {
    assert (k - q) * p == r;
    SmallMultiple(p, k - q);
  }

  lemma Divide(p: Modulus, a: int)
    ensures a == (a / p) * p + a % p && 0 <= a % p < p
  {
  }

  /** Congruence is the remainder test. */
  lemma CongIsRemainder(p: Modulus, a: int, b: int)
    ensures Cong(p, a, b) <==> (a - b) % p == 0
  {
    var c := a - b;
    Divide(p, c);
    if Cong(p, a, b) {
      var k :| Apart(p, k, a, b);
      Cancelled(p, k, c / p, c % p);
    }
    if c % p == 0 {
      assert Apart(p, c / p, a, b);
    }
  }

  lemma Reduced(p: Modulus, a: int)
    ensures Cong(p, a % p, a)
  {
    Divide(p, a);
    assert Apart(p, -(a / p), a % p, a);
  }

  lemma Refl(p: Modulus, a: int)
    ensures Cong(p, a, a)
  {
    assert Apart(p, 0, a, a);
  }

  lemma Sym(p: Modulus, a: int, b: int)
    requires Cong(p, a, b)
    ensures Cong(p, b, a)
  {
    var k :| Apart(p, k, a, b);
    assert Apart(p, -k, b, a);
  }

  lemma Trans(p: Modulus, a: int, b: int, c: int)
    requires Cong(p, a, b) && Cong(p, b, c)
    ensures Cong(p, a, c)
  {
    var k :| Apart(p, k, a, b);
    var l :| Apart(p, l, b, c);
    assert (k + l) * p == k * p + l * p;
    assert Apart(p, k + l, a, c);
  }

  lemma Sums(p: Modulus, a: int, a': int, b: int, b': int)
    requires Cong(p, a, a') && Cong(p, b, b')
    ensures Cong(p, a + b, a' + b') && Cong(p, a - b, a' - b')
  {
    var k :| Apart(p, k, a, a');
    var l :| Apart(p, l, b, b');
    assert (k + l) * p == k * p + l * p && (k - l) * p == k * p - l * p;
    assert Apart(p, k + l, a + b, a' + b');
    assert Apart(p, k - l, a - b, a' - b');
  }

  lemma Scaled(p: Modulus, a: int, a': int, c: int)
    requires Cong(p, a, a')
    ensures Cong(p, a * c, a' * c)
  {
    var k :| Apart(p, k, a, a');
    ScaledBy(k, p, a - a', c);
    assert a * c - a' * c == (a - a') * c;
    assert Apart(p, k * c, a * c, a' * c);
  }

  lemma ScaledBy(k: int, p: int, e: int, c: int)
    requires e == k * p
    ensures e * c == (k * c) * p
  {
  }

  lemma Products(p: Modulus, a: int, a': int, b: int, b': int)
    requires Cong(p, a, a') && Cong(p, b, b')
    ensures Cong(p, a * b, a' * b')
  {
    Scaled(p, a, a', b);
    Scaled(p, b, b', a');
    assert b * a' == a' * b && b' * a' == a' * b';
    Trans(p, a * b, a' * b, a' * b');
  }

  /** Products of reduced factors. */
  lemma ReducedProduct(p: Modulus, a: int, b: int, c: int)
    requires Cong(p, a * b, c)
    ensures Cong(p, (a * b) % p, c)
  {
    Reduced(p, a * b);
    Trans(p, (a * b) % p, a * b, c);
  }

  /** Two reduced numbers are congruent only when equal. */
  lemma ReducedEqual(p: Modulus, a: int, b: int)
    requires 0 <= a < p && 0 <= b < p && Cong(p, a, b)
    ensures a == b
  {
    if a >= b {
      var k :| Apart(p, k, a, b);
      SmallMultiple(p, k);
    } else {
      Sym(p, a, b);
      var k :| Apart(p, k, b, a);
      SmallMultiple(p, k);
    }
  }

  lemma TwoIsNotZero(p: Modulus)
    ensures !Cong(p, 2, 0) && !Cong(p, 1, 0)
  {
    if Cong(p, 2, 0) { ReducedEqual(p, 2, 0); }
    if Cong(p, 1, 0) { ReducedEqual(p, 1, 0); }
  }

  ghost predicate Inverts(p: Modulus, a: int, b: int)
  {
    Cong(p, a * b, 1)
  }

  ghost predicate HasInverse(p: Modulus, a: int)
  {
    exists b :: Inverts(p, a, b)
  }

  /** The residues form a field: what primality of the modulus gives. */
  ghost predicate Field(p: Modulus)
  {
    forall a :: !Cong(p, a, 0) ==> HasInverse(p, a)
  }

  /** A multiplicative inverse; zero where there is none, as the power p - 2 gives for zero. */
  ghost function Inv(p: Modulus, a: int): (b: int)
    ensures HasInverse(p, a) ==> Inverts(p, a, b)
  {
    if HasInverse(p, a) then
      var b :| Inverts(p, a, b);
      b
    else
      0
  }

  /** a and inv undo each other. */
  lemma Undo(p: Modulus, a: int, c: int)
    requires Field(p) && !Cong(p, c, 0)
    ensures Cong(p, a * Inv(p, c) * c, a)
  {
    assert HasInverse(p, c);
    Scaled(p, c * Inv(p, c), 1, a);
    assert c * Inv(p, c) * a == a * Inv(p, c) * c && 1 * a == a;
  }

  lemma Cancel(p: Modulus, a: int, b: int, c: int)
    requires Field(p) && !Cong(p, c, 0) && Cong(p, a * c, b * c)
    ensures Cong(p, a, b)
  {
    var i := Inv(p, c);
    Scaled(p, a * c, b * c, i);
    assert a * c * i == a * i * c && b * c * i == b * i * c;
    Undo(p, a, c);
    Undo(p, b, c);
    Sym(p, a * i * c, a);
    Trans(p, a, a * i * c, b * i * c);
    Trans(p, a, b * i * c, b);
  }

  /** A product is zero exactly when a factor is. */
  lemma ZeroProduct(p: Modulus, a: int, b: int)
    requires Field(p)
    ensures Cong(p, a * b, 0) <==> Cong(p, a, 0) || Cong(p, b, 0)
  {
    if Cong(p, a * b, 0) && !Cong(p, b, 0) {
      Cancel(p, a, 0, b);
    }
    if Cong(p, a, 0) { Scaled(p, a, 0, b); }
    if Cong(p, b, 0) {
      Scaled(p, b, 0, a);
      assert b * a == a * b;
    }
  }

  lemma ZeroCong(p: Modulus, a: int, b: int)
    requires Cong(p, a, b)
    ensures Cong(p, a, 0) <==> Cong(p, b, 0)
  {
    Sym(p, a, b);
    if Cong(p, a, 0) { Trans(p, b, a, 0); }
    if Cong(p, b, 0) { Trans(p, a, b, 0); }
  }
}
