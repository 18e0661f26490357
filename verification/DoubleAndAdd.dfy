/**
 Scalar multiplication by double-and-add, in its two loop forms, over a group given up to an equivalence of
 representatives.
 */
module DoubleAndAdd {
  import opened Basics

  /**
   Group elements of type T: a membership test, an addition, a neutral element, and the equality of the elements two
   representatives stand for. Affine points use plain equality; extended coordinates use projective equality.
   */
  datatype Group<!T> = Group(member: T -> bool, plus: (T, T) -> T, zero: T, same: (T, T) -> bool) {

    predicate In(a: T) { member(a) }

    function Add(a: T, b: T): T { plus(a, b) }

    predicate Eq(a: T, b: T) { same(a, b) }
  }

  // Each law is a predicate, so that a proof names the instances it uses.

  predicate Closed<T>(g: Group<T>, a: T, b: T)
  {
    g.In(a) && g.In(b) ==> g.In(g.Add(a, b))
  }

  predicate Associative<T>(g: Group<T>, a: T, b: T, c: T)
  {
    g.In(a) && g.In(b) && g.In(c) ==> g.Eq(g.Add(g.Add(a, b), c), g.Add(a, g.Add(b, c)))
  }

  predicate Neutral<T>(g: Group<T>, a: T)
  {
    g.In(a) ==> g.Eq(g.Add(g.zero, a), a) && g.Eq(g.Add(a, g.zero), a)
  }

  predicate Equivalence<T>(g: Group<T>, a: T, b: T, c: T)
  {
    g.In(a) && g.In(b) && g.In(c) ==>
      g.Eq(a, a) && (g.Eq(a, b) ==> g.Eq(b, a)) && (g.Eq(a, b) && g.Eq(b, c) ==> g.Eq(a, c))
  }

  predicate Congruence<T>(g: Group<T>, a: T, a': T, b: T, b': T)
  {
    g.In(a) && g.In(a') && g.In(b) && g.In(b') && g.Eq(a, a') && g.Eq(b, b') ==> g.Eq(g.Add(a, b), g.Add(a', b'))
  }

  ghost predicate Lawful<T(!new)>(g: Group<T>)
  {
    && g.In(g.zero)
    && (forall a, b :: Closed(g, a, b))
    && (forall a, b, c :: Associative(g, a, b, c))
    && (forall a :: Neutral(g, a))
    && (forall a, b, c :: Equivalence(g, a, b, c))
    && (forall a, a', b, b' :: Congruence(g, a, a', b, b'))
  }

  /** k-fold addition. */
  function Times<T>(g: Group<T>, k: nat, p: T): T
  {
    if k == 0 then g.zero else g.Add(p, Times(g, k - 1, p))
  }

  lemma {:induction false} TimesIn<T(!new)>(g: Group<T>, k: nat, p: T)
    requires Lawful(g) && g.In(p)
    ensures g.In(Times(g, k, p))
  {
    if k > 0 {
      TimesIn(g, k - 1, p);
      assert Closed(g, p, Times(g, k - 1, p));
    }
  }

  lemma Trans<T(!new)>(g: Group<T>, a: T, b: T, c: T)
    requires Lawful(g) && g.In(a) && g.In(b) && g.In(c) && g.Eq(a, b) && g.Eq(b, c)
    ensures g.Eq(a, c)
  {
    assert Equivalence(g, a, b, c);
  }

  lemma Sym<T(!new)>(g: Group<T>, a: T, b: T)
    requires Lawful(g) && g.In(a) && g.In(b) && g.Eq(a, b)
    ensures g.Eq(b, a)
  {
    assert Equivalence(g, a, b, a);
  }

  lemma AddIn<T(!new)>(g: Group<T>, a: T, b: T)
    requires Lawful(g) && g.In(a) && g.In(b)
    ensures g.In(g.Add(a, b))
  {
    assert Closed(g, a, b);
  }

  /** Replacing the right operand by an equal one. */
  lemma AddRight<T(!new)>(g: Group<T>, a: T, b: T, b': T)
    requires Lawful(g) && g.In(a) && g.In(b) && g.In(b') && g.Eq(b, b')
    ensures g.Eq(g.Add(a, b), g.Add(a, b'))
  {
    assert Equivalence(g, a, a, a) && Congruence(g, a, a, b, b');
  }

  lemma Assoc<T(!new)>(g: Group<T>, a: T, b: T, c: T)
    requires Lawful(g) && g.In(a) && g.In(b) && g.In(c)
    ensures g.Eq(g.Add(g.Add(a, b), c), g.Add(a, g.Add(b, c)))
  {
    assert Associative(g, a, b, c);
  }

  /** Multiples of a doubled point are even multiples of the point. */
  lemma {:induction false} TimesDouble<T(!new)>(g: Group<T>, k: nat, p: T)
    requires Lawful(g) && g.In(p)
    ensures g.Eq(Times(g, k, g.Add(p, p)), Times(g, 2 * k, p))
  {
    if k == 0 {
      assert Equivalence(g, g.zero, g.zero, g.zero);
    } else {
      var pp, less := g.Add(p, p), Times(g, 2 * (k - 1), p);
      AddIn(g, p, p);
      TimesIn(g, k - 1, pp);
      TimesIn(g, 2 * (k - 1), p);
      TimesDouble(g, k - 1, p);
      AddRight(g, pp, Times(g, k - 1, pp), less);
      Assoc(g, p, p, less);
      AddIn(g, p, less);
      AddIn(g, p, g.Add(p, less));
      AddIn(g, pp, less);
      AddIn(g, pp, Times(g, k - 1, pp));
      assert Times(g, 2 * k - 1, p) == g.Add(p, less);
      Trans(g, Times(g, k, pp), g.Add(pp, less), Times(g, 2 * k, p));
    }
  }

  /** What a loop still owes: acc plus k times p is the whole multiple. */
  ghost predicate Owes<T>(g: Group<T>, acc: T, k: nat, p: T, total: T)
  {
    g.In(acc) && g.In(p) && g.In(total) && g.Eq(g.Add(acc, Times(g, k, p)), total)
  }

  /** One loop step: the low bit moves into the accumulator, the point doubles. */
  lemma Step<T(!new)>(g: Group<T>, acc: T, k: nat, p: T, total: T, half: nat)
    requires Lawful(g) && Owes(g, acc, k, p, total) && 2 * half <= k <= 2 * half + 1
    ensures Owes(g, if k == 2 * half + 1 then g.Add(acc, p) else acc, half, g.Add(p, p), total)
  {
    AddIn(g, p, p);
    TimesIn(g, half, g.Add(p, p));
    TimesIn(g, 2 * half, p);
    TimesDouble(g, half, p);
    if k == 2 * half {
      StepEven(g, acc, half, p, total);
    } else {
      StepOdd(g, acc, half, p, total);
    }
  }

  lemma StepEven<T(!new)>(g: Group<T>, acc: T, half: nat, p: T, total: T)
    requires Lawful(g) && Owes(g, acc, 2 * half, p, total)
    requires g.In(g.Add(p, p)) && g.In(Times(g, half, g.Add(p, p))) && g.In(Times(g, 2 * half, p))
    requires g.Eq(Times(g, half, g.Add(p, p)), Times(g, 2 * half, p))
    ensures Owes(g, acc, half, g.Add(p, p), total)
  {
    var m, m' := Times(g, half, g.Add(p, p)), Times(g, 2 * half, p);
    AddRight(g, acc, m, m');
    AddIn(g, acc, m);
    AddIn(g, acc, m');
    Trans(g, g.Add(acc, m), g.Add(acc, m'), total);
  }

  lemma StepOdd<T(!new)>(g: Group<T>, acc: T, half: nat, p: T, total: T)
    requires Lawful(g) && Owes(g, acc, 2 * half + 1, p, total)
    requires g.In(g.Add(p, p)) && g.In(Times(g, half, g.Add(p, p))) && g.In(Times(g, 2 * half, p))
    requires g.Eq(Times(g, half, g.Add(p, p)), Times(g, 2 * half, p))
    ensures Owes(g, g.Add(acc, p), half, g.Add(p, p), total)
  {
    var m, m' := Times(g, half, g.Add(p, p)), Times(g, 2 * half, p);
    var acc' := g.Add(acc, p);
    AddIn(g, acc, p);
    AddIn(g, p, m');
    AddIn(g, acc', m);
    AddIn(g, acc', m');
    AddIn(g, acc, g.Add(p, m'));
    AddRight(g, acc', m, m');
    Assoc(g, acc, p, m');
    assert Times(g, 2 * half + 1, p) == g.Add(p, m');
    Trans(g, g.Add(acc', m), g.Add(acc', m'), g.Add(acc, g.Add(p, m')));
    Trans(g, g.Add(acc', m), g.Add(acc, g.Add(p, m')), total);
  }

  lemma Start<T(!new)>(g: Group<T>, k: nat, p: T)
    requires Lawful(g) && g.In(p)
    ensures Owes(g, g.zero, k, p, Times(g, k, p))
  {
    TimesIn(g, k, p);
    assert Neutral(g, Times(g, k, p));
  }

  lemma Finish<T(!new)>(g: Group<T>, acc: T, p: T, total: T)
    requires Lawful(g) && Owes(g, acc, 0, p, total)
    ensures g.Eq(acc, total)
  {
    assert Neutral(g, acc);
    AddIn(g, acc, g.zero);
    Sym(g, g.Add(acc, g.zero), acc);
    Trans(g, acc, g.Add(acc, g.zero), total);
  }

  /** The loop that runs while scalar bits remain. */
  method MulWhile<T(!new)>(g: Group<T>, scalar: nat, point: T) returns (result: T)
    requires Lawful(g) && g.In(point)
    ensures g.In(result) && g.Eq(result, Times(g, scalar, point))
  {
    result := g.zero;
    var addend, k := point, scalar;
    Start(g, scalar, point);
    while k != 0
      invariant Owes(g, result, k, addend, Times(g, scalar, point))
      decreases k
    {
      Step(g, result, k, addend, Times(g, scalar, point), k / 2);
      if k % 2 == 1 {
        result := g.Add(result, addend);
      }
      addend := g.Add(addend, addend);
      k := k / 2;
    }
    Finish(g, result, addend, Times(g, scalar, point));
  }

  /** k shifted right by i bits. */
  function Shr(k: nat, i: nat): nat
  {
    if i == 0 then k else Shr(k, i - 1) / 2
  }

  lemma {:induction false} ShrBounded(k: nat, i: nat, n: nat)
    requires i <= n && k < Pow2(n)
    ensures Shr(k, i) < Pow2(n - i)
  {
    if i > 0 {
      ShrBounded(k, i - 1, n);
    }
  }

  /** q shifted left by n bits. */
  function Shl(q: nat, n: nat): nat
  {
    if n == 0 then q else 2 * Shl(q, n - 1)
  }

  lemma {:induction false} ShlIsProduct(q: nat, n: nat)
    ensures Shl(q, n) == Pow2(n) * q
  {
    if n > 0 { ShlIsProduct(q, n - 1); }
  }

  /** What stands above the low n bits of k does not reach the bits below. */
  lemma {:induction false} ShrOfSum(low: nat, q: nat, i: nat, n: nat)
    requires i <= n
    ensures Shr(low + Shl(q, n), i) == Shr(low, i) + Shl(q, n - i)
  {
    if i > 0 {
      ShrOfSum(low, q, i - 1, n);
    }
  }

  lemma QuotRem(k: nat, m: nat) returns (low: nat, q: nat)
    requires m > 0
    ensures low == k % m && low < m && k == low + m * q
  {
    low, q := k % m, k / m;
  }

  lemma LowBits(low: nat, q: nat, i: nat, n: nat)
    requires i < n
    ensures Shr(low + Shl(q, n), i) % 2 == Shr(low, i) % 2
  {
    ShrOfSum(low, q, i, n);
    SameParity(Shr(low, i), Shl(q, n - i), Shl(q, n - i - 1));
  }

  lemma SameParity(a: nat, b: nat, h: nat)
    requires b == 2 * h
    ensures (a + b) % 2 == a % 2
  {
  }

  lemma SplitScalar(k: nat, bits: nat) returns (low: nat, q: nat)
    ensures Pow2(bits) > 0 && low == k % Pow2(bits) && low < Pow2(bits) && k == low + Shl(q, bits)
  {
    Pow2Grows(bits, bits);
    low, q := QuotRem(k, Pow2(bits));
    ShlIsProduct(q, bits);
  }

  /** The loop that always runs a fixed number of steps: it multiplies by the low bits of the scalar. */
  method MulLow<T(!new)>(g: Group<T>, point: T, k: nat, bits: nat, ghost low: nat, ghost q: nat) returns (r: T)
    requires Lawful(g) && g.In(point) && k == low + Shl(q, bits) && low < Pow2(bits)
    ensures g.In(r) && g.Eq(r, Times(g, low, point))
  {
    r := g.zero;
    var pt := point;
    Start(g, low, point);
    for i := 0 to bits
      invariant Owes(g, r, Shr(low, i), pt, Times(g, low, point))
    {
      Step(g, r, Shr(low, i), pt, Times(g, low, point), Shr(low, i + 1));
      LowBits(low, q, i, bits);
      if Shr(k, i) % 2 == 1 {
        r := g.Add(r, pt);
      }
      pt := g.Add(pt, pt);
    }
    ShrBounded(low, bits, bits);
    Finish(g, r, pt, Times(g, low, point));
  }

  /**
   The fixed-length form, 256 steps in the source, is k-fold addition for every scalar that fits, and drops the bits
   that do not.
   */
  method MulFixed<T(!new)>(g: Group<T>, point: T, k: nat, bits: nat) returns (r: T)
    requires Lawful(g) && g.In(point)
    ensures Pow2(bits) > 0 && g.In(r) && g.Eq(r, Times(g, k % Pow2(bits), point))
  {
    ghost var low, q := SplitScalar(k, bits);
    r := MulLow(g, point, k, bits, low, q);
  }

  /** The two loop forms agree for every scalar that fits the fixed form's bits. */
  method BothForms<T(!new)>(g: Group<T>, point: T, k: nat, bits: nat) returns (r: T, s: T)
    requires Lawful(g) && g.In(point) && k < Pow2(bits)
    ensures g.Eq(r, s)
  {
    r := MulWhile(g, k, point);
    s := MulFixed(g, point, k, bits);
    SmallMod(k, Pow2(bits));
    TimesIn(g, k, point);
    Sym(g, s, Times(g, k, point));
    Trans(g, r, Times(g, k, point), s);
  }

  lemma SmallMod(a: nat, b: nat)
    requires a < b
    ensures a % b == a
  {
  }
}
