/** BIP-340 signing and verification over an abstract group of prime order with x-coordinates and y-parity. */
module Schnorr {
  import opened Basics
  import opened Octets
  import opened DoubleAndAdd

  // ---------------------------------------------------------------- 32-byte big-endian numbers

  function Pow256(n: nat): nat
  {
    if n == 0 then 1 else 256 * Pow256(n - 1)
  }

  function ToBytes(n: nat, len: nat): (b: Bytes)
    ensures |b| == len
  {
    if len == 0 then [] else ToBytes(n / 256, len - 1) + [(n % 256) as Byte]
  }

  function FromBytes(b: Bytes): nat
  {
    if b == [] then 0 else 256 * FromBytes(b[..|b| - 1]) + b[|b| - 1] as nat
  }

  lemma {:induction false} BytesRoundTrip(n: nat, len: nat)
    requires n < Pow256(len)
    ensures FromBytes(ToBytes(n, len)) == n
  {
    if len > 0 {
      BytesRoundTrip(n / 256, len - 1);
      var b := ToBytes(n, len);
      assert b[..|b| - 1] == ToBytes(n / 256, len - 1);
    }
  }

  /** The first byte is the most significant one. */
  lemma {:induction false} BigEndian(b: Byte, rest: Bytes)
    ensures FromBytes([b] + rest) == b as nat * Pow256(|rest|) + FromBytes(rest)
  {
    var all := [b] + rest;
    if rest == [] {
      assert all[..0] == [];
    } else {
      var n := |rest| - 1;
      BigEndian(b, rest[..n]);
      assert all[..|all| - 1] == [b] + rest[..n];
    }
  }

  /** The remainder a mod n, by repeated subtraction, so that proofs meet no division by a variable. */
  function Reduce(a: nat, n: nat): (r: nat)
    requires n > 0
    ensures r < n
    decreases a
  {
    if a < n then a else Reduce(a - n, n)
  }

  lemma {:induction false} ReduceSplits(a: nat, n: nat) returns (q: nat)
    requires n > 0
    ensures a == Reduce(a, n) + q * n
    decreases a
  {
    if a < n {
      q := 0;
    } else {
      q := ReduceSplits(a - n, n);
      q := q + 1;
    }
  }

  lemma ReduceIsRemainder(a: nat, n: nat)
    requires n > 0
    ensures Reduce(a, n) == a % n
  {
    var q := ReduceSplits(a, n);
    RemainderUnique(a, n, q, Reduce(a, n));
  }

  lemma RemainderUnique(a: nat, n: nat, q: nat, r: nat)
    requires r < n && a == r + q * n
    ensures r == a % n
  {
    var d := q - a / n;
    assert a == n * (a / n) + a % n;
    assert d * n == a % n - r;
    if d < 0 { NegativeProduct(d, n); } else if d > 0 { NegativeProduct(-d, n); }
  }

  // ---------------------------------------------------------------- the curve

  /** The group, its generator, negation, x-coordinate and y-parity, and the even-y point of an x-coordinate, if any. */
  datatype Curve<!T> = Curve(
    g: Group<T>, gen: T, negate: T -> T, xOf: T -> nat, evenY: T -> bool, lift: nat -> Option<T>,
    fieldSize: nat, order: nat) {

    function Neg(p: T): T { negate(p) }

    function X(p: T): nat { xOf(p) }

    predicate Even(p: T) { evenY(p) }

    /** Rejects numbers that are not field elements before looking for a point. */
    function LiftX(x: nat): Option<T> { if x >= fieldSize then None else lift(x) }
  }

  predicate NegationLaw<T(==)>(c: Curve<T>, p: T)
  {
    c.g.In(p) ==> c.g.In(c.Neg(p)) && c.g.Add(p, c.Neg(p)) == c.g.zero
  }

  predicate CoordinateLaw<T(==)>(c: Curve<T>, p: T)
  {
    c.g.In(p) && p != c.g.zero ==>
      c.X(p) < c.fieldSize && c.X(c.Neg(p)) == c.X(p) && (c.Even(c.Neg(p)) <==> !c.Even(p))
  }

  predicate LiftLaw<T(==)>(c: Curve<T>, p: T)
  {
    c.g.In(p) && p != c.g.zero ==> c.LiftX(c.X(p)) == Some(if c.Even(p) then p else c.Neg(p))
  }

  predicate OrderLaw<T(==)>(c: Curve<T>, p: T)
  {
    c.g.In(p) ==> Times(c.g, c.order, p) == c.g.zero
  }

  predicate GeneratorLaw<T(==)>(c: Curve<T>, k: nat)
  {
    0 < k < c.order ==> Times(c.g, k, c.gen) != c.g.zero
  }

  predicate ExactLaw<T(==)>(c: Curve<T>, p: T, q: T)
  {
    c.g.Eq(p, q) <==> p == q
  }

  /** A cyclic group of known order with coordinates: what the curve's number theory provides. */
  ghost predicate CurveLaws<T(!new)>(c: Curve<T>)
  {
    && Lawful(c.g) && c.g.In(c.gen) && c.order > 1
    && c.fieldSize <= Pow256(32) && c.order <= Pow256(32)
    && (forall p, q :: ExactLaw(c, p, q))
    && (forall p :: NegationLaw(c, p))
    && (forall p :: CoordinateLaw(c, p))
    && (forall p :: LiftLaw(c, p))
    && (forall p :: OrderLaw(c, p))
    && (forall k :: GeneratorLaw(c, k))
  }

  // ---------------------------------------------------------------- multiples

  lemma Same<T(!new)>(c: Curve<T>, p: T, q: T)
    requires CurveLaws(c) && c.g.Eq(p, q)
    ensures p == q
  {
    assert ExactLaw(c, p, q);
  }

  lemma {:induction false} TimesAdd<T(!new)>(c: Curve<T>, a: nat, b: nat, p: T)
    requires CurveLaws(c) && c.g.In(p)
    ensures c.g.Add(Times(c.g, a, p), Times(c.g, b, p)) == Times(c.g, a + b, p)
  {
    TimesIn(c.g, b, p);
    if a == 0 {
      assert Neutral(c.g, Times(c.g, b, p));
      Same(c, c.g.Add(c.g.zero, Times(c.g, b, p)), Times(c.g, b, p));
    } else {
      TimesIn(c.g, a - 1, p);
      TimesAdd(c, a - 1, b, p);
      Assoc(c.g, p, Times(c.g, a - 1, p), Times(c.g, b, p));
      Same(c, c.g.Add(Times(c.g, a, p), Times(c.g, b, p)), c.g.Add(p, Times(c.g, a - 1 + b, p)));
    }
  }

  lemma {:induction false} TimesMul<T(!new)>(c: Curve<T>, a: nat, b: nat, p: T)
    requires CurveLaws(c) && c.g.In(p)
    ensures Times(c.g, a, Times(c.g, b, p)) == Times(c.g, a * b, p)
  {
    if a > 0 {
      TimesMul(c, a - 1, b, p);
      TimesAdd(c, b, (a - 1) * b, p);
      OneMore(a, b);
    }
  }

  lemma OneMore(a: nat, b: nat)
    requires a > 0
    ensures b + (a - 1) * b == a * b
  {
  }

  /** Multiples do not change when the scalar moves by the group order. */
  lemma TimesShift<T(!new)>(c: Curve<T>, k: nat, u: nat, p: T)
    requires CurveLaws(c) && c.g.In(p)
    ensures Times(c.g, k + u * c.order, p) == Times(c.g, k, p)
  {
    TimesMul(c, u, c.order, p);
    assert OrderLaw(c, p);
    ZeroMultiples(c, u);
    TimesAdd(c, k, u * c.order, p);
    TimesIn(c.g, k, p);
    assert Neutral(c.g, Times(c.g, k, p));
    Same(c, c.g.Add(Times(c.g, k, p), c.g.zero), Times(c.g, k, p));
  }

  lemma {:induction false} ZeroMultiples<T(!new)>(c: Curve<T>, u: nat)
    requires CurveLaws(c)
    ensures Times(c.g, u, c.g.zero) == c.g.zero
  {
    if u > 0 {
      ZeroMultiples(c, u - 1);
      assert Neutral(c.g, c.g.zero);
      Same(c, c.g.Add(c.g.zero, c.g.zero), c.g.zero);
    }
  }

  /** The complementary multiple is the negation. */
  lemma Complement<T(!new)>(c: Curve<T>, k: nat)
    requires CurveLaws(c) && k <= c.order
    ensures Times(c.g, c.order - k, c.gen) == c.Neg(Times(c.g, k, c.gen))
  {
    var p, q := Times(c.g, k, c.gen), Times(c.g, c.order - k, c.gen);
    TimesIn(c.g, k, c.gen);
    TimesIn(c.g, c.order - k, c.gen);
    TimesAdd(c, c.order - k, k, c.gen);
    assert OrderLaw(c, c.gen) && NegationLaw(c, p);
    // q = q + (p + -p) = (q + p) + -p = -p
    assert Neutral(c.g, q) && Neutral(c.g, c.Neg(p));
    Same(c, c.g.Add(q, c.g.zero), q);
    Same(c, c.g.Add(c.g.zero, c.Neg(p)), c.Neg(p));
    Assoc(c.g, q, p, c.Neg(p));
    Same(c, c.g.Add(c.g.Add(q, p), c.Neg(p)), c.g.Add(q, c.g.Add(p, c.Neg(p))));
  }

  /** The scalar whose multiple of the generator has even y and the same x. */
  function EvenScalar<T>(c: Curve<T>, k: nat): nat
    requires k <= c.order
  {
    if c.Even(Times(c.g, k, c.gen)) then k else c.order - k
  }

  lemma EvenScalarLifts<T(!new)>(c: Curve<T>, k: nat)
    requires CurveLaws(c) && 0 < k < c.order
    ensures var p, q := Times(c.g, k, c.gen), Times(c.g, EvenScalar(c, k), c.gen);
      && 0 < EvenScalar(c, k) < c.order && c.g.In(q)
      && c.X(p) < c.fieldSize && c.LiftX(c.X(p)) == Some(q) && c.X(q) == c.X(p) && c.Even(q) && q != c.g.zero
  {
    var p := Times(c.g, k, c.gen);
    TimesIn(c.g, k, c.gen);
    TimesIn(c.g, EvenScalar(c, k), c.gen);
    Complement(c, k);
    assert GeneratorLaw(c, k) && GeneratorLaw(c, EvenScalar(c, k));
    assert CoordinateLaw(c, p) && LiftLaw(c, p);
  }

  // ---------------------------------------------------------------- signing and verifying

  /**
   The tagged hashes: the nonce of a secret scalar, public x and message; the challenge of two x-coordinates and a
   message.
   */
  datatype Oracle = Oracle(nonce: (nat, Bytes, Bytes) -> nat, challenge: (Bytes, Bytes, Bytes) -> nat) {

    function Nonce(d: nat, px: Bytes, msg: Bytes): nat { nonce(d, px, msg) }

    function Challenge(rx: Bytes, px: Bytes, msg: Bytes): nat { challenge(rx, px, msg) }
  }

  predicate ValidKey<T>(c: Curve<T>, seckey: Bytes)
  {
    1 <= FromBytes(seckey) < c.order
  }

  function PublicKey<T>(c: Curve<T>, seckey: Bytes): Option<Bytes>
  {
    if !ValidKey(c, seckey) then None else Some(ToBytes(c.X(Times(c.g, FromBytes(seckey), c.gen)), 32))
  }

  /** Refuses a secret key out of range and a zero nonce. */
  function Sign<T>(c: Curve<T>, o: Oracle, seckey: Bytes, msg: Bytes): Option<Bytes>
  {
    if !ValidKey(c, seckey) then None else
      var d0 := FromBytes(seckey);
      var px := ToBytes(c.X(Times(c.g, d0, c.gen)), 32);
      var d := EvenScalar(c, d0);
      var k0 := Reduce(o.Nonce(d, px, msg), c.order);
      if k0 == 0 then None else
        var rx := ToBytes(c.X(Times(c.g, k0, c.gen)), 32);
        var k := EvenScalar(c, k0);
        var e := ChallengeScalar(c, o, rx, px, msg);
        Some(rx + ToBytes(Response(k, e, d, c.order), 32))
  }

  function ChallengeScalar<T>(c: Curve<T>, o: Oracle, rx: Bytes, px: Bytes, msg: Bytes): (e: nat)
    requires c.order > 0
    ensures e < c.order
  {
    Reduce(o.Challenge(rx, px, msg), c.order)
  }

  /** The signature scalar. */
  function Response(k: nat, e: nat, d: nat, order: nat): (s: nat)
    requires order > 0
    ensures s < order
  {
    Reduce(k + e * d, order)
  }

  predicate Verify<T(==)>(c: Curve<T>, o: Oracle, pub: Bytes, msg: Bytes, sig: Bytes)
    requires c.order > 0
  {
    |pub| == 32 && |sig| == 64 &&
    VerifyNumbers(c, FromBytes(pub), FromBytes(sig[..32]), FromBytes(sig[32..]),
                  ChallengeScalar(c, o, sig[..32], pub, msg))
  }

  /** The check on the numbers of key and signature and the challenge scalar. */
  predicate VerifyNumbers<T(==)>(c: Curve<T>, x: nat, r: nat, s: nat, e: nat)
    requires e < c.order
  {
    && c.LiftX(x).Some? && r < c.fieldSize && s < c.order
    && Accepted(c, Recomputed(c, s, c.order - e, c.LiftX(x).value), r)
  }

  /** s times the generator plus m times the public point. */
  function Recomputed<T>(c: Curve<T>, s: nat, m: nat, pt: T): T
  {
    c.g.Add(Times(c.g, s, c.gen), Times(c.g, m, pt))
  }

  predicate Accepted<T(==)>(c: Curve<T>, point: T, r: nat)
  {
    point != c.g.zero && c.Even(point) && c.X(point) == r
  }

  lemma Rearrange(k: int, e: int, d: int, order: int, s: int, t: int)
    requires k + e * d == s + t * order
    ensures s + (order - e) * d == k + (d - t) * order
  {
  }

  /** s + (order - e) d is k up to a multiple of the order. */
  lemma Cancels(k: nat, e: nat, d: nat, order: nat) returns (u: nat)
    requires k < order && e < order
    ensures Response(k, e, d, order) + (order - e) * d == k + u * order
  {
    var s := Response(k, e, d, order);
    var t := ReduceSplits(k + e * d, order);
    Rearrange(k, e, d, order, s, t);
    var w := d - t;
    if w < 0 { NegativeProduct(w, order); }
    u := w;
  }

  lemma NegativeProduct(w: int, n: int)
    requires w < 0 <= n
    ensures w * n <= -n
  {
  }

  lemma RecomputesFrom<T(!new)>(c: Curve<T>, d: nat, k: nat, s: nat, m: nat, u: nat)
    requires CurveLaws(c) && s + m * d == k + u * c.order
    ensures Recomputed(c, s, m, Times(c.g, d, c.gen)) == Times(c.g, k, c.gen)
  {
    RecomputedIsMultiple(c, d, s, m);
    TimesShift(c, k, u, c.gen);
  }

  lemma RecomputedIsMultiple<T(!new)>(c: Curve<T>, d: nat, s: nat, m: nat)
    requires CurveLaws(c)
    ensures Recomputed(c, s, m, Times(c.g, d, c.gen)) == Times(c.g, s + m * d, c.gen)
  {
    TimesMul(c, m, d, c.gen);
    TimesAdd(c, s, m * d, c.gen);
  }

  /** The point verification recomputes is the nonce point with even y. */
  lemma RecomputesNoncePoint<T(!new)>(c: Curve<T>, d: nat, k: nat, e: nat)
    requires CurveLaws(c) && k < c.order && e < c.order
    ensures Recomputed(c, Response(k, e, d, c.order), c.order - e, Times(c.g, d, c.gen)) == Times(c.g, k, c.gen)
  {
    var u := Cancels(k, e, d, c.order);
    RecomputesFrom(c, d, k, Response(k, e, d, c.order), c.order - e, u);
  }

  /** Verification accepts every signature that signing returns, under the public key of the same secret. */
  lemma SignedVerifies<T(!new)>(c: Curve<T>, o: Oracle, seckey: Bytes, msg: Bytes)
    requires CurveLaws(c) && Sign(c, o, seckey, msg).Some?
    ensures Verify(c, o, PublicKey(c, seckey).value, msg, Sign(c, o, seckey, msg).value)
  {
    var d0 := FromBytes(seckey);
    var px := ToBytes(c.X(Times(c.g, d0, c.gen)), 32);
    var d := EvenScalar(c, d0);
    var k0 := Reduce(o.Nonce(d, px, msg), c.order);
    var rx := ToBytes(c.X(Times(c.g, k0, c.gen)), 32);
    var k := EvenScalar(c, k0);
    var e := ChallengeScalar(c, o, rx, px, msg);
    var sb := ToBytes(Response(k, e, d, c.order), 32);
    assert Sign(c, o, seckey, msg).value == rx + sb;
    EvenScalarLifts(c, d0);
    EvenScalarLifts(c, k0);
    RecomputesNoncePoint(c, d, k, e);
    assert VerifyNumbers(c, c.X(Times(c.g, d0, c.gen)), c.X(Times(c.g, k0, c.gen)), Response(k, e, d, c.order), e);
    VerifyOfNumbers(c, o, c.X(Times(c.g, d0, c.gen)), msg, c.X(Times(c.g, k0, c.gen)), Response(k, e, d, c.order));
  }

  // ---------------------------------------------------------------- what verification accepts

  /** k is a nonce of an even point whose x is r, and s is the response to the challenge e under the secret d. */
  predicate Answers<T>(c: Curve<T>, d: nat, e: nat, r: nat, s: nat, k: nat)
  {
    && 0 < k < c.order
    && c.Even(Times(c.g, k, c.gen)) && c.X(Times(c.g, k, c.gen)) == r
    && s == (k + e * d) % c.order
  }

  ghost predicate Answerable<T>(c: Curve<T>, d: nat, e: nat, r: nat, s: nat)
  {
    exists k :: Answers(c, d, e, r, s, k)
  }

  /** The recomputed point is a multiple of the generator by a scalar below the order. */
  lemma RecomputedScalar<T(!new)>(c: Curve<T>, d: nat, s: nat, e: nat) returns (k: nat, u: nat)
    requires CurveLaws(c) && e < c.order
    ensures k < c.order && s + (c.order - e) * d == k + u * c.order
    ensures Recomputed(c, s, c.order - e, Times(c.g, d, c.gen)) == Times(c.g, k, c.gen)
  {
    RecomputedIsMultiple(c, d, s, c.order - e);
    k, u := ReducedMultiple(c, s + (c.order - e) * d);
  }

  lemma ReducedMultiple<T(!new)>(c: Curve<T>, t: nat) returns (k: nat, u: nat)
    requires CurveLaws(c)
    ensures k < c.order && t == k + u * c.order && Times(c.g, t, c.gen) == Times(c.g, k, c.gen)
  {
    k := Reduce(t, c.order);
    u := ReduceSplits(t, c.order);
    TimesShift(c, k, u, c.gen);
  }

  lemma ResponseFrom(k: nat, e: nat, d: nat, order: nat, s: nat, u: nat)
    requires k < order && e < order && s < order && s + (order - e) * d == k + u * order
    ensures s == (k + e * d) % order
  {
    var w := d - u;
    MovedOver(k, e, d, order, s, u);
    if w < 0 { NegativeProduct(w, order); }
    RemainderUnique(k + e * d, order, w, s);
  }

  lemma MovedOver(k: int, e: int, d: int, order: int, s: int, u: int)
    requires s + (order - e) * d == k + u * order
    ensures k + e * d == s + (d - u) * order
  {
  }

  lemma AcceptedAnswers<T(!new)>(c: Curve<T>, d: nat, e: nat, r: nat, s: nat) returns (k: nat)
    requires CurveLaws(c) && e < c.order && s < c.order
    requires Accepted(c, Recomputed(c, s, c.order - e, Times(c.g, d, c.gen)), r)
    ensures Answers(c, d, e, r, s, k)
  {
    var u;
    k, u := RecomputedScalar(c, d, s, e);
    ResponseFrom(k, e, d, c.order, s, u);
  }

  lemma AnswersAccepted<T(!new)>(c: Curve<T>, d: nat, e: nat, r: nat, s: nat, k: nat)
    requires CurveLaws(c) && e < c.order && Answers(c, d, e, r, s, k)
    ensures s < c.order && r < c.fieldSize && Accepted(c, Recomputed(c, s, c.order - e, Times(c.g, d, c.gen)), r)
  {
    ReduceIsRemainder(k + e * d, c.order);
    RecomputesNoncePoint(c, d, k, e);
    TimesIn(c.g, k, c.gen);
    assert GeneratorLaw(c, k) && CoordinateLaw(c, Times(c.g, k, c.gen));
  }

  /**
   Acceptance, exactly: under the public key of a secret whose even scalar is d, the bytes of r and s are accepted if
   and only if r is the x of an even nonce point and s is the response of that nonce to the challenge.
   */
  lemma VerifyExactly<T(!new)>(c: Curve<T>, o: Oracle, seckey: Bytes, msg: Bytes, r: nat, s: nat)
    requires CurveLaws(c) && ValidKey(c, seckey) && r < Pow256(32) && s < Pow256(32)
    ensures
      var pub, d := PublicKey(c, seckey).value, EvenScalar(c, FromBytes(seckey));
      var e := o.Challenge(ToBytes(r, 32), pub, msg) % c.order;
      Verify(c, o, pub, msg, ToBytes(r, 32) + ToBytes(s, 32)) <==> Answerable(c, d, e, r, s)
  {
    var d0 := FromBytes(seckey);
    var pub, d := PublicKey(c, seckey).value, EvenScalar(c, d0);
    var e := ChallengeScalar(c, o, ToBytes(r, 32), pub, msg);
    ReduceIsRemainder(o.Challenge(ToBytes(r, 32), pub, msg), c.order);
    EvenScalarLifts(c, d0);
    var x := c.X(Times(c.g, d0, c.gen));
    VerifyOfNumbers(c, o, x, msg, r, s);
    NumbersExactly(c, d, x, r, s, e);
  }

  lemma NumbersExactly<T(!new)>(c: Curve<T>, d: nat, x: nat, r: nat, s: nat, e: nat)
    requires CurveLaws(c) && e < c.order && c.LiftX(x) == Some(Times(c.g, d, c.gen))
    ensures VerifyNumbers(c, x, r, s, e) <==> Answerable(c, d, e, r, s)
  {
    if VerifyNumbers(c, x, r, s, e) {
      var k := AcceptedAnswers(c, d, e, r, s);
    }
    if k :| Answers(c, d, e, r, s, k) {
      AnswersAccepted(c, d, e, r, s, k);
    }
  }

  /** Verification of bytes is the check on the numbers they hold. */
  lemma VerifyOfNumbers<T(!new)>(c: Curve<T>, o: Oracle, x: nat, msg: Bytes, r: nat, s: nat)
    requires c.order > 0 && x < Pow256(32) && r < Pow256(32) && s < Pow256(32)
    ensures Verify(c, o, ToBytes(x, 32), msg, ToBytes(r, 32) + ToBytes(s, 32))
      <==> VerifyNumbers(c, x, r, s, ChallengeScalar(c, o, ToBytes(r, 32), ToBytes(x, 32), msg))
  {
    BytesRoundTrip(x, 32);
    BytesRoundTrip(r, 32);
    BytesRoundTrip(s, 32);
    var sig := ToBytes(r, 32) + ToBytes(s, 32);
    assert sig[..32] == ToBytes(r, 32) && sig[32..] == ToBytes(s, 32);
  }

  /** Scalars below the order with equal multiples of the generator are equal. */
  lemma ScalarUnique<T(!new)>(c: Curve<T>, k: nat, k': nat)
    requires CurveLaws(c) && k <= k' < c.order && Times(c.g, k, c.gen) == Times(c.g, k', c.gen)
    ensures k == k'
  {
    var n := c.order - k;
    TimesAdd(c, k, n, c.gen);
    TimesAdd(c, k', n, c.gen);
    MultiplePastOrder(c, k' - k);
    assert k + n == c.order && k' + n == k' - k + c.order;
    assert OrderLaw(c, c.gen) && GeneratorLaw(c, k' - k);
  }

  lemma MultiplePastOrder<T(!new)>(c: Curve<T>, k: nat)
    requires CurveLaws(c)
    ensures Times(c.g, k + c.order, c.gen) == Times(c.g, k, c.gen)
  {
    TimesShift(c, k, 1, c.gen);
  }

  /** Under one key, for one message and one nonce point, at most one response is accepted. */
  lemma OneResponse<T(!new)>(c: Curve<T>, o: Oracle, seckey: Bytes, msg: Bytes, r: nat, s: nat, s': nat)
    requires CurveLaws(c) && ValidKey(c, seckey) && r < Pow256(32) && s < Pow256(32) && s' < Pow256(32)
    requires Verify(c, o, PublicKey(c, seckey).value, msg, ToBytes(r, 32) + ToBytes(s, 32))
    requires Verify(c, o, PublicKey(c, seckey).value, msg, ToBytes(r, 32) + ToBytes(s', 32))
    ensures s == s'
  {
    var pub, d := PublicKey(c, seckey).value, EvenScalar(c, FromBytes(seckey));
    var e := o.Challenge(ToBytes(r, 32), pub, msg) % c.order;
    VerifyExactly(c, o, seckey, msg, r, s);
    VerifyExactly(c, o, seckey, msg, r, s');
    AnswerUnique(c, d, e, r, s, s');
  }

  lemma AnswerUnique<T(!new)>(c: Curve<T>, d: nat, e: nat, r: nat, s: nat, s': nat)
    requires CurveLaws(c) && Answerable(c, d, e, r, s) && Answerable(c, d, e, r, s')
    ensures s == s'
  {
    var k :| Answers(c, d, e, r, s, k);
    var k' :| Answers(c, d, e, r, s', k');
    NonceUnique(c, r, k, k');
  }

  lemma NonceUnique<T(!new)>(c: Curve<T>, r: nat, k: nat, k': nat)
    requires CurveLaws(c) && 0 < k < c.order && 0 < k' < c.order
    requires c.Even(Times(c.g, k, c.gen)) && c.X(Times(c.g, k, c.gen)) == r
    requires c.Even(Times(c.g, k', c.gen)) && c.X(Times(c.g, k', c.gen)) == r
    ensures k == k'
  {
    TimesIn(c.g, k, c.gen);
    TimesIn(c.g, k', c.gen);
    assert GeneratorLaw(c, k) && GeneratorLaw(c, k');
    assert LiftLaw(c, Times(c.g, k, c.gen)) && LiftLaw(c, Times(c.g, k', c.gen));
    if k <= k' { ScalarUnique(c, k, k'); } else { ScalarUnique(c, k', k); }
  }

  /**
   Signing refuses exactly a key out of range and a zero nonce; the nonce point and the response are the signature.
   */
  lemma SignExactly<T(!new)>(c: Curve<T>, o: Oracle, seckey: Bytes, msg: Bytes)
    requires CurveLaws(c)
    ensures Sign(c, o, seckey, msg).Some? <==>
      && 1 <= FromBytes(seckey) < c.order
      && o.Nonce(EvenScalar(c, FromBytes(seckey)), PublicKey(c, seckey).value, msg) % c.order != 0
    ensures Sign(c, o, seckey, msg).Some? ==>
      var k := o.Nonce(EvenScalar(c, FromBytes(seckey)), PublicKey(c, seckey).value, msg) % c.order;
      var sig := Sign(c, o, seckey, msg).value;
      |sig| == 64 && sig[..32] == ToBytes(c.X(Times(c.g, k, c.gen)), 32)
  {
    if ValidKey(c, seckey) {
      ReduceIsRemainder(o.Nonce(EvenScalar(c, FromBytes(seckey)), PublicKey(c, seckey).value, msg), c.order);
    }
  }

  // ---------------------------------------------------------------- the verifiers as they are run

  /** The recomputed point, on the fixed-length loop. */
  method Recompute<T(!new)>(c: Curve<T>, s: nat, m: nat, pt: T, bits: nat) returns (q: T)
    requires CurveLaws(c) && c.g.In(pt) && s < Pow2(bits) && m < Pow2(bits)
    ensures q == Recomputed(c, s, m, pt)
  {
    var a := MulFixed(c.g, c.gen, s, bits);
    var b := MulFixed(c.g, pt, m, bits);
    SmallMod(s, Pow2(bits));
    SmallMod(m, Pow2(bits));
    Same(c, a, Times(c.g, s, c.gen));
    Same(c, b, Times(c.g, m, pt));
    q := c.g.Add(a, b);
  }

  predicate LiftedIsMember<T>(c: Curve<T>, x: nat)
  {
    c.LiftX(x).Some? ==> c.g.In(c.LiftX(x).value)
  }

  method RunNumbers<T(==,!new)>(c: Curve<T>, x: nat, r: nat, s: nat, e: nat, bits: nat) returns (ok: bool)
    requires CurveLaws(c) && e < c.order < Pow2(bits) && LiftedIsMember(c, x)
    ensures ok <==> VerifyNumbers(c, x, r, s, e)
  {
    var pt := c.LiftX(x);
    if pt.None? || r >= c.fieldSize || s >= c.order { return false; }
    var q := Recompute(c, s, c.order - e, pt.value, bits);
    ok := Accepted(c, q, r);
  }

  /**
   The check as it is run, on a fixed-length loop (256 steps in the source): it decides the same as the definition
   when the order fits the loop and lifted points are group members.
   */
  method RunVerify<T(==,!new)>(c: Curve<T>, o: Oracle, pub: Bytes, msg: Bytes, sig: Bytes, bits: nat) returns (ok: bool)
    requires CurveLaws(c) && c.order < Pow2(bits) && LiftedIsMember(c, FromBytes(pub))
    ensures ok <==> Verify(c, o, pub, msg, sig)
  {
    if |pub| != 32 || |sig| != 64 { return false; }
    var e := ChallengeScalar(c, o, sig[..32], pub, msg);
    ok := RunNumbers(c, FromBytes(pub), FromBytes(sig[..32]), FromBytes(sig[32..]), e, bits);
  }

  /** The recomputed point, on the loop that runs while scalar bits remain. */
  method RecomputeWhile<T(!new)>(c: Curve<T>, s: nat, m: nat, pt: T) returns (q: T)
    requires CurveLaws(c) && c.g.In(pt)
    ensures q == Recomputed(c, s, m, pt)
  {
    var a := MulWhile(c.g, s, c.gen);
    var b := MulWhile(c.g, m, pt);
    Same(c, a, Times(c.g, s, c.gen));
    Same(c, b, Times(c.g, m, pt));
    q := c.g.Add(a, b);
  }

  method RunEventNumbers<T(==,!new)>(c: Curve<T>, x: nat, r: nat, s: nat, e: nat) returns (ok: bool)
    requires CurveLaws(c) && e < c.order && LiftedIsMember(c, x)
    ensures ok <==> VerifyNumbers(c, x, r, s, e)
  {
    var pt := c.LiftX(x);
    if pt.None? { return false; }
    if r >= c.fieldSize || s >= c.order { return false; }
    var q := RecomputeWhile(c, s, c.order - e, pt.value);
    ok := Accepted(c, q, r);
  }

  /** The verifier for event ids: the same decision, on messages of 32 bytes only. */
  method RunEventVerify<T(==,!new)>(c: Curve<T>, o: Oracle, msg: Bytes, pub: Bytes, sig: Bytes) returns (ok: bool)
    requires CurveLaws(c) && LiftedIsMember(c, FromBytes(pub))
    ensures ok <==> |msg| == 32 && Verify(c, o, pub, msg, sig)
  {
    if |msg| != 32 || |pub| != 32 || |sig| != 64 { return false; }
    var e := ChallengeScalar(c, o, sig[..32], pub, msg);
    ok := RunEventNumbers(c, FromBytes(pub), FromBytes(sig[..32]), FromBytes(sig[32..]), e);
  }
}
