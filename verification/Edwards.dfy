/** Ed25519 points: extended-coordinate addition against the affine twisted-Edwards sum (section 5.1.4 of RFC 8032). */
module Edwards {
  import opened Residues
  import D = DoubleAndAdd

  /** The curve y*y - x*x = 1 + d*x*x*y*y over the residues modulo p. */
  datatype Curve = Curve(p: Modulus, d: int)

  datatype Extended = Extended(x: int, y: int, z: int, t: int)

  datatype Affine = Affine(x: int, y: int)

  function Add(c: Curve, P: Extended, Q: Extended): (R: Extended)
  {
    var a := (P.y - P.x) * (Q.y - Q.x) % c.p;
    var b := (P.y + P.x) * (Q.y + Q.x) % c.p;
    var cc := 2 * P.t * Q.t * c.d % c.p;
    var dd := 2 * P.z * Q.z % c.p;
    Combine(c.p, b - a, dd - cc, dd + cc, b + a)
  }

  function Combine(p: Modulus, e: int, f: int, g: int, h: int): Extended
  {
    Extended(e * f % p, g * h % p, f * g % p, e * h % p)
  }

  /** The cross-multiplied comparison. */
  predicate Eq(c: Curve, P: Extended, Q: Extended)
  {
    (P.x * Q.z - Q.x * P.z) % c.p == 0 && (P.y * Q.z - Q.y * P.z) % c.p == 0
  }

  const Origin: Extended := Extended(0, 1, 1, 0)

  // ----- The redundant coordinate

  /** Every sum keeps the product of the first two coordinates equal to that of the last two, whatever was added. */
  lemma SumKeepsProduct(c: Curve, P: Extended, Q: Extended)
    ensures var R := Add(c, P, Q); Cong(c.p, R.x * R.y, R.z * R.t)
  {
    var e, f, g, h := CombinedFrom(c, P, Q);
    CombineKeepsProduct(c.p, e, f, g, h);
  }

  /** A sum is combined from four numbers. */
  lemma CombinedFrom(c: Curve, P: Extended, Q: Extended) returns (e: int, f: int, g: int, h: int)
    ensures Add(c, P, Q) == Combine(c.p, e, f, g, h)
  {
    var a := (P.y - P.x) * (Q.y - Q.x) % c.p;
    var b := (P.y + P.x) * (Q.y + Q.x) % c.p;
    var cc := 2 * P.t * Q.t * c.d % c.p;
    var dd := 2 * P.z * Q.z % c.p;
    e, f, g, h := b - a, dd - cc, dd + cc, b + a;
  }

  lemma CombineKeepsProduct(p: Modulus, e: int, f: int, g: int, h: int)
    ensures var R := Combine(p, e, f, g, h); Cong(p, R.x * R.y, R.z * R.t)
  {
    var R := Combine(p, e, f, g, h);
    Reduced(p, e * f);
    Reduced(p, g * h);
    Reduced(p, f * g);
    Reduced(p, e * h);
    Products(p, R.x, e * f, R.y, g * h);
    Products(p, R.z, f * g, R.t, e * h);
    Regroup(e, f, g, h);
    Sym(p, R.z * R.t, (f * g) * (e * h));
    Trans(p, R.x * R.y, (e * f) * (g * h), R.z * R.t);
  }

  lemma Regroup(e: int, f: int, g: int, h: int)
    ensures (e * f) * (g * h) == (f * g) * (e * h)
  {
  }

  // ----- The affine sum

  function Cross(a: Affine, b: Affine): int { a.x * b.y + a.y * b.x }

  function Dot(a: Affine, b: Affine): int { a.y * b.y + a.x * b.x }

  function Delta(c: Curve, a: Affine, b: Affine): int { c.d * (a.x * a.y) * (b.x * b.y) }

  /** Both denominators of the affine law are non-zero. */
  ghost predicate Defined(c: Curve, a: Affine, b: Affine)
  {
    !Cong(c.p, 1 + Delta(c, a, b), 0) && !Cong(c.p, 1 - Delta(c, a, b), 0)
  }

  /** The affine law: x3 = (x1*y2 + y1*x2) / (1 + delta), y3 = (y1*y2 + x1*x2) / (1 - delta). */
  ghost function Sum(c: Curve, a: Affine, b: Affine): Affine
  {
    Affine(Cross(a, b) * Inv(c.p, 1 + Delta(c, a, b)) % c.p, Dot(a, b) * Inv(c.p, 1 - Delta(c, a, b)) % c.p)
  }

  /** The law without division. */
  ghost predicate IsSum(c: Curve, a: Affine, b: Affine, s: Affine)
  {
    && Cong(c.p, s.x * (1 + Delta(c, a, b)), Cross(a, b))
    && Cong(c.p, s.y * (1 - Delta(c, a, b)), Dot(a, b))
  }

  predicate Canonical(c: Curve, a: Affine)
  {
    0 <= a.x < c.p && 0 <= a.y < c.p
  }

  lemma Quotient(p: Modulus, n: int, m: int)
    requires Field(p) && !Cong(p, m, 0)
    ensures Cong(p, (n * Inv(p, m) % p) * m, n)
  {
    Reduced(p, n * Inv(p, m));
    Scaled(p, n * Inv(p, m) % p, n * Inv(p, m), m);
    Undo(p, n, m);
    Trans(p, (n * Inv(p, m) % p) * m, n * Inv(p, m) * m, n);
  }

  lemma SumIsSum(c: Curve, a: Affine, b: Affine)
    requires Field(c.p) && Defined(c, a, b)
    ensures IsSum(c, a, b, Sum(c, a, b)) && Canonical(c, Sum(c, a, b))
  {
    Quotient(c.p, Cross(a, b), 1 + Delta(c, a, b));
    Quotient(c.p, Dot(a, b), 1 - Delta(c, a, b));
  }

  lemma QuotientUnique(p: Modulus, x: int, y: int, m: int, n: int)
    requires Field(p) && !Cong(p, m, 0) && Cong(p, x * m, n) && Cong(p, y * m, n)
    ensures Cong(p, x, y)
  {
    Sym(p, y * m, n);
    Trans(p, x * m, n, y * m);
    Cancel(p, x, y, m);
  }

  lemma SumUnique(c: Curve, a: Affine, b: Affine, s: Affine)
    requires Field(c.p) && Defined(c, a, b) && IsSum(c, a, b, s) && Canonical(c, s)
    ensures s == Sum(c, a, b)
  {
    SumIsSum(c, a, b);
    var r := Sum(c, a, b);
    QuotientUnique(c.p, s.x, r.x, 1 + Delta(c, a, b), Cross(a, b));
    QuotientUnique(c.p, s.y, r.y, 1 - Delta(c, a, b), Dot(a, b));
    ReducedEqual(c.p, s.x, r.x);
    ReducedEqual(c.p, s.y, r.y);
  }

  // ----- Extended coordinates stand for affine points

  ghost predicate Represents(c: Curve, P: Extended, a: Affine)
  {
    && !Cong(c.p, P.z, 0)
    && Cong(c.p, P.x, a.x * P.z)
    && Cong(c.p, P.y, a.y * P.z)
    && Cong(c.p, P.t, a.x * a.y * P.z)
  }

  lemma TimesZ(u: int, v: int, z: int, w: int)
    ensures (u * z) * (v * w) == u * v * (z * w)
  {
  }

  lemma Spread(y: int, x: int, z: int)
    ensures y * z - x * z == (y - x) * z && y * z + x * z == (y + x) * z
  {
  }

  /** (y1 - x1)(y2 - x2) and (y1 + x1)(y2 + x2), scaled. */
  lemma Factor(p: Modulus, U: int, V: int, u: int, v: int, z: int, w: int)
    requires Cong(p, U, u * z) && Cong(p, V, v * w)
    ensures Cong(p, U * V % p, u * v * (z * w))
  {
    Products(p, U, u * z, V, v * w);
    TimesZ(u, v, z, w);
    ReducedProduct(p, U, V, u * v * (z * w));
  }

  lemma Differences(p: Modulus, X: int, Y: int, x: int, y: int, z: int)
    requires Cong(p, X, x * z) && Cong(p, Y, y * z)
    ensures Cong(p, Y - X, (y - x) * z) && Cong(p, Y + X, (y + x) * z)
  {
    Sums(p, Y, y * z, X, x * z);
    Spread(y, x, z);
  }

  lemma CrossAndDot(x1: int, y1: int, x2: int, y2: int, w: int)
    ensures (y1 + x1) * (y2 + x2) * w - (y1 - x1) * (y2 - x2) * w == 2 * (x1 * y2 + y1 * x2) * w
    ensures (y1 + x1) * (y2 + x2) * w + (y1 - x1) * (y2 - x2) * w == 2 * (y1 * y2 + x1 * x2) * w
  {
    var u, v := (y1 + x1) * (y2 + x2), (y1 - x1) * (y2 - x2);
    assert u - v == 2 * (x1 * y2 + y1 * x2);
    assert u + v == 2 * (y1 * y2 + x1 * x2);
    Spread(u, v, w);
  }

  /** b - a and b + a of the addition. */
  lemma EAndH(c: Curve, P: Extended, Q: Extended, m: Affine, n: Affine)
    requires Represents(c, P, m) && Represents(c, Q, n)
    ensures
      var a := (P.y - P.x) * (Q.y - Q.x) % c.p;
      var b := (P.y + P.x) * (Q.y + Q.x) % c.p;
      && Cong(c.p, b - a, 2 * Cross(m, n) * (P.z * Q.z))
      && Cong(c.p, b + a, 2 * Dot(m, n) * (P.z * Q.z))
  {
    Differences(c.p, P.x, P.y, m.x, m.y, P.z);
    Differences(c.p, Q.x, Q.y, n.x, n.y, Q.z);
    Factor(c.p, P.y - P.x, Q.y - Q.x, m.y - m.x, n.y - n.x, P.z, Q.z);
    Factor(c.p, P.y + P.x, Q.y + Q.x, m.y + m.x, n.y + n.x, P.z, Q.z);
    Sums(c.p, (P.y + P.x) * (Q.y + Q.x) % c.p, (m.y + m.x) * (n.y + n.x) * (P.z * Q.z),
         (P.y - P.x) * (Q.y - Q.x) % c.p, (m.y - m.x) * (n.y - n.x) * (P.z * Q.z));
    CrossAndDot(m.x, m.y, n.x, n.y, P.z * Q.z);
  }

  lemma Doubled(t: int, u: int, d: int)
    ensures t * u * (2 * d) == 2 * t * u * d
  {
  }

  lemma ScaledDelta(m: int, n: int, d: int, z: int, w: int)
    ensures 2 * (m * z) * (n * w) * d == 2 * (d * m * n) * (z * w)
  {
  }

  /** dd - cc and dd + cc of the addition: the two denominators, scaled. */
  lemma FAndG(c: Curve, P: Extended, Q: Extended, m: Affine, n: Affine)
    requires Represents(c, P, m) && Represents(c, Q, n)
    ensures
      var cc := 2 * P.t * Q.t * c.d % c.p;
      var dd := 2 * P.z * Q.z % c.p;
      && Cong(c.p, dd - cc, 2 * (1 - Delta(c, m, n)) * (P.z * Q.z))
      && Cong(c.p, dd + cc, 2 * (1 + Delta(c, m, n)) * (P.z * Q.z))
  {
    var p, z, w := c.p, P.z, Q.z;
    var M, N := m.x * m.y, n.x * n.y;
    Products(p, P.t, M * z, Q.t, N * w);
    Scaled(p, P.t * Q.t, (M * z) * (N * w), 2 * c.d);
    Doubled(P.t, Q.t, c.d);
    Doubled(M * z, N * w, c.d);
    ScaledDelta(M, N, c.d, z, w);
    ReducedProduct(p, 2 * P.t * Q.t, c.d, 2 * Delta(c, m, n) * (z * w));
    Refl(p, 2 * z * w);
    ReducedProduct(p, 2 * z, w, 2 * z * w);
    Sums(p, 2 * z * w % p, 2 * z * w, 2 * P.t * Q.t * c.d % p, 2 * Delta(c, m, n) * (z * w));
    OneAndDelta(Delta(c, m, n), z, w);
  }

  lemma OneAndDelta(t: int, z: int, w: int)
    ensures 2 * z * w - 2 * t * (z * w) == 2 * (1 - t) * (z * w)
    ensures 2 * z * w + 2 * t * (z * w) == 2 * (1 + t) * (z * w)
  {
  }

  /** n = s*m, doubled and scaled. */
  lemma ScaledLaw(p: Modulus, E: int, G: int, n: int, m: int, s: int, w: int)
    requires Cong(p, E, 2 * n * w) && Cong(p, G, 2 * m * w) && Cong(p, s * m, n)
    ensures Cong(p, E, s * G)
  {
    Scaled(p, s * m, n, 2 * w);
    Scaled(p, G, 2 * m * w, s);
    Sorted(m, n, s, w, G);
    Trans(p, s * G, s * m * (2 * w), 2 * n * w);
    Sym(p, s * G, 2 * n * w);
    Trans(p, E, 2 * n * w, s * G);
  }

  lemma Sorted(m: int, n: int, s: int, w: int, G: int)
    ensures 2 * m * w * s == s * m * (2 * w) && n * (2 * w) == 2 * n * w && G * s == s * G
  {
  }

  lemma CombineRepresents(c: Curve, e: int, f: int, g: int, h: int, s: Affine)
    requires Cong(c.p, e, s.x * g) && Cong(c.p, h, s.y * f) && !Cong(c.p, f * g, 0)
    ensures Represents(c, Combine(c.p, e, f, g, h), s)
  {
    var p := c.p;
    var R := Combine(p, e, f, g, h);
    Reduced(p, f * g);
    ZeroCong(p, R.z, f * g);
    Sym(p, R.z, f * g);
    Numerators(p, e, f, g, h, s.x, s.y);
    Coordinate(p, e * f, s.x, f * g, R.z);
    Coordinate(p, g * h, s.y, f * g, R.z);
    Coordinate(p, e * h, s.x * s.y, f * g, R.z);
  }

  lemma Numerators(p: Modulus, e: int, f: int, g: int, h: int, x: int, y: int)
    requires Cong(p, e, x * g) && Cong(p, h, y * f)
    ensures Cong(p, e * f, x * (f * g)) && Cong(p, g * h, y * (f * g)) && Cong(p, e * h, x * y * (f * g))
  {
    Scaled(p, e, x * g, f);
    Scaled(p, h, y * f, g);
    Products(p, e, x * g, h, y * f);
    Ordered(f, g, h, x, y);
  }

  lemma Ordered(f: int, g: int, h: int, x: int, y: int)
    ensures x * g * f == x * (f * g) && y * f * g == y * (f * g)
    ensures h * g == g * h && (x * g) * (y * f) == x * y * (f * g)
  {
  }

  lemma Coordinate(p: Modulus, v: int, u: int, z: int, z': int)
    requires Cong(p, v, u * z) && Cong(p, z, z')
    ensures Cong(p, v % p, u * z')
  {
    Reduced(p, v);
    Trans(p, v % p, v, u * z);
    Scaled(p, z, z', u);
    assert z * u == u * z && z' * u == u * z';
    Trans(p, v % p, u * z, u * z');
  }

  /** The new third coordinate is non-zero exactly when both denominators are. */
  lemma SumDefined(c: Curve, P: Extended, Q: Extended, m: Affine, n: Affine)
    requires Field(c.p) && Represents(c, P, m) && Represents(c, Q, n)
    ensures !Cong(c.p, Add(c, P, Q).z, 0) <==> Defined(c, m, n)
    ensures
      var cc := 2 * P.t * Q.t * c.d % c.p;
      var dd := 2 * P.z * Q.z % c.p;
      !Cong(c.p, (dd - cc) * (dd + cc), 0) <==> Defined(c, m, n)
  {
    var cc := 2 * P.t * Q.t * c.d % c.p;
    var dd := 2 * P.z * Q.z % c.p;
    FAndG(c, P, Q, m, n);
    Denominator(c.p, dd - cc, 1 - Delta(c, m, n), P.z, Q.z);
    Denominator(c.p, dd + cc, 1 + Delta(c, m, n), P.z, Q.z);
    ZeroProduct(c.p, dd - cc, dd + cc);
    Reduced(c.p, (dd - cc) * (dd + cc));
    ZeroCong(c.p, (dd - cc) * (dd + cc) % c.p, (dd - cc) * (dd + cc));
  }

  lemma Denominator(p: Modulus, F: int, m: int, z: int, w: int)
    requires Field(p) && Cong(p, F, 2 * m * (z * w)) && !Cong(p, z, 0) && !Cong(p, w, 0)
    ensures Cong(p, F, 0) <==> Cong(p, m, 0)
  {
    TwoIsNotZero(p);
    ZeroCong(p, F, 2 * m * (z * w));
    ZeroProduct(p, z, w);
    ZeroProduct(p, 2 * m, z * w);
    ZeroProduct(p, 2, m);
  }

  /** Where both denominators are non-zero the result represents the affine sum. */
  lemma AddRepresentsSum(c: Curve, P: Extended, Q: Extended, m: Affine, n: Affine)
    requires Field(c.p) && Represents(c, P, m) && Represents(c, Q, n) && Defined(c, m, n)
    ensures Represents(c, Add(c, P, Q), Sum(c, m, n))
  {
    var s, w := Sum(c, m, n), P.z * Q.z;
    var a := (P.y - P.x) * (Q.y - Q.x) % c.p;
    var b := (P.y + P.x) * (Q.y + Q.x) % c.p;
    var cc := 2 * P.t * Q.t * c.d % c.p;
    var dd := 2 * P.z * Q.z % c.p;
    EAndH(c, P, Q, m, n);
    FAndG(c, P, Q, m, n);
    SumDefined(c, P, Q, m, n);
    SumIsSum(c, m, n);
    ScaledLaw(c.p, b - a, dd + cc, Cross(m, n), 1 + Delta(c, m, n), s.x, w);
    ScaledLaw(c.p, b + a, dd - cc, Dot(m, n), 1 - Delta(c, m, n), s.y, w);
    CombineRepresents(c, b - a, dd - cc, dd + cc, b + a, s);
  }

  // ----- Equality

  lemma CrossMultiplied(p: Modulus, X: int, x: int, z: int, X': int, x': int, z': int)
    requires Field(p) && !Cong(p, z, 0) && !Cong(p, z', 0) && Cong(p, X, x * z) && Cong(p, X', x' * z')
    ensures Cong(p, X * z', X' * z) <==> Cong(p, x, x')
  {
    var w := z * z';
    ZeroProduct(p, z, z');
    Scaled(p, X, x * z, z');
    Scaled(p, X', x' * z', z);
    assert x * z * z' == x * w && x' * z' * z == x' * w;
    Sym(p, X * z', x * w);
    Sym(p, X' * z, x' * w);
    if Cong(p, X * z', X' * z) {
      Trans(p, x * w, X * z', X' * z);
      Trans(p, x * w, X' * z, x' * w);
      Cancel(p, x, x', w);
    }
    if Cong(p, x, x') {
      Scaled(p, x, x', w);
      Trans(p, X * z', x * w, x' * w);
      Trans(p, X * z', x' * w, X' * z);
    }
  }

  /** The cross-multiplied test decides whether two representatives stand for one affine point. */
  lemma EqIsAffineEquality(c: Curve, P: Extended, Q: Extended, m: Affine, n: Affine)
    requires Field(c.p) && Represents(c, P, m) && Represents(c, Q, n)
    ensures Eq(c, P, Q) <==> Cong(c.p, m.x, n.x) && Cong(c.p, m.y, n.y)
    ensures Canonical(c, m) && Canonical(c, n) ==> (Eq(c, P, Q) <==> m == n)
  {
    CongIsRemainder(c.p, P.x * Q.z, Q.x * P.z);
    CongIsRemainder(c.p, P.y * Q.z, Q.y * P.z);
    CrossMultiplied(c.p, P.x, m.x, P.z, Q.x, n.x, Q.z);
    CrossMultiplied(c.p, P.y, m.y, P.z, Q.y, n.y, Q.z);
    Refl(c.p, m.x);
    Refl(c.p, m.y);
    if Canonical(c, m) && Canonical(c, n) && Cong(c.p, m.x, n.x) && Cong(c.p, m.y, n.y) {
      ReducedEqual(c.p, m.x, n.x);
      ReducedEqual(c.p, m.y, n.y);
    }
  }

  // ----- The curve

  ghost predicate OnCurve(c: Curve, a: Affine)
  {
    Cong(c.p, a.y * a.y - a.x * a.x, 1 + c.d * (a.x * a.y) * (a.x * a.y))
  }

  /** Cross and dot products in terms of q = y*y - x*x, s = y*y + x*x and m = x*y of the two points. */
  lemma Norms(x1: int, y1: int, x2: int, y2: int, n1: int, n2: int)
    requires n1 == x1 * y2 + y1 * x2 && n2 == y1 * y2 + x1 * x2
    ensures n2 * n2 - n1 * n1 == (y1 * y1 - x1 * x1) * (y2 * y2 - x2 * x2)
    ensures n2 * n2 + n1 * n1 == (y1 * y1 + x1 * x1) * (y2 * y2 + x2 * x2) + 4 * ((x1 * y1) * (x2 * y2))
  {
  }

  lemma NormProduct(x1: int, y1: int, x2: int, y2: int)
    ensures (x1 * y2 + y1 * x2) * (y1 * y2 + x1 * x2)
         == (x1 * y1) * (y2 * y2 + x2 * x2) + (x2 * y2) * (y1 * y1 + x1 * x1)
  {
  }

  lemma NormSquare(x: int, y: int)
    ensures (y * y + x * x) * (y * y + x * x) == (y * y - x * x) * (y * y - x * x) + 4 * ((x * y) * (x * y))
  {
  }

  lemma SplitSquares(n1: int, n2: int, t: int)
    ensures n2 * n2 * ((1 + t) * (1 + t)) - n1 * n1 * ((1 - t) * (1 - t))
         == (n2 * n2 - n1 * n1) * (1 + t * t) + 2 * t * (n2 * n2 + n1 * n1)
  {
  }

  lemma SquareOfSum(m1: int, m2: int, s1: int, s2: int, k: int)
    requires k == m1 * s2 + m2 * s1
    ensures k * k == (m1 * m1) * (s2 * s2) + (m2 * m2) * (s1 * s1) + 2 * (m1 * m2) * (s1 * s2)
  {
  }

  /** The polynomial fact behind closure, with a and b standing for d*m*m of the two points. */
  lemma ClosurePolynomial(a: int, b: int)
    ensures (1 + a) * (1 + b) * (1 + a * b)
         == (1 - a * b) * (1 - a * b) + a * ((1 + b) * (1 + b)) + b * ((1 + a) * (1 + a))
  {
  }

  lemma ClosureMod(p: Modulus, a: int, b: int, q1: int, q2: int)
    requires Cong(p, q1, 1 + a) && Cong(p, q2, 1 + b)
    ensures Cong(p, q1 * q2 * (1 + a * b), (1 - a * b) * (1 - a * b) + a * (q2 * q2) + b * (q1 * q1))
  {
    var k := (1 - a * b) * (1 - a * b);
    Products(p, q1, 1 + a, q2, 1 + b);
    Scaled(p, q1 * q2, (1 + a) * (1 + b), 1 + a * b);
    ScaledSquare(p, q1, 1 + a, b);
    ScaledSquare(p, q2, 1 + b, a);
    Refl(p, k);
    Sums(p, k, k, a * (q2 * q2), a * ((1 + b) * (1 + b)));
    Sums(p, k + a * (q2 * q2), k + a * ((1 + b) * (1 + b)), b * (q1 * q1), b * ((1 + a) * (1 + a)));
    ClosurePolynomial(a, b);
    var rhs := k + a * (q2 * q2) + b * (q1 * q1);
    var mid := (1 + a) * (1 + b) * (1 + a * b);
    Sym(p, rhs, mid);
    Trans(p, q1 * q2 * (1 + a * b), mid, rhs);
  }

  lemma ScaledSquare(p: Modulus, q: int, r: int, b: int)
    requires Cong(p, q, r)
    ensures Cong(p, b * (q * q), b * (r * r))
  {
    Products(p, q, r, q, r);
    Scaled(p, q * q, r * r, b);
    assert q * q * b == b * (q * q) && r * r * b == b * (r * r);
  }

  /** delta, its square and the two scaled squares. */
  lemma Deltas(d: int, m1: int, m2: int)
    ensures (d * m1 * m2) * (d * m1 * m2) == (d * m1 * m1) * (d * m2 * m2)
    ensures 2 * (d * m1 * m2) * (4 * (m1 * m2)) == 8 * d * ((m1 * m1) * (m2 * m2))
  {
  }

  /** The exact integer difference of the two sides, before any reduction. */
  lemma CurveGap(d: int, t: int, m1: int, m2: int, s1: int, s2: int, q1: int, q2: int, n1: int, n2: int)
    requires t == d * m1 * m2
    requires n2 * n2 - n1 * n1 == q1 * q2
    requires n2 * n2 + n1 * n1 == s1 * s2 + 4 * (m1 * m2)
    requires n1 * n2 == m1 * s2 + m2 * s1
    requires s1 * s1 == q1 * q1 + 4 * (m1 * m1) && s2 * s2 == q2 * q2 + 4 * (m2 * m2)
    ensures
      var a, b := d * m1 * m1, d * m2 * m2;
      n2 * n2 * ((1 + t) * (1 + t)) - n1 * n1 * ((1 - t) * (1 - t)) - d * ((n1 * n2) * (n1 * n2))
      == q1 * q2 * (1 + a * b) - a * (q2 * q2) - b * (q1 * q1)
  {
    var a, b, ss := d * m1 * m1, d * m2 * m2, s1 * s2;
    SplitSquares(n1, n2, t);
    SquareOfSum(m1, m2, s1, s2, n1 * n2);
    Deltas(d, m1, m2);
    assert 2 * t * (ss + 4 * (m1 * m2)) == 2 * t * ss + 8 * d * ((m1 * m1) * (m2 * m2)) by {
      assert 2 * t * (ss + 4 * (m1 * m2)) == 2 * t * ss + 2 * t * (4 * (m1 * m2));
    }
    ScaledSum(d, m1, m2, q1 * q1, q2 * q2, ss);
  }

  lemma ScaledSum(d: int, m1: int, m2: int, u1: int, u2: int, ss: int)
    ensures d * ((m1 * m1) * (u2 + 4 * (m2 * m2)) + (m2 * m2) * (u1 + 4 * (m1 * m1)) + 2 * (m1 * m2) * ss)
         == d * m1 * m1 * u2 + d * m2 * m2 * u1 + 8 * d * ((m1 * m1) * (m2 * m2)) + 2 * (d * m1 * m2) * ss
  {
  }

  /** The curve equation of a sum, with the denominators multiplied out. */
  lemma SumOnCurveScaled(c: Curve, a: Affine, b: Affine)
    requires OnCurve(c, a) && OnCurve(c, b)
    ensures
      var t, n1, n2 := Delta(c, a, b), Cross(a, b), Dot(a, b);
      Cong(c.p, n2 * n2 * ((1 + t) * (1 + t)) - n1 * n1 * ((1 - t) * (1 - t)),
                (1 - t * t) * (1 - t * t) + c.d * ((n1 * n2) * (n1 * n2)))
  {
    var p, d, t, n1, n2 := c.p, c.d, Delta(c, a, b), Cross(a, b), Dot(a, b);
    var q1, q2 := a.y * a.y - a.x * a.x, b.y * b.y - b.x * b.x;
    var s1, s2 := a.y * a.y + a.x * a.x, b.y * b.y + b.x * b.x;
    var m1, m2 := a.x * a.y, b.x * b.y;
    Norms(a.x, a.y, b.x, b.y, n1, n2);
    NormProduct(a.x, a.y, b.x, b.y);
    NormSquare(a.x, a.y);
    NormSquare(b.x, b.y);
    CurveGap(d, t, m1, m2, s1, s2, q1, q2, n1, n2);
    Deltas(d, m1, m2);
    ClosureMod(p, d * m1 * m1, d * m2 * m2, q1, q2);
    Shifted(p, q1 * q2 * (1 + t * t), (1 - t * t) * (1 - t * t), d * m1 * m1 * (q2 * q2) + d * m2 * m2 * (q1 * q1),
            n2 * n2 * ((1 + t) * (1 + t)) - n1 * n1 * ((1 - t) * (1 - t)), d * ((n1 * n2) * (n1 * n2)));
  }

  lemma Shifted(p: Modulus, u: int, k: int, v: int, l: int, r: int)
    requires Cong(p, u, k + v) && l - r == u - v
    ensures Cong(p, l, k + r)
  {
    var i :| Apart(p, i, u, k + v);
    assert Apart(p, i, l, k + r);
  }

  /** The affine sum of two curve points is a curve point. */
  lemma SumOnCurve(c: Curve, a: Affine, b: Affine)
    requires Field(c.p) && OnCurve(c, a) && OnCurve(c, b) && Defined(c, a, b)
    ensures OnCurve(c, Sum(c, a, b)) && Canonical(c, Sum(c, a, b))
  {
    var p, d, t, n1, n2, s := c.p, c.d, Delta(c, a, b), Cross(a, b), Dot(a, b), Sum(c, a, b);
    SumIsSum(c, a, b);
    SumOnCurveScaled(c, a, b);
    OnePlusOneMinus(t);
    Divided(p, d, s.x, s.y, 1 + t, 1 - t, n1, n2);
  }

  lemma OnePlusOneMinus(t: int)
    ensures (1 + t) * (1 - t) == 1 - t * t
  {
  }

  lemma Divided(p: Modulus, d: int, x: int, y: int, f: int, g: int, n1: int, n2: int)
    requires Field(p) && !Cong(p, f, 0) && !Cong(p, g, 0)
    requires Cong(p, x * f, n1) && Cong(p, y * g, n2)
    requires Cong(p, n2 * n2 * (f * f) - n1 * n1 * (g * g), (f * g) * (f * g) + d * ((n1 * n2) * (n1 * n2)))
    ensures Cong(p, y * y - x * x, 1 + d * (x * y) * (x * y))
  {
    var w := (f * g) * (f * g);
    ZeroProduct(p, f, g);
    ZeroProduct(p, f * g, f * g);
    DividedLeft(p, x, y, f, g, n1, n2);
    DividedRight(p, d, x, y, f, g, n1, n2);
    var l, r := n2 * n2 * (f * f) - n1 * n1 * (g * g), w + d * ((n1 * n2) * (n1 * n2));
    var l', r' := (y * y - x * x) * w, (1 + d * (x * y) * (x * y)) * w;
    Trans(p, l', l, r);
    Sym(p, r', r);
    Trans(p, l', r, r');
    Cancel(p, y * y - x * x, 1 + d * (x * y) * (x * y), w);
  }

  lemma DividedLeft(p: Modulus, x: int, y: int, f: int, g: int, n1: int, n2: int)
    requires Cong(p, x * f, n1) && Cong(p, y * g, n2)
    ensures Cong(p, (y * y - x * x) * ((f * g) * (f * g)), n2 * n2 * (f * f) - n1 * n1 * (g * g))
  {
    Products(p, x * f, n1, x * f, n1);
    Products(p, y * g, n2, y * g, n2);
    Scaled(p, (x * f) * (x * f), n1 * n1, g * g);
    Scaled(p, (y * g) * (y * g), n2 * n2, f * f);
    Sums(p, (y * g) * (y * g) * (f * f), n2 * n2 * (f * f), (x * f) * (x * f) * (g * g), n1 * n1 * (g * g));
    FourFactors(x, y, f, g);
  }

  lemma FourFactors(x: int, y: int, f: int, g: int)
    ensures (y * g) * (y * g) * (f * f) - (x * f) * (x * f) * (g * g) == (y * y - x * x) * ((f * g) * (f * g))
    ensures (x * f) * (y * g) == (x * y) * (f * g)
  {
  }

  lemma DividedRight(p: Modulus, d: int, x: int, y: int, f: int, g: int, n1: int, n2: int)
    requires Cong(p, x * f, n1) && Cong(p, y * g, n2)
    ensures Cong(p, (1 + d * (x * y) * (x * y)) * ((f * g) * (f * g)), (f * g) * (f * g) + d * ((n1 * n2) * (n1 * n2)))
  {
    var w := (f * g) * (f * g);
    Products(p, x * f, n1, y * g, n2);
    FourFactors(x, y, f, g);
    ScaledSquare(p, (x * y) * (f * g), n1 * n2, d);
    Refl(p, w);
    Sums(p, w, w, d * (((x * y) * (f * g)) * ((x * y) * (f * g))), d * ((n1 * n2) * (n1 * n2)));
    Distributed(d, x * y, f * g);
  }

  lemma Distributed(d: int, m: int, v: int)
    ensures v * v + d * ((m * v) * (m * v)) == (1 + d * m * m) * (v * v)
  {
  }

  // ----- Extended points of the curve

  /** The extended form of the curve equation, with a non-zero third coordinate. */
  predicate Point(c: Curve, P: Extended)
  {
    && P.z % c.p != 0
    && (P.x * P.y - P.z * P.t) % c.p == 0
    && (P.y * P.y - P.x * P.x - (P.z * P.z + c.d * (P.t * P.t))) % c.p == 0
  }

  ghost function AffineOf(c: Curve, P: Extended): Affine
  {
    Affine(P.x * Inv(c.p, P.z) % c.p, P.y * Inv(c.p, P.z) % c.p)
  }

  lemma PointIsCong(c: Curve, P: Extended)
    ensures Point(c, P) <==>
      && !Cong(c.p, P.z, 0)
      && Cong(c.p, P.x * P.y, P.z * P.t)
      && Cong(c.p, P.y * P.y - P.x * P.x, P.z * P.z + c.d * (P.t * P.t))
  {
    CongIsRemainder(c.p, P.z, 0);
    CongIsRemainder(c.p, P.x * P.y, P.z * P.t);
    CongIsRemainder(c.p, P.y * P.y - P.x * P.x, P.z * P.z + c.d * (P.t * P.t));
  }

  /** The fourth coordinate holds the product exactly when X*Y = Z*T. */
  lemma Fourth(p: Modulus, X: int, Y: int, z: int, T: int, x: int, y: int)
    requires Field(p) && !Cong(p, z, 0) && Cong(p, X, x * z) && Cong(p, Y, y * z)
    ensures Cong(p, X * Y, z * T) <==> Cong(p, T, x * y * z)
  {
    Products(p, X, x * z, Y, y * z);
    assert (x * z) * (y * z) == (x * y * z) * z && z * T == T * z;
    Sym(p, X * Y, (x * y * z) * z);
    if Cong(p, X * Y, z * T) {
      Trans(p, (x * y * z) * z, X * Y, T * z);
      Sym(p, (x * y * z) * z, T * z);
      Cancel(p, T, x * y * z, z);
    }
    if Cong(p, T, x * y * z) {
      Scaled(p, T, x * y * z, z);
      Sym(p, T * z, (x * y * z) * z);
      Trans(p, X * Y, (x * y * z) * z, T * z);
    }
  }

  lemma SquaresScaled(p: Modulus, X: int, Y: int, x: int, y: int, z: int)
    requires Cong(p, X, x * z) && Cong(p, Y, y * z)
    ensures Cong(p, Y * Y - X * X, (y * y - x * x) * (z * z))
  {
    Products(p, X, x * z, X, x * z);
    Products(p, Y, y * z, Y, y * z);
    Sums(p, Y * Y, (y * z) * (y * z), X * X, (x * z) * (x * z));
    TimesZ(x, x, z, z);
    TimesZ(y, y, z, z);
    Spread(y * y, x * x, z * z);
  }

  lemma RightScaled(p: Modulus, d: int, z: int, T: int, m: int)
    requires Cong(p, T, m * z)
    ensures Cong(p, z * z + d * (T * T), (1 + d * m * m) * (z * z))
  {
    ScaledSquare(p, T, m * z, d);
    Refl(p, z * z);
    Sums(p, z * z, z * z, d * (T * T), d * ((m * z) * (m * z)));
    Distributed(d, m, z);
  }

  /** Equal after scaling, equal before. */
  lemma Unscaled(p: Modulus, L: int, R: int, l: int, r: int, w: int)
    requires Field(p) && !Cong(p, w, 0) && Cong(p, L, l * w) && Cong(p, R, r * w)
    ensures Cong(p, L, R) <==> Cong(p, l, r)
  {
    Sym(p, L, l * w);
    Sym(p, R, r * w);
    if Cong(p, L, R) {
      Trans(p, l * w, L, R);
      Trans(p, l * w, R, r * w);
      Cancel(p, l, r, w);
    }
    if Cong(p, l, r) {
      Scaled(p, l, r, w);
      Trans(p, L, l * w, r * w);
      Trans(p, L, r * w, R);
    }
  }

  /** A representative satisfies the extended equation exactly when its point satisfies the affine one. */
  lemma PointIffOnCurve(c: Curve, P: Extended, a: Affine)
    requires Field(c.p) && Represents(c, P, a)
    ensures Point(c, P) <==> OnCurve(c, a)
  {
    PointIsCong(c, P);
    Fourth(c.p, P.x, P.y, P.z, P.t, a.x, a.y);
    SquaresScaled(c.p, P.x, P.y, a.x, a.y, P.z);
    RightScaled(c.p, c.d, P.z, P.t, a.x * a.y);
    ZeroProduct(c.p, P.z, P.z);
    Unscaled(c.p, P.y * P.y - P.x * P.x, P.z * P.z + c.d * (P.t * P.t),
             a.y * a.y - a.x * a.x, 1 + c.d * (a.x * a.y) * (a.x * a.y), P.z * P.z);
  }

  /** Every extended point stands for exactly one reduced affine point, and that one is on the curve. */
  lemma PointRepresents(c: Curve, P: Extended)
    requires Field(c.p) && Point(c, P)
    ensures Represents(c, P, AffineOf(c, P)) && OnCurve(c, AffineOf(c, P)) && Canonical(c, AffineOf(c, P))
  {
    var a := AffineOf(c, P);
    PointIsCong(c, P);
    Quotient(c.p, P.x, P.z);
    Quotient(c.p, P.y, P.z);
    Sym(c.p, a.x * P.z, P.x);
    Sym(c.p, a.y * P.z, P.y);
    Fourth(c.p, P.x, P.y, P.z, P.t, a.x, a.y);
    PointIffOnCurve(c, P, a);
  }

  lemma RepresentsUnique(c: Curve, P: Extended, a: Affine)
    requires Field(c.p) && Point(c, P) && Represents(c, P, a) && Canonical(c, a)
    ensures a == AffineOf(c, P)
  {
    PointRepresents(c, P);
    EqIsAffineEquality(c, P, P, a, AffineOf(c, P));
    CongIsRemainder(c.p, P.x * P.z, P.x * P.z);
    CongIsRemainder(c.p, P.y * P.z, P.y * P.z);
    Refl(c.p, P.x * P.z);
    Refl(c.p, P.y * P.z);
  }

  // ----- The group

  ghost predicate Complete(c: Curve, a: Affine, b: Affine)
  {
    OnCurve(c, a) && OnCurve(c, b) ==> Defined(c, a, b)
  }

  ghost predicate Associates(c: Curve, a: Affine, b: Affine, e: Affine)
  {
    OnCurve(c, a) && OnCurve(c, b) && OnCurve(c, e) ==> Sum(c, Sum(c, a, b), e) == Sum(c, a, Sum(c, b, e))
  }

  /** The number theory taken as given: a prime modulus, a complete addition law, an associative one. */
  ghost predicate CurveFacts(c: Curve)
  {
    && Field(c.p)
    && (forall a, b :: Complete(c, a, b))
    && (forall a, b, e :: Associates(c, a, b, e))
  }

  /** Addition of extended points stays on the curve and represents the affine sum. */
  lemma AddOfPoints(c: Curve, P: Extended, Q: Extended)
    requires CurveFacts(c) && Point(c, P) && Point(c, Q)
    ensures Point(c, Add(c, P, Q)) && AffineOf(c, Add(c, P, Q)) == Sum(c, AffineOf(c, P), AffineOf(c, Q))
  {
    var a, b := AffineOf(c, P), AffineOf(c, Q);
    PointRepresents(c, P);
    PointRepresents(c, Q);
    assert Complete(c, a, b);
    AddRepresentsSum(c, P, Q, a, b);
    SumOnCurve(c, a, b);
    PointIffOnCurve(c, Add(c, P, Q), Sum(c, a, b));
    RepresentsUnique(c, Add(c, P, Q), Sum(c, a, b));
  }

  lemma EqOfPoints(c: Curve, P: Extended, Q: Extended)
    requires Field(c.p) && Point(c, P) && Point(c, Q)
    ensures Eq(c, P, Q) <==> AffineOf(c, P) == AffineOf(c, Q)
  {
    PointRepresents(c, P);
    PointRepresents(c, Q);
    EqIsAffineEquality(c, P, Q, AffineOf(c, P), AffineOf(c, Q));
  }

  const Zero: Affine := Affine(0, 1)

  lemma OriginIsZero(c: Curve)
    requires Field(c.p)
    ensures Point(c, Origin) && AffineOf(c, Origin) == Zero
  {
    TwoIsNotZero(c.p);
    Refl(c.p, 0);
    Refl(c.p, 1);
    assert Represents(c, Origin, Zero);
    assert OnCurve(c, Zero);
    PointIffOnCurve(c, Origin, Zero);
    RepresentsUnique(c, Origin, Zero);
  }

  lemma ZeroIsNeutral(c: Curve, a: Affine)
    requires Field(c.p) && Canonical(c, a)
    ensures Sum(c, Zero, a) == a && Sum(c, a, Zero) == a
  {
    TwoIsNotZero(c.p);
    Refl(c.p, a.x);
    Refl(c.p, a.y);
    assert Delta(c, Zero, a) == 0 && Cross(Zero, a) == a.x && Dot(Zero, a) == a.y;
    assert Delta(c, a, Zero) == 0 && Cross(a, Zero) == a.x && Dot(a, Zero) == a.y;
    SumUnique(c, Zero, a, a);
    SumUnique(c, a, Zero, a);
  }

  /** Extended points, the source's addition, and the source's equality test. */
  function Points(c: Curve): D.Group<Extended>
  {
    D.Group((P: Extended) => Point(c, P), (P: Extended, Q: Extended) => Add(c, P, Q), Origin,
            (P: Extended, Q: Extended) => Eq(c, P, Q))
  }

  lemma GroupAssociative(c: Curve, P: Extended, Q: Extended, R: Extended)
    requires CurveFacts(c)
    ensures D.Associative(Points(c), P, Q, R)
  {
    if Point(c, P) && Point(c, Q) && Point(c, R) {
      AddOfPoints(c, P, Q);
      AddOfPoints(c, Q, R);
      AddOfPoints(c, Add(c, P, Q), R);
      AddOfPoints(c, P, Add(c, Q, R));
      PointRepresents(c, P);
      PointRepresents(c, Q);
      PointRepresents(c, R);
      assert Associates(c, AffineOf(c, P), AffineOf(c, Q), AffineOf(c, R));
      EqOfPoints(c, Add(c, Add(c, P, Q), R), Add(c, P, Add(c, Q, R)));
    }
  }

  lemma GroupNeutral(c: Curve, P: Extended)
    requires CurveFacts(c)
    ensures D.Neutral(Points(c), P)
  {
    if Point(c, P) {
      OriginIsZero(c);
      NeutralAt(c, Origin, P);
    }
  }

  lemma NeutralAt(c: Curve, O: Extended, P: Extended)
    requires CurveFacts(c) && Point(c, O) && AffineOf(c, O) == Zero && Point(c, P)
    ensures Eq(c, Add(c, O, P), P) && Eq(c, Add(c, P, O), P)
  {
    PointRepresents(c, P);
    ZeroIsNeutral(c, AffineOf(c, P));
    AddOfPoints(c, O, P);
    AddOfPoints(c, P, O);
    EqOfPoints(c, Add(c, O, P), P);
    EqOfPoints(c, Add(c, P, O), P);
  }

  lemma GroupEquivalence(c: Curve, P: Extended, Q: Extended, R: Extended)
    requires CurveFacts(c)
    ensures D.Equivalence(Points(c), P, Q, R)
  {
    if Point(c, P) && Point(c, Q) && Point(c, R) {
      EqOfPoints(c, P, P);
      EqOfPoints(c, P, Q);
      EqOfPoints(c, Q, P);
      EqOfPoints(c, Q, R);
      EqOfPoints(c, P, R);
    }
  }

  lemma GroupCongruence(c: Curve, P: Extended, P': Extended, Q: Extended, Q': Extended)
    requires CurveFacts(c)
    ensures D.Congruence(Points(c), P, P', Q, Q')
  {
    if Point(c, P) && Point(c, P') && Point(c, Q) && Point(c, Q') && Eq(c, P, P') && Eq(c, Q, Q') {
      EqOfPoints(c, P, P');
      EqOfPoints(c, Q, Q');
      AddOfPoints(c, P, Q);
      AddOfPoints(c, P', Q');
      EqOfPoints(c, Add(c, P, Q), Add(c, P', Q'));
    }
  }

  lemma GroupClosed(c: Curve, P: Extended, Q: Extended)
    requires CurveFacts(c)
    ensures D.Closed(Points(c), P, Q)
  {
    if Point(c, P) && Point(c, Q) {
      AddOfPoints(c, P, Q);
    }
  }

  /** Extended points under the source's addition and equality are a group up to that equality. */
  lemma PointsLawful(c: Curve)
    requires CurveFacts(c)
    ensures D.Lawful(Points(c))
  {
    var g := Points(c);
    OriginIsZero(c);
    forall P, Q ensures D.Closed(g, P, Q) { GroupClosed(c, P, Q); }
    forall P, Q, R ensures D.Associative(g, P, Q, R) { GroupAssociative(c, P, Q, R); }
    forall P ensures D.Neutral(g, P) { GroupNeutral(c, P); }
    forall P, Q, R ensures D.Equivalence(g, P, Q, R) { GroupEquivalence(c, P, Q, R); }
    forall P, P', Q, Q' ensures D.Congruence(g, P, P', Q, Q') { GroupCongruence(c, P, P', Q, Q'); }
  }

  /** k-fold affine addition. */
  ghost function Multiple(c: Curve, k: nat, a: Affine): Affine
  {
    if k == 0 then Zero else Sum(c, a, Multiple(c, k - 1, a))
  }

  lemma {:induction false} TimesIsMultiple(c: Curve, k: nat, P: Extended)
    requires CurveFacts(c) && Point(c, P)
    ensures var R := D.Times(Points(c), k, P); Point(c, R) && AffineOf(c, R) == Multiple(c, k, AffineOf(c, P))
  {
    if k == 0 {
      OriginIsZero(c);
    } else {
      TimesIsMultiple(c, k - 1, P);
      AddOfPoints(c, P, D.Times(Points(c), k - 1, P));
    }
  }

  /** The double-and-add loop over extended coordinates computes the k-fold affine sum. */
  method Mul(c: Curve, s: nat, P: Extended) returns (R: Extended)
    requires CurveFacts(c) && Point(c, P)
    ensures Point(c, R) && Represents(c, R, Multiple(c, s, AffineOf(c, P)))
  {
    PointsLawful(c);
    R := D.MulWhile(Points(c), s, P);
    TimesIsMultiple(c, s, P);
    EqOfPoints(c, R, D.Times(Points(c), s, P));
    PointRepresents(c, R);
  }
}
