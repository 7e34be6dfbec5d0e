/** What the X25519 ladder computes: the multiples of a point of y^2 = x^3 + 486662 x^2 + x, by
    their projective x-coordinates. */
module Montgomery {
  import opened ModArith
  import opened Primes
  import opened Field25519
  import opened Bytes
  import opened Rfc7748

  // ---------------------------------------------------------------------------------------
  // The doubling and the differential sum of the curve
  // ---------------------------------------------------------------------------------------

  function DoubleX(x: int, z: int): int {
    (x * x - z * z) * (x * x - z * z)
  }

  function DoubleZ(x: int, z: int): int {
    (4 * (x * z)) * (x * x + 486662 * (x * z) + z * z)
  }

  function SumX(x2: int, z2: int, x3: int, z3: int): int {
    4 * ((x2 * x3 - z2 * z3) * (x2 * x3 - z2 * z3))
  }

  function SumZ(u: int, x2: int, z2: int, x3: int, z3: int): int {
    u * (4 * ((x3 * z2 - x2 * z3) * (x3 * z2 - x2 * z3)))
  }

  /** AA * BB and E * (AA + a24 * E) are the doubling formula. */
  lemma DoubledFormula(p: int, x: int, z: int)
    requires p > 1
    ensures Doubled(p, (x + z) % p, (x - z) % p) == (DoubleX(x, z) % p, DoubleZ(x, z) % p)
  {
    var a, b := (x + z) % p, (x - z) % p;
    var s, d := x + z, x - z;
    CongMod(p, s);
    CongMod(p, d);
    var aa, bb := (a * a) % p, (b * b) % p;
    ReducedProduct(p, aa, a, s, a, s);
    ReducedProduct(p, bb, b, d, b, d);
    var e := (aa - bb) % p;
    ReducedSum(p, e, aa, s * s, bb, d * d);
    var m := (121665 * e) % p;
    ReducedProduct(p, m, 121665, 121665, e, s * s - d * d);
    var t := (aa + m) % p;
    ReducedSum(p, t, aa, s * s, m, 121665 * (s * s - d * d));
    var rx, rz := (aa * bb) % p, (e * t) % p;
    ReducedProduct(p, rx, aa, s * s, bb, d * d);
    ReducedProduct(p, rz, e, s * s - d * d, t, s * s + 121665 * (s * s - d * d));
    DoubleIdentity(x, z);
    ModSmall(p, rx);
    ModSmall(p, rz);
  }

  lemma DoubleIdentity(x: int, z: int)
    ensures ((x + z) * (x + z)) * ((x - z) * (x - z)) == DoubleX(x, z)
    ensures ((x + z) * (x + z) - (x - z) * (x - z))
            * ((x + z) * (x + z) + 121665 * ((x + z) * (x + z) - (x - z) * (x - z))) == DoubleZ(x, z)
  {
    var xx, xz, zz := x * x, x * z, z * z;
    assert (x + z) * (x + z) == xx + 2 * xz + zz;
    assert (x - z) * (x - z) == xx - 2 * xz + zz;
    assert (x + z) * (x - z) == xx - zz;
    var s, d := x + z, x - z;
    assert (s * s) * (d * d) == (s * d) * (s * d);
  }

  /** (DA + CB)^2 and x1 * (DA - CB)^2 are the differential sum formula. */
  lemma AddedFormula(p: int, u: int, x2: int, z2: int, x3: int, z3: int)
    requires p > 1
    ensures Added(p, u, (x2 + z2) % p, (x2 - z2) % p, (x3 + z3) % p, (x3 - z3) % p)
         == (SumX(x2, z2, x3, z3) % p, SumZ(u, x2, z2, x3, z3) % p)
  {
    var a, b, c, d := (x2 + z2) % p, (x2 - z2) % p, (x3 + z3) % p, (x3 - z3) % p;
    var da, cb := (d * a) % p, (c * b) % p;
    CrossProducts(p, x2, z2, x3, z3);
    var f, g := (x3 - z3) * (x2 + z2), (x3 + z3) * (x2 - z2);
    var sum, diff := (da + cb) % p, (da - cb) % p;
    ReducedSum(p, sum, da, f, cb, g);
    ReducedSum(p, diff, da, f, cb, g);
    var h := (diff * diff) % p;
    ReducedProduct(p, h, diff, f - g, diff, f - g);
    var rx, rz := (sum * sum) % p, (u * h) % p;
    ReducedProduct(p, rx, sum, f + g, sum, f + g);
    ReducedProduct(p, rz, u, u, h, (f - g) * (f - g));
    SumIdentity(x2, z2, x3, z3, f, g);
    ModSmall(p, rx);
    ModSmall(p, rz);
  }

  lemma CrossProducts(p: int, x2: int, z2: int, x3: int, z3: int)
    requires p > 1
    ensures Cong(p, (((x3 - z3) % p) * ((x2 + z2) % p)) % p, (x3 - z3) * (x2 + z2))
    ensures Cong(p, (((x3 + z3) % p) * ((x2 - z2) % p)) % p, (x3 + z3) * (x2 - z2))
  {
    ModMul(p, x3 - z3, x2 + z2);
    ModMul(p, x3 + z3, x2 - z2);
    CongMod(p, (x3 - z3) * (x2 + z2));
    CongMod(p, (x3 + z3) * (x2 - z2));
  }

  lemma SumIdentity(x2: int, z2: int, x3: int, z3: int, f: int, g: int)
    requires f == (x3 - z3) * (x2 + z2) && g == (x3 + z3) * (x2 - z2)
    ensures (f + g) * (f + g) == SumX(x2, z2, x3, z3)
    ensures (f - g) * (f - g) == 4 * ((x3 * z2 - x2 * z3) * (x3 * z2 - x2 * z3))
  {
    var s, d := x2 * x3 - z2 * z3, x3 * z2 - x2 * z3;
    assert f + g == 2 * s;
    assert f - g == 2 * d;
    assert (2 * s) * (2 * s) == 4 * (s * s);
    assert (2 * d) * (2 * d) == 4 * (d * d);
  }

  /** One pass of the loop: the double of the first point and the differential sum of both. */
  lemma StepFormula(p: int, u: int, s: State)
    requires p > 1
    ensures Step(p, u, s) == State(
      DoubleX(s.x2, s.z2) % p, DoubleZ(s.x2, s.z2) % p,
      SumX(s.x2, s.z2, s.x3, s.z3) % p, SumZ(u, s.x2, s.z2, s.x3, s.z3) % p)
  {
    hide DoubleX, DoubleZ, SumX, SumZ, Doubled, Added;
    DoubledFormula(p, s.x2, s.z2);
    AddedFormula(p, u, s.x2, s.z2, s.x3, s.z3);
  }

  // ---------------------------------------------------------------------------------------
  // The formulas are the chord and tangent law with the denominators cleared
  // ---------------------------------------------------------------------------------------

  const A := 486662

  /** The square of y at `x`: x^3 + a x^2 + x. */
  function Curve(a: int, x: int): int {
    x * (x * x + a * x + 1)
  }

  /** The tangent at (x, y) rises by 3 x^2 + 2 A x + 1 over 2 y; the double has the x-coordinate
      slope^2 - A - 2 x. */
  lemma TangentLaw(p: int, x: int, y: int, rise: int, run: int)
    requires p > 1 && Cong(p, y * y, Curve(A, x))
    requires rise == 3 * (x * x) + 2 * (A * x) + 1 && run == 2 * y
    ensures Cong(p, run * run, DoubleZ(x, 1))
    ensures Cong(p, rise * rise - (A + 2 * x) * (run * run), DoubleX(x, 1))
  {
    var f, w := Curve(A, x), A + 2 * x;
    Regroup(2, y, 2, y);
    TangentIdentity(A, x, rise);
    TangentHeight(x);
    hide Cong, Curve, DoubleX, DoubleZ;
    CongItself(p, 4);
    CongItself(p, w);
    CongItself(p, rise * rise);
    CongMul(p, 4, 4, y * y, f);
    CongMul(p, w, w, 4 * (y * y), 4 * f);
    CongAdd(p, rise * rise, rise * rise, w * (4 * (y * y)), w * (4 * f));
  }

  lemma TangentHeight(x: int)
    ensures 4 * Curve(A, x) == DoubleZ(x, 1)
  {
    Associate(4, x, x * x + A * x + 1);
  }

  lemma TangentIdentity(a: int, x: int, rise: int)
    requires rise == 3 * (x * x) + 2 * (a * x) + 1
    ensures rise * rise - (a + 2 * x) * (4 * Curve(a, x)) == DoubleX(x, 1)
  {
    var q, r, f := x * x, a * x, Curve(a, x);
    CurveTimes(a, x, q, r);
    hide Curve;
    assert (a + 2 * x) * (4 * f) == 4 * (a * f) + 8 * (x * f);
    RiseSquared(q, r);
  }

  lemma CurveTimes(a: int, x: int, q: int, r: int)
    requires q == x * x && r == a * x
    ensures a * Curve(a, x) == r * q + r * r + r
    ensures x * Curve(a, x) == q * q + q * r + q
  {
    var c := q + r + 1;
    Associate(a, x, c);
    Associate(x, x, c);
    assert r * c == r * q + r * r + r;
    assert q * c == q * q + q * r + q;
  }

  lemma RiseSquared(q: int, r: int)
    ensures (3 * q + 2 * r + 1) * (3 * q + 2 * r + 1)
         == 9 * (q * q) + 12 * (q * r) + 4 * (r * r) + 6 * q + 4 * r + 1
    ensures (q - 1) * (q - 1) == q * q - 2 * q + 1
    ensures r * q == q * r
  {}

  /** The chords through (x, v) and (y, w), and through (x, -v) and (y, w), meet the curve at the
      sum and the difference of the two points. Over (y - x)^2 their x-coordinates are `sum` and
      `diff`, and the differential sum formula is what their product satisfies. */
  lemma ChordLaw(p: int, x: int, v: int, y: int, w: int, sum: int, diff: int)
    requires p > 1 && Cong(p, v * v, Curve(A, x)) && Cong(p, w * w, Curve(A, y))
    requires sum == (w - v) * (w - v) - (A + x + y) * ((y - x) * (y - x))
    requires diff == (w + v) * (w + v) - (A + x + y) * ((y - x) * (y - x))
    ensures Cong(p, 4 * (sum * diff), ((y - x) * (y - x)) * SumX(x, 1, y, 1))
    ensures SumZ(diff, x, 1, y, 1) == diff * (4 * ((y - x) * (y - x)))
  {
    var t, e := (y - x) * (y - x), (x * y - 1) * (x * y - 1);
    var f, g, k := Curve(A, x), Curve(A, y), (A + x + y) * t;
    ChordIdentity(A, x, y);
    hide Cong, Curve;
    BothChords(v, w, k, sum, diff);
    OnBothPoints(p, v * v, f, w * w, g, k);
    CongMul(p, 4, 4, sum * diff, t * e);
    Associate(4, t, e);
    Associate(t, 4, e);
  }

  lemma BothChords(v: int, w: int, k: int, sum: int, diff: int)
    requires sum == (w - v) * (w - v) - k && diff == (w + v) * (w + v) - k
    ensures sum * diff == Discriminant(v * v, w * w, k)
  {
    var h, n := v * v + w * w - k, v * w;
    assert (w - v) * (w - v) == w * w - 2 * n + v * v;
    assert (w + v) * (w + v) == w * w + 2 * n + v * v;
    assert (h - 2 * n) * (h + 2 * n) == h * h - 4 * (n * n);
    Regroup(v, w, v, w);
  }

  function Discriminant(f: int, g: int, k: int): int {
    (f + g - k) * (f + g - k) - 4 * (f * g)
  }

  lemma OnBothPoints(p: int, f: int, f': int, g: int, g': int, k: int)
    requires p > 1 && Cong(p, f, f') && Cong(p, g, g')
    ensures Cong(p, Discriminant(f, g, k), Discriminant(f', g', k))
  {
    hide Cong;
    var h, h' := f + g - k, f' + g' - k;
    CongMul(p, f, f', g, g');
    assert Cong(p, 4, 4) && Cong(p, k, k) by { CongItself(p, 4); CongItself(p, k); }
    CongMul(p, 4, 4, f * g, f' * g');
    CongAdd(p, f, f', g, g');
    CongAdd(p, f + g, f' + g', k, k);
    CongMul(p, h, h', h, h');
    CongAdd(p, h * h, h' * h', 4 * (f * g), 4 * (f' * g'));
  }

  lemma CongItself(p: int, a: int)
    requires p > 1
    ensures Cong(p, a, a)
  {}

  lemma Regroup(x: int, y: int, z: int, w: int)
    ensures (x * y) * (z * w) == (x * z) * (y * w)
  {
    Associate(x * y, z, w);
    Associate(x, y, z);
    Associate(x * z, y, w);
    Associate(x, z, y);
  }

  lemma ChordIdentity(a: int, x: int, y: int)
    ensures Discriminant(Curve(a, x), Curve(a, y), (a + x + y) * ((y - x) * (y - x)))
         == ((y - x) * (y - x)) * ((x * y - 1) * (x * y - 1))
  {
    var m, s := x * y, x + y;
    ChordTrace(a, x, y, m, s);
    ChordProduct(a, x, y, m, s);
    Chord(x, y, m, s);
    hide Curve;
    ChordResult(a, m, s);
  }

  /** In terms of the product `m` and the sum `s` of the two x-coordinates. */
  lemma Chord(x: int, y: int, m: int, s: int)
    requires m == x * y && s == x + y
    ensures (y - x) * (y - x) == s * s - 4 * m
    ensures x * x + y * y == s * s - 2 * m
  {
    assert (x + y) * (x + y) == x * x + 2 * (x * y) + y * y;
    assert (y - x) * (y - x) == x * x - 2 * (x * y) + y * y;
  }

  lemma CurveTerms(a: int, x: int)
    ensures Curve(a, x) == x * (x * x) + a * (x * x) + x
  {
    Associate(a, x, x);
    assert x * (x * x + a * x + 1) == x * (x * x) + x * (a * x) + x;
  }

  lemma ChordTrace(a: int, x: int, y: int, m: int, s: int)
    requires m == x * y && s == x + y
    ensures Curve(a, x) + Curve(a, y) - (a + s) * ((y - x) * (y - x)) == s * (m + 1) + 2 * (a * m)
  {
    var q, r := x * x, y * y;
    CurveTerms(a, x);
    CurveTerms(a, y);
    hide Curve;
    Chord(x, y, m, s);
    Associate(x, y, y);
    Associate(y, x, x);
    TraceTerms(a, x, y, m, q, r);
  }

  lemma TraceTerms(a: int, x: int, y: int, m: int, q: int, r: int)
    requires x * r == m * y && y * q == m * x
    ensures x * q + a * q + x + y * r + a * r + y - (a + x + y) * (r - 2 * m + q)
         == (x + y) * (m + 1) + 2 * (a * m)
  {
    var d := r - 2 * m + q;
    assert (a + x + y) * d == a * d + x * d + y * d;
    assert a * d == a * r - 2 * (a * m) + a * q;
    assert x * d == x * r - 2 * (m * x) + x * q;
    assert y * d == y * r - 2 * (m * y) + y * q;
    assert (x + y) * (m + 1) == m * x + m * y + x + y;
  }

  lemma ChordProduct(a: int, x: int, y: int, m: int, s: int)
    requires m == x * y && s == x + y
    ensures Curve(a, x) * Curve(a, y)
         == m * (m * m + (a * s) * m + (s * s - 2 * m) + (a * a) * m + a * s + 1)
  {
    var q, r, b, d := x * x, y * y, a * x, a * y;
    Regroup(x, x, y, y);
    Regroup(x, x, a, y);
    Regroup(a, x, y, y);
    Regroup(a, x, a, y);
    Chord(x, y, m, s);
    ProductTerms(q, r, b, d, m, a * a);
    assert b + d == a * s;
    Regroup(x, q + b + 1, y, r + d + 1);
  }

  lemma ProductTerms(q: int, r: int, b: int, d: int, m: int, aa: int)
    requires q * r == m * m && q * d == b * m && b * r == d * m && b * d == aa * m
    ensures (q + b + 1) * (r + d + 1) == m * m + (b + d) * m + (q + r) + aa * m + (b + d) + 1
  {}

  lemma ChordResult(a: int, m: int, s: int)
    ensures var h := s * (m + 1) + 2 * (a * m);
      h * h - 4 * (m * (m * m + (a * s) * m + (s * s - 2 * m) + (a * a) * m + a * s + 1))
      == (s * s - 4 * m) * ((m - 1) * (m - 1))
  {
    Regroup(a, m, s, m + 1);
    Regroup(s, m + 1, s, m + 1);
    Regroup(a, m, a, m);
    ResultTerms(s * (m + 1), a * m, m, s * s, a * s, a * a);
  }

  lemma ResultTerms(c: int, u: int, m: int, t: int, z: int, aa: int)
    requires c * c == t * ((m + 1) * (m + 1)) && u * c == z * (m * (m + 1)) && u * u == aa * (m * m)
    ensures (c + 2 * u) * (c + 2 * u) - 4 * (m * (m * m + z * m + (t - 2 * m) + aa * m + z + 1))
         == (t - 4 * m) * ((m - 1) * (m - 1))
  {
    var n := m * m;
    assert (m + 1) * (m + 1) == n + 2 * m + 1 && m * (m + 1) == n + m;
    assert (m - 1) * (m - 1) == n - 2 * m + 1;
    hide *;
    ResultExpanded(c, u, m, n, t, z, aa);
  }

  lemma ResultExpanded(c: int, u: int, m: int, n: int, t: int, z: int, aa: int)
    requires n == m * m && c * c == t * (n + 2 * m + 1) && u * c == z * (n + m) && u * u == aa * n
    ensures (c + 2 * u) * (c + 2 * u) - 4 * (m * (n + z * m + (t - 2 * m) + aa * m + z + 1))
         == (t - 4 * m) * (n - 2 * m + 1)
  {
    SquareTerms(c, u);
    LowTerms(m, n, t, z, aa);
    HighTerms(m, n, t);
    assert z * (n + m) == z * n + z * m;
  }

  lemma SquareTerms(c: int, u: int)
    ensures (c + 2 * u) * (c + 2 * u) == c * c + 4 * (u * c) + 4 * (u * u)
  {}

  lemma LowTerms(m: int, n: int, t: int, z: int, aa: int)
    requires n == m * m
    ensures m * (n + z * m + (t - 2 * m) + aa * m + z + 1)
         == m * n + z * n + t * m - 2 * n + aa * n + z * m + m
  {
    Associate(z, m, m);
    Associate(aa, m, m);
  }

  lemma HighTerms(m: int, n: int, t: int)
    requires n == m * m
    ensures t * (n + 2 * m + 1) == t * n + 2 * (t * m) + t
    ensures (t - 4 * m) * (n - 2 * m + 1) == t * n - 2 * (t * m) + t - 4 * (m * n) + 8 * n - 4 * m
  {}

  // ---------------------------------------------------------------------------------------
  // Multiples
  // ---------------------------------------------------------------------------------------

  /** The projective x-coordinate X : Z of a point; 1 : 0 is the point at infinity. */
  datatype Point = Point(x: int, z: int)

  function Double(p: int, a: Point): Point
    requires p > 1
  {
    Point(DoubleX(a.x, a.z) % p, DoubleZ(a.x, a.z) % p)
  }

  /** The sum of two points whose difference has the affine x-coordinate `u`. */
  function Sum(p: int, u: int, a: Point, b: Point): Point
    requires p > 1
  {
    Point(SumX(a.x, a.z, b.x, b.z) % p, SumZ(u, a.x, a.z, b.x, b.z) % p)
  }

  /** The `n`-th multiple of the point with affine x-coordinate `u`. */
  function Multiple(p: int, u: int, n: nat): Point
    requires p > 1
    decreases n
  {
    if n == 0 then Point(1, 0)
    else if n == 1 then Point(u, 1)
    else if n % 2 == 0 then Double(p, Multiple(p, u, n / 2))
    else Sum(p, u, Multiple(p, u, n / 2), Multiple(p, u, n / 2 + 1))
  }

  /** `a` is `b` with both coordinates scaled by `l`. */
  ghost predicate Scaled(p: int, a: Point, l: int, b: Point)
    requires p > 1
  {
    Cong(p, a.x, l * b.x) && Cong(p, a.z, l * b.z)
  }

  /** Products of scaled values. */
  lemma ScaledProduct(p: int, a: int, l: int, x: int, b: int, m: int, y: int)
    requires p > 1 && Cong(p, a, l * x) && Cong(p, b, m * y)
    ensures Cong(p, a * b, (l * m) * (x * y))
  {
    CongMul(p, a, l * x, b, m * y);
    assert (l * x) * (m * y) == (l * m) * (x * y);
  }

  lemma ScaledSum(p: int, a: int, b: int, l: int, x: int, y: int)
    requires p > 1 && Cong(p, a, l * x) && Cong(p, b, l * y)
    ensures Cong(p, a + b, l * (x + y)) && Cong(p, a - b, l * (x - y))
  {
    CongAdd(p, a, l * x, b, l * y);
    assert l * (x + y) == l * x + l * y;
    assert l * (x - y) == l * x - l * y;
  }

  lemma ScaledConstant(p: int, c: int, a: int, l: int, x: int)
    requires p > 1 && Cong(p, a, l * x)
    ensures Cong(p, c * a, l * (c * x))
  {
    CongMul(p, c, c, a, l * x);
    assert c * (l * x) == l * (c * x);
  }

  /** Doubling a scaled point scales the double by the fourth power. */
  lemma DoubleScaled(p: int, a: Point, l: int, b: Point)
    requires p > 1 && Scaled(p, a, l, b)
    ensures Scaled(p, Double(p, a), (l * l) * (l * l), Double(p, b))
  {
    DoubleCoordinates(p, a.x, a.z, l, b.x, b.z);
    Reduce(p, DoubleX(a.x, a.z), (l * l) * (l * l), DoubleX(b.x, b.z));
    Reduce(p, DoubleZ(a.x, a.z), (l * l) * (l * l), DoubleZ(b.x, b.z));
  }

  lemma Reduce(p: int, a: int, l: int, x: int)
    requires p > 1 && Cong(p, a, l * x)
    ensures Cong(p, a % p, l * (x % p))
  {
    CongMod(p, a);
    CongMod(p, x);
    CongMul(p, l, l, x % p, x);
  }

  lemma DoubleCoordinates(p: int, ax: int, az: int, l: int, x: int, z: int)
    requires p > 1 && Cong(p, ax, l * x) && Cong(p, az, l * z)
    ensures Cong(p, DoubleX(ax, az), ((l * l) * (l * l)) * DoubleX(x, z))
    ensures Cong(p, DoubleZ(ax, az), ((l * l) * (l * l)) * DoubleZ(x, z))
  {
    hide Cong;
    var q := l * l;
    ScaledProduct(p, ax, l, x, ax, l, x);
    ScaledProduct(p, az, l, z, az, l, z);
    ScaledProduct(p, ax, l, x, az, l, z);
    var xx, xz, zz := ax * ax, ax * az, az * az;
    ScaledSum(p, xx, zz, q, x * x, z * z);
    ScaledProduct(p, xx - zz, q, x * x - z * z, xx - zz, q, x * x - z * z);
    ScaledConstant(p, 486662, xz, q, x * z);
    ScaledConstant(p, 4, xz, q, x * z);
    ScaledSum(p, xx, 486662 * xz, q, x * x, 486662 * (x * z));
    ScaledSum(p, xx + 486662 * xz, zz, q, x * x + 486662 * (x * z), z * z);
    ScaledProduct(p, 4 * xz, q, 4 * (x * z), xx + 486662 * xz + zz, q, x * x + 486662 * (x * z) + z * z);
  }

  /** Adding scaled points scales the sum by the square of both factors. */
  lemma SumScaled(p: int, u: int, a: Point, l: int, a': Point, b: Point, m: int, b': Point)
    requires p > 1 && Scaled(p, a, l, a') && Scaled(p, b, m, b')
    ensures Scaled(p, Sum(p, u, a, b), (l * m) * (l * m), Sum(p, u, a', b'))
  {
    SumCoordinates(p, u, a.x, a.z, l, a'.x, a'.z, b.x, b.z, m, b'.x, b'.z);
    Reduce(p, SumX(a.x, a.z, b.x, b.z), (l * m) * (l * m), SumX(a'.x, a'.z, b'.x, b'.z));
    Reduce(p, SumZ(u, a.x, a.z, b.x, b.z), (l * m) * (l * m), SumZ(u, a'.x, a'.z, b'.x, b'.z));
  }

  lemma SumCoordinates(p: int, u: int, ax: int, az: int, l: int, x: int, z: int,
                       bx: int, bz: int, m: int, y: int, w: int)
    requires p > 1 && Cong(p, ax, l * x) && Cong(p, az, l * z)
    requires Cong(p, bx, m * y) && Cong(p, bz, m * w)
    ensures Cong(p, SumX(ax, az, bx, bz), ((l * m) * (l * m)) * SumX(x, z, y, w))
    ensures Cong(p, SumZ(u, ax, az, bx, bz), ((l * m) * (l * m)) * SumZ(u, x, z, y, w))
  {
    hide Cong;
    var q := l * m;
    ScaledProduct(p, ax, l, x, bx, m, y);
    ScaledProduct(p, az, l, z, bz, m, w);
    ScaledSum(p, ax * bx, az * bz, q, x * y, z * w);
    var s, s' := ax * bx - az * bz, x * y - z * w;
    ScaledProduct(p, s, q, s', s, q, s');
    ScaledConstant(p, 4, s * s, q * q, s' * s');
    ScaledProduct(p, bx, m, y, az, l, z);
    ScaledProduct(p, ax, l, x, bz, m, w);
    assert m * l == l * m;
    ScaledSum(p, bx * az, ax * bz, q, y * z, x * w);
    var d, d' := bx * az - ax * bz, y * z - x * w;
    ScaledProduct(p, d, q, d', d, q, d');
    ScaledConstant(p, 4, d * d, q * q, d' * d');
    ScaledConstant(p, u, 4 * (d * d), q * q, 4 * (d' * d'));
  }

  /** The differential sum does not depend on the order of its points. */
  lemma SumSymmetric(p: int, u: int, a: Point, b: Point)
    requires p > 1
    ensures Sum(p, u, a, b) == Sum(p, u, b, a)
  {
    var s, d := a.x * b.x - a.z * b.z, b.x * a.z - a.x * b.z;
    assert b.x * a.x - b.z * a.z == s;
    assert a.x * b.z - b.x * a.z == -d;
    assert (-d) * (-d) == d * d;
  }

  /** Doubling doubles the multiple; adding neighbours gives the odd multiple between their
      doubles, scaled by 4 u where the ladder starts from the point at infinity. */
  lemma MultipleEven(p: int, u: int, n: nat)
    requires p > 1
    ensures Double(p, Multiple(p, u, n)) == Multiple(p, u, 2 * n)
  {
    if n == 0 {
      ModSmall(p, 1);
    }
  }

  lemma MultipleOdd(p: int, u: int, n: nat)
    requires p > 1
    ensures Scaled(p, Sum(p, u, Multiple(p, u, n), Multiple(p, u, n + 1)),
                   if n == 0 then 4 * u else 1, Multiple(p, u, 2 * n + 1))
  {
    if n == 0 {
      assert SumX(1, 0, u, 1) == (4 * u) * u;
      assert SumZ(u, 1, 0, u, 1) == (4 * u) * 1;
      CongMod(p, (4 * u) * u);
      CongMod(p, (4 * u) * 1);
    }
  }

  lemma ScaledTwice(p: int, a: Point, l: int, b: Point, m: int, c: Point)
    requires p > 1 && Scaled(p, a, l, b) && Scaled(p, b, m, c)
    ensures Scaled(p, a, l * m, c)
  {
    CongMul(p, l, l, b.x, m * c.x);
    CongMul(p, l, l, b.z, m * c.z);
    Associate(l, m, c.x);
    Associate(l, m, c.z);
  }

  /** No scale is lost: modulo an odd prime and with a nonzero `u` the factor is nonzero. */
  ghost predicate Proper(p: int, u: int, l: int)
    requires p > 1
  {
    Prime(p) && p > 2 && u % p != 0 ==> l % p != 0
  }

  lemma ProperProduct(p: int, u: int, l: int, m: int)
    requires p > 1 && Proper(p, u, l) && Proper(p, u, m)
    ensures Proper(p, u, l * m)
  {
    if Prime(p) {
      ZeroProduct(p, l, m);
    }
  }

  lemma ProperStart(p: int, u: int, n: nat)
    requires p > 1
    ensures Proper(p, u, if n == 0 then 4 * u else 1)
  {
    if Prime(p) && p > 2 {
      ZeroProduct(p, 2, 2);
      ZeroProduct(p, 4, u);
    }
  }

  /** The factor that one pass adds to those of its points. */
  function Factor(u: int, n: nat, l: int, m: int): int {
    ((l * m) * (l * m)) * if n == 0 then 4 * u else 1
  }

  lemma ProperFactors(p: int, u: int, n: nat, l: int, m: int)
    requires p > 1 && Proper(p, u, l) && Proper(p, u, m)
    ensures Proper(p, u, (l * l) * (l * l)) && Proper(p, u, Factor(u, n, l, m))
  {
    hide Proper;
    ProperStart(p, u, n);
    ProperProduct(p, u, l, l);
    ProperProduct(p, u, l, m);
    ProperProduct(p, u, l * l, l * l);
    ProperProduct(p, u, l * m, l * m);
    ProperProduct(p, u, (l * m) * (l * m), if n == 0 then 4 * u else 1);
  }

  /** The double of the multiple n is the multiple 2 n. */
  lemma NextEven(p: int, u: int, n: nat, a: Point, l: int)
    requires p > 1 && Scaled(p, a, l, Multiple(p, u, n))
    ensures Scaled(p, Double(p, a), (l * l) * (l * l), Multiple(p, u, 2 * n))
  {
    hide Scaled, Multiple, Double;
    DoubleScaled(p, a, l, Multiple(p, u, n));
    MultipleEven(p, u, n);
  }

  /** The differential sum of the multiples n and n + 1 is the multiple 2 n + 1. */
  lemma NextOdd(p: int, u: int, n: nat, a: Point, l: int, b: Point, m: int)
    requires p > 1
    requires Scaled(p, a, l, Multiple(p, u, n)) && Scaled(p, b, m, Multiple(p, u, n + 1))
    ensures Scaled(p, Sum(p, u, a, b), Factor(u, n, l, m), Multiple(p, u, 2 * n + 1))
  {
    hide Scaled, Multiple, Sum;
    var mn, next := Multiple(p, u, n), Multiple(p, u, n + 1);
    SumScaled(p, u, a, l, mn, b, m, next);
    MultipleOdd(p, u, n);
    var start := if n == 0 then 4 * u else 1;
    ScaledTwice(p, Sum(p, u, a, b), (l * m) * (l * m), Sum(p, u, mn, next), start, Multiple(p, u, 2 * n + 1));
  }

  // ---------------------------------------------------------------------------------------
  // The ladder
  // ---------------------------------------------------------------------------------------

  /** The bits of `k` from `t` up: what is left after `t` halvings. */
  function High(k: nat, t: nat): nat {
    if t == 0 then k else High(k / 2, t - 1)
  }

  lemma AllBits(k: nat)
    ensures High(k, 0) == k
  {}

  lemma {:induction false} HighExactly(k: nat, t: nat)
    ensures High(k, t) == k / Two(t)
  {
    if t > 0 {
      HighExactly(k / 2, t - 1);
      HalfOfQuotient(k, Two(t - 1));
    }
  }

  lemma HalfOfQuotient(k: nat, t: int)
    requires t > 0
    ensures (k / 2) / t == k / (2 * t)
  {
    var q, r := (k / 2) / t, (k / 2) % t;
    assert k == q * (2 * t) + (2 * r + k % 2);
    QuotientUnique(2 * t, k, q, 2 * r + k % 2);
  }

  lemma QuotientUnique(m: int, a: int, q: int, r: int)
    requires m > 0 && 0 <= r < m && a == q * m + r
    ensures a / m == q
  {
    RemainderUnique(m, a, q, r);
    assert a == (a / m) * m + r;
    assert (a / m - q) * m == 0;
  }

  /** One more bit at the end of those from `t + 1` up. */
  lemma {:induction false} NextBit(k: nat, t: nat)
    ensures High(k, t) == 2 * High(k, t + 1) + Bit(k, t)
    decreases t
  {
    if t > 0 {
      NextBit(k / 2, t - 1);
    } else {
      assert High(k, 1) == High(k / 2, 0);
    }
  }

  lemma NoBitsLeft(k: nat, t: nat)
    requires k < P + 19 && t == 255
    ensures High(k, t) == 0
  {
    TwoTo255();
    HighExactly(k, t);
    QuotientUnique(Two(t), k, 0, k);
  }

  /** The two points of a ladder state, the swap it still owes made. */
  function First(p: int, k: nat, u: int, t: nat): Point
    requires p > 1 && t <= 255
  {
    var s := Swap(Ladder(p, k, u, t), Owed(k, t));
    Point(s.x2, s.z2)
  }

  function Second(p: int, k: nat, u: int, t: nat): Point
    requires p > 1 && t <= 255
  {
    var s := Swap(Ladder(p, k, u, t), Owed(k, t));
    Point(s.x3, s.z3)
  }

  lemma LadderStep(p: int, k: nat, u: int, t: nat)
    requires p > 1 && t < 255
    ensures var a, b := First(p, k, u, t + 1), Second(p, k, u, t + 1);
      if Bit(k, t) == 1
      then First(p, k, u, t) == Sum(p, u, a, b) && Second(p, k, u, t) == Double(p, b)
      else First(p, k, u, t) == Double(p, a) && Second(p, k, u, t) == Sum(p, u, a, b)
  {
    hide Step, DoubleX, DoubleZ, SumX, SumZ, Bit;
    var before := Ladder(p, k, u, t + 1);
    var swapped := Swap(before, Owed(k, t + 1) != (Bit(k, t) == 1));
    StepFormula(p, u, swapped);
    SumSymmetric(p, u, First(p, k, u, t + 1), Second(p, k, u, t + 1));
  }

  lemma LadderStart(p: int, k: nat, u: int, t: nat)
    requires p > 1 && k < P + 19 && t == 255
    ensures Scaled(p, First(p, k, u, t), 1, Multiple(p, u, High(k, t)))
    ensures Scaled(p, Second(p, k, u, t), 1, Multiple(p, u, High(k, t) + 1))
    ensures Proper(p, u, 1)
  {
    hide High;
    NoBitsLeft(k, t);
    ModSmall(p, 1);
  }

  /** The ladder law: after the bits from 254 down to `t` the two points are the multiples
      k / 2^t and k / 2^t + 1, up to one factor each that is nonzero modulo a prime. */
  lemma {:induction false} LadderLaw(p: int, k: nat, u: int, t: nat) returns (l: int, m: int)
    requires p > 1 && k < P + 19 && t <= 255
    ensures Scaled(p, First(p, k, u, t), l, Multiple(p, u, High(k, t)))
    ensures Scaled(p, Second(p, k, u, t), m, Multiple(p, u, High(k, t) + 1))
    ensures Proper(p, u, l) && Proper(p, u, m)
    decreases 255 - t
  {
    hide High, Bit;
    hide Scaled, Proper, Multiple, Double, Sum, First, Second, Factor;
    if t == 255 {
      l, m := 1, 1;
      LadderStart(p, k, u, t);
    } else {
      var n, a, b := High(k, t + 1), First(p, k, u, t + 1), Second(p, k, u, t + 1);
      var l', m' := LadderLaw(p, k, u, t + 1);
      NextEven(p, u, n, a, l');
      NextEven(p, u, n + 1, b, m');
      NextOdd(p, u, n, a, l', b, m');
      ProperFactors(p, u, n, l', m');
      ProperFactors(p, u, n, m', l');
      LadderStep(p, k, u, t);
      NextBit(k, t);
      if Bit(k, t) == 1 {
        l, m := Factor(u, n, l', m'), (m' * m') * (m' * m');
      } else {
        l, m := (l' * l') * (l' * l'), Factor(u, n, l', m');
      }
    }
  }

  // ---------------------------------------------------------------------------------------
  // The result
  // ---------------------------------------------------------------------------------------

  /** The affine x-coordinate by the power that inverts modulo a prime; 0 at infinity. */
  function Affine(p: int, a: Point): int
    requires p > 1
  {
    (a.x * Pow(p, a.z, p - 2)) % p
  }

  /** Modulo a prime the affine coordinate x satisfies x Z = X, and is 0 where Z is 0. */
  lemma AffineQuotient(p: int, a: Point)
    requires Prime(p) && p > 2
    ensures Cong(p, Affine(p, a) * a.z, if a.z % p == 0 then 0 else a.x)
    ensures a.z % p == 0 ==> Affine(p, a) == 0
  {
    var w := Pow(p, a.z, p - 2);
    CongMod(p, a.x * w);
    CongMul(p, Affine(p, a), a.x * w, a.z, a.z);
    if a.z % p == 0 {
      InverseOfZero(p, a.z);
      ModSmall(p, 0);
      assert a.x * w == 0;
    } else {
      InverseTimes(p, a.z);
      Associate(a.x, w, a.z);
      CongMul(p, a.x, a.x, w * a.z, 1);
    }
  }

  lemma InverseTimes(p: int, z: int)
    requires Prime(p) && z % p != 0
    ensures Cong(p, z * Pow(p, z, p - 2), 1)
  {
    PowNext(p, z, p - 2);
    assert p - 2 + 1 == p - 1;
    Fermat(p, z);
    ModSmall(p, 1);
  }

  lemma InverseOfZero(p: int, z: int)
    requires p > 2 && z % p == 0
    ensures Pow(p, z, p - 2) == 0
  {
    PowNext(p, z, p - 3);
    ZeroFactor(p, z, Pow(p, z, p - 3));
  }

  /** Scaling a point by a nonzero factor does not move it. */
  lemma AffineScaled(p: int, a: Point, l: int, b: Point)
    requires Prime(p) && p > 2 && l % p != 0 && Scaled(p, a, l, b)
    ensures Affine(p, a) == Affine(p, b)
  {
    var n, pl, pb := p - 2, Pow(p, l, p - 2), Pow(p, b.z, p - 2);
    PowCong(p, a.z, l * b.z, n);
    PowProduct(p, l, b.z, n);
    CongMod(p, pl * pb);
    CongMul(p, a.x, l * b.x, Pow(p, a.z, n), pl * pb);
    assert (l * b.x) * (pl * pb) == (l * pl) * (b.x * pb);
    InverseTimes(p, l);
    CongMul(p, l * pl, 1, b.x * pb, b.x * pb);
  }

  /** Where `u` is 0 every multiple has a coordinate 0, and the even ones are at infinity. */
  lemma {:induction false} MultiplesOfZero(p: int, u: int, n: nat)
    requires p > 1 && u % p == 0
    ensures (Multiple(p, u, n).x * Multiple(p, u, n).z) % p == 0
    ensures n % 2 == 0 ==> Multiple(p, u, n).z % p == 0
    decreases n
  {
    var c := Multiple(p, u, n);
    if n >= 2 {
      if n % 2 == 0 {
        MultiplesOfZero(p, u, n / 2);
        DoubleOfZero(p, Multiple(p, u, n / 2));
      } else {
        SumOfZero(p, u, Multiple(p, u, n / 2), Multiple(p, u, n / 2 + 1));
      }
      ZeroFactor(p, c.z, c.x);
    }
  }

  lemma DoubleOfZero(p: int, a: Point)
    requires p > 1 && (a.x * a.z) % p == 0
    ensures Double(p, a).z % p == 0
  {
    ZeroFactor(p, a.x * a.z, 4);
    ZeroFactor(p, 4 * (a.x * a.z), a.x * a.x + 486662 * (a.x * a.z) + a.z * a.z);
    ModSmall(p, 0);
  }

  lemma SumOfZero(p: int, u: int, a: Point, b: Point)
    requires p > 1 && u % p == 0
    ensures Sum(p, u, a, b).z % p == 0
  {
    var d := b.x * a.z - a.x * b.z;
    ZeroFactor(p, u, 4 * (d * d));
    ModSmall(p, 0);
  }

  lemma AffineOfMultiple(p: int, k: nat, u: int, a: Point, l: int)
    requires Prime(p) && p > 2 && k % 2 == 0
    requires Scaled(p, a, l, Multiple(p, u, k)) && Proper(p, u, l)
    ensures Affine(p, a) == Affine(p, Multiple(p, u, k))
  {
    var b := Multiple(p, u, k);
    if u % p == 0 {
      MultiplesOfZero(p, u, k);
      ZeroFactor(p, b.z, l);
      hide Multiple;
      AffineQuotient(p, a);
      AffineQuotient(p, b);
    } else {
      hide Multiple;
      AffineScaled(p, a, l, b);
    }
  }

  /** At the end the ladder has the multiple itself. */
  lemma LadderResult(p: int, k: nat, u: int)
    requires Prime(p) && p > 2 && k < P + 19 && k % 8 == 0
    ensures Affine(p, First(p, k, u, 0)) == Affine(p, Multiple(p, u, k))
  {
    hide Multiple, Scaled, Proper, Affine, High, First, Second, Prime;
    var l, m := LadderLaw(p, k, u, 0);
    AllBits(k);
    assert k % 2 == 0;
    AffineOfMultiple(p, k, u, First(p, k, u, 0), l);
  }

  /** X25519 is the affine x-coordinate of the multiple of the point by the clamped scalar. */
  lemma X25519IsMultiple(scalar: seq<Byte>, point: seq<Byte>)
    requires |scalar| == 32 && |point| == 32
    requires Prime(P)
    ensures X25519(scalar, point) == Affine(P, Multiple(P, DecodeU(point), DecodeScalar(scalar)))
  {
    hide Multiple, Affine, Bit, LeVal, First, DecodeScalar, DecodeU, X25519, Prime;
    DecodedScalar(scalar);
    LadderResult(P, DecodeScalar(scalar), DecodeU(point));
    ResultIsAffine(scalar, point);
  }

  lemma ResultIsAffine(scalar: seq<Byte>, point: seq<Byte>)
    requires |scalar| == 32 && |point| == 32
    ensures X25519(scalar, point) == Affine(P, First(P, DecodeScalar(scalar), DecodeU(point), 0))
  {
    hide Ladder, Pow, LeVal, Bit;
  }
}
