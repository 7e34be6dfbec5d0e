/** Arithmetic modulo a positive integer: congruences, and powers reduced at every step. */
module ModArith {

  /** `a` and `b` leave the same remainder modulo `m`. */
  predicate Cong(m: int, a: int, b: int)
    requires m > 0
  {
    a % m == b % m
  }

  /** The remainder is the only number in `0..m` that differs from `a` by a multiple of `m`. */
  lemma RemainderUnique(m: int, a: int, k: int, r: int)
    requires m > 0 && 0 <= r < m
    requires a == k * m + r
    ensures a % m == r
  {
    var q, s := a / m, a % m;
    assert a == q * m + s;
    assert (k - q) * m == s - r;
    assert k - q >= 1 ==> (k - q) * m >= m;
    assert k - q <= -1 ==> (k - q) * m <= -m;
  }

  /** Adding a multiple of the modulus keeps the remainder. */
  lemma CongByMultiple(m: int, a: int, b: int, k: int)
    requires m > 0
    requires a == b + k * m
    ensures Cong(m, a, b)
  {
    var q, r := b / m, b % m;
    assert a == (q + k) * m + r;
    RemainderUnique(m, a, q + k, r);
  }

  /** Congruent numbers differ by a multiple of the modulus. */
  lemma CongMultiple(m: int, a: int, b: int) returns (k: int)
    requires m > 0
    requires Cong(m, a, b)
    ensures a == b + k * m
  {
    k := a / m - b / m;
    assert a == (a / m) * m + a % m;
    assert b == (b / m) * m + b % m;
    assert (a / m - b / m) * m == (a / m) * m - (b / m) * m;
  }

  lemma CongAdd(m: int, a: int, a': int, b: int, b': int)
    requires m > 0
    requires Cong(m, a, a') && Cong(m, b, b')
    ensures Cong(m, a + b, a' + b')
    ensures Cong(m, a - b, a' - b')
  {
    var k := CongMultiple(m, a, a');
    var l := CongMultiple(m, b, b');
    assert (k + l) * m == k * m + l * m;
    assert (k - l) * m == k * m - l * m;
    CongByMultiple(m, a + b, a' + b', k + l);
    CongByMultiple(m, a - b, a' - b', k - l);
  }

  lemma CongTransitive(m: int, a: int, b: int, c: int)
    requires m > 0 && Cong(m, a, b) && Cong(m, b, c)
    ensures Cong(m, a, c)
  {}

  lemma CongMul(m: int, a: int, a': int, b: int, b': int)
    requires m > 0
    requires Cong(m, a, a') && Cong(m, b, b')
    ensures Cong(m, a * b, a' * b')
  {
    var k := CongMultiple(m, a, a');
    var l := CongMultiple(m, b, b');
    calc {
      a * b;
      (a' + k * m) * (b' + l * m);
      a' * b' + a' * (l * m) + (k * m) * b' + (k * m) * (l * m);
      a' * b' + (a' * l + k * b' + k * l * m) * m;
    }
    CongByMultiple(m, a * b, a' * b', a' * l + k * b' + k * l * m);
  }

  lemma CongMod(m: int, a: int)
    requires m > 0
    ensures Cong(m, a % m, a)
    ensures 0 <= a % m < m
  {
    assert a == (a / m) * m + a % m;
    CongByMultiple(m, a, a % m, a / m);
  }

  /** A number already below the modulus is its own remainder. */
  lemma ModSmall(m: int, a: int)
    requires 0 <= a < m
    ensures a % m == a
  {
    RemainderUnique(m, a, 0, a);
  }

  /** Reducing the factors first does not change the product's remainder. */
  lemma ModMul(m: int, a: int, b: int)
    requires m > 0
    ensures ((a % m) * (b % m)) % m == (a * b) % m
    ensures ((a % m) * b) % m == (a * b) % m
    ensures (a * (b % m)) % m == (a * b) % m
  {
    CongMod(m, a);
    CongMod(m, b);
    CongMul(m, a % m, a, b % m, b);
    CongMul(m, a % m, a, b, b);
    CongMul(m, a, a, b % m, b);
  }

  /** A reduced product of two values stands for the product of what they stand for. */
  lemma ReducedProduct(m: int, r: int, x: int, x': int, y: int, y': int)
    requires m > 0 && r == (x * y) % m
    requires x == x' || x == x' % m || Cong(m, x, x')
    requires y == y' || y == y' % m || Cong(m, y, y')
    ensures Cong(m, r, x' * y')
  {
    CongMod(m, x');
    CongMod(m, y');
    CongMul(m, x, x', y, y');
    CongMod(m, x * y);
  }

  lemma ReducedSum(m: int, r: int, x: int, x': int, y: int, y': int)
    requires m > 0 && Cong(m, x, x') && Cong(m, y, y')
    ensures r == (x + y) % m ==> Cong(m, r, x' + y')
    ensures r == (x - y) % m ==> Cong(m, r, x' - y')
  {
    CongAdd(m, x, x', y, y');
    CongMod(m, x + y);
    CongMod(m, x - y);
  }

  // ---------------------------------------------------------------------------------------
  // Powers
  // ---------------------------------------------------------------------------------------

  /** `x` to the power `n`, reduced modulo `m`. */
  function Pow(m: int, x: int, n: nat): (r: int)
    requires m > 1
    ensures 0 <= r < m
    decreases n, x
  {
    if n == 0 then 1 else (x * Pow(m, x, n - 1)) % m
  }

  lemma PowNext(m: int, x: int, n: nat)
    requires m > 1
    ensures Pow(m, x, n + 1) == (x * Pow(m, x, n)) % m
  {}

  lemma {:induction false} PowAdd(m: int, x: int, a: nat, b: nat)
    requires m > 1
    ensures Pow(m, x, a + b) == (Pow(m, x, a) * Pow(m, x, b)) % m
    decreases a
  {
    if a == 0 {
      ModSmall(m, Pow(m, x, b));
    } else {
      PowAdd(m, x, a - 1, b);
      assert (a - 1) + b == a + b - 1;
      PowStep(m, x, Pow(m, x, a - 1), Pow(m, x, b));
    }
  }

  lemma PowStep(m: int, x: int, pa: int, pb: int)
    requires m > 1
    ensures (x * ((pa * pb) % m)) % m == (((x * pa) % m) * pb) % m
  {
    ModMul(m, x, pa * pb);
    ModMul(m, x * pa, pb);
    Associate(x, pa, pb);
  }

  lemma Associate(x: int, y: int, z: int)
    ensures x * (y * z) == (x * y) * z
  {}

  lemma {:induction false} PowMul(m: int, x: int, a: nat, b: nat)
    requires m > 1
    ensures a * b >= 0 && Pow(m, Pow(m, x, a), b) == Pow(m, x, a * b)
    decreases b
  {
    if b == 0 {
      assert a * b == 0;
    } else {
      PowMul(m, x, a, b - 1);
      assert a + a * (b - 1) == a * b;
      PowAdd(m, x, a, a * (b - 1));
    }
  }

  /** A power depends only on the base's remainder. */
  lemma {:induction false} PowCong(m: int, x: int, y: int, n: nat)
    requires m > 1
    requires Cong(m, x, y)
    ensures Pow(m, x, n) == Pow(m, y, n)
    decreases n
  {
    if n > 0 {
      PowCong(m, x, y, n - 1);
      CongMul(m, x, y, Pow(m, x, n - 1), Pow(m, y, n - 1));
    }
  }

  lemma {:induction false} PowProduct(m: int, x: int, y: int, n: nat)
    requires m > 1
    ensures Pow(m, x * y, n) == (Pow(m, x, n) * Pow(m, y, n)) % m
    decreases n
  {
    if n == 0 {
      ModSmall(m, 1);
    } else {
      PowProduct(m, x, y, n - 1);
      ProductStep(m, x, y, Pow(m, x, n - 1), Pow(m, y, n - 1));
    }
  }

  lemma ProductStep(m: int, x: int, y: int, px: int, py: int)
    requires m > 1
    ensures ((x * y) * ((px * py) % m)) % m == (((x * px) % m) * ((y * py) % m)) % m
  {
    ModMul(m, x * y, px * py);
    ModMul(m, x * px, y * py);
    Associate(x * y, px, py);
    Associate(x, y, px);
    Associate(x, px, y);
    Associate(x * px, y, py);
  }

  lemma {:induction false} PowOfOne(m: int, n: nat)
    requires m > 1
    ensures Pow(m, 1, n) == 1
    decreases n
  {
    if n > 0 {
      PowOfOne(m, n - 1);
      ModSmall(m, 1);
    }
  }

  lemma PowOne(m: int, x: int)
    requires m > 1
    ensures Pow(m, x, 1) == x % m
  {
    assert Pow(m, x, 0) == 1;
    assert x * 1 == x;
  }

  /** 2 to the power `n`, unreduced. */
  function Two(n: nat): (r: nat)
    ensures r >= 1
  {
    if n == 0 then 1 else 2 * Two(n - 1)
  }

  lemma {:induction false} TwoAdd(a: nat, b: nat)
    ensures Two(a + b) == Two(a) * Two(b)
    decreases a
  {
    if a > 0 {
      TwoAdd(a - 1, b);
      assert a - 1 + b == a + b - 1;
      assert 2 * (Two(a - 1) * Two(b)) == (2 * Two(a - 1)) * Two(b);
    }
  }

  /** 2^a - 1 shifted up by b bits and filled with ones is 2^(a+b) - 1. */
  lemma Ones(a: nat, b: nat)
    ensures (Two(a) - 1) * Two(b) + (Two(b) - 1) == Two(a + b) - 1
  {
    TwoAdd(a, b);
    assert (Two(a) - 1) * Two(b) == Two(a) * Two(b) - Two(b);
  }

  /** The value of a power of two from the values of two smaller ones. */
  lemma TwoSum(a: nat, b: nat, n: nat, va: int, vb: int)
    requires Two(a) == va && Two(b) == vb && n == a + b
    ensures Two(n) == va * vb
  {
    TwoAdd(a, b);
  }

  lemma TwoTo255()
    ensures Two(255) == 0x8000000000000000000000000000000000000000000000000000000000000000
  {
    TwoSum(5, 5, 10, 0x20, 0x20);
    TwoSum(10, 5, 15, 0x400, 0x20);
    TwoSum(15, 15, 30, 0x8000, 0x8000);
    TwoSum(30, 30, 60, 0x40000000, 0x40000000);
    TwoSum(60, 60, 120, 0x1000000000000000, 0x1000000000000000);
    TwoSum(120, 120, 240, 0x1000000000000000000000000000000, 0x1000000000000000000000000000000);
    TwoSum(240, 15, 255, 0x1000000000000000000000000000000000000000000000000000000000000, 0x8000);
  }
}
