/** What primality gives: no zero divisors, Fermat's little theorem, inverses, and signs of
    square roots of one. Primality itself is by trial division and always a hypothesis. */
module Primes {
  import opened ModArith

  ghost predicate Prime(p: int) {
    p >= 2 && forall d :: 1 < d < p ==> p % d != 0
  }

  /** A prime that divides a product by a smaller positive factor divides the other factor. */
  lemma {:induction false} SmallFactor(p: int, r: int, b: int)
    requires Prime(p) && 0 < r < p
    requires (r * b) % p == 0
    ensures b % p == 0
    decreases r
  {
    if r > 1 {
      var q, s := p / r, p % r;
      assert p == q * r + s;
      assert s != 0;
      var k := (r * b) / p;
      assert r * b == k * p;
      calc {
        s * b;
        (p - q * r) * b;
        p * b - q * (r * b);
        p * b - q * (k * p);
        (b - q * k) * p;
      }
      RemainderUnique(p, s * b, b - q * k, 0);
      SmallFactor(p, s, b);
    }
  }

  /** Euclid's lemma: modulo a prime a product is zero exactly when a factor is. */
  lemma ZeroProduct(p: int, a: int, b: int)
    requires Prime(p)
    ensures (a * b) % p == 0 <==> a % p == 0 || b % p == 0
  {
    if a % p == 0 {
      ZeroFactor(p, a, b);
    } else if b % p == 0 {
      ZeroFactor(p, b, a);
    } else if (a * b) % p == 0 {
      ModMul(p, a, b);
      SmallFactor(p, a % p, b);
      assert false;
    }
  }

  lemma ZeroFactor(p: int, a: int, b: int)
    requires p > 0 && a % p == 0
    ensures (a * b) % p == 0 && (b * a) % p == 0
  {
    CongMul(p, a, 0, b, b);
  }

  /** A nonzero factor cancels. */
  lemma Cancel(p: int, c: int, a: int, b: int)
    requires Prime(p) && c % p != 0
    requires Cong(p, c * a, c * b)
    ensures Cong(p, a, b)
  {
    CongAdd(p, c * a, c * b, c * b, c * b);
    assert c * a - c * b == c * (a - b);
    ZeroProduct(p, c, a - b);
    CongAdd(p, a - b, 0, b, b);
  }

  /** A number whose square is one is one or minus one. */
  lemma RootOfOne(p: int, w: int)
    requires Prime(p) && (w * w) % p == 1
    ensures w % p == 1 || w % p == p - 1
  {
    CongAdd(p, w * w, 1, 1, 1);
    assert w * w - 1 == (w - 1) * (w + 1);
    ZeroProduct(p, w - 1, w + 1);
    if (w - 1) % p == 0 {
      CongAdd(p, w - 1, 0, 1, 1);
    } else {
      CongAdd(p, w + 1, 0, 1, 1);
      CongByMultiple(p, p - 1, -1, 1);
      ModSmall(p, p - 1);
    }
    ModSmall(p, 1);
  }

  // ---------------------------------------------------------------------------------------
  // Fermat's little theorem
  // ---------------------------------------------------------------------------------------

  /** The product of a finite set, modulo `p`. */
  ghost function Product(p: int, s: set<int>): (r: int)
    requires p > 1
    ensures 0 <= r < p
  {
    if s == {} then 1 else Inhabited(s); var x :| x in s; (x * Product(p, s - {x})) % p
  }

  lemma Inhabited(s: set<int>)
    requires s != {}
    ensures exists x :: x in s
  {
    assert (forall x :: x !in s) ==> s == {};
  }

  /** Any element may be taken out first. */
  lemma {:induction false} ProductTake(p: int, s: set<int>, y: int)
    requires p > 1 && y in s
    ensures Product(p, s) == (y * Product(p, s - {y})) % p
    decreases |s|
  {
    var x := FirstTaken(p, s);
    if x != y {
      var rest := s - {x} - {y};
      ProductTake(p, s - {x}, y);
      ProductTake(p, s - {y}, x);
      assert s - {y} - {x} == rest;
      TakeBoth(p, x, y, Product(p, rest));
    }
  }

  lemma FirstTaken(p: int, s: set<int>) returns (x: int)
    requires p > 1 && s != {}
    ensures x in s && Product(p, s) == (x * Product(p, s - {x})) % p
  {
    Inhabited(s);
    x :| x in s && Product(p, s) == (x * Product(p, s - {x})) % p;
  }

  lemma TakeBoth(p: int, x: int, y: int, q: int)
    requires p > 1
    ensures (x * ((y * q) % p)) % p == (y * ((x * q) % p)) % p
  {
    ModMul(p, x, y * q);
    ModMul(p, y, x * q);
    assert x * (y * q) == y * (x * q);
  }

  /** The residues 1 to p - 1. */
  ghost function Residues(p: int): (s: set<int>)
    ensures forall i :: i in s <==> 1 <= i < p
    decreases p
  {
    if p <= 1 then {} else Residues(p - 1) + {p - 1}
  }

  ghost function Scaled(p: int, a: int, s: set<int>): set<int>
    requires p > 1
  {
    set i | i in s :: Image(p, a, i)
  }

  function Image(p: int, a: int, i: int): int
    requires p > 1
  {
    (a * i) % p
  }

  lemma {:induction false} ResidueCount(n: int)
    requires n >= 1
    ensures |Residues(n)| == n - 1
    decreases n
  {
    if n > 1 {
      ResidueCount(n - 1);
    }
  }

  /** Multiplication by a nonzero residue does not merge residues. */
  lemma ScaleInjective(p: int, a: int, i: int, j: int)
    requires Prime(p) && a % p != 0 && 1 <= i < p && 1 <= j < p
    requires (a * i) % p == (a * j) % p
    ensures i == j
  {
    Cancel(p, a, i, j);
    ModSmall(p, i);
    ModSmall(p, j);
  }

  /** Taking one element out of a set takes its image, and nothing else, out of the scaled set. */
  lemma ScaledTake(p: int, a: int, s: set<int>, y: int)
    requires Prime(p) && a % p != 0 && y in s && InRange(p, s)
    ensures Image(p, a, y) !in Scaled(p, a, s - {y})
    ensures Scaled(p, a, s) == Scaled(p, a, s - {y}) + {Image(p, a, y)}
  {
    forall i | i in s && i != y
      ensures Image(p, a, i) != Image(p, a, y)
    {
      if Image(p, a, i) == Image(p, a, y) {
        ScaleInjective(p, a, i, y);
      }
    }
  }

  ghost predicate InRange(p: int, s: set<int>) {
    forall i :: i in s ==> 1 <= i < p
  }

  /** Scaling a set of residues keeps its size and multiplies its product by a power. */
  lemma {:induction false} ScaledProduct(p: int, a: int, s: set<int>)
    requires Prime(p) && a % p != 0 && InRange(p, s)
    ensures |Scaled(p, a, s)| == |s|
    ensures Product(p, Scaled(p, a, s)) == (Pow(p, a, |s|) * Product(p, s)) % p
    decreases |s|
  {
    if s == {} {
      assert Scaled(p, a, s) == {};
      ModSmall(p, 1);
    } else {
      Inhabited(s);
      var y :| y in s;
      var rest, fy := s - {y}, Image(p, a, y);
      ScaledProduct(p, a, rest);
      ScaledTake(p, a, s, y);
      assert Scaled(p, a, s) - {fy} == Scaled(p, a, rest);
      ProductTake(p, Scaled(p, a, s), fy);
      ProductTake(p, s, y);
      ScaleStep(p, a, y, Pow(p, a, |rest|), Product(p, rest));
    }
  }

  lemma ScaleStep(p: int, a: int, y: int, w: int, q: int)
    requires p > 1
    ensures (((a * y) % p) * ((w * q) % p)) % p == (((a * w) % p) * ((y * q) % p)) % p
  {
    ModMul(p, a * y, w * q);
    ModMul(p, a * w, y * q);
    assert (a * y) * (w * q) == (a * w) * (y * q);
  }

  lemma {:induction false} ProductNonzero(p: int, s: set<int>)
    requires Prime(p) && InRange(p, s)
    ensures Product(p, s) % p != 0
    decreases |s|
  {
    if s == {} {
      ModSmall(p, 1);
    } else {
      Inhabited(s);
      var y :| y in s;
      ProductNonzero(p, s - {y});
      ProductTake(p, s, y);
      ZeroProduct(p, y, Product(p, s - {y}));
      ModSmall(p, y);
      CongMod(p, y * Product(p, s - {y}));
    }
  }

  lemma {:induction false} SubsetOfSameSize(a: set<int>, b: set<int>)
    requires a <= b && |a| == |b|
    ensures a == b
    decreases |a|
  {
    if a == {} {
      assert b == {};
    } else {
      Inhabited(a);
      var x :| x in a;
      SubsetOfSameSize(a - {x}, b - {x});
      assert a == (a - {x}) + {x} && b == (b - {x}) + {x};
    }
  }

  /** Fermat: a nonzero residue to the power p - 1 is 1. */
  lemma Fermat(p: int, a: int)
    requires Prime(p) && a % p != 0
    ensures Pow(p, a, p - 1) == 1
  {
    ResidueCount(p);
    FermatOver(p, a, Residues(p));
  }

  lemma FermatOver(p: int, a: int, all: set<int>)
    requires Prime(p) && a % p != 0
    requires |all| == p - 1 && forall i :: i in all <==> 1 <= i < p
    ensures Pow(p, a, p - 1) == 1
  {
    ScaledProduct(p, a, all);
    assert Scaled(p, a, all) == all by {
      ScaledWithin(p, a, all);
      SubsetOfSameSize(Scaled(p, a, all), all);
    }
    ProductNonzero(p, all);
    UnitPower(p, Pow(p, a, p - 1), Product(p, all));
  }

  lemma ScaledWithin(p: int, a: int, all: set<int>)
    requires Prime(p) && a % p != 0
    requires forall i :: i in all <==> 1 <= i < p
    ensures Scaled(p, a, all) <= all
  {
    forall i | i in all
      ensures Image(p, a, i) in all
    {
      ModSmall(p, i);
      ZeroProduct(p, a, i);
    }
  }

  lemma UnitPower(p: int, w: int, q: int)
    requires Prime(p) && 0 <= w < p && 0 <= q < p && q % p != 0
    requires q == (w * q) % p
    ensures w == 1
  {
    ModSmall(p, q);
    assert q * w == w * q && q * 1 == q;
    Cancel(p, q, w, 1);
    ModSmall(p, w);
    ModSmall(p, 1);
  }
}
