/** Modular arithmetic behind the RSA primitives: Euclid's lemma, Fermat's little theorem and the
    two-prime Chinese remainder step. */
module NumberTheory {
  import opened Sums

  ghost predicate Prime(p: int) {
    p >= 2 && forall d :: 2 <= d < p ==> p % d != 0
  }

  function Pow(b: nat, e: nat): nat {
    if e == 0 then 1 else b * Pow(b, e - 1)
  }

  function Gcd(a: nat, b: nat): nat
    decreases b
  {
    if b == 0 then a else Gcd(b, a % b)
  }

  // ----- divisibility ----------------------------------------------------------------------

  lemma SmallMultiple(n: int, k: int)
    requires n > 0 && -n < n * k < n
    ensures k == 0
  {
    if k >= 1 {
      MulMonotone(n, 1, k);
    } else if k <= -1 {
      MulMonotone(n, k, -1);
    }
  }

  lemma MulMonotone(n: int, x: int, y: int)
    requires n >= 0 && x <= y
    ensures n * x <= n * y
  {
    assert n * y == n * x + n * (y - x);
  }

  /** A number with a known quotient and remainder. */
  lemma ModUnique(x: int, q: int, r: int, n: int)
    requires n > 0 && x == q * n + r && 0 <= r < n
    ensures x % n == r
  {
    var d := x / n;
    assert x == n * d + x % n;
    assert n * (q - d) == q * n - n * d;
    SmallMultiple(n, q - d);
  }

  lemma MultipleMod(q: int, n: int)
    requires n > 0
    ensures (q * n) % n == 0
  {
    ModUnique(q * n, q, 0, n);
  }

  lemma DividesSum(x: int, y: int, n: int)
    requires n > 0 && x % n == 0 && y % n == 0
    ensures (x + y) % n == 0
    ensures (x - y) % n == 0
  {
    var a, b := x / n, y / n;
    assert x + y == (a + b) * n && x - y == (a - b) * n;
    MultipleMod(a + b, n);
    MultipleMod(a - b, n);
  }

  lemma DividesProduct(x: int, y: int, n: int)
    requires n > 0 && x % n == 0
    ensures (x * y) % n == 0
    ensures (y * x) % n == 0
  {
    var a := x / n;
    assert x == a * n;
    assert x * y == (a * y) * n;
    MultipleMod(a * y, n);
  }

  /** Equal remainders are the same as a divisible difference. */
  lemma SameRemainder(x: int, y: int, n: int)
    requires n > 0
    ensures x % n == y % n <==> (x - y) % n == 0
  {
    var a, b := x / n, y / n;
    var r, s := x % n, y % n;
    assert x - y == (a - b) * n + (r - s);
    if r >= s {
      ModUnique(x - y, a - b, r - s, n);
    } else {
      assert x - y == (a - b - 1) * n + (r - s + n);
      ModUnique(x - y, a - b - 1, r - s + n, n);
    }
  }

  lemma ProductRemainder(x: int, y: int, n: int)
    requires n > 0
    ensures ((x % n) * y) % n == (x * y) % n
    ensures (x * (y % n)) % n == (x * y) % n
  {
    var a, b := x / n, y / n;
    assert x * y - (x % n) * y == (a * y) * n;
    MultipleMod(a * y, n);
    SameRemainder(x * y, (x % n) * y, n);
    assert x * y - x * (y % n) == (b * x) * n;
    MultipleMod(b * x, n);
    SameRemainder(x * y, x * (y % n), n);
  }

  /** Euclid's lemma with the first factor already reduced: the remainders p % m give a descent. */
  lemma {:induction false} EuclidDescent(p: int, m: int, y: int)
    requires Prime(p) && 0 < m < p && (m * y) % p == 0
    ensures y % p == 0
    decreases m
  {
    if m > 1 {
      var q, r := p / m, p % m;
      assert p == q * m + r && r != 0;
      assert r * y == y * p - q * (m * y) by {
        assert r == p - q * m;
        assert (p - q * m) * y == p * y - (q * m) * y;
      }
      MultipleMod(y, p);
      DividesProduct(m * y, q, p);
      DividesSum(y * p, q * (m * y), p);
      EuclidDescent(p, r, y);
    }
  }

  lemma EuclidLemma(p: int, x: int, y: int)
    requires Prime(p) && (x * y) % p == 0
    ensures x % p == 0 || y % p == 0
  {
    var m := x % p;
    ProductRemainder(x, y, p);
    if m != 0 {
      EuclidDescent(p, m, y);
    }
  }

  // ----- powers ----------------------------------------------------------------------------

  lemma {:induction false} PowAdd(b: nat, x: nat, y: nat)
    ensures Pow(b, x + y) == Pow(b, x) * Pow(b, y)
    decreases x
  {
    if x != 0 {
      PowAdd(b, x - 1, y);
      Associate(b, Pow(b, x - 1), Pow(b, y));
    }
  }

  lemma Associate(x: int, y: int, z: int)
    ensures x * (y * z) == (x * y) * z
  {
  }

  lemma {:induction false} PowMul(b: nat, x: nat, y: nat)
    ensures x * y >= 0
    ensures Pow(Pow(b, x), y) == Pow(b, x * y)
    decreases y
  {
    if y != 0 {
      PowMul(b, x, y - 1);
      assert x * y == x + x * (y - 1);
      PowAdd(b, x, x * (y - 1));
    }
  }

  lemma {:induction false} PowRemainder(b: nat, e: nat, n: nat)
    requires n > 0
    ensures Pow(b % n, e) % n == Pow(b, e) % n
    decreases e
  {
    if e != 0 {
      var r := Pow(b % n, e - 1);
      PowRemainder(b, e - 1, n);
      ProductRemainder(b, r, n);
      ProductRemainder(b, r, n);
      ProductRemainder(b, Pow(b, e - 1), n);
    }
  }

  lemma {:induction false} PowOfOneRemainder(b: nat, e: nat, n: nat)
    requires n > 1 && b % n == 1
    ensures Pow(b, e) % n == 1
    decreases e
  {
    if e != 0 {
      PowOfOneRemainder(b, e - 1, n);
      ProductRemainder(b, Pow(b, e - 1), n);
    }
  }

  // ----- Fermat's little theorem ------------------------------------------------------------

  ghost function Prod(s: set<nat>): nat {
    if s == {} then 1 else
      var x :| x in s;
      x * Prod(s - {x})
  }

  lemma {:induction false} ProdRemove(s: set<nat>, x: nat)
    requires x in s
    ensures Prod(s) == x * Prod(s - {x})
    decreases s
  {
    var y :| y in s && Prod(s) == y * Prod(s - {y});
    if x != y {
      ProdRemove(s - {y}, x);
      ProdRemove(s - {x}, y);
      assert s - {y} - {x} == s - {x} - {y};
      Interchange(y, x, Prod(s - {x} - {y}));
    }
  }

  lemma Interchange(x: nat, y: nat, c: nat)
    ensures x * (y * c) == y * (x * c)
  {
  }

  /** The residues a*i mod p of the members i of s. */
  function Scaled(a: nat, p: nat, s: set<nat>): set<nat>
    requires p > 0
  {
    set i | i in s :: (a * i) % p
  }

  predicate Residue(i: nat, p: nat) {
    1 <= i < p
  }

  function Residues(p: nat): set<nat> {
    set i: nat {:trigger Residue(i, p)} | i < p && Residue(i, p)
  }

  lemma ScaleInjective(a: nat, p: nat, i: nat, j: nat)
    requires Prime(p) && a % p != 0 && i < p && j < p && (a * i) % p == (a * j) % p
    ensures i == j
  {
    SameRemainder(a * i, a * j, p);
    assert a * i - a * j == a * (i - j);
    EuclidLemma(p, a, i - j);
    SameRemainder(i, j, p);
    ModUnique(i, 0, i, p);
    ModUnique(j, 0, j, p);
  }

  lemma {:induction false} ProdScaled(a: nat, p: nat, s: set<nat>)
    requires Prime(p) && a % p != 0 && s <= Residues(p)
    ensures Prod(Scaled(a, p, s)) % p == (Pow(a, |s|) * Prod(s)) % p
    ensures |Scaled(a, p, s)| == |s|
    decreases s
  {
    if s == {} {
      assert Scaled(a, p, s) == {};
    } else {
      var x :| x in s;
      var t := s - {x};
      var y := (a * x) % p;
      ProdScaled(a, p, t);
      ScaledInsert(a, p, s, x);
      ProdRemove(Scaled(a, p, s), y);
      ProdRemove(s, x);
      ScaledStep(a, p, x, Prod(Scaled(a, p, t)), Pow(a, |t|), Prod(t));
    }
  }

  lemma ScaledInsert(a: nat, p: nat, s: set<nat>, x: nat)
    requires Prime(p) && a % p != 0 && s <= Residues(p) && x in s
    ensures (a * x) % p in Scaled(a, p, s)
    ensures Scaled(a, p, s) - {(a * x) % p} == Scaled(a, p, s - {x})
  {
    var y, t := (a * x) % p, s - {x};
    forall z | z in Scaled(a, p, t) ensures z in Scaled(a, p, s) && z != y {
      var i :| i in t && z == (a * i) % p;
      if z == y { ScaleInjective(a, p, i, x); }
    }
    forall z | z in Scaled(a, p, s) && z != y ensures z in Scaled(a, p, t) {
      var i :| i in s && z == (a * i) % p;
      assert i in t;
    }
  }

  lemma ScaledStep(a: nat, p: nat, x: nat, u: nat, w: nat, r: nat)
    requires p > 0 && u % p == (w * r) % p
    ensures ((a * x) % p * u) % p == (a * w * (x * r)) % p
  {
    ProductRemainder(a * x, u, p);
    ProductRemainder(a * x, w * r, p);
    ProductRemainder(a * x, u, p);
    assert (a * x) * (w * r) == a * w * (x * r);
  }

  lemma {:induction false} ProdNotDivisible(p: nat, s: set<nat>)
    requires Prime(p) && s <= Residues(p)
    ensures Prod(s) % p != 0
    decreases s
  {
    if s != {} {
      var x :| x in s;
      ProdRemove(s, x);
      ProdNotDivisible(p, s - {x});
      if Prod(s) % p == 0 {
        EuclidLemma(p, x, Prod(s - {x}));
        ModUnique(x, 0, x, p);
      }
    }
  }

  lemma {:induction false} ResiduesSize(p: nat)
    requires p >= 1
    ensures |Residues(p)| == p - 1
  {
    if p == 1 {
      assert Residues(p) == {};
    } else {
      ResiduesSize(p - 1);
      assert Residues(p) == Residues(p - 1) + {p - 1};
    }
  }

  lemma SubsetOfEqualSize(a: set<nat>, b: set<nat>)
    requires a <= b && |a| == |b|
    ensures a == b
  {
    if x :| x in b && x !in a {
      assert a <= b - {x};
      SubsetSize(a, b - {x});
    }
  }

  /** Fermat: multiplying the residues by a only permutes them, so a^(p-1) cancels to 1. */
  lemma Fermat(a: nat, p: nat)
    requires Prime(p) && a % p != 0
    ensures Pow(a, p - 1) % p == 1
  {
    var s := Residues(p);
    var t := Scaled(a, p, s);
    forall y | y in t ensures y in s {
      var i :| i in s && y == (a * i) % p;
      if y == 0 {
        EuclidLemma(p, a, i);
        ModUnique(i, 0, i, p);
      }
    }
    ProdScaled(a, p, s);
    SubsetOfEqualSize(t, s);
    ResiduesSize(p);
    ProdNotDivisible(p, s);
    CancelFactor(Pow(a, p - 1), Prod(s), p);
  }

  lemma CancelFactor(c: nat, r: nat, p: nat)
    requires Prime(p) && r % p != 0 && r % p == (c * r) % p
    ensures c % p == 1
  {
    SameRemainder(c * r, r, p);
    assert c * r - r == (c - 1) * r;
    EuclidLemma(p, c - 1, r);
    SameRemainder(c, 1, p);
    ModUnique(1, 0, 1, p);
  }

  /** Raising to 1 + k(p-1) is the identity modulo a prime, for every base. */
  lemma FermatExponent(m: nat, p: nat, k: nat)
    requires Prime(p)
    ensures k * (p - 1) >= 0
    ensures Pow(m, 1 + k * (p - 1)) % p == m % p
  {
    var x := k * (p - 1);
    assert Pow(m, 1 + x) == m * Pow(m, x);
    if m % p == 0 {
      DividesProduct(m, Pow(m, x), p);
    } else {
      Fermat(m, p);
      PowMul(m, p - 1, k);
      assert (p - 1) * k == x;
      PowOfOneRemainder(Pow(m, p - 1), k, p);
      ProductRemainder(m, Pow(m, x), p);
    }
  }

  /** Two distinct primes: agreeing modulo both is agreeing modulo the product. */
  lemma ChineseRemainder(x: int, y: int, p: nat, q: nat)
    requires Prime(p) && Prime(q) && p != q
    requires x % p == y % p && x % q == y % q
    ensures p * q > 0
    ensures x % (p * q) == y % (p * q)
  {
    SameRemainder(x, y, p);
    SameRemainder(x, y, q);
    var c := (x - y) / p;
    assert x - y == p * c;
    EuclidLemma(q, p, c);
    assert p % q != 0 by {
      if p % q == 0 && q < p { assert p % q != 0; }
      if p < q { ModUnique(p, 0, p, q); }
    }
    var d := c / q;
    assert x - y == d * (p * q) by {
      assert c == d * q;
      assert p * (d * q) == d * (p * q);
    }
    MultipleMod(d, p * q);
    SameRemainder(x, y, p * q);
  }

  // ----- modulo the square of a prime --------------------------------------------------------------

  lemma SquareDivides(y: int, p: nat)
    requires p > 0
    ensures p * p > 0 && ((y * p) % (p * p) == 0 <==> y % p == 0)
  {
    var n := p * p;
    MulMonotone(p, 1, p);
    if y % p == 0 {
      var k := y / p;
      assert y * p == k * n;
      MultipleMod(k, n);
    } else if (y * p) % n == 0 {
      var k := (y * p) / n;
      assert p * (y - k * p) == 0;
      assert y == k * p + 0;
      ModUnique(y, k, 0, p);
    }
  }

  /** A factor that p does not divide can be cancelled modulo p * p. */
  lemma CancelModSquare(h: int, y: int, p: nat)
    requires Prime(p) && h % p != 0
    ensures (h * y) % (p * p) == 0 <==> y % (p * p) == 0
  {
    var n := p * p;
    if y % n == 0 {
      DividesProduct(y, h, n);
    } else if (h * y) % n == 0 {
      var k := (h * y) / n;
      assert h * y == (k * p) * p;
      MultipleMod(k * p, p);
      EuclidLemma(p, h, y);
      var z := y / p;
      assert y == z * p;
      assert (h * z) * p == h * y;
      SquareDivides(h * z, p);
      EuclidLemma(p, h, z);
      SquareDivides(z, p);
    }
  }

  /** The binomial expansion up to the linear term, where the square vanishes. */
  lemma {:induction false} PowNearOne(a: nat, k: nat, n: nat)
    requires n > 0 && (a * a) % n == 0
    ensures (Pow(1 + a, k) - 1 - k * a) % n == 0
    decreases k
  {
    if k > 0 {
      var was := Pow(1 + a, k - 1);
      PowNearOne(a, k - 1, n);
      NextTerm(a, k - 1, was);
      var e := was - 1 - (k - 1) * a;
      DividesProduct(e, 1 + a, n);
      DividesProduct(a * a, k - 1, n);
      DividesSum((1 + a) * e, (k - 1) * (a * a), n);
    } else {
      MultipleMod(0, n);
    }
  }

  lemma NextTerm(a: int, j: int, was: int)
    ensures (1 + a) * was - 1 - (j + 1) * a == (1 + a) * (was - 1 - j * a) + j * (a * a)
  {
    var y := j * a;
    assert a * y == j * (a * a);
    assert (1 + a) * (was - 1 - y) == (1 + a) * was - (1 + a) - (y + a * y);
  }

  /** A number that is 1 modulo p has a k-th power that is 1 modulo p * p exactly when it is 1 there
      itself, unless p divides k. */
  lemma PowerOneModSquare(u: nat, k: nat, p: nat)
    requires Prime(p) && u % p == 1 && k % p != 0
    ensures (Pow(u, k) - 1) % (p * p) == 0 <==> (u - 1) % (p * p) == 0
  {
    var x, n := u / p, p * p;
    var a := x * p;
    assert u == 1 + a;
    SquareOfMultiple(x, p);
    PowNearOne(a, k, n);
    assert k * a == (k * x) * p;
    AddMultiple(k * a, Pow(u, k) - 1 - k * a, n);
    SquareDivides(k * x, p);
    SquareDivides(x, p);
    if (k * x) % p == 0 {
      EuclidLemma(p, k, x);
    } else if x % p == 0 {
      DividesProduct(x, k, p);
    }
  }

  lemma SquareOfMultiple(x: nat, p: nat)
    requires p > 0
    ensures p * p > 0 && ((x * p) * (x * p)) % (p * p) == 0
  {
    MulMonotone(p, 1, p);
    assert (x * p) * (x * p) == (x * x) * (p * p);
    MultipleMod(x * x, p * p);
  }

  lemma AddMultiple(x: int, y: int, n: nat)
    requires n > 0 && y % n == 0
    ensures (x + y) % n == 0 <==> x % n == 0
  {
    if x % n == 0 {
      DividesSum(x, y, n);
    } else if (x + y) % n == 0 {
      DividesSum(x + y, y, n);
    }
  }
}
