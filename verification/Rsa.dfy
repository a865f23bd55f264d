/** Raw RSA signing of a hash value: key generation from drawn primes, signing with d and
    verifying with (e, n).  The hash function and the random prime source are parameters. */
module Rsa {
  import opened NumberTheory

  const PUBLIC_EXPONENT := 3

  datatype Key = Key(n: nat, e: nat, d: nat)
  datatype KeyResult = NoKey | Generated(key: Key)

  predicate AcceptPrimes(p: nat, q: nat, e: nat) {
    p >= 2 && q >= 2 && Gcd(p - 1, e) == 1 && Gcd(q - 1, e) == 1
  }

  lemma GcdWithThree(x: nat)
    ensures Gcd(x, 3) == 1 <==> x % 3 != 0
  {
    assert Gcd(x, 3) == Gcd(3, x % 3);
    if x % 3 == 2 {
      assert Gcd(3, 2) == Gcd(2, 1) == Gcd(1, 0);
    } else if x % 3 == 1 {
      assert Gcd(3, 1) == Gcd(1, 0);
    }
  }

  /** d is an inverse of e modulo phi, in the range the library returns. */
  predicate IsInverse(d: nat, e: nat, phi: nat) {
    phi > 0 && d < phi && (e * d) % phi == 1 % phi
  }

  lemma ProductOfAccepted(x: nat, y: nat)
    requires x % 3 != 0 && y % 3 != 0
    ensures (x * y) % 3 != 0
  {
    if (x * y) % 3 == 0 {
      EuclidLemma(3, x, y);
    }
  }

  /** The inverse of 3 modulo any phi that 3 does not divide. */
  function InverseOfThree(phi: nat): (d: nat)
    requires phi > 0 && phi % 3 != 0
    ensures IsInverse(d, 3, phi)
  {
    if phi == 1 then
      0
    else if phi % 3 == 2 then
      var d := (phi + 1) / 3;
      ModUnique(3 * d, 1, 1, phi);
      ModUnique(1, 0, 1, phi);
      d
    else
      var d := (2 * phi + 1) / 3;
      ModUnique(3 * d, 2, 1, phi);
      ModUnique(1, 0, 1, phi);
      d
  }

  /** The key that the primes p and q give. */
  ghost predicate KeyFor(k: Key, p: nat, q: nat) {
    && p >= 2 && q >= 2
    && k.n == p * q
    && k.e == PUBLIC_EXPONENT
    && (p - 1) * (q - 1) >= 0
    && IsInverse(k.d, k.e, (p - 1) * (q - 1))
  }

  /** Draws pairs of primes until a pair is accepted.  The list ends where the random source fails. */
  method KeyGen(draws: seq<(nat, nat)>) returns (r: KeyResult)
    requires forall i :: 0 <= i < |draws| ==> Prime(draws[i].0) && Prime(draws[i].1)
    ensures r.NoKey? <==>
            forall i :: 0 <= i < |draws| ==> !AcceptPrimes(draws[i].0, draws[i].1, PUBLIC_EXPONENT)
    ensures r.Generated? ==> exists i ::
              && 0 <= i < |draws|
              && AcceptPrimes(draws[i].0, draws[i].1, PUBLIC_EXPONENT)
              && (forall j :: 0 <= j < i ==> !AcceptPrimes(draws[j].0, draws[j].1, PUBLIC_EXPONENT))
              && KeyFor(r.key, draws[i].0, draws[i].1)
  {
    r := NoKey;
    for i := 0 to |draws|
      invariant r == NoKey
      invariant forall j :: 0 <= j < i ==> !AcceptPrimes(draws[j].0, draws[j].1, PUBLIC_EXPONENT)
    {
      var p, q := draws[i].0, draws[i].1;
      if AcceptPrimes(p, q, PUBLIC_EXPONENT) {
        GcdWithThree(p - 1);
        GcdWithThree(q - 1);
        ProductOfAccepted(p - 1, q - 1);
        var d := InverseOfThree((p - 1) * (q - 1));
        r := Generated(Key(p * q, PUBLIC_EXPONENT, d));
        assert KeyFor(r.key, draws[i].0, draws[i].1);
        return;
      }
    }
  }

  function Encrypt(m: nat, e: nat, n: nat): nat
    requires n > 0
  {
    Pow(m, e) % n
  }

  function Decrypt(c: nat, d: nat, n: nat): nat
    requires n > 0
  {
    Pow(c, d) % n
  }

  function RSASign<M>(message: M, hash: M -> nat, d: nat, n: nat): nat
    requires n > 0
  {
    Decrypt(hash(message), d, n)
  }

  predicate RSAVerify<M>(message: M, hash: M -> nat, signature: nat, e: nat, n: nat)
    requires n > 0
  {
    Encrypt(signature, e, n) == hash(message)
  }

  /** The two exponents multiply to 1 modulo each of p - 1 and q - 1. */
  lemma ExponentShape(d: nat, x: nat, y: nat) returns (j: nat, k: nat)
    requires x >= 1 && y >= 1 && x != y
    requires x * y >= 0 && IsInverse(d, 3, x * y)
    ensures d * 3 == 1 + j * x == 1 + k * y
  {
    hide IsInverse;
    AtLeastTwo(x, y);
    var m := InverseQuotient(d, x, y);
    j, k := m * y, m * x;
    Reorder(x, y, m);
  }

  lemma AtLeastTwo(x: nat, y: nat)
    requires x >= 1 && y >= 1 && x != y
    ensures x * y >= 2
  {
    if x >= 2 { MulMonotone(x, 1, y); } else { assert x * y == y; }
  }

  lemma Reorder(x: nat, y: nat, m: nat)
    ensures (x * y) * m == (m * y) * x == (m * x) * y
  {
  }

  lemma InverseQuotient(d: nat, x: nat, y: nat) returns (m: nat)
    requires x * y >= 2 && IsInverse(d, 3, x * y)
    ensures 3 * d == 1 + (x * y) * m
  {
    var phi := x * y;
    ModUnique(1, 0, 1, phi);
    m := (3 * d) / phi;
  }

  /** The two exponents undo each other on every number. */
  lemma PowerRoundTrip(x: nat, d: nat, p: nat, q: nat)
    requires Prime(p) && Prime(q) && p != q
    requires (p - 1) * (q - 1) >= 0 && IsInverse(d, 3, (p - 1) * (q - 1))
    ensures p * q > 0 && Pow(x, d * 3) % (p * q) == x % (p * q)
  {
    var j, k := ExponentShape(d, p - 1, q - 1);
    FermatExponent(x, p, j);
    FermatExponent(x, q, k);
    ChineseRemainder(Pow(x, d * 3), x, p, q);
  }

  lemma RoundTrip(h: nat, d: nat, p: nat, q: nat)
    requires Prime(p) && Prime(q) && p != q
    requires (p - 1) * (q - 1) >= 0 && IsInverse(d, 3, (p - 1) * (q - 1))
    ensures p * q > 0
    ensures Encrypt(Decrypt(h, d, p * q), 3, p * q) == h % (p * q)
  {
    PowerRoundTrip(h, d, p, q);
    EncryptDecrypt(h, d, p * q);
  }

  /** Signing then verifying succeeds exactly when the hash is smaller than the modulus. */
  lemma SignatureVerifies<M>(message: M, hash: M -> nat, key: Key, p: nat, q: nat)
    requires Prime(p) && Prime(q) && p != q && KeyFor(key, p, q)
    ensures key.n > 0
    ensures RSAVerify(message, hash, RSASign(message, hash, key.d, key.n), key.e, key.n)
            <==> hash(message) < key.n
  {
    var h := hash(message);
    RoundTrip(h, key.d, p, q);
    if h < key.n {
      ModUnique(h, 0, h, key.n);
    }
  }

  /** A signature verifies exactly when it is, modulo n, the one signature of a hash below n: nothing
      else does. */
  lemma VerifiesIffSigned<M>(message: M, hash: M -> nat, signature: nat, key: Key, p: nat, q: nat)
    requires Prime(p) && Prime(q) && p != q && KeyFor(key, p, q)
    ensures key.n > 0
    ensures RSAVerify(message, hash, signature, key.e, key.n)
            <==> hash(message) < key.n && signature % key.n == RSASign(message, hash, key.d, key.n)
  {
    var h := hash(message);
    hide Pow, Prime, IsInverse;
    PowerRoundTrip(h, key.d, p, q);
    PowerRoundTrip(signature, key.d, p, q);
    Undoes(signature, h, key.d, key.n);
  }

  /** Where the exponents undo each other, the cube of x is h exactly when h is reduced and x is its
      d-th power. */
  lemma Undoes(x: nat, h: nat, d: nat, n: nat)
    requires n > 0 && Pow(x, d * 3) % n == x % n && Pow(h, d * 3) % n == h % n
    ensures Pow(x, 3) % n == h <==> h < n && x % n == Pow(h, d) % n
  {
    hide Pow;
    if Pow(x, 3) % n == h {
      PowMul(x, 3, d);
      PowRemainder(Pow(x, 3), d, n);
    } else if h < n && x % n == Pow(h, d) % n {
      PowRemainder(x, 3, n);
      PowRemainder(Pow(h, d), 3, n);
      PowMul(h, d, 3);
      ModUnique(h, 0, h, n);
    }
  }

  // ----- equal primes --------------------------------------------------------------------------------

  /** The exponents of a squared prime: the quotient is 1 or 2, and the prime does not divide it. */
  lemma SquareExponent(d: nat, p: nat) returns (k: nat)
    requires Prime(p) && p > 2 && (p - 1) * (p - 1) >= 0 && IsInverse(d, 3, (p - 1) * (p - 1))
    ensures d * 3 == 1 + (p - 1) * k && k % p != 0 && d > 0
  {
    var x := p - 1;
    MulMonotone(x, 2, x);
    var m := InverseQuotient(d, x, x);
    if m >= 3 {
      MulMonotone(x * x, 3, m);
    }
    assert m == 1 || m == 2;
    k := m * x;
    assert (x * x) * m == x * (m * x);
    if k % p == 0 {
      EuclidLemma(p, m, x);
      ModUnique(m, 0, m, p);
      ModUnique(x, 0, x, p);
    }
  }

  /** Modulo a squared prime, raising to d * 3 gives back a number p does not divide exactly when its
      power p - 1 is 1. */
  lemma SquareRoundTrip(h: nat, d: nat, p: nat)
    requires Prime(p) && p > 2 && (p - 1) * (p - 1) >= 0 && IsInverse(d, 3, (p - 1) * (p - 1))
    requires h % p != 0
    ensures p * p > 0
    ensures Pow(h, d * 3) % (p * p) == h % (p * p) <==> (Pow(h, p - 1) - 1) % (p * p) == 0
  {
    var k := SquareExponent(d, p);
    var u := Pow(h, p - 1);
    MulMonotone(p, 1, p);
    Fermat(h, p);
    PowMul(h, p - 1, k);
    assert Pow(h, d * 3) == h * Pow(u, k);
    PowerOneModSquare(u, k, p);
    CancelModSquare(h, Pow(u, k) - 1, p);
    assert h * Pow(u, k) - h == h * (Pow(u, k) - 1);
    SameRemainder(h * Pow(u, k), h, p * p);
  }

  /** Powers of a multiple of p vanish modulo its square. */
  lemma PowOfMultiple(h: nat, e: nat, p: nat)
    requires p > 0 && h % p == 0 && e >= 2
    ensures p * p > 0 && Pow(h, e) % (p * p) == 0
  {
    var x := h / p;
    assert h == x * p;
    SquareOfMultiple(x, p);
    PowSplit(h, e);
    DividesProduct(h * h, Pow(h, e - 2), p * p);
  }

  lemma PowSplit(h: nat, e: nat)
    requires e >= 2
    ensures Pow(h, e) == (h * h) * Pow(h, e - 2)
  {
    var rest := Pow(h, e - 2);
    assert Pow(h, e - 1) == h * rest;
    assert h * (h * rest) == (h * h) * rest;
  }

  lemma EncryptDecrypt(h: nat, d: nat, n: nat)
    requires n > 0
    ensures Encrypt(Decrypt(h, d, n), 3, n) == Pow(h, d * 3) % n
  {
    PowMul(h, d, 3);
    PowRemainder(Pow(h, d), 3, n);
  }

  lemma OneRemainder(x: int, n: int)
    requires n > 1
    ensures (x - 1) % n == 0 <==> x % n == 1
  {
    SameRemainder(x, 1, n);
    ModUnique(1, 0, 1, n);
  }

  /** A residue modulo n, kept as a name so that proofs about it stay propositional. */
  function Residual(x: int, n: nat): int
    requires n > 0
  {
    x % n
  }

  lemma MultipleCase(h: nat, d: nat, p: nat, n: nat)
    requires Prime(p) && p > 2 && (p - 1) * (p - 1) >= 0 && IsInverse(d, 3, (p - 1) * (p - 1))
    requires n == p * p && n > 1 && h % p == 0
    ensures Residual(Pow(h, p - 1), n) == 0 && Residual(Pow(h, d * 3), n) == 0
  {
    hide Pow, Prime, IsInverse;
    var k := SquareExponent(d, p);
    PowOfMultiple(h, d * 3, p);
    PowOfMultiple(h, p - 1, p);
  }

  lemma CoprimeCase(h: nat, d: nat, p: nat, n: nat)
    requires Prime(p) && p > 2 && (p - 1) * (p - 1) >= 0 && IsInverse(d, 3, (p - 1) * (p - 1))
    requires n == p * p && n > 1 && h % p != 0
    ensures Residual(Pow(h, d * 3), n) == Residual(h, n) <==> Residual(Pow(h, p - 1), n) == 1
  {
    hide Pow, Prime, IsInverse;
    SquareRoundTrip(h, d, p);
    OneRemainder(Pow(h, p - 1), n);
  }

  lemma ResidualFacts(x: nat, n: nat)
    requires n > 0
    ensures 0 <= Residual(x, n) < n && Residual(0, n) == 0 && (x < n ==> Residual(x, n) == x)
  {
    ModUnique(0, 0, 0, n);
    if x < n {
      ModUnique(x, 0, x, n);
    }
  }

  /** With one odd prime drawn twice, a signed hash verifies exactly when it is below the modulus and
      is zero or has a power p - 1 that is 1 modulo p * p. */
  lemma EqualPrimesVerify<M>(message: M, hash: M -> nat, key: Key, p: nat)
    requires Prime(p) && p > 2 && KeyFor(key, p, p)
    ensures key.n > 0
    ensures RSAVerify(message, hash, RSASign(message, hash, key.d, key.n), key.e, key.n)
            <==> hash(message) < key.n && (hash(message) == 0 || Pow(hash(message), p - 1) % key.n == 1)
  {
    assert key.n > 1 by { MulMonotone(p, 2, p); }
    SquareVerifies(hash(message), key.d, p, key.n);
    EncryptDecrypt(hash(message), key.d, key.n);
  }

  lemma SquareVerifies(h: nat, d: nat, p: nat, n: nat)
    requires Prime(p) && p > 2 && (p - 1) * (p - 1) >= 0 && IsInverse(d, 3, (p - 1) * (p - 1))
    requires n == p * p && n > 1
    ensures Residual(Pow(h, d * 3), n) == h <==> h < n && (h == 0 || Residual(Pow(h, p - 1), n) == 1)
  {
    hide Pow, Prime, IsInverse, Residual;
    ResidualFacts(h, n);
    ResidualFacts(Pow(h, d * 3), n);
    ResidualFacts(h, p);
    if Residual(h, p) == 0 {
      assert h % p == 0 by { ResidualIs(h, p); }
      MultipleCase(h, d, p, n);
    } else {
      assert h % p != 0 by { ResidualIs(h, p); }
      CoprimeCase(h, d, p, n);
    }
  }

  lemma ResidualIs(x: nat, n: nat)
    requires n > 0
    ensures Residual(x, n) == x % n
  {
  }

  /** The prime 2 drawn twice: the private exponent is zero, and only the hash 1 verifies. */
  lemma TwiceTwoVerify<M>(message: M, hash: M -> nat, key: Key)
    requires KeyFor(key, 2, 2)
    ensures RSAVerify(message, hash, RSASign(message, hash, key.d, key.n), key.e, key.n) <==> hash(message) == 1
  {
    assert Pow(hash(message), 0) == 1 && Pow(1, 3) == 1 * Pow(1, 2) == 1 * (1 * Pow(1, 1)) == 1;
  }

  /** A message that is its own hash, to speak of every hash. */
  function Itself(h: nat): nat {
    h
  }

  /** KeyGen does not compare its two primes.  Every signed hash below n verifies exactly when they
      differ. */
  lemma AllHashesVerifyIffDistinct(key: Key, p: nat, q: nat)
    requires Prime(p) && Prime(q) && KeyFor(key, p, q)
    ensures key.n > 0
    ensures p != q <==>
            forall h: nat :: h < key.n ==> RSAVerify(h, Itself, RSASign(h, Itself, key.d, key.n), key.e, key.n)
  {
    assert key.n > 0 by { MulMonotone(p, 1, q); }
    if p != q {
      forall h: nat | h < key.n ensures RSAVerify(h, Itself, RSASign(h, Itself, key.d, key.n), key.e, key.n) {
        SignatureVerifies(h, Itself, key, p, q);
      }
    } else if p > 2 {
      EqualPrimesFail(key, p);
    } else {
      var zero: nat := 0;
      TwiceTwoVerify(zero, Itself, key);
      assert !RSAVerify(zero, Itself, RSASign(zero, Itself, key.d, key.n), key.e, key.n);
    }
  }

  lemma EqualPrimesFail(key: Key, p: nat)
    requires Prime(p) && p > 2 && KeyFor(key, p, p)
    ensures p < key.n && !RSAVerify(p, Itself, RSASign(p, Itself, key.d, key.n), key.e, key.n)
  {
    hide Pow, Prime, IsInverse, RSAVerify, RSASign;
    MulMonotone(p, 2, p);
    EqualPrimesVerify(p, Itself, key, p);
    MultipleMod(1, p);
    PowOfMultiple(p, p - 1, p);
  }

  /** The pairs of primes a key is made of: those whose predecessors 3 does not divide. */
  lemma AcceptedPrimes(p: nat, q: nat)
    ensures AcceptPrimes(p, q, 3) <==> p >= 2 && q >= 2 && (p - 1) % 3 != 0 && (q - 1) % 3 != 0
  {
    if p >= 2 && q >= 2 {
      GcdWithThree(p - 1);
      GcdWithThree(q - 1);
    }
  }
}
