/** Exact integer arithmetic that the benchmark takes from its big-integer
    library: powers, modular exponentiation and the greatest common divisor.
    Each operation is defined here and proved against an independent
    reference definition. */
module Numbers {

  /** The values a C `uint64_t` can hold. */
  const U64_BOUND: int := 0x1_0000_0000_0000_0000
  type u64 = x: int | 0 <= x < U64_BOUND

  /** a raised to the power e, the naive reference definition. */
  function Pow(a: nat, e: nat): nat
  {
    if e == 0 then 1 else a * Pow(a, e - 1)
  }

  /** 2 raised to the power b. */
  function Pow2(b: nat): (r: nat)
    ensures r >= 1
  {
    if b == 0 then 1 else 2 * Pow2(b - 1)
  }

  /** Pow2 is the power of two of the reference definition. */
  lemma {:induction false} Pow2IsPow(b: nat)
    ensures Pow2(b) == Pow(2, b)
  {
    if b > 0 {
      Pow2IsPow(b - 1);
    }
  }

  /** a^e mod n by square-and-multiply, as `mpz_powm` computes it.
      The base, exponent and modulus are unbounded, so no intermediate
      product wraps around. */
  function ModPow(a: nat, e: nat, n: nat): (r: nat)
    requires n >= 1
    ensures r < n
    decreases e
  {
    if e == 0 then 1 % n
    else if e % 2 == 0 then
      var h := ModPow(a, e / 2, n);
      (h * h) % n
    else
      (a * ModPow(a, e - 1, n)) % n
  }

  /** Greatest common divisor by Euclid's algorithm, as `mpz_gcd` computes it
      for non-negative operands (so Gcd(0, 0) == 0 and Gcd(a, 0) == a). */
  function Gcd(a: nat, b: nat): nat
    decreases b
  {
    if b == 0 then a else Gcd(b, a % b)
  }

  /** d divides x (d positive). */
  predicate Divides(d: nat, x: nat)
    requires d > 0
  {
    x % d == 0
  }

  // ---------------------------------------------------------------------
  // Modular arithmetic helpers

  /** The only multiple of d strictly between -d and d is zero. */
  lemma ZeroMultiple(t: int, d: int)
    requires d > 0 && -d < t * d < d
    ensures t == 0
  {
  }

  /** Euclidean division is unique: quotient q and remainder s are v / d and v % d. */
  lemma {:induction false} DivModUnique(v: int, d: int, q: int, s: int)
    requires d > 0 && v == q * d + s && 0 <= s < d
    ensures v / d == q && v % d == s
  {
    var q', s' := v / d, v % d;
    assert (q - q') * d == s' - s;
    ZeroMultiple(q - q', d);
  }

  lemma SmallMod(x: int, d: int)
    requires 0 <= x < d
    ensures x % d == x
  {
  }

  lemma {:induction false} MultipleMod(m: int, d: int)
    requires d > 0
    ensures (m * d) % d == 0
  {
    DivModUnique(m * d, d, m, 0);
  }

  lemma {:induction false} AddMultipleMod(m: int, r: int, d: int)
    requires d > 0
    ensures (m * d + r) % d == r % d
  {
    var q, s := r / d, r % d;
    assert m * d + r == (m + q) * d + s;
    DivModUnique(m * d + r, d, m + q, s);
  }

  lemma {:induction false} MulMod(x: nat, y: nat, n: nat)
    requires n >= 1
    ensures (x * y) % n == ((x % n) * (y % n)) % n
  {
    var qx, rx := x / n, x % n;
    var qy, ry := y / n, y % n;
    assert x == qx * n + rx;
    assert y == qy * n + ry;
    calc {
      x * y;
      (qx * n + rx) * (qy * n + ry);
      (qx * qy * n + qx * ry + rx * qy) * n + rx * ry;
    }
    AddMultipleMod(qx * qy * n + qx * ry + rx * qy, rx * ry, n);
  }

  lemma {:induction false} PowAdd(a: nat, i: nat, j: nat)
    ensures Pow(a, i + j) == Pow(a, i) * Pow(a, j)
    decreases i
  {
    if i > 0 {
      PowAdd(a, i - 1, j);
      calc {
        Pow(a, i + j);
        a * Pow(a, i - 1 + j);
        a * (Pow(a, i - 1) * Pow(a, j));
        (a * Pow(a, i - 1)) * Pow(a, j);
      }
    }
  }

  /** Replacing a factor by one congruent to it modulo n keeps the product's residue. */
  lemma {:induction false} MulCongruent(x: nat, y: nat, y': nat, n: nat)
    requires n >= 1 && y % n == y' % n
    ensures (x * y) % n == (x * y') % n
  {
    MulMod(x, y, n);
    MulMod(x, y', n);
  }

  lemma {:induction false} SquareCongruent(h: nat, p: nat, n: nat)
    requires n >= 1 && h % n == p % n
    ensures (h * h) % n == (p * p) % n
  {
    MulCongruent(h, h, p, n);
    MulCongruent(p, h, p, n);
    assert h * p == p * h;
  }

  /** The square-and-multiply ModPow computes exactly a^e mod n. */
  lemma {:induction false} ModPowIsPowMod(a: nat, e: nat, n: nat)
    requires n >= 1
    ensures ModPow(a, e, n) == Pow(a, e) % n
    decreases e
  {
    if e == 0 {
    } else if e % 2 == 0 {
      var half := e / 2;
      assert half + half == e;
      ModPowIsPowMod(a, half, n);
      var h, p := ModPow(a, half, n), Pow(a, half);
      assert ModPow(a, e, n) == (h * h) % n;
      SmallMod(p % n, n);
      PowAdd(a, half, half);
      assert Pow(a, e) == p * p;
      SquareCongruent(h, p, n);
    } else {
      ModPowIsPowMod(a, e - 1, n);
      var m, p := ModPow(a, e - 1, n), Pow(a, e - 1);
      assert ModPow(a, e, n) == (a * m) % n;
      SmallMod(p % n, n);
      assert Pow(a, e) == a * p;
      MulCongruent(a, m, p, n);
    }
  }

  // ---------------------------------------------------------------------
  // Gcd against the definition of a greatest common divisor

  /** A linear combination of two multiples of g is a multiple of g. */
  lemma {:induction false} CombinationDivides(g: nat, x: nat, y: int, q: int)
    requires g > 0 && x % g == 0 && y % g == 0
    ensures (q * x + y) % g == 0
  {
    var i, j := x / g, y / g;
    assert x == i * g && y == j * g;
    assert q * x + y == (q * i + j) * g;
    MultipleMod(q * i + j, g);
  }

  /** Gcd(a, b) is a common divisor of a and b (unless both are zero). */
  lemma {:induction false} GcdDivides(a: nat, b: nat)
    requires a > 0 || b > 0
    ensures Gcd(a, b) > 0
    ensures Divides(Gcd(a, b), a) && Divides(Gcd(a, b), b)
    decreases b
  {
    if b == 0 {
      MultipleMod(1, a);
      MultipleMod(0, a);
    } else {
      GcdDivides(b, a % b);
      var g := Gcd(b, a % b);
      assert a == (a / b) * b + a % b;
      CombinationDivides(g, b, a % b, a / b);
    }
  }

  /** Every common divisor of a and b divides Gcd(a, b). */
  lemma {:induction false} GcdGreatest(a: nat, b: nat, d: nat)
    requires d > 0 && Divides(d, a) && Divides(d, b)
    ensures Divides(d, Gcd(a, b))
    decreases b
  {
    if b != 0 {
      assert a % b == -(a / b) * b + a;
      CombinationDivides(d, b, a, -(a / b));
      GcdGreatest(b, a % b, d);
    }
  }

  /** n - 1 and n are always coprime. */
  lemma PredCoprime(n: nat)
    requires n >= 2
    ensures Gcd(n - 1, n) == 1
  {
    assert (n - 1) % n == n - 1;
    assert Gcd(n - 1, n) == Gcd(n, n - 1);
    if n > 2 {
      assert n % (n - 1) == 1 by {
        AddMultipleMod(1, 1, n - 1);
      }
      assert Gcd(n, n - 1) == Gcd(n - 1, 1);
      assert Gcd(n - 1, 1) == Gcd(1, 0);
    }
  }
}
