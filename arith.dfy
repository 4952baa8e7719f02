/**
 * Integer arithmetic behind the blind signature: exponentiation, Python's
 * three-argument `pow` (a non-negative remainder, which Dafny's `%` also
 * gives for a positive modulus), the greatest common divisor and the modular
 * inverse that `Crypto.Util.number.inverse` computes.
 */
module Arith {
  import opened Wrappers

  /** b raised to the k-th power. */
  function Pow(b: int, k: nat): int
  {
    if k == 0 then 1 else b * Pow(b, k - 1)
  }

  /** Python's `pow(b, k, n)` for a positive modulus. */
  function PowMod(b: int, k: nat, n: int): (r: int)
    requires n > 0
    ensures 0 <= r < n
  {
    Pow(b, k) % n
  }

  // ---------------------------------------------------------------------
  // Remainders

  /** The quotient and remainder of x by n are the only pair with 0 <= r < n. */
  lemma ModUnique(x: int, n: int, q: int, r: int)
    requires n > 0 && 0 <= r < n && x == q * n + r
    ensures x % n == r && x / n == q
  {
    var q', r' := x / n, x % n;
    assert (q - q') * n == r' - r;
    if q > q' {
      MulAtLeast(q - q', n);
    } else if q < q' {
      MulAtLeast(q' - q, n);
    }
  }

  lemma MulAtLeast(k: int, n: int)
    requires k >= 1 && n > 0
    ensures k * n >= n
  {
    assert k * n == n + (k - 1) * n;
  }

  lemma ModAddMultiple(k: int, x: int, n: int)
    requires n > 0
    ensures (k * n + x) % n == x % n
  {
    ModUnique(k * n + x, n, k + x / n, x % n);
  }

  /** The remainder of a product depends only on the remainder of its left factor. */
  lemma ModMulLeft(a: int, b: int, n: int)
    requires n > 0
    ensures (a * b) % n == ((a % n) * b) % n
  {
    var q := a / n;
    assert a == q * n + a % n;
    assert a * b == (q * b) * n + (a % n) * b;
    ModAddMultiple(q * b, (a % n) * b, n);
  }

  /** The remainder of a product depends only on the remainder of its right factor. */
  lemma ModMulRight(a: int, b: int, n: int)
    requires n > 0
    ensures (a * b) % n == (a * (b % n)) % n
  {
    ModMulLeft(b, a, n);
    MulComm(a, b);
    MulComm(b % n, a);
  }

  lemma MulAssoc(a: int, b: int, c: int)
    ensures a * (b * c) == (a * b) * c
  {
  }

  /** The remainder of a product depends only on the remainders of its factors. */
  lemma ModMul(a: int, b: int, n: int)
    requires n > 0
    ensures (a * b) % n == ((a % n) * (b % n)) % n
  {
    ModMulLeft(a, b, n);
    ModMulLeft(b, a % n, n);
    assert (a % n) * b == b * (a % n);
    assert (b % n) * (a % n) == (a % n) * (b % n);
  }

  // ---------------------------------------------------------------------
  // Powers

  lemma {:induction false} PowOne(k: nat)
    ensures Pow(1, k) == 1
  {
    if k > 0 {
      PowOne(k - 1);
    }
  }

  /** Raising to a power distributes over a product. */
  lemma {:induction false} PowMul(a: int, b: int, k: nat)
    ensures Pow(a * b, k) == Pow(a, k) * Pow(b, k)
  {
    if k > 0 {
      PowMul(a, b, k - 1);
      MulRearrange(a, b, Pow(a, k - 1), Pow(b, k - 1));
    }
  }

  lemma MulRearrange(a: int, b: int, x: int, y: int)
    ensures (a * b) * (x * y) == (a * x) * (b * y)
  {
  }

  lemma {:induction false} PowAdd(a: int, i: nat, j: nat)
    ensures Pow(a, i + j) == Pow(a, i) * Pow(a, j)
  {
    if i > 0 {
      PowAdd(a, i - 1, j);
      assert Pow(a, i + j) == a * Pow(a, (i - 1) + j);
      assert a * (Pow(a, i - 1) * Pow(a, j)) == (a * Pow(a, i - 1)) * Pow(a, j);
    }
  }

  /** A power of a power multiplies the exponents. */
  lemma {:induction false} PowPow(a: int, j: nat, k: nat)
    ensures Pow(Pow(a, j), k) == Pow(a, j * k)
  {
    if k > 0 {
      PowPow(a, j, k - 1);
      assert j * k == j + j * (k - 1);
      PowAdd(a, j, j * (k - 1));
    }
  }

  /** Reducing the base modulo n does not change the power modulo n. */
  lemma {:induction false} PowModBase(a: int, k: nat, n: int)
    requires n > 0
    ensures Pow(a % n, k) % n == Pow(a, k) % n
  {
    if k > 0 {
      PowModBase(a, k - 1, n);
      calc {
        Pow(a % n, k) % n;
        ((a % n) * Pow(a % n, k - 1)) % n;
        { ModMul(a % n, Pow(a % n, k - 1), n); }
        (((a % n) % n) * (Pow(a % n, k - 1) % n)) % n;
        (((a % n) % n) * (Pow(a, k - 1) % n)) % n;
        { ModMul(a % n, Pow(a, k - 1), n); }
        ((a % n) * Pow(a, k - 1)) % n;
        { ModMulLeft(a, Pow(a, k - 1), n); }
        (a * Pow(a, k - 1)) % n;
      }
    }
  }

  /** Modular exponentiation is multiplicative. */
  lemma PowModMul(a: int, b: int, k: nat, n: int)
    requires n > 0
    ensures PowMod(a * b, k, n) == (PowMod(a, k, n) * PowMod(b, k, n)) % n
  {
    PowMul(a, b, k);
    ModMul(Pow(a, k), Pow(b, k), n);
  }

  /** A number that is 1 modulo n has every power 1 modulo n. */
  lemma PowOfUnit(x: int, e: nat, n: int)
    requires n > 1 && x % n == 1
    ensures PowMod(x, e, n) == 1
  {
    PowModBase(x, e, n);
    PowOne(e);
    assert Pow(x % n, e) == 1;
  }

  /** If r * inv is 1 modulo n, so is inv^e * r^e. */
  lemma InversePowers(n: int, e: nat, r: int, inv: int)
    requires n > 1 && (r * inv) % n == 1
    ensures (PowMod(inv, e, n) * PowMod(r, e, n)) % n == 1
  {
    MulComm(inv, r);
    PowOfUnit(inv * r, e, n);
    PowModMul(inv, r, e, n);
  }

  /** (a * ((b * m) mod n)) mod n is ((a * b) mod n * m) mod n. */
  lemma RegroupMod(a: int, b: int, m: int, n: int)
    requires n > 0
    ensures (a * ((b * m) % n)) % n == (((a * b) % n) * m) % n
  {
    ModMulRight(a, b * m, n);
    MulAssoc(a, b, m);
    ModMulLeft(a * b, m, n);
  }

  /**
   * The arithmetic behind unblinding a signature: if r * inv is 1 modulo n
   * and s raised to e is r^e * m modulo n, then inv * s raised to e is m.
   */
  lemma UnblindArith(n: int, e: nat, r: int, inv: int, m: int, s: int)
    requires n > 1 && (r * inv) % n == 1 && 0 <= m < n
    requires PowMod(s, e, n) == (Pow(r, e) * m) % n
    ensures PowMod(inv * s, e, n) == m
  {
    var a, b := PowMod(inv, e, n), PowMod(r, e, n);
    assert PowMod(s, e, n) == (b * m) % n by {
      ModMulLeft(Pow(r, e), m, n);
    }
    assert PowMod(inv * s, e, n) == (a * PowMod(s, e, n)) % n by {
      PowModMul(inv, s, e, n);
    }
    CancelInverse(n, e, r, inv, m);
  }

  /** inv^e * ((r^e * m) mod n) is m modulo n when r * inv is 1 modulo n. */
  lemma CancelInverse(n: int, e: nat, r: int, inv: int, m: int)
    requires n > 1 && (r * inv) % n == 1 && 0 <= m < n
    ensures (PowMod(inv, e, n) * ((PowMod(r, e, n) * m) % n)) % n == m
  {
    var a, b := PowMod(inv, e, n), PowMod(r, e, n);
    RegroupMod(a, b, m, n);
    InversePowers(n, e, r, inv);
    var u := (a * b) % n;
    assert u == 1;
    assert (a * ((b * m) % n)) % n == (u * m) % n;
    assert u * m == m;
    ModUnique(m, n, 0, m);
  }

  // ---------------------------------------------------------------------
  // Greatest common divisor and the modular inverse

  function Gcd(a: nat, b: nat): nat
    decreases b
  {
    if b == 0 then a else Gcd(b, a % b)
  }

  /** The extended Euclidean algorithm: Bezout coefficients (x, y) of a and b. */
  function ExtGcd(a: nat, b: nat): (r: (int, int))
    decreases b
    ensures a * r.0 + b * r.1 == Gcd(a, b)
  {
    if b == 0 then (1, 0)
    else
      var (x, y) := ExtGcd(b, a % b);
      assert b * x + (a % b) * y == Gcd(a, b);
      assert a % b == a - (a / b) * b;
      assert (a % b) * y == a * y - b * ((a / b) * y);
      (y, x - (a / b) * y)
  }

  /**
   * `number.inverse(a, n)`: the u in [0, n) with a * u = 1 modulo n. There is
   * one exactly when a and n are coprime; otherwise the library raises, which
   * is `None` here.
   */
  function Inverse(a: int, n: int): (r: Option<int>)
    requires n > 1
    ensures r.Some? <==> Gcd(a % n, n) == 1
    ensures r.Some? ==> 0 <= r.value < n && (a * r.value) % n == 1
  {
    var (x, y) := ExtGcd(a % n, n);
    if Gcd(a % n, n) != 1 then None
    else
      InverseFromBezout(a, n, x, y);
      Some(x % n)
  }

  lemma InverseFromBezout(a: int, n: int, x: int, y: int)
    requires n > 1 && (a % n) * x + n * y == 1
    ensures (a * (x % n)) % n == 1
  {
    var ar, xm := a % n, x % n;
    ModMulLeft(a, xm, n);
    ModMulLeft(x, ar, n);
    MulComm(ar, xm);
    MulComm(ar, x);
    assert (a * xm) % n == (ar * x) % n;
    MulComm(n, y);
    assert ar * x == (-y) * n + 1;
    ModAddMultiple(-y, 1, n);
    ModUnique(1, n, 0, 1);
    assert (ar * x) % n == 1;
  }

  lemma MulComm(a: int, b: int)
    ensures a * b == b * a
  {
  }

  /** g divides x, stated without an existential. */
  predicate Divides(g: nat, x: int)
  {
    g > 0 && x % g == 0
  }

  /** The gcd of a and a positive b divides both. */
  lemma {:induction false} GcdDivides(a: nat, b: nat)
    requires b > 0
    ensures Divides(Gcd(a, b), a) && Divides(Gcd(a, b), b)
    decreases b
  {
    var g := Gcd(a, b);
    if a % b == 0 {
      assert Gcd(b, 0) == b;
      ModUnique(a, b, a / b, 0);
    } else {
      GcdDivides(b, a % b);
      // a == (a / b) * b + a % b and g divides both summands
      DividesLinear(g, b, a % b, a / b, 1);
      assert (a / b) * b + 1 * (a % b) == a;
    }
  }

  /** A divisor of x and y divides every integer combination of them. */
  lemma DividesLinear(g: nat, x: int, y: int, s: int, t: int)
    requires Divides(g, x) && Divides(g, y)
    ensures Divides(g, s * x + t * y)
  {
    var i, j := x / g, y / g;
    assert x == i * g && y == j * g;
    assert s * x + t * y == (s * i + t * j) * g;
    ModUnique(s * x + t * y, g, s * i + t * j, 0);
  }

  /**
   * An inverse of a modulo n exists only when a and n are coprime: otherwise
   * `number.inverse` has nothing to return and raises.
   */
  lemma InverseNeedsCoprime(a: int, n: int, u: int)
    requires n > 1 && (a * u) % n == 1
    ensures Gcd(a % n, n) == 1
  {
    var g := Gcd(a % n, n);
    GcdDivides(a % n, n);
    // a * u == q * n + 1, and g divides a % n, hence a, and n, hence 1
    var q := (a * u) / n;
    assert a * u == q * n + 1;
    assert a == 1 * (a % n) + (a / n) * n;
    DividesLinear(g, a % n, n, 1, a / n);
    DividesLinear(g, a, n, u, -q);
    assert u * a + (-q) * n == 1;
    if g > 1 {
      ModUnique(1, g, 0, 1);
    }
  }
}
