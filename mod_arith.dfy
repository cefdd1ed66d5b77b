/** Facts about Euclidean division and remainder by a positive modulus, Bezout's identity
    and multiplicative inverses modulo a prime. The projective plane generator does all of
    its arithmetic modulo the order n; these lemmas are what the incidence proofs need. */
module ModArith {

  predicate IsPrime(p: int) {
    p >= 2 && forall d :: 2 <= d < p ==> p % d != 0
  }

  /** d*n is at least n when d >= 1, and at most -n when d <= -1. */
  lemma MulBounds(d: int, n: int)
    requires n > 0
    ensures d >= 1 ==> d * n >= n
    ensures d <= -1 ==> d * n <= -n
  {
    if d >= 1 {
      assert d * n == n + (d - 1) * n;
      assert (d - 1) * n >= 0;
    } else if d <= -1 {
      assert d * n == -n + (d + 1) * n;
      assert (d + 1) * n <= 0;
    }
  }

  /** Quotient and remainder are unique. */
  lemma DivModUnique(a: int, n: int, q: int, r: int)
    requires n > 0 && 0 <= r < n && a == q * n + r
    ensures a / n == q && a % n == r
  {
    var q', r' := a / n, a % n;
    assert a == q' * n + r';
    assert (q - q') * n == r' - r;
    MulBounds(q - q', n);
  }

  /** Adding a multiple of n does not change the remainder. */
  lemma ModAddMultiple(q: int, n: int, r: int)
    requires n > 0
    ensures (q * n + r) % n == r % n
  {
    var r0 := r % n;
    assert r == (r / n) * n + r0;
    assert q * n + r == (q + r / n) * n + r0;
    DivModUnique(q * n + r, n, q + r / n, r0);
  }

  lemma ModOfMultiple(q: int, n: int)
    requires n > 0
    ensures (q * n) % n == 0
  {
    ModAddMultiple(q, n, 0);
  }

  lemma ModOfSmall(r: int, n: int)
    requires 0 <= r < n
    ensures r % n == r
  {
    DivModUnique(r, n, 0, r);
  }

  /** The remainder of a sum depends only on the remainder of the first summand. */
  lemma ModAddLeft(a: int, b: int, n: int)
    requires n > 0
    ensures (a + b) % n == (a % n + b) % n
  {
    assert a + b == (a / n) * n + (a % n + b);
    ModAddMultiple(a / n, n, a % n + b);
  }

  /** The remainder of a product depends only on the remainder of the first factor. */
  lemma ModMulLeft(a: int, b: int, n: int)
    requires n > 0
    ensures (a * b) % n == ((a % n) * b) % n
  {
    var q := a / n;
    assert a == q * n + a % n;
    assert a * b == (q * b) * n + (a % n) * b;
    ModAddMultiple(q * b, n, (a % n) * b);
  }

  /** Congruence is the same as a difference that is a multiple of n. */
  lemma CongruentIffDiff(a: int, b: int, n: int)
    requires n > 0
    ensures a % n == b % n <==> (a - b) % n == 0
  {
    if a % n == b % n {
      assert a - b == (a / n - b / n) * n;
      ModOfMultiple(a / n - b / n, n);
    }
    if (a - b) % n == 0 {
      assert a == ((a - b) / n) * n + b;
      ModAddMultiple((a - b) / n, n, b);
    }
  }

  /** Two numbers in [0, n) that are congruent modulo n are equal. */
  lemma CongruentSmallEqual(a: int, b: int, n: int)
    requires n > 0 && 0 <= a < n && 0 <= b < n && a % n == b % n
    ensures a == b
  {
    ModOfSmall(a, n);
    ModOfSmall(b, n);
  }

  lemma DivisorAtMost(g: int, m: int)
    requires g > 0 && m > 0 && m % g == 0
    ensures g <= m
  {
    assert m == (m / g) * g;
    MulBounds(m / g, g);
  }

  /** A common divisor of b and of a % b divides a. */
  lemma DividesThroughRemainder(g: int, a: int, b: int)
    requires g > 0 && b > 0 && b % g == 0 && (a % b) % g == 0
    ensures a % g == 0
  {
    var s, t := b / g, (a % b) / g;
    assert b == s * g;
    assert a % b == t * g;
    assert a == (a / b) * b + a % b;
    assert a == ((a / b) * s + t) * g;
    ModOfMultiple((a / b) * s + t, g);
  }

  /** Bezout's identity, by the extended Euclidean algorithm: g is a positive common
      divisor of a and b that is an integer combination of them. */
  lemma {:induction false} Bezout(a: nat, b: nat) returns (g: nat, x: int, y: int)
    requires a > 0 || b > 0
    ensures g > 0 && a % g == 0 && b % g == 0 && a * x + b * y == g
    decreases b
  {
    if b == 0 {
      g, x, y := a, 1, 0;
      ModOfSmall(0, a);
      ModOfMultiple(1, a);
    } else {
      var g', x', y' := Bezout(b, a % b);
      DividesThroughRemainder(g', a, b);
      assert a == (a / b) * b + a % b;
      g, x, y := g', y', x' - (a / b) * y';
      assert a * x + b * y == b * x' + (a % b) * y';
    }
  }

  /** Modulo a prime p, every a that is not a multiple of p has an inverse. */
  lemma Inverse(a: int, p: int) returns (inv: int)
    requires IsPrime(p) && a % p != 0
    ensures (a * inv) % p == 1
  {
    var r := a % p;
    var g, x, y := Bezout(r, p);
    DivisorAtMost(g, r);
    assert g == 1;
    inv := x;
    assert r * x == (-y) * p + 1;
    ModAddMultiple(-y, p, 1);
    ModOfSmall(1, p);
    ModMulLeft(a, x, p);
  }

  /** Modulo a prime, a factor that is not a multiple of p can be cancelled. */
  lemma Cancel(a: int, x1: int, x2: int, p: int)
    requires IsPrime(p) && a % p != 0 && (a * x1) % p == (a * x2) % p
    ensures x1 % p == x2 % p
  {
    var inv := Inverse(a, p);
    ModMulLeft(a * x1, inv, p);
    ModMulLeft(a * x2, inv, p);
    assert (a * x1) * inv == (a * inv) * x1;
    assert (a * x2) * inv == (a * inv) * x2;
    ModMulLeft(a * inv, x1, p);
    ModMulLeft(a * inv, x2, p);
  }

  /** Modulo a prime, a * x == c has a solution x in [0, p) when a is not a multiple of p. */
  lemma Solve(a: int, c: int, p: int) returns (x: int)
    requires IsPrime(p) && a % p != 0
    ensures 0 <= x < p && (a * x) % p == c % p
  {
    var inv := Inverse(a, p);
    x := (inv * c) % p;
    // a * x is congruent to (a * inv) * c, which is congruent to c
    assert a * x == x * a;
    ModMulLeft(inv * c, a, p);
    assert (inv * c) * a == (a * inv) * c;
    ModMulLeft(a * inv, c, p);
    assert ((a * inv) % p) * c == c;
  }
}
