/** Facts about primes that the double-hashing probe relies on: the probe
    step is never a multiple of a prime table size, so successive probes
    are pairwise distinct modulo the size. */
module Primes {

  /** `d` divides `n`. */
  predicate Divides(d: nat, n: nat)
    requires d > 0
  {
    n % d == 0
  }

  ghost predicate IsPrime(n: nat) {
    n >= 2 && forall d :: 2 <= d < n ==> !Divides(d, n)
  }

  /** Trial division by the candidates d, d + 2, d + 6, d + 8, ... (the
      numbers 6j - 1 and 6j + 1 when d is 6j - 1) up to the square root. */
  function NoFactorFrom(n: nat, d: nat): bool
    requires d >= 1
    decreases n + 1 - d
  {
    if d * d > n then true
    else n % d != 0 && n % (d + 2) != 0 && NoFactorFrom(n, d + 6)
  }

  lemma SquareMono(a: nat, b: nat)
    requires a <= b
    ensures a * a <= b * b
  {
    assert a * a <= a * b <= b * b;
  }

  lemma NonnegMul(a: int, b: int)
    requires a >= 0 && b >= 0
    ensures a * b >= 0
  {
  }

  /** Only the zero multiple of n lies strictly between -n and n. */
  lemma SmallMultipleIsZero(c: int, n: int)
    requires n > 0 && -n < c * n < n
    ensures c == 0
  {
    if c >= 1 {
      NonnegMul(c - 1, n);
      assert false;
    } else if c <= -1 {
      NonnegMul(-c - 1, n);
      assert false;
    }
  }

  /** (t * p) is a multiple of p. */
  lemma MultipleMod(t: int, p: int)
    requires p > 0
    ensures (t * p) % p == 0
  {
    var q, r := (t * p) / p, (t * p) % p;
    assert (t - q) * p == r by {
      assert t * p == q * p + r;
      assert t * p - q * p == (t - q) * p;
    }
    SmallMultipleIsZero(t - q, p);
  }

  /** Adding a multiple of n does not change the remainder modulo n. */
  lemma ModShift(z: int, q: int, n: int)
    requires n > 0
    ensures (z + q * n) % n == z % n
  {
    var a := z + q * n;
    var c := z / n + q - a / n;
    assert a == (a / n) * n + a % n;
    assert z == (z / n) * n + z % n;
    assert a % n - z % n == c * n;
    SmallMultipleIsZero(c, n);
  }

  /** Two numbers with equal remainders modulo n differ by a multiple of n. */
  lemma ModDifference(x: int, y: int, n: int)
    requires n > 0 && x % n == y % n
    ensures (x - y) % n == 0
  {
    assert x == (x / n) * n + x % n;
    assert y == (y / n) * n + y % n;
    assert x - y == (x / n - y / n) * n;
    MultipleMod(x / n - y / n, n);
  }

  /** If f divides n and 2 (or 3) divides f, then 2 (or 3) divides n. */
  lemma DividesTrans(c: nat, f: nat, n: nat)
    requires c > 0 && f > 0 && Divides(f, n) && Divides(c, f)
    ensures Divides(c, n)
  {
    var u, v := n / f, f / c;
    assert n == u * f;
    assert f == v * c;
    assert n == (u * v) * c;
    MultipleMod(u * v, c);
  }

  /** The candidates from d = 6j - 1 below d + 6 are d and d + 2. */
  lemma CandidatesInBlock(d: nat, e: nat)
    requires d % 6 == 5 && (e % 6 == 1 || e % 6 == 5) && d <= e < d + 6
    ensures e == d || e == d + 2
  {
  }

  lemma NoFactorFromUnfold(n: nat, d: nat)
    requires d >= 1 && NoFactorFrom(n, d) && d * d <= n
    ensures !Divides(d, n) && !Divides(d + 2, n) && NoFactorFrom(n, d + 6)
  {
  }

  /** Trial division from a candidate d = 6j - 1 rules out every candidate
      e >= d of the same shape whose square is at most n. */
  lemma {:induction false} NoFactorFromSound(n: nat, d: nat, e: nat)
    requires d >= 5 && d % 6 == 5 && NoFactorFrom(n, d)
    requires d <= e && (e % 6 == 1 || e % 6 == 5) && e * e <= n
    ensures !Divides(e, n)
    decreases e - d
  {
    SquareMono(d, e);
    NoFactorFromUnfold(n, d);
    if e >= d + 6 {
      NoFactorFromSound(n, d + 6, e);
    } else {
      CandidatesInBlock(d, e);
    }
  }

  /** A divisor e of n with 2 <= e < n has a cofactor, e itself or n / e,
      that is at least 2, divides n and whose square is at most n. */
  lemma SmallCofactor(n: nat, e: nat) returns (f: nat)
    requires 2 <= e < n && Divides(e, n)
    ensures f >= 2 && f * f <= n && Divides(f, n)
  {
    if e * e <= n {
      f := e;
    } else {
      f := n / e;
      assert n == f * e;
      if f < 2 {
        assert false;
      }
      if f * f > n {
        SquareMono(e, f);
        assert false;
      }
      MultipleMod(e, f);
    }
  }

  lemma SixResidue(f: nat)
    requires f % 2 != 0 && f % 3 != 0
    ensures f % 6 == 1 || f % 6 == 5
  {
    var q, r := f / 6, f % 6;
    assert f == r + (3 * q) * 2 && f == r + (2 * q) * 3 by {
      assert f == 6 * q + r;
    }
    ModShift(r, 3 * q, 2);
    ModShift(r, 2 * q, 3);
  }

  /** A number that is not divisible by 2 or 3 and passes trial division
      from 5 is prime. */
  lemma PrimeByTrialDivision(n: nat)
    requires n >= 5 && n % 2 != 0 && n % 3 != 0 && NoFactorFrom(n, 5)
    ensures IsPrime(n)
  {
    forall e | 2 <= e < n
      ensures !Divides(e, n)
    {
      if Divides(e, n) {
        var f := SmallCofactor(n, e);
        if f % 2 == 0 {
          DividesTrans(2, f, n);
        } else if f % 3 == 0 {
          DividesTrans(3, f, n);
        } else {
          SixResidue(f);
          NoFactorFromSound(n, 5, f);
        }
      }
    }
  }

  lemma PrimeHasNoDivisor(p: nat, a: nat)
    requires IsPrime(p) && 2 <= a < p
    ensures p % a != 0
  {
    assert !Divides(a, p);
  }

  /** If a * s is a multiple of p, so is (p % a) * s. */
  lemma RemainderKeepsMultiple(p: nat, a: nat, s: nat)
    requires p > 0 && a > 0 && (a * s) % p == 0
    ensures ((p % a) * s) % p == 0
  {
    var q, r, m := p / a, p % a, (a * s) / p;
    assert p == q * a + r;
    assert a * s == m * p;
    calc {
      r * s;
      (p - q * a) * s;
      p * s - q * (a * s);
      p * s - q * (m * p);
      (s - q * m) * p;
    }
    MultipleMod(s - q * m, p);
  }

  /** A positive multiple of a prime p cannot be written as a * s with
      both factors strictly between 0 and p. */
  lemma {:induction false} ProductNotMultiple(p: nat, a: nat, s: nat)
    requires IsPrime(p) && 0 < a < p && 0 < s < p
    ensures (a * s) % p != 0
    decreases a
  {
    if (a * s) % p == 0 {
      if p % a == 0 {
        if a >= 2 {
          PrimeHasNoDivisor(p, a);
        }
        assert false;
      } else {
        RemainderKeepsMultiple(p, a, s);
        ProductNotMultiple(p, p % a, s);
        assert false;
      }
    }
  }
}
