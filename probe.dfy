/** Double hashing over a table of prime size n (HashMap.h, Hash1, Hash2 and
    the probe loop shared by insert, erase, find, operator[] and at). */
module Probing {
  import opened Primes

  /** The first slot probed for hash value k. */
  function Hash1(k: nat, n: nat): (h: nat)
    requires n > 0
    ensures h < n
  {
    k % n
  }

  /** The probe step for hash value k: never 0 and never a multiple of n. */
  function Hash2(k: nat, n: nat): (s: nat)
    requires n > 1
    ensures 1 <= s <= n - 1
  {
    1 + k % (n - 1)
  }

  /** The slot reached after i steps of size s from slot h0, each step being
      one iteration h = (h + s) % n of the probe loop. */
  function Walk(h0: nat, s: nat, i: nat, n: nat): (h: nat)
    requires h0 < n
    ensures h < n
  {
    if i == 0 then h0 else (Walk(h0, s, i - 1, n) + s) % n
  }

  /** The slot visited after i steps of the probe for hash value k. */
  function Probe(k: nat, i: nat, n: nat): (h: nat)
    requires n > 1
    ensures h < n
  {
    Walk(Hash1(k, n), Hash2(k, n), i, n)
  }

  lemma SmallMod(h: nat, n: nat)
    requires h < n
    ensures h % n == h
  {
  }

  lemma MulSucc(a: int, b: int)
    ensures (a + 1) * b == a * b + b
  {
  }

  /** One step from the remainder of x lands where one step from x lands. */
  lemma StepMod(x: nat, s: nat, n: nat)
    requires n > 0
    ensures (x % n + s) % n == (x + s) % n
  {
    assert x == (x / n) * n + x % n;
    ModShift(x % n + s, x / n, n);
  }

  /** The i-th slot of a walk is h0 + i * s modulo n. */
  lemma {:induction false} WalkClosedForm(h0: nat, s: nat, i: nat, n: nat)
    requires h0 < n
    ensures Walk(h0, s, i, n) == (h0 + i * s) % n
  {
    if i == 0 {
      SmallMod(h0, n);
    } else {
      WalkClosedForm(h0, s, i - 1, n);
      var j := i - 1;
      var x := h0 + j * s;
      StepMod(x, s, n);
      MulSucc(j, s);
    }
  }

  /** With a prime size and a step that is not a multiple of it, the first n
      slots of a walk are distinct. */
  lemma WalkInjective(h0: nat, s: nat, i: nat, j: nat, n: nat)
    requires IsPrime(n) && h0 < n && 0 < s < n && j < i < n
    ensures Walk(h0, s, i, n) != Walk(h0, s, j, n)
  {
    var x, y := h0 + i * s, h0 + j * s;
    WalkClosedForm(h0, s, i, n);
    WalkClosedForm(h0, s, j, n);
    if x % n == y % n {
      ModDifference(x, y, n);
      assert x - y == (i - j) * s;
      ProductNotMultiple(n, i - j, s);
      assert false;
    }
  }

  /** With a prime size, the first n probes for a hash value visit n distinct
      slots. */
  lemma ProbeInjective(k: nat, i: nat, j: nat, n: nat)
    requires IsPrime(n) && j < i < n
    ensures Probe(k, i, n) != Probe(k, j, n)
  {
    WalkInjective(Hash1(k, n), Hash2(k, n), i, j, n);
  }

  /** A probe whose first i slots all lie in a set of slots S cannot have
      taken more steps than S has members: this bounds the probe loop by the
      number of slots in use. */
  lemma {:induction false} ProbeBound(k: nat, i: nat, n: nat, S: set<nat>)
    requires IsPrime(n) && i <= n
    requires forall j :: 0 <= j < i ==> Probe(k, j, n) in S
    ensures i <= |S|
    decreases i
  {
    if i > 0 {
      var last := Probe(k, i - 1, n);
      forall j | 0 <= j < i - 1
        ensures Probe(k, j, n) in S - {last}
      {
        ProbeInjective(k, i - 1, j, n);
      }
      ProbeBound(k, i - 1, n, S - {last});
    }
  }
}
