/** Powers modulo n, as far as the SRP agreement needs them. */
module Modular {

  function Pow(b: int, e: nat): int {
    if e == 0 then 1 else b * Pow(b, e - 1)
  }

  /** `BN_mod_exp`. */
  function PowMod(b: int, e: nat, n: nat): nat
    requires n > 0
  {
    Pow(b, e) % n
  }

  lemma {:induction false} PowAdd(b: int, d: nat, e: nat)
    ensures Pow(b, d + e) == Pow(b, d) * Pow(b, e)
    decreases d
  {
    if d > 0 {
      PowAdd(b, d - 1, e);
      Assoc(b, Pow(b, d - 1), Pow(b, e));
    }
  }

  lemma {:induction false} PowTimes(b: int, d: nat, e: nat)
    ensures Pow(b, d * e) == Pow(Pow(b, d), e)
    decreases e
  {
    if e == 0 {
      assert d * e == 0;
    } else {
      PowTimes(b, d, e - 1);
      assert d * e == d + d * (e - 1);
      PowAdd(b, d, d * (e - 1));
    }
  }

  lemma Assoc(a: int, b: int, c: int)
    ensures a * (b * c) == (a * b) * c
  {
  }

  // ---- Congruence ----

  lemma Remainder(a: int, q: int, r: int, n: nat)
    requires n > 0 && a == q * n + r && 0 <= r < n
    ensures a % n == r
  {
    var q' := a / n;
    assert a == q' * n + a % n by { assert a == n * q' + a % n; }
    var d, e := q - q', a % n - r;
    assert d * n == e by { Distribute(q, q', n); }
    if d > 0 { MulAtLeast(d, n); }
    assert (-d) * n == -(d * n);
    if d < 0 { MulAtLeast(-d, n); }
  }

  lemma Distribute(a: int, b: int, n: int)
    ensures (a - b) * n == a * n - b * n
    ensures (a + b) * n == a * n + b * n
  {
  }

  lemma MulAtLeast(d: int, n: nat)
    requires d >= 1
    ensures d * n >= n
  {
  }

  /** Adding a multiple of n changes nothing modulo n. */
  lemma AddMultiple(a: int, k: int, n: nat)
    requires n > 0
    ensures (a + k * n) % n == a % n
  {
    var q := a / n;
    assert a == q * n + a % n by { assert a == n * q + a % n; }
    Distribute(q, k, n);
    Remainder(a + k * n, q + k, a % n, n);
  }

  lemma MulMod(a: int, b: int, n: nat)
    requires n > 0
    ensures ((a % n) * b) % n == (a * b) % n
  {
    var q := a / n;
    assert a == q * n + a % n by { assert a == n * q + a % n; }
    calc {
      a * b;
      (q * n + a % n) * b;
      { DistributeRight(q * n, a % n, b); }
      (q * n) * b + (a % n) * b;
      { Swap(q, n, b); }
      (a % n) * b + (q * b) * n;
    }
    AddMultiple((a % n) * b, q * b, n);
  }

  lemma DistributeRight(a: int, b: int, c: int)
    ensures (a + b) * c == a * c + b * c
  {
  }

  lemma Swap(a: int, b: int, c: int)
    ensures (a * b) * c == (a * c) * b
  {
    Assoc(a, b, c);
    Assoc(a, c, b);
  }

  lemma MulModBoth(a: int, b: int, n: nat)
    requires n > 0
    ensures ((a % n) * (b % n)) % n == (a * b) % n
  {
    MulMod(a, b % n, n);
    assert a * (b % n) == (b % n) * a;
    MulMod(b, a, n);
    assert b * a == a * b;
  }

  /** The base of a power may be reduced first. */
  lemma {:induction false} PowModBase(b: int, e: nat, n: nat)
    requires n > 0
    ensures Pow(b % n, e) % n == Pow(b, e) % n
    decreases e
  {
    if e > 0 {
      PowModBase(b, e - 1, n);
      MulModBoth(b % n, Pow(b % n, e - 1), n);
      assert (b % n) % n == b % n by { Remainder(b % n, 0, b % n, n); }
      MulModBoth(b, Pow(b, e - 1), n);
    }
  }

  /** Subtracting what was added: with B = (k v + y) mod n, B - (k v mod n) is y again. */
  lemma SubtractAdded(kv: int, y: int, n: nat)
    requires n > 0
    ensures ((kv + y) % n - kv % n) % n == y % n
  {
    var p, q := (kv + y) / n, kv / n;
    assert kv + y == p * n + (kv + y) % n by { assert kv + y == n * p + (kv + y) % n; }
    assert kv == q * n + kv % n by { assert kv == n * q + kv % n; }
    Distribute(q, p, n);
    AddMultiple(y, q - p, n);
  }
}
