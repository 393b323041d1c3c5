/** Congruences and powers, as far as Montgomery arithmetic needs them. */
module Modular {
  import opened Words

  /** a and b leave the same remainder modulo n. */
  predicate Congruent(a: int, b: int, n: int)
    requires n > 0
  {
    (a - b) % n == 0
  }

  lemma CongruentIntro(a: int, b: int, n: int, q: int)
    requires n > 0 && a - b == n * q
    ensures Congruent(a, b, n)
  {
    ModUnique(a - b, q, 0, n);
  }

  function Quotient(a: int, b: int, n: int): (q: int)
    requires n > 0 && Congruent(a, b, n)
    ensures a - b == n * q
  {
    (a - b) / n
  }

  lemma CongruentReflexive(a: int, n: int)
    requires n > 0
    ensures Congruent(a, a, n)
  {
    CongruentIntro(a, a, n, 0);
  }

  lemma CongruentSymmetric(a: int, b: int, n: int)
    requires n > 0 && Congruent(a, b, n)
    ensures Congruent(b, a, n)
  {
    var q := Quotient(a, b, n);
    assert n * -q == -(n * q);
    CongruentIntro(b, a, n, -q);
  }

  lemma CongruentTransitive(a: int, b: int, c: int, n: int)
    requires n > 0 && Congruent(a, b, n) && Congruent(b, c, n)
    ensures Congruent(a, c, n)
  {
    var q, r := Quotient(a, b, n), Quotient(b, c, n);
    assert n * (q + r) == n * q + n * r;
    CongruentIntro(a, c, n, q + r);
  }

  lemma CongruentMul(a: int, b: int, m: int, n: int)
    requires n > 0 && Congruent(a, b, n)
    ensures Congruent(a * m, b * m, n)
  {
    var q := Quotient(a, b, n);
    assert a * m - b * m == (a - b) * m == n * q * m == n * (q * m);
    CongruentIntro(a * m, b * m, n, q * m);
  }

  lemma CongruentMul2(a: int, b: int, c: int, d: int, n: int)
    requires n > 0 && Congruent(a, b, n) && Congruent(c, d, n)
    ensures Congruent(a * c, b * d, n)
  {
    CongruentMul(a, b, c, n);
    CongruentMul(c, d, b, n);
    assert c * b == b * c && d * b == b * d;
    CongruentTransitive(a * c, b * c, b * d, n);
  }

  lemma CongruentMod(a: int, n: int)
    requires n > 0
    ensures Congruent(a % n, a, n)
  {
    DivIdentity(a, n);
    assert n * -(a / n) == -(n * (a / n));
    CongruentIntro(a % n, a, n, -(a / n));
  }

  /** A remainder is determined by its residue class. */
  lemma CongruentRemainder(r: int, a: int, n: int)
    requires n > 0 && 0 <= r < n && Congruent(r, a, n)
    ensures r == a % n
  {
    CongruentSymmetric(r, a, n);
    var q := Quotient(a, r, n);
    ModUnique(a, q, r, n);
  }

  /** A factor of two cancels modulo an odd number. */
  lemma CancelTwo(a: int, b: int, n: int)
    requires n > 0 && n % 2 == 1
    requires Congruent(2 * a, 2 * b, n)
    ensures Congruent(a, b, n)
  {
    var q := Quotient(2 * a, 2 * b, n);
    var h := n / 2;
    assert n == 2 * h + 1;
    assert n * q == 2 * (h * q) + q;
    var half := a - b - h * q;
    assert q == 2 * half;
    assert n * q == 2 * (n * half);
    CongruentIntro(a, b, n, half);
  }

  /** 2^n. */
  function Pow2(n: nat): nat
    ensures Pow2(n) >= 1
  {
    if n == 0 then 1 else 2 * Pow2(n - 1)
  }

  lemma {:induction false} CancelPow2(a: int, b: int, k: nat, n: int)
    requires n > 0 && n % 2 == 1
    requires Congruent(a * Pow2(k), b * Pow2(k), n)
    ensures Congruent(a, b, n)
  {
    if k > 0 {
      assert a * Pow2(k) == 2 * (a * Pow2(k - 1)) && b * Pow2(k) == 2 * (b * Pow2(k - 1));
      CancelTwo(a * Pow2(k - 1), b * Pow2(k - 1), n);
      CancelPow2(a, b, k - 1, n);
    } else {
      assert a * Pow2(0) == a && b * Pow2(0) == b;
    }
  }

  lemma {:induction false} Pow2Add(m: nat, n: nat)
    ensures Pow2(m + n) == Pow2(m) * Pow2(n)
  {
    if m > 0 {
      Pow2Add(m - 1, n);
      assert Pow2(m) * Pow2(n) == 2 * (Pow2(m - 1) * Pow2(n));
    }
  }

  lemma Pow2Mono(m: nat, n: nat)
    requires m <= n
    ensures Pow2(m) <= Pow2(n)
  {
    Pow2Add(n - m, m);
    MulMono(1, Pow2(n - m), Pow2(m));
  }

  lemma {:induction false} BytePowIsPow2(n: nat)
    ensures BytePow(n) == Pow2(8 * n)
  {
    if n > 0 {
      BytePowIsPow2(n - 1);
      Pow2Add(8, 8 * (n - 1));
      assert Pow2(8) == 0x100 by { assert Pow2(4) == 16; }
    }
  }

  /** base^e. */
  function Pow(base: nat, e: nat): nat {
    if e == 0 then 1 else base * Pow(base, e - 1)
  }

  lemma {:induction false} PowAdd(base: nat, m: nat, n: nat)
    ensures Pow(base, m + n) == Pow(base, m) * Pow(base, n)
  {
    if m > 0 {
      PowAdd(base, m - 1, n);
      assert base * Pow(base, m - 1) * Pow(base, n) == base * (Pow(base, m - 1) * Pow(base, n));
    }
  }
}
