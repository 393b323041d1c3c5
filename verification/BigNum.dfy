/** Montgomery arithmetic on limb vectors: multiplication, the two precomputed values and the public-key
    power. */
module BigNum {
  import opened Words
  import opened Limbs
  import opened LimbBytes
  import opened Modular

  datatype BigError = NotOddModulus | ModulusTooSmall | NotReduced | TooWide

  function WrappingMul(x: u64, y: u64): u64 {
    (x * y) % W
  }

  function WrappingSub(x: u64, y: u64): u64 {
    (x - y) % W
  }

  function WrappingNeg(x: u64): u64 {
    (W - x) % W
  }

  lemma CongruentDivisor(a: int, b: int, n: int, d: int)
    requires n > 0 && d > 0 && n * d > 0 && Congruent(a, b, n * d)
    ensures Congruent(a, b, n)
  {
    var q := Quotient(a, b, n * d);
    assert n * d * q == n * (d * q);
    CongruentIntro(a, b, n, d * q);
  }

  /** What one Newton step computes, before it is cut down to 64 bits. */
  lemma NewtonIdentity(y: int, m: int)
    requires m > 0 && m * m > 0 && Congruent(y, 1, m)
    ensures Congruent(y * (2 - y), 1, m * m)
  {
    var q := Quotient(y, 1, m);
    assert y * (2 - y) - 1 == -((y - 1) * (y - 1));
    assert (m * q) * (m * q) == (m * m) * (q * q);
    assert (m * m) * -(q * q) == -((m * m) * (q * q));
    CongruentIntro(y * (2 - y), 1, m * m, -(q * q));
  }

  lemma NewtonCongruent(x: int, inv: int, y: int, z: int, r: int, w: int)
    requires w > 0
    requires Congruent(y, x * inv, w) && Congruent(z, 2 - y, w) && Congruent(r, inv * z, w)
    ensures Congruent(x * r, (x * inv) * (2 - x * inv), w)
  {
    var f := 2 - x * inv;
    var q := Quotient(y, x * inv, w);
    assert w * -q == -(w * q);
    CongruentIntro(2 - y, f, w, -q);
    CongruentTransitive(z, 2 - y, f, w);
    CongruentMul(z, f, inv, w);
    CongruentTransitive(r, inv * z, f * inv, w);
    CongruentMul(r, f * inv, x, w);
    assert f * inv * x == (x * inv) * f;
  }

  lemma NewtonReduced(x: u64, inv: u64)
    ensures Congruent(x * WrappingMul(inv, WrappingSub(2, WrappingMul(x, inv))), (x * inv) * (2 - x * inv), W)
  {
    var y: int := WrappingMul(x, inv);
    var z := WrappingSub(2, y);
    CongruentMod(x * inv, W);
    CongruentMod(2 - y, W);
    CongruentMod(inv * z, W);
    hide WrappingMul, Congruent;
    NewtonCongruent(x, inv, y, z, WrappingMul(inv, z), W);
  }

  /** An inverse modulo m becomes, in one Newton step, one modulo m squared. */
  lemma NewtonStep(x: u64, inv: u64, bits: nat)
    requires 2 * bits <= 64
    requires Congruent(x * inv, 1, Pow2(bits))
    ensures Congruent(x * WrappingMul(inv, WrappingSub(2, WrappingMul(x, inv))), 1, Pow2(2 * bits))
  {
    var next := WrappingMul(inv, WrappingSub(2, WrappingMul(x, inv)));
    var full := (x * inv) * (2 - x * inv);
    Pow2Add(bits, bits);
    Pow2Add(2 * bits, 64 - 2 * bits);
    WIsPow2();
    hide *;
    NewtonIdentity(x * inv, Pow2(bits));
    NewtonReduced(x, inv);
    CongruentDivisor(x * next, full, Pow2(2 * bits), Pow2(64 - 2 * bits));
    CongruentTransitive(x * next, full, 1, Pow2(2 * bits));
  }

  lemma WIsPow2()
    ensures W == Pow2(64)
  {
    EightBytes(0);
    BytePowIsPow2(8);
  }

  /** `inv_2_64`: six Newton steps from one correct bit make the inverse of an odd limb. */
  method Inv64(x: u64) returns (inv: u64)
    requires x % 2 == 1
    ensures Congruent(x * inv, 1, W)
  {
    inv := 1;
    ghost var bits := 1;
    assert Congruent(x * inv, 1, Pow2(1)) by {
      CongruentIntro(x, 1, 2, x / 2);
    }
    for i := 0 to 6
      invariant bits == Pow2(i)
      invariant Congruent(x * inv, 1, Pow2(bits))
    {
      Pow2Mono(i + 1, 6);
      assert Pow2(6) == 64 by { assert Pow2(3) == 8; }
      NewtonStep(x, inv, bits);
      inv := WrappingMul(inv, WrappingSub(2, WrappingMul(x, inv)));
      bits := 2 * bits;
    }
    assert bits == 64 by { assert Pow2(3) == 8; }
    WIsPow2();
  }

  /** The factor that clears the lowest limb. */
  lemma ReductionClears(t0: u64, n0: u64, n0inv: u64)
    requires Congruent(n0 * n0inv, -1, W)
    ensures Low64(MulAdd(t0, WrappingMul(t0, n0inv), n0, 0)) == 0
  {
    var m := WrappingMul(t0, n0inv);
    CongruentMod(t0 * n0inv, W);
    CongruentMul(m, t0 * n0inv, n0, W);
    CongruentMul(n0 * n0inv, -1, t0, W);
    assert n0 * n0inv * t0 == t0 * n0inv * n0;
    CongruentTransitive(m * n0, t0 * n0inv * n0, -1 * t0, W);
    var q := Quotient(m * n0, -1 * t0, W);
    CongruentIntro(t0 + m * n0, 0, W, q);
  }

  /** After i limbs of b: t * W^i is a * b[..i] modulo n, and t is below 2n. */
  ghost predicate Accumulated(t: seq<u64>, a: seq<u64>, b: seq<u64>, i: nat, n: seq<u64>) {
    i <= |b| && Val(n) > 0 &&
    Val(t) < 2 * Val(n) &&
    Congruent(Val(t) * WPow(i), Val(a) * Val(b[..i]), Val(n))
  }

  lemma AccumulateBound(t: int, a: int, b: int, m: int, n: int, out: int)
    requires 0 <= t < 2 * n && 0 <= a < n && 0 <= b < W && 0 <= m < W
    requires W * out == t + a * b + n * m
    ensures out < 2 * n
  {
    MulMono(a, n, b);
    MulMono(b, W - 1, n);
    MulMono(m, W - 1, n);
    assert n * b == b * n && n * m == m * n;
  }

  lemma AccumulateCongruent(t: int, a: int, b: int, m: int, n: int, out: int, bv: int, p: int, q: int)
    requires n > 0 && q == W * p
    requires W * out == t + a * b + n * m
    requires Congruent(t * p, a * bv, n)
    ensures Congruent(out * q, a * (bv + b * p), n)
  {
    var k := Quotient(t * p, a * bv, n);
    assert out * q == (W * out) * p;
    assert (t + a * b + n * m) * p == t * p + (a * b) * p + (n * m) * p;
    assert a * (bv + b * p) == a * bv + (a * b) * p;
    assert (n * m) * p == n * (m * p);
    assert n * (k + m * p) == n * k + n * (m * p);
    CongruentIntro(out * q, a * (bv + b * p), n, k + m * p);
  }

  /** One pass of the outer loop: out is (t + a * bi + n * m) / W. */
  ghost predicate Stepped(out: seq<u64>, t: seq<u64>, a: seq<u64>, bi: u64, m: u64, n: seq<u64>) {
    W * Val(out) == Val(t) + Val(a) * bi + Val(n) * m
  }

  lemma RowsCompose(t: seq<u64>, s: seq<u64>, overflow: u64, out: seq<u64>, m: u64, a: seq<u64>, bi: u64, n: seq<u64>)
    requires RowAdded(s, overflow, t, a, bi)
    requires Folded(out, s, overflow, m, n)
    ensures Stepped(out, t, a, bi, m, n)
  {
  }

  lemma AccumulateStep(t: seq<u64>, out: seq<u64>, m: u64, a: seq<u64>, b: seq<u64>, i: nat, n: seq<u64>)
    requires i < |b|
    requires Val(a) < Val(n)
    requires Accumulated(t, a, b, i, n)
    requires Stepped(out, t, a, b[i], m, n)
    ensures Accumulated(out, a, b, i + 1, n)
  {
    hide Val, WPow, Congruent;
    AccumulateBound(Val(t), Val(a), b[i], m, Val(n), Val(out));
    ValSnoc(b, i);
    WPowNext(i);
    AccumulateCongruent(Val(t), Val(a), b[i], m, Val(n), Val(out), Val(b[..i]), WPow(i), WPow(i + 1));
  }

  lemma CarryLimb(t: seq<u64>, k: nat)
    requires |t| == k + 1
    ensures t[k] == 0 ==> Val(t) == Val(t[..k])
    ensures t[k] == 1 ==> Val(t) == Val(t[..k]) + WPow(k)
    ensures t[k] >= 2 ==> Val(t) >= 2 * WPow(k)
  {
    hide *;
    ValSnoc(t, k);
    assert t[..k + 1] == t;
    DigitTimes(t[k], WPow(k));
  }

  lemma DigitTimes(d: int, p: int)
    requires 0 <= d && 0 <= p
    ensures d == 0 ==> d * p == 0
    ensures d == 1 ==> d * p == p
    ensures d >= 2 ==> d * p >= 2 * p
  {
    if d >= 2 {
      MulMono(2, d, p);
    }
  }

  /** The one conditional subtraction that ends `mont_mul` is enough. */
  lemma LastSubtraction(t: seq<u64>, n: seq<u64>)
    requires |t| == |n| + 1
    requires Val(t) < 2 * Val(n)
    ensures var low := t[..|n|];
      if t[|n|] != 0 || Val(low) >= Val(n)
      then Val(t) - Val(n) == Val(low) - Val(n) + (if Val(low) < Val(n) then WPow(|n|) else 0) && Val(t) >= Val(n)
      else Val(t) == Val(low)
  {
    ValBound(n);
    ValBound(t[..|n|]);
    CarryLimb(t, |n|);
  }

  /** The end of `mont_mul`: a number below 2n, in one limb more than n, brought below n. */
  method ReduceOnce(t: seq<u64>, n: seq<u64>) returns (r: seq<u64>)
    requires |t| == |n| + 1
    requires Val(t) < 2 * Val(n)
    ensures |r| == |n|
    ensures Val(r) < Val(n)
    ensures Val(r) == Val(t) || Val(r) == Val(t) - Val(n)
  {
    var k := |n|;
    var result := new u64[k](i requires 0 <= i < k => t[i]);
    assert result[..] == t[..k];
    LastSubtraction(t, n);
    hide Val, WPow;
    var order := Compare(result[..], n);
    if t[k] != 0 || !order.Less? {
      SubInPlace(result, n);
    }
    r := result[..];
  }

  lemma SubtractKeeps(v: int, n: int, p: int, c: int)
    requires n > 0 && Congruent(v * p, c, n)
    ensures Congruent((v - n) * p, c, n)
  {
    var q := Quotient(v * p, c, n);
    assert (v - n) * p == v * p - n * p;
    assert n * (q - p) == n * q - n * p;
    CongruentIntro((v - n) * p, c, n, q - p);
  }

  /** `leading_zeros` of a 64-bit word: how often it can be doubled before its top bit is set. */
  function LeadingZeros(x: u64): nat
    decreases W - x
  {
    if x == 0 then 64
    else if x >= 0x8000_0000_0000_0000 then 0
    else 1 + LeadingZeros(2 * x)
  }

  lemma {:induction false} LeadingZerosBound(x: u64)
    requires x > 0
    ensures LeadingZeros(x) < 64
    ensures Pow2(63 - LeadingZeros(x)) <= x < Pow2(64 - LeadingZeros(x))
    decreases W - x
  {
    WIsPow2();
    if x < 0x8000_0000_0000_0000 {
      LeadingZerosBound(2 * x);
      assert Pow2(64 - LeadingZeros(2 * x)) == 2 * Pow2(63 - LeadingZeros(2 * x));
    }
  }

  /** The bytes a nonzero limb needs. */
  lemma LimbWidth(top: u64)
    requires top > 0
    ensures var w := 8 - LeadingZeros(top) / 8;
      1 <= w <= 8 && BytePow(w - 1) <= top < BytePow(w)
  {
    LeadingZerosBound(top);
    var z := LeadingZeros(top);
    var w := 8 - z / 8;
    BytePowIsPow2(w - 1);
    BytePowIsPow2(w);
    Pow2Mono(8 * (w - 1), 63 - z);
    Pow2Mono(64 - z, 8 * w);
  }

  /** A limb vector with a nonzero top limb needs its lower limbs in full and the bytes of its top limb. */
  lemma ValWidth(n: seq<u64>)
    requires n != [] && n[|n| - 1] != 0
    ensures var w := (|n| - 1) * 8 + (8 - LeadingZeros(n[|n| - 1]) / 8);
      w > 0 && BytePow(w - 1) <= Val(n) < BytePow(w)
  {
    var last := |n| - 1;
    var top := n[last];
    ValSnoc(n, last);
    assert n[..last + 1] == n;
    hide *;
    LimbWidth(top);
    var w := 8 - LeadingZeros(top) / 8;
    ValBound(n[..last]);
    WPowIsBytePow(last);
    BytePowAdd(w - 1, 8 * last);
    BytePowAdd(w, 8 * last);
    TopDigitBounds(Val(n[..last]), top, BytePow(w - 1), BytePow(w), WPow(last));
  }

  lemma TopDigitBounds(low: int, top: int, a: int, b: int, p: int)
    requires 0 <= low < p && a <= top < b
    ensures a * p <= low + top * p < b * p
  {
    MulMono(a, top, p);
    MulMono(top + 1, b, p);
  }

  lemma {:induction false} WPowIsPow2(k: nat)
    ensures WPow(k) == Pow2(64 * k)
  {
    WPowIsBytePow(k);
    BytePowIsPow2(8 * k);
  }

  lemma DoubledRemainder(x: nat, n: nat)
    requires n > 0
    ensures (2 * (x % n)) % n == (2 * x) % n
  {
    var d := 2 * (x % n);
    DivIdentity(x, n);
    DivIdentity(d, n);
    var q := 2 * (x / n) + d / n;
    assert n * q == 2 * (n * (x / n)) + n * (d / n);
    ModUnique(2 * x, q, d % n, n);
  }

  lemma ValOfOne(s: seq<u64>)
    requires s != [] && s[0] == 1
    requires forall i :: 1 <= i < |s| ==> s[i] == 0
    ensures Val(s) == 1
  {
    if |s| > 1 {
      ValOfOne(s[..|s| - 1]);
    } else {
      assert s[..0] == [];
    }
  }

  lemma DoubleReduced(x: nat, low: nat, carry: nat, p: nat, n: nat, y: nat)
    requires carry <= 1 && x < n < p && low < p
    requires low + carry * p == 2 * x
    requires y == if carry != 0 || low >= n then low - n + (if low < n then p else 0) else low
    ensures y == (2 * x) % n
  {
    assert y == if 2 * x >= n then 2 * x - n else 2 * x;
    ModUnique(2 * x, if 2 * x >= n then 1 else 0, y, n);
  }

  /** One step of `compute_r2`: acc := 2 * acc mod n. */
  method DoubleMod(acc: array<u64>, n: seq<u64>)
    requires acc.Length == |n| && Val(acc[..]) < Val(n)
    modifies acc
    ensures Val(acc[..]) == (2 * Val(old(acc[..]))) % Val(n)
  {
    hide Val, WPow;
    ghost var before := Val(acc[..]);
    var carry := DoubleInPlace(acc);
    ghost var low := acc[..];
    ValBound(low);
    ValBound(n);
    var order := Compare(acc[..], n);
    if carry != 0 || !order.Less? {
      SubInPlace(acc, n);
    }
    DoubleReduced(before, Val(low), carry, WPow(|n|), Val(n), Val(acc[..]));
  }

  /** `compute_r2`: R^2 modulo n, by doubling one 2 * 64 * k times. */
  method ComputeR2(n: seq<u64>) returns (r: seq<u64>)
    requires n != [] && Val(n) >= 3
    ensures |r| == |n|
    ensures Val(r) == (WPow(|n|) * WPow(|n|)) % Val(n)
  {
    var k := |n|;
    var acc := new u64[k](_ => 0);
    acc[0] := 1;
    ValOfOne(acc[..]);
    ModUnique(1, 0, 1, Val(n));
    for i := 0 to 2 * 64 * k
      invariant Val(acc[..]) == Pow2(i) % Val(n)
    {
      DoubleMod(acc, n);
      DoubledRemainder(Pow2(i), Val(n));
    }
    WPowIsPow2(k);
    Pow2Add(64 * k, 64 * k);
    r := acc[..];
  }

  lemma HighLimbIsEven(d: int, p: int, q: int)
    requires q == W * p
    ensures (d * q) % 2 == 0
  {
    var x := d * p;
    assert d * q == W * x;
    ModUnique(W * x, 0x8000_0000_0000_0000 * x, 0, 2);
  }

  /** The lowest limb carries the parity. */
  lemma {:induction false} ValParity(s: seq<u64>)
    requires s != []
    ensures Val(s) % 2 == s[0] % 2
  {
    var last := |s| - 1;
    ValSnoc(s, last);
    assert s[..last + 1] == s;
    if last > 0 {
      hide *;
      ValParity(s[..last]);
      WPowNext(last - 1);
      HighLimbIsEven(s[last], WPow(last - 1), WPow(last));
      ParityStep(Val(s[..last]), s[last] * WPow(last));
    } else {
      assert s[..0] == [];
    }
  }

  lemma ParityStep(v: int, t: int)
    requires t % 2 == 0
    ensures (v + t) % 2 == v % 2
  {
  }

  /** Only a single limb can denote a number below three. */
  lemma SmallValue(s: seq<u64>)
    requires s != [] && s[|s| - 1] != 0
    ensures |s| == 1 ==> Val(s) == s[0]
    ensures |s| > 1 ==> Val(s) >= W
    ensures Val(s) > 0
  {
    var last := |s| - 1;
    MulMono(1, s[last], WPow(last));
    if last > 0 {
      WPowNext(last - 1);
      MulMono(1, WPow(last - 1), W);
    } else {
      assert s[..0] == [];
    }
  }

  lemma {:induction false} ValPadded(s: seq<u64>, k: nat)
    requires |s| <= k
    ensures Val(s + seq(k - |s|, _ => 0)) == Val(s)
  {
    var padded := s + seq(k - |s|, _ => 0);
    if |s| == k {
      assert padded == s;
    } else {
      ValPadded(s, k - 1);
      assert padded[..k - 1] == s + seq(k - 1 - |s|, _ => 0);
    }
  }

  lemma {:induction false} ValPrefix(s: seq<u64>, k: nat)
    requires k <= |s|
    ensures Val(s[..k]) == Val(s) % WPow(k)
  {
    FlatBytesValue(s);
    FlatBytesValue(s[..k]);
    FlatPrefix(s, k);
    LittleEndianPrefix(FlatBytes(s), 8 * k);
    WPowIsBytePow(k);
  }

  lemma {:induction false} FlatPrefix(s: seq<u64>, k: nat)
    requires k <= |s|
    ensures FlatBytes(s)[..8 * k] == FlatBytes(s[..k])
  {
    if k < |s| {
      FlatPrefix(s[..|s| - 1], k);
      assert s[..|s| - 1][..k] == s[..k];
    } else {
      assert s[..k] == s;
    }
  }

  /** `resize`: k limbs, zeros appended or high limbs dropped. */
  function Resize(s: seq<u64>, k: nat): (r: seq<u64>)
    ensures |r| == k
  {
    if |s| <= k then s + seq(k - |s|, _ => 0) else s[..k]
  }

  lemma ResizeValue(s: seq<u64>, k: nat)
    ensures Val(Resize(s, k)) == Val(s) % WPow(k)
  {
    if |s| <= k {
      ValPadded(s, k);
      ValBound(Resize(s, k));
      ModUnique(Val(s), 0, Val(s), WPow(k));
    } else {
      ValPrefix(s, k);
    }
  }

  /** v is x in Montgomery form. */
  ghost predicate MontForm(v: nat, x: nat, radix: nat, n: nat) {
    n > 0 && Congruent(v, x * radix, n)
  }

  /** Montgomery multiplication multiplies what its arguments stand for. */
  lemma MontProduct(r: nat, v: nat, u: nat, x: nat, y: nat, k: nat, n: nat)
    requires n % 2 == 1
    requires MontForm(v, x, Pow2(k), n) && MontForm(u, y, Pow2(k), n)
    requires Congruent(r * Pow2(k), v * u, n)
    ensures MontForm(r, x * y, Pow2(k), n)
  {
    var p := Pow2(k);
    CongruentMul2(v, x * p, u, y * p, n);
    assert (x * p) * (y * p) == (x * y * p) * p;
    CongruentTransitive(r * p, v * u, (x * y * p) * p, n);
    CancelPow2(r, x * y * p, k, n);
  }

  lemma EnterCongruent(r: int, b: int, r2: int, p: int, n: int)
    requires n > 0
    requires Congruent(r2, p * p, n) && Congruent(r * p, b * r2, n)
    ensures Congruent(r * p, (b * p) * p, n)
  {
    hide Congruent;
    CongruentMul(r2, p * p, b, n);
    assert r2 * b == b * r2 && (p * p) * b == (b * p) * p;
    CongruentTransitive(r * p, b * r2, (b * p) * p, n);
  }

  lemma MontEnter(r: nat, b: nat, r2: nat, k: nat, n: nat)
    requires n % 2 == 1
    requires Congruent(r2, Pow2(k) * Pow2(k), n)
    requires Congruent(r * Pow2(k), b * r2, n)
    ensures MontForm(r, b, Pow2(k), n)
  {
    EnterCongruent(r, b, r2, Pow2(k), n);
    CancelPow2(r, b * Pow2(k), k, n);
  }

  lemma MontLeave(r: nat, v: nat, x: nat, k: nat, n: nat)
    requires n % 2 == 1 && r < n
    requires MontForm(v, x, Pow2(k), n)
    requires Congruent(r * Pow2(k), v * 1, n)
    ensures r == x % n
  {
    var p := Pow2(k);
    assert v * 1 == v;
    CongruentTransitive(r * p, v, x * p, n);
    CancelPow2(r, x, k, n);
    CongruentRemainder(r, x, n);
  }

  /** `e >> i`. */
  function Shr(e: nat, i: nat): nat {
    DivNonneg(e, Pow2(i));
    e / Pow2(i)
  }

  lemma PowOne(b: nat)
    ensures Pow(b, 1) == b
  {
    assert b * Pow(b, 0) == b;
  }

  lemma ShrZero(e: nat)
    ensures Shr(e, 0) == e
  {
  }

  /** The exponent bits above position i, and the bit at it. */
  lemma ShiftStep(e: nat, i: nat)
    ensures Shr(e, i) == 2 * Shr(e, i + 1) + Shr(e, i) % 2
  {
    var p := Pow2(i);
    var x := Shr(e, i);
    DivIdentity(e, p);
    DivIdentity(x, 2);
    var low := e % p + p * (x % 2);
    DigitTimes(x % 2, p);
    assert p * (x % 2) == (x % 2) * p;
    assert p * x == (2 * p) * (x / 2) + p * (x % 2);
    ModUnique(e, x / 2, low, 2 * p);
  }

  lemma PowStep(b: nat, e: nat, i: nat)
    ensures var half := Pow(b, Shr(e, i + 1));
      Pow(b, Shr(e, i)) == half * half * if Shr(e, i) % 2 == 1 then b else 1
  {
    var h := Shr(e, i + 1);
    ShiftStep(e, i);
    PowAdd(b, h, h);
    if Shr(e, i) % 2 == 1 {
      PowAdd(b, h + h, 1);
      assert Pow(b, 1) == b * Pow(b, 0) == b;
    }
  }

  datatype Modulus = Modulus(n: seq<u64>, n0inv: u64, r2: seq<u64>) {
    /** The modulus as a number. */
    function N(): nat {
      Val(n)
    }

    /** R = 2^(64 * limbs), the Montgomery radix. */
    function R(): nat {
      WPow(|n|)
    }

    ghost predicate Valid() {
      && 0 < |n| <= MAX_LIMBS
      && n[|n| - 1] != 0
      && N() % 2 == 1 && N() >= 3
      && Congruent(n[0] * n0inv, -1, W)
      && |r2| == |n| && Val(r2) == (R() * R()) % N()
    }

    /** CIOS Montgomery multiplication: the result times R is a * b modulo n, and it is reduced. */
    method MontMul(a: seq<u64>, b: seq<u64>) returns (r: seq<u64>)
      requires Valid()
      requires |a| == |b| == |n|
      requires Val(a) < N() && Val(b) < N()
      ensures |r| == |n|
      ensures Val(r) < N()
      ensures Congruent(Val(r) * R(), Val(a) * Val(b), N())
    {
      var k := |n|;
      var t := new u64[k + 1](_ => 0);
      ValZeros(t[..]);
      assert Accumulated(t[..], a, b, 0, n) by {
        assert Val(b[..0]) == 0;
        CongruentReflexive(0, N());
      }
      for i := 0 to k
        invariant Accumulated(t[..], a, b, i, n)
      {
        hide Accumulated, Val, WPow, RowAdded, Folded, Stepped, Congruent;
        ghost var before := t[..];
        var overflow := MulAddRow(t, a, b[i]);
        ghost var middle := t[..];
        var m := WrappingMul(t[0], n0inv);
        ReductionClears(t[0], n[0], n0inv);
        FoldRow(t, overflow, m, n);
        RowsCompose(before, middle, overflow, t[..], m, a, b[i], n);
        AccumulateStep(before, t[..], m, a, b, i, n);
      }
      assert b[..k] == b;
      r := ReduceOnce(t[..], n);
      SubtractKeeps(Val(t[..]), N(), R(), Val(a) * Val(b));
    }

    /** `Modulus::new`: exactly the odd numbers from three up that fit MAX_LIMBS are moduli. */
    static method New(bytes: Bytes) returns (r: Result<Modulus, BigError>)
      ensures var value := BigEndian(bytes);
        if |Trim(bytes)| > MAX_LIMBS * 8 then r == Err(TooWide)
        else if value == 0 || value == 1 then r == Err(ModulusTooSmall)
        else if value % 2 == 0 then r == Err(NotOddModulus)
        else r.Ok? && r.value.Valid() && r.value.N() == value
    {
      var read := FromBeBytes(bytes);
      if read.None? {
        return Err(TooWide);
      }
      var n := read.value;
      if n == [] {
        return Err(ModulusTooSmall);
      }
      ValParity(n);
      SmallValue(n);
      if n[0] % 2 == 0 {
        return Err(NotOddModulus);
      }
      if |n| == 1 && n[0] < 3 {
        return Err(ModulusTooSmall);
      }
      var inv := Inv64(n[0]);
      NegatedInverse(n[0], inv);
      var r2 := ComputeR2(n);
      return Ok(Modulus(n, WrappingNeg(inv), r2));
    }

    /** How many bytes the number n takes; a signature has to have as many. */
    function ByteLen(): nat
      requires n != [] && n[|n| - 1] != 0
    {
      LeadingZerosBound(n[|n| - 1]);
      (|n| - 1) * 8 + (8 - LeadingZeros(n[|n| - 1]) / 8)
    }

    lemma ByteLenBounds()
      requires n != [] && n[|n| - 1] != 0
      ensures 0 < ByteLen() <= 8 * |n|
      ensures BytePow(ByteLen() - 1) <= N() < BytePow(ByteLen())
    {
      ValWidth(n);
      LeadingZerosBound(n[|n| - 1]);
    }

    /** The number `pow` works on: the base cut down to the modulus's limbs. */
    function Loaded(base: Bytes): nat {
      BigEndian(base) % R()
    }

    /** What `pow` returns. */
    function PowSpec(base: Bytes, exponent: nat): Result<Bytes, BigError>
      requires n != [] && n[|n| - 1] != 0 && N() > 0
    {
      if |Trim(base)| > MAX_LIMBS * 8 then Err(TooWide)
      else if Loaded(base) >= N() then Err(NotReduced)
      else Ok(BeBytes(Pow(Loaded(base), exponent) % N(), ByteLen()))
    }

    /** `pow`: square and multiply in Montgomery form. */
    method PowMod(base: Bytes, exponent: u64) returns (r: Result<Bytes, BigError>)
      requires Valid()
      ensures r == PowSpec(base, exponent)
    {
      var read := FromBeBytes(base);
      if read.None? {
        return Err(TooWide);
      }
      var b := Resize(read.value, |n|);
      ResizeValue(read.value, |n|);
      var order := Compare(b, n);
      if !order.Less? {
        return Err(NotReduced);
      }
      ByteLenBounds();
      if exponent == 0 {
        var out := new u8[ByteLen()](_ => 0);
        out[ByteLen() - 1] := 1;
        OneBytes(out[..], N());
        return Ok(out[..]);
      }
      var residue := PowResidue(b, exponent);
      var out := ToBeBytes(residue, ByteLen());
      ModUnique(Val(residue), 0, Val(residue), BytePow(ByteLen()));
      BeBytesValue(Val(residue), ByteLen());
      BigEndianInjective(out, BeBytes(Val(residue), ByteLen()));
      return Ok(out);
    }

    lemma R2Facts()
      requires Valid()
      ensures Val(r2) < N() && Congruent(Val(r2), R() * R(), N())
    {
      CongruentMod(R() * R(), N());
      DivIdentity(R() * R(), N());
    }

    /** The loop of `pow`, into Montgomery form once and out once. */
    method PowResidue(b: seq<u64>, exponent: u64) returns (result: seq<u64>)
      requires Valid()
      requires |b| == |n| && Val(b) < N()
      requires exponent > 0
      ensures |result| == |n|
      ensures Val(result) == Pow(Val(b), exponent) % N()
    {
      ghost var k := 64 * |n|;
      WPowIsPow2(|n|);
      R2Facts();
      ShrZero(exponent);
      LeadingZerosBound(exponent);
      var bits := 64 - LeadingZeros(exponent);
      TopBitIsOne(exponent, bits);
      PowOne(Val(b));
      hide MontForm, Congruent, Val, WPow, Pow, Shr;
      var baseMont := MontMul(b, r2);
      MontEnter(Val(baseMont), Val(b), Val(r2), k, N());
      var acc := baseMont;
      var i := bits - 1;
      while i > 0
        invariant 0 <= i < bits
        invariant |acc| == |n| && Val(acc) < N()
        invariant MontForm(Val(acc), Pow(Val(b), Shr(exponent, i)), Pow2(k), N())
      {
        i := i - 1;
        acc := SquareMultiply(acc, baseMont, Shr(exponent, i) % 2 == 1,
                              Pow(Val(b), Shr(exponent, i + 1)), Val(b));
        PowStep(Val(b), exponent, i);
      }
      var one := new u64[|n|](_ => 0);
      one[0] := 1;
      ValOfOne(one[..]);
      result := MontMul(acc, one[..]);
      MontLeave(Val(result), Val(acc), Pow(Val(b), exponent), k, N());
    }

    /** One pass of the loop: a squaring, and a multiplication when the exponent's bit is set. */
    method SquareMultiply(acc: seq<u64>, baseMont: seq<u64>, bit: bool, ghost x: nat, ghost b: nat)
      returns (r: seq<u64>)
      requires Valid()
      requires |acc| == |baseMont| == |n| && Val(acc) < N() && Val(baseMont) < N()
      requires MontForm(Val(acc), x, Pow2(64 * |n|), N()) && MontForm(Val(baseMont), b, Pow2(64 * |n|), N())
      ensures |r| == |n| && Val(r) < N()
      ensures MontForm(Val(r), x * x * if bit then b else 1, Pow2(64 * |n|), N())
    {
      WPowIsPow2(|n|);
      hide MontForm, Congruent, Val, WPow;
      r := MontMul(acc, acc);
      MontProduct(Val(r), Val(acc), Val(acc), x, x, 64 * |n|, N());
      if bit {
        ghost var squared := Val(r);
        r := MontMul(r, baseMont);
        MontProduct(Val(r), squared, Val(baseMont), x * x, b, 64 * |n|, N());
      }
    }

    /** A base that is wider than the modulus, and whose high limbs hide that it is not reduced. */
    predicate TruncationHides(base: Bytes)
      requires n != [] && N() > 0
    {
      8 * |n| < |Trim(base)| <= MAX_LIMBS * 8 && Loaded(base) < N()
    }

    /** What `NotReduced` promises of `pow`: a base that is not below n gets that answer, any other its power. */
    function Intended(base: Bytes, exponent: nat): Result<Bytes, BigError>
      requires n != [] && n[|n| - 1] != 0 && N() > 0
    {
      if |Trim(base)| > MAX_LIMBS * 8 then Err(TooWide)
      else if BigEndian(base) >= N() then Err(NotReduced)
      else Ok(BeBytes(Pow(BigEndian(base), exponent) % N(), ByteLen()))
    }

    /** `pow` keeps its promise on exactly the bases whose truncation hides nothing. */
    lemma PowMeetsIntent(base: Bytes, exponent: nat)
      requires Valid()
      ensures PowSpec(base, exponent) == Intended(base, exponent) <==> !TruncationHides(base)
    {
      var trimmed := Trim(base);
      TrimKeepsValue(base);
      WPowIsBytePow(|n|);
      ValBound(n);
      if |trimmed| <= 8 * |n| {
        BigEndianBound(trimmed);
        BytePowMono(|trimmed|, 8 * |n|);
        ModUnique(BigEndian(base), 0, BigEndian(base), R());
      } else {
        TrimmedWidth(trimmed);
        BytePowMono(8 * |n|, |trimmed| - 1);
      }
    }

    /** No base of the modulus's own width is truncated, which is why an RSA signature never is. */
    lemma FittingBaseIsLoadedWhole(base: Bytes)
      requires Valid()
      requires |base| <= 8 * |n|
      ensures !TruncationHides(base)
      ensures Loaded(base) == BigEndian(base)
    {
      BigEndianBound(base);
      BytePowMono(|base|, 8 * |n|);
      WPowIsBytePow(|n|);
      ModUnique(BigEndian(base), 0, BigEndian(base), R());
    }
  }

  /** The modulus thirteen in one limb, with its two precomputed values. */
  function Thirteen(): Modulus {
    Modulus([13], 0xB13B_13B1_3B13_B13B, [9])
  }

  lemma ThirteenIsValid()
    ensures Thirteen().Valid() && Thirteen().N() == 13 && Thirteen().R() == W
  {
    assert [13][..0] == [] && [9][..0] == [];
    SmallValue([13]);
    assert Val([9]) == 9;
    assert WPow(1) == W * WPow(0);
    assert Thirteen().R() == W;
    ModUnique(W * W, (W * W - 9) / 13, 9, 13);
    CongruentIntro(13 * 0xB13B_13B1_3B13_B13B, -1, W, 9);
  }

  /** A modulus and a base far above it, 2^64 + 5, for which `pow` answers as if the base were five. */
  lemma WideBaseIsNotRefused() returns (m: Modulus, base: Bytes)
    ensures m.Valid() && m.N() == 13 && base == [1, 0, 0, 0, 0, 0, 0, 0, 5]
    ensures BigEndian(base) >= m.N() && m.Intended(base, 1) == Err(NotReduced)
    ensures m.PowSpec(base, 1) == Ok([5])
  {
    m, base := Thirteen(), [1, 0, 0, 0, 0, 0, 0, 0, 5];
    ThirteenIsValid();
    assert base == [1] + BeBytesOfFive();
    BigEndianAppend([1], BeBytesOfFive());
    FiveValue();
    assert BigEndian([1]) == 1 by { assert [1][..0] == []; }
    EightBytes(0);
    ModUnique(BigEndian(base), 1, 5, W);
    assert Trim(base) == base;
    hide Thirteen;
    assert m.Loaded(base) == 5;
    PowOne(5);
    ByteLenOfThirteen(m);
    assert BeBytes(5, 1) == [5] by { assert BeBytes(0, 0) == []; }
  }

  lemma ByteLenOfThirteen(m: Modulus)
    requires m.n != [] && m.n[|m.n| - 1] != 0 && m.N() == 13
    ensures m.ByteLen() == 1
  {
    m.ByteLenBounds();
  }

  function BeBytesOfFive(): Bytes {
    [0, 0, 0, 0, 0, 0, 0, 5]
  }

  lemma FiveValue()
    ensures BigEndian(BeBytesOfFive()) == 5
  {
    var s := BeBytesOfFive();
    assert s == s[..7] + [5];
    BigEndianAppend(s[..7], [5]);
    BigEndianZeros(s[..7]);
    assert BigEndian([5]) == 5 by { assert [5][..0] == []; }
  }

  lemma NegatedInverse(x: u64, inv: u64)
    requires Congruent(x * inv, 1, W)
    ensures Congruent(x * WrappingNeg(inv), -1, W)
  {
    var neg: int := W - inv;
    CongruentMod(neg, W);
    CongruentMul(WrappingNeg(inv), neg, x, W);
    var q := Quotient(x * inv, 1, W);
    assert neg * x == W * x - x * inv;
    CongruentIntro(neg * x, -1, W, x - q);
    assert WrappingNeg(inv) * x == x * WrappingNeg(inv);
    CongruentTransitive(x * WrappingNeg(inv), neg * x, -1, W);
  }

  lemma TopBitIsOne(e: u64, bits: nat)
    requires bits > 0 && Pow2(bits - 1) <= e < Pow2(bits)
    ensures Shr(e, bits - 1) == 1
  {
    var p := Pow2(bits - 1);
    ModUnique(e, 1, e - p, p);
  }

  lemma OneBytes(out: Bytes, n: nat)
    requires out != [] && out[|out| - 1] == 1 && n >= 3
    requires forall i :: 0 <= i < |out| - 1 ==> out[i] == 0
    requires n < BytePow(|out|)
    ensures out == BeBytes(1 % n, |out|)
  {
    ModUnique(1, 0, 1, n);
    BigEndianZeros(out[..|out| - 1]);
    BeBytesValue(1, |out|);
    BigEndianInjective(out, BeBytes(1, |out|));
  }
}
