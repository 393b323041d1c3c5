/** Little-endian limb vectors: what they denote, and the carry-propagating loops over them. */
module Limbs {
  import opened Words

  /** 2^64, the weight of one limb. */
  const W: int := 0x1_0000_0000_0000_0000

  /** W^n. */
  function WPow(n: nat): nat
    ensures WPow(n) >= 1
  {
    if n == 0 then 1 else W * WPow(n - 1)
  }

  lemma WPowNext(n: nat)
    ensures WPow(n + 1) == W * WPow(n)
  {
  }

  /** The number a limb vector denotes, least significant limb first. */
  function Val(s: seq<u64>): nat {
    if s == [] then 0 else Val(s[..|s| - 1]) + s[|s| - 1] * WPow(|s| - 1)
  }

  lemma ValSnoc(s: seq<u64>, j: nat)
    requires j < |s|
    ensures Val(s[..j + 1]) == Val(s[..j]) + s[j] * WPow(j)
  {
    assert s[..j + 1][..j] == s[..j];
  }

  lemma {:induction false} ValBound(s: seq<u64>)
    ensures Val(s) < WPow(|s|)
  {
    if s != [] {
      var last := |s| - 1;
      ValBound(s[..last]);
      MulMono(s[last], W - 1, WPow(last));
    }
  }

  lemma {:induction false} ValZeros(s: seq<u64>)
    requires forall i :: 0 <= i < |s| ==> s[i] == 0
    ensures Val(s) == 0
  {
    if s != [] {
      ValZeros(s[..|s| - 1]);
    }
  }

  lemma TopLimbDecides(a: seq<u64>, b: seq<u64>)
    requires |a| == |b| > 0
    ensures a[|a| - 1] < b[|b| - 1] ==> Val(a) < Val(b)
    ensures a[|a| - 1] > b[|b| - 1] ==> Val(a) > Val(b)
  {
    var last := |a| - 1;
    ValBound(a[..last]);
    ValBound(b[..last]);
    if a[last] < b[last] {
      LeadingDecides(a[last], Val(a[..last]), b[last], Val(b[..last]), WPow(last));
    } else if a[last] > b[last] {
      LeadingDecides(b[last], Val(b[..last]), a[last], Val(a[..last]), WPow(last));
    }
  }

  lemma LeadingDecides(x: int, u: int, y: int, v: int, p: int)
    requires x < y && u < p && 0 <= v && 0 <= p
    ensures u + x * p < v + y * p
  {
    MulMono(x + 1, y, p);
  }

  lemma SplitTimes(x: int, p: int)
    ensures (x % W) * p + (x / W) * (W * p) == x * p
  {
    assert x == W * (x / W) + x % W;
    assert (W * (x / W)) * p == (x / W) * (W * p);
  }

  lemma MulBound(x: int, y: int, m: int)
    requires 0 <= x <= m && 0 <= y <= m
    ensures 0 <= x * y <= m * m
  {
    MulMono(x, m, y);
    MulMono(y, m, m);
  }

  /** `x as u64`. */
  function Low64(x: u128): u64 {
    x % W
  }

  /** `x >> 64`. */
  function High64(x: u128): (r: u64)
    ensures x < 0x2_0000_0000_0000_0000 ==> r <= 1
  {
    x / W
  }

  /** A limb, a product of limbs and a carry add up within 128 bits. */
  function MulAdd(t: u64, a: u64, b: u64, carry: u64): (sum: u128)
    ensures sum == t + a * b + carry
  {
    MulBound(a, b, W - 1);
    t + a * b + carry
  }

  /** One limb more of `low`, holding the low half of a sum whose high half is the new carry. */
  lemma CarryStep(low: seq<u64>, sum: u128)
    ensures Val(low + [Low64(sum)]) + High64(sum) * WPow(|low| + 1) == Val(low) + sum * WPow(|low|)
  {
    assert (low + [Low64(sum)])[..|low|] == low;
    SplitTimes(sum, WPow(|low|));
  }

  lemma RowAlgebra(lo: int, c: int, tv: int, av: int, td: int, ad: int, b: int, p: int)
    requires lo + c * p == tv + av * b
    ensures lo + (td + ad * b + c) * p == tv + td * p + (av + ad * p) * b
  {
    assert (td + ad * b + c) * p == td * p + (ad * b) * p + c * p;
    assert (av + ad * p) * b == av * b + (ad * p) * b;
    assert (ad * b) * p == (ad * p) * b;
  }

  /** The limbs `low` and the carry hold the low |low| limbs of t + a * b. */
  ghost predicate RowDone(low: seq<u64>, carry: u64, t: seq<u64>, a: seq<u64>, b: u64) {
    |low| <= |t| && |low| <= |a| &&
    Val(low) + carry * WPow(|low|) == Val(t[..|low|]) + Val(a[..|low|]) * b
  }

  lemma RowStep(low: seq<u64>, carry: u64, t: seq<u64>, a: seq<u64>, b: u64)
    requires |low| < |t| && |low| < |a|
    requires RowDone(low, carry, t, a, b)
    ensures var sum := MulAdd(t[|low|], a[|low|], b, carry);
      RowDone(low + [Low64(sum)], High64(sum), t, a, b)
  {
    hide Val, WPow;
    var j := |low|;
    CarryStep(low, MulAdd(t[j], a[j], b, carry));
    ValSnoc(t, j);
    ValSnoc(a, j);
    RowAlgebra(Val(low), carry, Val(t[..j]), Val(a[..j]), t[j], a[j], b, WPow(j));
  }

  /** s, with the overflow above its top limb, is t + a * b. */
  ghost predicate RowAdded(s: seq<u64>, overflow: u64, t: seq<u64>, a: seq<u64>, b: u64) {
    Val(s) + overflow * WPow(|s|) == Val(t) + Val(a) * b
  }

  lemma RowTop(low: seq<u64>, carry: u64, t: seq<u64>, a: seq<u64>, b: u64)
    requires |t| == |low| + 1 && |a| == |low|
    requires RowDone(low, carry, t, a, b)
    ensures var sum := t[|low|] + carry;
      RowAdded(low + [Low64(sum)], High64(sum), t, a, b)
  {
    hide Val, WPow;
    CarryStep(low, t[|low|] + carry);
    ValSnoc(t, |low|);
    assert t == t[..|t|] && a == a[..|a|];
    RowAlgebra(Val(low), carry, Val(t[..|low|]), Val(a), t[|low|], 0, b, WPow(|low|));
  }

  /** The first inner loop of `mont_mul`: t += a * b_i, with what leaves the top limb returned. */
  method MulAddRow(t: array<u64>, a: seq<u64>, bi: u64) returns (overflow: u64)
    requires t.Length == |a| + 1
    modifies t
    ensures overflow <= 1
    ensures RowAdded(t[..], overflow, old(t[..]), a, bi)
  {
    ghost var t0 := t[..];
    var k := |a|;
    var carry: u64 := 0;
    assert RowDone(t[..0], carry, t0, a, bi);
    hide *;
    for j := 0 to k
      invariant RowDone(t[..j], carry, t0, a, bi)
      invariant t[j..] == t0[j..]
    {
      assert t[j] == t0[j];
      ghost var low := t[..j];
      RowStep(low, carry, t0, a, bi);
      var sum := MulAdd(t[j], a[j], bi, carry);
      t[j] := Low64(sum);
      carry := High64(sum);
      assert t[..j + 1] == low + [Low64(sum)];
    }
    assert t[k] == t0[k];
    ghost var low := t[..k];
    RowTop(low, carry, t0, a, bi);
    var sum: u128 := t[k] + carry;
    t[k] := Low64(sum);
    overflow := High64(sum);
    assert t[..] == low + [Low64(sum)];
  }

  /** The limbs `low`, standing one place down, and the carry hold the low |low| + 1 limbs of t + m * n. */
  ghost predicate FoldDone(low: seq<u64>, carry: u64, t: seq<u64>, m: u64, n: seq<u64>) {
    |low| < |t| && |low| < |n| &&
    W * Val(low) + carry * WPow(|low| + 1) == Val(t[..|low| + 1]) + Val(n[..|low| + 1]) * m
  }

  lemma FoldFirst(t: seq<u64>, m: u64, n: seq<u64>)
    requires |t| > 0 && |n| > 0
    requires Low64(MulAdd(t[0], m, n[0], 0)) == 0
    ensures FoldDone([], High64(MulAdd(t[0], m, n[0], 0)), t, m, n)
  {
    var low := MulAdd(t[0], m, n[0], 0);
    assert low == W * High64(low);
    assert WPow(1) == W * WPow(0) && WPow(0) == 1;
    ValSnoc(t, 0);
    ValSnoc(n, 0);
    assert t[..0] == [] && n[..0] == [];
  }

  lemma FoldAlgebra(lo: int, c: int, tv: int, nv: int, td: int, nd: int, m: int, p: int)
    requires lo + c * p == tv + nv * m
    ensures lo + (td + m * nd + c) * p == tv + td * p + (nv + nd * p) * m
  {
    assert m * nd == nd * m;
    RowAlgebra(lo, c, tv, nv, td, nd, m, p);
  }

  lemma ScaleUp(w: int, hi: int, x: int, lo: int, y: int, p: int)
    requires hi + x * (w * p) == lo + y * p
    ensures w * hi + x * (w * (w * p)) == w * lo + y * (w * p)
  {
    assert w * (hi + x * (w * p)) == w * hi + w * (x * (w * p));
    assert w * (x * (w * p)) == x * (w * (w * p));
    assert w * (lo + y * p) == w * lo + w * (y * p);
    assert w * (y * p) == y * (w * p);
  }

  /** Raising both sides of `CarryStep` by one limb. */
  lemma CarryStepUp(low: seq<u64>, sum: u128)
    ensures W * Val(low + [Low64(sum)]) + High64(sum) * WPow(|low| + 2) == W * Val(low) + sum * WPow(|low| + 1)
  {
    hide Val, WPow, Low64, High64;
    var j := |low|;
    WPowNext(j);
    WPowNext(j + 1);
    CarryStep(low, sum);
    ScaleUp(W, Val(low + [Low64(sum)]), High64(sum), Val(low), sum, WPow(j));
  }

  lemma FoldStep(low: seq<u64>, carry: u64, t: seq<u64>, m: u64, n: seq<u64>)
    requires |low| + 1 < |t| && |low| + 1 < |n|
    requires FoldDone(low, carry, t, m, n)
    ensures var sum := MulAdd(t[|low| + 1], m, n[|low| + 1], carry);
      FoldDone(low + [Low64(sum)], High64(sum), t, m, n)
  {
    hide Val, WPow;
    var j := |low| + 1;
    CarryStepUp(low, MulAdd(t[j], m, n[j], carry));
    ValSnoc(t, j);
    ValSnoc(n, j);
    FoldAlgebra(W * Val(low), carry, Val(t[..j]), Val(n[..j]), t[j], n[j], m, WPow(j));
  }

  lemma TopAlgebra(w: int, top: int, v: int, o: int, h: int, p: int, q: int, total: int)
    requires q == w * p
    requires w * v + h * q == total
    requires top == v + (o + h) * p
    ensures w * top == total + o * q
  {
    assert (o + h) * p == o * p + h * p;
    assert w * (o * p) == o * (w * p) && w * (h * p) == h * (w * p);
  }

  lemma FoldLast(low: seq<u64>, carry: u64, t: seq<u64>, m: u64, n: seq<u64>)
    requires |t| == |n| + 1 && |n| == |low| + 1
    requires FoldDone(low, carry, t, m, n)
    ensures var sum := t[|n|] + carry;
      W * Val(low + [Low64(sum)]) + High64(sum) * WPow(|t|) == Val(t) + Val(n) * m
  {
    hide Val, WPow, Low64, High64;
    var k := |n|;
    CarryStepUp(low, t[k] + carry);
    ValSnoc(t, k);
    assert t == t[..|t|] && n == n[..|n|];
    FoldAlgebra(W * Val(low), carry, Val(t[..k]), Val(n), t[k], 0, m, WPow(k));
  }

  /** `out` is t + overflow * W^|t| + m * n, shifted down one limb without remainder. */
  ghost predicate Folded(out: seq<u64>, t: seq<u64>, overflow: u64, m: u64, n: seq<u64>) {
    W * Val(out) == Val(t) + overflow * WPow(|t|) + Val(n) * m
  }

  lemma FoldTop(low: seq<u64>, carry: u64, t: seq<u64>, m: u64, n: seq<u64>, overflow: u64)
    requires |t| == |n| + 1 && |n| == |low| + 1
    requires FoldDone(low, carry, t, m, n)
    requires overflow <= 1
    ensures var sum := t[|n|] + carry;
      Folded(low + [Low64(sum)] + [overflow + High64(sum)], t, overflow, m, n)
  {
    var sum := t[|n|] + carry;
    FoldLast(low, carry, t, m, n);
    FoldShift(low + [Low64(sum)], High64(sum), overflow, t, m, n);
  }

  lemma FoldShift(body: seq<u64>, high: u64, overflow: u64, t: seq<u64>, m: u64, n: seq<u64>)
    requires |t| == |n| + 1 && |n| == |body|
    requires overflow + high < W
    requires W * Val(body) + high * WPow(|t|) == Val(t) + Val(n) * m
    ensures Folded(body + [overflow + high], t, overflow, m, n)
  {
    hide Val, WPow;
    ValAppend(body, overflow + high);
    WPowNext(|n|);
    TopAlgebra(W, Val(body + [overflow + high]), Val(body), overflow, high, WPow(|n|), WPow(|t|), Val(t) + Val(n) * m);
  }

  lemma ValAppend(s: seq<u64>, d: u64)
    ensures Val(s + [d]) == Val(s) + d * WPow(|s|)
  {
    assert (s + [d])[..|s|] == s;
  }

  /** The second inner loop of `mont_mul`: t := (t + overflow * W^(k+1) + m * n) / W, for the m that makes
      the lowest limb vanish. */
  method FoldRow(t: array<u64>, overflow: u64, m: u64, n: seq<u64>)
    requires t.Length == |n| + 1 && |n| > 0
    requires overflow <= 1
    requires Low64(MulAdd(t[0], m, n[0], 0)) == 0
    modifies t
    ensures Folded(t[..], old(t[..]), overflow, m, n)
  {
    ghost var t0 := t[..];
    var k := |n|;
    var carry: u64 := High64(MulAdd(t[0], m, n[0], 0));
    FoldFirst(t0, m, n);
    assert t[..0] == [];
    hide *;
    for j := 1 to k
      invariant FoldDone(t[..j - 1], carry, t0, m, n)
      invariant t[j..] == t0[j..]
    {
      assert t[j] == t0[j];
      ghost var low := t[..j - 1];
      FoldStep(low, carry, t0, m, n);
      var sum := MulAdd(t[j], m, n[j], carry);
      t[j - 1] := Low64(sum);
      carry := High64(sum);
      assert t[..j] == low + [Low64(sum)];
    }
    assert t[k] == t0[k];
    ghost var low := t[..k - 1];
    var sum: u128 := t[k] + carry;
    FoldTop(low, carry, t0, m, n, overflow);
    t[k - 1] := Low64(sum);
    t[k] := overflow + High64(sum);
    assert t[..] == low + [Low64(sum)] + [overflow + High64(sum)];
  }

  datatype Ordering = Less | Equal | Greater

  lemma {:induction false} ValSameTop(a: seq<u64>, b: seq<u64>, i: nat)
    requires |a| == |b| && i <= |a|
    requires a[i..] == b[i..]
    ensures Val(a) - Val(b) == Val(a[..i]) - Val(b[..i])
  {
    if i == |a| {
      assert a[..i] == a && b[..i] == b;
    } else {
      var last := |a| - 1;
      assert a[last] == a[i..][last - i] == b[last];
      forall j | i <= j < last ensures a[..last][j] == b[..last][j] {
        assert a[j] == a[i..][j - i];
      }
      assert a[..last][i..] == b[..last][i..];
      assert a[..last][..i] == a[..i] && b[..last][..i] == b[..i];
      ValSameTop(a[..last], b[..last], i);
    }
  }

  /** Limb vectors compare as the numbers they denote. */
  method Compare(a: seq<u64>, b: seq<u64>) returns (o: Ordering)
    requires |a| == |b|
    ensures o.Less? <==> Val(a) < Val(b)
    ensures o.Equal? <==> Val(a) == Val(b)
    ensures o.Greater? <==> Val(a) > Val(b)
  {
    var i := |a|;
    while i > 0
      invariant 0 <= i <= |a|
      invariant a[i..] == b[i..]
    {
      i := i - 1;
      if a[i] != b[i] {
        ValSameTop(a, b, i + 1);
        assert a[..i + 1][i] == a[i] && b[..i + 1][i] == b[i];
        TopLimbDecides(a[..i + 1], b[..i + 1]);
        return if a[i] < b[i] then Less else Greater;
      }
    }
    assert a == a[0..] && b == b[0..];
    return Equal;
  }

  /** `overflowing_sub`: the wrapped difference, and whether it wrapped. */
  function OverflowingSub(x: u64, y: u64): (r: (u64, bool))
    ensures r.0 + y == x + if r.1 then W else 0
  {
    if y <= x then (x - y, false) else (x - y + W, true)
  }

  function Bit(b: bool): u64 {
    if b then 1 else 0
  }

  /** `low` and the borrow hold the low |low| limbs of a - b. */
  ghost predicate SubDone(low: seq<u64>, borrow: bool, a: seq<u64>, b: seq<u64>) {
    |low| <= |a| && |low| <= |b| &&
    Val(low) + Val(b[..|low|]) == Val(a[..|low|]) + Bit(borrow) * WPow(|low|)
  }

  lemma SubAlgebra(lo: int, bv: int, av: int, c: int, d: int, bd: int, ad: int, c': int, w: int, p: int, q: int)
    requires q == w * p
    requires lo + bv == av + c * p
    requires d + bd + c == ad + c' * w
    ensures (lo + d * p) + (bv + bd * p) == (av + ad * p) + c' * q
  {
    assert (d + bd + c) * p == d * p + bd * p + c * p;
    assert (ad + c' * w) * p == ad * p + c' * (w * p);
  }

  lemma SubStep(low: seq<u64>, borrow: bool, a: seq<u64>, b: seq<u64>)
    requires |low| < |a| && |low| < |b|
    requires SubDone(low, borrow, a, b)
    ensures var (d, b1) := OverflowingSub(a[|low|], b[|low|]);
      var (e, b2) := OverflowingSub(d, Bit(borrow));
      SubDone(low + [e], b1 || b2, a, b)
  {
    var j := |low|;
    var (d, b1) := OverflowingSub(a[j], b[j]);
    var (e, b2) := OverflowingSub(d, Bit(borrow));
    assert !(b1 && b2);
    assert e + b[j] + Bit(borrow) == a[j] + Bit(b1 || b2) * W;
    hide Val, WPow, OverflowingSub;
    assert (low + [e])[..j] == low;
    ValAppend(low, e);
    ValSnoc(a, j);
    ValSnoc(b, j);
    WPowNext(j);
    SubAlgebra(Val(low), Val(b[..j]), Val(a[..j]), Bit(borrow), e, b[j], a[j], Bit(b1 || b2), W, WPow(j), WPow(j + 1));
  }

  /** a := a - b, wrapping around W^k exactly when b is the larger. */
  method SubInPlace(a: array<u64>, b: seq<u64>)
    requires a.Length == |b|
    modifies a
    ensures Val(a[..]) == Val(old(a[..])) - Val(b) + if Val(old(a[..])) < Val(b) then WPow(|b|) else 0
  {
    ghost var a0 := a[..];
    var k := |b|;
    var borrow: u64 := 0;
    ghost var wrapped := false;
    assert SubDone(a[..0], wrapped, a0, b);
    for i := 0 to k
      invariant borrow == Bit(wrapped)
      invariant SubDone(a[..i], wrapped, a0, b)
      invariant a[i..] == a0[i..]
    {
      hide SubDone, OverflowingSub;
      assert a[i] == a0[i];
      ghost var low := a[..i];
      SubStep(low, wrapped, a0, b);
      var (d, b1) := OverflowingSub(a[i], b[i]);
      var (e, b2) := OverflowingSub(d, borrow);
      a[i] := e;
      borrow := if b1 || b2 then 1 else 0;
      wrapped := b1 || b2;
      assert a[..i + 1] == low + [e];
    }
    assert a[..] == a[..k] && a0 == a0[..k] && b == b[..k];
    ValBound(a[..]);
    ValBound(a0);
    ValBound(b);
  }

  /** `low` and the carry hold twice the low |low| limbs of a. */
  ghost predicate DoubleDone(low: seq<u64>, carry: u64, a: seq<u64>) {
    |low| <= |a| && Val(low) + carry * WPow(|low|) == 2 * Val(a[..|low|])
  }

  /** `(limb << 1) | carry`, which never meets a set low bit. */
  function DoubledLimb(limb: u64, carry: u64): (d: u64)
    requires carry <= 1
  {
    (2 * limb) % W + carry
  }

  function TopBit(limb: u64): (b: u64)
    ensures b <= 1
  {
    limb / 0x8000_0000_0000_0000
  }

  lemma DoubleStep(low: seq<u64>, carry: u64, a: seq<u64>)
    requires |low| < |a| && carry <= 1
    requires DoubleDone(low, carry, a)
    ensures DoubleDone(low + [DoubledLimb(a[|low|], carry)], TopBit(a[|low|]), a)
  {
    var j := |low|;
    var d := DoubledLimb(a[j], carry);
    assert d + TopBit(a[j]) * W == 2 * a[j] + carry;
    hide Val, WPow, DoubledLimb, TopBit;
    ValAppend(low, d);
    ValSnoc(a, j);
    WPowNext(j);
    assert (low + [d])[..j] == low;
    DoubleAlgebra(Val(low), Val(a[..j]), carry, d, a[j], TopBit(a[j]), W, WPow(j), WPow(j + 1));
  }

  lemma DoubleAlgebra(lo: int, av: int, c: int, d: int, ad: int, c': int, w: int, p: int, q: int)
    requires q == w * p
    requires lo + c * p == 2 * av
    requires d + c' * w == 2 * ad + c
    ensures (lo + d * p) + c' * q == 2 * (av + ad * p)
  {
    assert (d + c' * w) * p == d * p + c' * (w * p);
    assert (2 * ad + c) * p == 2 * (ad * p) + c * p;
  }

  /** The inner loop of `compute_r2`: acc := 2 * acc, with the bit that leaves the top returned. */
  method DoubleInPlace(acc: array<u64>) returns (carry: u64)
    modifies acc
    ensures carry <= 1
    ensures Val(acc[..]) + carry * WPow(acc.Length) == 2 * Val(old(acc[..]))
  {
    ghost var a0 := acc[..];
    carry := 0;
    assert DoubleDone(acc[..0], carry, a0);
    for i := 0 to acc.Length
      invariant carry <= 1
      invariant DoubleDone(acc[..i], carry, a0)
      invariant acc[i..] == a0[i..]
    {
      hide DoubleDone, DoubledLimb, TopBit;
      assert acc[i] == a0[i];
      ghost var low := acc[..i];
      DoubleStep(low, carry, a0);
      var doubled := DoubledLimb(acc[i], carry);
      carry := TopBit(acc[i]);
      acc[i] := doubled;
      assert acc[..i + 1] == low + [doubled];
    }
    assert acc[..] == acc[..acc.Length] && a0 == a0[..acc.Length];
  }
}
