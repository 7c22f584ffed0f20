/** What shifting the limbs of a number does to its value. */
module Shifts {
  import opened Limbs
  import opened Numbers

  /** Within a limb: p is the power of two shifted by, q the rest of the base. */
  lemma LimbShift(x: nat, p: nat, q: nat)
    requires p > 0 && q > 0 && p * q == BASE && x < BASE
    ensures x * p == x / q * BASE + x * p % BASE && x / q < p
    ensures x * p % BASE == x % q * p && x * p % BASE + p <= BASE
    ensures x * q % BASE == x % p * q
  {
    LimbShiftOne(x, p, q);
    assert q * p == p * q;
    LimbShiftOne(x, q, p);
  }

  lemma LimbShiftOne(x: nat, p: nat, q: nat)
    requires p > 0 && q > 0 && p * q == BASE && x < BASE
    ensures x * p == x / q * BASE + x * p % BASE && x / q < p
    ensures x * p % BASE == x % q * p && x * p % BASE + p <= BASE
  {
    var h, l := x / q, x % q;
    DivModOf(x, q);
    Distribute(h * q, l, p);
    MulAssoc(h, q, p);
    assert q * p == p * q;
    MulMono(l + 1, q, p);
    Distribute(l, 1, p);
    assert x * p == h * BASE + l * p;
    DivMod(x * p, BASE, h, l * p);
    if h >= p {
      MulMono(p, h, q);
    }
  }

  function At(s: seq<nat>, m: int): nat { if 0 <= m < |s| then s[m] else 0 }

  /** The bits of a limb that stay when it is multiplied. */
  function Stay(x: nat, p: nat): nat { x * p % BASE }

  /** The bits of a limb that are left when it is divided. */
  function Rest(x: nat, q: nat): nat
    requires q > 0
  {
    assert x / q >= 0;
    x / q
  }

  /** The two parts that meet in a limb have no bit in common, so that their bitwise or is their sum. */
  lemma NoCommonBits(x: nat, y: nat, s: nat)
    requires s <= 32 && x < BASE && y < BASE
    ensures Or(Rest(y, Pow2(32 - s)), Stay(x, Pow2(s))) == Rest(y, Pow2(32 - s)) + Stay(x, Pow2(s))
  {
    hide Pow2, Or;
    var p, q := Pow2(s), Pow2(32 - s);
    Pow2Add(s, 32 - s);
    Pow2Is32();
    LimbShift(x, p, q);
    LimbShift(y, p, q);
    DivMod(x % q * p, p, x % q, 0);
    OrIsSum(Stay(x, p), Rest(y, q), s);
  }

  /** Each limb of a number shifted left by k limbs, and by s bits. */
  function Left(a: seq<nat>, k: nat, p: nat, q: nat, m: int): nat
    requires p > 0 && q > 0
  {
    At(a, m - k) * p % BASE + At(a, m - k - 1) / q
  }

  function Right(a: seq<nat>, k: nat, p: nat, q: nat, m: int): nat
    requires p > 0 && q > 0
  {
    At(a, m + k) / p + At(a, m + k + 1) * q % BASE
  }

  lemma {:induction false} LeftBits(x: seq<nat>, z: seq<nat>, p: nat, q: nat, m: nat)
    requires p > 0 && q > 0 && p * q == BASE && |x| == |z| && m <= |x| && AreLimbs(x)
    requires forall k :: 0 <= k < |z| ==> z[k] == At(x, k) * p % BASE + At(x, k - 1) / q
    ensures Val(z[..m]) + At(x, m - 1) / q * Pow(BASE, m) == Val(x[..m]) * p
  {
    hide Val, Pow;
    if m == 0 {
      ValZeroes(z[..0]);
      ValZeroes(x[..0]);
      DivMod(0, q, 0, 0);
    } else {
      var n := m - 1;
      LeftBits(x, z, p, q, n);
      ValFront(z, n);
      ValFront(x, n);
      PowNext(BASE, n);
      LeftLimb(x[n], At(x, n - 1) / q, p, q, Pow(BASE, n));
      Distribute(Val(x[..n]), x[n] * Pow(BASE, n), p);
    }
  }

  /** Bits that leave one limb enter the next higher one. */
  lemma LeftLimb(x: nat, c: nat, p: nat, q: nat, w: nat)
    requires p > 0 && q > 0 && p * q == BASE && x < BASE
    ensures (x * p % BASE + c) * w + x / q * (BASE * w) == c * w + x * w * p
  {
    LimbShift(x, p, q);
    Distribute(x * p % BASE, c, w);
    Distribute(x / q * BASE, x * p % BASE, w);
    MulAssoc(x / q, BASE, w);
    assert x * p * w == x * w * p;
  }

  lemma {:induction false} RightBits(x: seq<nat>, z: seq<nat>, p: nat, q: nat, m: nat)
    requires p > 0 && q > 0 && p * q == BASE && |x| == |z| && m <= |x| && AreLimbs(x)
    requires forall k :: 0 <= k < |z| ==> z[k] == At(x, k) / p + At(x, k + 1) * q % BASE
    ensures Val(z[..m]) * p + At(x, 0) % p == Val(x[..m]) + At(x, m) % p * Pow(BASE, m)
  {
    hide Val, Pow;
    if m == 0 {
      ValZeroes(z[..0]);
      ValZeroes(x[..0]);
      PowZero(BASE);
    } else {
      var n := m - 1;
      RightBits(x, z, p, q, n);
      ValFront(z, n);
      ValFront(x, n);
      PowNext(BASE, n);
      RightLimb(x[n], At(x, m), p, q, Pow(BASE, n));
      Distribute(Val(z[..n]), z[n] * Pow(BASE, n), p);
      assert z[n] * Pow(BASE, n) * p == z[n] * p * Pow(BASE, n);
    }
  }

  /** Bits that leave one limb enter the next lower one. */
  lemma RightLimb(x: nat, y: nat, p: nat, q: nat, w: nat)
    requires p > 0 && q > 0 && p * q == BASE && x < BASE && y < BASE
    ensures (x / p + y * q % BASE) * p * w + x % p * w == x * w + y % p * (BASE * w)
  {
    LimbShift(y, p, q);
    DivModOf(x, p);
    Distribute(x / p, y * q % BASE, p);
    MulAssoc(y % p, q, p);
    assert q * p == p * q;
    Distribute(x / p * p, y % p * BASE, w);
    Distribute(x / p * p, x % p, w);
    MulAssoc(y % p, BASE, w);
  }

  /** Whole limbs move up; what leaves at the top is lost. */
  function Up(a: seq<nat>, k: nat): (x: seq<nat>)
    requires k <= |a|
    ensures |x| == |a| && (forall m :: 0 <= m < |x| ==> x[m] == At(a, m - k)) && (AreLimbs(a) ==> AreLimbs(x))
  {
    Zeroes(k) + a[..|a| - k]
  }

  /** Whole limbs move down. */
  function Down(a: seq<nat>, k: nat): (x: seq<nat>)
    requires k <= |a|
    ensures |x| == |a| && (forall m :: 0 <= m < |x| ==> x[m] == At(a, m + k)) && (AreLimbs(a) ==> AreLimbs(x))
  {
    a[k..] + Zeroes(k)
  }

  lemma LeftLimbs(a: seq<nat>, k: nat)
    requires k <= |a|
    ensures Val(Up(a, k)) + Pow(BASE, |a|) * Val(a[|a| - k..]) == Pow(BASE, k) * Val(a)
  {
    hide Val, Pow;
    var n := |a| - k;
    var low, high := a[..n], a[n..];
    assert Val(a) == Val(low) + Pow(BASE, n) * Val(high) by {
      assert a == low + high;
      ValConcat(low, high);
    }
    assert Val(Up(a, k)) == Pow(BASE, k) * Val(low) by {
      ValConcat(Zeroes(k), low);
      ValZeroes(Zeroes(k));
    }
    PowAdd(BASE, k, n);
    Spread(Pow(BASE, k), Val(low), Pow(BASE, n), Val(high));
  }

  lemma RightLimbs(a: seq<nat>, k: nat)
    requires k <= |a|
    ensures Val(a) == Val(a[..k]) + Pow(BASE, k) * Val(Down(a, k))
  {
    hide Val, Pow;
    assert a == a[..k] + a[k..];
    ValConcat(a[..k], a[k..]);
    ValConcat(a[k..], Zeroes(k));
    ValZeroes(Zeroes(k));
    assert Pow(BASE, |a| - k) * 0 == 0;
  }

  lemma Spread(k: nat, low: nat, n: nat, high: nat)
    ensures k * (low + n * high) == k * low + k * n * high
  {
    MulAssoc(k, n, high);
    assert k * (low + n * high) == k * low + k * (n * high);
  }

  lemma PowersOf(shift: nat)
    ensures var s := shift % 32; Pow2(s) * Pow2(32 - s) == BASE && Pow2(shift) == Pow(BASE, shift / 32) * Pow2(s)
  {
    var k, s := shift / 32, shift % 32;
    Pow2Add(s, 32 - s);
    Pow2Is32();
    PowIsPow2(k);
    Pow2Add(32 * k, s);
  }

  /** A left shift multiplies, modulo the base's power. */
  lemma LeftShift(a: seq<nat>, z: seq<nat>, shift: nat)
    requires AreLimbs(a) && |z| == |a| > 0
    requires var s := shift % 32;
             forall m :: 0 <= m < |z| ==> z[m] == Left(a, shift / 32, Pow2(s), Pow2(32 - s), m)
    ensures AreLimbs(z) && Val(z) == Val(a) * Pow2(shift) % Pow(BASE, |a|)
  {
    hide Val, Pow, Pow2;
    var k, s, w := shift / 32, shift % 32, |a|;
    var p, q := Pow2(s), Pow2(32 - s);
    PowersOf(shift);
    forall m | 0 <= m < w ensures z[m] < BASE {
      LimbShift(At(a, m - k), p, q);
      LimbShift(At(a, m - k - 1), p, q);
    }
    if k <= w {
      LeftNear(a, z, k, p, q);
    } else {
      DivMod(0, BASE, 0, 0);
      DivMod(0, q, 0, 0);
      ValZeroes(z);
      FarLeft(Val(a), w, k, p);
    }
  }

  lemma LeftOfUp(a: seq<nat>, z: seq<nat>, k: nat, p: nat, q: nat)
    requires |z| == |a| && k <= |a| && p > 0 && q > 0 && forall m :: 0 <= m < |z| ==> z[m] == Left(a, k, p, q, m)
    ensures forall m :: 0 <= m < |z| ==> z[m] == At(Up(a, k), m) * p % BASE + At(Up(a, k), m - 1) / q
  {
    forall m | 0 <= m < |z| ensures z[m] == At(Up(a, k), m) * p % BASE + At(Up(a, k), m - 1) / q {
      assert At(Up(a, k), m) == At(a, m - k) && At(Up(a, k), m - 1) == At(a, m - k - 1);
    }
  }

  lemma LeftNear(a: seq<nat>, z: seq<nat>, k: nat, p: nat, q: nat)
    requires AreLimbs(a) && AreLimbs(z) && |z| == |a| > 0 && k <= |a| && p > 0 && q > 0 && p * q == BASE
    requires forall m :: 0 <= m < |z| ==> z[m] == Left(a, k, p, q, m)
    ensures Val(z) == Val(a) * (Pow(BASE, k) * p) % Pow(BASE, |a|)
  {
    hide Val, Pow, Left;
    var w := |a|;
    var x := Up(a, k);
    LeftOfUp(a, z, k, p, q);
    LeftBits(x, z, p, q, w);
    LeftLimbs(a, k);
    assert x[..w] == x && z[..w] == z;
    ValBound(z);
    LeftTotal(Val(a), Val(x), Val(z), Pow(BASE, k), p, Pow(BASE, w), Val(a[w - k..]), At(x, w - 1) / q);
  }

  lemma FarLeft(a: nat, w: nat, k: nat, p: nat)
    requires w <= k
    ensures a * (Pow(BASE, k) * p) % Pow(BASE, w) == 0
  {
    hide Pow;
    PowAdd(BASE, w, k - w);
    Rotate(a, Pow(BASE, w), Pow(BASE, k - w), p);
    DivMod(a * (Pow(BASE, k) * p), Pow(BASE, w), a * Pow(BASE, k - w) * p, 0);
  }

  lemma Rotate(a: nat, w: nat, r: nat, p: nat)
    ensures a * (w * r * p) == a * r * p * w
  {
    assert w * r * p == r * p * w;
    MulAssoc(a, r * p, w);
    MulAssoc(a, r, p);
  }

  lemma LeftTotal(a: nat, x: nat, z: nat, k: nat, p: nat, w: nat, top: nat, c: nat)
    requires x + w * top == k * a && z + c * w == x * p && z < w
    ensures a * (k * p) % w == z
  {
    assert a * (k * p) == k * a * p;
    Distribute(x, w * top, p);
    assert w * top * p == top * p * w;
    Distribute(c, top * p, w);
    DivMod(a * (k * p), w, c + top * p, z);
  }

  /** A right shift divides, rounding down. */
  lemma RightShift(a: seq<nat>, z: seq<nat>, shift: nat)
    requires AreLimbs(a) && |z| == |a| > 0
    requires var s := shift % 32;
             forall m :: 0 <= m < |z| ==> z[m] == Right(a, shift / 32, Pow2(s), Pow2(32 - s), m)
    ensures AreLimbs(z) && Val(z) == Val(a) / Pow2(shift)
  {
    hide Val, Pow, Pow2;
    var k, s, w := shift / 32, shift % 32, |a|;
    var p, q := Pow2(s), Pow2(32 - s);
    PowersOf(shift);
    forall m | 0 <= m < w ensures z[m] < BASE {
      LimbHalves(At(a, m + k), At(a, m + k + 1), p, q);
    }
    if k <= w {
      RightNear(a, z, k, p, q);
    } else {
      DivMod(0, p, 0, 0);
      DivMod(0, BASE, 0, 0);
      ValZeroes(z);
      ValBound(a);
      FarRight(Val(a), w, k, p);
    }
  }

  lemma RightNear(a: seq<nat>, z: seq<nat>, k: nat, p: nat, q: nat)
    requires AreLimbs(a) && |z| == |a| > 0 && k <= |a| && p > 0 && q > 0 && p * q == BASE
    requires forall m :: 0 <= m < |z| ==> z[m] == Right(a, k, p, q, m)
    ensures Val(z) == Val(a) / (Pow(BASE, k) * p)
  {
    hide Val, Pow;
    var w := |a|;
    var x := Down(a, k);
    RightBits(x, z, p, q, w);
    RightLimbs(a, k);
    assert x[..w] == x && z[..w] == z;
    DivMod(0, p, 0, 0);
    ValBound(a[..k]);
    DivModOf(x[0], p);
    RightTotal(Val(a), Val(a[..k]), Val(x), Val(z), Pow(BASE, k), p, x[0] % p);
  }

  lemma FarRight(a: nat, w: nat, k: nat, p: nat)
    requires w <= k && a < Pow(BASE, w) && p > 0
    ensures a / (Pow(BASE, k) * p) == 0
  {
    hide Pow;
    PowAdd(BASE, w, k - w);
    MulMono(1, Pow(BASE, k - w), Pow(BASE, w));
    MulMono(1, p, Pow(BASE, k));
    assert p * Pow(BASE, k) == Pow(BASE, k) * p && Pow(BASE, k - w) * Pow(BASE, w) == Pow(BASE, w) * Pow(BASE, k - w);
    DivMod(a, Pow(BASE, k) * p, 0, a);
  }

  lemma LimbHalves(x: nat, y: nat, p: nat, q: nat)
    requires p > 0 && q > 0 && p * q == BASE && x < BASE && y < BASE
    ensures x / p + y * q % BASE < BASE
  {
    assert q * p == p * q;
    LimbShift(x, q, p);
    LimbShift(y, q, p);
  }

  lemma RightTotal(a: nat, low: nat, x: nat, z: nat, k: nat, p: nat, r: nat)
    requires a == low + k * x && z * p + r == x && low < k && r < p && p > 0 && k > 0
    ensures a / (k * p) == z
  {
    Distribute(z * p, r, k);
    assert z * p * k == z * (k * p);
    assert k * x == x * k;
    MulMono(r + 1, p, k);
    Distribute(r, 1, k);
    assert p * k == k * p;
    DivMod(a, k * p, z, r * k + low);
  }
}
