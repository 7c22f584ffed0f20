/** Numbers as sequences of 32-bit limbs, least significant first. */
module Limbs {
  import opened Numbers

  const BASE: nat := 0x1_0000_0000

  function Val(s: seq<nat>): nat {
    if s == [] then 0 else Val(s[..|s| - 1]) + s[|s| - 1] * Pow(BASE, |s| - 1)
  }

  ghost predicate AreLimbs(s: seq<nat>) { forall k :: 0 <= k < |s| ==> s[k] < BASE }

  lemma Pow2Is32()
    ensures Pow2(32) == BASE
  {
    assert Pow2(8) == 256;
    Pow2Add(8, 8);
    Pow2Add(16, 16);
  }

  lemma {:induction false} PowIsPow2(n: nat)
    ensures Pow(BASE, n) == Pow2(32 * n)
  {
    if n > 0 {
      PowIsPow2(n - 1);
      Pow2Add(32, 32 * (n - 1));
      Pow2Is32();
      assert 32 + 32 * (n - 1) == 32 * n;
    }
  }

  // Values

  lemma {:induction false} ValBound(s: seq<nat>)
    requires AreLimbs(s)
    ensures Val(s) < Pow(BASE, |s|)
  {
    if s != [] {
      var n := |s| - 1;
      ValBound(s[..n]);
      MulMono(s[n] + 1, BASE, Pow(BASE, n));
      Distribute(s[n], 1, Pow(BASE, n));
    }
  }

  lemma {:induction false} ValConcat(a: seq<nat>, b: seq<nat>)
    ensures Val(a + b) == Val(a) + Pow(BASE, |a|) * Val(b)
  {
    if b == [] {
      assert a + b == a;
    } else {
      hide Pow;
      var n := |b| - 1;
      ValConcat(a, b[..n]);
      assert (a + b)[..|a + b| - 1] == a + b[..n];
      PowAdd(BASE, |a|, n);
      MoveUp(Pow(BASE, |a|), Pow(BASE, n), b[n], Val(b[..n]));
    }
  }

  lemma MoveUp(p: nat, q: nat, d: nat, v: nat)
    ensures p * v + d * (p * q) == p * (v + d * q)
  {
    MulAssoc(d, p, q);
    MulAssoc(p, d, q);
    Distribute(v, d * q, p);
  }

  lemma ValFront(s: seq<nat>, n: nat)
    requires n < |s|
    ensures Val(s[..n + 1]) == Val(s[..n]) + s[n] * Pow(BASE, n)
  {
    assert s[..n + 1][..n] == s[..n];
  }

  lemma {:induction false} ValZeroes(s: seq<nat>)
    requires forall k :: 0 <= k < |s| ==> s[k] == 0
    ensures Val(s) == 0
  {
    if s != [] {
      ValZeroes(s[..|s| - 1]);
    }
  }

  /** Changing one limb. */
  lemma {:induction false} ValUpdate(s: seq<nat>, i: nat, x: nat)
    requires i < |s|
    ensures Val(s[i := x]) == Val(s) + (x - s[i]) * Pow(BASE, i)
  {
    var n := |s| - 1;
    if i < n {
      ValUpdate(s[..n], i, x);
      assert s[i := x][..n] == s[..n][i := x];
    } else {
      assert s[i := x][..n] == s[..n];
      Distribute(s[n], x - s[n], Pow(BASE, n));
    }
  }

  /** The most significant limb that differs decides. */
  lemma ValOrder(a: seq<nat>, b: seq<nat>, i: nat)
    requires |a| == |b| && i < |a| && AreLimbs(a) && AreLimbs(b) && a[i] < b[i] && a[i + 1..] == b[i + 1..]
    ensures Val(a) < Val(b)
  {
    hide Val, Pow;
    assert a == a[..i + 1] + a[i + 1..] && b == b[..i + 1] + b[i + 1..];
    ValConcat(a[..i + 1], a[i + 1..]);
    ValConcat(b[..i + 1], b[i + 1..]);
    ValFront(a, i);
    ValFront(b, i);
    ValBound(a[..i]);
    MulMono(a[i] + 1, b[i], Pow(BASE, i));
    Distribute(a[i], 1, Pow(BASE, i));
  }
}
