/** Multi-limb unsigned integers (src/arith_uint256.h, src/arith_uint256.cpp), of any width. */
module Arith {
  import opened Limbs
  import opened Numbers
  import opened Shifts

  class BaseUint {
    const pn: array<nat>

    ghost predicate Valid()
      reads this, pn
    {
      pn.Length >= 2 && AreLimbs(pn[..])
    }

    ghost function Value(): nat
      reads this, pn
    {
      Val(pn[..])
    }

    constructor (width: nat, b: nat)
      requires width >= 2 && b < BASE * BASE
      ensures Valid() && pn.Length == width && Value() == b && fresh(pn)
    {
      pn := new nat[width](k => if k == 0 then b % BASE else if k == 1 then b / BASE else 0);
      new;
      TwoLimbs(pn[..], b);
    }

    constructor Copy(b: BaseUint)
      requires b.Valid()
      ensures Valid() && pn[..] == b.pn[..] && fresh(pn)
    {
      pn := new nat[b.pn.Length](k requires 0 <= k < b.pn.Length reads b.pn => b.pn[k]);
    }

    /** Sets a number that fits into two limbs. */
    method Assign(b: nat)
      requires Valid() && b < BASE * BASE
      modifies pn
      ensures Valid() && Value() == b
    {
      pn[0] := b % BASE;
      pn[1] := b / BASE;
      for i := 2 to pn.Length
        invariant Valid() && pn[0] == b % BASE && pn[1] == b / BASE
        invariant forall k :: 2 <= k < i ==> pn[k] == 0
      {
        pn[i] := 0;
      }
      TwoLimbs(pn[..], b);
    }

    /** Addition wraps around. */
    method Add(b: BaseUint)
      requires Valid() && b.Valid() && b.pn.Length == pn.Length
      modifies pn
      ensures Valid() && Value() == (old(Value()) + old(b.Value())) % Pow(BASE, pn.Length)
    {
      hide Val, Pow;
      ghost var x, y := pn[..], b.pn[..];
      var carry: nat := 0;
      EmptyVal(x, y);
      for i := 0 to pn.Length
        invariant Valid() && carry <= 1
        invariant forall k :: i <= k < pn.Length ==> pn[k] == x[k] && b.pn[k] == y[k]
        invariant Val(pn[..i]) + carry * Pow(BASE, i) == Val(x[..i]) + Val(y[..i])
      {
        var n := carry + pn[i] + b.pn[i];
        ghost var low := pn[..i];
        pn[i] := n % BASE;
        assert pn[..i] == low;
        AddStep(pn[..], x, y, i, carry, n);
        carry := n / BASE;
      }
      AllVal(pn[..], x, y);
      Wrapped(Val(pn[..]), carry, pn.Length, Val(x) + Val(y), pn[..]);
    }

    /** One step up, wrapping around. */
    method Increment()
      requires Valid()
      modifies pn
      ensures Valid() && Value() == (old(Value()) + 1) % Pow(BASE, pn.Length)
    {
      hide Val, Pow;
      ghost var x := pn[..];
      var i := 0;
      pn[0] := if pn[0] == BASE - 1 then 0 else pn[0] + 1;
      while pn[i] == 0 && i < pn.Length - 1
        invariant 0 <= i < pn.Length && Valid()
        invariant forall k :: 0 <= k < i ==> pn[k] == 0 && x[k] == BASE - 1
        invariant pn[i] == (if x[i] == BASE - 1 then 0 else x[i] + 1)
        invariant forall k :: i < k < pn.Length ==> pn[k] == x[k]
        decreases pn.Length - i
      {
        i := i + 1;
        pn[i] := if pn[i] == BASE - 1 then 0 else pn[i] + 1;
      }
      Incremented(x, pn[..], i);
    }

    method Decrement()
      requires Valid()
      modifies pn
      ensures Valid() && Value() == (old(Value()) + Pow(BASE, pn.Length) - 1) % Pow(BASE, pn.Length)
    {
      hide Val, Pow;
      ghost var x := pn[..];
      var i := 0;
      pn[0] := if pn[0] == 0 then BASE - 1 else pn[0] - 1;
      while pn[i] == BASE - 1 && i < pn.Length - 1
        invariant 0 <= i < pn.Length && Valid()
        invariant forall k :: 0 <= k < i ==> pn[k] == BASE - 1 && x[k] == 0
        invariant pn[i] == (if x[i] == 0 then BASE - 1 else x[i] - 1)
        invariant forall k :: i < k < pn.Length ==> pn[k] == x[k]
        decreases pn.Length - i
      {
        i := i + 1;
        pn[i] := if pn[i] == 0 then BASE - 1 else pn[i] - 1;
      }
      Decremented(x, pn[..], i);
    }

    /** Every bit inverted. */
    method Complement() returns (ret: BaseUint)
      requires Valid()
      ensures ret.Valid() && fresh(ret) && fresh(ret.pn) && ret.pn.Length == pn.Length
      ensures ret.Value() == Pow(BASE, pn.Length) - 1 - Value()
    {
      hide Val, Pow;
      ret := new BaseUint(pn.Length, 0);
      for i := 0 to pn.Length
        invariant ret.Valid() && forall k :: 0 <= k < i ==> ret.pn[k] == BASE - 1 - pn[k]
      {
        ret.pn[i] := BASE - 1 - pn[i];
      }
      Complemented(pn[..], ret.pn[..]);
    }

    method Negate() returns (ret: BaseUint)
      requires Valid()
      ensures ret.Valid() && fresh(ret) && fresh(ret.pn) && ret.pn.Length == pn.Length
      ensures ret.Value() == (Pow(BASE, pn.Length) - Value()) % Pow(BASE, pn.Length)
    {
      hide Val;
      ret := Complement();
      ret.Increment();
    }

    method Subtract(b: BaseUint)
      requires Valid() && b.Valid() && b.pn.Length == pn.Length
      modifies pn
      ensures Valid() && Value() == (old(Value()) + Pow(BASE, pn.Length) - old(b.Value())) % Pow(BASE, pn.Length)
    {
      hide Val, Pow;
      ghost var x, y := Value(), b.Value();
      ValBound(pn[..]);
      ValBound(b.pn[..]);
      var n := b.Negate();
      Add(n);
      Subtracted(x, y, Pow(BASE, pn.Length));
    }

    /** -1, 0 or 1 as the number is less, equal or greater. */
    method CompareTo(b: BaseUint) returns (r: int)
      requires Valid() && b.Valid() && b.pn.Length == pn.Length
      ensures r == if Value() < b.Value() then -1 else if Value() == b.Value() then 0 else 1
      ensures r == 0 ==> pn[..] == b.pn[..]
    {
      hide Val, Pow;
      var i := pn.Length;
      while i > 0
        invariant 0 <= i <= pn.Length && pn[i..] == b.pn[i..]
      {
        i := i - 1;
        if pn[i] < b.pn[i] {
          ValOrder(pn[..], b.pn[..], i);
          return -1;
        }
        if pn[i] > b.pn[i] {
          ValOrder(b.pn[..], pn[..], i);
          return 1;
        }
      }
      assert pn[..] == b.pn[..];
      return 0;
    }

    method MultiplySmall(b32: nat)
      requires Valid() && b32 < BASE
      modifies pn
      ensures Valid() && Value() == old(Value()) * b32 % Pow(BASE, pn.Length)
    {
      hide Val, Pow;
      ghost var x := pn[..];
      var carry: nat := 0;
      EmptyVal(x, x);
      for i := 0 to pn.Length
        invariant Valid() && carry < BASE
        invariant forall k :: i <= k < pn.Length ==> pn[k] == x[k]
        invariant Val(pn[..i]) + carry * Pow(BASE, i) == Val(x[..i]) * b32
      {
        ProductFits(b32, pn[i], carry, 0);
        var n := carry + b32 * pn[i];
        ghost var low := pn[..i];
        pn[i] := n % BASE;
        assert pn[..i] == low;
        MulStep(pn[..], x, i, carry, b32, n);
        carry := n / BASE;
      }
      AllVal(pn[..], x, x);
      Wrapped(Val(pn[..]), carry, pn.Length, Val(x) * b32, pn[..]);
    }

    /** Adds one limb's multiple of another number, from that limb's place on. */
    method AddMultiple(b: BaseUint, a: nat, j: nat)
      requires Valid() && b.Valid() && b.pn.Length == pn.Length && b.pn != pn && a < BASE && j < pn.Length
      modifies pn
      ensures Valid() && Value() == (old(Value()) + a * Pow(BASE, j) * b.Value()) % Pow(BASE, pn.Length)
    {
      hide Val, Pow, Partial;
      ghost var x := pn[..];
      var carry: nat, i: nat := 0, 0;
      PartialStart(x, b.pn[..], a, j);
      while i + j < pn.Length
        invariant i + j <= pn.Length && Valid() && carry < BASE && Partial(x, pn[..], b.pn[..], a, j, i, carry)
      {
        ProductFits(a, b.pn[i], carry, pn[i + j]);
        PartialStep(x, pn[..], b.pn[..], a, j, i, carry);
        var n := carry + pn[i + j] + a * b.pn[i];
        pn[i + j] := n % BASE;
        carry := n / BASE;
        i := i + 1;
      }
      AddedMultiple(x, pn[..], b.pn[..], a, j, carry);
    }

    /**
     Multiplication wraps around, if the operands are different objects. A number multiplied by
     itself in place becomes 0 whatever it was, because it is cleared before it is read as operand.
     */
    method Multiply(b: BaseUint)
      requires Valid() && b.Valid() && b.pn.Length == pn.Length
      modifies pn
      ensures Valid() && Value() == if b.pn == pn then 0 else old(Value()) * b.Value() % Pow(BASE, pn.Length)
    {
      hide Val, Pow;
      var a := new BaseUint.Copy(this);
      Assign(0);
      if b.pn == pn {
        MultiplySelf(a, b);
        return;
      }
      EmptyVal(a.pn[..], a.pn[..]);
      ModZero(pn.Length);
      for j := 0 to pn.Length
        invariant Valid() && a.Valid() && b.Valid() && a.pn[..] == old(pn[..]) && b.pn[..] == old(b.pn[..])
        invariant Value() == Val(a.pn[..j]) * b.Value() % Pow(BASE, pn.Length)
      {
        assert a.pn[..][..j] == a.pn[..j] && a.pn[..][..j + 1] == a.pn[..j + 1];
        AddMultiple(b, a.pn[j], j);
        ProductStep(a.pn[..], j, b.Value(), pn.Length);
      }
      assert a.pn[..pn.Length] == a.pn[..];
    }

    method ShiftLeft(shift: nat)
      requires Valid()
      modifies pn
      ensures Valid() && Value() == old(Value()) * Pow2(shift) % Pow(BASE, pn.Length)
    {
      hide Val, Pow, Pow2, LeftSoFar, Stay, Rest, Or;
      var a := new BaseUint.Copy(this);
      Clear();
      var k, s := shift / 32, shift % 32;
      var p, q := Pow2(s), Pow2(32 - s);
      PowersOf(shift);
      Pow2Zero();
      LeftStart(a.pn[..], pn[..], k, p, q);
      for i := 0 to pn.Length
        invariant a.Valid() && a.pn[..] == old(pn[..]) && LeftSoFar(a.pn[..], pn[..], k, p, q, i)
      {
        ghost var z := pn[..];
        LeftOr(a.pn[..], z, k, s, i);
        if i + k + 1 < pn.Length && s != 0 {
          pn[i + k + 1] := Or(pn[i + k + 1], Rest(a.pn[i], q));
        }
        if i + k < pn.Length {
          pn[i + k] := Or(pn[i + k], Stay(a.pn[i], p));
        }
        LeftStep(a.pn[..], z, pn[..], k, p, q, i, s);
      }
      LeftEnd(a.pn[..], pn[..], k, p, q);
      LeftShift(a.pn[..], pn[..], shift);
    }

    method ShiftRight(shift: nat)
      requires Valid()
      modifies pn
      ensures Valid() && Value() == old(Value()) / Pow2(shift)
    {
      hide Val, Pow, Pow2, RightSoFar, Stay, Rest, Or;
      var a := new BaseUint.Copy(this);
      Clear();
      var k, s := shift / 32, shift % 32;
      var p, q := Pow2(s), Pow2(32 - s);
      PowersOf(shift);
      Pow2Zero();
      RightStart(a.pn[..], pn[..], k, p, q);
      for i := 0 to pn.Length
        invariant a.Valid() && a.pn[..] == old(pn[..]) && RightSoFar(a.pn[..], pn[..], k, p, q, i)
      {
        ghost var z := pn[..];
        RightOr(a.pn[..], z, k, s, i);
        if i - k - 1 >= 0 && s != 0 {
          pn[i - k - 1] := Or(pn[i - k - 1], Stay(a.pn[i], q));
        }
        if i - k >= 0 {
          pn[i - k] := Or(pn[i - k], Rest(a.pn[i], p));
        }
        RightStep(a.pn[..], z, pn[..], k, p, q, i, s);
      }
      RightEnd(a.pn[..], pn[..], k, p, q);
      RightShift(a.pn[..], pn[..], shift);
    }

    method Clear()
      requires Valid()
      modifies pn
      ensures Valid() && forall k :: 0 <= k < pn.Length ==> pn[k] == 0
    {
      for i := 0 to pn.Length
        invariant Valid() && forall k :: 0 <= k < i ==> pn[k] == 0
      {
        pn[i] := 0;
      }
    }

    /** The position of the highest bit set plus one, or zero. */
    method Bits() returns (r: nat)
      requires Valid()
      ensures r <= 32 * pn.Length && Value() < Pow2(r) && (r > 0 ==> Pow2(r - 1) <= Value())
    {
      hide Val, Pow, Pow2, TestBit;
      var pos := pn.Length;
      while pos > 0
        invariant 0 <= pos <= pn.Length && forall k :: pos <= k < pn.Length ==> pn[k] == 0
      {
        pos := pos - 1;
        if pn[pos] != 0 {
          var bits := 31;
          LimbBits(pn[pos]);
          while bits > 0
            invariant 0 <= bits <= 31 && pn[pos] < Pow2(bits + 1)
          {
            TopBit(pn[pos], bits);
            if TestBit(pn[pos], bits) {
              TopLimb(pn[..], pos, bits);
              return 32 * pos + bits + 1;
            }
            bits := bits - 1;
          }
          Pow2Zero();
          TopLimb(pn[..], pos, 0);
          return 32 * pos + 1;
        }
      }
      ValZeroes(pn[..]);
      Pow2Zero();
      return 0;
    }

    /** The divisor goes into the number once more at this bit. */
    method Take(num: BaseUint, div: BaseUint, shift: nat)
      requires Valid() && num.Valid() && div.Valid() && num.pn != pn && div.pn != pn && div.pn != num.pn
      requires div.pn.Length == num.pn.Length == pn.Length && div.Value() <= num.Value()
      requires shift < 32 * pn.Length && Aligned(pn[..], shift + 1)
      modifies pn, num.pn
      ensures Valid() && num.Valid() && Aligned(pn[..], shift)
      ensures num.Value() == old(num.Value()) - div.Value() && Value() == old(Value()) + Pow2(shift)
    {
      hide Val, Pow, Pow2, Aligned, Or;
      ValBound(num.pn[..]);
      Exact(num.Value(), div.Value(), Pow(BASE, pn.Length));
      num.Subtract(div);
      AlignedSet(pn[..], shift);
      AlignedOr(pn[..], shift);
      pn[shift / 32] := Or(pn[shift / 32], Pow2(shift % 32));
    }

    /** Division rounds down; dividing by zero is refused, and leaves 0. */
    method Divide(b: BaseUint) returns (ok: bool)
      requires Valid() && b.Valid() && b.pn.Length == pn.Length
      modifies pn
      ensures Valid() && (ok <==> old(b.Value()) != 0)
      ensures Value() == if ok then old(Value()) / old(b.Value()) else 0
    {
      hide Val, Pow, Pow2, Aligned, Dividing;
      ghost var n, d := Value(), b.Value();
      var div := new BaseUint.Copy(b);
      var num := new BaseUint.Copy(this);
      Clear();
      ValZeroes(pn[..]);
      var numBits := num.Bits();
      var divBits := div.Bits();
      if divBits == 0 {
        Pow2Zero();
        return false;
      }
      if divBits > numBits {
        Pow2Grows(numBits, divBits - 1);
        DivMod(n, d, 0, n);
        return true;
      }
      var shift := numBits - divBits;
      StartDivision(n, d, numBits, divBits, pn.Length);
      div.ShiftLeft(shift);
      AlignedStart(pn[..], shift + 1);
      FindQuotient(num, div, shift, n, d);
      return true;
    }

    /** Finds the bits of the quotient, from the highest one down. */
    method FindQuotient(num: BaseUint, div: BaseUint, top: nat, ghost n: nat, ghost d: nat)
      requires Valid() && num.Valid() && div.Valid() && num.pn != pn && div.pn != pn && div.pn != num.pn
      requires div.pn.Length == num.pn.Length == pn.Length && top < 32 * pn.Length && Aligned(pn[..], top + 1)
      requires Dividing(n, d, Value(), num.Value(), top + 1) && div.Value() == d * Pow2(top) && d > 0
      modifies pn, num.pn, div.pn
      ensures Valid() && Value() == n / d
    {
      hide Val, Pow, Pow2, Aligned, Dividing;
      var shift: int := top;
      while shift >= 0
        invariant Valid() && num.Valid() && div.Valid() && -1 <= shift < 32 * pn.Length
        invariant Dividing(n, d, Value(), num.Value(), shift + 1) && Aligned(pn[..], shift + 1)
        invariant shift >= 0 ==> div.Value() == d * Pow2(shift)
      {
        var c := num.CompareTo(div);
        DivisionStep(n, d, Value(), num.Value(), shift);
        if c >= 0 {
          Take(num, div, shift);
        } else {
          AlignedOn(pn[..], shift);
        }
        div.ShiftRight(1);
        shift := shift - 1;
      }
      DivisionEnd(n, d, Value(), num.Value());
    }
  }

  lemma TwoLimbs(s: seq<nat>, b: nat)
    requires |s| >= 2 && s[0] == b % BASE && s[1] == b / BASE && forall k :: 2 <= k < |s| ==> s[k] == 0
    ensures Val(s) == b
  {
    assert s == s[..2] + s[2..];
    ValConcat(s[..2], s[2..]);
    ValZeroes(s[2..]);
    ValFront(s, 1);
    ValFront(s, 0);
    assert s[..0] == [];
    assert Pow(BASE, 1) == BASE && Pow(BASE, 0) == 1;
  }

  lemma EmptyVal(x: seq<nat>, y: seq<nat>)
    ensures Val(x[..0]) == Val(y[..0]) == 0
  {
  }

  lemma AllVal(z: seq<nat>, x: seq<nat>, y: seq<nat>)
    ensures z[..|z|] == z && x[..|x|] == x && y[..|y|] == y
  {
  }

  lemma AddStep(z: seq<nat>, x: seq<nat>, y: seq<nat>, i: nat, carry: nat, n: nat)
    requires i < |z| == |x| == |y| && n == carry + x[i] + y[i] && z[i] == n % BASE
    requires Val(z[..i]) + carry * Pow(BASE, i) == Val(x[..i]) + Val(y[..i])
    ensures Val(z[..i + 1]) + n / BASE * Pow(BASE, i + 1) == Val(x[..i + 1]) + Val(y[..i + 1])
  {
    hide Val, Pow;
    ValFront(z, i);
    ValFront(x, i);
    ValFront(y, i);
    PowNext(BASE, i);
    var p, q, r := Pow(BASE, i), n / BASE, n % BASE;
    assert n == q * BASE + r;
    MulAssoc(q, BASE, p);
    Distribute(q * BASE, r, p);
    Distribute(carry + x[i], y[i], p);
    Distribute(carry, x[i], p);
  }

  /** What was carried out of the top is lost. */
  lemma Wrapped(v: nat, carry: nat, n: nat, total: nat, s: seq<nat>)
    requires AreLimbs(s) && v == Val(s) && |s| == n && v + carry * Pow(BASE, n) == total
    ensures v == total % Pow(BASE, n)
  {
    hide Val, Pow;
    ValBound(s);
    DivMod(total, Pow(BASE, n), carry, v);
  }

  lemma Subtracted(x: nat, y: nat, m: nat)
    requires y < m && x < m
    ensures (x + (m - y) % m) % m == (x + m - y) % m
  {
    if y == 0 {
      DivMod(m, m, 1, 0);
      DivMod(x + m, m, 1, x);
      DivMod(x, m, 0, x);
    } else {
      DivMod(m - y, m, 0, m - y);
    }
  }

  lemma {:induction false} Complemented(x: seq<nat>, z: seq<nat>)
    requires |x| == |z| && AreLimbs(x) && forall k :: 0 <= k < |x| ==> z[k] == BASE - 1 - x[k]
    ensures Val(x) + Val(z) == Pow(BASE, |x|) - 1
  {
    if x != [] {
      var n := |x| - 1;
      Complemented(x[..n], z[..n]);
      Distribute(x[n], z[n], Pow(BASE, n));
      Distribute(BASE - 1, 1, Pow(BASE, n));
    }
  }

  lemma ValParts(s: seq<nat>, i: nat)
    requires i < |s|
    ensures Val(s) == Val(s[..i]) + s[i] * Pow(BASE, i) + Pow(BASE, i + 1) * Val(s[i + 1..])
  {
    hide Val, Pow;
    assert s == s[..i + 1] + s[i + 1..];
    ValConcat(s[..i + 1], s[i + 1..]);
    ValFront(s, i);
  }

  lemma ValOnes(s: seq<nat>)
    requires forall k :: 0 <= k < |s| ==> s[k] == BASE - 1
    ensures Val(s) == Pow(BASE, |s|) - 1
  {
    var zeroes := seq(|s|, _ => 0);
    ValZeroes(zeroes);
    Complemented(zeroes, s);
  }

  lemma Incremented(x: seq<nat>, z: seq<nat>, i: nat)
    requires i < |x| == |z| && AreLimbs(x) && AreLimbs(z)
    requires (forall k :: 0 <= k < i ==> z[k] == 0 && x[k] == BASE - 1) && x[i + 1..] == z[i + 1..]
    requires if x[i] == BASE - 1 then z[i] == 0 && i == |x| - 1 else z[i] == x[i] + 1
    ensures Val(z) == (Val(x) + 1) % Pow(BASE, |x|)
  {
    hide Val, Pow;
    ValOnes(x[..i]);
    ValZeroes(z[..i]);
    ValParts(x, i);
    ValParts(z, i);
    ValBound(z);
    if x[i] == BASE - 1 {
      ValZeroes(z);
      ValOnes(x);
      DivMod(Pow(BASE, |x|), Pow(BASE, |x|), 1, 0);
    } else {
      Distribute(x[i], 1, Pow(BASE, i));
      DivMod(Val(z), Pow(BASE, |x|), 0, Val(z));
    }
  }

  lemma Decremented(x: seq<nat>, z: seq<nat>, i: nat)
    requires i < |x| == |z| && AreLimbs(x) && AreLimbs(z)
    requires (forall k :: 0 <= k < i ==> z[k] == BASE - 1 && x[k] == 0) && x[i + 1..] == z[i + 1..]
    requires if x[i] == 0 then z[i] == BASE - 1 && i == |x| - 1 else z[i] == x[i] - 1
    ensures Val(z) == (Val(x) + Pow(BASE, |x|) - 1) % Pow(BASE, |x|)
  {
    hide Val, Pow;
    ValZeroes(x[..i]);
    ValOnes(z[..i]);
    ValParts(x, i);
    ValParts(z, i);
    ValBound(z);
    if x[i] == 0 {
      ValZeroes(x);
      ValOnes(z);
      DivMod(Pow(BASE, |x|) - 1, Pow(BASE, |x|), 0, Pow(BASE, |x|) - 1);
    } else {
      Distribute(z[i], 1, Pow(BASE, i));
      DivMod(Val(z) + Pow(BASE, |x|), Pow(BASE, |x|), 1, Val(z));
    }
  }

  /** The machine's 64 bits are enough. */
  lemma ProductFits(a: nat, b: nat, carry: nat, c: nat)
    requires a < BASE && b < BASE && carry < BASE && c < BASE
    ensures carry + c + a * b < BASE * BASE && (carry + c + a * b) / BASE < BASE
  {
    MulMono(a, BASE - 1, b);
    var n := carry + c + a * b;
    assert n < BASE * BASE;
  }

  lemma MulStep(z: seq<nat>, x: seq<nat>, i: nat, carry: nat, b: nat, n: nat)
    requires i < |z| == |x| && n == carry + b * x[i] && z[i] == n % BASE
    requires Val(z[..i]) + carry * Pow(BASE, i) == Val(x[..i]) * b
    ensures Val(z[..i + 1]) + n / BASE * Pow(BASE, i + 1) == Val(x[..i + 1]) * b
  {
    hide Val, Pow;
    ValFront(z, i);
    ValFront(x, i);
    PowNext(BASE, i);
    var p, q, r := Pow(BASE, i), n / BASE, n % BASE;
    assert n == q * BASE + r;
    MulAssoc(q, BASE, p);
    Distribute(q * BASE, r, p);
    Distribute(carry, b * x[i], p);
    Distribute(Val(x[..i]), x[i] * p, b);
    MulAssoc(b, x[i], p);
    assert b * (x[i] * p) == (x[i] * p) * b;
  }

  /** `i` limbs of a multiple have been added from limb `j` on. */
  ghost predicate Partial(x: seq<nat>, z: seq<nat>, b: seq<nat>, a: nat, j: nat, i: nat, carry: nat)
    requires |x| == |z| == |b| && i + j <= |x|
  {
    && (forall k :: 0 <= k < j || i + j <= k < |x| ==> z[k] == x[k])
    && Val(z[j..j + i]) + carry * Pow(BASE, i) == Val(x[j..j + i]) + a * Val(b[..i])
  }

  lemma PartialStart(x: seq<nat>, b: seq<nat>, a: nat, j: nat)
    requires |x| == |b| && j <= |x|
    ensures Partial(x, x, b, a, j, 0, 0)
  {
  }

  lemma PartialStep(x: seq<nat>, z: seq<nat>, b: seq<nat>, a: nat, j: nat, i: nat, carry: nat)
    requires |x| == |z| == |b| && i + j < |x| && Partial(x, z, b, a, j, i, carry)
    ensures var n := carry + z[i + j] + a * b[i];
            Partial(x, z[i + j := n % BASE], b, a, j, i + 1, n / BASE)
  {
    hide Val, Pow;
    var n := carry + z[i + j] + a * b[i];
    var z' := z[i + j := n % BASE];
    assert z'[j..][..i] == z[j..j + i] && x[j..][..i] == x[j..j + i];
    AddMulStep(z'[j..], x[j..], b, i, carry, a, n);
    assert z'[j..][..i + 1] == z'[j..j + i + 1] && x[j..][..i + 1] == x[j..j + i + 1];
  }

  lemma AddMulStep(z: seq<nat>, x: seq<nat>, b: seq<nat>, i: nat, carry: nat, a: nat, n: nat)
    requires i < |z| == |x| && i < |b| && n == carry + x[i] + a * b[i] && z[i] == n % BASE
    requires Val(z[..i]) + carry * Pow(BASE, i) == Val(x[..i]) + a * Val(b[..i])
    ensures Val(z[..i + 1]) + n / BASE * Pow(BASE, i + 1) == Val(x[..i + 1]) + a * Val(b[..i + 1])
  {
    hide Val, Pow;
    ValFront(z, i);
    ValFront(x, i);
    ValFront(b, i);
    PowNext(BASE, i);
    var p, q, r := Pow(BASE, i), n / BASE, n % BASE;
    assert n == q * BASE + r;
    MulAssoc(q, BASE, p);
    Distribute(q * BASE, r, p);
    Distribute(carry + x[i], a * b[i], p);
    Distribute(carry, x[i], p);
    Distribute(Val(b[..i]), b[i] * p, a);
    MulAssoc(a, b[i], p);
    assert a * Val(b[..i + 1]) == Val(b[..i + 1]) * a && a * Val(b[..i]) == Val(b[..i]) * a;
    assert a * (b[i] * p) == (b[i] * p) * a;
  }

  /** Adding a multiple of the modulus changes nothing. */
  lemma ModAdd(x: nat, k: nat, m: nat)
    requires m > 0
    ensures (x + k * m) % m == x % m
  {
    DivModOf(x, m);
    Distribute(x / m, k, m);
    DivMod(x + k * m, m, x / m + k, x % m);
  }

  lemma ModOf(x: nat, y: nat, m: nat)
    requires m > 0
    ensures (x % m + y) % m == (x + y) % m
  {
    DivModOf(x, m);
    ModAdd(x % m + y, x / m, m);
  }

  lemma ModZero(n: nat)
    ensures 0 * 0 % Pow(BASE, n) == 0 && forall v :: 0 * v % Pow(BASE, n) == 0
  {
    DivMod(0, Pow(BASE, n), 0, 0);
  }

  lemma AddedMultiple(x: seq<nat>, z: seq<nat>, b: seq<nat>, a: nat, j: nat, carry: nat)
    requires |x| == |z| == |b| && j < |x| && AreLimbs(z) && Partial(x, z, b, a, j, |x| - j, carry)
    ensures Val(z) == (Val(x) + a * Pow(BASE, j) * Val(b)) % Pow(BASE, |x|)
  {
    hide Val, Pow;
    var i := |x| - j;
    assert z[..j] == x[..j] && z[j..] == z[j..j + i] && x[j..] == x[j..j + i];
    WholeMultiple(x, z, b, a, j, carry);
  }

  lemma WholeMultiple(x: seq<nat>, z: seq<nat>, b: seq<nat>, a: nat, j: nat, carry: nat)
    requires |x| == |z| == |b| && j < |x| && AreLimbs(z) && z[..j] == x[..j]
    requires var i := |x| - j; Val(z[j..]) + carry * Pow(BASE, i) == Val(x[j..]) + a * Val(b[..i])
    ensures Val(z) == (Val(x) + a * Pow(BASE, j) * Val(b)) % Pow(BASE, |x|)
  {
    hide Val, Pow;
    var i, w, p := |x| - j, |x|, Pow(BASE, j);
    assert x == x[..j] + x[j..] && z == z[..j] + z[j..] && b == b[..i] + b[i..];
    ValConcat(x[..j], x[j..]);
    ValConcat(z[..j], z[j..]);
    ValConcat(b[..i], b[i..]);
    PowAdd(BASE, j, i);
    var total := Val(x) + a * p * Val(b);
    var over := a * Val(b[i..]);
    MultipleArith(Val(z[j..]), carry, Pow(BASE, i), Val(x[j..]), a, Val(b[..i]), Val(b[i..]), p);
    assert Val(z) + (carry + over) * (p * Pow(BASE, i)) == total;
    ValBound(z);
    DivMod(total, Pow(BASE, w), carry + over, Val(z));
  }

  lemma MultipleArith(z: nat, carry: nat, q: nat, x: nat, a: nat, b0: nat, b1: nat, p: nat)
    requires z + carry * q == x + a * b0
    ensures p * z + (carry + a * b1) * (p * q) == p * x + a * p * (b0 + q * b1)
  {
    assert p * (z + carry * q) == p * z + p * (carry * q);
    assert p * (x + a * b0) == p * x + p * (a * b0);
    assert p * (carry * q) == carry * (p * q);
    assert p * (a * b0) == a * p * b0;
    Distribute(carry, a * b1, p * q);
    assert (a * b1) * (p * q) == a * p * (q * b1) by {
      MulAssoc(a, p, q * b1);
      MulAssoc(p, q, b1);
      MulAssoc(a, b1, p * q);
      assert b1 * (p * q) == (p * q) * b1;
    }
    assert a * p * (b0 + q * b1) == a * p * b0 + a * p * (q * b1);
  }

  lemma ProductStep(a: seq<nat>, j: nat, v: nat, w: nat)
    requires j < |a|
    ensures (Val(a[..j]) * v % Pow(BASE, w) + a[j] * Pow(BASE, j) * v) % Pow(BASE, w) ==
              Val(a[..j + 1]) * v % Pow(BASE, w)
  {
    hide Val, Pow;
    ValFront(a, j);
    Distribute(Val(a[..j]), a[j] * Pow(BASE, j), v);
    ModOf(Val(a[..j]) * v, a[j] * Pow(BASE, j) * v, Pow(BASE, w));
  }

  /** Every partial product is 0. */
  method MultiplySelf(a: BaseUint, b: BaseUint)
    requires a.Valid() && b.Valid() && b.pn.Length == a.pn.Length && b.pn != a.pn && b.Value() == 0
    modifies b.pn
    ensures b.Valid() && b.Value() == 0
  {
    hide Val, Pow;
    AllZero(b.pn[..]);
    for j := 0 to b.pn.Length
      invariant forall k :: 0 <= k < b.pn.Length ==> b.pn[k] == 0
    {
      var carry: nat, i: nat := 0, 0;
      while i + j < b.pn.Length
        invariant carry == 0 && forall k :: 0 <= k < b.pn.Length ==> b.pn[k] == 0
      {
        var n := carry + b.pn[i + j] + a.pn[j] * b.pn[i];
        b.pn[i + j] := n % BASE;
        carry := n / BASE;
        i := i + 1;
      }
    }
    ValZeroes(b.pn[..]);
  }

  lemma {:induction false} AllZero(s: seq<nat>)
    requires Val(s) == 0
    ensures forall k :: 0 <= k < |s| ==> s[k] == 0
  {
    if s != [] {
      var n := |s| - 1;
      if s[n] > 0 {
        MulMono(1, s[n], Pow(BASE, n));
      }
      AllZero(s[..n]);
      assert forall k :: 0 <= k < n ==> s[k] == s[..n][k];
    }
  }

  // Shifts, limb by limb

  /** The limbs that are complete, the one that has its low bits only, and those that are still 0. */
  ghost predicate LeftSoFar(a: seq<nat>, z: seq<nat>, k: nat, p: nat, q: nat, i: nat)
    requires p > 0 && q > 0
  {
    |z| == |a| && forall m :: 0 <= m < |z| ==>
      z[m] == if m < i + k then Left(a, k, p, q, m) else if m == i + k then At(a, m - k - 1) / q else 0
  }

  lemma LeftStart(a: seq<nat>, z: seq<nat>, k: nat, p: nat, q: nat)
    requires p > 0 && q > 0 && |z| == |a| && forall m :: 0 <= m < |z| ==> z[m] == 0
    ensures LeftSoFar(a, z, k, p, q, 0)
  {
    DivMod(0, q, 0, 0);
    DivMod(0, BASE, 0, 0);
  }

  lemma LeftStep(a: seq<nat>, z: seq<nat>, z': seq<nat>, k: nat, p: nat, q: nat, i: nat, s: nat)
    requires p > 0 && q > 0 && p * q == BASE && i < |a| && a[i] < BASE && LeftSoFar(a, z, k, p, q, i) &&
               (s == 0 ==> p == 1)
    requires var y := if i + k + 1 < |z| && s != 0 then z[i + k + 1 := z[i + k + 1] + Rest(a[i], q)] else z;
             z' == if i + k < |z| then y[i + k := y[i + k] + Stay(a[i], p)] else y
    ensures LeftSoFar(a, z', k, p, q, i + 1)
  {
    if s == 0 {
      DivMod(a[i], q, 0, a[i]);
    }
    forall m | 0 <= m < |z'|
      ensures z'[m] == if m < i + 1 + k then Left(a, k, p, q, m) else if m == i + 1 + k then At(a, m - k - 1) / q else 0
    {
    }
  }

  /** Nothing is lost by or-ing instead of adding. */
  lemma LeftOr(a: seq<nat>, z: seq<nat>, k: nat, s: nat, i: nat)
    requires s < 32 && i < |a| && AreLimbs(a) && LeftSoFar(a, z, k, Pow2(s), Pow2(32 - s), i)
    ensures i + k + 1 < |z| ==> Or(z[i + k + 1], Rest(a[i], Pow2(32 - s))) == z[i + k + 1] + Rest(a[i], Pow2(32 - s))
    ensures i + k < |z| ==> Or(z[i + k], Stay(a[i], Pow2(s))) == z[i + k] + Stay(a[i], Pow2(s))
  {
    hide Pow2, Or, Left;
    Pow2Zero();
    if i + k + 1 < |z| {
      OrNothing(Rest(a[i], Pow2(32 - s)));
    }
    if i + k < |z| {
      NoCommonBits(a[i], At(a, i - 1), s);
    }
  }

  lemma OrNothing(y: nat)
    ensures Or(0, y) == y
  {
    hide Pow2, Or;
    Pow2Zero();
    OrIsSum(y, 0, 0);
  }

  lemma LeftEnd(a: seq<nat>, z: seq<nat>, k: nat, p: nat, q: nat)
    requires p > 0 && q > 0 && LeftSoFar(a, z, k, p, q, |a|)
    ensures |z| == |a| && forall m :: 0 <= m < |z| ==> z[m] == Left(a, k, p, q, m)
  {
  }

  ghost predicate RightSoFar(a: seq<nat>, z: seq<nat>, k: nat, p: nat, q: nat, i: nat)
    requires p > 0 && q > 0
  {
    |z| == |a| && forall m :: 0 <= m < |z| ==>
      z[m] == if m + k + 1 < i then Right(a, k, p, q, m) else if m + k + 1 == i then At(a, m + k) / p else 0
  }

  lemma RightStart(a: seq<nat>, z: seq<nat>, k: nat, p: nat, q: nat)
    requires p > 0 && q > 0 && |z| == |a| && forall m :: 0 <= m < |z| ==> z[m] == 0
    ensures RightSoFar(a, z, k, p, q, 0)
  {
  }

  lemma RightStep(a: seq<nat>, z: seq<nat>, z': seq<nat>, k: nat, p: nat, q: nat, i: nat, s: nat)
    requires p > 0 && q > 0 && p * q == BASE && i < |a| && a[i] < BASE && RightSoFar(a, z, k, p, q, i) &&
               (s == 0 ==> p == 1)
    requires var y := if i - k - 1 >= 0 && s != 0 then z[i - k - 1 := z[i - k - 1] + Stay(a[i], q)] else z;
             z' == if i - k >= 0 then y[i - k := y[i - k] + Rest(a[i], p)] else y
    ensures RightSoFar(a, z', k, p, q, i + 1)
  {
    if s == 0 {
      DivMod(a[i] * BASE, BASE, a[i], 0);
    }
    forall m | 0 <= m < |z'|
      ensures z'[m] == if m + k + 1 < i + 1 then Right(a, k, p, q, m) else if m + k + 1 == i + 1 then At(a, m + k) / p
                else 0
    {
    }
  }

  lemma RightOr(a: seq<nat>, z: seq<nat>, k: nat, s: nat, i: nat)
    requires s < 32 && i < |a| && AreLimbs(a) && RightSoFar(a, z, k, Pow2(s), Pow2(32 - s), i)
    ensures 0 <= i - k - 1 < |z| ==>
              Or(z[i - k - 1], Stay(a[i], Pow2(32 - s))) == z[i - k - 1] + Stay(a[i], Pow2(32 - s))
    ensures 0 <= i - k < |z| ==> Or(z[i - k], Rest(a[i], Pow2(s))) == z[i - k] + Rest(a[i], Pow2(s))
  {
    hide Pow2, Or, Right;
    if i - k - 1 >= 0 {
      NoCommonBits(a[i], At(a, i - 1), 32 - s);
    }
    if i - k >= 0 {
      OrNothing(Rest(a[i], Pow2(s)));
    }
  }

  lemma RightEnd(a: seq<nat>, z: seq<nat>, k: nat, p: nat, q: nat)
    requires p > 0 && q > 0 && RightSoFar(a, z, k, p, q, |a|)
    ensures |z| == |a| && forall m :: 0 <= m < |z| ==> z[m] == Right(a, k, p, q, m)
  {
    DivMod(0, p, 0, 0);
    DivMod(0, BASE, 0, 0);
  }

  // Bits

  lemma TopBit(x: nat, b: nat)
    requires x < Pow2(b + 1)
    ensures TestBit(x, b) <==> x >= Pow2(b)
  {
    hide Pow2;
    Pow2Next(b);
    if x >= Pow2(b) {
      DivMod(x, Pow2(b), 1, x - Pow2(b));
    } else {
      DivMod(x, Pow2(b), 0, x);
    }
  }

  lemma LimbBits(x: nat)
    requires x < BASE
    ensures x < Pow2(32)
  {
    Pow2Is32();
  }

  lemma TopLimb(s: seq<nat>, pos: nat, b: nat)
    requires pos < |s| && AreLimbs(s) && (forall k :: pos < k < |s| ==> s[k] == 0) && Pow2(b) <= s[pos] < Pow2(b + 1)
    ensures Pow2(32 * pos + b) <= Val(s) < Pow2(32 * pos + b + 1)
  {
    hide Val, Pow, Pow2;
    ValParts(s, pos);
    ValZeroes(s[pos + 1..]);
    assert Pow(BASE, pos + 1) * 0 == 0;
    ValBound(s[..pos]);
    PowIsPow2(pos);
    Pow2Add(32 * pos, b);
    Pow2Add(32 * pos, b + 1);
    TopArith(Val(s[..pos]), s[pos], Pow(BASE, pos), Pow2(b), Pow2(b + 1));
  }

  lemma TopArith(low: nat, x: nat, p: nat, from: nat, to: nat)
    requires low < p && from <= x < to
    ensures p * from <= low + x * p < p * to
  {
    MulMono(from, x, p);
    MulMono(x + 1, to, p);
    Distribute(x, 1, p);
    assert from * p == p * from && to * p == p * to;
  }

  // Division

  /** What is left to divide is less than the divisor times a power of two. */
  ghost predicate Dividing(n: nat, d: nat, quot: nat, num: nat, s: nat) {
    n == quot * d + num && num < d * Pow2(s)
  }

  lemma StartDivision(n: nat, d: nat, nb: nat, db: nat, w: nat)
    requires n < Pow2(nb) && 0 < db <= nb <= 32 * w && Pow2(db - 1) <= d < Pow2(db)
    ensures d > 0 && Dividing(n, d, 0, n, nb - db + 1) && d * Pow2(nb - db) % Pow(BASE, w) == d * Pow2(nb - db)
  {
    hide Pow, Pow2;
    Pow2Add(db - 1, nb - db + 1);
    MulMono(Pow2(db - 1), d, Pow2(nb - db + 1));
    Pow2Add(db, nb - db);
    MulMono(d + 1, Pow2(db), Pow2(nb - db));
    Distribute(d, 1, Pow2(nb - db));
    PowIsPow2(w);
    Pow2Grows(nb, 32 * w);
    DivMod(d * Pow2(nb - db), Pow(BASE, w), 0, d * Pow2(nb - db));
  }

  /** Taking the shifted divisor off, or not, leaves less than it; halving it is exact. */
  lemma DivisionStep(n: nat, d: nat, quot: nat, num: nat, shift: nat)
    requires Dividing(n, d, quot, num, shift + 1)
    ensures if num >= d * Pow2(shift) then Dividing(n, d, quot + Pow2(shift), num - d * Pow2(shift), shift)
            else Dividing(n, d, quot, num, shift)
    ensures shift > 0 ==> d * Pow2(shift) / Pow2(1) == d * Pow2(shift - 1)
  {
    hide Pow2;
    Pow2Next(shift);
    assert d * (2 * Pow2(shift)) == 2 * (d * Pow2(shift));
    Distribute(quot, Pow2(shift), d);
    Pow2Next(0);
    Pow2Zero();
    if shift > 0 {
      Pow2Next(shift - 1);
      assert d * (2 * Pow2(shift - 1)) == (d * Pow2(shift - 1)) * 2;
      DivMod(d * Pow2(shift), 2, d * Pow2(shift - 1), 0);
    }
  }

  lemma DivisionEnd(n: nat, d: nat, quot: nat, num: nat)
    requires Dividing(n, d, quot, num, 0)
    ensures d > 0 && quot == n / d
  {
    DivMod(n, d, quot, num);
  }

  lemma Exact(x: nat, y: nat, m: nat)
    requires y <= x < m
    ensures (x + m - y) % m == x - y
  {
    DivMod(x + m - y, m, 1, x - y);
  }

  /** No bit below `s` is set, in limb `k` and in all limbs. */
  ghost predicate AlignedLimb(x: nat, k: nat, s: nat) {
    if 32 * k + 32 <= s then x == 0 else 32 * k < s ==> x % Pow2(s - 32 * k) == 0
  }

  ghost predicate Aligned(z: seq<nat>, s: nat) {
    forall k :: 0 <= k < |z| ==> AlignedLimb(z[k], k, s)
  }

  lemma AlignedStart(z: seq<nat>, s: nat)
    requires forall k :: 0 <= k < |z| ==> z[k] == 0
    ensures Aligned(z, s)
  {
    hide Pow2;
    forall k | 0 <= k < |z| ensures AlignedLimb(z[k], k, s) {
      if 32 * k < s {
        DivMod(0, Pow2(s - 32 * k), 0, 0);
      }
    }
  }

  lemma AlignedOn(z: seq<nat>, s: nat)
    requires Aligned(z, s + 1)
    ensures Aligned(z, s)
  {
    hide AlignedLimb;
    forall k | 0 <= k < |z| ensures AlignedLimb(z[k], k, s) { AlignedLimbOn(z[k], k, s); }
  }

  lemma AlignedLimbOn(x: nat, k: nat, s: nat)
    requires AlignedLimb(x, k, s + 1)
    ensures AlignedLimb(x, k, s)
  {
    hide Pow2;
    if 32 * k < s < 32 * k + 32 {
      if s + 1 == 32 * k + 32 {
        DivMod(0, Pow2(s - 32 * k), 0, 0);
      } else {
        Pow2Next(s - 32 * k);
        Finer(x, Pow2(s - 32 * k));
      }
    }
  }

  lemma Finer(x: nat, p: nat)
    requires p > 0 && x % (2 * p) == 0
    ensures x % p == 0
  {
    var q := x / (2 * p);
    DivModOf(x, 2 * p);
    assert q * (2 * p) == 2 * q * p;
    DivMod(x, p, 2 * q, 0);
  }

  /** Setting the next lower bit. */
  lemma AlignedSet(z: seq<nat>, s: nat)
    requires AreLimbs(z) && s < 32 * |z| && Aligned(z, s + 1)
    ensures var y := z[s / 32 := z[s / 32] + Pow2(s % 32)];
            AreLimbs(y) && Aligned(y, s) && Val(y) == Val(z) + Pow2(s)
  {
    hide Val, Pow, Pow2, AlignedLimb;
    var i, b := s / 32, s % 32;
    var p := Pow2(b);
    var y := z[i := z[i] + p];
    PowersOf(s);
    ValUpdate(z, i, z[i] + p);
    assert p * Pow(BASE, i) == Pow(BASE, i) * p;
    SetLimb(z[i], i, b);
    forall k | 0 <= k < |y| ensures AlignedLimb(y[k], k, s) {
      if k != i {
        AlignedLimbOn(z[k], k, s);
      }
    }
  }

  /** The bit to be set is not set yet. */
  lemma AlignedOr(z: seq<nat>, s: nat)
    requires s < 32 * |z| && Aligned(z, s + 1)
    ensures Or(z[s / 32], Pow2(s % 32)) == z[s / 32] + Pow2(s % 32)
  {
    hide Pow2, Or;
    var i, b := s / 32, s % 32;
    assert AlignedLimb(z[i], i, s + 1);
    Pow2Next(b);
    if b == 31 {
      DivMod(0, Pow2(b + 1), 0, 0);
    }
    OrIsSum(z[i], Pow2(b), b + 1);
  }

  lemma SetLimb(x: nat, i: nat, b: nat)
    requires x < BASE && b < 32 && AlignedLimb(x, i, 32 * i + b + 1)
    ensures x + Pow2(b) < BASE && AlignedLimb(x + Pow2(b), i, 32 * i + b)
  {
    hide Pow2;
    var p := Pow2(b);
    Pow2Next(b);
    Pow2Is32();
    if b == 31 {
      DivMod(p, p, 1, 0);
    } else {
      assert x % (2 * p) == 0;
      Pow2Add(b + 1, 31 - b);
      NextMultiple(x, 2 * p, Pow2(31 - b));
      Finer(x, p);
      DivModOf(x, p);
      Distribute(x / p, 1, p);
      DivMod(x + p, p, x / p + 1, 0);
    }
  }

  lemma NextMultiple(x: nat, p: nat, r: nat)
    requires p > 0 && x % p == 0 && x < p * r
    ensures x + p <= p * r
  {
    var q := x / p;
    DivModOf(x, p);
    if q >= r {
      MulMono(r, q, p);
    } else {
      MulMono(q + 1, r, p);
      Distribute(q, 1, p);
    }
  }
}
