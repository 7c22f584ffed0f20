/** Compact targets (src/arith_uint256.cpp) and the work a block stands for (src/chain.cpp). */
module Work {
  import opened Limbs
  import opened Numbers
  import opened Arith

  const WIDTH := 8

  function Size(nCompact: nat): nat { nCompact / 0x100_0000 }

  function Word(nCompact: nat): nat { nCompact % 0x80_0000 }

  function IsSigned(nCompact: nat): bool { nCompact / 0x80_0000 % 2 == 1 }

  /** The number a compact target stands for, of any size. */
  function Target(nCompact: nat): (t: nat) {
    if Size(nCompact) <= 3 then
      DivModOf(Word(nCompact), Pow2(8 * (3 - Size(nCompact))));
      Word(nCompact) / Pow2(8 * (3 - Size(nCompact)))
    else Word(nCompact) * Pow2(8 * (Size(nCompact) - 3))
  }

  lemma Pow2Values()
    ensures Pow2(8) == 256 && Pow2(16) == 65536 && Pow2(23) == 8388608 && Pow2(24) == 16777216
  {
    assert Pow2(8) == 256;
    Pow2Add(8, 8);
    Pow2Add(16, 8);
    Pow2Add(1, 23);
    assert Pow2(1) == 2;
  }

  /** Some compact targets: the size in bytes, and the first three of them. */
  lemma KnownTargets()
    ensures Target(0x01123456) == 0x12 && Target(0x02123456) == 0x1234 && Target(0x03123456) == 0x123456
    ensures Target(0x04123456) == 0x12345600 && Target(0x05009234) == 0x92340000
    ensures Target(0x01fedcba) == 0x7e && IsSigned(0x01fedcba) && !IsSigned(0x01123456)
  {
    Pow2Values();
    assert Pow2(0) == 1;
  }

  /** The overflow test is exact. */
  lemma OverflowIsExact(w: nat, size: nat)
    requires size > 3 && w < 0x80_0000
    ensures w * Pow2(8 * (size - 3)) >= Pow2(256) <==>
            w != 0 && (size > 34 || (w > 0xff && size > 33) || (w > 0xffff && size > 32))
  {
    hide Pow2;
    Pow2Values();
    var e := 8 * (size - 3);
    var p := Pow2(e);
    if w == 0 {
      assert w * p == 0;
    } else if size > 34 {
      Pow2Grows(256, e);
      MulMono(1, w, p);
    } else if size == 34 {
      Threshold(w, 248, 8);
    } else if size == 33 {
      Threshold(w, 240, 16);
    } else {
      Pow2Grows(e, 232);
      MulMono(p, Pow2(232), w);
      Threshold(w, 232, 24);
      assert w * p == p * w && w * Pow2(232) == Pow2(232) * w;
    }
  }

  lemma Threshold(w: nat, e: nat, d: nat)
    requires e + d == 256
    ensures w * Pow2(e) >= Pow2(256) <==> w >= Pow2(d)
  {
    hide Pow2;
    Pow2Add(d, e);
    if w >= Pow2(d) {
      MulMono(Pow2(d), w, Pow2(e));
    } else {
      MulMono(w + 1, Pow2(d), Pow2(e));
      Distribute(w, 1, Pow2(e));
    }
  }

  lemma PowIs256()
    ensures Pow(BASE, WIDTH) == Pow2(256)
  {
    PowIsPow2(WIDTH);
  }

  lemma SmallTarget(w: nat, k: nat)
    requires w < 0x80_0000
    ensures 0 <= w / Pow2(k) <= w
  {
    DivModOf(w, Pow2(k));
    MulMono(1, Pow2(k), w / Pow2(k));
    assert w / Pow2(k) * Pow2(k) == Pow2(k) * (w / Pow2(k));
  }

  /** Small numbers are far below the limit. */
  lemma Below(w: nat)
    requires w < 0x80_0000
    ensures w < Pow2(256) && w % Pow2(256) == w
  {
    hide Pow2;
    Pow2Values();
    Pow2Grows(24, 256);
    DivMod(w, Pow2(256), 0, w);
  }

  method SetCompact(nCompact: nat) returns (r: BaseUint, fNegative: bool, fOverflow: bool)
    requires nCompact < BASE
    ensures r.Valid() && r.pn.Length == WIDTH && fresh(r) && fresh(r.pn)
    ensures r.Value() == Target(nCompact) % Pow2(256)
    ensures fOverflow <==> Target(nCompact) >= Pow2(256)
    ensures fNegative <==> Target(nCompact) != 0 && IsSigned(nCompact)
  {
    hide Pow2, Pow, Val;
    var nSize, nWord := Size(nCompact), Word(nCompact);
    PowIs256();
    if nSize <= 3 {
      SmallTarget(nWord, 8 * (3 - nSize));
      nWord := nWord / Pow2(8 * (3 - nSize));
      Below(nWord);
      r := new BaseUint(WIDTH, nWord);
    } else {
      OverflowIsExact(nWord, nSize);
      NonZero(nWord, 8 * (nSize - 3));
      r := new BaseUint(WIDTH, nWord);
      r.ShiftLeft(8 * (nSize - 3));
    }
    fNegative := nWord != 0 && IsSigned(nCompact);
    fOverflow := nWord != 0 && (nSize > 34 || (nWord > 0xff && nSize > 33) || (nWord > 0xffff && nSize > 32));
  }

  lemma NonZero(w: nat, k: nat)
    ensures w * Pow2(k) == 0 <==> w == 0
  {
    if w > 0 {
      MulMono(1, w, Pow2(k));
    }
  }

  /** A target that is accepted is not the largest number, so that adding one does not wrap. */
  lemma NotLargest(nCompact: nat)
    requires nCompact < BASE && Target(nCompact) < Pow2(256)
    ensures Target(nCompact) + 1 < Pow2(256)
  {
    hide Pow2;
    Pow2Values();
    var size, w := Size(nCompact), Word(nCompact);
    if size <= 3 {
      SmallTarget(w, 8 * (3 - size));
      Pow2Grows(24, 256);
    } else {
      Pow2Add(8, 8 * (size - 3) - 8);
      Pow2Add(8, 248);
      MulAssoc(w, 256, Pow2(8 * (size - 3) - 8));
      assert w * 256 * Pow2(8 * (size - 3) - 8) == 256 * (w * Pow2(8 * (size - 3) - 8));
    }
  }

  /** The quotient that does fit stands for the one that does not. */
  lemma ProofArith(t: nat, m: nat)
    requires t + 1 < m
    ensures (m - 1 - t) / (t + 1) + 1 == m / (t + 1)
  {
    var d := t + 1;
    var q, r := (m - d) / d, (m - d) % d;
    DivModOf(m - d, d);
    Distribute(q, 1, d);
    DivMod(m, d, q + 1, r);
  }

  lemma QuotientFits(m: nat, d: nat)
    requires d > 1 && m > 1
    ensures 0 <= m / d < m && m % m == 0
  {
    DivModOf(m, d);
    MulMono(2, d, m / d);
    assert m / d * d == d * (m / d);
    DivMod(m, m, 1, 0);
  }

  /** One more than the complement divided by the next number. */
  method Expected(bnTarget: BaseUint) returns (proof: BaseUint)
    requires bnTarget.Valid() && bnTarget.pn.Length == WIDTH && 0 < bnTarget.Value() && bnTarget.Value() + 1 < Pow2(256)
    ensures proof.Valid() && proof.pn.Length == WIDTH && proof.Value() == Pow2(256) / (bnTarget.Value() + 1)
  {
    hide Pow2, Pow, Val;
    ghost var t, m := bnTarget.Value(), Pow2(256);
    PowIs256();
    ProofArith(t, m);
    QuotientFits(m, t + 1);
    DivMod(t + 1, m, 0, t + 1);
    DivMod(m / (t + 1), m, 0, m / (t + 1));
    var one := new BaseUint(WIDTH, 1);
    proof := bnTarget.Complement();
    var next := new BaseUint.Copy(bnTarget);
    next.Add(one);
    var _ := proof.Divide(next);
    proof.Add(one);
  }

  /** The work of a block: the number of hashes expected to be needed for its target. */
  method GetBlockProof(nBits: nat) returns (proof: BaseUint)
    requires nBits < BASE
    ensures proof.Valid() && proof.pn.Length == WIDTH
    ensures proof.Value() == if Target(nBits) == 0 || Target(nBits) >= Pow2(256) || IsSigned(nBits) then 0
                             else Pow2(256) / (Target(nBits) + 1)
  {
    hide Pow2, Pow, Val, Target;
    PowIs256();
    var bnTarget, fNegative, fOverflow := SetCompact(nBits);
    var zero := new BaseUint(WIDTH, 0);
    ghost var t := Target(nBits);
    if fNegative || fOverflow {
      return zero;
    }
    DivMod(t, Pow2(256), 0, t);
    var c := bnTarget.CompareTo(zero);
    if c == 0 {
      return zero;
    }
    NotLargest(nBits);
    proof := Expected(bnTarget);
  }

  // The compact form of a number

  /** The number of bytes that a number takes. */
  function Bytes(x: nat): nat { if x == 0 then 0 else 1 + Bytes(x / 256) }

  /** The number of bytes that a number and a bit for its sign take. */
  function SignedBytes(x: nat): nat { Bytes(2 * x) }

  /** A number without the bytes that have no room, which are those after the first three. */
  function Truncated(x: nat): nat {
    if SignedBytes(x) <= 3 then x else x - x % Pow2(8 * (SignedBytes(x) - 3))
  }

  lemma {:induction false} BytesIs(x: nat, size: nat)
    requires x < Pow2(8 * size) && (size > 0 ==> Pow2(8 * (size - 1)) <= x)
    ensures Bytes(x) == size
  {
    hide Pow2;
    Pow2Values();
    Pow2Zero();
    if size > 0 {
      Pow2Add(8, 8 * (size - 1));
      DivModOf(x, 256);
      if size > 1 {
        Pow2Add(8, 8 * (size - 2));
      } else {
        DivMod(x, 256, 0, x);
      }
      BytesIs(x / 256, size - 1);
    }
  }

  /** The first three bytes of a number of a size. */
  function Mantissa(x: nat, size: nat): nat {
    if size <= 3 then x * Pow2(8 * (3 - size)) else (DivModOf(x, Pow2(8 * (size - 3))); x / Pow2(8 * (size - 3)))
  }

  lemma MantissaBound(x: nat, size: nat)
    requires x < Pow2(8 * size) && (size > 0 ==> Pow2(8 * (size - 1)) <= x)
    ensures Mantissa(x, size) < 0x100_0000 && (x > 0 ==> Mantissa(x, size) >= 0x1_0000)
    ensures Mantissa(x, size) >= 0x80_0000 <==> 2 * x >= Pow2(8 * size)
  {
    hide Pow2;
    Pow2Values();
    Pow2Zero();
    if size <= 3 {
      var q := Pow2(8 * (3 - size));
      Pow2Add(8 * size, 8 * (3 - size));
      if size > 0 {
        Pow2Add(8 * (size - 1), 8 * (3 - size));
        MulMono(Pow2(8 * (size - 1)), x, q);
      }
      MulMono(x + 1, Pow2(8 * size), q);
      Distribute(x, 1, q);
      TwiceAgainst(x, Pow2(8 * size), q);
    } else {
      var p := Pow2(8 * (size - 3));
      Pow2Add(24, 8 * (size - 3));
      Pow2Add(16, 8 * (size - 3));
      Pow2Add(23, 8 * (size - 3));
      Pow2Next(8 * (size - 3) + 23);
      AtLeast(x, p, Pow2(16));
      AtLeast(x, p, Pow2(23));
      AtLeast(x, p, Pow2(24));
    }
  }

  lemma TwiceAgainst(x: nat, w: nat, q: nat)
    requires q > 0
    ensures 2 * (x * q) >= w * q <==> 2 * x >= w
  {
    assert 2 * (x * q) == (2 * x) * q;
    if 2 * x >= w {
      MulMono(w, 2 * x, q);
    } else {
      MulMono(2 * x + 1, w, q);
      Distribute(2 * x, 1, q);
    }
  }

  lemma AtLeast(x: nat, p: nat, k: nat)
    requires p > 0
    ensures x / p >= k <==> x >= k * p
  {
    DivModOf(x, p);
    if x / p >= k {
      MulMono(k, x / p, p);
    } else {
      MulMono(x / p + 1, k, p);
      Distribute(x / p, 1, p);
    }
  }

  /** The compact form: a size, a sign and 23 bits. */
  function Packed(size: nat, m: nat, negative: bool): nat {
    size * 0x100_0000 + (if negative && m != 0 then 0x80_0000 else 0) + m
  }

  lemma Unpacked(size: nat, m: nat, negative: bool)
    requires m < 0x80_0000
    ensures var c := Packed(size, m, negative);
            Size(c) == size && Word(c) == m && (IsSigned(c) <==> negative && m != 0)
  {
  }

  /** What the three bytes of a number, and the sign bit that makes four of them, stand for. */
  lemma CompactStandsFor(x: nat, size: nat, negative: bool)
    requires x < Pow2(8 * size) && (size > 0 ==> Pow2(8 * (size - 1)) <= x)
    ensures var m := Mantissa(x, size);
            var c := if m >= 0x80_0000 then Packed(size + 1, m / 256, negative) else Packed(size, m, negative);
            Target(c) == Truncated(x) && (IsSigned(c) <==> negative && x != 0)
  {
    hide Pow2, Bytes;
    var m := Mantissa(x, size);
    Pow2Values();
    Pow2Zero();
    MantissaBound(x, size);
    SignedBytesIs(x, size);
    if m >= 0x80_0000 {
      Unpacked(size + 1, m / 256, negative);
      if size < 3 {
        Pow2Add(8, 8 * (2 - size));
        MulAssoc(x, Pow2(8 * (2 - size)), 256);
        DivMod(m, 256, x * Pow2(8 * (2 - size)), 0);
        DivMod(m / 256, Pow2(8 * (2 - size)), x, 0);
      } else {
        Pow2Add(8 * (size - 3), 8);
        if size == 3 {
          assert m == x;
          DivModOf(x, 256);
        } else {
          DivDiv(x, Pow2(8 * (size - 3)), 256);
          DivModOf(x, Pow2(8 * (size - 2)));
        }
      }
    } else {
      Unpacked(size, m, negative);
      if size <= 3 {
        DivMod(m, Pow2(8 * (3 - size)), x, 0);
      } else {
        DivModOf(x, Pow2(8 * (size - 3)));
      }
    }
  }

  lemma SignedBytesIs(x: nat, size: nat)
    requires x < Pow2(8 * size) && (size > 0 ==> Pow2(8 * (size - 1)) <= x)
    ensures SignedBytes(x) == if 2 * x >= Pow2(8 * size) then size + 1 else size
  {
    hide Pow2;
    Pow2Values();
    Pow2Zero();
    Pow2Add(8, 8 * size);
    if 2 * x >= Pow2(8 * size) {
      BytesIs(2 * x, size + 1);
    } else {
      BytesIs(2 * x, size);
    }
  }

  lemma SmallPowers()
    ensures Pow(BASE, 0) == 1 && Pow(BASE, 1) == BASE
  {
  }

  /** The two lowest limbs of a number that has no others. */
  lemma LowLimbs(s: seq<nat>)
    requires AreLimbs(s) && |s| >= 2 && Val(s) < Pow(BASE, 2)
    ensures Or(s[0], s[1] * BASE) == Val(s)
  {
    hide Pow2, Or, Val, Pow;
    assert s == s[..2] + s[2..];
    ValConcat(s[..2], s[2..]);
    ValFront(s, 1);
    ValFront(s, 0);
    ValZeroes(s[..0]);
    SmallPowers();
    if Val(s[2..]) > 0 {
      MulMono(1, Val(s[2..]), Pow(BASE, 2));
    }
    Pow2Is32();
    DivMod(s[1] * BASE, BASE, s[1], 0);
    OrIsSum(s[1] * BASE, s[0], 32);
  }

  /** The form with the fewest bytes; reading it back gives the number truncated. */
  method GetCompact(x: BaseUint, fNegative: bool) returns (nCompact: nat)
    requires x.Valid() && x.pn.Length == WIDTH
    ensures nCompact < BASE && Target(nCompact) == Truncated(x.Value())
    ensures IsSigned(nCompact) <==> fNegative && x.Value() != 0
  {
    hide Pow2, Pow, Val, Or, Target, Truncated, Mantissa, Packed, IsSigned;
    ghost var v := x.Value();
    var bits := x.Bits();
    var nSize := (bits + 7) / 8;
    SizeOfBits(v, bits);
    MantissaBound(v, nSize);
    CompactStandsFor(v, nSize, fNegative);
    nCompact := FirstBytes(x, nSize);
    if nCompact >= 0x80_0000 {
      nCompact := nCompact / 256;
      nSize := nSize + 1;
    }
    nCompact := Pack(nSize, nCompact, fNegative);
  }

  lemma SizeOfBits(v: nat, bits: nat)
    requires v < Pow2(bits) && (bits > 0 ==> Pow2(bits - 1) <= v)
    ensures var size := (bits + 7) / 8;
            v < Pow2(8 * size) && (size > 0 ==> Pow2(8 * (size - 1)) <= v)
  {
    hide Pow2;
    var size := (bits + 7) / 8;
    Pow2Grows(bits, 8 * size);
    if size > 0 {
      Pow2Grows(8 * (size - 1), bits - 1);
    }
  }

  method FirstBytes(x: BaseUint, nSize: nat) returns (m: nat)
    requires x.Valid() && x.pn.Length == WIDTH && Mantissa(x.Value(), nSize) < 0x100_0000
    requires x.Value() < Pow2(8 * nSize)
    ensures m == Mantissa(x.Value(), nSize)
  {
    hide Pow2, Pow, Val, Or;
    Pow2Values();
    PowIsPow2(2);
    if nSize <= 3 {
      Pow2Grows(8 * nSize, 64);
      LowLimbs(x.pn[..]);
      m := Or(x.pn[0], x.pn[1] * BASE) * Pow2(8 * (3 - nSize));
    } else {
      var bn := new BaseUint.Copy(x);
      bn.ShiftRight(8 * (nSize - 3));
      Pow2Grows(24, 64);
      LowLimbs(bn.pn[..]);
      m := Or(bn.pn[0], bn.pn[1] * BASE);
    }
  }

  method Pack(nSize: nat, m: nat, fNegative: bool) returns (nCompact: nat)
    requires m < 0x80_0000 && nSize < 256
    ensures nCompact == Packed(nSize, m, fNegative) && nCompact < BASE
  {
    hide Pow2, Or;
    Pow2Values();
    DivMod(nSize * 0x100_0000, Pow2(24), nSize, 0);
    OrIsSum(nSize * 0x100_0000, m, 24);
    nCompact := Or(m, nSize * 0x100_0000);
    if fNegative && nCompact % 0x80_0000 != 0 {
      OrSetsBit(nCompact, 23);
      nCompact := Or(nCompact, 0x80_0000);
    }
  }
}
