/** Arithmetic the solver needs spelled out, and powers. */
module Numbers {

  function Min(a: int, b: int): int { if a < b then a else b }

  function Max(a: int, b: int): int { if a < b then b else a }

  function Zeroes(n: nat): seq<nat> { seq(n, _ => 0) }

  lemma MulMono(a: nat, b: nat, c: nat)
    requires a <= b
    ensures a * c <= b * c
  {
  }

  lemma MulAssoc(a: nat, b: nat, c: nat)
    ensures a * (b * c) == (a * b) * c
  {
  }

  lemma Distribute(a: int, b: int, c: int)
    ensures (a + b) * c == a * c + b * c
  {
  }

  /** Quotient and remainder are determined by what they stand for. */
  lemma DivMod(v: nat, b: nat, q: nat, r: nat)
    requires b > 0 && r < b && v == q * b + r
    ensures v / b == q && v % b == r
  {
    var x, y := v / b, v % b;
    assert v == x * b + y;
    Distribute(x, 1, b);
    Distribute(q, 1, b);
    if x < q {
      MulMono(x + 1, q, b);
    } else if q < x {
      MulMono(q + 1, x, b);
    }
  }

  lemma DivModOf(v: nat, b: nat)
    requires b > 0
    ensures v == v / b * b + v % b && 0 <= v % b < b && 0 <= v / b
  {
  }

  function Pow2(n: nat): (p: nat)
    ensures p > 0
  {
    if n == 0 then 1 else 2 * Pow2(n - 1)
  }

  lemma {:induction false} Pow2Add(m: nat, n: nat)
    ensures Pow2(m + n) == Pow2(m) * Pow2(n)
  {
    if m > 0 {
      Pow2Add(m - 1, n);
      MulAssoc(2, Pow2(m - 1), Pow2(n));
    }
  }

  lemma Pow2Grows(m: nat, n: nat)
    requires m <= n
    ensures Pow2(m) <= Pow2(n)
  {
    Pow2Add(m, n - m);
    MulMono(1, Pow2(n - m), Pow2(m));
  }

  lemma Pow2Zero()
    ensures Pow2(0) == 1
  {
  }

  // Powers of any number

  function Pow(b: nat, e: nat): (p: nat)
    ensures b > 0 ==> p > 0
  {
    if e == 0 then 1 else b * Pow(b, e - 1)
  }

  lemma PowZero(b: nat)
    ensures Pow(b, 0) == 1
  {
  }

  lemma PowNext(b: nat, e: nat)
    ensures Pow(b, e + 1) == b * Pow(b, e)
  {
  }

  lemma {:induction false} PowAdd(b: nat, m: nat, n: nat)
    ensures Pow(b, m + n) == Pow(b, m) * Pow(b, n)
  {
    if m > 0 {
      PowAdd(b, m - 1, n);
      MulAssoc(b, Pow(b, m - 1), Pow(b, n));
    }
  }

  // Bits

  predicate TestBit(x: nat, b: nat) { x / Pow2(b) % 2 == 1 }

  /** The bitwise or. */
  function Or(x: nat, y: nat): nat {
    if x == 0 && y == 0 then 0 else 2 * Or(x / 2, y / 2) + if x % 2 == 1 || y % 2 == 1 then 1 else 0
  }

  /** A bit of a number is one of its half's. */
  lemma BitOfHalf(x: nat, b: nat)
    requires b > 0
    ensures TestBit(x, b) == TestBit(x / 2, b - 1)
  {
    hide Pow2;
    var p, h := Pow2(b - 1), x / 2;
    Pow2Next(b - 1);
    DivModOf(h, p);
    DivMod(x, 2 * p, h / p, 2 * (h % p) + x % 2);
  }

  lemma Pow2Next(b: nat)
    ensures Pow2(b + 1) == 2 * Pow2(b)
  {
  }

  /** A bit of the or is set exactly if it is set in either number. */
  lemma {:induction false} OrBit(x: nat, y: nat, b: nat)
    ensures TestBit(Or(x, y), b) <==> TestBit(x, b) || TestBit(y, b)
    decreases b
  {
    hide TestBit;
    if b == 0 {
      LowestBit(x);
      LowestBit(y);
      LowestBit(Or(x, y));
    } else {
      OrBit(x / 2, y / 2, b - 1);
      BitOfHalf(x, b);
      BitOfHalf(y, b);
      BitOfHalf(Or(x, y), b);
    }
  }

  lemma LowestBit(x: nat)
    ensures TestBit(x, 0) <==> x % 2 == 1
  {
  }

  /** Numbers without a bit in common: one has nothing above a power of two, the other nothing below it. */
  lemma {:induction false} OrIsSum(x: nat, y: nat, s: nat)
    requires x % Pow2(s) == 0 && y < Pow2(s)
    ensures Or(x, y) == Or(y, x) == x + y
    decreases s, x
  {
    if s == 0 {
      if x > 0 {
        OrIsSum(x / 2, 0, 0);
      }
    } else {
      var p := Pow2(s - 1);
      DivModOf(x, 2 * p);
      assert x == 2 * (x / (2 * p) * p);
      DivMod(x / 2, p, x / (2 * p), 0);
      OrIsSum(x / 2, y / 2, s - 1);
    }
  }

  /** Setting a bit that is not set adds it. */
  lemma {:induction false} OrSetsBit(x: nat, b: nat)
    requires !TestBit(x, b)
    ensures Or(x, Pow2(b)) == x + Pow2(b)
    decreases b
  {
    hide TestBit;
    if b == 0 {
      LowestBit(x);
      OrIsSum(x / 2, 0, 0);
    } else {
      BitOfHalf(x, b);
      Pow2Next(b - 1);
      OrSetsBit(x / 2, b - 1);
    }
  }

  lemma DivDiv(x: nat, p: nat, q: nat)
    requires p > 0 && q > 0
    ensures p * q > 0 && x / p / q == x / (p * q)
  {
    var a := x / p;
    DivModOf(x, p);
    DivModOf(a, q);
    MulMono(1, p, q);
    MulAssoc(a / q, q, p);
    Distribute(a / q * q, a % q, p);
    MulMono(a % q + 1, q, p);
    Distribute(a % q, 1, p);
    assert q * p == p * q;
    DivMod(x, p * q, a / q, a % q * p + x % p);
  }
}
