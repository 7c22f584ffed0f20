/** Base58 (src/base58.cpp): digits of one base turned into digits of another. */
module Base58 {
  import opened Numbers
  import opened Options

  // Numbers and their digits, most significant first

  lemma PushDigit(v: nat, bound: nat, base: nat, d: nat)
    requires v < bound && d < base
    ensures v * base + d < base * bound
  {
    MulMono(v + 1, bound, base);
    assert (v + 1) * base == v * base + base;
    assert bound * base == base * bound;
  }

  lemma DivLess(v: nat, b: nat)
    requires b > 1 && v > 0
    ensures v / b < v
  {
    var q := v / b;
    assert v == q * b + v % b;
    MulMono(2, b, q);
    assert b * q == q * b;
  }

  function Value(base: nat, s: seq<nat>): nat {
    if s == [] then 0 else Value(base, s[..|s| - 1]) * base + s[|s| - 1]
  }

  /** The digits of a number, without leading zeroes. */
  function Digits(base: nat, v: nat): seq<nat>
    requires base > 1
  {
    if v == 0 then [] else DivLess(v, base); Digits(base, v / base) + [v % base]
  }

  ghost predicate AreDigits(base: nat, s: seq<nat>) { forall k :: 0 <= k < |s| ==> s[k] < base }

  lemma {:induction false} DigitsOfValue(base: nat, s: seq<nat>)
    requires base > 1 && AreDigits(base, s) && (s != [] ==> s[0] != 0)
    ensures Digits(base, Value(base, s)) == s
    ensures s != [] ==> Value(base, s) > 0
  {
    if s != [] {
      var n := |s| - 1;
      var front, last := s[..n], s[n];
      assert s == front + [last];
      assert front != [] ==> front[0] == s[0];
      DigitsOfValue(base, front);
      NextDigits(base, Value(base, front), last, front == []);
    }
  }

  lemma NextDigits(base: nat, v: nat, d: nat, first: bool)
    requires base > 1 && d < base && if first then d > 0 && v == 0 else v > 0
    ensures v * base + d > 0 && Digits(base, v * base + d) == Digits(base, v) + [d]
  {
    hide Digits;
    DivMod(v * base + d, base, v, d);
    if !first {
      MulMono(1, v, base);
    }
    DigitsStep(base, v * base + d);
  }

  lemma DigitsStep(base: nat, v: nat)
    requires base > 1 && v > 0
    ensures Digits(base, v) == Digits(base, v / base) + [v % base]
  {
  }

  lemma {:induction false} ValueOfDigits(base: nat, v: nat)
    requires base > 1
    ensures Value(base, Digits(base, v)) == v && AreDigits(base, Digits(base, v))
    ensures v > 0 ==> Digits(base, v) != [] && Digits(base, v)[0] != 0
  {
    if v > 0 {
      DivLess(v, base);
      var q, r := v / base, v % base;
      assert v == q * base + r;
      ValueOfDigits(base, q);
      DigitStep(base, v, q, r, Digits(base, q));
    }
  }

  lemma DigitStep(base: nat, v: nat, q: nat, r: nat, d: seq<nat>)
    requires v > 0 && v == q * base + r && r < base && Value(base, d) == q && AreDigits(base, d)
    requires if q > 0 then d != [] && d[0] != 0 else d == []
    ensures Value(base, d + [r]) == v && AreDigits(base, d + [r]) && (d + [r])[0] != 0
  {
    assert (d + [r])[..|d|] == d;
  }

  lemma {:induction false} ValueConcat(base: nat, a: seq<nat>, b: seq<nat>)
    ensures Value(base, a + b) == Value(base, a) * Pow(base, |b|) + Value(base, b)
  {
    if b == [] {
      assert a + b == a;
    } else {
      var n := |b| - 1;
      ValueConcat(base, a, b[..n]);
      assert (a + b)[..|a + b| - 1] == a + b[..n];
      var x, p, y := Value(base, a), Pow(base, n), Value(base, b[..n]);
      assert (x * p + y) * base + b[n] == x * (base * p) + (y * base + b[n]) by {
        DistributeOver(x, p, y, base);
      }
    }
  }

  lemma DistributeOver(x: nat, p: nat, y: nat, base: nat)
    ensures (x * p + y) * base == x * (base * p) + y * base
  {
    assert (x * p) * base == x * (base * p);
  }

  lemma {:induction false} ValueBound(base: nat, s: seq<nat>)
    requires base > 0 && AreDigits(base, s)
    ensures Value(base, s) < Pow(base, |s|)
  {
    if s != [] {
      var n := |s| - 1;
      ValueBound(base, s[..n]);
      PushDigit(Value(base, s[..n]), Pow(base, n), base, s[n]);
    }
  }

  lemma {:induction false} ValueZeroes(base: nat, s: seq<nat>)
    requires forall k :: 0 <= k < |s| ==> s[k] == 0
    ensures Value(base, s) == 0
  {
    if s != [] {
      ValueZeroes(base, s[..|s| - 1]);
    }
  }

  lemma LeadingZeroes(base: nat, s: seq<nat>, k: nat)
    requires k <= |s| && forall j :: 0 <= j < k ==> s[j] == 0
    ensures Value(base, s) == Value(base, s[k..])
  {
    assert s == s[..k] + s[k..];
    ValueConcat(base, s[..k], s[k..]);
    ValueZeroes(base, s[..k]);
  }

  // Powers

  lemma {:induction false} PowMul(b: nat, m: nat, n: nat)
    ensures Pow(Pow(b, m), n) == Pow(b, m * n)
  {
    if n > 0 {
      PowMul(b, m, n - 1);
      PowAdd(b, m, m * (n - 1));
      assert m + m * (n - 1) == m * n;
    } else {
      assert m * 0 == 0;
    }
  }

  lemma {:induction false} PowMonotone(a: nat, b: nat, e: nat)
    requires a <= b
    ensures Pow(a, e) <= Pow(b, e)
  {
    if e > 0 {
      PowMonotone(a, b, e - 1);
      var x, y := Pow(a, e - 1), Pow(b, e - 1);
      MulMono(a, b, x);
      MulMono(x, y, b);
      assert x * b == b * x && y * b == b * y;
    }
  }

  lemma {:induction false} PowStrict(a: nat, b: nat, e: nat)
    requires a < b && e > 0
    ensures Pow(a, e) < Pow(b, e)
  {
    if e > 1 {
      PowStrict(a, b, e - 1);
      var x, y := Pow(a, e - 1), Pow(b, e - 1);
      MulMono(x, y, a);
      MulMono(a + 1, b, y);
      assert (a + 1) * y == a * y + y && y > 0;
      assert x * a == a * x && y * a == a * y;
    }
  }

  lemma PowGrows(b: nat, m: nat, n: nat)
    requires b > 0 && m <= n
    ensures Pow(b, m) <= Pow(b, n)
  {
    hide Pow;
    PowAdd(b, m, n - m);
    var x, y := Pow(b, m), Pow(b, n - m);
    MulMono(1, y, x);
    assert y * x == x * y;
  }

  /** If a^p <= b^q and n*q <= m*p then a^n <= b^m. */
  lemma Compare(a: nat, b: nat, p: nat, q: nat, n: nat, m: nat)
    requires a > 0 && b > 0 && p > 0 && Pow(a, p) <= Pow(b, q) && q * n <= m * p
    ensures Pow(a, n) <= Pow(b, m)
  {
    hide Pow;
    PowMonotone(Pow(a, p), Pow(b, q), n);
    assert Pow(Pow(a, n), p) == Pow(Pow(a, p), n) by {
      PowMul(a, p, n);
      PowMul(a, n, p);
      assert p * n == n * p;
    }
    assert Pow(Pow(b, q), n) <= Pow(Pow(b, m), p) by {
      PowMul(b, q, n);
      PowMul(b, m, p);
      PowGrows(b, q * n, m * p);
    }
    if Pow(b, m) < Pow(a, n) {
      PowStrict(Pow(b, m), Pow(a, n), p);
    }
  }

  /** The buffer for encoding is large enough. */
  lemma EncodeRoom(n: nat)
    ensures Pow(256, n) <= Pow(58, n * 138 / 100 + 1)
  {
    assert Pow(256, 8) <= Pow(58, 11);
    Compare(256, 58, 8, 11, n, n * 138 / 100 + 1);
  }

  lemma Pow58()
    ensures Pow(58, 22) <= Pow(2, 129)
  {
    assert Pow(58, 11) == 24986644000165537792;
    Pow2To8();
    PowAdd(2, 8, 8);
    PowAdd(2, 16, 16);
    PowAdd(2, 32, 32);
    PowAdd(58, 11, 11);
    PowAdd(2, 64, 65);
    assert Pow(2, 65) == 2 * Pow(2, 64);
  }

  /** The buffer for decoding is large enough. */
  lemma DecodeRoom(n: nat)
    ensures Pow(58, n) <= Pow(256, n * 733 / 1000 + 1)
  {
    hide Pow;
    Pow58();
    var m := n * 733 / 1000 + 1;
    DecodeSize(n, m);
    Compare(58, 2, 22, 129, n, 8 * m);
    PowMul(2, 8, m);
    Pow2To8();
  }

  lemma DecodeSize(n: nat, m: nat)
    requires m == n * 733 / 1000 + 1
    ensures 129 * n <= 8 * m * 22
  {
    assert 1000 * m >= 733 * n + 1;
  }

  lemma Pow2To8()
    ensures Pow(2, 8) == 256
  {
    assert Pow(2, 4) == 16;
    PowAdd(2, 4, 4);
  }

  // The codec

  const ALPHABET: string := "123456789" + "ABCDEFGH" + "JKLMN" + "PQRSTUVWXYZ" + "abcdefghijk" + "mnopqrstuvwxyz"

  predicate IsSpace(c: char) { c == ' ' || 9 <= c as int <= 13 }

  /** Where a character first occurs from `k` on; the length if it does not. */
  function Find(s: string, c: char, k: nat): (i: nat)
    requires k <= |s|
    ensures k <= i <= |s| && (i < |s| ==> s[i] == c) && forall j :: k <= j < i ==> s[j] != c
    decreases |s| - k
  {
    if k == |s| || s[k] == c then k else Find(s, c, k + 1)
  }

  predicate IsBase58(c: char) { Find(ALPHABET, c, 0) < 58 }

  function CharDigit(c: char): nat { Find(ALPHABET, c, 0) }

  function DigitChar(d: nat): char { if d < 58 then ALPHABET[d] else '1' }

  /** The code of each character of the alphabet. */
  function Code(k: nat): int {
    if k < 9 then '1' as int + k
    else if k < 17 then 'A' as int + (k - 9)
    else if k < 22 then 'J' as int + (k - 17)
    else if k < 33 then 'P' as int + (k - 22)
    else if k < 44 then 'a' as int + (k - 33)
    else 'm' as int + (k - 44)
  }

  ghost predicate Consecutive(s: string, first: char) {
    forall i :: 0 <= i < |s| ==> s[i] as int == first as int + i
  }

  lemma Pieces()
    ensures Consecutive("123456789", '1') && Consecutive("ABCDEFGH", 'A') && Consecutive("JKLMN", 'J')
    ensures Consecutive("PQRSTUVWXYZ", 'P') && Consecutive("abcdefghijk", 'a') && Consecutive("mnopqrstuvwxyz", 'm')
  {
  }

  lemma CodeAt(k: nat)
    requires k < 58
    ensures ALPHABET[k] as int == Code(k)
  {
    Pieces();
  }

  /** The alphabet ascends, so no character occurs twice. */
  lemma Ascending(j: nat, k: nat)
    requires j < k < 58
    ensures ALPHABET[j] < ALPHABET[k]
  {
    CodeAt(j);
    CodeAt(k);
  }

  /** Digits and letters without 0, O, I and l. */
  lemma AlphabetIs(c: char)
    ensures IsBase58(c) <==>
              || '1' <= c <= '9'
              || ('A' <= c <= 'Z' && c != 'I' && c != 'O')
              || ('a' <= c <= 'z' && c != 'l')
  {
    var x := c as int;
    var k := if x <= '9' as int then x - '1' as int
             else if x <= 'H' as int then x - 'A' as int + 9
             else if x <= 'N' as int then x - 'J' as int + 17
             else if x <= 'Z' as int then x - 'P' as int + 22
             else if x <= 'k' as int then x - 'a' as int + 33
             else x - 'm' as int + 44;
    if 0 <= k < 58 {
      CodeAt(k);
    }
    if IsBase58(c) {
      CodeAt(Find(ALPHABET, c, 0));
    }
  }

  lemma CharOfDigit(d: nat)
    requires d < 58
    ensures IsBase58(DigitChar(d)) && CharDigit(DigitChar(d)) == d && !IsSpace(DigitChar(d))
  {
    var k := Find(ALPHABET, ALPHABET[d], 0);
    if k < d {
      Ascending(k, d);
    }
    CodeAt(d);
  }

  lemma DigitOfChar(c: char)
    requires IsBase58(c)
    ensures CharDigit(c) < 58 && DigitChar(CharDigit(c)) == c
  {
  }

  function Leading(s: seq<nat>): (z: nat)
    ensures z <= |s| && (forall k :: 0 <= k < z ==> s[k] == 0) && (z < |s| ==> s[z] != 0)
  {
    if s == [] || s[0] != 0 then 0 else 1 + Leading(s[1..])
  }

  lemma {:induction false} LeadingIs(s: seq<nat>, z: nat)
    requires z <= |s| && (forall k :: 0 <= k < z ==> s[k] == 0) && (z < |s| ==> s[z] != 0)
    ensures Leading(s) == z
  {
    if z > 0 {
      LeadingIs(s[1..], z - 1);
    }
  }

  /** A number in another base; leading zeroes are kept, one digit for one digit. */
  function Convert(from: nat, to: nat, s: seq<nat>): seq<nat>
    requires to > 1
  {
    Zeroes(Leading(s)) + Digits(to, Value(from, s))
  }

  /** Converting back restores every digit. */
  lemma ConvertBack(from: nat, to: nat, s: seq<nat>)
    requires from > 1 && to > 1 && AreDigits(from, s)
    ensures Convert(to, from, Convert(from, to, s)) == s
    ensures AreDigits(to, Convert(from, to, s))
  {
    hide Value, Digits, Leading;
    var z, v := Leading(s), Value(from, s);
    var d := Digits(to, v);
    LeadingZeroes(from, s, z);
    DigitsOfValue(from, s[z..]);
    ValueOfDigits(to, v);
    var c := Zeroes(z) + d;
    NoDigits(to, v);
    LeadingIs(c, z);
    LeadingZeroes(to, c, z);
    assert c[z..] == d;
    assert s == Zeroes(z) + s[z..];
  }

  lemma NoDigits(base: nat, v: nat)
    requires base > 1
    ensures v == 0 ==> Digits(base, v) == []
  {
  }

  function Text(d: seq<nat>): string { seq(|d|, k requires 0 <= k < |d| => DigitChar(d[k])) }

  function DigitsOf(t: string): seq<nat> { seq(|t|, k requires 0 <= k < |t| => CharDigit(t[k])) }

  predicate AllBase58(t: string) { forall k :: 0 <= k < |t| ==> IsBase58(t[k]) }

  function StripLeft(s: string): string { if s != [] && IsSpace(s[0]) then StripLeft(s[1..]) else s }

  function StripRight(s: string): string { if s != [] && IsSpace(s[|s| - 1]) then StripRight(s[..|s| - 1]) else s }

  /** A string without the white space around it. */
  function Strip(s: string): string { StripRight(StripLeft(s)) }

  function Encode(b: seq<nat>): string { Text(Convert(256, 58, b)) }

  function Decode(s: string): Option<seq<nat>> {
    var t := Strip(s);
    if AllBase58(t) then Some(Convert(58, 256, DigitsOf(t))) else None
  }

  /** The text stands for the same number as the bytes, after a 1 for every leading zero. */
  lemma EncodeIsNumber(b: seq<nat>)
    requires AreDigits(256, b)
    ensures var d := DigitsOf(Encode(b));
            AreDigits(58, d) && Value(58, d) == Value(256, b) && Leading(d) == Leading(b)
  {
    hide Value, Digits;
    ConvertBack(256, 58, b);
    TextDigits(Convert(256, 58, b));
    var n, v, d := Leading(b), Value(256, b), Convert(256, 58, b);
    ValueOfDigits(58, v);
    NoDigits(58, v);
    assert d[n..] == Digits(58, v);
    LeadingZeroes(58, d, n);
    LeadingIs(d, n);
  }

  lemma TextDigits(d: seq<nat>)
    requires AreDigits(58, d)
    ensures AllBase58(Text(d)) && DigitsOf(Text(d)) == d && forall k :: 0 <= k < |d| ==> !IsSpace(Text(d)[k])
  {
    forall k | 0 <= k < |d|
      ensures IsBase58(DigitChar(d[k])) && CharDigit(DigitChar(d[k])) == d[k] && !IsSpace(DigitChar(d[k]))
    {
      CharOfDigit(d[k]);
    }
  }

  lemma DigitsText(t: string)
    requires AllBase58(t)
    ensures AreDigits(58, DigitsOf(t)) && Text(DigitsOf(t)) == t
  {
    forall k | 0 <= k < |t| ensures CharDigit(t[k]) < 58 && DigitChar(CharDigit(t[k])) == t[k] { DigitOfChar(t[k]); }
  }

  /** Decoding inverts encoding on every byte string. */
  lemma DecodeEncode(b: seq<nat>)
    requires AreDigits(256, b)
    ensures Decode(Encode(b)) == Some(b)
  {
    hide Convert, Strip, IsBase58;
    ConvertBack(256, 58, b);
    var d := Convert(256, 58, b);
    TextDigits(d);
    Unspaced(Text(d));
  }

  lemma Unspaced(t: string)
    requires forall k :: 0 <= k < |t| ==> !IsSpace(t[k])
    ensures Strip(t) == t
  {
  }

  /** Encoding what was decoded gives the string back, without the white space around it. */
  lemma EncodeDecode(s: string)
    requires Decode(s).Some?
    ensures AreDigits(256, Decode(s).value) && Encode(Decode(s).value) == Strip(s)
  {
    hide Convert, Strip, IsBase58;
    var t := Strip(s);
    DigitsText(t);
    ConvertBack(58, 256, DigitsOf(t));
  }

  // White space

  lemma {:induction false} LeftGone(x: string, t: string)
    requires forall k :: 0 <= k < |x| ==> IsSpace(x[k])
    ensures StripLeft(x + t) == StripLeft(t)
  {
    if x == [] {
      assert x + t == t;
    } else {
      LeftGone(x[1..], t);
      assert (x + t)[1..] == x[1..] + t;
    }
  }

  lemma {:induction false} RightGone(t: string, y: string)
    requires forall k :: 0 <= k < |y| ==> IsSpace(y[k])
    ensures StripRight(t + y) == StripRight(t)
  {
    if y == [] {
      assert t + y == t;
    } else {
      var n := |y| - 1;
      RightGone(t, y[..n]);
      assert (t + y)[..|t + y| - 1] == t + y[..n];
    }
  }

  lemma StripIs(x: string, t: string, y: string)
    requires (forall k :: 0 <= k < |x| ==> IsSpace(x[k])) && forall k :: 0 <= k < |y| ==> IsSpace(y[k])
    requires t != [] ==> !IsSpace(t[0]) && !IsSpace(t[|t| - 1])
    ensures Strip(x + t + y) == t
  {
    assert x + t + y == x + (t + y);
    LeftGone(x, t + y);
    if t == [] {
      assert t + y == y && y + t == y;
      LeftGone(y, t);
    } else {
      assert (t + y)[0] == t[0];
      RightGone(t, y);
    }
  }

  lemma {:induction false} LeftKeeps(s: string, i: nat) returns (m: nat)
    requires i < |s| && !IsSpace(s[i])
    ensures m <= i && StripLeft(s) == s[m..]
  {
    if IsSpace(s[0]) {
      m := LeftKeeps(s[1..], i - 1);
      m := m + 1;
    } else {
      m := 0;
    }
  }

  lemma {:induction false} RightKeeps(s: string, i: nat) returns (m: nat)
    requires i < |s| && !IsSpace(s[i])
    ensures i < m <= |s| && StripRight(s) == s[..m]
  {
    var n := |s| - 1;
    if IsSpace(s[n]) {
      m := RightKeeps(s[..n], i);
      assert s[..n][..m] == s[..m];
    } else {
      m := |s|;
    }
  }

  /** What stands between two characters that are not white space stays. */
  lemma StripKeeps(s: string, i: nat, j: nat, k: nat)
    requires i <= j <= k < |s| && !IsSpace(s[i]) && !IsSpace(s[k])
    ensures s[j] in Strip(s)
  {
    var m := LeftKeeps(s, i);
    assert s[m..][k - m] == s[k];
    var e := RightKeeps(s[m..], k - m);
    assert Strip(s)[j - m] == s[j];
  }

  // The digit buffers

  /** Multiplies the number in the buffer and adds a digit; `length` digits are in use. */
  method MulAdd(buf: array<nat>, base: nat, mul: nat, ch: nat, length: nat) returns (length': nat)
    requires base > 1 && length <= buf.Length && AreDigits(base, buf[..])
    requires forall k :: 0 <= k < buf.Length - length ==> buf[k] == 0
    requires Value(base, buf[..]) * mul + ch < Pow(base, buf.Length)
    modifies buf
    ensures length' <= buf.Length && AreDigits(base, buf[..])
    ensures forall k :: 0 <= k < buf.Length - length' ==> buf[k] == 0
    ensures Value(base, buf[..]) == old(Value(base, buf[..])) * mul + ch
  {
    hide Value, Pow;
    ghost var before := buf[..];
    var carry: nat, i: nat := ch, 0;
    NothingYet(base, buf[..]);
    while (carry != 0 || i < length) && i < buf.Length
      invariant 0 <= i <= buf.Length && AreDigits(base, buf[..])
      invariant forall k :: 0 <= k < buf.Length - i ==> buf[k] == before[k]
      invariant Value(base, buf[buf.Length - i..]) + carry * Pow(base, i) ==
                  Value(base, before[buf.Length - i..]) * mul + ch
      decreases buf.Length - i
    {
      var pos := buf.Length - 1 - i;
      ghost var low := buf[pos + 1..];
      CarryStep(base, mul, ch, before[pos], carry, i, low, before[pos + 1..]);
      var sum: nat := carry + mul * buf[pos];
      assert before[pos..] == [before[pos]] + before[pos + 1..];
      buf[pos] := sum % base;
      carry := sum / base;
      assert buf[pos..] == [sum % base] + low;
      i := i + 1;
    }
    CarryEnd(base, mul, ch, before, buf[..], i, carry);
    assert carry == 0;
    length' := i;
  }

  lemma NothingYet(base: nat, s: seq<nat>)
    ensures Value(base, s[|s|..]) == 0 && Pow(base, 0) == 1
  {
  }

  /** One digit of a multiplication with carry. */
  lemma CarryStep(base: nat, mul: nat, ch: nat, digit: nat, carry: nat, i: nat, low: seq<nat>, was: seq<nat>)
    requires base > 1 && |low| == |was| == i
    requires Value(base, low) + carry * Pow(base, i) == Value(base, was) * mul + ch
    ensures var sum := carry + mul * digit;
            && 0 <= sum % base < base && 0 <= sum / base
            && Value(base, [sum % base] + low) + sum / base * Pow(base, i + 1) == Value(base, [digit] + was) * mul + ch
  {
    hide Value, Pow;
    var sum := carry + mul * digit;
    var q, r, p := sum / base, sum % base, Pow(base, i);
    assert sum == q * base + r;
    ValueConcat(base, [r], low);
    ValueConcat(base, [digit], was);
    OneDigit(base, r);
    OneDigit(base, digit);
    PowNext(base, i);
    CarryArith(base, mul, digit, carry, p, q, r, Value(base, low), Value(base, was), ch);
  }

  lemma OneDigit(base: nat, d: nat)
    ensures Value(base, [d]) == d
  {
    assert [d][..0] == [];
  }

  lemma CarryArith(base: nat, mul: nat, digit: nat, carry: nat, p: nat, q: nat, r: nat, low: nat, was: nat, ch: nat)
    requires carry + mul * digit == q * base + r && low + carry * p == was * mul + ch
    ensures r * p + low + q * (base * p) == (digit * p + was) * mul + ch
  {
    assert q * (base * p) == (q * base) * p;
    assert (q * base) * p + r * p == (q * base + r) * p;
    assert (carry + mul * digit) * p == carry * p + (mul * digit) * p;
    assert (mul * digit) * p == (digit * p) * mul;
    assert (digit * p + was) * mul == (digit * p) * mul + was * mul;
  }

  /** Nothing is left to carry, and the untouched digits were zeroes. */
  lemma CarryEnd(base: nat, mul: nat, ch: nat, before: seq<nat>, after: seq<nat>, i: nat, carry: nat)
    requires base > 1 && |before| == |after| && i <= |before| && (carry == 0 || i == |before|)
    requires Value(base, before) * mul + ch < Pow(base, |before|)
    requires (forall k :: 0 <= k < |before| - i ==> after[k] == before[k]) && AreDigits(base, after)
    requires carry == 0 ==> forall k :: 0 <= k < |before| - i ==> before[k] == 0
    requires Value(base, after[|before| - i..]) + carry * Pow(base, i) == Value(base, before[|before| - i..]) * mul + ch
    ensures carry == 0 && Value(base, after) == Value(base, before) * mul + ch
  {
    hide Value, Pow;
    var n := |before| - i;
    if carry > 0 {
      assert before[0..] == before;
      MulMono(1, carry, Pow(base, i));
    }
    LeadingZeroes(base, before, n);
    LeadingZeroes(base, after, n);
  }

  /** Skips the leading zeroes of the number in the buffer. */
  method SkipZeroes(buf: array<nat>, base: nat, length: nat) returns (it: nat)
    requires base > 1 && length <= buf.Length && AreDigits(base, buf[..])
    requires forall k :: 0 <= k < buf.Length - length ==> buf[k] == 0
    ensures it <= buf.Length && buf[it..] == Digits(base, Value(base, buf[..]))
  {
    hide Value, Digits;
    it := buf.Length - length;
    while it < buf.Length && buf[it] == 0
      invariant 0 <= it <= buf.Length && forall k :: 0 <= k < it ==> buf[k] == 0
    {
      it := it + 1;
    }
    LeadingZeroes(base, buf[..], it);
    assert buf[..][it..] == buf[it..];
    DigitsOfValue(base, buf[it..]);
  }

  /** The next digit fits into the buffer. */
  lemma Room(from: nat, to: nat, s: seq<nat>, z: nat, p: nat, size: nat)
    requires from > 0 && z <= p < |s| && AreDigits(from, s) && Pow(from, |s| - z) <= Pow(to, size)
    ensures Value(from, s[z..p + 1]) == Value(from, s[z..p]) * from + s[p]
    ensures Value(from, s[z..p]) * from + s[p] < Pow(to, size)
  {
    assert s[z..p + 1][..p - z] == s[z..p];
    ValueBound(from, s[z..p + 1]);
    PowGrows(from, p + 1 - z, |s| - z);
  }

  method EncodeBase58(vch: seq<nat>) returns (str: string)
    requires AreDigits(256, vch)
    ensures str == Encode(vch)
  {
    hide Value, Pow, Digits;
    var pbegin := 0;
    while pbegin < |vch| && vch[pbegin] == 0
      invariant 0 <= pbegin <= |vch| && forall k :: 0 <= k < pbegin ==> vch[k] == 0
    {
      pbegin := pbegin + 1;
    }
    var zeroes: nat, length: nat := pbegin, 0;
    LeadingIs(vch, zeroes);
    var size := (|vch| - pbegin) * 138 / 100 + 1;
    EncodeRoom(|vch| - pbegin);
    var b58 := new nat[size](_ => 0);
    ValueZeroes(58, b58[..]);
    ValueZeroes(256, vch[zeroes..pbegin]);
    while pbegin < |vch|
      invariant zeroes <= pbegin <= |vch| && length <= b58.Length && AreDigits(58, b58[..])
      invariant forall k :: 0 <= k < b58.Length - length ==> b58[k] == 0
      invariant Value(58, b58[..]) == Value(256, vch[zeroes..pbegin])
    {
      Room(256, 58, vch, zeroes, pbegin, size);
      length := MulAdd(b58, 58, 256, vch[pbegin], length);
      pbegin := pbegin + 1;
    }
    assert vch[zeroes..pbegin] == vch[zeroes..];
    LeadingZeroes(256, vch, zeroes);
    var it := SkipZeroes(b58, 58, length);
    str := ToText(zeroes, b58[it..]);
  }

  method ToText(zeroes: nat, d: seq<nat>) returns (str: string)
    requires AreDigits(58, d)
    ensures str == Text(Zeroes(zeroes) + d)
  {
    str := seq(zeroes, _ => '1');
    CodeAt(0);
    for it := 0 to |d|
      invariant |str| == zeroes + it
      invariant forall k :: 0 <= k < |str| ==> str[k] == if k < zeroes then '1' else DigitChar(d[k - zeroes])
    {
      str := str + [ALPHABET[d[it]]];
    }
  }

  // Decoding

  /** The characters from z on, up to the first one that is white space or not in the alphabet. */
  ghost predicate ReadSoFar(s: string, a: nat, p: nat) {
    && a <= p <= |s| && (forall k :: 0 <= k < a ==> IsSpace(s[k])) && (a < |s| ==> !IsSpace(s[a]))
    && (forall k :: a <= k < p ==> IsBase58(s[k]))
  }

  lemma NotSpace(c: char)
    requires IsBase58(c)
    ensures !IsSpace(c)
  {
    CodeAt(CharDigit(c));
  }

  /** A character that is neither makes decoding fail. */
  lemma BadCharacter(s: string, p: nat)
    requires p < |s| && !IsSpace(s[p]) && !IsBase58(s[p])
    ensures Decode(s) == None
  {
    StripKeeps(s, p, p, p);
  }

  /** White space between other characters makes decoding fail. */
  lemma InnerSpace(s: string, a: nat, p: nat, q: nat)
    requires ReadSoFar(s, a, p) && p < q < |s| && IsSpace(s[p]) && !IsSpace(s[q])
    ensures Decode(s) == None
  {
    StripKeeps(s, a, p, q);
    if IsBase58(s[p]) {
      NotSpace(s[p]);
    }
  }

  /** Otherwise the characters read are the whole string, but for white space. */
  lemma AllRead(s: string, a: nat, p: nat)
    requires ReadSoFar(s, a, p) && forall k :: p <= k < |s| ==> IsSpace(s[k])
    ensures Decode(s) == Some(Convert(58, 256, DigitsOf(s[a..p]))) && AllBase58(s[a..p])
  {
    hide IsBase58, IsSpace, Convert, DigitsOf, Strip;
    if a < p {
      NotSpace(s[a]);
      NotSpace(s[p - 1]);
    }
    StripIs(s[..a], s[a..p], s[p..]);
    assert s == s[..a] + s[a..p] + s[p..];
  }

  /** Reading one character more. */
  lemma DecodeStep(s: string, z: nat, p: nat, size: nat)
    requires z <= p < |s| && (forall k :: z <= k <= p ==> IsBase58(s[k])) && size == (|s| - z) * 733 / 1000 + 1
    ensures Value(58, DigitsOf(s[z..p + 1])) == Value(58, DigitsOf(s[z..p])) * 58 + CharDigit(s[p])
    ensures Value(58, DigitsOf(s[z..p])) * 58 + CharDigit(s[p]) < Pow(256, size)
  {
    hide Value, Pow;
    var d := DigitsOf(s[z..p + 1]);
    forall k | 0 <= k < |d| ensures d[k] < 58 { DigitOfChar(s[z + k]); }
    DecodeRoom(|s| - z);
    PowGrows(58, |d|, |s| - z);
    Room(58, 256, d, 0, p - z, size);
    assert d[0..p - z] == DigitsOf(s[z..p]) && d[0..p - z + 1] == d;
  }

  /** Reads characters up to white space or the end, and returns the digits of their value. */
  method ReadCharacters(psz: string, z: nat, ghost a: nat) returns (p: nat, d: Option<seq<nat>>)
    requires a <= z && ReadSoFar(psz, a, z)
    ensures d.None? ==> Decode(psz) == None
    ensures d.Some? ==> z <= p && ReadSoFar(psz, a, p) && d.value == Digits(256, Value(58, DigitsOf(psz[z..p])))
    ensures d.Some? && p < |psz| ==> IsSpace(psz[p])
  {
    hide Value, Pow, Digits, Decode, IsBase58, IsSpace;
    p := z;
    var length: nat := 0;
    var size := (|psz| - p) * 733 / 1000 + 1;
    var b256 := new nat[size](_ => 0);
    ValueZeroes(256, b256[..]);
    ValueZeroes(58, DigitsOf(psz[z..z]));
    while p < |psz| && !IsSpace(psz[p])
      invariant z <= p <= |psz| && length <= b256.Length && AreDigits(256, b256[..]) && ReadSoFar(psz, a, p)
      invariant forall k :: 0 <= k < b256.Length - length ==> b256[k] == 0
      invariant Value(256, b256[..]) == Value(58, DigitsOf(psz[z..p]))
    {
      var ch := Find(ALPHABET, psz[p], 0);
      IsDigit(psz[p]);
      if ch == |ALPHABET| {
        BadCharacter(psz, p);
        return p, None;
      }
      DecodeStep(psz, z, p, size);
      length := MulAdd(b256, 256, 58, ch, length);
      p := p + 1;
    }
    var it := SkipZeroes(b256, 256, length);
    d := Some(b256[it..]);
  }

  method DecodeBase58(psz: string) returns (r: Option<seq<nat>>)
    ensures r == Decode(psz)
  {
    hide Value, Digits, Decode, IsBase58, IsSpace, DigitsOf;
    var p := 0;
    while p < |psz| && IsSpace(psz[p])
      invariant 0 <= p <= |psz| && forall k :: 0 <= k < p ==> IsSpace(psz[k])
    {
      p := p + 1;
    }
    ghost var a := p;
    var zeroes: nat := 0;
    OneIsZero();
    while p < |psz| && psz[p] == '1'
      invariant zeroes == p - a && ReadSoFar(psz, a, p) && forall k :: a <= k < p ==> psz[k] == '1'
    {
      zeroes := zeroes + 1;
      p := p + 1;
    }
    ghost var z := p;
    var d;
    p, d := ReadCharacters(psz, p, a);
    if d.None? {
      return None;
    }
    ghost var e := p;
    while p < |psz| && IsSpace(psz[p])
      invariant e <= p <= |psz| && forall k :: e <= k < p ==> IsSpace(psz[k])
    {
      p := p + 1;
    }
    if p != |psz| {
      InnerSpace(psz, a, e, p);
      return None;
    }
    AllRead(psz, a, e);
    ReadValue(psz, a, z, e);
    r := Some(Zeroes(zeroes) + d.value);
  }

  lemma OneIsZero()
    ensures IsBase58('1') && CharDigit('1') == 0
  {
    CodeAt(0);
    CharOfDigit(0);
  }

  lemma IsDigit(c: char)
    ensures |ALPHABET| == 58 && (IsBase58(c) <==> CharDigit(c) < 58)
  {
  }

  /** The value of all characters, of which the first ones are zeroes. */
  lemma ReadValue(s: string, a: nat, z: nat, e: nat)
    requires a <= z <= e <= |s| && (forall k :: a <= k < z ==> s[k] == '1') && (z < e ==> s[z] != '1')
    requires forall k :: a <= k < e ==> IsBase58(s[k])
    ensures Value(58, DigitsOf(s[a..e])) == Value(58, DigitsOf(s[z..e])) && Leading(DigitsOf(s[a..e])) == z - a
  {
    hide Value, IsBase58;
    OneIsZero();
    var d := DigitsOf(s[a..e]);
    if z < e {
      ZeroIsOne(s[z]);
    }
    LeadingIs(d, z - a);
    LeadingZeroes(58, d, z - a);
    assert d[z - a..] == DigitsOf(s[z..e]);
  }

  lemma ZeroIsOne(c: char)
    requires IsBase58(c) && c != '1'
    ensures CharDigit(c) != 0
  {
    CodeAt(0);
  }

  // With a checksum

  /** What precedes the terminating zero. */
  function CString(s: string): string { s[..Find(s, '\0', 0)] }

  method DecodeString(str: string) returns (r: Option<seq<nat>>)
    ensures r == Decode(CString(str))
  {
    r := DecodeBase58(CString(str));
  }

  /** The first four bytes of the hash. */
  ghost predicate IsChecksum(check: seq<nat> -> seq<nat>) {
    forall b :: |check(b)| == 4 && AreDigits(256, check(b))
  }

  function EncodeCheck(check: seq<nat> -> seq<nat>, b: seq<nat>): string { Encode(b + check(b)) }

  function DecodeCheck(check: seq<nat> -> seq<nat>, s: string): Option<seq<nat>> {
    match Decode(s)
    case None => None
    case Some(v) =>
      if |v| < 4 then None
      else
        var n := |v| - 4;
        if check(v[..n]) != v[n..] then None else Some(v[..n])
  }

  method EncodeBase58Check(check: seq<nat> -> seq<nat>, vchIn: seq<nat>) returns (str: string)
    requires IsChecksum(check) && AreDigits(256, vchIn)
    ensures str == EncodeCheck(check, vchIn)
    ensures Decode(str).Some? && |Decode(str).value| == |vchIn| + 4
    ensures Decode(str).value[..|vchIn|] == vchIn && Decode(str).value[|vchIn|..] == check(vchIn)
  {
    hide Encode, Decode;
    DecodeEncode(vchIn + check(vchIn));
    str := EncodeBase58(vchIn + check(vchIn));
  }

  method DecodeBase58Check(check: seq<nat> -> seq<nat>, psz: string) returns (r: Option<seq<nat>>)
    ensures r == DecodeCheck(check, psz)
    ensures r.Some? <==>
              && Decode(psz).Some? && |Decode(psz).value| >= 4
              && var v := Decode(psz).value; v[|v| - 4..] == check(v[..|v| - 4])
    ensures r.Some? ==> r.value + check(r.value) == Decode(psz).value
  {
    hide Decode;
    r := DecodeBase58(psz);
    if r.None? || |r.value| < 4 {
      return None;
    }
    var vch := r.value;
    assert vch[..|vch| - 4] + vch[|vch| - 4..] == vch;
    if check(vch[..|vch| - 4]) != vch[|vch| - 4..] {
      return None;
    }
    r := Some(vch[..|vch| - 4]);
  }

  /** What was encoded with a checksum is decoded again. */
  lemma DecodeEncodeCheck(check: seq<nat> -> seq<nat>, b: seq<nat>)
    requires IsChecksum(check) && AreDigits(256, b)
    ensures DecodeCheck(check, EncodeCheck(check, b)) == Some(b)
  {
    hide Encode, Decode;
    DecodeEncode(b + check(b));
    assert (b + check(b))[..|b|] == b;
  }

  /** Only strings that were encoded with a checksum are decoded. */
  lemma EncodeDecodeCheck(check: seq<nat> -> seq<nat>, s: string)
    requires DecodeCheck(check, s).Some?
    ensures EncodeCheck(check, DecodeCheck(check, s).value) == Strip(s)
  {
    hide Encode, Decode;
    EncodeDecode(s);
    var v := Decode(s).value;
    assert v == v[..|v| - 4] + v[|v| - 4..];
  }
}
