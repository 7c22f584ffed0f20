/**
 How coins are stored (CCoins::Serialize and Unserialize in src/coins.h, amounts in
 src/compressor.cpp), over a stream of tokens: numbers, bytes and scripts.
 */
module CoinsCodec {
  import opened Coins
  import opened Numbers
  import opened Options

  const MAX_MONEY := 21000000 * 100000000
  const WORD: nat := 0x1_0000_0000_0000_0000

  // Amounts

  /** What stands for an amount of which e trailing zeroes have been removed. */
  function Pack(n: nat, e: nat): nat
    requires n > 0
  {
    if e < 9 then 1 + (n / 10 * 9 + n % 10 - 1) * 10 + e else 1 + (n - 1) * 10 + 9
  }

  function Stripped(n: nat, e: nat): nat
    requires n > 0
    decreases n
  {
    if n % 10 == 0 && e < 9 then Stripped(n / 10, e + 1) else Pack(n, e)
  }

  function Compress(n: nat): nat { if n == 0 then 0 else Stripped(n, 0) }

  function Scaled(n: nat, e: nat): (r: nat)
    ensures n > 0 ==> r > 0
    decreases e
  {
    if e == 0 then n else Scaled(n * 10, e - 1)
  }

  function Unpack(x: nat): nat { if x % 10 < 9 then x / 10 / 9 * 10 + x / 10 % 9 + 1 else x / 10 + 1 }

  function Decompress(x: nat): nat { if x == 0 then 0 else Scaled(Unpack(x - 1), (x - 1) % 10) }

  method CompressAmount(amount: nat) returns (r: nat)
    requires amount < WORD
    ensures r == Compress(amount) % WORD
  {
    if amount == 0 {
      return 0;
    }
    var n, e := amount, 0;
    while n % 10 == 0 && e < 9
      invariant n > 0 && 0 <= e <= 9 && Stripped(n, e) == Stripped(amount, 0)
      decreases n
    {
      n := n / 10;
      e := e + 1;
    }
    if e < 9 {
      var d := n % 10;
      assert 1 <= d <= 9;
      n := n / 10;
      return (1 + (n * 9 + d - 1) * 10 + e) % WORD;
    } else {
      return (1 + (n - 1) * 10 + 9) % WORD;
    }
  }

  method DecompressAmount(amount: nat) returns (n: nat)
    requires amount < WORD
    ensures n == Decompress(amount) % WORD
  {
    hide Scaled;
    if amount == 0 {
      return 0;
    }
    var x := amount - 1;
    var e := x % 10;
    x := x / 10;
    if e < 9 {
      var d := x % 9 + 1;
      x := x / 9;
      n := x * 10 + d;
    } else {
      n := x + 1;
    }
    while e != 0
      invariant 0 <= e && n < WORD && Scaled(n, e) % WORD == Decompress(amount) % WORD
      decreases e
    {
      ScaledNext(n, e);
      n := n * 10 % WORD;
      e := e - 1;
    }
    ScaledDone(n);
  }

  lemma ScaledNext(n: nat, e: nat)
    requires e > 0
    ensures Scaled(n * 10 % WORD, e - 1) % WORD == Scaled(n, e) % WORD
  {
    ScaledWraps(n * 10, e - 1);
  }

  lemma ScaledDone(n: nat)
    ensures Scaled(n, 0) == n
  {
  }

  /** Dropping high bits early makes no difference. */
  lemma {:induction false} ScaledWraps(n: nat, e: nat)
    ensures Scaled(n % WORD, e) % WORD == Scaled(n, e) % WORD
    decreases e
  {
    if e > 0 {
      ScaledWraps(n % WORD * 10, e - 1);
      ScaledWraps(n * 10, e - 1);
      assert n % WORD * 10 % WORD == n * 10 % WORD;
    }
  }

  /** An amount as a word, and a word as an amount. */
  function Word(v: int): (w: nat)
    ensures w < WORD
  {
    v % WORD
  }

  function Signed(w: nat): int { if w < WORD / 2 then w else w - WORD }

  function Stored(v: int): nat { Compress(Word(v)) % WORD }

  function Restored(x: nat): int { Signed(Decompress(x % WORD) % WORD) }

  /** An amount of 64 bits whose compressed form has no more of them. */
  predicate Fits(v: int) { Signed(Word(v)) == v && Compress(Word(v)) < WORD }

  lemma AmountKept(v: int)
    requires Fits(v)
    ensures Restored(Stored(v)) == v
  {
    hide Compress, Decompress;
    DecompressCompressed(Word(v));
  }

  lemma Unpacked(n: nat, e: nat)
    requires n > 0 && e <= 9 && (e < 9 ==> n % 10 != 0)
    ensures Pack(n, e) > 0 && Unpack(Pack(n, e) - 1) == n && (Pack(n, e) - 1) % 10 == e
  {
  }

  lemma {:induction false} DecompressStripped(n: nat, e: nat)
    requires n > 0 && e <= 9
    ensures Decompress(Stripped(n, e)) == Scaled(n, e)
    decreases n
  {
    if n % 10 == 0 && e < 9 {
      DecompressStripped(n / 10, e + 1);
    } else {
      Unpacked(n, e);
    }
  }

  /** Every amount is restored. */
  lemma DecompressCompressed(n: nat)
    ensures Decompress(Compress(n)) == n
  {
    if n > 0 {
      DecompressStripped(n, 0);
    }
  }

  lemma {:induction false} StrippedScaled(n: nat, e: nat, k: nat)
    requires n > 0 && e + k <= 9
    ensures Stripped(Scaled(n, k), e) == Stripped(n, e + k)
    decreases k
  {
    if k > 0 {
      StrippedScaled(n * 10, e, k - 1);
      assert n * 10 % 10 == 0 && n * 10 / 10 == n;
      assert Stripped(n * 10, e + k - 1) == Stripped(n, e + k);
    }
  }

  lemma Packed(x: nat)
    ensures Unpack(x) > 0 && Pack(Unpack(x), x % 10) == x + 1 && (x % 10 < 9 ==> Unpack(x) % 10 != 0)
  {
  }

  /** And every number stands for an amount: the code is a bijection. */
  lemma CompressDecompressed(x: nat)
    ensures Compress(Decompress(x)) == x
  {
    if x > 0 {
      var n, e := Unpack(x - 1), (x - 1) % 10;
      Packed(x - 1);
      StrippedScaled(n, 0, e);
    }
  }

  lemma {:induction false} ScaledIs(n: nat, e: nat)
    ensures Scaled(n, e) == n * Pow(10, e)
    decreases e
  {
    if e > 0 {
      ScaledIs(n * 10, e - 1);
      PowNext(10, e - 1);
      MulAssoc(n, 10, Pow(10, e - 1));
    } else {
      PowZero(10);
    }
  }

  lemma CompressScaled(m: nat, e: nat)
    requires m > 0 && e <= 9 && (e < 9 ==> m % 10 != 0)
    ensures Compress(m * Pow(10, e)) == Pack(m, e)
  {
    ScaledIs(m, e);
    StrippedScaled(m, 0, e);
    assert Stripped(m, e) == Pack(m, e);
    hide Stripped, Scaled, Pow, Pack;
    assert Scaled(m, e) > 0;
  }

  /** An amount of n digits before one that is not 0, and e zeroes after it, in its documented form. */
  lemma CompressForm(n: nat, d: nat, e: nat)
    requires 1 <= d <= 9 && e < 9
    ensures Compress((10 * n + d) * Pow(10, e)) == 1 + 10 * (9 * n + d - 1) + e
  {
    hide Compress, Pow;
    CompressScaled(10 * n + d, e);
  }

  /** And one with nine zeroes and more. */
  lemma CompressRound(n: nat)
    requires n > 0
    ensures Compress(n * 1000000000) == 1 + 10 * (n - 1) + 9
  {
    assert Pow(10, 9) == 1000000000 by {
      PowAdd(10, 4, 5);
    }
    hide Compress, Pow;
    CompressScaled(n, 9);
  }

  lemma {:induction false} StrippedBound(n: nat, e: nat)
    requires n > 0 && e <= 9
    ensures Stripped(n, e) <= 10 * n + e
    decreases n
  {
    if n % 10 == 0 && e < 9 {
      StrippedBound(n / 10, e + 1);
    }
  }

  /** Amounts of money fit into 64 bits in either form. */
  lemma CompressFits(n: nat)
    requires n <= MAX_MONEY
    ensures Compress(n) < WORD && Fits(n)
  {
    if n > 0 {
      StrippedBound(n, 0);
    }
  }

  // The mask: which outputs from the third on are unspent, eight to a byte

  predicate Unspent8(vout: seq<TxOut>, b: nat, i: nat) {
    2 + 8 * b + i < |vout| && !vout[2 + 8 * b + i].IsNull()
  }

  function LowBits(vout: seq<TxOut>, b: nat, n: nat): nat {
    if n == 0 then 0 else LowBits(vout, b, n - 1) + if Unspent8(vout, b, n - 1) then Pow2(n - 1) else 0
  }

  function MaskByte(vout: seq<TxOut>, b: nat): nat { LowBits(vout, b, 8) }

  lemma {:induction false} LowBitsBound(vout: seq<TxOut>, b: nat, n: nat)
    ensures LowBits(vout, b, n) < Pow2(n)
  {
    if n > 0 {
      LowBitsBound(vout, b, n - 1);
    }
  }

  /** Adding a higher power of two leaves a bit alone. */
  lemma BitAlone(x: nat, p: nat, n: nat)
    requires p < n
    ensures TestBit(x + Pow2(n), p) == TestBit(x, p)
  {
    hide Pow2;
    Pow2Add(p, n - p);
    Pow2Add(1, n - p - 1);
    Pow2Zero();
    Pow2Next(0);
    var q, r, k := x / Pow2(p), x % Pow2(p), Pow2(n - p - 1);
    DivModOf(x, Pow2(p));
    Distribute(q, 2 * k, Pow2(p));
    assert Pow2(n) == 2 * k * Pow2(p) by {
      assert Pow2(p) * (2 * k) == 2 * k * Pow2(p);
    }
    DivMod(x + Pow2(n), Pow2(p), q + 2 * k, r);
  }

  /** The bits of a mask byte. */
  lemma {:induction false} MaskBits(vout: seq<TxOut>, b: nat, n: nat, p: nat)
    requires p < n
    ensures TestBit(LowBits(vout, b, n), p) == Unspent8(vout, b, p)
  {
    hide Pow2, Unspent8, TestBit;
    var x := LowBits(vout, b, n - 1);
    if p < n - 1 {
      MaskBits(vout, b, n - 1, p);
      BitAlone(x, p, n - 1);
    } else {
      LowBitsBound(vout, b, p);
      TopBits(x, p);
    }
  }

  lemma TopBits(x: nat, p: nat)
    requires x < Pow2(p)
    ensures !TestBit(x, p) && TestBit(x + Pow2(p), p)
  {
    DivMod(x, Pow2(p), 0, x);
    DivMod(x + Pow2(p), Pow2(p), 1, x);
  }

  /** A byte is zero, exactly if all its outputs are spent. */
  lemma {:induction false} ZeroByte(vout: seq<TxOut>, b: nat, n: nat)
    ensures LowBits(vout, b, n) == 0 <==> forall i :: 0 <= i < n ==> !Unspent8(vout, b, i)
  {
    if n > 0 {
      ZeroByte(vout, b, n - 1);
    }
  }

  /** How many of the mask's first bytes are not zero. */
  function NonZero(vout: seq<TxOut>, n: nat): nat {
    if n == 0 then 0 else NonZero(vout, n - 1) + if MaskByte(vout, n - 1) != 0 then 1 else 0
  }

  /** The number of bytes up to the last that is not zero. */
  function Used(vout: seq<TxOut>, n: nat): nat {
    if n == 0 then 0 else if MaskByte(vout, n - 1) != 0 then n else Used(vout, n - 1)
  }

  /** How many bytes it takes to cover all outputs. */
  function Cover(vout: seq<TxOut>): nat { if |vout| <= 2 then 0 else (|vout| - 2 + 7) / 8 }

  method CalcMaskSize(c: CoinsData) returns (nBytes: nat, nNonzeroBytes: nat)
    ensures nBytes == Used(c.vout, Cover(c.vout)) && nNonzeroBytes == NonZero(c.vout, Cover(c.vout))
  {
    hide LowBits;
    var lastUsed, b := 0, 0;
    nNonzeroBytes := 0;
    while 2 + b * 8 < |c.vout|
      invariant 0 <= b <= Cover(c.vout) && lastUsed == Used(c.vout, b) && nNonzeroBytes == NonZero(c.vout, b)
    {
      var fZero, i := true, 0;
      while i < 8 && 2 + b * 8 + i < |c.vout|
        invariant 0 <= i <= 8 && (fZero <==> forall k :: 0 <= k < i ==> !Unspent8(c.vout, b, k))
      {
        if !c.vout[2 + b * 8 + i].IsNull() {
          fZero := false;
        }
        assert Unspent8(c.vout, b, i) == !c.vout[2 + b * 8 + i].IsNull();
        i := i + 1;
      }
      assert forall k :: i <= k < 8 ==> !Unspent8(c.vout, b, k);
      ZeroByte(c.vout, b, 8);
      if !fZero {
        lastUsed := b + 1;
        nNonzeroBytes := nNonzeroBytes + 1;
      }
      b := b + 1;
    }
    nBytes := lastUsed;
  }

  // The stream

  datatype Token = VarInt(n: nat) | Byte(b: nat) | Script(s: seq<nat>)

  /** What is written of a number of type int: only the lowest seven bits of a negative one. */
  function Low(x: int): nat { if x < 0 then x % 128 else x }

  function BytesFrom(vout: seq<TxOut>, b: nat, n: nat): seq<Token>
    decreases n - b
  {
    if b >= n then [] else [Byte(MaskByte(vout, b))] + BytesFrom(vout, b + 1, n)
  }

  function OutsFrom(vout: seq<TxOut>, i: nat): seq<Token>
    decreases |vout| - i
  {
    if i >= |vout| then []
    else if vout[i].IsNull() then OutsFrom(vout, i + 1)
    else [VarInt(Stored(vout[i].value)), Script(vout[i].script)] + OutsFrom(vout, i + 1)
  }

  function Code(c: CoinsData): int {
    var first, second := c.IsAvailable(0), c.IsAvailable(1);
    8 * (NonZero(c.vout, Cover(c.vout)) - if first || second then 0 else 1)
      + (if c.coinbase then 1 else 0) + (if first then 2 else 0) + if second then 4 else 0
  }

  /** Coins in their stored form. */
  ghost function Encoding(c: CoinsData): seq<Token>
    requires !c.IsPruned()
  {
    CodeNatural(c);
    [VarInt(Low(c.version)), VarInt(Code(c))] + BytesFrom(c.vout, 0, Used(c.vout, Cover(c.vout)))
      + OutsFrom(c.vout, 0) + [VarInt(Low(c.height))]
  }

  lemma {:induction false} NonZeroUp(vout: seq<TxOut>, b: nat, n: nat)
    requires b <= n
    ensures NonZero(vout, b) <= NonZero(vout, n)
  {
    if b < n {
      NonZeroUp(vout, b, n - 1);
    }
  }

  /** Coins that are not pruned have something to say about some output. */
  lemma CodeNatural(c: CoinsData)
    requires !c.IsPruned()
    ensures Code(c) >= 0
  {
    hide LowBits;
    if !c.IsAvailable(0) && !c.IsAvailable(1) {
      var i :| 0 <= i < |c.vout| && !c.vout[i].IsNull();
      var b, p := (i - 2) / 8, (i - 2) % 8;
      assert Unspent8(c.vout, b, p);
      ZeroByte(c.vout, b, 8);
      NonZeroUp(c.vout, b + 1, Cover(c.vout));
    }
  }

  method Serialize(c: CoinsData) returns (s: seq<Token>)
    requires !c.IsPruned()
    ensures s == Encoding(c) && Layout(s, c, Used(c.vout, Cover(c.vout)))
  {
    hide LowBits, Compress, NonZero, Used, Low, Layout;
    EncodingLaid(c);
    var nMaskSize, nMaskCode := CalcMaskSize(c);
    var fFirst := |c.vout| > 0 && !c.vout[0].IsNull();
    var fSecond := |c.vout| > 1 && !c.vout[1].IsNull();
    CodeNatural(c);
    var nCode := 8 * (nMaskCode - if fFirst || fSecond then 0 else 1)
                 + (if c.coinbase then 1 else 0) + (if fFirst then 2 else 0) + if fSecond then 4 else 0;
    s := [VarInt(Low(c.version)), VarInt(nCode)];
    ghost var head := s;
    for b := 0 to nMaskSize
      invariant s + BytesFrom(c.vout, b, nMaskSize) == head + BytesFrom(c.vout, 0, nMaskSize)
    {
      var chAvail := WriteByte(c.vout, b);
      s := s + [Byte(chAvail)];
      assert s + BytesFrom(c.vout, b + 1, nMaskSize) == s[..|s| - 1] + BytesFrom(c.vout, b, nMaskSize);
    }
    assert s + [] == s;
    ghost var body := s;
    for i := 0 to |c.vout|
      invariant s + OutsFrom(c.vout, i) == body + OutsFrom(c.vout, 0)
    {
      if !c.vout[i].IsNull() {
        var amount := CompressAmount(Word(c.vout[i].value));
        ghost var before := s;
        s := s + [VarInt(amount), Script(c.vout[i].script)];
        assert s + OutsFrom(c.vout, i + 1) == before + OutsFrom(c.vout, i);
      }
    }
    assert s + [] == s;
    s := s + [VarInt(Low(c.height))];
  }

  /** A byte of the mask, bit by bit. */
  method WriteByte(vout: seq<TxOut>, b: nat) returns (chAvail: nat)
    ensures chAvail == MaskByte(vout, b)
  {
    hide Pow2, Or;
    chAvail := 0;
    var i := 0;
    while i < 8 && 2 + b * 8 + i < |vout|
      invariant 0 <= i <= 8 && chAvail == LowBits(vout, b, i)
    {
      if !vout[2 + b * 8 + i].IsNull() {
        LowBitsBound(vout, b, i);
        DivMod(Pow2(i), Pow2(i), 1, 0);
        OrIsSum(Pow2(i), chAvail, i);
        chAvail := Or(chAvail, Pow2(i));
      }
      i := i + 1;
    }
    NoMoreBits(vout, b, i);
  }

  lemma {:induction false} NoMoreBits(vout: seq<TxOut>, b: nat, i: nat)
    requires i <= 8 && (i < 8 ==> 2 + b * 8 + i >= |vout|)
    ensures LowBits(vout, b, i) == LowBits(vout, b, 8)
    decreases 8 - i
  {
    if i < 8 {
      NoMoreBits(vout, b, i + 1);
    }
  }

  // Reading

  function Bits(b: nat): seq<bool> { seq(8, p => p >= 0 && TestBit(b, p)) }

  /** Reads mask bytes until a number of them were not zero. */
  function ParseMask(s: seq<Token>, count: nat, avail: seq<bool>): Option<(seq<bool>, seq<Token>)>
    decreases |s|
  {
    if count == 0 then Some((avail, s))
    else if s == [] || !s[0].Byte? then None
    else ParseMask(s[1..], if s[0].b != 0 then count - 1 else count, avail + Bits(s[0].b))
  }

  /** Reads the outputs that are available, from number i on. */
  function ParseOuts(s: seq<Token>, avail: seq<bool>, vout: seq<TxOut>): Option<(seq<TxOut>, seq<Token>)>
    requires |vout| <= |avail|
    decreases |avail| - |vout|
  {
    if |vout| == |avail| then Some((vout, s))
    else if !avail[|vout|] then ParseOuts(s, avail, vout + [NULL_OUT])
    else if |s| < 2 || !s[0].VarInt? || !s[1].Script? then None
    else ParseOuts(s[2..], avail, vout + [TxOut(Restored(s[0].n), s[1].s)])
  }

  function Parse(s: seq<Token>): Option<(CoinsData, seq<Token>)> {
    if |s| < 2 || !s[0].VarInt? || !s[1].VarInt? then None
    else
      var code := s[1].n;
      match ParseMask(s[2..], code / 8 + (if code / 2 % 4 != 0 then 0 else 1), [code / 2 % 2 == 1, code / 4 % 2 == 1])
      case None => None
      case Some((avail, s1)) =>
        match ParseOuts(s1, avail, [])
        case None => None
        case Some((vout, s2)) =>
          if s2 == [] || !s2[0].VarInt? then None
          else Some((Cleaned(CoinsData(code % 2 == 1, vout, s2[0].n, s[0].n)), s2[1..]))
  }

  method Unserialize(s: seq<Token>) returns (r: Option<(CoinsData, seq<Token>)>)
    ensures r == Parse(s)
    ensures r.Some? ==> exists c, avail, u: nat, maskBytes: nat, k: nat ::
              ReadFrom(s, c, avail, u, maskBytes, k) && r.value == (Cleaned(c), s[k..])
  {
    hide Cleaned, ReadFrom;
    if Parse(s).Some? {
      var _, _, _, _, _ := ParseReads(s);
    }
    if |s| < 2 || !s[0].VarInt? || !s[1].VarInt? {
      return None;
    }
    var nVersion, nCode, rest := s[0].n, s[1].n, s[2..];
    var fCoinBase := nCode % 2 == 1;
    var vAvail := [nCode / 2 % 2 == 1, nCode / 4 % 2 == 1];
    var nMaskCode := nCode / 8 + if nCode / 2 % 4 != 0 then 0 else 1;
    ghost var all := ParseMask(rest, nMaskCode, vAvail);
    while nMaskCode > 0
      invariant ParseMask(rest, nMaskCode, vAvail) == all
      decreases |rest|
    {
      if rest == [] || !rest[0].Byte? {
        return None;
      }
      var chAvail := rest[0].b;
      vAvail := vAvail + Bits(chAvail);
      rest := rest[1..];
      if chAvail != 0 {
        nMaskCode := nMaskCode - 1;
      }
    }
    var vout: seq<TxOut> := [];
    ghost var outs := ParseOuts(rest, vAvail, vout);
    while |vout| < |vAvail|
      invariant |vout| <= |vAvail| && ParseOuts(rest, vAvail, vout) == outs
    {
      if vAvail[|vout|] {
        if |rest| < 2 || !rest[0].VarInt? || !rest[1].Script? {
          return None;
        }
        var value := DecompressAmount(rest[0].n % WORD);
        vout := vout + [TxOut(Signed(value), rest[1].s)];
        rest := rest[2..];
      } else {
        vout := vout + [NULL_OUT];
      }
    }
    if rest == [] || !rest[0].VarInt? {
      return None;
    }
    var c := Cleanup(CoinsData(fCoinBase, vout, rest[0].n, nVersion));
    r := Some((c, rest[1..]));
  }

  // Reading what was written

  /** Which outputs are unspent, up to a mask byte. */
  function Avail(vout: seq<TxOut>, b: nat): seq<bool> {
    seq(2 + 8 * b, i => 0 <= i < |vout| && !vout[i].IsNull())
  }

  lemma AvailNext(vout: seq<TxOut>, b: nat)
    ensures Avail(vout, b) + Bits(MaskByte(vout, b)) == Avail(vout, b + 1)
  {
    hide LowBits, TestBit;
    var x, y := Avail(vout, b) + Bits(MaskByte(vout, b)), Avail(vout, b + 1);
    forall i | 0 <= i < |y| ensures x[i] == y[i] {
      if i >= 2 + 8 * b {
        MaskBits(vout, b, 8, i - (2 + 8 * b));
      }
    }
  }

  lemma {:induction false} UsedIs(vout: seq<TxOut>, n: nat)
    ensures var u := Used(vout, n);
            && u <= n && NonZero(vout, u) == NonZero(vout, n) && (u > 0 ==> MaskByte(vout, u - 1) != 0)
            && forall b :: u <= b < n ==> MaskByte(vout, b) == 0
  {
    if n > 0 {
      UsedIs(vout, n - 1);
    }
  }

  /** The mask loop reads exactly the bytes that were written. */
  lemma {:induction false} MaskRead(vout: seq<TxOut>, b: nat, u: nat, rest: seq<Token>)
    requires b <= u && (u > 0 ==> MaskByte(vout, u - 1) != 0)
    ensures NonZero(vout, b) <= NonZero(vout, u)
    ensures ParseMask(BytesFrom(vout, b, u) + rest, NonZero(vout, u) - NonZero(vout, b), Avail(vout, b)) ==
              Some((Avail(vout, u), rest))
    decreases u - b
  {
    hide LowBits, TestBit, Avail;
    NonZeroUp(vout, b, u);
    if b == u {
      assert BytesFrom(vout, b, u) + rest == rest;
    } else {
      NonZeroUp(vout, b, u - 1);
      var s := BytesFrom(vout, b, u) + rest;
      assert s[0] == Byte(MaskByte(vout, b)) && s[1..] == BytesFrom(vout, b + 1, u) + rest;
      AvailNext(vout, b);
      MaskRead(vout, b + 1, u, rest);
    }
  }

  /** An output as it is read back: spent ones are blank. */
  function Blank(vout: seq<TxOut>, i: nat): TxOut {
    if i < |vout| && !vout[i].IsNull() then TxOut(Restored(Stored(vout[i].value)), vout[i].script) else NULL_OUT
  }

  function Blanked(vout: seq<TxOut>, n: nat): seq<TxOut> { seq(n, i requires i >= 0 => Blank(vout, i)) }

  lemma {:induction false} OutsRead(vout: seq<TxOut>, avail: seq<bool>, i: nat, rest: seq<Token>)
    requires i <= |avail| && forall k :: 0 <= k < |avail| ==> avail[k] == (k < |vout| && !vout[k].IsNull())
    requires forall k :: 0 <= k < |vout| && !vout[k].IsNull() ==> k < |avail|
    ensures ParseOuts(OutsFrom(vout, i) + rest, avail, Blanked(vout, i)) == Some((Blanked(vout, |avail|), rest))
    decreases |avail| - i
  {
    hide Stored, Restored;
    var s := OutsFrom(vout, i) + rest;
    if i == |avail| {
      NoMoreOuts(vout, i);
      assert s == rest;
    } else {
      assert Blanked(vout, i + 1) == Blanked(vout, i) + [Blank(vout, i)];
      OutsRead(vout, avail, i + 1, rest);
      if avail[i] {
        assert s[0] == VarInt(Stored(vout[i].value)) && s[1] == Script(vout[i].script) &&
                 s[2..] == OutsFrom(vout, i + 1) + rest;
      } else {
        assert OutsFrom(vout, i) == OutsFrom(vout, i + 1);
      }
    }
  }

  lemma {:induction false} NoMoreOuts(vout: seq<TxOut>, i: nat)
    requires forall k :: i <= k < |vout| ==> vout[k].IsNull()
    ensures OutsFrom(vout, i) == []
    decreases |vout| - i
  {
    if i < |vout| {
      NoMoreOuts(vout, i + 1);
    }
  }

  /** Outputs that are spent at the end make no difference. */
  lemma {:induction false} TrimLonger(vout: seq<TxOut>, m: nat, n: nat)
    requires m <= n && forall k :: m <= k < |vout| ==> vout[k].IsNull()
    ensures Trimmed(Blanked(vout, n)) == Trimmed(Blanked(vout, m))
    decreases n
  {
    hide Stored, Restored;
    if m < n {
      TrimLonger(vout, m, n - 1);
      assert Blanked(vout, n)[..n - 1] == Blanked(vout, n - 1);
      assert Blanked(vout, n)[n - 1] == NULL_OUT;
    }
  }

  lemma AllCovered(vout: seq<TxOut>, i: nat)
    requires i < |vout| && !vout[i].IsNull()
    ensures i < 2 + 8 * Used(vout, Cover(vout))
  {
    hide LowBits;
    UsedIs(vout, Cover(vout));
    if i >= 2 {
      var b, p := (i - 2) / 8, (i - 2) % 8;
      assert Unspent8(vout, b, p);
      ZeroByte(vout, b, 8);
      assert b < Cover(vout) && MaskByte(vout, b) != 0;
    }
  }

  lemma CodeRead(c: CoinsData)
    requires !c.IsPruned() && Code(c) >= 0
    ensures var code := Code(c);
            && (code % 2 == 1 <==> c.coinbase) && (code / 2 % 2 == 1 <==> c.IsAvailable(0)) &&
                 (code / 4 % 2 == 1 <==> c.IsAvailable(1))
            && code / 8 + (if code / 2 % 4 != 0 then 0 else 1) == NonZero(c.vout, Cover(c.vout))
  {
    hide NonZero, Cover;
    var first, second := c.IsAvailable(0), c.IsAvailable(1);
    CodeParts(NonZero(c.vout, Cover(c.vout)) - (if first || second then 0 else 1), c.coinbase, first, second);
  }

  lemma CodeParts(n: int, coinbase: bool, first: bool, second: bool)
    requires n >= 0
    ensures var code := 8 * n + (if coinbase then 1 else 0) + (if first then 2 else 0) + if second then 4 else 0;
            && code / 8 == n && (code % 2 == 1 <==> coinbase) && (code / 2 % 2 == 1 <==> first) &&
                 (code / 4 % 2 == 1 <==> second)
            && (code / 2 % 4 != 0 <==> first || second)
  {
  }

  /** Coins as they are read back. */
  ghost function Reread(c: CoinsData): CoinsData {
    Cleaned(CoinsData(c.coinbase, Blanked(c.vout, |c.vout|), Low(c.height), Low(c.version)))
  }

  /**
   Reading back what was written gives the coins, without spent outputs at the end and with blanks
   for the others, and leaves the rest of the stream.
   */
  lemma ParseEncoding(c: CoinsData, rest: seq<Token>)
    requires !c.IsPruned()
    ensures Parse(Encoding(c) + rest) == Some((Reread(c), rest))
  {
    hide NonZero, Cover, Used, LowBits, Compress, BytesFrom, OutsFrom, ParseMask, ParseOuts, Cleaned, Blanked, Code,
         Low;
    CodeNatural(c);
    CodeRead(c);
    var vout, u := c.vout, Used(c.vout, Cover(c.vout));
    var s := Encoding(c) + rest;
    var tail := [VarInt(Low(c.height))] + rest;
    assert s[2..] == BytesFrom(vout, 0, u) + (OutsFrom(vout, 0) + tail);
    UsedIs(vout, Cover(vout));
    NoBytes(vout);
    MaskRead(vout, 0, u, OutsFrom(vout, 0) + tail);
    assert Avail(vout, 0) == [c.IsAvailable(0), c.IsAvailable(1)];
    forall k | 0 <= k < |vout| && !vout[k].IsNull() ensures k < 2 + 8 * u { AllCovered(vout, k); }
    OutsRead(vout, Avail(vout, u), 0, tail);
    NoBlanks(vout);
    assert tail[1..] == rest;
    CleanedSame(c, 2 + 8 * u);
  }

  lemma NoBytes(vout: seq<TxOut>)
    ensures NonZero(vout, 0) == 0
  {
  }

  lemma NoBlanks(vout: seq<TxOut>)
    ensures Blanked(vout, 0) == []
  {
  }

  lemma CleanedSame(c: CoinsData, n: nat)
    requires forall k :: n <= k < |c.vout| ==> c.vout[k].IsNull()
    ensures Cleaned(CoinsData(c.coinbase, Blanked(c.vout, n), Low(c.height), Low(c.version))) == Reread(c)
  {
    hide Trimmed, Blanked, Low;
    if n <= |c.vout| {
      TrimLonger(c.vout, n, |c.vout|);
    } else {
      TrimLonger(c.vout, |c.vout|, n);
    }
  }

  /** Clean coins whose spent outputs are blank come back, exactly if version and height are not negative. */
  lemma RoundTrip(c: CoinsData, rest: seq<Token>)
    requires !c.IsPruned() && c.IsClean()
    requires forall i :: 0 <= i < |c.vout| ==>
               if c.vout[i].IsNull() then c.vout[i] == NULL_OUT else Fits(c.vout[i].value)
    ensures Parse(Encoding(c) + rest) == Some((c, rest)) <==> c.version >= 0 && c.height >= 0
  {
    hide Parse, Encoding, Stored, Restored, Fits;
    ParseEncoding(c, rest);
    forall i | 0 <= i < |c.vout| ensures Blank(c.vout, i) == c.vout[i] {
      if !c.vout[i].IsNull() {
        AmountKept(c.vout[i].value);
      }
    }
    assert Blanked(c.vout, |c.vout|) == c.vout;
  }

  /** Coins of a transaction with version -1 come back with version 127. */
  lemma VersionLost(c: CoinsData)
    requires c.version == -1 && !c.IsPruned()
    ensures Parse(Encoding(c)).Some? && Parse(Encoding(c)).value.0.version == 127
  {
    hide Parse, Encoding, Trimmed, Blanked;
    ParseEncoding(c, []);
    assert Encoding(c) + [] == Encoding(c);
  }

  // Where everything is in the stream

  /** How many of the first outputs are there. */
  function Rank(avail: seq<bool>, i: nat): nat
    requires i <= |avail|
  {
    if i == 0 then 0 else Rank(avail, i - 1) + if avail[i - 1] then 1 else 0
  }

  lemma RankNone(avail: seq<bool>)
    ensures Rank(avail, 0) == 0
  {
  }

  lemma {:induction false} RankGrows(avail: seq<bool>, i: nat, j: nat)
    requires i <= j <= |avail|
    ensures Rank(avail, i) <= Rank(avail, j)
    decreases j
  {
    if i < j {
      RankGrows(avail, i, j - 1);
    }
  }

  function Unspents(vout: seq<TxOut>): seq<bool> {
    seq(|vout|, i requires 0 <= i < |vout| => !vout[i].IsNull())
  }

  /** The header code: bit 0 for a coinbase, bits 1 and 2 for the first two outputs, and the rest for the mask. */
  ghost predicate IsCode(code: nat, coinbase: bool, first: bool, second: bool, maskBytes: nat) {
    && (code % 2 == 1 <==> coinbase) && (code / 2 % 2 == 1 <==> first) && (code / 4 % 2 == 1 <==> second)
    && code / 8 == maskBytes - if first || second then 0 else 1
  }

  /** Bit p of byte b says whether output 2 + 8 b + p is there. */
  ghost predicate IsMask(bytes: seq<Token>, avail: seq<bool>) {
    forall b, p :: 0 <= b < |bytes| && 0 <= p < 8 ==>
      bytes[b].Byte? && (TestBit(bytes[b].b, p) <==> 2 + 8 * b + p < |avail| && avail[2 + 8 * b + p])
  }

  ghost predicate IsNonZero(t: Token) { t.Byte? && t.b != 0 }

  /** How many bytes are not zero. */
  ghost function NonZeroes(bytes: seq<Token>): nat {
    if bytes == [] then 0
    else NonZeroes(bytes[..|bytes| - 1]) + if IsNonZero(bytes[|bytes| - 1]) then 1 else 0
  }

  /** Outputs in order, an amount and a script for each that is there. */
  ghost predicate AreOuts(outs: seq<Token>, avail: seq<bool>, vout: seq<TxOut>)
    requires |avail| == |vout|
  {
    && |outs| == 2 * Rank(avail, |avail|)
    && forall i :: 0 <= i < |avail| && avail[i] ==>
         var k := 2 * Rank(avail, i);
         k + 1 < |outs| && outs[k] == VarInt(Stored(vout[i].value)) && outs[k + 1] == Script(vout[i].script)
  }

  lemma RankNext(avail: seq<bool>, i: nat)
    requires i < |avail|
    ensures Rank(avail, i + 1) == Rank(avail, i) + if avail[i] then 1 else 0
  {
  }

  lemma OutsNext(vout: seq<TxOut>, i: nat)
    requires i < |vout|
    ensures var outs := OutsFrom(vout, i);
            if vout[i].IsNull() then outs == OutsFrom(vout, i + 1)
            else
              && |outs| >= 2 && outs[0] == VarInt(Stored(vout[i].value)) && outs[1] == Script(vout[i].script)
              && outs[2..] == OutsFrom(vout, i + 1)
  {
    hide Stored;
  }

  lemma {:induction false} OutsLaid(vout: seq<TxOut>, i: nat, j: nat)
    requires i <= j <= |vout|
    ensures var avail := Unspents(vout);
            && Rank(avail, i) <= Rank(avail, j) <= Rank(avail, |vout|)
            && |OutsFrom(vout, i)| == 2 * (Rank(avail, |vout|) - Rank(avail, i))
            && (j < |vout| && avail[j] ==>
                  var k := 2 * (Rank(avail, j) - Rank(avail, i));
                  && k + 1 < |OutsFrom(vout, i)| && OutsFrom(vout, i)[k] == VarInt(Stored(vout[j].value))
                  && OutsFrom(vout, i)[k + 1] == Script(vout[j].script))
    decreases |vout| - i
  {
    hide Stored;
    var avail := Unspents(vout);
    RankGrows(avail, i, j);
    RankGrows(avail, j, |vout|);
    if i < |vout| {
      OutsLaid(vout, i + 1, if j == i then i + 1 else j);
      RankNext(avail, i);
      OutsNext(vout, i);
      hide OutsFrom, Rank;
      if i < j < |vout| && avail[i] && avail[j] {
        var k := 2 * (Rank(avail, j) - Rank(avail, i));
        assert OutsFrom(vout, i)[2..][k - 2] == OutsFrom(vout, i)[k];
        assert OutsFrom(vout, i)[2..][k - 1] == OutsFrom(vout, i)[k + 1];
      }
    }
  }

  lemma {:induction false} BytesLaid(vout: seq<TxOut>, b: nat, n: nat)
    requires b <= n
    ensures |BytesFrom(vout, b, n)| == n - b
    ensures forall k :: 0 <= k < n - b ==> BytesFrom(vout, b, n)[k] == Byte(MaskByte(vout, b + k))
    decreases n - b
  {
    hide LowBits;
    if b < n {
      BytesLaid(vout, b + 1, n);
    }
  }

  /** A number of type int, of which seven bits are left if it is negative. */
  ghost predicate IsInt(t: Token, x: int) { t.VarInt? && t.n == if x >= 0 then x else x % 128 }

  /** The stored form of coins, place by place: version, header code, u mask bytes, outputs and height. */
  ghost predicate Layout(s: seq<Token>, c: CoinsData, u: nat) {
    var avail := Unspents(c.vout);
    var m := 2 * Rank(avail, |avail|);
    && |s| == 2 + u + m + 1
    && IsInt(s[0], c.version) && s[1].VarInt?
    && IsCode(s[1].n, c.coinbase, c.IsAvailable(0), c.IsAvailable(1), NonZeroes(s[2..2 + u]))
    && IsMask(s[2..2 + u], avail) && (u > 0 ==> IsNonZero(s[1 + u]))
    && (forall i :: 0 <= i < |avail| && avail[i] ==> i < 2 + 8 * u)
    && AreOuts(s[2 + u..2 + u + m], avail, c.vout)
    && IsInt(s[2 + u + m], c.height)
  }

  lemma {:induction false} NonZeroesIs(vout: seq<TxOut>, bytes: seq<Token>)
    requires forall b :: 0 <= b < |bytes| ==> bytes[b] == Byte(MaskByte(vout, b))
    ensures NonZeroes(bytes) == NonZero(vout, |bytes|)
    decreases |bytes|
  {
    hide LowBits;
    if bytes != [] {
      NonZeroesIs(vout, bytes[..|bytes| - 1]);
    }
  }

  lemma MaskLaid(vout: seq<TxOut>, bytes: seq<Token>)
    requires forall b :: 0 <= b < |bytes| ==> bytes[b] == Byte(MaskByte(vout, b))
    ensures IsMask(bytes, Unspents(vout))
  {
    hide LowBits, TestBit;
    forall b, p | 0 <= b < |bytes| && 0 <= p < 8
      ensures var avail := Unspents(vout);
              bytes[b].Byte? && (TestBit(bytes[b].b, p) <==> 2 + 8 * b + p < |avail| && avail[2 + 8 * b + p])
    {
      MaskBits(vout, b, 8, p);
    }
  }

  lemma OutsAre(vout: seq<TxOut>)
    ensures AreOuts(OutsFrom(vout, 0), Unspents(vout), vout)
  {
    hide OutsFrom, Stored, Rank;
    RankNone(Unspents(vout));
    OutsLaid(vout, 0, 0);
    forall i | 0 <= i < |vout| && Unspents(vout)[i]
      ensures var k := 2 * Rank(Unspents(vout), i);
              && k + 1 < |OutsFrom(vout, 0)| && OutsFrom(vout, 0)[k] == VarInt(Stored(vout[i].value))
              && OutsFrom(vout, 0)[k + 1] == Script(vout[i].script)
    {
      OutsLaid(vout, 0, i);
    }
  }

  lemma CodeIs(code: nat)
    ensures IsCode(code, code % 2 == 1, code / 2 % 2 == 1, code / 4 % 2 == 1,
              code / 8 + if code / 2 % 4 != 0 then 0 else 1)
  {
    LowTwo(code / 2);
    assert code / 2 / 2 == code / 4;
  }

  lemma LowTwo(x: nat)
    ensures x % 4 == 2 * (x / 2 % 2) + x % 2
  {
  }

  lemma CodeLaid(c: CoinsData)
    requires !c.IsPruned()
    ensures Code(c) >= 0
    ensures IsCode(Code(c), c.coinbase, c.IsAvailable(0), c.IsAvailable(1), NonZero(c.vout, Cover(c.vout)))
  {
    hide NonZero, Cover, Code, IsCode;
    CodeNatural(c);
    CodeRead(c);
    CodeIs(Code(c));
  }

  lemma EncodingParts(c: CoinsData)
    requires !c.IsPruned()
    ensures Code(c) >= 0
    ensures var s, u := Encoding(c), Used(c.vout, Cover(c.vout));
            var m := 2 * Rank(Unspents(c.vout), |c.vout|);
            && |s| == 2 + u + m + 1 && s[0] == VarInt(Low(c.version)) && s[1] == VarInt(Code(c))
            && s[2..2 + u] == BytesFrom(c.vout, 0, u) && s[2 + u..2 + u + m] == OutsFrom(c.vout, 0)
            && s[2 + u + m] == VarInt(Low(c.height))
  {
    hide NonZero, Cover, Used, LowBits, OutsFrom, BytesFrom, Rank, Code, Low;
    CodeNatural(c);
    var u := Used(c.vout, Cover(c.vout));
    BytesLaid(c.vout, 0, u);
    OutsLaid(c.vout, 0, 0);
    RankNone(Unspents(c.vout));
  }

  /** Coins are stored in this form. */
  lemma EncodingLaid(c: CoinsData)
    requires !c.IsPruned()
    ensures Layout(Encoding(c), c, Used(c.vout, Cover(c.vout)))
  {
    hide NonZero, Cover, Used, LowBits, OutsFrom, BytesFrom, Rank, NonZeroes, AreOuts, IsMask, Encoding, Code, IsCode;
    EncodingParts(c);
    CodeLaid(c);
    var vout, u := c.vout, Used(c.vout, Cover(c.vout));
    UsedIs(vout, Cover(vout));
    BytesLaid(vout, 0, u);
    OutsAre(vout);
    MaskLaid(vout, BytesFrom(vout, 0, u));
    NonZeroesIs(vout, BytesFrom(vout, 0, u));
    forall i | 0 <= i < |vout| && Unspents(vout)[i] ensures i < 2 + 8 * u { AllCovered(vout, i); }
    assert u > 0 ==> Encoding(c)[2..2 + u][u - 1] == Encoding(c)[1 + u];
  }

  // Where everything is read from

  /** Bit q of a sequence of bytes, the lowest one of a byte first. */
  ghost predicate IsBit(s: seq<Token>, q: int, bit: bool) {
    0 <= q < 8 * |s| && s[q / 8].Byte? && (bit <==> TestBit(s[q / 8].b, q % 8))
  }

  /** Mask bytes that have been read: up to the last one that is not zero of as many as there must be. */
  ghost predicate MaskTaken(s: seq<Token>, u: nat, count: nat, before: seq<bool>, avail: seq<bool>) {
    && u <= |s| && |avail| == |before| + 8 * u && before == avail[..|before|]
    && (forall q :: |before| <= q < |avail| ==> IsBit(s, q - |before|, avail[q]))
    && NonZeroes(s[..u]) == count && (u > 0 ==> IsNonZero(s[u - 1]))
  }

  lemma NonZeroesFront(s: seq<Token>, t: Token)
    ensures NonZeroes([t] + s) == NonZeroes(s) + if IsNonZero(t) then 1 else 0
  {
    if s != [] {
      NonZeroesFront(s[..|s| - 1], t);
      assert ([t] + s)[..|s|] == [t] + s[..|s| - 1];
    } else {
      assert [t] + s == [t] && [t][..0] == [];
    }
  }

  /** One byte in front. */
  lemma MaskTakenFirst(s: seq<Token>, u: nat, count: nat, before: seq<bool>, avail: seq<bool>)
    requires s != [] && s[0].Byte? && count > 0
    requires MaskTaken(s[1..], u, if s[0].b != 0 then count - 1 else count, before + Bits(s[0].b), avail)
    ensures MaskTaken(s, u + 1, count, before, avail)
  {
    hide TestBit;
    var more := before + Bits(s[0].b);
    assert more == avail[..|before| + 8];
    forall q | |before| <= q < |avail| ensures IsBit(s, q - |before|, avail[q]) {
      var d := q - |before|;
      if q < |more| {
        assert d / 8 == 0 && d % 8 == d && more[q] == Bits(s[0].b)[d] && avail[..|more|][q] == avail[q];
      } else {
        assert IsBit(s[1..], q - |more|, avail[q]) && q - |more| == d - 8;
        assert (d - 8) / 8 == d / 8 - 1 && (d - 8) % 8 == d % 8 && s[1..][d / 8 - 1] == s[d / 8];
      }
    }
    assert s[1..][..0] == [];
    assert u > 0 ==> s[1..][u - 1] == s[u];
    assert s[..u + 1] == [s[0]] + s[1..][..u];
    NonZeroesFront(s[1..][..u], s[0]);
  }

  lemma {:induction false} MaskParsed(s: seq<Token>, count: nat, before: seq<bool>) returns (u: nat)
    requires ParseMask(s, count, before).Some?
    ensures var (avail, rest) := ParseMask(s, count, before).value;
            MaskTaken(s, u, count, before, avail) && rest == s[u..]
    decreases |s|
  {
    if count == 0 {
      u := 0;
      assert s[..0] == [];
    } else {
      hide TestBit, MaskTaken, Bits;
      var c := if s[0].b != 0 then count - 1 else count;
      u := MaskParsed(s[1..], c, before + Bits(s[0].b));
      MaskTakenFirst(s, u, count, before, ParseMask(s, count, before).value.0);
      u := u + 1;
    }
  }

  /** Outputs that have been read, from number n on. */
  ghost predicate OutsTaken(s: seq<Token>, avail: seq<bool>, n: nat, vout: seq<TxOut>) {
    && |vout| == |avail| && n <= |avail|
    && forall i :: n <= i < |avail| ==>
         if avail[i] then
           var k := 2 * (Rank(avail, i) - Rank(avail, n));
           && 0 <= k && k + 1 < |s| && s[k].VarInt? && s[k + 1].Script?
           && vout[i] == TxOut(Restored(s[k].n), s[k + 1].s)
         else vout[i] == NULL_OUT
  }

  lemma OutsTakenFirst(s: seq<Token>, avail: seq<bool>, n: nat, vout: seq<TxOut>)
    requires n < |avail| && OutsTaken(if avail[n] then s[Min(2, |s|)..] else s, avail, n + 1, vout)
    requires if avail[n] then |s| >= 2 && s[0].VarInt? && s[1].Script? && vout[n] == TxOut(Restored(s[0].n), s[1].s)
             else vout[n] == NULL_OUT
    ensures OutsTaken(s, avail, n, vout)
  {
    hide Restored;
    assert Rank(avail, n + 1) == Rank(avail, n) + if avail[n] then 1 else 0;
    forall i | n <= i < |avail|
      ensures if avail[i] then
                var k := 2 * (Rank(avail, i) - Rank(avail, n));
                && 0 <= k && k + 1 < |s| && s[k].VarInt? && s[k + 1].Script?
                && vout[i] == TxOut(Restored(s[k].n), s[k + 1].s)
              else vout[i] == NULL_OUT
    {
      if i > n && avail[i] && avail[n] {
        var k := 2 * (Rank(avail, i) - Rank(avail, n + 1));
        assert s[2..][k] == s[k + 2] && s[2..][k + 1] == s[k + 3];
      }
    }
  }

  lemma {:induction false} OutsParsed(s: seq<Token>, avail: seq<bool>, vout: seq<TxOut>)
    requires |vout| <= |avail| && ParseOuts(s, avail, vout).Some?
    ensures var (all, rest) := ParseOuts(s, avail, vout).value;
            var k := 2 * (Rank(avail, |avail|) - Rank(avail, |vout|));
            && |all| == |avail| && OutsTaken(s, avail, |vout|, all) && vout == all[..|vout|]
            && 0 <= k <= |s| && rest == s[k..]
    decreases |avail| - |vout|
  {
    hide Restored, OutsTaken;
    var n := |vout|;
    if n == |avail| {
      NoneTaken(s, avail, vout);
    } else {
      assert Rank(avail, n + 1) == Rank(avail, n) + if avail[n] then 1 else 0;
      var all := ParseOuts(s, avail, vout).value.0;
      if avail[n] {
        OutsParsed(s[2..], avail, vout + [TxOut(Restored(s[0].n), s[1].s)]);
      } else {
        OutsParsed(s, avail, vout + [NULL_OUT]);
      }
      assert all[..n + 1][..n] == vout && all[n] == all[..n + 1][n];
      OutsTakenFirst(s, avail, n, all);
    }
  }

  lemma NoneTaken(s: seq<Token>, avail: seq<bool>, vout: seq<TxOut>)
    requires |avail| == |vout|
    ensures OutsTaken(s, avail, |vout|, vout)
  {
  }

  /**
   What is read, place by place, before spent outputs at the end are dropped: the version, the
   header code, u mask bytes, two tokens for each output that is there, and the height.
   */
  ghost predicate ReadFrom(s: seq<Token>, c: CoinsData, avail: seq<bool>, u: nat, maskBytes: nat, k: nat) {
    && |avail| >= 2 && k == 2 + u + 2 * Rank(avail, |avail|) + 1 <= |s|
    && s[0].VarInt? && c.version == s[0].n
    && s[1].VarInt? && IsCode(s[1].n, c.coinbase, avail[0], avail[1], maskBytes)
    && MaskTaken(s[2..], u, maskBytes, avail[..2], avail)
    && OutsTaken(s[2 + u..], avail, 0, c.vout)
    && s[k - 1].VarInt? && c.height == s[k - 1].n
  }

  /** A stream that is accepted is read like this. */
  lemma ParseReads(s: seq<Token>) returns (c: CoinsData, avail: seq<bool>, u: nat, maskBytes: nat, k: nat)
    requires Parse(s).Some?
    ensures ReadFrom(s, c, avail, u, maskBytes, k)
    ensures Parse(s).value == (Cleaned(c), s[k..])
  {
    hide ParseMask, ParseOuts, Cleaned, MaskTaken, OutsTaken, Rank, IsCode;
    var code := s[1].n;
    maskBytes := code / 8 + if code / 2 % 4 != 0 then 0 else 1;
    CodeIs(code);
    var first := [code / 2 % 2 == 1, code / 4 % 2 == 1];
    var mask := ParseMask(s[2..], maskBytes, first).value;
    u := MaskParsed(s[2..], maskBytes, first);
    avail := mask.0;
    MaskStart(s[2..], u, maskBytes, first, avail);
    var outs := ParseOuts(mask.1, avail, []).value;
    OutsParsed(mask.1, avail, []);
    RankNone(avail);
    var m := 2 * Rank(avail, |avail|);
    assert s[2..][u..] == s[2 + u..] && s[2 + u..][m..] == s[2 + u + m..];
    k := 2 + u + m + 1;
    assert s[2 + u + m..][1..] == s[k..];
    c := CoinsData(code % 2 == 1, outs.0, s[k - 1].n, s[0].n);
  }

  lemma MaskStart(s: seq<Token>, u: nat, count: nat, before: seq<bool>, avail: seq<bool>)
    requires MaskTaken(s, u, count, before, avail)
    ensures u <= |s| && |before| <= |avail| && avail[..|before|] == before
  {
  }

  /** The documented example: version 1, the second output with an amount of 600 coins, and height 203998. */
  lemma Documented(script: seq<nat>)
    ensures var c := CoinsData(false, [NULL_OUT, TxOut(60000000000, script)], 203998, 1);
            !c.IsPruned() && Encoding(c) == [VarInt(1), VarInt(4), VarInt(600), Script(script), VarInt(203998)]
  {
    var c := CoinsData(false, [NULL_OUT, TxOut(60000000000, script)], 203998, 1);
    assert c.vout[1].value != -1;
    CompressRound(60);
    assert Stored(60000000000) == 600;
    hide Stored;
    assert OutsFrom(c.vout, 2) == [];
    assert OutsFrom(c.vout, 1) == [VarInt(600), Script(script)];
  }
}
