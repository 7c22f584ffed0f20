/**
 The Merkle root of a block (src/consensus/merkle.cpp): one pass over the leaves that keeps the
 hash of at most one complete subtree for each height, and a sweep up the right edge.
 */
module BlockMerkle {
  import opened Numbers
  import opened PartialMerkle

  const LEVELS := 32
  const MAX_LEAVES: nat := 0x8000_0000

  // Counting in powers of two

  lemma Pow2Is31()
    ensures Pow2(31) == MAX_LEAVES
  {
    assert Pow2(8) == 256;
    Pow2Add(8, 8);
    Pow2Add(16, 8);
    Pow2Add(7, 24);
    assert Pow2(7) == 128;
  }

  /** A level whose power is reached is below the highest one. */
  lemma LevelFits(level: nat, n: nat)
    requires 2 * Pow2(level) <= n <= MAX_LEAVES
    ensures level + 1 < LEVELS
  {
    hide Pow2;
    Pow2Is31();
    Pow2Next(level);
    if level + 1 >= 32 {
      Pow2Grows(32, level + 1);
      Pow2Next(31);
    }
  }

  lemma Halves(x: nat, level: nat)
    requires x % Pow2(level) == 0
    ensures var q := x / Pow2(level);
            && x == q * Pow2(level)
            && (q % 2 == 0 ==> x % Pow2(level + 1) == 0 && x / Pow2(level + 1) == q / 2)
            && (q % 2 == 1 ==> x % Pow2(level + 1) != 0)
  {
    hide Pow2;
    var p, q := Pow2(level), x / Pow2(level);
    Pow2Next(level);
    DivModOf(x, p);
    if q % 2 == 0 {
      MulAssoc(q / 2, 2, p);
      DivMod(x, 2 * p, q / 2, 0);
    } else {
      MulAssoc(q / 2, 2, p);
      Distribute(2 * (q / 2), 1, p);
      DivMod(x, 2 * p, q / 2, p);
    }
  }

  /** A multiple of a power is one of every smaller power, by an even number. */
  lemma {:induction false} SmallerPowers(x: nat, l: nat, level: nat)
    requires l < level && x % Pow2(level) == 0
    ensures x % Pow2(l) == 0 && !TestBit(x, l)
    decreases level
  {
    hide Pow2;
    var p, q := Pow2(level - 1), x / Pow2(level);
    Pow2Next(level - 1);
    DivModOf(x, 2 * p);
    MulAssoc(q, 2, p);
    DivMod(x, p, 2 * q, 0);
    if l < level - 1 {
      SmallerPowers(x, l, level - 1);
    }
  }

  /** One less makes no difference above the lowest one bit. */
  lemma OneLess(x: nat, l: nat)
    requires x > 0 && x % Pow2(l) != 0
    ensures (x - 1) / Pow2(l) == x / Pow2(l)
  {
    hide Pow2;
    DivModOf(x, Pow2(l));
    DivMod(x - 1, Pow2(l), x / Pow2(l), x % Pow2(l) - 1);
  }

  lemma OneLessMultiple(x: nat, l: nat)
    requires x > 0 && x % Pow2(l) == 0
    ensures (x - 1) / Pow2(l) == x / Pow2(l) - 1 && x / Pow2(l) >= 1
  {
    hide Pow2;
    var p, q := Pow2(l), x / Pow2(l);
    DivModOf(x, p);
    assert q >= 1;
    Distribute(q - 1, 1, p);
    DivMod(x - 1, p, q - 1, p - 1);
  }

  // Complete subtrees

  /** All leaves of the first `k` nodes at a level are there. */
  lemma CompleteIsNode(n: nat, level: nat, k: nat)
    requires k > 0 && k * Pow2(level) <= n
    ensures Node(n, level, k - 1)
  {
    hide Pow2, Node;
    FirstIsShift(level, k - 1);
    Distribute(k - 1, 1, Pow2(level));
    NodeHasLeaf(n, level, k - 1);
  }

  /** For every one bit of the number of leaves seen, the hash of the last complete subtree at that level. */
  ghost predicate Kept(H: PairHash, leaves: seq<Hash>, count: nat, inner: seq<Hash>, level: nat)
    requires level < |inner|
  {
    TestBit(count, level) ==>
      && count / Pow2(level) >= 1 && Node(|leaves|, level, count / Pow2(level) - 1)
      && inner[level] == CalcHash(H, leaves, level, count / Pow2(level) - 1)
  }

  ghost predicate AllKept(H: PairHash, leaves: seq<Hash>, count: nat, inner: seq<Hash>) {
    |inner| == LEVELS && forall level :: 0 <= level < LEVELS ==> Kept(H, leaves, count, inner, level)
  }

  /** The last complete subtree at a level, all of whose leaves have just been seen. */
  ghost predicate Carries(H: PairHash, leaves: seq<Hash>, count: nat, level: nat, h: Hash) {
    && 0 < count <= |leaves| && count % Pow2(level) == 0 && count / Pow2(level) >= 1
    && Node(|leaves|, level, count / Pow2(level) - 1)
    && h == CalcHash(H, leaves, level, count / Pow2(level) - 1)
  }

  lemma CarryStart(H: PairHash, leaves: seq<Hash>, count: nat)
    requires 0 < count <= |leaves|
    ensures Carries(H, leaves, count, 0, leaves[count - 1])
  {
    Pow2Zero();
  }

  /** Two neighbours make one subtree of the next level. */
  lemma CarryOn(H: PairHash, leaves: seq<Hash>, count: nat, inner: seq<Hash>, level: nat, h: Hash)
    requires Carries(H, leaves, count, level, h) && !TestBit(count, level) && |leaves| <= MAX_LEAVES
    requires AllKept(H, leaves, count - 1, inner) && level < LEVELS
    ensures level + 1 < LEVELS && Carries(H, leaves, count, level + 1, H(inner[level], h))
    ensures var p := count / Pow2(level) / 2 - 1;
            && p >= 0 && Node(|leaves|, level, 2 * p) && Node(|leaves|, level, 2 * p + 1)
            && inner[level] == CalcHash(H, leaves, level, 2 * p) && h == CalcHash(H, leaves, level, 2 * p + 1)
            && (2 * p + 2) * Pow2(level) == count
    ensures count / Pow2(level + 1) < count / Pow2(level)
  {
    hide Pow2, CalcHash, Node;
    var q := count / Pow2(level);
    Halves(count, level);
    OneLessMultiple(count, level);
    assert q >= 2 && q == 2 * (q / 2);
    MulMono(2, q, Pow2(level));
    LevelFits(level, count);
    assert Kept(H, leaves, count - 1, inner, level);
    var p := q / 2 - 1;
    Pow2Next(level);
    DivModOf(count, Pow2(level + 1));
    CompleteIsNode(|leaves|, level + 1, q / 2);
    CalcStep(H, leaves, level + 1, p);
  }

  /** The subtree takes its place, and the other subtrees keep theirs. */
  lemma CarryEnd(H: PairHash, leaves: seq<Hash>, count: nat, inner: seq<Hash>, level: nat, h: Hash)
    requires Carries(H, leaves, count, level, h) && TestBit(count, level) && level < LEVELS
    requires AllKept(H, leaves, count - 1, inner)
    ensures AllKept(H, leaves, count, inner[level := h])
  {
    hide Pow2, CalcHash, Node;
    var after := inner[level := h];
    forall l | 0 <= l < LEVELS ensures Kept(H, leaves, count, after, l) {
      if l < level {
        SmallerPowers(count, l, level);
      } else if l > level {
        assert count % Pow2(l) != 0 by {
          if count % Pow2(l) == 0 {
            SmallerPowers(count, level, l);
          }
        }
        OneLess(count, l);
        assert Kept(H, leaves, count - 1, inner, l);
      }
    }
  }

  // Repetitions

  /** Two neighbours at a level have the same hash. */
  ghost predicate Same(H: PairHash, leaves: seq<Hash>, level: nat, p: nat) {
    && Node(|leaves|, level, 2 * p) && Node(|leaves|, level, 2 * p + 1)
    && CalcHash(H, leaves, level, 2 * p) == CalcHash(H, leaves, level, 2 * p + 1)
  }

  /** There are two such neighbours, whose leaves are all among the first `count`. */
  ghost predicate Repeats(H: PairHash, leaves: seq<Hash>, count: int) {
    exists l: nat, p: nat :: Same(H, leaves, l, p) && (2 * p + 2) * Pow2(l) <= count
  }

  /** There are two below a level whose last leaf is the last one of the first `count`. */
  ghost predicate RepeatsBelow(H: PairHash, leaves: seq<Hash>, count: nat, level: nat) {
    exists l: nat, p: nat :: Same(H, leaves, l, p) && l < level && (2 * p + 2) * Pow2(l) == count
  }

  lemma NoRepetition(H: PairHash, leaves: seq<Hash>)
    ensures !Repeats(H, leaves, 0)
  {
    hide Same, Pow2;
    forall l: nat, p: nat | Same(H, leaves, l, p) ensures (2 * p + 2) * Pow2(l) > 0 { MulMono(1, 2 * p + 2, Pow2(l)); }
  }

  lemma RepeatsOn(H: PairHash, leaves: seq<Hash>, count: nat, level: nat, p: nat)
    requires (2 * p + 2) * Pow2(level) == count
    ensures RepeatsBelow(H, leaves, count, level + 1) <==>
              RepeatsBelow(H, leaves, count, level) || Same(H, leaves, level, p)
  {
    hide Same, Pow2;
    if RepeatsBelow(H, leaves, count, level + 1) {
      var l: nat, r: nat :| Same(H, leaves, l, r) && l < level + 1 && (2 * r + 2) * Pow2(l) == count;
      if l == level {
        DivMod(count, Pow2(level), 2 * r + 2, 0);
        DivMod(count, Pow2(level), 2 * p + 2, 0);
      }
    }
    if RepeatsBelow(H, leaves, count, level) {
      var l: nat, r: nat :| Same(H, leaves, l, r) && l < level && (2 * r + 2) * Pow2(l) == count;
      assert l < level + 1;
    }
  }

  lemma RepeatsEnd(H: PairHash, leaves: seq<Hash>, count: nat, level: nat)
    requires count > 0 && TestBit(count, level)
    ensures Repeats(H, leaves, count) <==> Repeats(H, leaves, count - 1) || RepeatsBelow(H, leaves, count, level)
  {
    hide Same, Pow2;
    if Repeats(H, leaves, count) {
      var l: nat, p: nat :| Same(H, leaves, l, p) && (2 * p + 2) * Pow2(l) <= count;
      if (2 * p + 2) * Pow2(l) == count && l >= level {
        Pow2Next(l);
        MulAssoc(p + 1, 2, Pow2(l));
        DivMod(count, Pow2(l + 1), p + 1, 0);
        SmallerPowers(count, level, l + 1);
      }
    }
    if Repeats(H, leaves, count - 1) {
      var l: nat, p: nat :| Same(H, leaves, l, p) && (2 * p + 2) * Pow2(l) <= count - 1;
      assert (2 * p + 2) * Pow2(l) <= count;
    }
    if RepeatsBelow(H, leaves, count, level) {
      var l: nat, p: nat :| Same(H, leaves, l, p) && l < level && (2 * p + 2) * Pow2(l) == count;
      assert (2 * p + 2) * Pow2(l) <= count;
    }
  }

  // The right edge

  /** The last node of a level, as if there were leaves to complete it. */
  ghost predicate Sweeping(H: PairHash, leaves: seq<Hash>, count: nat, level: nat, h: Hash) {
    var w := Width(|leaves|, level);
    && level < LEVELS && w >= 1 && count == w * Pow2(level)
    && h == CalcHash(H, leaves, level, w - 1)
    && forall k :: 0 <= k < level ==> Width(|leaves|, k) > 1
  }

  lemma WidthOfMultiple(n: nat, level: nat)
    requires n % Pow2(level) == 0
    ensures Width(n, level) == n / Pow2(level)
  {
    hide Pow2, Width;
    WidthIsShift(n, level);
    DivModOf(n, Pow2(level));
    DivMod(n + Pow2(level) - 1, Pow2(level), n / Pow2(level), Pow2(level) - 1);
  }

  lemma WidthOfOther(n: nat, level: nat)
    requires n % Pow2(level) != 0
    ensures Width(n, level) == n / Pow2(level) + 1
  {
    hide Pow2, Width;
    var p, q, r := Pow2(level), n / Pow2(level), n % Pow2(level);
    WidthIsShift(n, level);
    DivModOf(n, p);
    Distribute(q, 1, p);
    DivMod(n + p - 1, p, q + 1, r - 1);
  }

  lemma WidthIsLarge(n: nat, level: nat)
    requires Width(n, level) > 1 && n <= MAX_LEAVES
    ensures level + 1 < LEVELS
  {
    hide Pow2, Width;
    var p, q := Pow2(level), n / Pow2(level);
    DivModOf(n, p);
    Pow2Is31();
    if n % p == 0 {
      WidthOfMultiple(n, level);
      MulMono(2, q, p);
      LevelFits(level, n);
    } else {
      WidthOfOther(n, level);
      MulMono(1, q, p);
      if level >= 31 {
        Pow2Grows(31, level);
      }
    }
  }

  lemma IsOdd(count: nat, w: nat, level: nat)
    requires count == w * Pow2(level)
    ensures TestBit(count, level) <==> w % 2 == 1
    ensures count == Pow2(level) <==> w == 1
  {
    hide Pow2;
    DivMod(count, Pow2(level), w, 0);
    if count == Pow2(level) {
      DivMod(count, Pow2(level), 1, 0);
    }
  }

  lemma StaysUneven(n: nat, level: nat)
    requires Width(n, level) % 2 == 1 || n % Pow2(level) != 0
    ensures n % Pow2(level + 1) != 0
  {
    hide Pow2, Width;
    if n % Pow2(level) == 0 {
      WidthOfMultiple(n, level);
      Halves(n, level);
    } else if n % Pow2(level + 1) == 0 {
      SmallerPowers(n, level, level + 1);
    }
  }

  lemma WidthNext(n: nat, level: nat)
    ensures Width(n, level + 1) == (Width(n, level) + 1) / 2
  {
  }

  lemma KeptAt(H: PairHash, leaves: seq<Hash>, count: nat, inner: seq<Hash>, level: nat)
    requires AllKept(H, leaves, count, inner) && level < LEVELS
    ensures |inner| == LEVELS && Kept(H, leaves, count, inner, level)
  {
  }

  /** A last odd node is combined with itself. */
  lemma SweepOdd(H: PairHash, leaves: seq<Hash>, count: nat, level: nat, h: Hash)
    requires Sweeping(H, leaves, count, level, h) && |leaves| <= MAX_LEAVES
    requires Width(|leaves|, level) > 1 && Width(|leaves|, level) % 2 == 1
    ensures Sweeping(H, leaves, count + Pow2(level), level + 1, H(h, h))
    ensures Width(|leaves|, level + 1) < Width(|leaves|, level)
  {
    hide Pow2, Width, CalcHash;
    var n, w := |leaves|, Width(|leaves|, level);
    WidthNext(n, level);
    WidthIsLarge(n, level);
    Pow2Next(level);
    Distribute(w, 1, Pow2(level));
    MulAssoc((w + 1) / 2, 2, Pow2(level));
    CalcStep(H, leaves, level + 1, (w + 1) / 2 - 1);
  }

  /** A last even one with the complete subtree on its left. */
  lemma SweepEven(H: PairHash, leaves: seq<Hash>, count: nat, level: nat, h: Hash, inner: seq<Hash>)
    requires Sweeping(H, leaves, count, level, h) && |leaves| <= MAX_LEAVES
    requires Width(|leaves|, level) % 2 == 0 && |leaves| % Pow2(level) != 0
    requires AllKept(H, leaves, |leaves|, inner)
    ensures Sweeping(H, leaves, count, level + 1, H(inner[level], h))
    ensures Width(|leaves|, level + 1) < Width(|leaves|, level)
  {
    hide Pow2, Width, CalcHash, AllKept;
    var n, w := |leaves|, Width(|leaves|, level);
    WidthNext(n, level);
    WidthIsLarge(n, level);
    WidthOfOther(n, level);
    KeptAt(H, leaves, n, inner, level);
    Pow2Next(level);
    MulAssoc(w / 2, 2, Pow2(level));
    CalcStep(H, leaves, level + 1, w / 2 - 1);
  }

  lemma HeightIs(n: nat, level: nat)
    requires Width(n, level) <= 1 && forall k :: 0 <= k < level ==> Width(n, k) > 1
    ensures Height(n) == level
  {
    var h := Height(n);
    assert h > level ==> Width(n, level) > 1;
  }

  lemma SweepEnd(H: PairHash, leaves: seq<Hash>, count: nat, level: nat, h: Hash)
    requires leaves != [] && Sweeping(H, leaves, count, level, h) && Width(|leaves|, level) == 1
    ensures h == MerkleRoot(H, leaves) == RootByLevels(H, leaves)
  {
    hide CalcHash, RootByLevels;
    HeightIs(|leaves|, level);
    RootIsByLevels(H, leaves);
  }

  lemma {:induction false} WidthFalls(n: nat, k: nat, l: nat)
    requires k <= l && Width(n, k) <= 1
    ensures Width(n, l) <= 1
    decreases l
  {
    if k < l {
      WidthFalls(n, k, l - 1);
    }
  }

  /** The source has 32 levels, and a number of 32 bits for what is counted: enough for 2^31 leaves and no more. */
  lemma LevelsSuffice(n: nat)
    ensures Height(n) < LEVELS <==> n <= MAX_LEAVES
  {
    hide Width, Pow2;
    if n <= MAX_LEAVES && Height(n) >= LEVELS {
      WidthIsLarge(n, 31);
    }
    if n > MAX_LEAVES && Height(n) < LEVELS {
      WidthFalls(n, Height(n), 31);
      Pow2Is31();
      DivModOf(n, MAX_LEAVES);
      if n % MAX_LEAVES == 0 {
        WidthOfMultiple(n, 31);
      } else {
        WidthOfOther(n, 31);
      }
    }
  }

  // The computation

  /** Combines a new leaf with the complete subtrees on its left. */
  method Combine(H: PairHash, leaves: seq<Hash>, count: nat, inner: array<Hash>, seen: bool) returns (mutated: bool)
    requires 0 < count <= |leaves| <= MAX_LEAVES && inner.Length == LEVELS && AllKept(H, leaves, count - 1, inner[..])
    requires seen <==> Repeats(H, leaves, count - 1)
    modifies inner
    ensures AllKept(H, leaves, count, inner[..]) && (mutated <==> Repeats(H, leaves, count))
  {
    hide AllKept, Carries, Same, Repeats, RepeatsBelow, TestBit, CalcHash, Node, Pow2;
    mutated := seen;
    var h, level := leaves[count - 1], 0;
    CarryStart(H, leaves, count);
    NoneBelow(H, leaves, count);
    while !TestBit(count, level)
      invariant level < LEVELS && Carries(H, leaves, count, level, h) && AllKept(H, leaves, count - 1, inner[..])
      invariant inner[..] == old(inner[..])
      invariant mutated <==> Repeats(H, leaves, count - 1) || RepeatsBelow(H, leaves, count, level)
      decreases count / Pow2(level)
    {
      CarryOn(H, leaves, count, inner[..], level, h);
      ghost var p := count / Pow2(level) / 2 - 1;
      RepeatsOn(H, leaves, count, level, p);
      SameIs(H, leaves, level, p);
      mutated := mutated || inner[level] == h;
      h := H(inner[level], h);
      level := level + 1;
    }
    CarryEnd(H, leaves, count, inner[..], level, h);
    RepeatsEnd(H, leaves, count, level);
    inner[level] := h;
    assert inner[..] == old(inner[..])[level := h];
  }

  lemma NoneBelow(H: PairHash, leaves: seq<Hash>, count: nat)
    ensures !RepeatsBelow(H, leaves, count, 0)
  {
  }

  lemma SameIs(H: PairHash, leaves: seq<Hash>, level: nat, p: nat)
    requires Node(|leaves|, level, 2 * p) && Node(|leaves|, level, 2 * p + 1)
    ensures Same(H, leaves, level, p) <==>
              CalcHash(H, leaves, level, 2 * p) == CalcHash(H, leaves, level, 2 * p + 1)
  {
  }

  /** Goes up the right edge of the tree. */
  method Sweep(H: PairHash, leaves: seq<Hash>, inner: array<Hash>) returns (root: Hash)
    requires 0 < |leaves| <= MAX_LEAVES && inner.Length == LEVELS && AllKept(H, leaves, |leaves|, inner[..])
    ensures root == MerkleRoot(H, leaves) == RootByLevels(H, leaves)
  {
    hide AllKept, Sweeping, CalcHash, RootByLevels, MerkleRoot, Width, Pow2, TestBit;
    var level := LowestLevel(H, leaves, inner);
    var count: nat, h := |leaves|, inner[level];
    while count != Pow2(level)
      invariant Sweeping(H, leaves, count, level, h) && level < LEVELS && Width(|leaves|, level) % 2 == 1
      invariant count == Width(|leaves|, level) * Pow2(level)
      decreases Width(|leaves|, level)
    {
      ghost var before := Width(|leaves|, level);
      IsOdd(count, before, level);
      SweepOdd(H, leaves, count, level, h);
      StaysUneven(|leaves|, level);
      h := H(h, h);
      count := count + Pow2(level);
      level := level + 1;
      SweepIs(H, leaves, count, level, h);
      IsOdd(count, Width(|leaves|, level), level);
      while !TestBit(count, level)
        invariant Sweeping(H, leaves, count, level, h) && level < LEVELS && |leaves| % Pow2(level) != 0
        invariant count == Width(|leaves|, level) * Pow2(level)
        invariant (TestBit(count, level) <==> Width(|leaves|, level) % 2 == 1) && Width(|leaves|, level) < before
        decreases Width(|leaves|, level)
      {
        SweepEven(H, leaves, count, level, h, inner[..]);
        StaysUneven(|leaves|, level);
        h := H(inner[level], h);
        level := level + 1;
        SweepIs(H, leaves, count, level, h);
        IsOdd(count, Width(|leaves|, level), level);
      }
    }
    IsOdd(count, Width(|leaves|, level), level);
    SweepEnd(H, leaves, count, level, h);
    root := h;
  }

  lemma SweepIs(H: PairHash, leaves: seq<Hash>, count: nat, level: nat, h: Hash)
    requires Sweeping(H, leaves, count, level, h)
    ensures level < LEVELS && count == Width(|leaves|, level) * Pow2(level)
  {
  }

  /** The level of the lowest one bit of the number of leaves. */
  method LowestLevel(H: PairHash, leaves: seq<Hash>, inner: array<Hash>) returns (level: nat)
    requires 0 < |leaves| <= MAX_LEAVES && inner.Length == LEVELS && AllKept(H, leaves, |leaves|, inner[..])
    ensures level < LEVELS && Sweeping(H, leaves, |leaves|, level, inner[level]) && Width(|leaves|, level) % 2 == 1
    ensures |leaves| == Width(|leaves|, level) * Pow2(level)
  {
    hide CalcHash, Width, Pow2;
    var n := |leaves|;
    level := 0;
    Pow2Zero();
    while !TestBit(n, level)
      invariant level < LEVELS && n % Pow2(level) == 0 && forall k :: 0 <= k < level ==> Width(n, k) > 1
      decreases n / Pow2(level)
    {
      Halves(n, level);
      WidthOfMultiple(n, level);
      MulMono(2, n / Pow2(level), Pow2(level));
      LevelFits(level, n);
      level := level + 1;
    }
    Halves(n, level);
    WidthOfMultiple(n, level);
    assert Kept(H, leaves, n, inner[..], level);
  }

  /** The root a block commits to, and whether two complete neighbours are the same. */
  method ComputeMerkleRoot(H: PairHash, leaves: seq<Hash>) returns (root: Hash, mutated: bool)
    requires |leaves| <= MAX_LEAVES
    ensures leaves == [] ==> root == 0 && !mutated
    ensures leaves != [] ==> root == MerkleRoot(H, leaves) == RootByLevels(H, leaves)
    ensures mutated <==> Repeats(H, leaves, |leaves|)
  {
    hide AllKept, Repeats, CalcHash, RootByLevels, MerkleRoot;
    NoRepetition(H, leaves);
    if leaves == [] {
      return 0, false;
    }
    mutated := false;
    var inner := new Hash[LEVELS];
    NothingKept(H, leaves, inner[..]);
    var count := 0;
    while count < |leaves|
      invariant 0 <= count <= |leaves| && AllKept(H, leaves, count, inner[..])
      invariant mutated <==> Repeats(H, leaves, count)
    {
      count := count + 1;
      mutated := Combine(H, leaves, count, inner, mutated);
    }
    root := Sweep(H, leaves, inner);
  }

  lemma NothingKept(H: PairHash, leaves: seq<Hash>, inner: seq<Hash>)
    requires |inner| == LEVELS
    ensures AllKept(H, leaves, 0, inner)
  {
    hide Pow2;
    forall level | 0 <= level < LEVELS ensures Kept(H, leaves, 0, inner, level) { DivMod(0, Pow2(level), 0, 0); }
  }

  // What the root commits to

  /** Two different pairs with the same hash. */
  ghost predicate Collision(H: PairHash) { exists x, y, u, v :: H(x, y) == H(u, v) && (x != u || y != v) }

  ghost function Below(leaves: seq<Hash>, level: nat, pos: nat): seq<Hash>
    requires Node(|leaves|, level, pos)
  {
    Leaves(|leaves|, level, pos);
    leaves[First(level, pos)..Last(|leaves|, level, pos)]
  }

  lemma BelowStep(leaves: seq<Hash>, level: nat, pos: nat)
    requires level > 0 && Node(|leaves|, level, pos)
    ensures Node(|leaves|, level - 1, 2 * pos)
    ensures Below(leaves, level, pos) == Below(leaves, level - 1, 2 * pos) +
              if Node(|leaves|, level - 1, 2 * pos + 1) then Below(leaves, level - 1, 2 * pos + 1) else []
  {
    hide Node, Last;
    var n := |leaves|;
    Children(n, level, pos);
    Leaves(n, level, pos);
    Leaves(n, level - 1, 2 * pos);
    if Node(n, level - 1, 2 * pos + 1) {
      Leaves(n, level - 1, 2 * pos + 1);
    }
  }

  /** A node with a right neighbour has all its leaves, and the neighbour has as many or the list ends there. */
  lemma CompleteOrShorter(leaves: seq<Hash>, level: nat, p: nat)
    requires Node(|leaves|, level, 2 * p + 1)
    ensures Node(|leaves|, level, 2 * p)
    ensures || (2 * p + 2) * Pow2(level) <= |leaves|
            || |Below(leaves, level, 2 * p + 1)| < |Below(leaves, level, 2 * p)|
  {
    hide Pow2;
    var n := |leaves|;
    FirstIsShift(level, 2 * p);
    FirstIsShift(level, 2 * p + 1);
    FirstIsShift(level, 2 * p + 2);
    Distribute(2 * p, 1, Pow2(level));
    Distribute(2 * p + 1, 1, Pow2(level));
    NodeHasLeaf(n, level, 2 * p + 1);
    NodeHasLeaf(n, level, 2 * p);
  }

  /**
   Nodes with the same hash have the same leaves below them, unless a list repeats itself or
   there is a collision.
   */
  lemma {:induction false} SameHash(H: PairHash, a: seq<Hash>, b: seq<Hash>, level: nat, p: nat, q: nat)
    requires Node(|a|, level, p) && Node(|b|, level, q)
    requires CalcHash(H, a, level, p) == CalcHash(H, b, level, q)
    requires !Collision(H) && !Repeats(H, a, |a|) && !Repeats(H, b, |b|)
    ensures Below(a, level, p) == Below(b, level, q)
    decreases level, 0
  {
    hide CalcHash, Node, Below, Repeats, Collision;
    CalcStep(H, a, level, p);
    CalcStep(H, b, level, q);
    if level == 0 {
      BelowLeaf(a, p);
      BelowLeaf(b, q);
    } else {
      BelowStep(a, level, p);
      BelowStep(b, level, q);
      var k := level - 1;
      var x, y := CalcHash(H, a, k, 2 * p), CalcHash(H, b, k, 2 * q);
      var ra, rb := Node(|a|, k, 2 * p + 1), Node(|b|, k, 2 * q + 1);
      NoCollision(H, x, if ra then CalcHash(H, a, k, 2 * p + 1) else x, y,
        if rb then CalcHash(H, b, k, 2 * q + 1) else y);
      SameHash(H, a, b, k, 2 * p, 2 * q);
      if ra {
        if rb {
          SameHash(H, a, b, k, 2 * p + 1, 2 * q + 1);
        } else {
          NoTwins(H, a, k, p);
        }
      } else if rb {
        NoTwins(H, b, k, q);
      }
    }
  }

  lemma {:induction false} NoTwins(H: PairHash, a: seq<Hash>, level: nat, p: nat)
    requires Node(|a|, level, 2 * p) && Node(|a|, level, 2 * p + 1)
    requires !Collision(H) && !Repeats(H, a, |a|)
    ensures CalcHash(H, a, level, 2 * p) != CalcHash(H, a, level, 2 * p + 1)
    decreases level, 1
  {
    hide CalcHash, Node, Below, Collision;
    if CalcHash(H, a, level, 2 * p) == CalcHash(H, a, level, 2 * p + 1) {
      CompleteOrShorter(a, level, p);
      assert Same(H, a, level, p);
      SameHash(H, a, a, level, 2 * p, 2 * p + 1);
    }
  }

  lemma NoCollision(H: PairHash, x: Hash, y: Hash, u: Hash, v: Hash)
    requires !Collision(H) && H(x, y) == H(u, v)
    ensures x == u && y == v
  {
  }

  lemma BelowLeaf(leaves: seq<Hash>, pos: nat)
    requires Node(|leaves|, 0, pos)
    ensures pos < |leaves| && Below(leaves, 0, pos) == [leaves[pos]]
  {
  }

  /**
   Lists that make trees of the same height and are not mutated have different roots, unless
   there are two different pairs with the same hash.
   */
  lemma RootCommits(H: PairHash, a: seq<Hash>, b: seq<Hash>)
    requires a != [] && b != [] && Height(|a|) == Height(|b|)
    requires !Repeats(H, a, |a|) && !Repeats(H, b, |b|)
    requires MerkleRoot(H, a) == MerkleRoot(H, b)
    ensures a == b || Collision(H)
  {
    hide CalcHash, Repeats, Collision, Height;
    if !Collision(H) {
      RootLeaves(|a|);
      RootLeaves(|b|);
      SameHash(H, a, b, Height(|a|), 0, 0);
    }
  }

  /** The documented example: repeating the last two of six leaves gives the same root, but is noticed. */
  lemma Repeated(H: PairHash, a: Hash, b: Hash, c: Hash, d: Hash, e: Hash, f: Hash)
    ensures var x, y := [a, b, c, d, e, f], [a, b, c, d, e, f, e, f];
            RootByLevels(H, x) == RootByLevels(H, y) && Repeats(H, y, |y|)
  {
    var x, y := [a, b, c, d, e, f], [a, b, c, d, e, f, e, f];
    var ab, cd, ef := H(a, b), H(c, d), H(e, f);
    assert LevelUp(H, x) == [ab, cd, ef] && LevelUp(H, y) == [ab, cd, ef, ef];
    var up := [H(ab, cd), H(ef, ef)];
    assert LevelUp(H, [ab, cd, ef]) == up && LevelUp(H, [ab, cd, ef, ef]) == up;
    assert Pow2(1) == 2 && Width(8, 1) == 4 && Width(8, 0) == 8;
    CalcStep(H, y, 1, 2);
    CalcStep(H, y, 1, 3);
    assert Same(H, y, 1, 1);
  }
}
