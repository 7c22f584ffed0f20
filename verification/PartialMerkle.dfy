/**
 Partial Merkle trees (src/merkleblock.h, src/merkleblock.cpp): a subset of a block's txids with
 just enough hashes to recompute the Merkle root. The class methods follow the source; each is
 specified by a function, and the theorems are about those functions.

 Hash values are naturals, 0 being the null hash, and the pair hash is an arbitrary function.
 */
module PartialMerkle {
  import opened Numbers
  import opened Options

  type Hash = nat
  type PairHash = (Hash, Hash) -> Hash

  const MAX_BLOCK_BASE_SIZE := 1000000

  // The shape of the tree

  /** The number of nodes at a height: the number of leaves divided by 2^height, rounded up. */
  function CalcTreeWidth(n: nat, height: nat): nat {
    (n + Pow2(height) - 1) / Pow2(height)
  }

  /** The same number: every two nodes have one parent, and so has a last odd one. */
  function Width(n: nat, height: nat): nat {
    if height == 0 then n else (Width(n, height - 1) + 1) / 2
  }

  /** Halving, rounded up, commutes with the division. */
  lemma HalfUp(a: nat, p: nat, w: nat)
    requires p >= 1 && w == a / p
    ensures (a + p) / (2 * p) == (w + 1) / 2
  {
    var q := (w + 1) / 2;
    assert a == w * p + a % p && 0 <= a % p < p;
    if w % 2 == 1 {
      assert w == 2 * q - 1;
      assert w * p == q * (2 * p) - p;
    } else {
      assert w == 2 * q;
      assert w * p == q * (2 * p);
    }
    DivMod(a + p, 2 * p, q, a + p - q * (2 * p));
  }

  /** The shift in the source computes the width. */
  lemma {:induction false} WidthIsShift(n: nat, height: nat)
    ensures CalcTreeWidth(n, height) == Width(n, height)
  {
    if height > 0 {
      WidthIsShift(n, height - 1);
      HalfUp(n + Pow2(height - 1) - 1, Pow2(height - 1), Width(n, height - 1));
    } else {
      assert Pow2(0) == 1;
    }
  }

  /** The least height with at most one node. */
  function HeightFrom(n: nat, h: nat): (r: nat)
    ensures r >= h && Width(n, r) <= 1
    ensures forall k :: h <= k < r ==> Width(n, k) > 1
    decreases Width(n, h)
  {
    if Width(n, h) <= 1 then h
    else
      HeightFrom(n, h + 1)
  }

  function Height(n: nat): nat { HeightFrom(n, 0) }

  lemma {:induction false} WidthPositive(n: nat, h: nat)
    requires n > 0
    ensures Width(n, h) >= 1
  {
    if h > 0 {
      WidthPositive(n, h - 1);
    }
  }

  /** A node exists at this height and position. */
  predicate Node(n: nat, height: nat, pos: nat) { pos < Width(n, height) }

  lemma Children(n: nat, height: nat, pos: nat)
    requires height > 0 && Node(n, height, pos)
    ensures Node(n, height - 1, 2 * pos)
  {
  }

  /** The leaves below a node are those from First up to Last. */
  function First(height: nat, pos: nat): nat {
    if height == 0 then pos else First(height - 1, 2 * pos)
  }

  function Last(n: nat, height: nat, pos: nat): nat {
    if First(height, pos + 1) < n then First(height, pos + 1) else n
  }

  lemma {:induction false} FirstIsShift(height: nat, pos: nat)
    ensures First(height, pos) == pos * Pow2(height)
  {
    if height > 0 {
      FirstIsShift(height - 1, 2 * pos);
      var p := Pow2(height - 1);
      assert (2 * pos) * p == pos * (2 * p);
    }
  }

  lemma {:induction false} FirstGrows(height: nat, pos: nat)
    ensures First(height, pos) < First(height, pos + 1)
  {
    if height > 0 {
      FirstGrows(height - 1, 2 * pos);
      FirstGrows(height - 1, 2 * pos + 1);
    }
  }

  /** Exactly the positions whose first leaf exists are nodes. */
  lemma {:induction false} NodeHasLeaf(n: nat, height: nat, pos: nat)
    ensures Node(n, height, pos) <==> First(height, pos) < n
  {
    if height == 0 {
    } else {
      NodeHasLeaf(n, height - 1, 2 * pos);
    }
  }

  /** A node has leaves, and they are its children's. */
  lemma Leaves(n: nat, height: nat, pos: nat)
    requires Node(n, height, pos)
    ensures First(height, pos) < Last(n, height, pos) <= n
    ensures height > 0 && Node(n, height - 1, 2 * pos + 1) ==>
              && Last(n, height - 1, 2 * pos) == First(height - 1, 2 * pos + 1)
              && First(height, pos) < First(height - 1, 2 * pos + 1) < Last(n, height, pos) ==
                   Last(n, height - 1, 2 * pos + 1)
    ensures height > 0 && !Node(n, height - 1, 2 * pos + 1) ==>
              Last(n, height - 1, 2 * pos) == Last(n, height, pos)
  {
    NodeHasLeaf(n, height, pos);
    FirstGrows(height, pos);
    if height > 0 {
      NodeHasLeaf(n, height - 1, 2 * pos + 1);
      FirstGrows(height - 1, 2 * pos);
      FirstGrows(height - 1, 2 * pos + 1);
    }
  }

  /** The hash of a node; a missing right child counts as a copy of the left one. */
  function CalcHash(H: PairHash, txids: seq<Hash>, height: nat, pos: nat): Hash
    requires Node(|txids|, height, pos)
    decreases height
  {
    if height == 0 then
      txids[pos]
    else
      Children(|txids|, height, pos);
      var left := CalcHash(H, txids, height - 1, 2 * pos);
      var right := if Node(|txids|, height - 1, 2 * pos + 1) then CalcHash(H, txids, height - 1, 2 * pos + 1) else left;
      H(left, right)
  }

  function MerkleRoot(H: PairHash, txids: seq<Hash>): Hash
    requires txids != []
  {
    WidthPositive(|txids|, Height(|txids|));
    CalcHash(H, txids, Height(|txids|), 0)
  }

  // The root, level by level

  /** The hashes one level up: of every two neighbours, and of a last odd one with itself. */
  function LevelUp(H: PairHash, hashes: seq<Hash>): (up: seq<Hash>)
    ensures |up| == (|hashes| + 1) / 2
    ensures forall i :: 0 <= i < |up| ==>
              up[i] == H(hashes[2 * i], if 2 * i + 1 < |hashes| then hashes[2 * i + 1] else hashes[2 * i])
  {
    seq((|hashes| + 1) / 2, i requires 0 <= i < (|hashes| + 1) / 2 =>
      H(hashes[2 * i], if 2 * i + 1 < |hashes| then hashes[2 * i + 1] else hashes[2 * i]))
  }

  /** The hash that is left after going up from level to level. */
  function RootByLevels(H: PairHash, hashes: seq<Hash>): Hash
    requires hashes != []
    decreases |hashes|
  {
    if |hashes| == 1 then hashes[0] else RootByLevels(H, LevelUp(H, hashes))
  }

  lemma {:induction false} WidthOneUp(n: nat, height: nat)
    ensures Width(n, height + 1) == Width((n + 1) / 2, height)
  {
    if height > 0 {
      WidthOneUp(n, height - 1);
    }
  }

  lemma HeightOneUp(n: nat)
    requires n > 1
    ensures Height(n) == Height((n + 1) / 2) + 1
  {
    var h, k := Height(n), Height((n + 1) / 2);
    WidthOneUp(n, k);
    if h > 0 {
      WidthOneUp(n, h - 1);
    }
    assert k > 0 ==> Width((n + 1) / 2, k - 1) > 1;
  }

  lemma CalcStep(H: PairHash, txids: seq<Hash>, height: nat, pos: nat)
    requires Node(|txids|, height, pos)
    ensures height == 0 ==> pos < |txids| && CalcHash(H, txids, height, pos) == txids[pos]
    ensures height > 0 ==>
              && Node(|txids|, height - 1, 2 * pos)
              && var left := CalcHash(H, txids, height - 1, 2 * pos);
                 CalcHash(H, txids, height, pos) ==
                   H(left, if Node(|txids|, height - 1, 2 * pos + 1) then CalcHash(H, txids, height - 1, 2 * pos + 1)
                           else left)
  {
    if height > 0 {
      Children(|txids|, height, pos);
    }
  }

  lemma NodeOneUp(n: nat, height: nat, pos: nat)
    ensures Node(n, height + 1, pos) <==> Node((n + 1) / 2, height, pos)
    ensures Node(n, 0, pos) <==> pos < n
  {
    WidthOneUp(n, height);
  }

  lemma PairOneUp(H: PairHash, txids: seq<Hash>, pos: nat)
    requires Node(|txids|, 1, pos)
    ensures Node((|txids| + 1) / 2, 0, pos)
    ensures CalcHash(H, txids, 1, pos) == CalcHash(H, LevelUp(H, txids), 0, pos)
  {
    hide CalcHash, LevelUp, Node;
    NodeOneUp(|txids|, 0, pos);
    NodeOneUp(|txids|, 0, 2 * pos + 1);
    CalcStep(H, txids, 1, pos);
    CalcStep(H, LevelUp(H, txids), 0, pos);
    CalcStep(H, txids, 0, 2 * pos);
    if 2 * pos + 1 < |txids| {
      CalcStep(H, txids, 0, 2 * pos + 1);
    }
  }

  lemma {:induction false} HashOneUp(H: PairHash, txids: seq<Hash>, height: nat, pos: nat)
    requires Node(|txids|, height + 1, pos)
    ensures Node((|txids| + 1) / 2, height, pos)
    ensures CalcHash(H, txids, height + 1, pos) == CalcHash(H, LevelUp(H, txids), height, pos)
    decreases height
  {
    hide CalcHash, LevelUp, Node;
    NodeOneUp(|txids|, height, pos);
    if height == 0 {
      PairOneUp(H, txids, pos);
    } else {
      CalcStep(H, txids, height + 1, pos);
      CalcStep(H, LevelUp(H, txids), height, pos);
      NodeOneUp(|txids|, height - 1, 2 * pos + 1);
      HashOneUp(H, txids, height - 1, 2 * pos);
      if Node(|txids|, height, 2 * pos + 1) {
        HashOneUp(H, txids, height - 1, 2 * pos + 1);
      }
    }
  }

  /** The root of the tree is the one a block commits to: its txids, and then their levels, in pairs from the left. */
  lemma {:induction false} RootIsByLevels(H: PairHash, txids: seq<Hash>)
    requires txids != []
    ensures MerkleRoot(H, txids) == RootByLevels(H, txids)
    decreases |txids|
  {
    if |txids| > 1 {
      HeightOneUp(|txids|);
      WidthPositive(|txids|, Height(|txids|));
      HashOneUp(H, txids, Height(|txids|) - 1, 0);
      RootIsByLevels(H, LevelUp(H, txids));
    }
  }

  // Building

  /** The matched positions from lo up to hi, in order. */
  function MatchedIn(matches: seq<bool>, lo: nat, hi: nat): (r: seq<nat>)
    requires hi <= |matches|
    ensures forall i :: 0 <= i < |r| ==> r[i] < hi
    decreases hi
  {
    if lo >= hi then [] else MatchedIn(matches, lo, hi - 1) + if matches[hi - 1] then [hi - 1] else []
  }

  /** A list has every matched position of a range and no other, each once and in order. */
  ghost predicate Lists(r: seq<nat>, matches: seq<bool>, lo: nat, hi: nat)
    requires hi <= |matches|
  {
    && (forall p :: p in r <==> lo <= p < hi && matches[p])
    && (forall i, j :: 0 <= i < j < |r| ==> r[i] < r[j])
    && (r != [] ==> lo <= r[0] < hi && matches[r[0]])
  }

  lemma ListsNone(matches: seq<bool>, lo: nat, hi: nat)
    requires hi <= |matches| && hi <= lo
    ensures Lists([], matches, lo, hi)
  {
  }

  lemma ListsOn(r: seq<nat>, matches: seq<bool>, lo: nat, hi: nat)
    requires lo <= hi < |matches| && Lists(r, matches, lo, hi)
    ensures Lists(if matches[hi] then r + [hi] else r, matches, lo, hi + 1)
  {
    if matches[hi] {
      forall i | 0 <= i < |r| ensures r[i] < hi { assert r[i] in r; }
      forall p ensures p in r + [hi] <==> p in r || p == hi { }
    }
  }

  lemma {:induction false} MatchedExactly(matches: seq<bool>, lo: nat, hi: nat)
    requires hi <= |matches|
    ensures Lists(MatchedIn(matches, lo, hi), matches, lo, hi)
    decreases hi
  {
    hide Lists;
    if lo < hi {
      MatchedExactly(matches, lo, hi - 1);
      var r := MatchedIn(matches, lo, hi - 1);
      ListsOn(r, matches, lo, hi - 1);
      assert MatchedIn(matches, lo, hi) == if matches[hi - 1] then r + [hi - 1] else r;
    } else {
      ListsNone(matches, lo, hi);
    }
  }

  lemma {:induction false} MatchedSplit(matches: seq<bool>, lo: nat, mid: nat, hi: nat)
    requires lo <= mid <= hi <= |matches|
    ensures MatchedIn(matches, lo, hi) == MatchedIn(matches, lo, mid) + MatchedIn(matches, mid, hi)
    decreases hi
  {
    if mid < hi {
      MatchedSplit(matches, lo, mid, hi - 1);
    }
  }

  /** Whether a node is the parent of at least one matched txid, or one itself. */
  predicate ParentOfMatch(matches: seq<bool>, height: nat, pos: nat) {
    exists p :: First(height, pos) <= p < Last(|matches|, height, pos) && matches[p]
  }

  function Matched(matches: seq<bool>, height: nat, pos: nat): seq<nat>
  {
    MatchedIn(matches, First(height, pos), Last(|matches|, height, pos))
  }

  /** A node's matches are its left child's and then its right child's. */
  lemma MatchedChildren(matches: seq<bool>, height: nat, pos: nat)
    requires height > 0 && Node(|matches|, height, pos)
    ensures Matched(matches, height, pos) ==
            Matched(matches, height - 1, 2 * pos) +
            (if Node(|matches|, height - 1, 2 * pos + 1) then Matched(matches, height - 1, 2 * pos + 1) else [])
  {
    Leaves(|matches|, height, pos);
    Children(|matches|, height, pos);
    Leaves(|matches|, height - 1, 2 * pos);
    if Node(|matches|, height - 1, 2 * pos + 1) {
      Leaves(|matches|, height - 1, 2 * pos + 1);
      MatchedSplit(matches, First(height, pos), First(height - 1, 2 * pos + 1), Last(|matches|, height, pos));
    }
  }

  datatype Encoding = Encoding(bits: seq<bool>, hashes: seq<Hash>) {
    function Then(other: Encoding): Encoding {
      Encoding(bits + other.bits, hashes + other.hashes)
    }
  }

  lemma ThenAssociates(a: Encoding, b: Encoding, c: Encoding)
    ensures a.Then(b).Then(c) == a.Then(b.Then(c))
  {
    assert (a.bits + b.bits) + c.bits == a.bits + (b.bits + c.bits);
    assert (a.hashes + b.hashes) + c.hashes == a.hashes + (b.hashes + c.hashes);
  }

  /** What the depth-first traversal stores for the subtree at a node. */
  function Build(H: PairHash, txids: seq<Hash>, matches: seq<bool>, height: nat, pos: nat): Encoding
    requires |txids| == |matches| && Node(|txids|, height, pos)
    decreases height
  {
    var parent := ParentOfMatch(matches, height, pos);
    if height == 0 || !parent then
      Encoding([parent], [CalcHash(H, txids, height, pos)])
    else
      Children(|txids|, height, pos);
      var left := Encoding([true], []).Then(Build(H, txids, matches, height - 1, 2 * pos));
      if Node(|txids|, height - 1, 2 * pos + 1) then left.Then(Build(H, txids, matches, height - 1, 2 * pos + 1))
      else left
  }

  // Extracting

  /** How far the extraction has got, and what it has found. */
  datatype Cursor = Cursor(nBits: nat, nHash: nat, bad: bool, matched: seq<Hash>, indexes: seq<nat>)

  function Extract(H: PairHash, n: nat, e: Encoding, height: nat, pos: nat, c: Cursor): (r: (Hash, Cursor))
    requires Node(n, height, pos)
    ensures c.matched <= r.1.matched && c.indexes <= r.1.indexes
    ensures |r.1.matched| - |c.matched| == |r.1.indexes| - |c.indexes|
    ensures c.bad ==> r.1.bad
    decreases height
  {
    if c.nBits >= |e.bits| then (0, c.(bad := true))
    else
      var parent := e.bits[c.nBits];
      var c1 := c.(nBits := c.nBits + 1);
      if height == 0 || !parent then
        if c1.nHash >= |e.hashes| then (0, c1.(bad := true))
        else
          var hash := e.hashes[c1.nHash];
          var c2 := c1.(nHash := c1.nHash + 1);
          (hash,
           if height == 0 && parent then c2.(matched := c2.matched + [hash], indexes := c2.indexes + [pos]) else c2)
      else
        Children(n, height, pos);
        var (left, c2) := Extract(H, n, e, height - 1, 2 * pos, c1);
        if Node(n, height - 1, 2 * pos + 1) then
          var (right, c3) := Extract(H, n, e, height - 1, 2 * pos + 1, c2);
          (H(left, right), if left == right then c3.(bad := true) else c3)
        else
          (H(left, left), c2)
  }

  /** Some node above a matched txid has two children with the same hash. */
  predicate Twins(H: PairHash, txids: seq<Hash>, matches: seq<bool>, height: nat, pos: nat)
    requires |txids| == |matches| && Node(|txids|, height, pos)
    decreases height
  {
    if height == 0 || !ParentOfMatch(matches, height, pos) then false
    else
      Children(|txids|, height, pos);
      || Twins(H, txids, matches, height - 1, 2 * pos)
      || (Node(|txids|, height - 1, 2 * pos + 1) &&
          (|| Twins(H, txids, matches, height - 1, 2 * pos + 1)
           || CalcHash(H, txids, height - 1, 2 * pos) == CalcHash(H, txids, height - 1, 2 * pos + 1)))
  }

  /** `part` occurs in `e` from its i-th bit and j-th hash on. */
  predicate At(e: Encoding, i: nat, j: nat, part: Encoding) {
    && i + |part.bits| <= |e.bits| && e.bits[i..i + |part.bits|] == part.bits
    && j + |part.hashes| <= |e.hashes| && e.hashes[j..j + |part.hashes|] == part.hashes
  }

  function Select(txids: seq<Hash>, indexes: seq<nat>): seq<Hash>
    requires forall i :: 0 <= i < |indexes| ==> indexes[i] < |txids|
  {
    seq(|indexes|, i requires 0 <= i < |indexes| => txids[indexes[i]])
  }

  lemma SelectConcat(txids: seq<Hash>, a: seq<nat>, b: seq<nat>)
    requires forall i :: 0 <= i < |a| ==> a[i] < |txids|
    requires forall i :: 0 <= i < |b| ==> b[i] < |txids|
    ensures forall i :: 0 <= i < |a + b| ==> (a + b)[i] < |txids|
    ensures Select(txids, a + b) == Select(txids, a) + Select(txids, b)
  {
  }

  /** The cursor past a subtree, with the subtree's matches found, and its twins noticed. */
  function Past(txids: seq<Hash>, matches: seq<bool>, height: nat, pos: nat, part: Encoding, twins: bool,
                c: Cursor): Cursor
    requires |txids| == |matches|
  {
    var found := Matched(matches, height, pos);
    Cursor(c.nBits + |part.bits|, c.nHash + |part.hashes|, c.bad || twins,
           c.matched + Select(txids, found), c.indexes + found)
  }

  lemma AtBoth(e: Encoding, i: nat, j: nat, a: Encoding, b: Encoding)
    requires At(e, i, j, a.Then(b))
    ensures At(e, i, j, a) && At(e, i + |a.bits|, j + |a.hashes|, b)
  {
    var whole := a.Then(b);
    assert a.bits == whole.bits[..|a.bits|] && b.bits == whole.bits[|a.bits|..];
    assert a.hashes == whole.hashes[..|a.hashes|] && b.hashes == whole.hashes[|a.hashes|..];
  }

  /** Where the encodings of a node's children are found. */
  lemma ChildrenAt(H: PairHash, txids: seq<Hash>, matches: seq<bool>, e: Encoding, height: nat, pos: nat, i: nat,
                   j: nat)
    requires |txids| == |matches| && height > 0 && Node(|txids|, height, pos) && Node(|txids|, height - 1, 2 * pos)
    requires ParentOfMatch(matches, height, pos)
    requires At(e, i, j, Build(H, txids, matches, height, pos))
    ensures i < |e.bits| && e.bits[i]
    ensures var left := Build(H, txids, matches, height - 1, 2 * pos);
            && At(e, i + 1, j, left)
            && (Node(|txids|, height - 1, 2 * pos + 1) ==>
                  At(e, i + 1 + |left.bits|, j + |left.hashes|, Build(H, txids, matches, height - 1, 2 * pos + 1)))
  {
    hide ParentOfMatch, CalcHash, Width;
    var root := Encoding([true], []);
    var left := Build(H, txids, matches, height - 1, 2 * pos);
    if Node(|txids|, height - 1, 2 * pos + 1) {
      AtBoth(e, i, j, root.Then(left), Build(H, txids, matches, height - 1, 2 * pos + 1));
    }
    AtBoth(e, i, j, root, left);
    assert e.bits[i..i + 1][0] == e.bits[i];
  }

  lemma PastChildren(txids: seq<Hash>, matches: seq<bool>, height: nat, pos: nat, root: Encoding,
                     left: Encoding, right: Encoding, t1: bool, t2: bool, c: Cursor)
    requires |txids| == |matches| && height > 0 && Node(|txids|, height, pos)
    requires root == Encoding([true], [])
    ensures var c1 := c.(nBits := c.nBits + 1);
            var c2 := Past(txids, matches, height - 1, 2 * pos, left, t1, c1);
            if Node(|txids|, height - 1, 2 * pos + 1) then
              Past(txids, matches, height - 1, 2 * pos + 1, right, t2, c2) ==
              Past(txids, matches, height, pos, root.Then(left).Then(right), t1 || t2, c)
            else
              c2 == Past(txids, matches, height, pos, root.Then(left), t1, c)
  {
    MatchedChildren(matches, height, pos);
    var a := Matched(matches, height - 1, 2 * pos);
    var b := Matched(matches, height - 1, 2 * pos + 1);
    if Node(|txids|, height - 1, 2 * pos + 1) {
      SelectConcat(txids, a, b);
      assert c.indexes + a + b == c.indexes + (a + b);
      assert c.matched + Select(txids, a) + Select(txids, b) == c.matched + (Select(txids, a) + Select(txids, b));
    } else {
      assert a + [] == a;
    }
  }

  /** The extraction of a subtree gives back its hash and its matches. */
  ghost predicate Recovers(H: PairHash, txids: seq<Hash>, matches: seq<bool>, e: Encoding,
                           height: nat, pos: nat, c: Cursor)
    requires |txids| == |matches| && Node(|txids|, height, pos)
  {
    Extract(H, |txids|, e, height, pos, c) ==
    (CalcHash(H, txids, height, pos),
     Past(txids, matches, height, pos, Build(H, txids, matches, height, pos), Twins(H, txids, matches, height, pos), c))
  }

  lemma LeafHash(H: PairHash, txids: seq<Hash>, height: nat, pos: nat)
    requires Node(|txids|, height, pos)
    ensures height == 0 ==> pos < |txids| && CalcHash(H, txids, height, pos) == txids[pos]
  {
  }

  lemma BuildLeaf(H: PairHash, txids: seq<Hash>, matches: seq<bool>, height: nat, pos: nat)
    requires |txids| == |matches| && Node(|txids|, height, pos)
    requires height == 0 || !ParentOfMatch(matches, height, pos)
    ensures Build(H, txids, matches, height, pos) ==
              Encoding([ParentOfMatch(matches, height, pos)], [CalcHash(H, txids, height, pos)])
    ensures !Twins(H, txids, matches, height, pos)
  {
  }

  lemma ExtractLeaf(H: PairHash, txids: seq<Hash>, matches: seq<bool>, e: Encoding, height: nat, pos: nat, c: Cursor)
    requires |txids| == |matches| && Node(|txids|, height, pos)
    requires height == 0 || !ParentOfMatch(matches, height, pos)
    requires At(e, c.nBits, c.nHash, Build(H, txids, matches, height, pos))
    ensures Recovers(H, txids, matches, e, height, pos, c)
  {
    BuildLeaf(H, txids, matches, height, pos);
    hide CalcHash, ParentOfMatch, Node, Build, Twins;
    assert e.bits[c.nBits..c.nBits + 1][0] == e.bits[c.nBits];
    assert e.hashes[c.nHash..c.nHash + 1][0] == e.hashes[c.nHash];
    LeafMatches(matches, height, pos);
    LeafHash(H, txids, height, pos);
    assert height == 0 ==> Select(txids, [pos]) == [txids[pos]];
    assert c.matched + Select(txids, []) == c.matched && c.indexes + [] == c.indexes;
  }

  lemma ExtractInner(H: PairHash, txids: seq<Hash>, matches: seq<bool>, e: Encoding, height: nat, pos: nat, c: Cursor)
    requires |txids| == |matches| && height > 0 && Node(|txids|, height, pos) && Node(|txids|, height - 1, 2 * pos)
    requires ParentOfMatch(matches, height, pos) && c.nBits < |e.bits| && e.bits[c.nBits]
    requires var left := Build(H, txids, matches, height - 1, 2 * pos);
             var c1 := c.(nBits := c.nBits + 1);
             var c2 := Past(txids, matches, height - 1, 2 * pos, left, Twins(H, txids, matches, height - 1, 2 * pos),
                         c1);
             && Recovers(H, txids, matches, e, height - 1, 2 * pos, c1)
             && (Node(|txids|, height - 1, 2 * pos + 1) ==> Recovers(H, txids, matches, e, height - 1, 2 * pos + 1, c2))
    ensures Recovers(H, txids, matches, e, height, pos, c)
  {
    hide ParentOfMatch, Matched, Select, Width;
    var left := Build(H, txids, matches, height - 1, 2 * pos);
    var right := if Node(|txids|, height - 1, 2 * pos + 1) then Build(H, txids, matches, height - 1, 2 * pos + 1)
                   else left;
    var t1 := Twins(H, txids, matches, height - 1, 2 * pos);
    var t2 := Node(|txids|, height - 1, 2 * pos + 1) && Twins(H, txids, matches, height - 1, 2 * pos + 1);
    PastChildren(txids, matches, height, pos, Encoding([true], []), left, right, t1, t2, c);
  }

  /** Extracting a subtree that was built recovers it, wherever its encoding lies; twins are all it objects to. */
  lemma {:induction false} ExtractBuilt(H: PairHash, txids: seq<Hash>, matches: seq<bool>, e: Encoding,
                                        height: nat, pos: nat, c: Cursor)
    requires |txids| == |matches| && Node(|txids|, height, pos)
    requires At(e, c.nBits, c.nHash, Build(H, txids, matches, height, pos))
    ensures Recovers(H, txids, matches, e, height, pos, c)
    decreases height
  {
    hide Extract, Build, At, Twins, Recovers, ParentOfMatch, Width, CalcHash;
    if height == 0 || !ParentOfMatch(matches, height, pos) {
      ExtractLeaf(H, txids, matches, e, height, pos, c);
    } else {
      Children(|txids|, height, pos);
      ChildrenAt(H, txids, matches, e, height, pos, c.nBits, c.nHash);
      var c1 := c.(nBits := c.nBits + 1);
      var left := Build(H, txids, matches, height - 1, 2 * pos);
      var c2 := Past(txids, matches, height - 1, 2 * pos, left, Twins(H, txids, matches, height - 1, 2 * pos), c1);
      if Node(|txids|, height - 1, 2 * pos + 1) {
        ExtractBuilt(H, txids, matches, e, height - 1, 2 * pos + 1, c2);
      }
      ExtractBuilt(H, txids, matches, e, height - 1, 2 * pos, c1);
      ExtractInner(H, txids, matches, e, height, pos, c);
    }
  }

  lemma LeafMatches(matches: seq<bool>, height: nat, pos: nat)
    requires Node(|matches|, height, pos)
    requires height == 0 || !ParentOfMatch(matches, height, pos)
    ensures Matched(matches, height, pos) == if height == 0 && ParentOfMatch(matches, height, pos) then [pos] else []
  {
    Leaves(|matches|, height, pos);
    MatchedExactly(matches, First(height, pos), Last(|matches|, height, pos));
    if height == 0 {
      assert MatchedIn(matches, pos, pos) == [];
    }
  }

  // Authenticity

  /** Two different pairs, and whether they hash alike. */
  datatype Pairs = Pairs(a: Hash, b: Hash, c: Hash, d: Hash) {
    predicate Collide(H: PairHash) {
      (a, b) != (c, d) && H(a, b) == H(c, d)
    }
  }

  /** The entries found from number `from` on are txids at their own positions, in order, within lo and hi. */
  predicate Genuine(txids: seq<Hash>, lo: nat, hi: nat, c: Cursor, from: nat) {
    && |c.matched| == |c.indexes| && hi <= |txids|
    && (forall k :: from <= k < |c.indexes| ==> lo <= c.indexes[k] < hi && c.matched[k] == txids[c.indexes[k]])
    && (forall k, l :: from <= k < l < |c.indexes| ==> c.indexes[k] < c.indexes[l])
  }

  lemma GenuineJoin(txids: seq<Hash>, lo: nat, mid: nat, hi: nat, c2: Cursor, c3: Cursor, from: nat)
    requires Genuine(txids, lo, mid, c2, from) && Genuine(txids, mid, hi, c3, |c2.indexes|)
    requires c2.matched <= c3.matched && c2.indexes <= c3.indexes && from <= |c2.indexes| && lo <= mid <= hi
    ensures Genuine(txids, lo, hi, c3, from)
  {
    forall k | from <= k < |c3.indexes|
      ensures lo <= c3.indexes[k] < hi && c3.matched[k] == txids[c3.indexes[k]]
      ensures k < |c2.indexes| ==> c3.indexes[k] < mid
    {
      if k < |c2.indexes| {
        assert c2.indexes[k] == c3.indexes[k] && c2.matched[k] == c3.matched[k];
      }
    }
    forall k, l | from <= k < l < |c3.indexes| ensures c3.indexes[k] < c3.indexes[l] {
      if l < |c2.indexes| {
        assert c2.indexes[k] == c3.indexes[k] && c2.indexes[l] == c3.indexes[l];
      }
    }
  }

  /** What the extraction adds to the cursor at this node is genuine, if the hash comes out right. */
  ghost predicate Authentic(H: PairHash, txids: seq<Hash>, e: Encoding, height: nat, pos: nat, c: Cursor)
    requires Node(|txids|, height, pos)
  {
    var (hash, d) := Extract(H, |txids|, e, height, pos, c);
    !d.bad && hash == CalcHash(H, txids, height, pos) ==>
      Genuine(txids, First(height, pos), Last(|txids|, height, pos), d, |c.indexes|)
  }

  lemma LeafAuthentic(H: PairHash, txids: seq<Hash>, e: Encoding, height: nat, pos: nat, c: Cursor)
    requires Node(|txids|, height, pos) && |c.matched| == |c.indexes|
    requires height == 0 || c.nBits >= |e.bits| || !e.bits[c.nBits]
    ensures Authentic(H, txids, e, height, pos, c)
  {
    Leaves(|txids|, height, pos);
  }

  lemma OneChildAuthentic(H: PairHash, txids: seq<Hash>, e: Encoding, height: nat, pos: nat, c: Cursor)
    returns (collision: Option<Pairs>)
    requires height > 0 && Node(|txids|, height, pos) && Node(|txids|, height - 1, 2 * pos)
    requires !Node(|txids|, height - 1, 2 * pos + 1)
    requires c.nBits < |e.bits| && e.bits[c.nBits] && |c.matched| == |c.indexes|
    requires Authentic(H, txids, e, height - 1, 2 * pos, c.(nBits := c.nBits + 1))
    ensures collision.None? ==> Authentic(H, txids, e, height, pos, c)
    ensures collision.Some? ==> collision.value.Collide(H)
  {
    Leaves(|txids|, height, pos);
    var left := Extract(H, |txids|, e, height - 1, 2 * pos, c.(nBits := c.nBits + 1)).0;
    var cl := CalcHash(H, txids, height - 1, 2 * pos);
    var pairs := Pairs(left, left, cl, cl);
    collision := if pairs.Collide(H) then Some(pairs) else None;
  }

  lemma TwoChildrenAuthentic(H: PairHash, txids: seq<Hash>, e: Encoding, height: nat, pos: nat, c: Cursor, c2: Cursor)
    returns (collision: Option<Pairs>)
    requires height > 0 && Node(|txids|, height, pos) && Node(|txids|, height - 1, 2 * pos)
    requires Node(|txids|, height - 1, 2 * pos + 1)
    requires c.nBits < |e.bits| && e.bits[c.nBits] && |c.matched| == |c.indexes|
    requires c2 == Extract(H, |txids|, e, height - 1, 2 * pos, c.(nBits := c.nBits + 1)).1
    requires Authentic(H, txids, e, height - 1, 2 * pos, c.(nBits := c.nBits + 1))
    requires Authentic(H, txids, e, height - 1, 2 * pos + 1, c2)
    ensures collision.None? ==> Authentic(H, txids, e, height, pos, c)
    ensures collision.Some? ==> collision.value.Collide(H)
  {
    var left := Extract(H, |txids|, e, height - 1, 2 * pos, c.(nBits := c.nBits + 1)).0;
    var cl := CalcHash(H, txids, height - 1, 2 * pos);
    var (right, c3) := Extract(H, |txids|, e, height - 1, 2 * pos + 1, c2);
    var cr := CalcHash(H, txids, height - 1, 2 * pos + 1);
    var pairs := Pairs(left, right, cl, cr);
    if pairs.Collide(H) {
      return Some(pairs);
    }
    if !c3.bad && left == cl && right == cr {
      Leaves(|txids|, height, pos);
      assert !c2.bad;
      assert Genuine(txids, First(height, pos), First(height - 1, 2 * pos + 1), c2, |c.indexes|);
      assert Genuine(txids, First(height - 1, 2 * pos + 1), Last(|txids|, height, pos), c3, |c2.indexes|);
      GenuineJoin(txids, First(height, pos), First(height - 1, 2 * pos + 1), Last(|txids|, height, pos), c2, c3,
        |c.indexes|);
    }
    collision := None;
  }

  /**
   Whatever the bits and hashes: a subtree that comes out with the right hash has only genuine
   matches, or else it exhibits two different pairs with the same hash.
   */
  lemma {:induction false} SubtreeAuthentic(H: PairHash, txids: seq<Hash>, e: Encoding, height: nat, pos: nat,
                                            c: Cursor)
    returns (collision: Option<Pairs>)
    requires Node(|txids|, height, pos) && |c.matched| == |c.indexes|
    ensures collision.None? ==> Authentic(H, txids, e, height, pos, c)
    ensures collision.Some? ==> collision.value.Collide(H)
    decreases height
  {
    if height == 0 || c.nBits >= |e.bits| || !e.bits[c.nBits] {
      LeafAuthentic(H, txids, e, height, pos, c);
      return None;
    }
    Children(|txids|, height, pos);
    var c1 := c.(nBits := c.nBits + 1);
    collision := SubtreeAuthentic(H, txids, e, height - 1, 2 * pos, c1);
    if collision.Some? {
      return;
    }
    if !Node(|txids|, height - 1, 2 * pos + 1) {
      collision := OneChildAuthentic(H, txids, e, height, pos, c);
      return;
    }
    var c2 := Extract(H, |txids|, e, height - 1, 2 * pos, c1).1;
    collision := SubtreeAuthentic(H, txids, e, height - 1, 2 * pos + 1, c2);
    if collision.None? {
      collision := TwoChildrenAuthentic(H, txids, e, height, pos, c, c2);
    }
  }

  // Sizes

  /** Nodes the traversal descends into that have only one child. */
  function OnlyChildren(matches: seq<bool>, height: nat, pos: nat): nat
    requires Node(|matches|, height, pos)
    decreases height
  {
    if height == 0 || !ParentOfMatch(matches, height, pos) then 0
    else
      Children(|matches|, height, pos);
      OnlyChildren(matches, height - 1, 2 * pos) +
      if Node(|matches|, height - 1, 2 * pos + 1) then OnlyChildren(matches, height - 1, 2 * pos + 1) else 1
  }

  /** How many matched txids there are below a node. */
  function MatchCount(matches: seq<bool>, height: nat, pos: nat): nat
    requires Node(|matches|, height, pos)
    decreases height
  {
    if height == 0 then
      if matches[pos] then 1 else 0
    else
      Children(|matches|, height, pos);
      MatchCount(matches, height - 1, 2 * pos) +
      if Node(|matches|, height - 1, 2 * pos + 1) then MatchCount(matches, height - 1, 2 * pos + 1) else 0
  }

  lemma {:induction false} CountsMatched(matches: seq<bool>, height: nat, pos: nat)
    requires Node(|matches|, height, pos)
    ensures MatchCount(matches, height, pos) == |Matched(matches, height, pos)|
    decreases height
  {
    if height == 0 {
      assert MatchedIn(matches, pos, pos) == [];
    } else {
      Children(|matches|, height, pos);
      MatchedChildren(matches, height, pos);
      CountsMatched(matches, height - 1, 2 * pos);
      if Node(|matches|, height - 1, 2 * pos + 1) {
        CountsMatched(matches, height - 1, 2 * pos + 1);
      }
    }
  }

  lemma ParentHasMatch(matches: seq<bool>, height: nat, pos: nat)
    requires Node(|matches|, height, pos)
    ensures ParentOfMatch(matches, height, pos) <==> MatchCount(matches, height, pos) >= 1
  {
    Leaves(|matches|, height, pos);
    CountsMatched(matches, height, pos);
    MatchedExactly(matches, First(height, pos), Last(|matches|, height, pos));
  }

  /** At most one hash for every txid. */
  lemma {:induction false} HashesPerTxid(H: PairHash, txids: seq<Hash>, matches: seq<bool>, height: nat, pos: nat)
    requires |txids| == |matches| && Node(|txids|, height, pos)
    ensures 1 <= |Build(H, txids, matches, height, pos).hashes| <= Last(|txids|, height, pos) - First(height, pos)
    decreases height
  {
    Leaves(|txids|, height, pos);
    if height > 0 && ParentOfMatch(matches, height, pos) {
      Children(|txids|, height, pos);
      HashesPerTxid(H, txids, matches, height - 1, 2 * pos);
      if Node(|txids|, height - 1, 2 * pos + 1) {
        HashesPerTxid(H, txids, matches, height - 1, 2 * pos + 1);
      }
    }
  }

  /** The nodes that end the descent towards the matches: matched or not at the bottom, unmatched above. */
  function Ends(matches: seq<bool>, height: nat, pos: nat): seq<(nat, nat)>
    decreases height
  {
    if height == 0 || !ParentOfMatch(matches, height, pos) then [(height, pos)]
    else
      Ends(matches, height - 1, 2 * pos) +
      if Node(|matches|, height - 1, 2 * pos + 1) then Ends(matches, height - 1, 2 * pos + 1) else []
  }

  /** Nodes side by side, whose leaves are those from lo up to hi. */
  ghost predicate Cover(n: nat, nodes: seq<(nat, nat)>, lo: nat, hi: nat) {
    && (forall i :: 0 <= i < |nodes| ==> Node(n, nodes[i].0, nodes[i].1))
    && nodes != [] && First(nodes[0].0, nodes[0].1) == lo
    && Last(n, nodes[|nodes| - 1].0, nodes[|nodes| - 1].1) == hi
    && forall i :: 0 < i < |nodes| ==>
         Last(n, nodes[i - 1].0, nodes[i - 1].1) == First(nodes[i].0, nodes[i].1)
  }

  lemma CoverJoin(n: nat, a: seq<(nat, nat)>, b: seq<(nat, nat)>, lo: nat, mid: nat, hi: nat)
    requires Cover(n, a, lo, mid) && Cover(n, b, mid, hi)
    ensures Cover(n, a + b, lo, hi)
  {
    hide First, Last, Node;
  }

  /** They stand side by side, from left to right. */
  lemma {:induction false} EndsCover(matches: seq<bool>, height: nat, pos: nat)
    requires Node(|matches|, height, pos)
    ensures Cover(|matches|, Ends(matches, height, pos), First(height, pos), Last(|matches|, height, pos))
    decreases height
  {
    if height > 0 && ParentOfMatch(matches, height, pos) {
      hide Cover, ParentOfMatch;
      var n := |matches|;
      Children(n, height, pos);
      Leaves(n, height, pos);
      EndsCover(matches, height - 1, 2 * pos);
      if Node(n, height - 1, 2 * pos + 1) {
        EndsCover(matches, height - 1, 2 * pos + 1);
        CoverJoin(n, Ends(matches, height - 1, 2 * pos), Ends(matches, height - 1, 2 * pos + 1), First(height, pos),
          First(height - 1, 2 * pos + 1), Last(n, height, pos));
      }
    }
  }

  ghost predicate HashesAre(H: PairHash, txids: seq<Hash>, nodes: seq<(nat, nat)>, hashes: seq<Hash>) {
    && |hashes| == |nodes|
    && forall i :: 0 <= i < |nodes| ==>
         Node(|txids|, nodes[i].0, nodes[i].1) && hashes[i] == CalcHash(H, txids, nodes[i].0, nodes[i].1)
  }

  lemma HashesJoin(H: PairHash, txids: seq<Hash>, a: seq<(nat, nat)>, b: seq<(nat, nat)>, x: seq<Hash>, y: seq<Hash>)
    requires HashesAre(H, txids, a, x) && HashesAre(H, txids, b, y)
    ensures HashesAre(H, txids, a + b, x + y)
  {
    hide Node, CalcHash;
  }

  lemma BuildStep(H: PairHash, txids: seq<Hash>, matches: seq<bool>, height: nat, pos: nat)
    requires |txids| == |matches| && Node(|txids|, height, pos) && height > 0 && ParentOfMatch(matches, height, pos)
    ensures Node(|txids|, height - 1, 2 * pos)
    ensures var e, left := Build(H, txids, matches, height, pos), Build(H, txids, matches, height - 1, 2 * pos);
            if Node(|txids|, height - 1, 2 * pos + 1) then
              var right := Build(H, txids, matches, height - 1, 2 * pos + 1);
              e.bits == [true] + left.bits + right.bits && e.hashes == left.hashes + right.hashes
            else e.bits == [true] + left.bits && e.hashes == left.hashes
  {
    Children(|txids|, height, pos);
    hide ParentOfMatch, Width;
  }

  /** A tree holds their hashes, in this order. */
  lemma {:induction false} HashPerEnd(H: PairHash, txids: seq<Hash>, matches: seq<bool>, height: nat, pos: nat)
    requires |txids| == |matches| && Node(|txids|, height, pos)
    ensures HashesAre(H, txids, Ends(matches, height, pos), Build(H, txids, matches, height, pos).hashes)
    decreases height
  {
    if height > 0 && ParentOfMatch(matches, height, pos) {
      BuildStep(H, txids, matches, height, pos);
      HashPerEnd(H, txids, matches, height - 1, 2 * pos);
      hide Build, HashesAre, ParentOfMatch, Width;
      if Node(|txids|, height - 1, 2 * pos + 1) {
        HashPerEnd(H, txids, matches, height - 1, 2 * pos + 1);
        HashesJoin(H, txids, Ends(matches, height - 1, 2 * pos), Ends(matches, height - 1, 2 * pos + 1),
          Build(H, txids, matches, height - 1, 2 * pos).hashes,
          Build(H, txids, matches, height - 1, 2 * pos + 1).hashes);
      } else {
        assert Ends(matches, height, pos) == Ends(matches, height - 1, 2 * pos);
      }
    }
  }

  /** The nodes visited: a node, and the children of one that has a match below it. */
  function Visits(matches: seq<bool>, height: nat, pos: nat): seq<(nat, nat)>
    decreases height
  {
    if height == 0 || !ParentOfMatch(matches, height, pos) then [(height, pos)]
    else
      [(height, pos)] + Visits(matches, height - 1, 2 * pos) +
      if Node(|matches|, height - 1, 2 * pos + 1) then Visits(matches, height - 1, 2 * pos + 1) else []
  }

  /** Left before right, and a node before those below it. */
  ghost predicate Precedes(a: (nat, nat), b: (nat, nat)) {
    First(a.0, a.1) < First(b.0, b.1) || (First(a.0, a.1) == First(b.0, b.1) && a.0 > b.0)
  }

  ghost predicate InOrder(nodes: seq<(nat, nat)>, height: nat, lo: nat, hi: nat) {
    && (forall i :: 0 <= i < |nodes| ==> nodes[i].0 <= height && lo <= First(nodes[i].0, nodes[i].1) < hi)
    && forall i, j :: 0 <= i < j < |nodes| ==> Precedes(nodes[i], nodes[j])
  }

  lemma InOrderJoin(root: (nat, nat), a: seq<(nat, nat)>, b: seq<(nat, nat)>, lo: nat, mid: nat, hi: nat)
    requires root.0 > 0 && First(root.0, root.1) == lo < hi && mid <= hi
    requires InOrder(a, root.0 - 1, lo, mid) && (b != [] ==> lo <= mid && InOrder(b, root.0 - 1, mid, hi))
    ensures InOrder([root] + a + b, root.0, lo, hi)
  {
    hide First;
  }

  lemma VisitStep(matches: seq<bool>, height: nat, pos: nat)
    ensures Visits(matches, height, pos) ==
              if height == 0 || !ParentOfMatch(matches, height, pos) then [(height, pos)]
              else
                [(height, pos)] + Visits(matches, height - 1, 2 * pos) +
                if Node(|matches|, height - 1, 2 * pos + 1) then Visits(matches, height - 1, 2 * pos + 1) else []
    ensures height > 0 ==> First(height, pos) == First(height - 1, 2 * pos)
  {
  }

  lemma OneInOrder(height: nat, pos: nat, hi: nat)
    requires First(height, pos) < hi
    ensures InOrder([(height, pos)], height, First(height, pos), hi)
  {
  }

  lemma {:induction false} VisitsInOrder(matches: seq<bool>, height: nat, pos: nat)
    requires Node(|matches|, height, pos)
    ensures InOrder(Visits(matches, height, pos), height, First(height, pos), Last(|matches|, height, pos))
    decreases height
  {
    hide InOrder, ParentOfMatch, Visits, First, Last, Node;
    var n := |matches|;
    Leaves(n, height, pos);
    VisitStep(matches, height, pos);
    if height == 0 || !ParentOfMatch(matches, height, pos) {
      OneInOrder(height, pos, Last(n, height, pos));
    } else {
      Children(n, height, pos);
      Leaves(n, height - 1, 2 * pos);
      VisitsInOrder(matches, height - 1, 2 * pos);
      var right := Node(n, height - 1, 2 * pos + 1);
      if right {
        VisitsInOrder(matches, height - 1, 2 * pos + 1);
      }
      InOrderJoin((height, pos), Visits(matches, height - 1, 2 * pos),
        if right then Visits(matches, height - 1, 2 * pos + 1) else [], First(height, pos),
        Last(n, height - 1, 2 * pos), Last(n, height, pos));
    }
  }

  ghost predicate FlagsAre(matches: seq<bool>, nodes: seq<(nat, nat)>, bits: seq<bool>) {
    |bits| == |nodes| && forall i :: 0 <= i < |nodes| ==> bits[i] == ParentOfMatch(matches, nodes[i].0, nodes[i].1)
  }

  lemma FlagsJoin(matches: seq<bool>, root: (nat, nat), a: seq<(nat, nat)>, b: seq<(nat, nat)>, x: seq<bool>,
                  y: seq<bool>)
    requires ParentOfMatch(matches, root.0, root.1) && FlagsAre(matches, a, x) && FlagsAre(matches, b, y)
    ensures FlagsAre(matches, [root] + a + b, [true] + x + y)
  {
    hide ParentOfMatch;
  }

  /** A tree has a flag for each node visited, in this order: whether there is a match below it. */
  lemma {:induction false} FlagPerVisit(H: PairHash, txids: seq<Hash>, matches: seq<bool>, height: nat, pos: nat)
    requires |txids| == |matches| && Node(|txids|, height, pos)
    ensures FlagsAre(matches, Visits(matches, height, pos), Build(H, txids, matches, height, pos).bits)
    decreases height
  {
    hide Build, FlagsAre, ParentOfMatch, Visits, Node;
    VisitStep(matches, height, pos);
    if height == 0 || !ParentOfMatch(matches, height, pos) {
      BuildLeaf(H, txids, matches, height, pos);
      OneFlag(matches, height, pos);
    } else {
      BuildStep(H, txids, matches, height, pos);
      NoFlags(matches);
      FlagPerVisit(H, txids, matches, height - 1, 2 * pos);
      var left, lefts := Build(H, txids, matches, height - 1, 2 * pos).bits, Visits(matches, height - 1, 2 * pos);
      if Node(|txids|, height - 1, 2 * pos + 1) {
        FlagPerVisit(H, txids, matches, height - 1, 2 * pos + 1);
        FlagsJoin(matches, (height, pos), lefts, Visits(matches, height - 1, 2 * pos + 1), left,
          Build(H, txids, matches, height - 1, 2 * pos + 1).bits);
      } else {
        FlagsJoin(matches, (height, pos), lefts, [], left, []);
        assert [true] + left + [] == [true] + left;
      }
    }
  }

  lemma OneFlag(matches: seq<bool>, height: nat, pos: nat)
    ensures FlagsAre(matches, [(height, pos)], [ParentOfMatch(matches, height, pos)])
  {
  }

  lemma NoFlags(matches: seq<bool>)
    ensures FlagsAre(matches, [], [])
  {
  }

  /** m times h, unfolded along the tree. */
  function Times(m: nat, h: nat): nat {
    if h == 0 then 0 else m + Times(m, h - 1)
  }

  lemma {:induction false} TimesIsProduct(m: nat, h: nat)
    ensures Times(m, h) == m * h
  {
    if h > 0 {
      TimesIsProduct(m, h - 1);
      assert m * h == m * (h - 1) + m;
    }
  }

  lemma {:induction false} TimesShares(l: nat, r: nat, h: nat)
    ensures Times(l + r, h) == Times(l, h) + Times(r, h)
  {
    if h > 0 {
      TimesShares(l, r, h - 1);
    }
  }

  /** At most one hash more than matched txids times the height. */
  lemma {:induction false} HashesPerMatch(H: PairHash, txids: seq<Hash>, matches: seq<bool>, height: nat, pos: nat)
    requires |txids| == |matches| && Node(|txids|, height, pos)
    ensures |Build(H, txids, matches, height, pos).hashes| <= 1 + Times(MatchCount(matches, height, pos), height)
    decreases height
  {
    ParentHasMatch(matches, height, pos);
    if height > 0 && ParentOfMatch(matches, height, pos) {
      Children(|txids|, height, pos);
      HashesPerMatch(H, txids, matches, height - 1, 2 * pos);
      if Node(|txids|, height - 1, 2 * pos + 1) {
        HashesPerMatch(H, txids, matches, height - 1, 2 * pos + 1);
        TimesShares(MatchCount(matches, height - 1, 2 * pos), MatchCount(matches, height - 1, 2 * pos + 1), height - 1);
      }
    }
  }

  /** Exactly how many flag bits there are. */
  lemma {:induction false} BitsPerHash(H: PairHash, txids: seq<Hash>, matches: seq<bool>, height: nat, pos: nat)
    requires |txids| == |matches| && Node(|txids|, height, pos)
    ensures var e := Build(H, txids, matches, height, pos);
            |e.bits| == 2 * |e.hashes| - 1 + OnlyChildren(matches, height, pos)
    decreases height
  {
    if height > 0 && ParentOfMatch(matches, height, pos) {
      Children(|txids|, height, pos);
      BitsPerHash(H, txids, matches, height - 1, 2 * pos);
      if Node(|txids|, height - 1, 2 * pos + 1) {
        BitsPerHash(H, txids, matches, height - 1, 2 * pos + 1);
      }
    }
  }

  /** The last node at this height has only a left child, and a matched txid below it. */
  predicate RaggedAt(matches: seq<bool>, height: nat) {
    && height > 0 && matches != []
    && Width(|matches|, height - 1) % 2 == 1
    && ParentOfMatch(matches, height, Width(|matches|, height) - 1)
  }

  lemma {:induction false} InteriorHasBoth(matches: seq<bool>, height: nat, pos: nat)
    requires pos + 1 < Width(|matches|, height)
    ensures OnlyChildren(matches, height, pos) == 0
    decreases height
  {
    if height > 0 {
      InteriorHasBoth(matches, height - 1, 2 * pos);
      InteriorHasBoth(matches, height - 1, 2 * pos + 1);
    }
  }

  lemma ParentInherits(matches: seq<bool>, height: nat, pos: nat)
    requires height > 0 && Node(|matches|, height, pos)
    ensures ParentOfMatch(matches, height, pos) <==>
            ParentOfMatch(matches, height - 1, 2 * pos) ||
            (Node(|matches|, height - 1, 2 * pos + 1) && ParentOfMatch(matches, height - 1, 2 * pos + 1))
  {
    Children(|matches|, height, pos);
    ParentHasMatch(matches, height, pos);
    ParentHasMatch(matches, height - 1, 2 * pos);
    if Node(|matches|, height - 1, 2 * pos + 1) {
      ParentHasMatch(matches, height - 1, 2 * pos + 1);
    }
  }

  /** How many single-child nodes at the right edge, up to a height, have a matched txid below them. */
  function RaggedCount(matches: seq<bool>, height: nat): (k: nat)
    ensures k <= height
  {
    if height == 0 then 0 else RaggedCount(matches, height - 1) + if RaggedAt(matches, height) then 1 else 0
  }

  lemma {:induction false} NoneRagged(matches: seq<bool>, height: nat)
    ensures RaggedCount(matches, height) == 0 <==> forall k :: 1 <= k <= height ==> !RaggedAt(matches, k)
  {
    hide RaggedAt;
    if height > 0 {
      NoneRagged(matches, height - 1);
      assert RaggedCount(matches, height) == 0 <==> !RaggedAt(matches, height) && RaggedCount(matches, height - 1) == 0;
    }
  }

  lemma LastNodeStep(matches: seq<bool>, height: nat)
    requires height > 0
    requires Width(|matches|, height) >= 1 && Width(|matches|, height - 1) >= 1
    ensures var pos := Width(|matches|, height) - 1;
            var last := Width(|matches|, height - 1) - 1;
            && (ParentOfMatch(matches, height - 1, last) ==> ParentOfMatch(matches, height, pos))
            && (ParentOfMatch(matches, height, pos) ==>
                  OnlyChildren(matches, height, pos) == OnlyChildren(matches, height - 1, last) + (last + 1) % 2)
  {
    var pos := Width(|matches|, height) - 1;
    ParentInherits(matches, height, pos);
    if Node(|matches|, height - 1, 2 * pos + 1) {
      InteriorHasBoth(matches, height - 1, 2 * pos);
    }
  }

  /** Exactly the ragged heights below the last node contribute. */
  lemma {:induction false} LastNodeRagged(matches: seq<bool>, height: nat)
    requires matches != []
    ensures Width(|matches|, height) >= 1
    ensures var pos := Width(|matches|, height) - 1;
            && OnlyChildren(matches, height, pos) == RaggedCount(matches, height)
            && (!ParentOfMatch(matches, height, pos) ==> RaggedCount(matches, height) == 0)
  {
    WidthPositive(|matches|, height);
    if height > 0 {
      LastNodeRagged(matches, height - 1);
      LastNodeStep(matches, height);
    }
  }

  /**
   The documented bound of 2N - 1 flag bits for N hashes is met exactly when no single-child node
   at the right edge of the tree has a matched txid below it.
   */
  lemma FlagBitsBound(H: PairHash, txids: seq<Hash>, matches: seq<bool>)
    requires |txids| == |matches| && txids != []
    ensures Node(|txids|, Height(|txids|), 0)
    ensures var e := Build(H, txids, matches, Height(|txids|), 0);
            |e.bits| <= 2 * |e.hashes| - 1 <==> forall k :: 1 <= k <= Height(|txids|) ==> !RaggedAt(matches, k)
  {
    var h := Height(|txids|);
    WidthPositive(|txids|, h);
    BitsPerHash(H, txids, matches, h, 0);
    LastNodeRagged(matches, h);
    NoneRagged(matches, h);
  }

  /** Five txids with the last one matched need five flag bits for two hashes. */
  lemma FlagBitsExceeded(H: PairHash)
    ensures Height(5) == 3 && Node(5, 3, 0)
    ensures var e := Build(H, [1, 2, 3, 4, 5], [false, false, false, false, true], 3, 0);
            |e.hashes| == 2 && |e.bits| == 5
  {
    var txids := [1, 2, 3, 4, 5];
    var matches := [false, false, false, false, true];
    assert HeightFrom(5, 3) == HeightFrom(5, 2) == HeightFrom(5, 1) == HeightFrom(5, 0);
    assert First(0, 4) == First(1, 2) == First(2, 1) == 4 && First(2, 0) == 0 && First(2, 2) >= 5 && First(3, 1) >= 5;
    assert matches[4];
    assert !ParentOfMatch(matches, 2, 0);
    assert ParentOfMatch(matches, 0, 4) && ParentOfMatch(matches, 1, 2) && ParentOfMatch(matches, 2, 1);
    assert ParentOfMatch(matches, 3, 0);
    assert |Build(H, txids, matches, 0, 4).hashes| == 1;
    assert |Build(H, txids, matches, 1, 2).hashes| == 1;
    assert |Build(H, txids, matches, 2, 1).hashes| == 1 && |Build(H, txids, matches, 2, 1).bits| == 3;
    assert |Build(H, txids, matches, 2, 0).hashes| == 1 && |Build(H, txids, matches, 2, 0).bits| == 1;
  }

  // Serialized sizes

  /** The bytes that a count takes. */
  function CompactSize(n: nat): nat {
    if n < 253 then 1 else if n <= 0xffff then 3 else if n <= 0xffff_ffff then 5 else 9
  }

  /** The bytes of a message: total, hashes, flag bits in bytes, and the counts of the latter two. */
  function SerializedSize(e: Encoding): nat {
    var bytes := (|e.bits| + 7) / 8;
    4 + CompactSize(|e.hashes|) + 32 * |e.hashes| + CompactSize(bytes) + bytes
  }

  /** The documented guarantee, 10 + ceil(32.25 N). */
  function PromisedSize(n: nat): nat { 10 + (129 * n + 3) / 4 }

  /** The flag bits of single-child nodes that do not fit into the last byte, in bytes. */
  function Overhang(n: nat, k: nat): nat { (k + 2 * ((n + 3) % 4)) / 8 }

  lemma SizeArith(n: nat, k: nat)
    requires n >= 1
    ensures 4 + 32 * n + (2 * n - 1 + k + 7) / 8 == PromisedSize(n) - 6 + Overhang(n, k)
  {
    var q, r := (n + 3) / 4, (n + 3) % 4;
    assert n + 3 == 4 * q + r;
    assert (129 * n + 3) / 4 == 32 * n + q;
    assert 2 * n + 6 + k == 8 * q + 2 * r + k;
  }

  /** The size of any tree, against the documented guarantee. */
  lemma SizeExact(H: PairHash, txids: seq<Hash>, matches: seq<bool>)
    requires |txids| == |matches| && txids != []
    ensures Node(|txids|, Height(|txids|), 0)
    ensures var e := Build(H, txids, matches, Height(|txids|), 0);
            var n, k := |Ends(matches, Height(|txids|), 0)|, RaggedCount(matches, Height(|txids|));
            && |e.hashes| == n && 1 <= n <= |txids| && |e.bits| == 2 * n - 1 + k
            && SerializedSize(e) ==
                 PromisedSize(n) - 6 + CompactSize(n) + CompactSize((|e.bits| + 7) / 8) + Overhang(n, k)
  {
    hide Build, Height, RaggedAt, PromisedSize, Overhang, CompactSize, Ends;
    WholeTree(H, txids, matches);
    HashPerEnd(H, txids, matches, Height(|txids|), 0);
    SizeArith(|Build(H, txids, matches, Height(|txids|), 0).hashes|, RaggedCount(matches, Height(|txids|)));
  }

  /** Trees that are accepted are not high. */
  lemma HeightAtMost15(n: nat)
    requires n <= MAX_BLOCK_BASE_SIZE / 60
    ensures Height(n) <= 15
  {
    hide HeightFrom;
    assert Width(n, 1) <= 8334 && Width(n, 2) <= 4167 && Width(n, 3) <= 2084 && Width(n, 4) <= 1042;
    assert Width(n, 5) <= 521 && Width(n, 6) <= 261 && Width(n, 7) <= 131 && Width(n, 8) <= 66;
    assert Width(n, 9) <= 33 && Width(n, 10) <= 17 && Width(n, 11) <= 9 && Width(n, 12) <= 5;
    assert Width(n, 13) <= 3 && Width(n, 14) <= 2 && Width(n, 15) <= 1;
  }

  /**
   The documented guarantee on the size is kept exactly by trees with less than 253 bytes of flag
   bits, and by those where the flag bits of single-child nodes fit into the last byte.
   */
  lemma SizeBound(H: PairHash, txids: seq<Hash>, matches: seq<bool>)
    requires |txids| == |matches| && 1 <= |txids| <= MAX_BLOCK_BASE_SIZE / 60
    ensures Node(|txids|, Height(|txids|), 0)
    ensures var e := Build(H, txids, matches, Height(|txids|), 0);
            var n, k := |Ends(matches, Height(|txids|), 0)|, RaggedCount(matches, Height(|txids|));
            && |e.hashes| == n && |e.bits| == 2 * n - 1 + k
            && (SerializedSize(e) <= PromisedSize(n) <==> 2 * n + k < 2018 || k + 2 * ((n + 3) % 4) < 8)
  {
    hide Build, Height, RaggedAt, SerializedSize, PromisedSize, Ends;
    SizeExact(H, txids, matches);
    HeightAtMost15(|txids|);
  }

  lemma WholeTree(H: PairHash, txids: seq<Hash>, matches: seq<bool>)
    requires |txids| == |matches| && txids != []
    ensures Node(|txids|, Height(|txids|), 0)
    ensures var e := Build(H, txids, matches, Height(|txids|), 0);
            1 <= |e.hashes| <= |txids| && |e.bits| == 2 * |e.hashes| - 1 + RaggedCount(matches, Height(|txids|))
  {
    var h := Height(|txids|);
    RootLeaves(|txids|);
    HashesPerTxid(H, txids, matches, h, 0);
    BitsPerHash(H, txids, matches, h, 0);
    LastNodeRagged(matches, h);
  }

  lemma {:induction false} AllHashes(H: PairHash, txids: seq<Hash>, matches: seq<bool>, height: nat, pos: nat)
    requires |txids| == |matches| && Node(|txids|, height, pos) && forall p :: 0 <= p < |matches| ==> matches[p]
    ensures |Build(H, txids, matches, height, pos).hashes| == Last(|txids|, height, pos) - First(height, pos)
    ensures ParentOfMatch(matches, height, pos)
    decreases height
  {
    Leaves(|txids|, height, pos);
    assert matches[First(height, pos)];
    if height > 0 {
      Children(|txids|, height, pos);
      AllHashes(H, txids, matches, height - 1, 2 * pos);
      if Node(|txids|, height - 1, 2 * pos + 1) {
        AllHashes(H, txids, matches, height - 1, 2 * pos + 1);
      }
    }
  }

  /** A block of 1025 transactions, all of them matched, takes one byte more than promised. */
  lemma SizeExceeded(H: PairHash, txids: seq<Hash>, matches: seq<bool>)
    requires |txids| == |matches| == 1025 && forall p :: 0 <= p < |matches| ==> matches[p]
    ensures Node(1025, Height(1025), 0)
    ensures var e := Build(H, txids, matches, Height(1025), 0);
            |e.hashes| == 1025 && SerializedSize(e) == 33068 && PromisedSize(1025) == 33067
  {
    hide Build, Height, ParentOfMatch, RaggedCount;
    WholeTree(H, txids, matches);
    RootLeaves(1025);
    AllHashes(H, txids, matches, Height(1025), 0);
    RaggedBy10(H, txids, matches);
  }

  lemma WidthsOf1025(n: nat)
    requires n == 1025
    ensures forall k :: 0 <= k <= 9 ==> Width(n, k) % 2 == 1
    ensures Width(n, 10) == 2 && Height(n) == 11
  {
    hide HeightFrom;
    assert Width(n, 1) == 513 && Width(n, 2) == 257 && Width(n, 3) == 129 && Width(n, 4) == 65;
    assert Width(n, 5) == 33 && Width(n, 6) == 17 && Width(n, 7) == 9 && Width(n, 8) == 5;
    assert Width(n, 9) == 3 && Width(n, 10) == 2 && Width(n, 11) == 1;
  }

  lemma RaggedBy10(H: PairHash, txids: seq<Hash>, matches: seq<bool>)
    requires |txids| == |matches| == 1025 && forall p :: 0 <= p < |matches| ==> matches[p]
    ensures RaggedCount(matches, Height(1025)) == 10
  {
    hide ParentOfMatch, Width, Height, Build;
    WidthsOf1025(|matches|);
    forall k: nat | 1 <= k <= 10 ensures RaggedAt(matches, k) {
      WidthPositive(1025, k);
      AllHashes(H, txids, matches, k, Width(1025, k) - 1);
      assert Width(1025, k - 1) % 2 == 1;
    }
    AllRagged(matches, 10);
  }

  lemma {:induction false} AllRagged(matches: seq<bool>, height: nat)
    requires forall k :: 1 <= k <= height ==> RaggedAt(matches, k)
    ensures RaggedCount(matches, height) == height
  {
    hide RaggedAt;
    if height > 0 {
      AllRagged(matches, height - 1);
    }
  }

  // Serialized flag bits

  /** Bit p of a byte sequence, least significant bit of a byte first. */
  predicate BitSet(bytes: seq<bv8>, p: nat)
    requires p / 8 < |bytes|
  {
    bytes[p / 8] & (1 << (p % 8)) != 0
  }

  lemma SetInByte(b: bv8, x: bool, i: nat, j: nat)
    requires i < 8 && j < 8
    ensures var c := b | ((if x then 1 else 0) << j);
            c & (1 << i) != 0 <==> b & (1 << i) != 0 || (i == j && x)
  {
    var u: bv8 := (1 as bv8) << i;
    var v: bv8 := (if x then 1 as bv8 else 0) << j;
    if i == 0 { } else if i == 1 { } else if i == 2 { } else if i == 3 { }
    else if i == 4 { } else if i == 5 { } else if i == 6 { } else { assert i == 7; }
    if j == 0 { } else if j == 1 { } else if j == 2 { } else if j == 3 { }
    else if j == 4 { } else if j == 5 { } else if j == 6 { } else { assert j == 7; }
    assert (b | v) & u == (b & u) | (v & u);
  }

  /** The flag bits filled up to whole bytes. */
  function Padded(bits: seq<bool>): (r: seq<bool>)
    ensures |r| == 8 * ((|bits| + 7) / 8)
  {
    bits + seq(8 * ((|bits| + 7) / 8) - |bits|, _ => false)
  }

  function SetBit(bytes: seq<bv8>, p: nat, bit: bool): (r: seq<bv8>)
    requires p < 8 * |bytes|
    ensures |r| == |bytes|
  {
    bytes[p / 8 := bytes[p / 8] | ((if bit then 1 else 0) << (p % 8))]
  }

  lemma SetBitAt(bytes: seq<bv8>, p: nat, bit: bool, q: nat)
    requires p < 8 * |bytes| && q < 8 * |bytes|
    ensures BitSet(SetBit(bytes, p, bit), q) <==> BitSet(bytes, q) || (q == p && bit)
  {
    SetInByte(bytes[p / 8], bit, q % 8, p % 8);
  }

  method PackBits(bits: seq<bool>) returns (bytes: seq<bv8>)
    ensures |bytes| == (|bits| + 7) / 8
    ensures forall p :: 0 <= p < 8 * |bytes| ==> (BitSet(bytes, p) <==> p < |bits| && bits[p])
  {
    hide SetBit;
    bytes := seq((|bits| + 7) / 8, _ => 0);
    for p := 0 to |bits|
      invariant |bytes| == (|bits| + 7) / 8
      invariant forall q :: 0 <= q < 8 * |bytes| ==> (BitSet(bytes, q) <==> q < p && bits[q])
    {
      forall q | 0 <= q < 8 * |bytes|
        ensures BitSet(SetBit(bytes, p, bits[p]), q) <==> BitSet(bytes, q) || (q == p && bits[p])
      {
        SetBitAt(bytes, p, bits[p], q);
      }
      bytes := SetBit(bytes, p, bits[p]);
    }
  }

  method UnpackBits(bytes: seq<bv8>) returns (bits: seq<bool>)
    ensures |bits| == 8 * |bytes|
    ensures forall p :: 0 <= p < |bits| ==> (bits[p] <==> BitSet(bytes, p))
  {
    bits := [];
    for p := 0 to 8 * |bytes|
      invariant |bits| == p
      invariant forall q :: 0 <= q < p ==> (bits[q] <==> BitSet(bytes, q))
    {
      bits := bits + [bytes[p / 8] & (1 << (p % 8)) != 0];
    }
  }

  // The whole extraction

  /** ExtractMatches: the root (0 on failure), the matched txids and their positions. */
  function ExtractResult(H: PairHash, n: nat, e: Encoding, bad: bool, indexes: seq<nat>): (Hash, seq<Hash>, seq<nat>) {
    if n == 0 || n > MAX_BLOCK_BASE_SIZE / 60 || |e.hashes| > n || |e.bits| < |e.hashes| then (0, [], indexes)
    else
      WidthPositive(n, Height(n));
      var (root, c) := Extract(H, n, e, Height(n), 0, Cursor(0, 0, bad, [], indexes));
      if c.bad || (c.nBits + 7) / 8 != (|e.bits| + 7) / 8 || c.nHash != |e.hashes| then (0, c.matched, c.indexes)
      else (root, c.matched, c.indexes)
  }

  /** What is not refused: a plausible number of transactions and hashes, and nothing left over. */
  lemma AcceptedOnly(H: PairHash, n: nat, e: Encoding, bad: bool, indexes: seq<nat>)
    requires ExtractResult(H, n, e, bad, indexes).0 != 0
    ensures 1 <= n <= 16666 && |e.hashes| <= n && |e.hashes| <= |e.bits| && Node(n, Height(n), 0)
    ensures var r := Extract(H, n, e, Height(n), 0, Cursor(0, 0, bad, [], indexes));
            && r.0 == ExtractResult(H, n, e, bad, indexes).0 && !r.1.bad
            && r.1.nHash == |e.hashes| && r.1.nBits - 7 <= |e.bits| <= r.1.nBits + 7
            && (r.1.nBits + 7) / 8 == (|e.bits| + 7) / 8
  {
    hide Extract;
    WidthPositive(n, Height(n));
  }

  lemma RootLeaves(n: nat)
    requires n > 0
    ensures Node(n, Height(n), 0) && First(Height(n), 0) == 0 && Last(n, Height(n), 0) == n
  {
    WidthPositive(n, Height(n));
    FirstIsShift(Height(n), 0);
    NodeHasLeaf(n, Height(n), 1);
  }

  lemma PaddedBytes(bits: seq<bool>)
    ensures |Padded(bits)| >= |bits| && Padded(bits)[..|bits|] == bits
    ensures (|bits| + 7) / 8 == (|Padded(bits)| + 7) / 8
  {
  }

  lemma PastStart(txids: seq<Hash>, matches: seq<bool>, h: nat, e: Encoding, twins: bool)
    requires |txids| == |matches| && First(h, 0) == 0 && Last(|txids|, h, 0) == |txids|
    ensures var found := MatchedIn(matches, 0, |matches|);
            Past(txids, matches, h, 0, e, twins, Cursor(0, 0, false, [], [])) ==
            Cursor(|e.bits|, |e.hashes|, twins, Select(txids, found), found)
  {
    var found := MatchedIn(matches, 0, |matches|);
    assert [] + Select(txids, found) == Select(txids, found) && [] + found == found;
  }

  lemma RootRecovered(H: PairHash, txids: seq<Hash>, matches: seq<bool>, sent: Encoding, h: nat)
    requires |txids| == |matches|
    requires Node(|txids|, h, 0) && First(h, 0) == 0 && Last(|txids|, h, 0) == |txids|
    requires var e := Build(H, txids, matches, h, 0);
             e.bits <= sent.bits && e.hashes == sent.hashes
    ensures var e := Build(H, txids, matches, h, 0);
            var found := MatchedIn(matches, 0, |matches|);
            Extract(H, |txids|, sent, h, 0, Cursor(0, 0, false, [], [])) ==
            (CalcHash(H, txids, h, 0),
             Cursor(|e.bits|, |e.hashes|, Twins(H, txids, matches, h, 0), Select(txids, found), found))
  {
    PastStart(txids, matches, h, Build(H, txids, matches, h, 0), Twins(H, txids, matches, h, 0));
    ExtractBuilt(H, txids, matches, sent, h, 0, Cursor(0, 0, false, [], []));
  }

  lemma RoundTripAt(H: PairHash, txids: seq<Hash>, matches: seq<bool>, h: nat)
    requires |txids| == |matches|
    requires Node(|txids|, h, 0) && First(h, 0) == 0 && Last(|txids|, h, 0) == |txids|
    ensures var e := Build(H, txids, matches, h, 0);
            var sent := Encoding(Padded(e.bits), e.hashes);
            var found := MatchedIn(matches, 0, |matches|);
            && Extract(H, |txids|, sent, h, 0, Cursor(0, 0, false, [], [])) ==
               (CalcHash(H, txids, h, 0),
                Cursor(|e.bits|, |e.hashes|, Twins(H, txids, matches, h, 0), Select(txids, found), found))
            && |e.hashes| <= |txids| && |e.hashes| <= |sent.bits| && (|e.bits| + 7) / 8 == (|sent.bits| + 7) / 8
  {
    var e := Build(H, txids, matches, h, 0);
    HashesPerTxid(H, txids, matches, h, 0);
    BitsPerHash(H, txids, matches, h, 0);
    PaddedBytes(e.bits);
    RootRecovered(H, txids, matches, Encoding(Padded(e.bits), e.hashes), h);
  }

  /**
   Building a tree, sending it with its bits packed into bytes and extracting it gives exactly the
   matched txids and positions, in order; and the Merkle root, unless two siblings above a matched
   txid have the same hash.
   */
  lemma RoundTrip(H: PairHash, txids: seq<Hash>, matches: seq<bool>)
    requires |txids| == |matches| && 1 <= |txids| <= MAX_BLOCK_BASE_SIZE / 60
    ensures Node(|txids|, Height(|txids|), 0)
    ensures var e := Build(H, txids, matches, Height(|txids|), 0);
            var found := MatchedIn(matches, 0, |matches|);
            ExtractResult(H, |txids|, Encoding(Padded(e.bits), e.hashes), false, []) ==
            (if Twins(H, txids, matches, Height(|txids|), 0) then 0 else MerkleRoot(H, txids),
             Select(txids, found), found)
  {
    RootLeaves(|txids|);
    RoundTripAt(H, txids, matches, Height(|txids|));
  }

  /** The documented bounds on the number of hashes, and at least one bit for each. */
  lemma HashBounds(H: PairHash, txids: seq<Hash>, matches: seq<bool>)
    requires |txids| == |matches| && txids != []
    ensures Node(|txids|, Height(|txids|), 0)
    ensures var e := Build(H, txids, matches, Height(|txids|), 0);
            && |e.hashes| <= |txids|
            && |e.hashes| <= 1 + |MatchedIn(matches, 0, |matches|)| * Height(|txids|)
            && |e.hashes| <= |e.bits|
  {
    var h := Height(|txids|);
    RootLeaves(|txids|);
    HashesPerTxid(H, txids, matches, h, 0);
    HashesPerMatch(H, txids, matches, h, 0);
    BitsPerHash(H, txids, matches, h, 0);
    CountsMatched(matches, h, 0);
    TimesIsProduct(|MatchedIn(matches, 0, |matches|)|, h);
  }

  /**
   For an arbitrary partial tree over as many txids: if the extraction succeeds with the Merkle
   root of the list, then every match is the list's txid at its extracted position, with the
   positions strictly increasing -- or two different pairs with the same hash have been found.
   */
  lemma Authenticity(H: PairHash, txids: seq<Hash>, e: Encoding) returns (collision: Option<Pairs>)
    requires txids != [] && MerkleRoot(H, txids) != 0
    requires ExtractResult(H, |txids|, e, false, []).0 == MerkleRoot(H, txids)
    ensures collision.Some? ==> collision.value.Collide(H)
    ensures collision.None? ==>
              var (_, found, indexes) := ExtractResult(H, |txids|, e, false, []);
              && |found| == |indexes|
              && (forall k :: 0 <= k < |indexes| ==> indexes[k] < |txids| && found[k] == txids[indexes[k]])
              && (forall k, l :: 0 <= k < l < |indexes| ==> indexes[k] < indexes[l])
  {
    RootLeaves(|txids|);
    collision := SubtreeAuthentic(H, txids, e, Height(|txids|), 0, Cursor(0, 0, false, [], []));
  }

  // The class

  method TreeHeight(n: nat) returns (h: nat)
    ensures h == Height(n)
  {
    h := 0;
    WidthIsShift(n, 0);
    while CalcTreeWidth(n, h) > 1
      invariant HeightFrom(n, h) == Height(n) && CalcTreeWidth(n, h) == Width(n, h)
      decreases Width(n, h)
    {
      h := h + 1;
      WidthIsShift(n, h);
    }
  }

  method IsParentOfMatch(vMatch: seq<bool>, height: nat, pos: nat) returns (parent: bool)
    ensures parent == ParentOfMatch(vMatch, height, pos)
  {
    FirstIsShift(height, pos);
    FirstIsShift(height, pos + 1);
    parent := false;
    var p := pos * Pow2(height);
    while p < (pos + 1) * Pow2(height) && p < |vMatch|
      invariant First(height, pos) <= p
      invariant p > First(height, pos) ==> p <= Last(|vMatch|, height, pos)
      invariant parent <==> exists q :: First(height, pos) <= q < p && q < |vMatch| && vMatch[q]
    {
      parent := parent || vMatch[p];
      p := p + 1;
    }
    FirstGrows(height, pos);
  }

  class PartialMerkleTree {
    const H: PairHash
    var nTransactions: nat
    var vBits: seq<bool>
    var vHash: seq<Hash>
    var fBad: bool

    ghost function Contents(): Encoding
      reads this
    {
      Encoding(vBits, vHash)
    }

    /** From a block's txids and a mask. */
    constructor (H: PairHash, vTxid: seq<Hash>, vMatch: seq<bool>)
      requires |vTxid| == |vMatch| && vTxid != []
      ensures this.H == H && nTransactions == |vTxid| && !fBad
      ensures Node(|vTxid|, Height(|vTxid|), 0)
      ensures Contents() == Build(H, vTxid, vMatch, Height(|vTxid|), 0)
    {
      this.H := H;
      nTransactions := |vTxid|;
      vBits, vHash, fBad := [], [], false;
      new;
      var h := TreeHeight(nTransactions);
      RootLeaves(nTransactions);
      TraverseAndBuild(h, 0, vTxid, vMatch);
    }

    /** Read from a stream. */
    constructor Received(H: PairHash, n: nat, hashes: seq<Hash>, bytes: seq<bv8>)
      ensures this.H == H && nTransactions == n && vHash == hashes && !fBad
      ensures |vBits| == 8 * |bytes| && forall p :: 0 <= p < |vBits| ==> (vBits[p] <==> BitSet(bytes, p))
    {
      this.H := H;
      nTransactions, vHash, fBad := n, hashes, false;
      vBits := [];
      new;
      vBits := UnpackBits(bytes);
    }

    method TraverseAndBuild(height: nat, pos: nat, vTxid: seq<Hash>, vMatch: seq<bool>)
      requires nTransactions == |vTxid| == |vMatch| && Node(nTransactions, height, pos)
      modifies this`vBits, this`vHash
      ensures Contents() == old(Contents()).Then(Build(H, vTxid, vMatch, height, pos))
      decreases height
    {
      hide CalcHash, ParentOfMatch, CalcTreeWidth, Width, Pow2;
      ghost var before := Contents();
      var parent := IsParentOfMatch(vMatch, height, pos);
      vBits := vBits + [parent];
      if height == 0 || !parent {
        vHash := vHash + [CalcHash(H, vTxid, height, pos)];
      } else {
        ghost var root := Encoding([true], []);
        assert Contents() == before.Then(root);
        Children(nTransactions, height, pos);
        ghost var left := Build(H, vTxid, vMatch, height - 1, 2 * pos);
        TraverseAndBuild(height - 1, 2 * pos, vTxid, vMatch);
        ThenAssociates(before, root, left);
        WidthIsShift(nTransactions, height - 1);
        if 2 * pos + 1 < CalcTreeWidth(nTransactions, height - 1) {
          TraverseAndBuild(height - 1, 2 * pos + 1, vTxid, vMatch);
          ThenAssociates(before, root.Then(left), Build(H, vTxid, vMatch, height - 1, 2 * pos + 1));
        }
      }
    }

    method TraverseAndExtract(height: nat, pos: nat, nBitsUsed: nat, nHashUsed: nat, vMatch: seq<Hash>,
                              vnIndex: seq<nat>)
      returns (hash: Hash, nBits: nat, nHash: nat, matched: seq<Hash>, indexes: seq<nat>)
      requires Node(nTransactions, height, pos)
      modifies this`fBad
      ensures (hash, Cursor(nBits, nHash, fBad, matched, indexes)) ==
              Extract(H, nTransactions, Contents(), height, pos,
                Cursor(nBitsUsed, nHashUsed, old(fBad), vMatch, vnIndex))
      decreases height
    {
      nBits, nHash, matched, indexes := nBitsUsed, nHashUsed, vMatch, vnIndex;
      if nBits >= |vBits| {
        fBad := true;
        hash := 0;
        return;
      }
      var parent := vBits[nBits];
      nBits := nBits + 1;
      if height == 0 || !parent {
        if nHash >= |vHash| {
          fBad := true;
          hash := 0;
          return;
        }
        hash := vHash[nHash];
        nHash := nHash + 1;
        if height == 0 && parent {
          matched := matched + [hash];
          indexes := indexes + [pos];
        }
      } else {
        Children(nTransactions, height, pos);
        var left, right;
        left, nBits, nHash, matched, indexes := TraverseAndExtract(height - 1, 2 * pos, nBits, nHash, matched, indexes);
        WidthIsShift(nTransactions, height - 1);
        if 2 * pos + 1 < CalcTreeWidth(nTransactions, height - 1) {
          right, nBits, nHash, matched, indexes :=
            TraverseAndExtract(height - 1, 2 * pos + 1, nBits, nHash, matched, indexes);
          if right == left {
            fBad := true;
          }
        } else {
          right := left;
        }
        hash := H(left, right);
      }
    }

    method ExtractMatches(vnIndex: seq<nat>) returns (root: Hash, matched: seq<Hash>, indexes: seq<nat>)
      modifies this`fBad
      ensures (root, matched, indexes) == ExtractResult(H, nTransactions, Contents(), old(fBad), vnIndex)
    {
      matched, indexes := [], vnIndex;
      if nTransactions == 0 || nTransactions > MAX_BLOCK_BASE_SIZE / 60 {
        root := 0;
        return;
      }
      if |vHash| > nTransactions || |vBits| < |vHash| {
        root := 0;
        return;
      }
      var h := TreeHeight(nTransactions);
      WidthPositive(nTransactions, h);
      var nBits, nHash;
      root, nBits, nHash, matched, indexes := TraverseAndExtract(h, 0, 0, 0, matched, indexes);
      if fBad || (nBits + 7) / 8 != (|vBits| + 7) / 8 || nHash != |vHash| {
        root := 0;
      }
    }
  }

  /** Relay end to end: build, pack, unpack, extract. */
  method Relay(H: PairHash, vTxid: seq<Hash>, vMatch: seq<bool>)
    returns (root: Hash, matched: seq<Hash>, indexes: seq<nat>)
    requires |vTxid| == |vMatch| && 1 <= |vTxid| <= MAX_BLOCK_BASE_SIZE / 60
    ensures Node(|vTxid|, Height(|vTxid|), 0)
    ensures root == if Twins(H, vTxid, vMatch, Height(|vTxid|), 0) then 0 else MerkleRoot(H, vTxid)
    ensures indexes == MatchedIn(vMatch, 0, |vMatch|) && matched == Select(vTxid, indexes)
  {
    var sender := new PartialMerkleTree(H, vTxid, vMatch);
    var bytes := PackBits(sender.vBits);
    var receiver := new PartialMerkleTree.Received(H, sender.nTransactions, sender.vHash, bytes);
    assert receiver.vBits == Padded(sender.vBits);
    RoundTrip(H, vTxid, vMatch);
    root, matched, indexes := receiver.ExtractMatches([]);
  }
}
