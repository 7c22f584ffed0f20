/** Block index entries with skip links, and the active chain (src/chain.h, src/chain.cpp). */
module Chain {
  import opened Numbers

  /** The number without its lowest one bit: n & (n - 1). */
  function InvertLowestOne(n: nat): (r: nat)
    ensures n > 0 ==> r < n
  {
    if n == 0 then 0 else if n % 2 == 1 then n - 1 else 2 * InvertLowestOne(n / 2)
  }

  /** Bit k is the lowest one bit of a number. */
  ghost predicate IsLowest(n: nat, k: nat) { n % Pow2(k) == 0 && n / Pow2(k) % 2 == 1 }

  lemma {:induction false} LowestOne(n: nat) returns (k: nat)
    requires n > 0
    ensures IsLowest(n, k) && InvertLowestOne(n) == n - Pow2(k)
  {
    if n % 2 == 1 {
      k := 0;
    } else {
      k := LowestOne(n / 2);
      LowestOfTwice(n / 2, k);
      Pow2Next(k);
      k := k + 1;
    }
  }

  lemma LowestOfTwice(n: nat, k: nat)
    requires IsLowest(n, k)
    ensures IsLowest(2 * n, k + 1)
  {
    hide Pow2;
    Pow2Next(k);
    DivModOf(n, Pow2(k));
    DivMod(2 * n, 2 * Pow2(k), n / Pow2(k), 0);
  }

  /** A skip link takes the lowest one bit off an even height, and the two lowest ones above the last off an odd one. */
  lemma SkipHeightIs(height: nat) returns (j: nat, k: nat)
    requires height >= 2
    ensures height % 2 == 0 ==> IsLowest(height, k) && GetSkipHeight(height) == height - Pow2(k)
    ensures height % 2 == 1 ==>
              && IsLowest(height - 1, j)
              && var rest := height - 1 - Pow2(j);
                 && (rest == 0 ==> GetSkipHeight(height) == 1)
                 && (rest > 0 ==> IsLowest(rest, k) && GetSkipHeight(height) == height - Pow2(j) - Pow2(k))
  {
    hide Pow2, IsLowest, InvertLowestOne;
    j, k := 0, 0;
    if height % 2 == 0 {
      k := LowestOne(height);
    } else {
      j := LowestOne(height - 1);
      var rest := InvertLowestOne(height - 1);
      if rest > 0 {
        k := LowestOne(rest);
      } else {
        NoneInverted();
      }
    }
  }

  lemma NoneInverted()
    ensures InvertLowestOne(0) == 0
  {
  }

  /** The height a skip link goes back to. */
  function GetSkipHeight(height: int): (r: nat)
    ensures height > 0 ==> r < height
  {
    if height < 2 then 0
    else if height % 2 == 1 then InvertLowestOne(InvertLowestOne(height - 1)) + 1
    else InvertLowestOne(height)
  }

  /** The entry is linked to its ancestors, one height at a time. */
  ghost predicate Linked(b: BlockIndex)
    decreases b.nHeight
  {
    if b.pprev == null then b.nHeight == 0 else b.nHeight == b.pprev.nHeight + 1 && Linked(b.pprev)
  }

  /** The ancestor at a height, by walking back one block at a time. */
  ghost function Ancestor(b: BlockIndex, h: nat): (r: BlockIndex)
    requires Linked(b) && h <= b.nHeight
    ensures Linked(r) && r.nHeight == h
    decreases b.nHeight
  {
    if h == b.nHeight then b else Ancestor(b.pprev, h)
  }

  /** All skip links were built by BuildSkip. */
  ghost predicate Built(b: BlockIndex)
    decreases b.nHeight
  {
    && Linked(b)
    && if b.pprev == null then b.pskip == null
       else Built(b.pprev) && b.pskip == Ancestor(b.pprev, GetSkipHeight(b.nHeight))
  }

  lemma {:induction false} AncestorOfAncestor(b: BlockIndex, h: nat, g: nat)
    requires Linked(b) && g <= h <= b.nHeight
    ensures Ancestor(Ancestor(b, h), g) == Ancestor(b, g)
    decreases b.nHeight
  {
    if h < b.nHeight {
      AncestorOfAncestor(b.pprev, h, g);
    }
  }

  /** Branches that meet are the same from there on. */
  lemma SameBelow(a: BlockIndex, b: BlockIndex, h: nat)
    requires Linked(a) && Linked(b) && h <= a.nHeight && h <= b.nHeight && Ancestor(a, h) == Ancestor(b, h)
    ensures forall g :: 0 <= g <= h ==> Ancestor(a, g) == Ancestor(b, g)
  {
    hide Linked, Ancestor;
    forall g | 0 <= g <= h ensures Ancestor(a, g) == Ancestor(b, g) {
      AncestorOfAncestor(a, h, g);
      AncestorOfAncestor(b, h, g);
    }
  }

  lemma {:induction false} AncestorsBuilt(b: BlockIndex, h: nat)
    requires Built(b) && h <= b.nHeight
    ensures Built(Ancestor(b, h))
    decreases b.nHeight
  {
    if h < b.nHeight {
      AncestorsBuilt(b.pprev, h);
    }
  }

  /** One step back along a branch. */
  lemma OneBack(b: BlockIndex, h: nat)
    requires Linked(b) && h <= b.nHeight
    ensures var r := Ancestor(b, h); if h == 0 then r.pprev == null else r.pprev == Ancestor(b, h - 1)
  {
    if h > 0 {
      AncestorOfAncestor(b, h, h - 1);
    }
  }

  class BlockIndex {
    const pprev: BlockIndex?
    const nHeight: nat
    const pskip: BlockIndex?

    /** A new entry on top of another one, or a genesis block. */
    constructor (pprev: BlockIndex?)
      requires pprev != null ==> Built(pprev)
      ensures Built(this) && this.pprev == pprev
    {
      this.pprev := pprev;
      if pprev == null {
        nHeight, pskip := 0, null;
      } else {
        var skip := pprev.GetAncestor(GetSkipHeight(pprev.nHeight + 1));
        nHeight, pskip := pprev.nHeight + 1, skip;
      }
    }

    /** Follows skip links where they help. */
    method GetAncestor(height: int) returns (r: BlockIndex?)
      requires Built(this)
      ensures r == null <==> height > nHeight || height < 0
      ensures r != null ==> r == Ancestor(this, height)
    {
      if height > nHeight || height < 0 {
        return null;
      }
      var walk: BlockIndex, heightWalk := this, nHeight;
      while heightWalk > height
        invariant Built(walk) && walk.nHeight == heightWalk && height <= heightWalk
        invariant Ancestor(walk, height) == Ancestor(this, height)
        decreases heightWalk
      {
        var heightSkip := GetSkipHeight(heightWalk);
        var heightSkipPrev := GetSkipHeight(heightWalk - 1);
        if walk.pskip != null &&
           (heightSkip == height ||
             (heightSkip > height && !(heightSkipPrev < heightSkip - 2 && heightSkipPrev >= height))) {
          AncestorOfAncestor(walk.pprev, heightSkip, height);
          AncestorsBuilt(walk.pprev, heightSkip);
          walk := walk.pskip;
          heightWalk := heightSkip;
        } else {
          walk := walk.pprev;
          heightWalk := heightWalk - 1;
        }
      }
      return walk;
    }
  }

  /** The branches meet at this block, and differ above it. */
  ghost predicate LastCommon(a: BlockIndex, b: BlockIndex, r: BlockIndex)
    requires Linked(a) && Linked(b)
  {
    && r.nHeight <= a.nHeight && r.nHeight <= b.nHeight
    && Ancestor(a, r.nHeight) == r == Ancestor(b, r.nHeight)
    && forall h :: r.nHeight < h <= a.nHeight && h <= b.nHeight ==> Ancestor(a, h) != Ancestor(b, h)
  }

  method LastCommonAncestor(a: BlockIndex, b: BlockIndex) returns (r: BlockIndex)
    requires Built(a) && Built(b) && Ancestor(a, 0) == Ancestor(b, 0)
    ensures Linked(a) && Linked(b) && LastCommon(a, b, r)
  {
    hide Built, Linked, Ancestor;
    BuiltIsLinked(a);
    BuiltIsLinked(b);
    OwnAncestor(a);
    OwnAncestor(b);
    var pa: BlockIndex?, pb: BlockIndex? := a, b;
    if a.nHeight > b.nHeight {
      pa := a.GetAncestor(b.nHeight);
    } else if b.nHeight > a.nHeight {
      pb := b.GetAncestor(a.nHeight);
    }
    while pa != pb && pa != null && pb != null
      invariant pa != null && pb != null && pa.nHeight == pb.nHeight <= a.nHeight
      invariant pb.nHeight <= b.nHeight && Ancestor(a, pa.nHeight) == pa && Ancestor(b, pb.nHeight) == pb
      invariant forall h :: pa.nHeight < h <= a.nHeight && h <= b.nHeight ==> Ancestor(a, h) != Ancestor(b, h)
      decreases pa.nHeight
    {
      OneBack(a, pa.nHeight);
      OneBack(b, pb.nHeight);
      pa, pb := pa.pprev, pb.pprev;
    }
    r := pa;
  }

  lemma BuiltIsLinked(b: BlockIndex)
    requires Built(b)
    ensures Linked(b)
  {
  }

  lemma OwnAncestor(b: BlockIndex)
    requires Linked(b)
    ensures Ancestor(b, b.nHeight) == b
  {
  }

  /** A chain that has been replaced down to a block: the new branch above, and what was there below. */
  ghost predicate Rewritten(chain: seq<BlockIndex?>, before: seq<BlockIndex?>, tip: BlockIndex, walk: BlockIndex?) {
    && Linked(tip) && |chain| == tip.nHeight + 1
    && forall h :: 0 <= h < |chain| ==>
         chain[h] == if walk == null || h > walk.nHeight then Ancestor(tip, h)
                     else if h < |before| then before[h] else null
  }

  lemma RewriteStart(chain: seq<BlockIndex?>, before: seq<BlockIndex?>, tip: BlockIndex)
    requires Linked(tip) && |chain| == tip.nHeight + 1
    requires forall h :: 0 <= h < |chain| ==> chain[h] == if h < |before| then before[h] else null
    ensures Rewritten(chain, before, tip, tip)
  {
    hide Linked, Ancestor;
  }

  lemma RewriteOn(chain: seq<BlockIndex?>, before: seq<BlockIndex?>, tip: BlockIndex, walk: BlockIndex)
    requires Rewritten(chain, before, tip, walk) && walk.nHeight < |chain| && walk == Ancestor(tip, walk.nHeight)
    requires walk.pprev == null ==> walk.nHeight == 0
    requires walk.pprev != null ==> walk.pprev.nHeight == walk.nHeight - 1
    ensures Rewritten(chain[walk.nHeight := walk], before, tip, walk.pprev)
  {
    hide Linked, Ancestor;
  }

  /** Where the old chain agrees, all of it does. */
  lemma RewriteEnd(chain: seq<BlockIndex?>, before: seq<BlockIndex?>, tip: BlockIndex, walk: BlockIndex?)
    requires Rewritten(chain, before, tip, walk)
    requires walk != null ==> walk.nHeight < |chain| && walk == Ancestor(tip, walk.nHeight) == chain[walk.nHeight]
    requires |before| > 0 ==>
               var last := before[|before| - 1];
               && last != null && Linked(last) && last.nHeight == |before| - 1
               && forall h :: 0 <= h < |before| ==> before[h] == Ancestor(last, h)
    ensures forall h :: 0 <= h < |chain| ==> chain[h] == Ancestor(tip, h)
  {
    hide Linked, Ancestor;
    if walk != null {
      SameBelow(before[|before| - 1], tip, walk.nHeight);
    }
  }

  class ActiveChain {
    var vChain: seq<BlockIndex?>

    /** The chain is the tip's ancestors in order of their heights. */
    ghost predicate Valid()
      reads this
    {
      |vChain| > 0 ==>
        var tip := vChain[|vChain| - 1];
        && tip != null && Built(tip) && Linked(tip) && tip.nHeight == |vChain| - 1
        && forall h :: 0 <= h < |vChain| ==> vChain[h] == Ancestor(tip, h)
    }

    constructor ()
      ensures Valid() && vChain == []
    {
      vChain := [];
    }

    function At(h: int): BlockIndex?
      reads this
    {
      if h < 0 || h >= |vChain| then null else vChain[h]
    }

    predicate Contains(b: BlockIndex)
      reads this
    {
      At(b.nHeight) == b
    }

    /** A block in the chain has its ancestors there. */
    lemma ContainsAncestors(b: BlockIndex, h: nat)
      requires Valid() && Built(b) && Contains(b) && h <= b.nHeight
      ensures At(h) == Ancestor(b, h)
    {
      AncestorOfAncestor(vChain[|vChain| - 1], b.nHeight, h);
    }

    /** Replaces the chain; stops early where the old one agrees. */
    method SetTip(pindex: BlockIndex?)
      requires Valid() && (pindex != null ==> Built(pindex))
      modifies this
      ensures Valid()
      ensures if pindex == null then vChain == []
              else |vChain| == pindex.nHeight + 1 && vChain[pindex.nHeight] == pindex
    {
      if pindex == null {
        vChain := [];
        return;
      }
      hide Built, Linked, Ancestor, Rewritten;
      BuiltIsLinked(pindex);
      OwnAncestor(pindex);
      ghost var before := vChain;
      var size := pindex.nHeight + 1;
      vChain := if size <= |vChain| then vChain[..size] else vChain + seq(size - |vChain|, _ => null);
      RewriteStart(vChain, before, pindex);
      var walk: BlockIndex? := pindex;
      while walk != null && vChain[walk.nHeight] != walk
        invariant |vChain| == size && Rewritten(vChain, before, pindex, walk)
        invariant walk != null ==> walk.nHeight < size && walk == Ancestor(pindex, walk.nHeight)
        decreases if walk == null then 0 else walk.nHeight + 1
      {
        OneBack(pindex, walk.nHeight);
        RewriteOn(vChain, before, pindex, walk);
        vChain := vChain[walk.nHeight := walk];
        walk := walk.pprev;
      }
      RewriteEnd(vChain, before, pindex, walk);
    }

    /** The last block a branch has in common with the chain. */
    method FindFork(pindex: BlockIndex?) returns (r: BlockIndex?)
      requires Valid() && (pindex != null ==> Built(pindex))
      ensures pindex == null || |vChain| == 0 ==> r == null
      ensures pindex != null && |vChain| > 0 && r != null ==> LastCommon(pindex, vChain[|vChain| - 1], r)
      ensures pindex != null && r == null ==>
                |vChain| == 0 || Ancestor(pindex, 0) != vChain[0]
    {
      if pindex == null {
        return null;
      }
      hide Built, Linked, Ancestor;
      BuiltIsLinked(pindex);
      OwnAncestor(pindex);
      r := pindex;
      if pindex.nHeight > |vChain| - 1 {
        r := pindex.GetAncestor(|vChain| - 1);
      }
      while r != null && !Contains(r)
        invariant r != null ==> r.nHeight <= pindex.nHeight && r.nHeight < |vChain| && Ancestor(pindex, r.nHeight) == r
        invariant forall h :: (if r == null then -1 else r.nHeight) < h <= pindex.nHeight && h < |vChain| ==>
                    Ancestor(pindex, h) != vChain[h]
        decreases if r == null then 0 else r.nHeight + 1
      {
        OneBack(pindex, r.nHeight);
        r := r.pprev;
      }
    }

    /**
     Blocks by which a peer can find the fork: a branch's latest ones, then ever farther apart,
     down to the genesis block.
     */
    method GetLocator(pindex: BlockIndex?) returns (vHave: seq<BlockIndex>)
      requires Valid() && (pindex != null ==> Built(pindex))
      ensures pindex == null && |vChain| == 0 ==> vHave == []
      ensures pindex != null ==> IsLocator(pindex, vHave)
      ensures pindex == null && |vChain| > 0 ==> IsLocator(vChain[|vChain| - 1], vHave)
    {
      hide Built, Linked, Ancestor, Back, Descends;
      NoneDescends();
      vHave := [];
      var walk := if pindex == null then At(|vChain| - 1) else pindex;
      if walk == null {
        return;
      }
      ghost var start: BlockIndex := walk;
      ghost var n := start.nHeight;
      BuiltIsLinked(start);
      OwnAncestor(start);
      var nStep := 1;
      BackStep(0);
      while walk != null
        invariant walk != null && nStep == Back(|vHave| + 1) - Back(|vHave|) && Back(|vHave|) >= 0
        invariant walk.nHeight == Clip(n - Back(|vHave|)) && walk == Ancestor(start, walk.nHeight)
        invariant forall i :: 0 <= i < |vHave| ==> 0 < n - Back(i) && vHave[i] == Ancestor(start, n - Back(i))
        invariant Descends(vHave) && (|vHave| > 0 ==> vHave[|vHave| - 1].nHeight > walk.nHeight)
        decreases walk.nHeight
      {
        DescendsOn(vHave, walk);
        vHave := vHave + [walk];
        if walk.nHeight == 0 {
          break;
        }
        BackStep(|vHave| - 1);
        BackStep(|vHave|);
        var nHeight := if walk.nHeight - nStep > 0 then walk.nHeight - nStep else 0;
        AncestorOfAncestor(start, walk.nHeight, nHeight);
        AncestorsBuilt(start, walk.nHeight);
        if Contains(walk) {
          ContainsAncestors(walk, nHeight);
          walk := At(nHeight);
        } else {
          walk := walk.GetAncestor(nHeight);
        }
        if |vHave| > 10 {
          nStep := nStep * 2;
        }
      }
      LocatorLength(n, |vHave|);
    }
  }

  // Locators

  function Log2(n: nat): nat { if n < 2 then 0 else 1 + Log2(n / 2) }

  lemma {:induction false} Log2Of(n: nat, k: nat)
    requires Pow2(k) <= n
    ensures k <= Log2(n)
  {
    if k > 0 {
      Log2Of(n / 2, k - 1);
    }
  }

  function Clip(h: int): nat { if h > 0 then h else 0 }

  /** How far below the start the entry with a number is. */
  function Back(i: nat): nat { if i < 10 then i else 9 + Pow2(i - 10) }

  lemma BackStep(i: nat)
    ensures Back(i + 1) > Back(i) >= i && Back(0) == 0 && Back(1) == 1
    ensures Back(i + 2) - Back(i + 1) == if i < 10 then 1 else 2 * (Back(i + 1) - Back(i))
    ensures i < 10 ==> Back(i + 1) - Back(i) == 1
  {
    if i >= 10 {
      PowExceeds(i - 10);
    } else {
      assert Pow2(0) == 1 && Pow2(1) == 2;
    }
  }

  lemma {:induction false} PowExceeds(n: nat)
    ensures Pow2(n) > n
  {
    if n > 0 {
      PowExceeds(n - 1);
    }
  }

  lemma LocatorLength(n: nat, len: nat)
    requires len >= 2 ==> Back(len - 2) < n
    ensures len <= 12 + Log2(n + 1)
  {
    if len > 12 {
      Log2Of(n + 1, len - 12);
    }
  }

  /** Every entry is higher than the next one, so that none is listed twice. */
  ghost predicate Descends(have: seq<BlockIndex>) {
    forall i :: 0 <= i < |have| - 1 ==> have[i].nHeight > have[i + 1].nHeight
  }

  lemma NoneDescends()
    ensures Descends([])
  {
  }

  lemma DescendsOn(have: seq<BlockIndex>, b: BlockIndex)
    requires Descends(have) && (|have| > 0 ==> have[|have| - 1].nHeight > b.nHeight)
    ensures Descends(have + [b])
  {
  }

  /** The entries are the ancestors at distances that double after the first ten, and few. */
  ghost predicate IsLocator(start: BlockIndex, have: seq<BlockIndex>) {
    && Linked(start) && |have| > 0 && have[0] == start && have[|have| - 1].nHeight == 0
    && |have| <= 12 + Log2(start.nHeight + 1) && Descends(have)
    && forall i :: 0 <= i < |have| ==> have[i] == Ancestor(start, Clip(start.nHeight - Back(i)))
  }
}
