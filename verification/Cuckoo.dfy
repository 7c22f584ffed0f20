/** The cuckoo cache (src/cuckoocache.h): a lossy set with eight places for each element. */
module Cuckoo {
  import opened Numbers

  // Bit-packed flags

  function Mask(j: nat): bv8
    requires j < 8
  {
    [1, 2, 4, 8, 16, 32, 64, 128][j]
  }

  predicate Bit(byte: bv8, j: nat)
    requires j < 8
  {
    byte & Mask(j) != 0
  }

  lemma SetBit(byte: bv8, j: nat, k: nat)
    requires j < 8 && k < 8
    ensures Bit(byte | Mask(j), k) == (k == j || Bit(byte, k))
  {
  }

  lemma UnsetBit(byte: bv8, j: nat, k: nat)
    requires j < 8 && k < 8
    ensures Bit(byte & !Mask(j), k) == (k != j && Bit(byte, k))
  {
  }

  lemma AllBits(k: nat)
    requires k < 8
    ensures Bit(0xFF, k)
  {
  }

  class BitFlags {
    const mem: array<bv8>

    ghost function Bits(): (bits: seq<bool>)
      reads this, mem
      ensures |bits| == 8 * mem.Length
      ensures forall s :: 0 <= s < |bits| ==> bits[s] == Bit(mem[s / 8], s % 8)
    {
      seq(8 * mem.Length, s requires 0 <= s < 8 * mem.Length reads this, mem => Bit(mem[s / 8], s % 8))
    }

    constructor (size: nat)
      ensures size <= |Bits()| && fresh(mem)
      ensures forall s :: 0 <= s < |Bits()| ==> Bits()[s]
    {
      mem := new bv8[(size + 7) / 8](_ => 0xFF);
      new;
      forall s | 0 <= s < 8 * mem.Length ensures Bit(mem[s / 8], s % 8) { AllBits(s % 8); }
    }

    method Set(s: nat)
      requires s < |Bits()|
      modifies mem
      ensures Bits() == old(Bits())[s := true]
    {
      hide Bit, Mask;
      forall k: nat | k < 8 ensures Bit(mem[s / 8] | Mask(s % 8), k) == (k == s % 8 || Bit(mem[s / 8], k)) {
        SetBit(mem[s / 8], s % 8, k);
      }
      mem[s / 8] := mem[s / 8] | Mask(s % 8);
    }

    method Unset(s: nat)
      requires s < |Bits()|
      modifies mem
      ensures Bits() == old(Bits())[s := false]
    {
      hide Bit, Mask;
      forall k: nat | k < 8 ensures Bit(mem[s / 8] & !Mask(s % 8), k) == (k != s % 8 && Bit(mem[s / 8], k)) {
        UnsetBit(mem[s / 8], s % 8, k);
      }
      mem[s / 8] := mem[s / 8] & !Mask(s % 8);
    }

    method IsSet(s: nat) returns (r: bool)
      requires s < |Bits()|
      ensures r == Bits()[s]
    {
      r := Bit(mem[s / 8], s % 8);
    }
  }

  // Counting the live entries of the current epoch

  function One(b: bool): nat { if b then 1 else 0 }

  function LiveCount(epochs: seq<bool>, collected: seq<bool>): nat
    requires |epochs| == |collected|
  {
    if epochs == [] then 0
    else
      var n := |epochs| - 1;
      LiveCount(epochs[..n], collected[..n]) + One(epochs[n] && !collected[n])
  }

  lemma {:induction false} LiveUpdate(epochs: seq<bool>, collected: seq<bool>, i: nat, e: bool, c: bool)
    requires |epochs| == |collected| && i < |epochs|
    ensures LiveCount(epochs[i := e], collected[i := c]) ==
            LiveCount(epochs, collected) - One(epochs[i] && !collected[i]) + One(e && !c)
  {
    var n := |epochs| - 1;
    if i < n {
      LiveUpdate(epochs[..n], collected[..n], i, e, c);
      assert epochs[i := e][..n] == epochs[..n][i := e] && collected[i := c][..n] == collected[..n][i := c];
    } else {
      assert epochs[i := e][..n] == epochs[..n] && collected[i := c][..n] == collected[..n];
    }
  }

  lemma {:induction false} NoneLive(epochs: seq<bool>, collected: seq<bool>)
    requires |epochs| == |collected| && forall i :: 0 <= i < |epochs| ==> !epochs[i] || collected[i]
    ensures LiveCount(epochs, collected) == 0
  {
    if epochs != [] {
      var n := |epochs| - 1;
      NoneLive(epochs[..n], collected[..n]);
    }
  }

  /** How far the current epoch may outgrow its size. */
  function Bound(epochSize: nat): nat { epochSize + Max(1, epochSize / 16) }

  // The cache

  type Hash<!E> = (nat, E) -> nat

  /** What a cache is set up with; blank is what the table holds before anything is written. */
  datatype Config<!E> = Config(hash: Hash<E>, blank: E, size: nat, epochSize: nat, depthLimit: nat) {

    ghost predicate Valid() { size > 0 && epochSize > 0 && depthLimit > 0 }

    /** The eight places of an element. */
    function Locs(e: E): (locs: seq<nat>)
      requires size > 0
      ensures |locs| == 8 && forall k :: 0 <= k < 8 ==> locs[k] < size
    {
      seq(8, k requires 0 <= k < 8 => hash(k, e) % size)
    }
  }

  /** An element is in one of its own places, or is a blank that was never written. */
  ghost predicate InPlace<E>(c: Config<E>, e: E, i: nat, isCollected: bool)
    requires c.size > 0
  {
    i in c.Locs(e) || (e == c.blank && isCollected)
  }

  ghost predicate AllInPlace<E>(c: Config<E>, table: seq<E>, collected: seq<bool>)
    requires c.size > 0 && |table| == |collected|
  {
    forall i :: 0 <= i < |table| ==> InPlace(c, table[i], i, collected[i])
  }

  ghost predicate NoneTwice<E(!new)>(blank: E, table: seq<E>) {
    forall x :: x != blank ==> multiset(table)[x] <= 1
  }

  /** Is the element in one of its places? */
  ghost predicate Has<E>(c: Config<E>, table: seq<E>, e: E)
    requires |table| == c.size > 0
  {
    exists k :: 0 <= k < 8 && table[c.Locs(e)[k]] == e
  }

  /** For anything but blanks, looking in the eight places is looking in the whole table. */
  lemma HasIsMember<E>(c: Config<E>, table: seq<E>, collected: seq<bool>, e: E)
    requires |table| == |collected| == c.size > 0 && AllInPlace(c, table, collected) && e != c.blank
    ensures Has(c, table, e) <==> e in table
  {
    if e in table {
      var i :| 0 <= i < |table| && table[i] == e;
      assert InPlace(c, table[i], i, collected[i]);
      var k :| 0 <= k < 8 && c.Locs(e)[k] == i;
    }
  }

  lemma MultisetUpdate<E>(s: seq<E>, i: nat, x: E)
    requires i < |s|
    ensures multiset(s[i := x]) + multiset{s[i]} == multiset(s) + multiset{x}
  {
    assert s == s[..i] + [s[i]] + s[i + 1..];
    assert s[i := x] == s[..i] + [x] + s[i + 1..];
  }

  /** What an insertion did: found the element, or took it in and let one element go. */
  datatype Result<E> = Present | Stored(lost: E, place: nat) | Dropped(lost: E)

  /** An element is in hand, for which another one has left the table; the rest is as it was. */
  ghost predicate Carrying<E>(c: Config<E>, before: seq<E>, e: E, table: seq<E>, x: E, collected: seq<bool>)
    requires c.size > 0
  {
    && |before| == |table| == |collected| == c.size
    && multiset(table) + multiset{x} == multiset(before) + multiset{e}
    && AllInPlace(c, table, collected)
    && forall i :: 0 <= i < c.size && collected[i] ==> table[i] == before[i]
  }

  lemma StartCarrying<E>(c: Config<E>, table: seq<E>, e: E, collected: seq<bool>)
    requires |table| == |collected| == c.size > 0 && AllInPlace(c, table, collected)
    ensures Carrying(c, table, e, table, e, collected)
  {
  }

  lemma EndCarrying<E>(c: Config<E>, before: seq<E>, e: E, table: seq<E>, x: E, collected: seq<bool>)
    requires c.size > 0 && Carrying(c, before, e, table, x, collected)
    ensures AllInPlace(c, table, collected) && multiset(table) + multiset{x} == multiset(before) + multiset{e}
  {
  }

  lemma Kept<E>(c: Config<E>, table: seq<E>, collected: seq<bool>, loc: nat)
    requires |table| == |collected| == c.size > 0 && AllInPlace(c, table, collected) && loc < c.size &&
               loc in c.Locs(table[loc])
    ensures AllInPlace(c, table, collected[loc := false])
  {
  }

  lemma Absent<E>(c: Config<E>, table: seq<E>, collected: seq<bool>, e: E)
    requires |table| == |collected| == c.size > 0 && AllInPlace(c, table, collected) && !Has(c, table, e)
    ensures e != c.blank ==> multiset(table)[e] == 0
  {
    if e != c.blank {
      HasIsMember(c, table, collected, e);
    }
  }

  /** Swapping the element in hand with one that must be kept. */
  lemma Swap<E>(c: Config<E>, before: seq<E>, e: E, table: seq<E>, x: E, collected: seq<bool>, loc: nat)
    requires c.size > 0 && Carrying(c, before, e, table, x, collected) && loc in c.Locs(x) && loc < c.size &&
               !collected[loc]
    ensures Carrying(c, before, e, table[loc := x], table[loc], collected)
  {
    MultisetUpdate(table, loc, x);
  }

  /** Putting it into a place that is free. */
  lemma Put<E>(c: Config<E>, before: seq<E>, e: E, table: seq<E>, x: E, collected: seq<bool>, loc: nat)
    requires c.size > 0 && Carrying(c, before, e, table, x, collected) && loc in c.Locs(x) && loc < c.size &&
               collected[loc]
    ensures AllInPlace(c, table[loc := x], collected[loc := false])
    ensures multiset(table[loc := x]) + multiset{before[loc]} == multiset(before) + multiset{e}
  {
    MultisetUpdate(table, loc, x);
    assert before[loc] == table[loc];
    var t := table[loc := x];
    assert multiset(t) + multiset{table[loc]} == multiset(table) + multiset{x};
  }

  /** One element came, one went: what that means for membership. */
  lemma OneForOne<E(!new)>(blank: E, before: seq<E>, e: E, table: seq<E>, lost: E)
    requires NoneTwice(blank, before) && (e != blank ==> multiset(before)[e] == 0)
    requires multiset(table) + multiset{lost} == multiset(before) + multiset{e}
    ensures NoneTwice(blank, table)
    ensures forall x :: x != blank ==> (x in table <==> (x in before || x == e) && x != lost)
  {
    forall x
      ensures multiset(table)[x] + multiset{lost}[x] == multiset(before)[x] + multiset{e}[x]
      ensures x in table <==> multiset(table)[x] > 0
      ensures x in before <==> multiset(before)[x] > 0
    {
      assert (multiset(table) + multiset{lost})[x] == (multiset(before) + multiset{e})[x];
    }
  }

  // Displacements

  /** An element has been put into a place that had to be kept. */
  datatype Move<E> = Move(x: E, place: nat)

  /** The table after some displacements. */
  ghost function After<E>(before: seq<E>, moves: seq<Move<E>>): (table: seq<E>)
    ensures |table| == |before|
  {
    if moves == [] then before else
      var n := |moves| - 1;
      var table := After(before, moves[..n]);
      if moves[n].place < |table| then table[moves[n].place := moves[n].x] else table
  }

  /** The epochs after some displacements, each of which leaves the epoch in hand. */
  ghost function AfterEpochs<E>(before: seq<bool>, moves: seq<Move<E>>): (epochs: seq<bool>)
    ensures |epochs| == |before|
    decreases |moves|, 0
  {
    if moves == [] then before else
      var n := |moves| - 1;
      var epochs := AfterEpochs(before, moves[..n]);
      if moves[n].place < |epochs| then epochs[moves[n].place := EpochInHand(before, moves[..n])] else epochs
  }

  /** The current one at first, and then that of the element brought out last. */
  ghost function EpochInHand<E>(before: seq<bool>, moves: seq<Move<E>>): bool
    decreases |moves|, 1
  {
    if moves == [] then true else
      var n := |moves| - 1;
      moves[n].place < |before| && AfterEpochs(before, moves[..n])[moves[n].place]
  }

  lemma EpochsStart<E>(before: seq<bool>, moves: seq<Move<E>>)
    requires moves == []
    ensures AfterEpochs(before, moves) == before && EpochInHand(before, moves)
  {
  }

  lemma EpochsOn<E>(before: seq<bool>, moves: seq<Move<E>>, m: Move<E>)
    requires m.place < |before|
    ensures AfterEpochs(before, moves + [m]) == AfterEpochs(before, moves)[m.place := EpochInHand(before, moves)]
    ensures EpochInHand(before, moves + [m]) == AfterEpochs(before, moves)[m.place]
  {
    assert (moves + [m])[..|moves|] == moves;
  }

  ghost function Entries<E>(table: seq<E>, epochs: seq<bool>): (entries: seq<(E, bool)>)
    requires |table| == |epochs|
  {
    seq(|table|, i requires 0 <= i < |table| => (table[i], epochs[i]))
  }

  /** A displaced element takes its epoch along, and the one inserted is of the current epoch. */
  lemma {:induction false} EpochsFollow<E>(c: Config<E>, before: seq<E>, epochs: seq<bool>, collected: seq<bool>, e: E,
                                           moves: seq<Move<E>>, x: E)
    requires |before| == |epochs| == |collected| == c.size > 0 && Trail(c, before, collected, e, moves, x)
    ensures multiset(Entries(After(before, moves), AfterEpochs(epochs, moves))) +
            multiset{(x, EpochInHand(epochs, moves))} ==
            multiset(Entries(before, epochs)) + multiset{(e, true)}
    decreases |moves|
  {
    hide NoneFree, Config.Locs;
    if moves != [] {
      var n := |moves| - 1;
      var m, rest := moves[n], moves[..n];
      var table, flags, flag := After(before, rest), AfterEpochs(epochs, rest), EpochInHand(epochs, rest);
      EpochsFollow(c, before, epochs, collected, e, rest, m.x);
      MultisetUpdate(Entries(table, flags), m.place, (m.x, flag));
      assert Entries(table[m.place := m.x], flags[m.place := flag]) == Entries(table, flags)[m.place := (m.x, flag)];
    }
  }

  ghost predicate NoneFree<E>(c: Config<E>, collected: seq<bool>, x: E)
    requires |collected| == c.size > 0
  {
    forall k :: 0 <= k < 8 ==> !collected[c.Locs(x)[k]]
  }

  ghost predicate IsFirstFree<E>(c: Config<E>, collected: seq<bool>, x: E, place: nat)
    requires |collected| == c.size > 0
  {
    exists k :: 0 <= k < 8 && place == c.Locs(x)[k] && collected[place] && forall j :: 0 <= j < k ==>
      !collected[c.Locs(x)[j]]
  }

  /** The place after the one last looked at, in turn; the second one at first. */
  function NextPlace<E>(c: Config<E>, x: E, last: int): (place: nat)
    requires c.size > 0
    ensures place in c.Locs(x) && place < c.size
  {
    c.Locs(x)[(1 + IndexOf(c.Locs(x), last)) % 8]
  }

  ghost function LastPlace<E>(moves: seq<Move<E>>): int { if moves == [] then -1 else moves[|moves| - 1].place }

  /**
   The displacements that lead from an element to the one in hand: each was of an element without
   any free place, went to its next place, and brought out what was there at the time.
   */
  ghost predicate Trail<E>(c: Config<E>, before: seq<E>, collected: seq<bool>, e: E, moves: seq<Move<E>>, x: E)
    requires |before| == |collected| == c.size > 0
  {
    if moves == [] then x == e else
      var n := |moves| - 1;
      && NoneFree(c, collected, moves[n].x)
      && moves[n].place == NextPlace(c, moves[n].x, LastPlace(moves[..n]))
      && x == After(before, moves[..n])[moves[n].place]
      && Trail(c, before, collected, e, moves[..n], moves[n].x)
  }

  lemma TrailStart<E>(c: Config<E>, before: seq<E>, collected: seq<bool>, e: E)
    requires |before| == |collected| == c.size > 0
    ensures Trail(c, before, collected, e, [], e) && After(before, []) == before
  {
  }

  /** One displacement more. */
  lemma TrailOn<E>(c: Config<E>, before: seq<E>, collected: seq<bool>, e: E, moves: seq<Move<E>>, x: E)
    requires |before| == |collected| == c.size > 0 && Trail(c, before, collected, e, moves, x) &&
               NoneFree(c, collected, x)
    ensures var m := Move(x, NextPlace(c, x, LastPlace(moves)));
            && Trail(c, before, collected, e, moves + [m], After(before, moves)[m.place])
            && After(before, moves + [m]) == After(before, moves)[m.place := x]
  {
    var m := Move(x, NextPlace(c, x, LastPlace(moves)));
    assert (moves + [m])[..|moves|] == moves;
  }

  /** An element with a free place is never dropped. */
  lemma {:induction false} TrailStuck<E>(c: Config<E>, before: seq<E>, collected: seq<bool>, e: E,
                                         moves: seq<Move<E>>, x: E)
    requires |before| == |collected| == c.size > 0 && Trail(c, before, collected, e, moves, x) && moves != []
    ensures NoneFree(c, collected, e) && moves[0].x == e
    decreases |moves|
  {
    if |moves| > 1 {
      TrailStuck(c, before, collected, e, moves[..|moves| - 1], moves[|moves| - 1].x);
    }
  }

  /** How an insertion ended: after fewer displacements than allowed in a free place, or else with a loss. */
  ghost predicate Outcome<E>(c: Config<E>, before: seq<E>, free: seq<bool>, epochs: seq<bool>, e: E, r: Result<E>,
                             moves: seq<Move<E>>, table: seq<E>, collected: seq<bool>, epochFlags: seq<bool>)
    requires |before| == |free| == |epochs| == |table| == c.size > 0
  {
    match r
    case Present => false
    case Stored(lost, place) =>
      && |moves| < c.depthLimit && place < c.size && lost == before[place]
      && table == After(before, moves)[place := table[place]] && collected == free[place := false]
      && Trail(c, before, free, e, moves, table[place]) && IsFirstFree(c, free, table[place], place)
      && epochFlags == AfterEpochs(epochs, moves)[place := EpochInHand(epochs, moves)]
    case Dropped(lost) =>
      && |moves| == c.depthLimit && Trail(c, before, free, e, moves, lost)
      && table == After(before, moves) && collected == free && epochFlags == AfterEpochs(epochs, moves)
  }

  /** The counter has run out, and the current epoch has its size. */
  ghost predicate IsOver(epochs: seq<bool>, collected: seq<bool>, counter: nat, epochSize: nat)
    requires |epochs| == |collected|
  {
    counter == 0 && LiveCount(epochs, collected) >= epochSize
  }

  /** What may be overwritten after the epochs have been checked. */
  ghost function AfterCheck(epochs: seq<bool>, collected: seq<bool>, counter: nat, epochSize: nat): seq<bool>
    requires |epochs| == |collected|
  {
    if IsOver(epochs, collected, counter, epochSize) then
      seq(|collected|, i requires 0 <= i < |collected| => collected[i] || !epochs[i])
    else collected
  }

  /** A new epoch has no elements yet. */
  ghost function EpochsAfterCheck(epochs: seq<bool>, collected: seq<bool>, counter: nat, epochSize: nat)
    : (after: seq<bool>)
    requires |epochs| == |collected|
    ensures |after| == |epochs|
  {
    if IsOver(epochs, collected, counter, epochSize) then seq(|epochs|, _ => false) else epochs
  }

  /** How many insertions there are until the next count. */
  ghost function CounterAfterCheck(epochs: seq<bool>, collected: seq<bool>, counter: nat, epochSize: nat): nat
    requires |epochs| == |collected|
  {
    if counter > 0 then counter - 1
    else if IsOver(epochs, collected, counter, epochSize) then epochSize
    else Max(1, Max(epochSize / 16, epochSize - LiveCount(epochs, collected)))
  }

  class Cache<E(==, !new)> {
    const c: Config<E>
    const collectionFlags: BitFlags
    var table: seq<E>
    var epochFlags: seq<bool>
    var counter: nat

    ghost predicate Shape()
      reads this, collectionFlags, collectionFlags.mem
    {
      c.Valid() && |table| == |epochFlags| == c.size <= |collectionFlags.Bits()|
    }

    /** The places whose content may be overwritten. */
    ghost function Collected(): (r: seq<bool>)
      requires c.size <= |collectionFlags.Bits()|
      reads this, collectionFlags, collectionFlags.mem
    {
      collectionFlags.Bits()[..c.size]
    }

    ghost predicate Valid()
      reads this, collectionFlags, collectionFlags.mem
    {
      && Shape() && AllInPlace(c, table, Collected()) && NoneTwice(c.blank, table)
      && LiveCount(epochFlags, Collected()) + counter <= Bound(c.epochSize)
    }

    constructor (hash: Hash<E>, blank: E, depth: nat)
      requires depth > 0
      ensures Valid() && fresh(collectionFlags) && fresh(collectionFlags.mem)
      ensures forall x :: x in table ==> x == blank
      ensures forall i :: 0 <= i < c.size ==> Collected()[i] && !epochFlags[i]
      ensures c.hash == hash && c.blank == blank && c.size == Pow2(depth) && c.depthLimit == depth
      ensures counter == c.epochSize == Max(1, 45 * c.size % 0x1_0000_0000 / 100)
    {
      var size := Pow2(depth);
      var epochSize := Max(1, 45 * size % 0x1_0000_0000 / 100);
      c := Config(hash, blank, size, epochSize, depth);
      table := seq(size, _ => blank);
      epochFlags := seq(size, _ => false);
      collectionFlags := new BitFlags(size);
      counter := epochSize;
      new;
      NoneLive(epochFlags, Collected());
      forall x | x != blank ensures multiset(table)[x] == 0 { assert x !in table; }
    }

    method AllowErase(n: nat)
      requires Shape() && n < c.size
      modifies collectionFlags.mem
      ensures Shape() && Collected() == old(Collected())[n := true]
    {
      collectionFlags.Set(n);
    }

    method PleaseKeep(n: nat)
      requires Shape() && n < c.size
      modifies collectionFlags.mem
      ensures Shape() && Collected() == old(Collected())[n := false]
    {
      collectionFlags.Unset(n);
    }

    /** Looks for a place of the element that holds it. */
    method Find(e: E) returns (found: bool, loc: nat)
      requires Shape()
      ensures found == Has(c, table, e)
      ensures found ==> loc in c.Locs(e) && loc < c.size && table[loc] == e
    {
      var locs := c.Locs(e);
      for k := 0 to 8
        invariant forall j :: 0 <= j < k ==> table[locs[j]] != e
      {
        if table[locs[k]] == e {
          return true, locs[k];
        }
      }
      return false, 0;
    }

    method Contains(e: E, erase: bool) returns (found: bool)
      requires Valid()
      modifies collectionFlags.mem
      ensures Valid() && found == Has(c, table, e)
      ensures !erase || !found ==> Collected() == old(Collected())
      ensures erase && found ==>
                exists loc: nat :: loc < c.size && table[loc] == e && Collected() == old(Collected())[loc := true]
    {
      hide BitFlags.Bits, LiveCount, NoneTwice;
      var loc;
      found, loc := Find(e);
      if found && erase {
        LiveUpdate(epochFlags, Collected(), loc, epochFlags[loc], true);
        assert epochFlags[loc := epochFlags[loc]] == epochFlags;
        AllowErase(loc);
      }
    }

    /** Counts the live entries of the current epoch. */
    method CountUnused() returns (count: nat)
      requires Shape()
      ensures count == LiveCount(epochFlags, Collected())
    {
      hide BitFlags.Bits;
      count := 0;
      for i := 0 to c.size
        invariant count == LiveCount(epochFlags[..i], Collected()[..i])
      {
        assert epochFlags[..i + 1][..i] == epochFlags[..i] && Collected()[..i + 1][..i] == Collected()[..i];
        var isSet := collectionFlags.IsSet(i);
        count := count + One(epochFlags[i] && !isSet);
      }
      assert epochFlags[..c.size] == epochFlags && Collected()[..c.size] == Collected();
    }

    /** Starts a new epoch: the old one may be erased, the current one becomes the old one. */
    method Age()
      requires Shape()
      modifies this`epochFlags, collectionFlags.mem
      ensures Shape() && (forall i :: 0 <= i < c.size ==> !epochFlags[i])
      ensures forall i :: 0 <= i < c.size ==> Collected()[i] == (old(Collected())[i] || !old(epochFlags)[i])
    {
      hide BitFlags.Bits;
      for n := 0 to c.size
        invariant Shape()
        invariant forall i :: 0 <= i < n ==> !epochFlags[i]
        invariant forall i :: 0 <= i < n ==> Collected()[i] == (old(Collected())[i] || !old(epochFlags)[i])
        invariant forall i :: n <= i < c.size ==>
                    epochFlags[i] == old(epochFlags)[i] && Collected()[i] == old(Collected())[i]
      {
        if epochFlags[n] {
          epochFlags := epochFlags[n := false];
        } else {
          AllowErase(n);
        }
      }
    }

    /** Makes room for one more entry of the current epoch. */
    method EpochCheck()
      requires Valid()
      modifies this`epochFlags, this`counter, collectionFlags.mem
      ensures Shape() && AllInPlace(c, table, Collected())
      ensures LiveCount(epochFlags, Collected()) + 1 + counter <= Bound(c.epochSize)
      ensures Collected() == old(AfterCheck(epochFlags, Collected(), counter, c.epochSize))
      ensures epochFlags == old(EpochsAfterCheck(epochFlags, Collected(), counter, c.epochSize))
      ensures counter == old(CounterAfterCheck(epochFlags, Collected(), counter, c.epochSize))
      ensures var over := old(counter == 0 && LiveCount(epochFlags, Collected()) >= c.epochSize);
              && (forall i :: 0 <= i < c.size ==>
                    && (Collected()[i] <==> old(Collected()[i]) || (over && !old(epochFlags[i])))
                    && (epochFlags[i] <==> !over && old(epochFlags[i])))
              && (old(counter) > 0 ==> counter == old(counter) - 1)
              && (over ==> counter == c.epochSize)
              && (old(counter) == 0 && !over ==>
                    && counter >= 1 && counter >= c.epochSize / 16
                    && counter >= c.epochSize - old(LiveCount(epochFlags, Collected()))
                    && (counter == 1 || counter == c.epochSize / 16 ||
                        counter == c.epochSize - old(LiveCount(epochFlags, Collected()))))
    {
      hide BitFlags.Bits, NoneTwice;
      if counter != 0 {
        counter := counter - 1;
        return;
      }
      var unused := CountUnused();
      if unused >= c.epochSize {
        Age();
        NoneLive(epochFlags, Collected());
        counter := c.epochSize;
      } else {
        counter := Max(1, Max(c.epochSize / 16, c.epochSize - unused));
      }
    }

    /** A place of the element that may be overwritten. */
    method FindFree(e: E) returns (found: bool, loc: nat)
      requires Shape()
      ensures found ==> loc in c.Locs(e) && loc < c.size && Collected()[loc] && IsFirstFree(c, Collected(), e, loc)
      ensures !found ==> NoneFree(c, Collected(), e)
    {
      var locs := c.Locs(e);
      for k := 0 to 8
        invariant forall j :: 0 <= j < k ==> !Collected()[locs[j]]
      {
        var isSet := collectionFlags.IsSet(locs[k]);
        if isSet {
          return true, locs[k];
        }
      }
      return false, 0;
    }

    /** The place after the one last looked at, among those of the element. */
    method NextLoc(e: E, lastLoc: int) returns (loc: nat)
      requires Shape()
      ensures loc in c.Locs(e) && loc < c.size && loc == NextPlace(c, e, lastLoc)
    {
      var locs := c.Locs(e);
      var j := 0;
      while j < 8 && locs[j] != lastLoc
        invariant 0 <= j <= 8 && IndexOf(locs, lastLoc) == j + IndexOf(locs[j..], lastLoc)
      {
        j := j + 1;
      }
      loc := locs[(1 + j) % 8];
    }

    /** Puts an element into a free place. */
    method Fill(x: E, place: nat, epoch: bool)
      requires Shape() && place < c.size && Collected()[place]
      modifies this`table, this`epochFlags, collectionFlags.mem
      ensures Shape() && table == old(table)[place := x] && Collected() == old(Collected())[place := false]
      ensures epochFlags == old(epochFlags)[place := epoch]
      ensures LiveCount(epochFlags, Collected()) == old(LiveCount(epochFlags, Collected())) + One(epoch)
    {
      hide BitFlags.Bits, LiveCount;
      LiveUpdate(epochFlags, Collected(), place, epoch, false);
      table := table[place := x];
      PleaseKeep(place);
      epochFlags := epochFlags[place := epoch];
    }

    /**
     An element that is present stays. Another one goes to the first of its free places, or it
     displaces an element, for which the same is tried, until the depth limit is reached.
     */
    method Insert(e: E) returns (ghost r: Result<E>, ghost moves: seq<Move<E>>)
      requires Valid()
      modifies this, collectionFlags.mem
      ensures Valid()
      ensures r.Present? <==> old(Has(c, table, e))
      ensures counter == old(CounterAfterCheck(epochFlags, Collected(), counter, c.epochSize))
      ensures var free := old(AfterCheck(epochFlags, Collected(), counter, c.epochSize));
              var epochs := old(EpochsAfterCheck(epochFlags, Collected(), counter, c.epochSize));
              if r.Present? then
                && table == old(table)
                && exists l :: && l in c.Locs(e) && table[l] == e
                               && Collected() == free[l := false] && epochFlags == epochs[l := true]
              else Outcome(c, old(table), free, epochs, e, r, moves, table, Collected(), epochFlags)
      ensures !r.Present? ==> multiset(table) + multiset{r.lost} == old(multiset(table)) + multiset{e}
      ensures forall x :: x != c.blank ==> (x in table <==> (x in old(table) || x == e) && (r.Present? || x != r.lost))
    {
      hide BitFlags.Bits, NoneTwice, LiveCount, AfterCheck, AllInPlace, Carrying, Config.Locs, Has, NoneFree,
           IsFirstFree, NextPlace, Trail, After, EpochsAfterCheck, CounterAfterCheck, AfterEpochs, EpochInHand;
      moves := [];
      EpochCheck();
      ghost var epochs, count := epochFlags, counter;
      ghost var collected, live := Collected(), LiveCount(epochFlags, Collected());
      var lastLoc, lastEpoch := -1, true;
      var found, loc := Find(e);
      if found {
        LiveUpdate(epochFlags, collected, loc, true, false);
        Kept(c, table, collected, loc);
        PleaseKeep(loc);
        epochFlags := epochFlags[loc := lastEpoch];
        assert Collected() == collected[loc := false];
        return Present, moves;
      }
      Absent(c, table, collected, e);
      StartCarrying(c, table, e, collected);
      TrailStart(c, table, collected, e);
      EpochsStart(epochs, moves);
      var x := e;
      for depth := 0 to c.depthLimit
        invariant Shape() && Collected() == collected && Carrying(c, old(table), e, table, x, collected)
        invariant |moves| == depth && lastLoc == LastPlace(moves)
        invariant table == After(old(table), moves) && Trail(c, old(table), collected, e, moves, x)
        invariant epochFlags == AfterEpochs(epochs, moves) && lastEpoch == EpochInHand(epochs, moves)
        invariant LiveCount(epochFlags, collected) + One(lastEpoch) == live + 1 && counter == count
      {
        var free, place := FindFree(x);
        if free {
          r := Stored(old(table)[place], place);
          Put(c, old(table), e, table, x, collected, place);
          Fill(x, place, lastEpoch);
          OneForOne(c.blank, old(table), e, table, r.lost);
          return;
        }
        lastLoc := NextLoc(x, lastLoc);
        Swap(c, old(table), e, table, x, collected, lastLoc);
        TrailOn(c, old(table), collected, e, moves, x);
        EpochsOn(epochs, moves, Move(x, lastLoc));
        moves := moves + [Move(x, lastLoc)];
        LiveUpdate(epochFlags, collected, lastLoc, lastEpoch, false);
        assert collected[lastLoc := false] == collected;
        x, table := table[lastLoc], table[lastLoc := x];
        lastEpoch, epochFlags := epochFlags[lastLoc], epochFlags[lastLoc := lastEpoch];
      }
      r := Dropped(x);
      EndCarrying(c, old(table), e, table, x, collected);
      OneForOne(c.blank, old(table), e, table, x);
    }
  }

  /** Where a number first occurs; the length if it does not. */
  function IndexOf(s: seq<nat>, x: int): (i: nat)
    ensures i <= |s| && (i < |s| ==> s[i] == x) && forall j :: 0 <= j < i ==> s[j] != x
  {
    if s == [] || s[0] == x then 0 else 1 + IndexOf(s[1..], x)
  }
}
