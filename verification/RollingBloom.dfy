/**
 The rolling Bloom filter (CRollingBloomFilter in src/bloom.cpp): every position holds the number
 of the generation that last set it, in two bits that lie in two neighbouring words.
 */
module RollingBloom {
  import opened Numbers

  // Two bits in two words

  predicate Bit(x: bv64, j: bv6) { (x >> j) & 1 == 1 }

  lemma BitAnd(x: bv64, y: bv64, k: bv6)
    ensures Bit(x & y, k) == (Bit(x, k) && Bit(y, k))
  {
  }

  lemma BitOr(x: bv64, y: bv64, k: bv6)
    ensures Bit(x | y, k) == (Bit(x, k) || Bit(y, k))
  {
  }

  /** A bit in place, and all bits but one. */
  function One(j: bv6, b: bool): bv64 { (if b then 1 as bv64 else 0) << j }

  function AllBut(j: bv6): bv64 { !((1 as bv64) << j) }

  lemma OneBit(j: bv6, b: bool, k: bv6)
    ensures Bit(One(j, b), k) == (k == j && b)
  {
  }

  lemma AllButBit(j: bv6, k: bv6)
    ensures Bit(AllBut(j), k) == (k != j)
  {
  }

  /** Puts a bit into its place. */
  function Put(x: bv64, j: bv6, b: bool): bv64 { (x & AllBut(j)) | One(j, b) }

  lemma PutBit(x: bv64, j: bv6, b: bool, k: bv6)
    ensures Bit(Put(x, j, b), k) == if k == j then b else Bit(x, k)
  {
    hide Bit, One, AllBut;
    BitOr(x & AllBut(j), One(j, b), k);
    BitAnd(x, AllBut(j), k);
    OneBit(j, b, k);
    AllButBit(j, k);
  }

  /** All ones, or all zeroes. */
  function Spread(b: bool): bv64 { 0 - (if b then 1 else 0) }

  /** The bits that differ from a given one. */
  function Differ(p: bv64, g: bool): bv64 { p ^ Spread(g) }

  lemma DifferBit(p: bv64, g: bool, k: bv6)
    ensures Bit(Differ(p, g), k) == (Bit(p, k) != g)
  {
  }

  /** The bits that do not carry a generation's number. */
  function Others(p1: bv64, p2: bv64, g1: bool, g2: bool): bv64 { Differ(p1, g1) | Differ(p2, g2) }

  lemma OthersBit(p1: bv64, p2: bv64, g1: bool, g2: bool, k: bv6)
    ensures Bit(Others(p1, p2, g1, g2), k) == (Bit(p1, k) != g1 || Bit(p2, k) != g2)
  {
    hide Bit, Differ;
    BitOr(Differ(p1, g1), Differ(p2, g2), k);
    DifferBit(p1, g1, k);
    DifferBit(p2, g2, k);
  }

  function Wipe1(p1: bv64, p2: bv64, g1: bool, g2: bool): bv64 { p1 & Others(p1, p2, g1, g2) }

  function Wipe2(p1: bv64, p2: bv64, g1: bool, g2: bool): bv64 { p2 & Others(p1, p2, g1, g2) }

  lemma Wiped1(p1: bv64, p2: bv64, g1: bool, g2: bool, k: bv6)
    ensures Bit(Wipe1(p1, p2, g1, g2), k) == (Bit(p1, k) && (Bit(p1, k) != g1 || Bit(p2, k) != g2))
  {
    hide Bit, Others;
    BitAnd(p1, Others(p1, p2, g1, g2), k);
    OthersBit(p1, p2, g1, g2, k);
  }

  lemma Wiped2(p1: bv64, p2: bv64, g1: bool, g2: bool, k: bv6)
    ensures Bit(Wipe2(p1, p2, g1, g2), k) == (Bit(p2, k) && (Bit(p1, k) != g1 || Bit(p2, k) != g2))
  {
    hide Bit, Others;
    BitAnd(p2, Others(p1, p2, g1, g2), k);
    OthersBit(p1, p2, g1, g2, k);
  }

  /** A generation's number: 1, 2 or 3, or 0 for none, by its two bits. */
  datatype Tag = Tag(low: bool, high: bool)

  const NONE: Tag := Tag(false, false)

  /** The number in a bit of two words. */
  function TagIn(p1: bv64, p2: bv64, k: bv6): Tag { Tag(Bit(p1, k), Bit(p2, k)) }

  /** Wiping clears a position that carries the number, and no other. */
  lemma WipedTag(p1: bv64, p2: bv64, g: Tag, k: bv6)
    ensures TagIn(Wipe1(p1, p2, g.low, g.high), Wipe2(p1, p2, g.low, g.high), k) ==
            if TagIn(p1, p2, k) == g then NONE else TagIn(p1, p2, k)
  {
    hide Bit, Wipe1, Wipe2;
    Wiped1(p1, p2, g.low, g.high, k);
    Wiped2(p1, p2, g.low, g.high, k);
  }

  predicate Either(p1: bv64, p2: bv64, k: bv6) { Bit(p1 | p2, k) }

  lemma EitherTag(p1: bv64, p2: bv64, k: bv6)
    ensures Either(p1, p2, k) <==> TagIn(p1, p2, k) != NONE
  {
    hide Bit;
    BitOr(p1, p2, k);
  }

  lemma PutTag(p1: bv64, p2: bv64, j: bv6, g: Tag, k: bv6)
    ensures TagIn(Put(p1, j, g.low), Put(p2, j, g.high), k) == if k == j then g else TagIn(p1, p2, k)
  {
    hide Bit, Put;
    PutBit(p1, j, g.low, k);
    PutBit(p2, j, g.high, k);
  }

  // The positions and their numbers

  /** A pair of words, and a bit in both of them. */
  datatype Pos = Pos(w: nat, k: bv6)

  function PosOf(h: nat, size: nat): (p: Pos)
    requires size > 0
    ensures 2 * p.w + 1 < size || size % 2 != 0
  {
    var pos := h / 64 % size;
    Pos(pos / 2, (h % 64) as bv6)
  }

  function TagAt(data: seq<bv64>, p: Pos): Tag
    requires 2 * p.w + 1 < |data|
  {
    TagIn(data[2 * p.w], data[2 * p.w + 1], p.k)
  }

  function SetTag(data: seq<bv64>, p: Pos, g: Tag): (r: seq<bv64>)
    requires 2 * p.w + 1 < |data|
    ensures |r| == |data|
  {
    data[2 * p.w := Put(data[2 * p.w], p.k, g.low)][2 * p.w + 1 := Put(data[2 * p.w + 1], p.k, g.high)]
  }

  lemma SetTagAt(data: seq<bv64>, p: Pos, g: Tag, q: Pos)
    requires 2 * p.w + 1 < |data| && 2 * q.w + 1 < |data|
    ensures TagAt(SetTag(data, p, g), q) == if q == p then g else TagAt(data, q)
  {
    hide TagIn, Put;
    if q.w == p.w {
      PutTag(data[2 * p.w], data[2 * p.w + 1], p.k, g, q.k);
    }
  }

  /** Clears the positions of a pair of words that carry a number. */
  function WipePair(data: seq<bv64>, w: nat, g: Tag): (r: seq<bv64>)
    requires 2 * w + 1 < |data|
    ensures |r| == |data| && forall i :: 0 <= i < |data| && i != 2 * w && i != 2 * w + 1 ==> r[i] == data[i]
  {
    var p1, p2 := data[2 * w], data[2 * w + 1];
    data[2 * w := Wipe1(p1, p2, g.low, g.high)][2 * w + 1 := Wipe2(p1, p2, g.low, g.high)]
  }

  lemma WipePairAt(data: seq<bv64>, w: nat, g: Tag, q: Pos)
    requires 2 * w + 1 < |data| && 2 * q.w + 1 < |data|
    ensures TagAt(WipePair(data, w, g), q) == if q.w == w && TagAt(data, q) == g then NONE else TagAt(data, q)
  {
    hide TagIn, Wipe1, Wipe2;
    if q.w == w {
      WipedTag(data[2 * w], data[2 * w + 1], g, q.k);
    }
  }

  /** Clears every position that carries a number. */
  method Wipe(data: seq<bv64>, g: Tag) returns (r: seq<bv64>)
    requires |data| % 2 == 0
    ensures |r| == |data| && WipedFor(data, r, g)
  {
    hide TagAt, WipePair;
    r := data;
    var w := 0;
    while 2 * w < |data|
      invariant 0 <= 2 * w <= |data| && |r| == |data|
      invariant forall q: Pos :: 2 * q.w + 1 < |data| ==>
                  TagAt(r, q) == if q.w < w && TagAt(data, q) == g then NONE else TagAt(data, q)
    {
      forall q: Pos | 2 * q.w + 1 < |data|
        ensures TagAt(WipePair(r, w, g), q) == if q.w == w && TagAt(r, q) == g then NONE else TagAt(r, q)
      {
        WipePairAt(r, w, g, q);
      }
      r := WipePair(r, w, g);
      w := w + 1;
    }
  }

  lemma NoTags(data: seq<bv64>)
    requires forall i :: 0 <= i < |data| ==> data[i] == 0
    ensures forall q: Pos :: 2 * q.w + 1 < |data| ==> TagAt(data, q) == NONE
  {
    forall q: Pos | 2 * q.w + 1 < |data| ensures TagAt(data, q) == NONE { NoBit(q.k); }
  }

  lemma NoBit(k: bv6)
    ensures !Bit(0, k)
  {
  }

  // Generations

  /** The number that stands for a generation. */
  function TagOf(g: nat): Tag { Number(1 + g % 3) }

  function Number(n: nat): Tag { Tag(n % 2 == 1, n / 2 == 1) }

  /** The number stands for a generation from lo to hi. */
  ghost predicate Marked(tag: Tag, lo: nat, hi: nat) { exists g: nat :: lo <= g <= hi && tag == TagOf(g) }

  /** Reusing a number leaves the marks of the last two generations alone. */
  lemma StillMarked(tag: Tag, lo: nat, hi: nat)
    requires Marked(tag, lo, hi) && lo + 1 >= hi
    ensures tag != TagOf(hi + 1) && Marked(tag, lo, hi + 1)
  {
    var g: nat :| lo <= g <= hi && tag == TagOf(g);
  }

  /** The number that is reused was that of the generation before the last two. */
  lemma Unreused(g: nat, epoch: nat)
    requires g <= epoch <= g + 2
    ensures TagOf(g) == TagOf(epoch + 1) <==> g + 2 == epoch
  {
  }

  lemma NextNumber(epoch: nat)
    ensures TagOf(epoch + 1) == Number(if epoch % 3 == 2 then 1 else 2 + epoch % 3)
    ensures (epoch + 1) % 3 == if epoch % 3 == 2 then 0 else epoch % 3 + 1
  {
  }

  type Hash<!Key> = (nat, Key) -> nat

  /** The place a hash function gives a key. */
  function Place<Key>(hash: Hash<Key>, size: nat, n: nat, key: Key): (p: Pos)
    requires size > 0 && size % 2 == 0
    ensures 2 * p.w + 1 < size
  {
    PosOf(hash(n, key), size)
  }

  /** A position is one of a key's. */
  ghost predicate Hit<Key>(hash: Hash<Key>, size: nat, funcs: nat, key: Key, q: Pos)
    requires size > 0 && size % 2 == 0
  {
    exists n :: 0 <= n < funcs && Place(hash, size, n, key) == q
  }

  /** A mark is the number of a recent generation, and one of that generation's keys has the position. */
  ghost predicate LeftBySome<Key>(hash: Hash<Key>, size: nat, funcs: nat, keys: seq<Key>, gens: seq<nat>, epoch: nat,
                                  q: Pos, tag: Tag)
    requires size > 0 && size % 2 == 0 && |keys| == |gens|
  {
    exists i :: 0 <= i < |keys| && gens[i] + 2 >= epoch && tag == TagOf(gens[i]) && Hit(hash, size, funcs, keys[i], q)
  }

  /** A mark that a new generation does not wipe is still that of a recent one. */
  lemma StillRecent<Key>(hash: Hash<Key>, size: nat, funcs: nat, keys: seq<Key>, gens: seq<nat>, epoch: nat, q: Pos,
                         tag: Tag)
    requires size > 0 && size % 2 == 0 && |keys| == |gens| && (forall i :: 0 <= i < |gens| ==> gens[i] <= epoch)
    requires LeftBySome(hash, size, funcs, keys, gens, epoch, q, tag) && tag != TagOf(epoch + 1)
    ensures LeftBySome(hash, size, funcs, keys, gens, epoch + 1, q, tag)
  {
    hide Hit, TagOf;
    var i :| 0 <= i < |keys| && gens[i] + 2 >= epoch && tag == TagOf(gens[i]) && Hit(hash, size, funcs, keys[i], q);
    Unreused(gens[i], epoch);
  }

  /** One more key: the marks are its own or those of the others. */
  lemma TracedOn<Key>(hash: Hash<Key>, size: nat, funcs: nat, keys: seq<Key>, gens: seq<nat>, epoch: nat, key: Key,
                      q: Pos, tag: Tag)
    requires size > 0 && size % 2 == 0 && |keys| == |gens|
    requires
      if Hit(hash, size, funcs, key, q) then tag == TagOf(epoch)
      else LeftBySome(hash, size, funcs, keys, gens, epoch, q, tag)
    ensures LeftBySome(hash, size, funcs, keys + [key], gens + [epoch], epoch, q, tag)
  {
    hide Hit, TagOf;
    var more, later := keys + [key], gens + [epoch];
    if Hit(hash, size, funcs, key, q) {
      assert more[|keys|] == key && later[|keys|] == epoch;
    } else {
      var i :| 0 <= i < |keys| && gens[i] + 2 >= epoch && tag == TagOf(gens[i]) && Hit(hash, size, funcs, keys[i], q);
      assert more[i] == keys[i] && later[i] == gens[i];
    }
  }

  /** The keys of the current generation and of the two before it have left their marks. */
  ghost predicate Kept<Key>(hash: Hash<Key>, funcs: nat, data: seq<bv64>, keys: seq<Key>, gens: seq<nat>, epoch: nat)
    requires |data| > 0 && |data| % 2 == 0 && |keys| == |gens|
  {
    forall i, n :: 0 <= i < |keys| && 0 <= n < funcs && gens[i] + 2 >= epoch ==>
      Marked(TagAt(data, Place(hash, |data|, n, keys[i])), gens[i], epoch)
  }

  /** Every mark was left by a key of the current generation or of the two before it. */
  ghost predicate Traced<Key>(hash: Hash<Key>, funcs: nat, data: seq<bv64>, keys: seq<Key>, gens: seq<nat>, epoch: nat)
    requires |data| > 0 && |data| % 2 == 0 && |keys| == |gens|
  {
    forall q: Pos :: 2 * q.w + 1 < |data| && TagAt(data, q) != NONE ==>
      LeftBySome(hash, |data|, funcs, keys, gens, epoch, q, TagAt(data, q))
  }

  /** The data without the marks of the number that is used next. */
  ghost predicate WipedFor(data: seq<bv64>, wiped: seq<bv64>, g: Tag) {
    |wiped| == |data| && forall q: Pos :: 2 * q.w + 1 < |data| ==>
      TagAt(wiped, q) == if TagAt(data, q) == g then NONE else TagAt(data, q)
  }

  /** A new generation spares the marks of the last two. */
  lemma KeptOn<Key>(hash: Hash<Key>, funcs: nat, data: seq<bv64>, wiped: seq<bv64>, keys: seq<Key>, gens: seq<nat>,
                    epoch: nat)
    requires |data| > 0 && |data| % 2 == 0 && |keys| == |gens|
    requires Kept(hash, funcs, data, keys, gens, epoch) && WipedFor(data, wiped, TagOf(epoch + 1))
    ensures Kept(hash, funcs, wiped, keys, gens, epoch + 1)
  {
    hide TagAt, Place, TagOf, Marked;
    forall i, n | 0 <= i < |keys| && 0 <= n < funcs && gens[i] + 2 >= epoch + 1
      ensures Marked(TagAt(wiped, Place(hash, |wiped|, n, keys[i])), gens[i], epoch + 1)
    {
      StillMarked(TagAt(data, Place(hash, |data|, n, keys[i])), gens[i], epoch);
    }
  }

  lemma TracedNext<Key>(hash: Hash<Key>, funcs: nat, data: seq<bv64>, wiped: seq<bv64>, keys: seq<Key>,
                        gens: seq<nat>, epoch: nat)
    requires |data| > 0 && |data| % 2 == 0 && |keys| == |gens| && forall i :: 0 <= i < |gens| ==> gens[i] <= epoch
    requires Traced(hash, funcs, data, keys, gens, epoch) && WipedFor(data, wiped, TagOf(epoch + 1))
    ensures Traced(hash, funcs, wiped, keys, gens, epoch + 1)
  {
    hide TagAt, Place, TagOf, LeftBySome;
    forall q: Pos | 2 * q.w + 1 < |wiped| && TagAt(wiped, q) != NONE
      ensures LeftBySome(hash, |wiped|, funcs, keys, gens, epoch + 1, q, TagAt(wiped, q))
    {
      StillRecent(hash, |wiped|, funcs, keys, gens, epoch, q, TagAt(wiped, q));
    }
  }

  class RollingFilter<Key(==)> {
    const nHashFuncs: nat
    const nEntriesPerGeneration: nat
    var hash: Hash<Key>
    var nEntriesThisGeneration: nat
    var nGeneration: nat
    var data: seq<bv64>

    /** Everything inserted since the last reset, and the generation of each key. */
    ghost var keys: seq<Key>
    ghost var gens: seq<nat>
    ghost var epoch: nat

    ghost predicate Shape()
      reads this
    {
      && |data| > 0 && |data| % 2 == 0 && nEntriesPerGeneration > 0 && nEntriesThisGeneration <= nEntriesPerGeneration
      && nGeneration == 1 + epoch % 3 && |gens| == |keys|
    }

    /** The generations are filled one after the other. */
    ghost predicate Counted()
      reads this
    {
      && |keys| == epoch * nEntriesPerGeneration + nEntriesThisGeneration && |gens| == |keys|
      && (forall i :: 0 <= i < |gens| ==>
           gens[i] <= epoch && gens[i] * nEntriesPerGeneration <= i < (gens[i] + 1) * nEntriesPerGeneration)
    }

    ghost predicate Valid()
      reads this
    {
      && Shape() && Counted()
      && Kept(hash, nHashFuncs, data, keys, gens, epoch) && Traced(hash, nHashFuncs, data, keys, gens, epoch)
    }

    constructor (nElements: nat, nHashFuncs: nat, words: nat, hash: Hash<Key>)
      requires nElements > 0 && words > 0
      ensures Valid() && keys == [] && nElements <= 2 * nEntriesPerGeneration <= nElements + 1
    {
      this.nHashFuncs, this.hash := nHashFuncs, hash;
      nEntriesPerGeneration := (nElements + 1) / 2;
      data := seq(2 * words, _ => 0);
      nEntriesThisGeneration, nGeneration, keys, gens, epoch := 0, 1, [], [], 0;
      new;
      NoTags(data);
    }

    method Reset(hash: Hash<Key>)
      requires Valid()
      modifies this
      ensures Valid() && keys == []
    {
      this.hash, nEntriesThisGeneration, nGeneration := hash, 0, 1;
      data := seq(|data|, _ => 0);
      keys, gens, epoch := [], [], 0;
      NoTags(data);
    }

    method Contains(key: Key) returns (r: bool)
      requires Shape()
      ensures r <==> forall n :: 0 <= n < nHashFuncs ==> TagAt(data, Place(hash, |data|, n, key)) != NONE
    {
      hide TagIn, Either, Place;
      for n := 0 to nHashFuncs
        invariant forall m :: 0 <= m < n ==> TagAt(data, Place(hash, |data|, m, key)) != NONE
      {
        var p := Place(hash, |data|, n, key);
        EitherTag(data[2 * p.w], data[2 * p.w + 1], p.k);
        if !Either(data[2 * p.w], data[2 * p.w + 1], p.k) {
          return false;
        }
      }
      return true;
    }

    /** Starts a new generation, whose number is free again. */
    method NextGeneration()
      requires Valid() && nEntriesThisGeneration == nEntriesPerGeneration
      modifies this`nEntriesThisGeneration, this`nGeneration, this`data, this`epoch
      ensures Valid() && nEntriesThisGeneration == 0 && |data| == old(|data|)
    {
      hide WipedFor, Kept, Traced, TagOf, Number;
      ghost var before := data;
      NextNumber(epoch);
      nEntriesThisGeneration := 0;
      nGeneration := nGeneration + 1;
      if nGeneration == 4 {
        nGeneration := 1;
      }
      data := Wipe(data, Number(nGeneration));
      assert |keys| == (epoch + 1) * nEntriesPerGeneration by {
        assert (epoch + 1) * nEntriesPerGeneration == epoch * nEntriesPerGeneration + nEntriesPerGeneration;
      }
      KeptOn(hash, nHashFuncs, before, data, keys, gens, epoch);
      TracedNext(hash, nHashFuncs, before, data, keys, gens, epoch);
      epoch := epoch + 1;
    }

    /** Leaves the current generation's mark in the places of a key, and nowhere else. */
    method Mark(key: Key)
      requires Shape()
      modifies this`data
      ensures |data| == old(|data|)
      ensures forall q: Pos :: 2 * q.w + 1 < |data| ==>
                TagAt(data, q) == if Hit(hash, |data|, nHashFuncs, key, q) then Number(nGeneration)
                  else old(TagAt(data, q))
    {
      hide TagAt, SetTag, Place, Number;
      for n := 0 to nHashFuncs
        invariant |data| == old(|data|)
        invariant forall q: Pos :: 2 * q.w + 1 < |data| ==>
                    TagAt(data, q) == if Hit(hash, |data|, n, key, q) then Number(nGeneration) else old(TagAt(data, q))
      {
        var p := Place(hash, |data|, n, key);
        forall q: Pos | 2 * q.w + 1 < |data|
          ensures TagAt(SetTag(data, p, Number(nGeneration)), q) == if q == p then Number(nGeneration)
                    else TagAt(data, q)
          ensures Hit(hash, |data|, n + 1, key, q) <==> Hit(hash, |data|, n, key, q) || q == p
        {
          SetTagAt(data, p, Number(nGeneration), q);
        }
        data := SetTag(data, p, Number(nGeneration));
      }
    }

    method Insert(key: Key)
      requires Valid()
      modifies this`nEntriesThisGeneration, this`nGeneration, this`data, this`keys, this`gens, this`epoch
      ensures Valid() && keys == old(keys) + [key]
    {
      hide TagAt, Place, Number, LeftBySome, Hit;
      if nEntriesThisGeneration == nEntriesPerGeneration {
        NextGeneration();
      }
      nEntriesThisGeneration := nEntriesThisGeneration + 1;
      ghost var before := data;
      Mark(key);
      assert TagOf(epoch) == Number(nGeneration);
      forall q: Pos | 2 * q.w + 1 < |data| && TagAt(data, q) != NONE
        ensures LeftBySome(hash, |data|, nHashFuncs, keys + [key], gens + [epoch], epoch, q, TagAt(data, q))
      {
        TracedOn(hash, |data|, nHashFuncs, keys, gens, epoch, key, q, TagAt(data, q));
      }
      AllMarked(key, before);
      Filled(epoch, nEntriesPerGeneration, nEntriesThisGeneration);
      keys, gens := keys + [key], gens + [epoch];
    }

    /** Marking a key covers its own places and spares or renews those of the others. */
    lemma AllMarked(key: Key, before: seq<bv64>)
      requires Shape() && |before| == |data|
      requires forall q: Pos :: 2 * q.w + 1 < |data| ==>
                 TagAt(data, q) == if Hit(hash, |data|, nHashFuncs, key, q) then TagOf(epoch) else TagAt(before, q)
      requires forall i :: 0 <= i < |gens| ==> gens[i] <= epoch
      requires forall i, n :: 0 <= i < |keys| && 0 <= n < nHashFuncs && gens[i] + 2 >= epoch ==>
                 Marked(TagAt(before, Place(hash, |data|, n, keys[i])), gens[i], epoch)
      ensures forall i, n :: 0 <= i <= |keys| && 0 <= n < nHashFuncs && (gens + [epoch])[i] + 2 >= epoch ==>
                Marked(TagAt(data, Place(hash, |data|, n, (keys + [key])[i])), (gens + [epoch])[i], epoch)
    {
      hide TagAt, TagOf, Place;
    }

    /** The latest keys, two generations' worth at least, are all found. */
    lemma RecentAreKept(i: nat)
      requires Valid() && i < |keys| && i + 2 * nEntriesPerGeneration >= |keys|
      ensures forall n :: 0 <= n < nHashFuncs ==> TagAt(data, Place(hash, |data|, n, keys[i])) != NONE
    {
      hide TagAt, Place;
      Recent(i, gens[i], epoch, nEntriesPerGeneration, nEntriesThisGeneration);
      forall n | 0 <= n < nHashFuncs ensures TagAt(data, Place(hash, |data|, n, keys[i])) != NONE {
        assert Marked(TagAt(data, Place(hash, |data|, n, keys[i])), gens[i], epoch);
      }
    }

    /** One of the last three generations' worth of keys has the position. */
    ghost predicate RecentlyHit(q: Pos)
      requires Shape()
      reads this
    {
      exists i :: 0 <= i < |keys| && gens[i] + 2 >= epoch && Hit(hash, |data|, nHashFuncs, keys[i], q)
    }

    /** A position is marked exactly when a recent key has it: nothing is forgotten early and nothing stays. */
    lemma MarkedIsRecent(q: Pos)
      requires Valid() && 2 * q.w + 1 < |data|
      ensures TagAt(data, q) != NONE <==> RecentlyHit(q)
    {
      hide TagAt, Place;
      if RecentlyHit(q) {
        var i :| 0 <= i < |keys| && gens[i] + 2 >= epoch && Hit(hash, |data|, nHashFuncs, keys[i], q);
        var n :| 0 <= n < nHashFuncs && Place(hash, |data|, n, keys[i]) == q;
        assert Marked(TagAt(data, q), gens[i], epoch);
      }
    }

    /** A recent key is one of the last three generations' worth. */
    lemma RecentIsLate(i: nat)
      requires Valid() && i < |keys| && gens[i] + 2 >= epoch
      ensures i + 3 * nEntriesPerGeneration >= |keys|
    {
      assert (gens[i] + 2) * nEntriesPerGeneration == gens[i] * nEntriesPerGeneration + 2 * nEntriesPerGeneration;
      MulMono(epoch, gens[i] + 2, nEntriesPerGeneration);
    }
  }

  lemma Filled(epoch: nat, per: nat, filled: nat)
    requires 0 < filled <= per
    ensures epoch * per + filled - 1 < (epoch + 1) * per
  {
    assert (epoch + 1) * per == epoch * per + per;
  }

  lemma Recent(i: nat, gen: nat, epoch: nat, per: nat, filled: nat)
    requires per > 0 && i < (gen + 1) * per && i + 2 * per >= epoch * per + filled
    ensures gen + 2 >= epoch
  {
    assert (gen + 3) * per == (gen + 1) * per + 2 * per;
    if gen + 3 <= epoch {
      MulMono(gen + 3, epoch, per);
    }
  }
}
