/**
 Compact block relay (src/blockencodings.h, src/blockencodings.cpp, and the message handlers in
 src/net_processing.cpp): a block is rebuilt from short ids, the receiver's own transactions, and
 those it asks for.
 */
module CompactBlock {
  import opened Options
  import opened Sequences

  const MAX_TRANSACTIONS := 100000 // MAX_BLOCK_BASE_SIZE / MIN_TRANSACTION_BASE_SIZE
  const MAX_INDEX := 65535
  const PLACES := MAX_INDEX + 1 // what 16 bits can number

  /** A number kept in 16 bits. */
  function InWord(p: nat): (q: nat)
    ensures q < PLACES && (q == p <==> p < PLACES) && (p == PLACES ==> q == 0)
  {
    p % PLACES
  }

  // Index lists, written as differences

  ghost predicate Increasing(s: seq<nat>) { forall j, k :: 0 <= j < k < |s| ==> s[j] < s[k] }

  ghost predicate SixteenBits(s: seq<nat>) { forall k :: 0 <= k < |s| ==> s[k] <= MAX_INDEX }

  /** How far an index is beyond the one after its predecessor. */
  function Gap(indexes: seq<nat>, k: nat, first: nat): int
    requires k < |indexes|
  {
    var index: int := indexes[k];
    var start: int := if k == 0 then first else indexes[k - 1] + 1;
    index - start
  }

  ghost predicate AreGaps(diffs: seq<nat>, indexes: seq<nat>, first: nat) {
    |diffs| == |indexes| && forall k :: 0 <= k < |diffs| ==> diffs[k] == Gap(indexes, k, first)
  }

  /** A difference that is negative wraps around in 64 bits. */
  method EncodeIndexes(indexes: seq<nat>) returns (diffs: seq<nat>)
    requires SixteenBits(indexes)
    ensures |diffs| == |indexes| && forall k :: 0 <= k < |diffs| ==>
              diffs[k] == Gap(indexes, k, 0) % 0x1_0000_0000_0000_0000
  {
    diffs := [];
    for i := 0 to |indexes|
      invariant |diffs| == i && forall k :: 0 <= k < i ==> diffs[k] == Gap(indexes, k, 0) % 0x1_0000_0000_0000_0000
    {
      var index: int, start: int := indexes[i], if i == 0 then 0 else indexes[i - 1] + 1;
      diffs := diffs + [(index - start) % 0x1_0000_0000_0000_0000];
    }
  }

  /** The list a sequence of differences stands for, with the offset kept in 16 bits. */
  function Decoded(diffs: seq<nat>, offset: nat): Option<seq<nat>>
    decreases |diffs|
  {
    if diffs == [] then Some([])
    else if diffs[0] > MAX_INDEX || diffs[0] + offset > MAX_INDEX then None
    else
      var index := diffs[0] + offset;
      Prepend([index], Decoded(diffs[1..], (index + 1) % (MAX_INDEX + 1)))
  }

  method DecodeIndexes(diffs: seq<nat>) returns (r: Option<seq<nat>>)
    ensures r == Decoded(diffs, 0)
  {
    if exists k :: 0 <= k < |diffs| && diffs[k] > MAX_INDEX {
      var k :| 0 <= k < |diffs| && diffs[k] > MAX_INDEX;
      TooLarge(diffs, 0, k);
      return None;
    }
    var indexes: seq<nat>, offset: nat := [], 0;
    assert diffs[0..] == diffs && (Decoded(diffs, 0).Some? ==> [] + Decoded(diffs, 0).value == Decoded(diffs, 0).value);
    for j := 0 to |diffs|
      invariant offset <= MAX_INDEX
      invariant Decoded(diffs, 0) == Prepend(indexes, Decoded(diffs[j..], offset))
    {
      if diffs[j] + offset > MAX_INDEX {
        return None;
      }
      var index := diffs[j] + offset;
      assert diffs[j..][1..] == diffs[j + 1..];
      PrependMore(indexes, index, Decoded(diffs[j + 1..], (index + 1) % (MAX_INDEX + 1)));
      indexes := indexes + [index];
      offset := (index + 1) % (MAX_INDEX + 1);
    }
    assert diffs[|diffs|..] == [] && indexes + [] == indexes;
    r := Some(indexes);
  }

  function Prepend(s: seq<nat>, r: Option<seq<nat>>): Option<seq<nat>> {
    if r.None? then None else Some(s + r.value)
  }

  lemma PrependMore(s: seq<nat>, x: nat, r: Option<seq<nat>>)
    ensures Prepend(s, Prepend([x], r)) == Prepend(s + [x], r)
  {
    if r.Some? {
      assert s + ([x] + r.value) == s + [x] + r.value;
    }
  }

  lemma {:induction false} TooLarge(diffs: seq<nat>, offset: nat, k: nat)
    requires k < |diffs| && diffs[k] > MAX_INDEX
    ensures Decoded(diffs, offset) == None
    decreases k
  {
    if k > 0 && diffs[0] + offset <= MAX_INDEX {
      TooLarge(diffs[1..], (diffs[0] + offset + 1) % (MAX_INDEX + 1), k - 1);
    }
  }

  /** Decoding gives back any increasing list of 16-bit indexes. */
  lemma {:induction false} DecodeEncoded(indexes: seq<nat>, diffs: seq<nat>, first: nat)
    requires Increasing(indexes) && SixteenBits(indexes) && AreGaps(diffs, indexes, first)
    requires indexes != [] ==> first <= indexes[0]
    ensures Decoded(diffs, first) == Some(indexes)
    decreases |diffs|
  {
    hide Decoded;
    DecodedStep(diffs, first);
    if diffs != [] {
      var next := indexes[0] + 1;
      assert indexes == [indexes[0]] + indexes[1..];
      assert diffs[0] == Gap(indexes, 0, first);
      if |indexes| > 1 {
        assert indexes[0] < indexes[1];
        forall k | 0 <= k < |diffs[1..]| ensures diffs[1..][k] == Gap(indexes[1..], k, next) {
          assert diffs[k + 1] == Gap(indexes, k + 1, first);
        }
        DecodeEncoded(indexes[1..], diffs[1..], next);
      } else {
        assert diffs[1..] == [] && indexes[1..] == [];
        DecodedStep(diffs[1..], next % (MAX_INDEX + 1));
      }
    }
  }

  /** What was encoded arrives exactly if the indexes ascend, and otherwise nothing does. */
  lemma Arrives(indexes: seq<nat>, diffs: seq<nat>)
    requires SixteenBits(indexes) && |diffs| == |indexes|
    requires forall k :: 0 <= k < |diffs| ==> diffs[k] == Gap(indexes, k, 0) % 0x1_0000_0000_0000_0000
    ensures Decoded(diffs, 0) == if Increasing(indexes) then Some(indexes) else None
  {
    if k :| 0 < k < |indexes| && indexes[k] <= indexes[k - 1] {
      assert Gap(indexes, k, 0) % 0x1_0000_0000_0000_0000 == Gap(indexes, k, 0) + 0x1_0000_0000_0000_0000;
      TooLarge(diffs, 0, k);
      assert !Increasing(indexes);
    } else {
      Ascends(indexes);
      DecodeEncoded(indexes, diffs, 0);
    }
  }

  lemma {:induction false} Ascends(s: seq<nat>)
    requires forall k :: 0 < k < |s| ==> s[k - 1] < s[k]
    ensures Increasing(s)
  {
    if s != [] {
      var n := |s| - 1;
      Ascends(s[..n]);
      forall j | 0 <= j < n ensures s[j] < s[n] {
        assert s[..n][j] <= s[..n][n - 1];
      }
    }
  }

  lemma DecodedStep(diffs: seq<nat>, offset: nat)
    ensures diffs == [] ==> Decoded(diffs, offset) == Some([])
    ensures diffs != [] && diffs[0] + offset <= MAX_INDEX ==>
              var index := diffs[0] + offset;
              Decoded(diffs, offset) == Prepend([index], Decoded(diffs[1..], (index + 1) % (MAX_INDEX + 1)))
    ensures diffs != [] && diffs[0] + offset > MAX_INDEX ==> Decoded(diffs, offset) == None
  {
  }

  /** No index but the last one is the largest there is. */
  ghost predicate NoneLargest(s: seq<nat>) { forall k :: 0 <= k < |s| - 1 ==> s[k] != MAX_INDEX }

  /** A decoded list increases, exactly if no index but the last one is the largest there is. */
  lemma {:induction false} DecodedIncreasing(diffs: seq<nat>, offset: nat)
    requires Decoded(diffs, offset).Some?
    ensures var x := Decoded(diffs, offset).value;
            (x != [] ==> x[0] >= offset) && (Increasing(x) <==> NoneLargest(x))
    decreases |diffs|
  {
    if diffs != [] {
      var index := diffs[0] + offset;
      var next := (index + 1) % (MAX_INDEX + 1);
      DecodedIncreasing(diffs[1..], next);
      DecodedBounded(diffs[1..], next);
      hide Increasing, NoneLargest, SixteenBits;
      OneMore(index, Decoded(diffs[1..], next).value);
    }
  }

  lemma OneMore(index: nat, rest: seq<nat>)
    requires index <= MAX_INDEX && SixteenBits(rest) && (rest != [] ==> rest[0] >= (index + 1) % (MAX_INDEX + 1))
    requires Increasing(rest) <==> NoneLargest(rest)
    ensures Increasing([index] + rest) <==> NoneLargest([index] + rest)
  {
    var x := [index] + rest;
    if NoneLargest(x) {
      forall k | 0 <= k < |rest| - 1 ensures rest[k] != MAX_INDEX { assert x[k + 1] != MAX_INDEX; }
      if rest != [] {
        assert x[0] != MAX_INDEX;
      }
    }
    if Increasing(x) {
      forall k | 0 <= k < |x| - 1 ensures x[k] != MAX_INDEX { assert x[k] < x[k + 1]; }
    }
  }

  lemma {:induction false} DecodedBounded(diffs: seq<nat>, offset: nat)
    requires Decoded(diffs, offset).Some?
    ensures SixteenBits(Decoded(diffs, offset).value) && |Decoded(diffs, offset).value| == |diffs|
    decreases |diffs|
  {
    if diffs != [] {
      DecodedBounded(diffs[1..], (diffs[0] + offset + 1) % (MAX_INDEX + 1));
    }
  }

  ghost function Total(diffs: seq<nat>): nat { if diffs == [] then 0 else diffs[0] + Total(diffs[1..]) }

  /** Differences stand for an increasing list, exactly if they and the steps between them stay within 16 bits. */
  lemma {:induction false} AscendsExactly(diffs: seq<nat>, offset: nat)
    requires offset <= MAX_INDEX
    ensures Decoded(diffs, offset).Some? && Increasing(Decoded(diffs, offset).value) <==>
              offset + Total(diffs) + |diffs| - 1 <= MAX_INDEX
    decreases |diffs|
  {
    DecodedStep(diffs, offset);
    if diffs != [] && diffs[0] + offset <= MAX_INDEX {
      hide Increasing, SixteenBits, NoneLargest, Decoded;
      var index := diffs[0] + offset;
      var next := (index + 1) % (MAX_INDEX + 1);
      var rest := Decoded(diffs[1..], next);
      AscendsExactly(diffs[1..], next);
      if rest.Some? {
        DecodedIncreasing(diffs[1..], next);
        DecodedBounded(diffs[1..], next);
        IncreasingFrom(index, rest.value);
      }
    }
  }

  lemma IncreasingFrom(index: nat, rest: seq<nat>)
    requires index <= MAX_INDEX && SixteenBits(rest)
    requires index < MAX_INDEX && rest != [] ==> rest[0] > index
    ensures Increasing([index] + rest) <==> Increasing(rest) && (rest == [] || index < MAX_INDEX)
  {
    var x := [index] + rest;
    if Increasing(x) {
      forall j, k | 0 <= j < k < |rest| ensures rest[j] < rest[k] { assert x[j + 1] < x[k + 1]; }
      if rest != [] {
        assert x[0] < x[1];
      }
    }
  }

  /** After the largest index the list starts over. */
  lemma NotIncreasing()
    ensures Decoded([MAX_INDEX, 0], 0) == Some([MAX_INDEX, 0])
  {
    assert [0][1..] == [] && [MAX_INDEX, 0][1..] == [0];
    assert Decoded([], 1) == Some([]);
    assert [0] + [] == [0];
    assert Decoded([0], 0) == Some([0]);
    assert (MAX_INDEX + 1) % (MAX_INDEX + 1) == 0;
    assert [MAX_INDEX] + [0] == [MAX_INDEX, 0];
  }

  // Compact blocks

  datatype Prefilled<T> = Prefilled(index: nat, tx: T)

  datatype Compact<T> = Compact(headerIsNull: bool, shortIds: seq<nat>, prefilled: seq<Prefilled<T>>) {
    function TxCount(): nat { |shortIds| + |prefilled| }
  }

  /** NeverReturns stands for a call that does not end. */
  datatype ReadStatus = Okay | Invalid | Failed | CheckBlockFailed | NeverReturns

  /** A transaction together with the hash its short id is made from. */
  datatype Entry<H, T> = Entry(hash: H, tx: T)

  /** The compact form of a block: its first transaction in full, short ids of the others. */
  method MakeCompact<T>(vtx: seq<T>, shortId: T -> nat) returns (c: Compact<T>)
    requires |vtx| > 0
    ensures c == Compact(false, seq(|vtx| - 1, i requires 0 <= i < |vtx| - 1 => shortId(vtx[i + 1])),
              [Prefilled(0, vtx[0])])
  {
    var ids: seq<nat> := [];
    for i := 1 to |vtx|
      invariant |ids| == i - 1 && forall k :: 0 <= k < |ids| ==> ids[k] == shortId(vtx[k + 1])
    {
      ids := ids + [shortId(vtx[i])];
    }
    c := Compact(false, ids, [Prefilled(0, vtx[0])]);
  }

  /** The places of a partial block that are free. */
  function FreeCount<T>(a: seq<Option<T>>): nat {
    if a == [] then 0 else FreeCount(a[..|a| - 1]) + if a[|a| - 1].None? then 1 else 0
  }

  lemma {:induction false} FreeFill<T>(a: seq<Option<T>>, p: nat, x: Option<T>)
    requires p < |a|
    ensures FreeCount(a[p := x]) == FreeCount(a) - (if a[p].None? then 1 else 0) + if x.None? then 1 else 0
  {
    var n := |a| - 1;
    if p < n {
      FreeFill(a[..n], p, x);
      assert a[p := x][..n] == a[..n][p := x];
    } else {
      assert a[p := x][..n] == a[..n];
    }
  }

  lemma {:induction false} AllFree<T>(a: seq<Option<T>>)
    requires forall k :: 0 <= k < |a| ==> a[k].None?
    ensures FreeCount(a) == |a|
  {
    if a != [] {
      AllFree(a[..|a| - 1]);
    }
  }

  lemma {:induction false} FreeGrows<T>(a: seq<Option<T>>, p: nat, q: nat)
    requires p <= q <= |a|
    ensures FreeCount(a[..p]) <= FreeCount(a[..q]) <= FreeCount(a[..p]) + (q - p)
  {
    if p < q {
      FreeGrows(a, p, q - 1);
      assert a[..q][..q - 1] == a[..q - 1];
    }
  }

  lemma FreeNext<T>(a: seq<Option<T>>, p: nat)
    requires p < |a|
    ensures FreeCount(a[..p + 1]) == FreeCount(a[..p]) + if a[p].None? then 1 else 0
  {
    assert a[..p + 1][..p] == a[..p];
  }

  /** The place of the i-th short id: the i-th free one. */
  ghost predicate IsSlot<T>(a: seq<Option<T>>, i: nat, p: nat) {
    p < |a| && a[p].None? && FreeCount(a[..p]) == i
  }

  lemma SlotUnique<T>(a: seq<Option<T>>, i: nat, p: nat, q: nat)
    requires IsSlot(a, i, p) && IsSlot(a, i, q)
    ensures p == q
  {
    hide FreeCount;
    if p < q {
      FreeNext(a, p);
      FreeGrows(a, p + 1, q);
    } else if q < p {
      FreeNext(a, q);
      FreeGrows(a, q + 1, p);
    }
  }

  /** Where a transaction sent in full goes: its index counts from the one before it. */
  function Place<T>(prefilled: seq<Prefilled<T>>, k: int): int
    requires k < |prefilled|
    decreases k
  {
    if k < 0 then -1 else Place(prefilled, k - 1) + prefilled[k].index + 1
  }

  /** An index is how far a place is beyond the one after its predecessor. */
  ghost predicate IsDifference<T>(prefilled: seq<Prefilled<T>>, at: seq<nat>, j: nat)
    requires j < |at| == |prefilled|
  {
    if j == 0 then at[0] == prefilled[0].index else at[j] == at[j - 1] + 1 + prefilled[j].index
  }

  /** Indexes that are differences give back the places they were made from. */
  lemma {:induction false} PlacesDecoded<T>(prefilled: seq<Prefilled<T>>, at: seq<nat>, k: nat)
    requires |at| == |prefilled| && k < |at|
    requires forall j :: 0 <= j < |at| ==> IsDifference(prefilled, at, j)
    ensures Place(prefilled, k) == at[k]
  {
    assert IsDifference(prefilled, at, k);
    if k > 0 {
      PlacesDecoded(prefilled, at, k - 1);
    } else {
      assert Place(prefilled, -1) == -1;
    }
  }

  /** The transactions sent in full are in their places, and the other places are free. */
  ghost predicate Laid<T>(prefilled: seq<Prefilled<T>>, i: nat, a: seq<Option<T>>)
    requires i <= |prefilled|
  {
    && (forall k :: 0 <= k < i ==> 0 <= Place(prefilled, k) < |a| && a[Place(prefilled, k)] == Some(prefilled[k].tx))
    && (forall p :: Place(prefilled, i - 1) < p < |a| ==> a[p].None?)
    && FreeCount(a) == |a| - i
  }

  /** A transaction sent in full is acceptable: there, and with a place up to which all are accounted for. */
  predicate Acceptable<T>(c: Compact<T>, isNull: T -> bool, i: nat)
    requires i < |c.prefilled|
  {
    && !isNull(c.prefilled[i].tx)
    && Place(c.prefilled, i) <= MAX_INDEX && Place(c.prefilled, i) <= |c.shortIds| + i
  }

  /** Puts the transactions sent in full into their places; no message makes it leave the block. */
  method PlacePrefilled<T>(c: Compact<T>, isNull: T -> bool) returns (ok: bool, a: seq<Option<T>>)
    ensures ok <==> forall i :: 0 <= i < |c.prefilled| ==> Acceptable(c, isNull, i)
    ensures ok ==> |a| == c.TxCount() && Laid(c.prefilled, |c.prefilled|, a)
    ensures ok ==> Place(c.prefilled, |c.prefilled| - 1) <= MAX_INDEX
  {
    hide FreeCount;
    a := seq(c.TxCount(), _ => None);
    AllFree(a);
    var last := -1;
    for i := 0 to |c.prefilled|
      invariant |a| == c.TxCount() && last == Place(c.prefilled, i - 1) && -1 <= last <= MAX_INDEX
      invariant Laid(c.prefilled, i, a) && forall k :: 0 <= k < i ==> Place(c.prefilled, k) <= last
      invariant forall k :: 0 <= k < i ==> Acceptable(c, isNull, k)
    {
      assert Place(c.prefilled, i) == last + c.prefilled[i].index + 1;
      if isNull(c.prefilled[i].tx) {
        assert !Acceptable(c, isNull, i);
        return false, a;
      }
      last := last + c.prefilled[i].index + 1;
      if last > MAX_INDEX {
        assert !Acceptable(c, isNull, i);
        return false, a;
      }
      if last > |c.shortIds| + i {
        assert !Acceptable(c, isNull, i);
        return false, a;
      }
      FreeFill(a, last, Some(c.prefilled[i].tx));
      a := a[last := Some(c.prefilled[i].tx)];
    }
    ok := true;
  }

  /** Short ids and the places of the transactions they stand for. */
  ghost predicate Mapped<T>(ids: seq<nat>, i: nat, a: seq<Option<T>>, m: map<nat, nat>)
    requires i <= |ids|
  {
    && (forall k :: 0 <= k < i ==> ids[k] in m)
    && (forall id :: id in m ==> exists k :: 0 <= k < i && ids[k] == id && IsSlot(a, k, m[id]))
  }

  /** The place of the i-th short id as the map keeps it, in 16 bits. */
  ghost predicate IsKept<T>(a: seq<Option<T>>, i: nat, q: nat) {
    exists p: nat :: IsSlot(a, i, p) && q == InWord(p)
  }

  ghost predicate Kept<T>(ids: seq<nat>, i: nat, a: seq<Option<T>>, m: map<nat, nat>)
    requires i <= |ids|
  {
    && (forall k :: 0 <= k < i ==> ids[k] in m)
    && (forall id :: id in m ==> exists k :: 0 <= k < i && ids[k] == id && IsKept(a, k, m[id]))
  }

  /** Transactions sent in full have 16-bit places. */
  ghost predicate FreeBeyond<T>(a: seq<Option<T>>) { forall p :: MAX_INDEX < p < |a| ==> a[p].None? }

  /** No place that a 16-bit number stands for is free. */
  ghost predicate AllTaken<T>(a: seq<Option<T>>) { |a| >= PLACES && forall p :: 0 <= p < PLACES ==> a[p].Some? }

  /** How the search for the places of the short ids ends; one that goes round in circles does not. */
  datatype Scan = Done | Clash | Endless

  /** Finds the place of every short id, past the transactions sent in full. */
  method MapShortIds<T>(ids: seq<nat>, a: seq<Option<T>>, overfull: nat -> bool) returns (scan: Scan, m: map<nat, nat>)
    requires FreeCount(a) == |ids| && FreeBeyond(a)
    ensures scan == Done ==> Kept(ids, |ids|, a, m) && |m| == |ids|
    ensures scan == if ids != [] && AllTaken(a) then Endless
                    else if Distinct(ids) && forall i :: 0 <= i < |ids| ==> !overfull(i) then Done
                    else Clash
  {
    hide FreeCount, Kept, Distinct;
    m := map[];
    var offset: nat := 0;
    MapStart(ids, a);
    for i := 0 to |ids|
      invariant i + offset <= |a| && FreeCount(a[..i + offset]) == i && offset <= MAX_INDEX && (i > 0 ==> !AllTaken(a))
      invariant Kept(ids, i, a, m) && m.Keys == Elements(ids[..i])
      invariant forall k :: 0 <= k < i ==> !overfull(k)
    {
      NotPast(a, i + offset);
      while a[i + offset].Some?
        invariant i + offset < |a| && FreeCount(a[..i + offset]) == i && offset <= MAX_INDEX
        decreases |a| - offset
      {
        FreeNext(a, i + offset);
        if offset == MAX_INDEX { // the next one is 0 again, and the search starts over
          NoneFreeBelow(a, PLACES);
          return Endless, m;
        }
        offset := offset + 1;
        NotPast(a, i + offset);
      }
      assert i == 0 ==> !AllTaken(a);
      FreeNext(a, i + offset);
      MapStep(ids, i, a, m, i + offset);
      m := m[ids[i] := InWord(i + offset)];
      if overfull(i) {
        return Clash, m;
      }
    }
    assert ids[..|ids|] == ids;
    DistinctCount(ids);
    KeyCount(m);
    scan := if |m| == |ids| then Done else Clash;
  }

  lemma NoneFreeBelow<T>(a: seq<Option<T>>, n: nat)
    requires n <= |a| && FreeCount(a[..n]) == 0
    ensures forall p :: 0 <= p < n ==> a[p].Some?
  {
    forall p | 0 <= p < n ensures a[p].Some? {
      FreeUpTo(a[..n], p);
    }
  }

  lemma {:induction false} AllFreeFrom<T>(a: seq<Option<T>>, p: nat, q: nat)
    requires p <= q <= |a| && forall k :: p <= k < q ==> a[k].None?
    ensures FreeCount(a[..q]) == FreeCount(a[..p]) + (q - p)
  {
    if p < q {
      AllFreeFrom(a, p, q - 1);
      FreeNext(a, q - 1);
    }
  }

  /** The search goes round in circles exactly if 65536 transactions were sent in full and there is a short id. */
  lemma EndlessExactly<T>(prefilled: seq<Prefilled<T>>, a: seq<Option<T>>)
    requires Laid(prefilled, |prefilled|, a) && Place(prefilled, |prefilled| - 1) <= MAX_INDEX
    ensures FreeBeyond(a)
    ensures AllTaken(a) <==> |prefilled| == PLACES
  {
    hide FreeCount;
    assert a[..|a|] == a;
    NoneFree(a);
    FreeGrows(a, 0, |a|);
    if |a| >= PLACES {
      AllFreeFrom(a, PLACES, |a|);
      if |prefilled| == PLACES {
        NoneFreeBelow(a, PLACES);
      }
      if AllTaken(a) {
        NoFree(a, PLACES);
      }
    }
    FreeGrows(a, 0, if |a| < PLACES then |a| else PLACES);
  }

  lemma {:induction false} NoFree<T>(a: seq<Option<T>>, n: nat)
    requires n <= |a| && forall k :: 0 <= k < n ==> a[k].Some?
    ensures FreeCount(a[..n]) == 0
  {
    if n > 0 {
      NoFree(a, n - 1);
      FreeNext(a, n - 1);
    }
  }

  /** Every short id has its own free place exactly if 16 bits are enough for all places. */
  lemma OwnPlaces<T>(ids: seq<nat>, a: seq<Option<T>>, m: map<nat, nat>)
    requires FreeCount(a) == |ids| && FreeBeyond(a) && Distinct(ids) && Kept(ids, |ids|, a, m)
    ensures Mapped(ids, |ids|, a, m) <==> |a| <= PLACES
  {
    hide FreeCount, InWord;
    if |a| <= PLACES {
      forall id | id in m ensures exists k :: 0 <= k < |ids| && ids[k] == id && IsSlot(a, k, m[id]) {
        var k :| 0 <= k < |ids| && ids[k] == id && IsKept(a, k, m[id]);
        var p: nat :| IsSlot(a, k, p) && m[id] == InWord(p);
      }
    } else {
      LastPlace(ids, a, m);
      var last := |ids| - 1;
      if Mapped(ids, |ids|, a, m) {
        var k :| 0 <= k < |ids| && ids[k] == ids[last] && IsSlot(a, k, m[ids[last]]);
        assert k == last;
        SlotUnique(a, last, m[ids[last]], |a| - 1);
      }
    }
  }

  /** The last short id belongs to the last place; beyond 16 bits it gets another one. */
  lemma LastPlace<T>(ids: seq<nat>, a: seq<Option<T>>, m: map<nat, nat>)
    requires FreeCount(a) == |ids| && FreeBeyond(a) && Distinct(ids) && Kept(ids, |ids|, a, m) && |a| > PLACES
    ensures |ids| > 0 && IsSlot(a, |ids| - 1, |a| - 1)
    ensures ids[|ids| - 1] in m && m[ids[|ids| - 1]] == InWord(|a| - 1)
  {
    hide FreeCount, InWord;
    assert a[..|a|] == a;
    FreeNext(a, |a| - 1);
    var last := |ids| - 1;
    assert ids[last] in m;
    var k :| 0 <= k < |ids| && ids[k] == ids[last] && IsKept(a, k, m[ids[last]]);
    assert k == last;
    var p: nat :| IsSlot(a, k, p) && m[ids[last]] == InWord(p);
    SlotUnique(a, last, p, |a| - 1);
  }

  /** With one transaction sent in full and 65536 short ids, the last one gets the place of the former. */
  lemma TakenPlace<T>(ids: seq<nat>, a: seq<Option<T>>, m: map<nat, nat>)
    requires |a| == PLACES + 1 && a[0].Some? && (forall p :: 0 < p < |a| ==> a[p].None?)
    requires |ids| == PLACES && Distinct(ids) && Kept(ids, |ids|, a, m)
    ensures ids[PLACES - 1] in m && m[ids[PLACES - 1]] == 0 && a[0].Some?
  {
    hide FreeCount, InWord;
    assert a[..|a|] == a;
    FirstTaken(a, |a|);
    LastPlace(ids, a, m);
  }

  lemma KeyCount(m: map<nat, nat>)
    ensures |m| == |m.Keys|
  {
  }

  lemma MapStart<T>(ids: seq<nat>, a: seq<Option<T>>)
    ensures Kept(ids, 0, a, map[]) && FreeCount(a[..0]) == 0 && Elements(ids[..0]) == {}
  {
  }

  /** While short ids are left, so are free places. */
  lemma NotPast<T>(a: seq<Option<T>>, p: nat)
    requires p <= |a| && FreeCount(a[..p]) < FreeCount(a)
    ensures p < |a|
  {
    assert a[..|a|] == a;
  }

  lemma MapStep<T>(ids: seq<nat>, i: nat, a: seq<Option<T>>, m: map<nat, nat>, p: nat)
    requires i < |ids| && Kept(ids, i, a, m) && IsSlot(a, i, p)
    ensures Kept(ids, i + 1, a, m[ids[i] := InWord(p)]) && Elements(ids[..i + 1]) == Elements(ids[..i]) + {ids[i]}
  {
    hide IsSlot;
    var m' := m[ids[i] := InWord(p)];
    forall id | id in m' ensures exists k :: 0 <= k < i + 1 && ids[k] == id && IsKept(a, k, m'[id]) {
      if id == ids[i] {
        assert IsKept(a, i, m'[id]);
      } else {
        var k :| 0 <= k < i && ids[k] == id && IsKept(a, k, m[id]);
      }
    }
    assert ids[..i + 1] == ids[..i] + [ids[i]];
  }

  // The receiver's own transactions

  /** A transaction among the receiver's own has the short id of a place. */
  ghost predicate Explains<H, T>(e: Entry<H, T>, shortId: H -> nat, m: map<nat, nat>, p: nat, tx: T) {
    shortId(e.hash) in m && m[shortId(e.hash)] == p && e.tx == tx
  }

  /**
   The places that were free hold own transactions with the right short id, or nothing; the count
   is exact.
   */
  ghost predicate Matched<H(!new), T>(layout: seq<Option<T>>, a: seq<Option<T>>, m: map<nat, nat>, shortId: H -> nat,
                                      own: seq<Entry<H, T>>, have: seq<bool>, count: int)
  {
    && |a| == |layout| == |have| && count == FreeCount(layout) - FreeCount(a)
    && (forall p :: 0 <= p < |a| && layout[p].Some? ==> a[p] == layout[p])
    && (forall p :: 0 <= p < |a| && layout[p].None? && a[p].Some? ==>
          have[p] && exists e :: e in own && Explains(e, shortId, m, p, a[p].value))
  }

  ghost predicate OnlySlots<T>(layout: seq<Option<T>>, m: map<nat, nat>) {
    forall id :: id in m ==> m[id] < |layout| && layout[m[id]].None?
  }

  lemma MatchStart<H(!new), T>(layout: seq<Option<T>>, m: map<nat, nat>, shortId: H -> nat, own: seq<Entry<H, T>>)
    ensures Matched(layout, layout, m, shortId, own, seq(|layout|, _ => false), 0)
  {
  }

  lemma MatchTake<H(!new), T>(layout: seq<Option<T>>, a: seq<Option<T>>, m: map<nat, nat>, shortId: H -> nat,
                              own: seq<Entry<H, T>>, have: seq<bool>, count: int, e: Entry<H, T>)
    requires Matched(layout, a, m, shortId, own, have, count) && OnlySlots(layout, m)
    requires e in own && shortId(e.hash) in m && !have[m[shortId(e.hash)]]
    ensures var p := m[shortId(e.hash)];
            Matched(layout, a[p := Some(e.tx)], m, shortId, own, have[p := true], count + 1)
  {
    var p := m[shortId(e.hash)];
    FreeFill(a, p, Some(e.tx));
    assert Explains(e, shortId, m, p, e.tx);
  }

  lemma MatchReset<H(!new), T>(layout: seq<Option<T>>, a: seq<Option<T>>, m: map<nat, nat>, shortId: H -> nat,
                               own: seq<Entry<H, T>>, have: seq<bool>, count: int, id: nat)
    requires Matched(layout, a, m, shortId, own, have, count) && OnlySlots(layout, m)
    requires id in m && m[id] < |a| && a[m[id]].Some?
    ensures Matched(layout, a[m[id] := None], m, shortId, own, have, count - 1)
  {
    FreeFill(a, m[id], None);
  }

  /** An own transaction has the short id of a place. */
  predicate Match<H, T>(e: Entry<H, T>, shortId: H -> nat, m: map<nat, nat>, p: nat) {
    shortId(e.hash) in m && m[shortId(e.hash)] == p
  }

  ghost predicate SomeMatch<H, T>(own: seq<Entry<H, T>>, shortId: H -> nat, m: map<nat, nat>, p: nat) {
    exists i :: 0 <= i < |own| && Match(own[i], shortId, m, p)
  }

  ghost predicate TwoMatch<H, T>(own: seq<Entry<H, T>>, shortId: H -> nat, m: map<nat, nat>, p: nat) {
    exists i, j :: 0 <= i < j < |own| && Match(own[i], shortId, m, p) && Match(own[j], shortId, m, p)
  }

  /** A place is filled by a transaction that matches, and left free only if none does, or more than one. */
  ghost predicate Tried<H, T>(layout: seq<Option<T>>, a: seq<Option<T>>, m: map<nat, nat>, shortId: H -> nat,
                              own: seq<Entry<H, T>>, have: seq<bool>)
  {
    |a| == |have| == |layout| && forall p :: 0 <= p < |a| && layout[p].None? ==>
      if a[p].Some? then have[p] && SomeMatch(own, shortId, m, p)
      else if have[p] then TwoMatch(own, shortId, m, p)
      else !SomeMatch(own, shortId, m, p)
  }

  lemma TriedStart<H, T>(layout: seq<Option<T>>, m: map<nat, nat>, shortId: H -> nat)
    ensures Tried(layout, layout, m, shortId, [], seq(|layout|, _ => false))
  {
  }

  lemma MatchOneMore<H, T>(own: seq<Entry<H, T>>, e: Entry<H, T>, shortId: H -> nat, m: map<nat, nat>, p: nat)
    ensures SomeMatch(own + [e], shortId, m, p) <==> SomeMatch(own, shortId, m, p) || Match(e, shortId, m, p)
    ensures TwoMatch(own, shortId, m, p) || (SomeMatch(own, shortId, m, p) && Match(e, shortId, m, p)) ==>
              TwoMatch(own + [e], shortId, m, p)
  {
    hide Match;
    var more := own + [e];
    assert more[|own|] == e && forall i :: 0 <= i < |own| ==> more[i] == own[i];
    if SomeMatch(own, shortId, m, p) {
      var i :| 0 <= i < |own| && Match(own[i], shortId, m, p);
      assert Match(more[i], shortId, m, p);
    }
    if TwoMatch(own, shortId, m, p) {
      var i, j :| 0 <= i < j < |own| && Match(own[i], shortId, m, p) && Match(own[j], shortId, m, p);
      assert Match(more[i], shortId, m, p) && Match(more[j], shortId, m, p);
    }
  }

  /** One more own transaction is looked at. */
  lemma TriedOn<H, T>(layout: seq<Option<T>>, a: seq<Option<T>>, a': seq<Option<T>>, m: map<nat, nat>,
                      shortId: H -> nat,
                      own: seq<Entry<H, T>>, e: Entry<H, T>, have: seq<bool>, have': seq<bool>)
    requires Tried(layout, a, m, shortId, own, have) && |a'| == |a| == |have'|
    requires forall p :: 0 <= p < |a| && layout[p].None? ==>
               if !Match(e, shortId, m, p) then a'[p] == a[p] && have'[p] == have[p]
               else have'[p] && (if have[p] then a[p].None? ==> a'[p].None? else a'[p].Some?)
    ensures Tried(layout, a', m, shortId, own + [e], have')
  {
    hide Match, SomeMatch, TwoMatch;
    forall p: nat | p < |a| ensures SomeMatch(own + [e], shortId, m, p) <==>
      SomeMatch(own, shortId, m, p) || Match(e, shortId, m, p)
      ensures TwoMatch(own, shortId, m, p) || (SomeMatch(own, shortId, m, p) && Match(e, shortId, m, p)) ==>
                TwoMatch(own + [e], shortId, m, p)
    {
      MatchOneMore(own, e, shortId, m, p);
    }
    forall p: nat | p < |a| && layout[p].None? && have[p] ensures SomeMatch(own, shortId, m, p) {
      TwoIsSome(own, shortId, m, p);
    }
  }

  lemma TwoIsSome<H, T>(own: seq<Entry<H, T>>, shortId: H -> nat, m: map<nat, nat>, p: nat)
    ensures TwoMatch(own, shortId, m, p) ==> SomeMatch(own, shortId, m, p)
  {
  }

  /** Once every place is filled there is nothing more to look for. */
  lemma {:induction false} TriedWhenFull<H, T>(layout: seq<Option<T>>, a: seq<Option<T>>, m: map<nat, nat>,
                                               shortId: H -> nat,
                                               own: seq<Entry<H, T>>, rest: seq<Entry<H, T>>, have: seq<bool>)
    requires Tried(layout, a, m, shortId, own, have) && FreeCount(a) == 0
    ensures Tried(layout, a, m, shortId, own + rest, have)
  {
    hide Match, FreeCount;
    forall p: nat | p < |a| ensures a[p].Some? { FreeUpTo(a, p); }
    forall p: nat | p < |a| && SomeMatch(own, shortId, m, p) ensures SomeMatch(own + rest, shortId, m, p) {
      var i :| 0 <= i < |own| && Match(own[i], shortId, m, p);
      assert (own + rest)[i] == own[i];
    }
  }

  /**
   Looks for own transactions; two with the same short id leave the place to be asked for. What
   the places are filled with is right if the short ids have free places of their own.
   */
  method MatchOwn<H(!new), T>(ghost layout: seq<Option<T>>, a0: seq<Option<T>>, m: map<nat, nat>, shortId: H -> nat,
                              ghost before: seq<Entry<H, T>>, ghost own: seq<Entry<H, T>>, have0: seq<bool>,
                              count0: int,
                              entries: seq<Entry<H, T>>, same: (T, T) -> bool, ghost sound: bool)
    returns (a: seq<Option<T>>, have: seq<bool>, count: int)
    requires |a0| == |have0| && forall id :: id in m ==> m[id] < |a0|
    requires sound ==> OnlySlots(layout, m) && |m| == FreeCount(layout)
    requires sound ==> Matched(layout, a0, m, shortId, own, have0, count0)
    requires sound ==> Tried(layout, a0, m, shortId, before, have0)
    requires forall e :: e in entries ==> e in own
    ensures |a| == |have| == |a0|
    ensures sound ==> Matched(layout, a, m, shortId, own, have, count)
    ensures sound ==> Tried(layout, a, m, shortId, before + entries, have)
    ensures forall p :: 0 <= p < |a| && p !in m.Values ==> a[p] == a0[p]
  {
    hide Matched, FreeCount, Tried, OnlySlots;
    a, have, count := a0, have0, count0;
    assert before + entries[..0] == before && entries[..|entries|] == entries;
    for i := 0 to |entries|
      invariant |a| == |have| == |a0| && forall p :: 0 <= p < |a| && p !in m.Values ==> a[p] == a0[p]
      invariant sound ==> Matched(layout, a, m, shortId, own, have, count)
      invariant sound ==> Tried(layout, a, m, shortId, before + entries[..i], have)
    {
      var shortid := shortId(entries[i].hash);
      ghost var a1, have1 := a, have;
      if sound {
        MatchSizes(layout, a, m, shortId, own, have, count);
      }
      if shortid in m {
        var p := m[shortid];
        assert p in m.Values;
        if !have[p] {
          if sound {
            MatchTake(layout, a, m, shortId, own, have, count, entries[i]);
          }
          a, have, count := a[p := Some(entries[i].tx)], have[p := true], count + 1;
        } else if a[p].Some? && !same(a[p].value, entries[i].tx) {
          if sound {
            MatchReset(layout, a, m, shortId, own, have, count, shortid);
          }
          a, count := a[p := None], count - 1;
        }
      }
      if sound {
        TriedOn(layout, a1, a, m, shortId, before + entries[..i], entries[i], have1, have);
      }
      assert before + entries[..i + 1] == before + entries[..i] + [entries[i]];
      if count == |m| {
        if sound {
          MatchCount(layout, a, m, shortId, own, have, count);
          TriedWhenFull(layout, a, m, shortId, before + entries[..i + 1], entries[i + 1..], have);
        }
        assert before + entries == before + entries[..i + 1] + entries[i + 1..];
        return;
      }
    }
  }

  lemma MatchCount<H(!new), T>(layout: seq<Option<T>>, a: seq<Option<T>>, m: map<nat, nat>, shortId: H -> nat,
                               own: seq<Entry<H, T>>, have: seq<bool>, count: int)
    requires Matched(layout, a, m, shortId, own, have, count)
    ensures count == FreeCount(layout) - FreeCount(a)
  {
  }

  lemma MatchSizes<H(!new), T>(layout: seq<Option<T>>, a: seq<Option<T>>, m: map<nat, nat>, shortId: H -> nat,
                               own: seq<Entry<H, T>>, have: seq<bool>, count: int)
    requires Matched(layout, a, m, shortId, own, have, count)
    ensures |a| == |layout| == |have|
  {
  }

  lemma KeptWithin<T>(ids: seq<nat>, a: seq<Option<T>>, m: map<nat, nat>)
    requires Kept(ids, |ids|, a, m)
    ensures forall id :: id in m ==> m[id] < |a| && m[id] < PLACES
  {
    hide FreeCount, InWord;
    forall id | id in m ensures m[id] < |a| && m[id] < PLACES {
      var k :| 0 <= k < |ids| && ids[k] == id && IsKept(a, k, m[id]);
      var p: nat :| IsSlot(a, k, p) && m[id] == InWord(p);
    }
  }

  lemma SlotsOnly<T>(ids: seq<nat>, layout: seq<Option<T>>, m: map<nat, nat>)
    requires Mapped(ids, |ids|, layout, m)
    ensures OnlySlots(layout, m)
  {
    forall id | id in m ensures m[id] < |layout| && layout[m[id]].None? {
      var k :| 0 <= k < |ids| && ids[k] == id && IsSlot(layout, k, m[id]);
    }
  }

  /** What becomes of a compact block message. */
  ghost function Started<T>(c: Compact<T>, isNull: T -> bool, overfull: nat -> bool): ReadStatus {
    if c.headerIsNull || c.TxCount() == 0 || c.TxCount() > MAX_TRANSACTIONS then Invalid
    else if !(forall i :: 0 <= i < |c.prefilled| ==> Acceptable(c, isNull, i)) then Invalid
    else if |c.prefilled| == PLACES && c.shortIds != [] then NeverReturns
    else if Distinct(c.shortIds) && forall i :: 0 <= i < |c.shortIds| ==> !overfull(i) then Okay
    else Failed
  }

  lemma {:induction false} PlaceOfFirst<T>(prefilled: seq<Prefilled<T>>, k: int)
    requires -1 <= k < |prefilled| && forall i :: 0 <= i < |prefilled| ==> prefilled[i].index == 0
    ensures Place(prefilled, k) == k
    decreases k + 1
  {
    if k >= 0 {
      PlaceOfFirst(prefilled, k - 1);
    }
  }

  /** A message of 65536 transactions in full and one short id. */
  lemma NeverReturning<T>(x: T, id: nat, isNull: T -> bool, overfull: nat -> bool)
    requires !isNull(x)
    ensures Started(Compact(false, [id], seq(PLACES, _ => Prefilled(0, x))), isNull, overfull) == NeverReturns
  {
    var c := Compact(false, [id], seq(PLACES, _ => Prefilled(0, x)));
    forall i | 0 <= i < |c.prefilled| ensures Acceptable(c, isNull, i) {
      PlaceOfFirst(c.prefilled, i);
    }
  }

  datatype Check = Sound | Corrupt | Bad

  class PartialBlock<H(==, !new), T(==)> {
    var headerIsNull: bool
    var available: seq<Option<T>>
    var prefilledCount: nat
    var mempoolCount: int

    constructor ()
      ensures headerIsNull && available == []
    {
      headerIsNull, available, prefilledCount, mempoolCount := true, [], 0, 0;
    }

    /**
     Starts rebuilding a block; `layout` is what it looks like with the transactions sent in full.
     Up to 65536 transactions, free places are filled with own transactions that match; beyond,
     the map does not lead to the right places, and the last places stay free.
     */
    method InitData(c: Compact<T>, pool: seq<Entry<H, T>>, extra: seq<Entry<H, T>>, shortId: H -> nat,
                    witnessHash: T -> H, isNull: T -> bool, overfull: nat -> bool)
      returns (status: ReadStatus, ghost layout: seq<Option<T>>, ghost m: map<nat, nat>)
      requires headerIsNull && available == []
      modifies this
      ensures status == Started(c, isNull, overfull)
      ensures status == Okay ==>
                && !headerIsNull && |available| == |layout| == c.TxCount() && Laid(c.prefilled, |c.prefilled|, layout)
                && Distinct(c.shortIds) && Kept(c.shortIds, |c.shortIds|, layout, m)
                && (Mapped(c.shortIds, |c.shortIds|, layout, m) <==> c.TxCount() <= PLACES)
                && FreeBeyond(available)
      ensures status == Okay && c.TxCount() <= PLACES ==>
                exists have :: && Matched(layout, available, m, shortId, pool + extra, have, mempoolCount)
                               && Tried(layout, available, m, shortId, pool + extra, have)
    {
      hide Matched, FreeCount, Laid, Kept, Mapped, Distinct, OnlySlots, Tried, Acceptable, AllTaken;
      layout, m := [], map[];
      if c.headerIsNull || (c.shortIds == [] && c.prefilled == []) {
        return Invalid, layout, m;
      }
      if |c.shortIds| + |c.prefilled| > MAX_TRANSACTIONS {
        return Invalid, layout, m;
      }
      headerIsNull := false;
      var ok, a := PlacePrefilled(c, isNull);
      if !ok {
        return Invalid, layout, m;
      }
      prefilledCount := |c.prefilled|;
      layout := a;
      LaidFree(c.prefilled, a);
      EndlessExactly(c.prefilled, a);
      var scan, places := MapShortIds(c.shortIds, a, overfull);
      if scan != Done {
        return if scan == Endless then NeverReturns else Failed, layout, m;
      }
      m := places;
      ghost var sound := c.TxCount() <= PLACES;
      OwnPlaces(c.shortIds, a, places);
      KeptWithin(c.shortIds, a, places);
      if sound {
        SlotsOnly(c.shortIds, a, places);
      }
      var have, count := seq(|a|, _ => false), 0;
      MatchStart(a, places, shortId, pool + extra);
      TriedStart(a, places, shortId);
      assert [] + pool == pool;
      var a1, have1, count1 := MatchOwn(a, a, places, shortId, [], pool + extra, have, count, pool, (_, _) => false,
                                 sound);
      var a2, have2, count2 := MatchOwn(a, a1, places, shortId, pool, pool + extra, have1, count1, extra,
                                        (x, y) => witnessHash(x) == witnessHash(y), sound);
      available, mempoolCount := a2, count2;
      assert sound ==> Matched(layout, available, m, shortId, pool + extra, have2, mempoolCount);
      status := Okay;
    }

    /** The indexes of the transactions to ask for, in 16 bits. */
    method MissingIndexes() returns (indexes: seq<nat>)
      ensures SixteenBits(indexes) && |indexes| == FreeCount(available)
      ensures forall p: nat :: p < |available| && available[p].None? ==>
                FreeCount(available[..p]) < |indexes| && indexes[FreeCount(available[..p])] == InWord(p)
      ensures |available| <= PLACES ==>
                Increasing(indexes) && forall k :: 0 <= k < |indexes| ==>
                  indexes[k] < |available| && available[indexes[k]].None?
    {
      hide FreeCount, InWord;
      indexes := [];
      ghost var places: seq<nat> := [];
      NoneFree(available);
      for i := 0 to |available|
        invariant Increasing(places) && |indexes| == |places| == FreeCount(available[..i])
        invariant forall k :: 0 <= k < |places| ==>
                    places[k] < i && available[places[k]].None? && indexes[k] == InWord(places[k])
        invariant forall p: nat :: p < i && available[p].None? ==>
                    FreeCount(available[..p]) < |indexes| && indexes[FreeCount(available[..p])] == InWord(p)
      {
        FreeNext(available, i);
        if available[i].None? {
          indexes, places := indexes + [InWord(i)], places + [i];
        }
      }
      assert available[..|available|] == available;
      assert |available| <= PLACES ==> indexes == places;
    }

    /** Merges in the transactions that were asked for, and checks the result. */
    method FillBlock(missing: seq<T>, check: seq<T> -> Check) returns (status: ReadStatus, vtx: seq<T>)
      requires !headerIsNull
      modifies this
      ensures status == Invalid <==> |missing| != old(FreeCount(available))
      ensures status != Invalid ==> headerIsNull && |vtx| == old(|available|)
      ensures status != Invalid ==> forall p: nat :: p < |vtx| ==>
                vtx[p] == if old(available)[p].Some? then old(available)[p].value
                          else missing[(FreeUpTo(old(available), p); FreeCount(old(available)[..p]))]
      ensures status != Invalid ==>
                status == match check(vtx) case Sound => Okay case Corrupt => Failed case Bad => CheckBlockFailed
    {
      hide FreeCount;
      ghost var before := available;
      vtx := [];
      var offset: nat := 0;
      NoneFree(before);
      for i := 0 to |available|
        invariant !headerIsNull && |available| == |before| && forall k :: i <= k < |before| ==>
                    available[k] == before[k]
        invariant |vtx| == i && offset == FreeCount(before[..i]) <= |missing|
        invariant forall p: nat :: p < i && before[p].None? ==> FreeCount(before[..p]) < offset
        invariant forall p: nat :: p < i ==>
                    vtx[p] == if before[p].Some? then before[p].value else missing[FreeCount(before[..p])]
      {
        FreeNext(before, i);
        FreeUpTo(before, i);
        if available[i].None? {
          if |missing| <= offset {
            return Invalid, vtx;
          }
          vtx := vtx + [missing[offset]];
          offset := offset + 1;
        } else {
          vtx := vtx + [available[i].value];
          available := available[i := None]; // moved from
        }
      }
      assert before[..|before|] == before;
      headerIsNull, available := true, [];
      if |missing| != offset {
        return Invalid, vtx;
      }
      var checked := check(vtx);
      match checked {
        case Sound => status := Okay;
        case Corrupt => status := Failed;
        case Bad => status := CheckBlockFailed;
      }
    }
  }

  lemma NoneFree<T>(a: seq<Option<T>>)
    ensures FreeCount(a[..0]) == 0
  {
  }

  lemma FreeUpTo<T>(a: seq<Option<T>>, p: nat)
    requires p < |a|
    ensures a[p].None? ==> FreeCount(a[..p]) < FreeCount(a)
  {
    FreeNext(a, p);
    FreeGrows(a, p + 1, |a|);
    assert a[..|a|] == a;
  }

  /** Answers a request from a block; indexes outside the block are refused. */
  method SendBlockTransactions<T>(vtx: seq<T>, indexes: seq<nat>) returns (r: Option<seq<T>>)
    ensures r.None? <==> exists k :: 0 <= k < |indexes| && indexes[k] >= |vtx|
    ensures r.Some? ==> |r.value| == |indexes| && forall k :: 0 <= k < |indexes| ==> r.value[k] == vtx[indexes[k]]
  {
    var txn := [];
    for i := 0 to |indexes|
      invariant |txn| == i && forall k :: 0 <= k < i ==> indexes[k] < |vtx| && txn[k] == vtx[indexes[k]]
    {
      if indexes[i] >= |vtx| {
        return None;
      }
      txn := txn + [vtx[indexes[i]]];
    }
    r := Some(txn);
  }

  // From end to end

  /** The receiver's own transactions have the short id of one of the block's only if they are that one. */
  ghost predicate NoFalseMatch<H(!new), T>(vtx: seq<T>, hashOf: T -> H, shortId: H -> nat, own: seq<Entry<H, T>>) {
    forall e, i :: e in own && 0 < i < |vtx| && shortId(e.hash) == shortId(hashOf(vtx[i])) ==> e.tx == vtx[i]
  }

  /** What is there after matching is the block's own. */
  lemma MatchedIsRight<H(!new), T>(vtx: seq<T>, c: Compact<T>, hashOf: T -> H, shortId: H -> nat, own: seq<Entry<H, T>>,
                                   layout: seq<Option<T>>, a: seq<Option<T>>, m: map<nat, nat>, have: seq<bool>,
                                   count: int, p: nat)
    requires |vtx| > 0 && c.prefilled == [Prefilled(0, vtx[0])] && |c.shortIds| == |vtx| - 1
    requires forall i :: 0 <= i < |c.shortIds| ==> c.shortIds[i] == shortId(hashOf(vtx[i + 1]))
    requires |layout| == |vtx| && Laid(c.prefilled, 1, layout) && Mapped(c.shortIds, |c.shortIds|, layout, m)
    requires Matched(layout, a, m, shortId, own, have, count) && NoFalseMatch(vtx, hashOf, shortId, own)
    requires p < |a| && a[p].Some?
    ensures p < |vtx| && a[p].value == vtx[p]
  {
    assert Place(c.prefilled, -1) == -1 && Place(c.prefilled, 0) == 0;
    assert layout[Place(c.prefilled, 0)] == Some(c.prefilled[0].tx);
    if p > 0 {
      assert layout[p].None?;
      var e :| e in own && Explains(e, shortId, m, p, a[p].value);
      var k :| 0 <= k < |c.shortIds| && c.shortIds[k] == shortId(e.hash) && IsSlot(layout, k, m[shortId(e.hash)]);
      FirstTaken(layout, p);
      assert k + 1 == p;
    }
  }

  /** With only the first place taken, the others are free in order. */
  lemma FirstTaken<T>(layout: seq<Option<T>>, p: nat)
    requires 0 < p <= |layout| && layout[0].Some? && forall k :: 0 < k < |layout| ==> layout[k].None?
    ensures FreeCount(layout[..p]) == p - 1
  {
    if p > 1 {
      FirstTaken(layout, p - 1);
      FreeNext(layout, p - 1);
    } else {
      FreeNext(layout, 0);
      NoneFree(layout);
    }
  }

  ghost predicate IdsDiffer<H, T>(vtx: seq<T>, hashOf: T -> H, shortId: H -> nat) {
    forall i, j :: 0 < i < j < |vtx| ==> shortId(hashOf(vtx[i])) != shortId(hashOf(vtx[j]))
  }

  lemma IdsDistinct<H, T>(vtx: seq<T>, ids: seq<nat>, hashOf: T -> H, shortId: H -> nat)
    requires |ids| == |vtx| - 1 && forall i :: 0 <= i < |ids| ==> ids[i] == shortId(hashOf(vtx[i + 1]))
    ensures Distinct(ids) <==> IdsDiffer(vtx, hashOf, shortId)
  {
    if Distinct(ids) {
      forall i, j | 0 < i < j < |vtx| ensures shortId(hashOf(vtx[i])) != shortId(hashOf(vtx[j])) {
        assert ids[i - 1] != ids[j - 1];
      }
    }
  }

  /** No own transaction has the short id, or more than one has. */
  ghost predicate Needed<H, T>(own: seq<Entry<H, T>>, shortId: H -> nat, id: nat) {
    || (forall i :: 0 <= i < |own| ==> shortId(own[i].hash) != id)
    || (exists i, j :: 0 <= i < j < |own| && shortId(own[i].hash) == shortId(own[j].hash) == id)
  }

  /** Nothing is asked for that could have been had. */
  lemma AskedIsNeeded<H(!new), T>(vtx: seq<T>, c: Compact<T>, hashOf: T -> H, shortId: H -> nat, own: seq<Entry<H, T>>,
                                  layout: seq<Option<T>>, a: seq<Option<T>>, m: map<nat, nat>, have: seq<bool>,
                                  count: int, p: nat)
    requires |vtx| > 0 && c.prefilled == [Prefilled(0, vtx[0])] && |c.shortIds| == |vtx| - 1
    requires forall i :: 0 <= i < |c.shortIds| ==> c.shortIds[i] == shortId(hashOf(vtx[i + 1]))
    requires |layout| == |vtx| && Laid(c.prefilled, 1, layout) && Mapped(c.shortIds, |c.shortIds|, layout, m) &&
               Distinct(c.shortIds)
    requires Matched(layout, a, m, shortId, own, have, count) && Tried(layout, a, m, shortId, own, have)
    requires p < |a| && a[p].None?
    ensures 0 < p < |vtx| && Needed(own, shortId, shortId(hashOf(vtx[p])))
  {
    hide FreeCount;
    assert Place(c.prefilled, -1) == -1 && Place(c.prefilled, 0) == 0;
    assert layout[Place(c.prefilled, 0)] == Some(c.prefilled[0].tx);
    assert a[0] == layout[0] && p > 0;
    SlotOfId(vtx, c.shortIds, hashOf, shortId, layout, m, p);
    var id := shortId(hashOf(vtx[p]));
    forall i | 0 <= i < |own| ensures Match(own[i], shortId, m, p) <==> shortId(own[i].hash) == id {
      if Match(own[i], shortId, m, p) {
        var k :| 0 <= k < |c.shortIds| && c.shortIds[k] == shortId(own[i].hash) && IsSlot(layout, k, p);
        FirstTaken(layout, p);
      }
    }
  }

  lemma SlotOfId<H(!new), T>(vtx: seq<T>, ids: seq<nat>, hashOf: T -> H, shortId: H -> nat, layout: seq<Option<T>>,
                             m: map<nat, nat>, p: nat)
    requires |ids| == |vtx| - 1 && forall i :: 0 <= i < |ids| ==> ids[i] == shortId(hashOf(vtx[i + 1]))
    requires |layout| == |vtx| && layout[0].Some? && (forall k :: 0 < k < |layout| ==> layout[k].None?)
    requires Mapped(ids, |ids|, layout, m) && Distinct(ids) && 0 < p < |vtx|
    ensures shortId(hashOf(vtx[p])) in m && m[shortId(hashOf(vtx[p]))] == p
  {
    hide FreeCount;
    var id := shortId(hashOf(vtx[p]));
    assert ids[p - 1] == id;
    var k :| 0 <= k < |ids| && ids[k] == id && IsSlot(layout, k, m[id]);
    assert k == p - 1;
    var q := m[id];
    NoneFree(layout);
    if q > 0 {
      FirstTaken(layout, q);
    }
  }

  /** How the relay of a block ends: rebuilt, refused by the receiver, or with a request that gets no answer. */
  datatype Relayed<T> = Rebuilt(vtx: seq<T>) | Refused(status: ReadStatus) | Unanswered

  ghost predicate Relayable<H, T>(vtx: seq<T>, hashOf: T -> H, shortId: H -> nat, overfull: nat -> bool) {
    |vtx| <= PLACES && IdsDiffer(vtx, hashOf, shortId) && forall i :: 0 <= i < |vtx| - 1 ==> !overfull(i)
  }

  lemma CompactStarts<H, T>(vtx: seq<T>, c: Compact<T>, hashOf: T -> H, shortId: H -> nat, isNull: T -> bool,
                            overfull: nat -> bool)
    requires |vtx| > 0 && !isNull(vtx[0])
    requires c.prefilled == [Prefilled(0, vtx[0])] && |c.shortIds| == |vtx| - 1 && !c.headerIsNull
    requires forall i :: 0 <= i < |c.shortIds| ==> c.shortIds[i] == shortId(hashOf(vtx[i + 1]))
    ensures |vtx| <= PLACES ==>
              Started(c, isNull, overfull) == if Relayable(vtx, hashOf, shortId, overfull) then Okay else Failed
  {
    hide Distinct, IdsDiffer;
    IdsDistinct(vtx, c.shortIds, hashOf, shortId);
    assert Place(c.prefilled, -1) == -1 && Place(c.prefilled, 0) == 0;
    assert Acceptable(c, isNull, 0);
  }

  /** The free places beyond 16 bits are asked for by wrong indexes. */
  lemma WrongIndexes<T>(a: seq<Option<T>>, asked: seq<nat>)
    requires |a| > PLACES && FreeBeyond(a) && |asked| == FreeCount(a) && SixteenBits(asked)
    requires forall p: nat :: p < |a| && a[p].None? ==>
               FreeCount(a[..p]) < |asked| && asked[FreeCount(a[..p])] == InWord(p)
    ensures FreeCount(a[..PLACES]) < |asked| && asked[FreeCount(a[..PLACES])] == 0
    ensures Increasing(asked) ==> FreeCount(a[..PLACES]) == 0
  {
    hide FreeCount, InWord;
    assert a[PLACES].None?;
    if Increasing(asked) && FreeCount(a[..PLACES]) > 0 {
      assert asked[0] < asked[FreeCount(a[..PLACES])];
    }
  }

  /**
   A block sent compactly is rebuilt exactly, with what the receiver lacks sent on request, if and
   only if it has no more than 65536 transactions, different short ids, and no bucket is overfull.
   */
  method Relay<H(==, !new), T(==)>(vtx: seq<T>, hashOf: T -> H, shortId: H -> nat, pool: seq<Entry<H, T>>,
                                   extra: seq<Entry<H, T>>,
                                   isNull: T -> bool, overfull: nat -> bool, check: seq<T> -> Check)
    returns (r: Relayed<T>, asked: seq<nat>)
    requires 0 < |vtx| && !isNull(vtx[0]) && check(vtx) == Sound && (|vtx| > PLACES ==> vtx[PLACES] != vtx[0])
    requires NoFalseMatch(vtx, hashOf, shortId, pool + extra)
    ensures r == Rebuilt(vtx) <==> Relayable(vtx, hashOf, shortId, overfull)
    ensures |vtx| <= PLACES ==> r in {Rebuilt(vtx), Refused(Failed)}
    ensures |vtx| <= PLACES && r == Rebuilt(vtx) ==> forall k :: 0 <= k < |asked| ==>
              0 < asked[k] < |vtx| && Needed(pool + extra, shortId, shortId(hashOf(vtx[asked[k]])))
  {
    hide Matched, FreeCount, Laid, Kept, Mapped, NoFalseMatch, Distinct, IdsDiffer, Tried, Needed, Started, Increasing,
         Decoded, Relayable;
    asked := [];
    var c := MakeCompact(vtx, t => shortId(hashOf(t)));
    CompactStarts(vtx, c, hashOf, shortId, isNull, overfull);
    TooLargeToRelay(vtx, hashOf, shortId, overfull);
    var partial := new PartialBlock<H, T>();
    var status;
    ghost var layout, m;
    status, layout, m := partial.InitData(c, pool, extra, shortId, hashOf, isNull, overfull);
    if status != Okay {
      return Refused(status), asked;
    }
    ghost var a := partial.available;
    asked := partial.MissingIndexes();
    var diffs := EncodeIndexes(asked);
    Arrives(asked, diffs);
    if |vtx| <= PLACES {
      StartedRight(vtx, c, hashOf, shortId, pool + extra, layout, a, m, partial.mempoolCount, asked);
    } else {
      WrongIndexes(a, asked);
    }
    var decoded := DecodeIndexes(diffs);
    if decoded.None? {
      return Unanswered, asked;
    }
    var answer := SendBlockTransactions(vtx, decoded.value);
    if answer.None? {
      return Unanswered, asked;
    }
    var rebuilt;
    status, rebuilt := partial.FillBlock(answer.value, check);
    assert |vtx| <= PLACES ==> rebuilt == vtx;
    assert |vtx| > PLACES && status != Invalid ==> rebuilt[PLACES] == vtx[0];
    r := if status == Okay then Rebuilt(rebuilt) else Refused(status);
  }

  lemma TooLargeToRelay<H, T>(vtx: seq<T>, hashOf: T -> H, shortId: H -> nat, overfull: nat -> bool)
    ensures Relayable(vtx, hashOf, shortId, overfull) ==> |vtx| <= PLACES
  {
  }

  /** What is there is the block's own, and the rest is asked for with reason. */
  lemma StartedRight<H(!new), T>(vtx: seq<T>, c: Compact<T>, hashOf: T -> H, shortId: H -> nat, own: seq<Entry<H, T>>,
                                 layout: seq<Option<T>>, a: seq<Option<T>>, m: map<nat, nat>, count: int,
                                 asked: seq<nat>)
    requires |vtx| > 0 && c.prefilled == [Prefilled(0, vtx[0])] && |c.shortIds| == |vtx| - 1 && |vtx| <= PLACES
    requires forall i :: 0 <= i < |c.shortIds| ==> c.shortIds[i] == shortId(hashOf(vtx[i + 1]))
    requires |layout| == |vtx| && Laid(c.prefilled, 1, layout) && Mapped(c.shortIds, |c.shortIds|, layout, m)
    requires Distinct(c.shortIds) && NoFalseMatch(vtx, hashOf, shortId, own)
    requires exists have :: Matched(layout, a, m, shortId, own, have, count) && Tried(layout, a, m, shortId, own, have)
    requires forall k :: 0 <= k < |asked| ==> asked[k] < |a| && a[asked[k]].None?
    ensures |a| == |vtx| && forall p: nat :: p < |a| && a[p].Some? ==> a[p].value == vtx[p]
    ensures forall k :: 0 <= k < |asked| ==>
              0 < asked[k] < |vtx| && Needed(own, shortId, shortId(hashOf(vtx[asked[k]])))
  {
    hide Matched, FreeCount, Laid, Mapped, NoFalseMatch, Distinct, Tried, Needed;
    var have :| Matched(layout, a, m, shortId, own, have, count) && Tried(layout, a, m, shortId, own, have);
    MatchSizes(layout, a, m, shortId, own, have, count);
    forall p: nat | p < |a| && a[p].Some? ensures a[p].value == vtx[p] {
      MatchedIsRight(vtx, c, hashOf, shortId, own, layout, a, m, have, count, p);
    }
    forall k | 0 <= k < |asked| ensures 0 < asked[k] < |vtx| && Needed(own, shortId, shortId(hashOf(vtx[asked[k]]))) {
      AskedIsNeeded(vtx, c, hashOf, shortId, own, layout, a, m, have, count, asked[k]);
    }
  }

  lemma LaidFree<T>(prefilled: seq<Prefilled<T>>, a: seq<Option<T>>)
    requires Laid(prefilled, |prefilled|, a)
    ensures FreeCount(a) == |a| - |prefilled|
  {
  }
}
