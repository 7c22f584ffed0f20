/** Block assembly (src/miner.h, src/miner.cpp). */
module Miner {
  import opened Mempool
  import opened Sequences

  const WITNESS_SCALE_FACTOR := 4
  const MAX_BLOCK_WEIGHT := 4000000
  const MAX_BLOCK_SERIALIZED_SIZE := 4000000
  const MAX_BLOCK_SIGOPS_COST := 80000
  const MAX_CONSECUTIVE_FAILURES := 1000
  const RESERVED_SIZE := 1000
  const RESERVED_WEIGHT := 4000
  const RESERVED_SIGOPS := 400

  /** A transaction is in the pool, occurs once, and follows its parents. */
  ghost predicate Placed(pool: Pool, vtx: seq<Tx>, k: nat)
    requires k < |vtx|
  {
    pool.Has(vtx[k]) && vtx[k] !in vtx[..k] && pool.txs[vtx[k]].parents <= Elements(vtx[..k])
  }

  ghost predicate Ordered(pool: Pool, vtx: seq<Tx>) {
    forall k: nat :: k < |vtx| ==> Placed(pool, vtx, k)
  }

  lemma OrderedAppend(pool: Pool, vtx: seq<Tx>, t: Tx)
    requires Ordered(pool, vtx) && pool.Has(t) && t !in vtx && pool.txs[t].parents <= Elements(vtx)
    ensures Ordered(pool, vtx + [t]) && Elements(vtx + [t]) == Elements(vtx) + {t}
  {
    forall k: nat | k <= |vtx| ensures Placed(pool, vtx + [t], k) {
      assert (vtx + [t])[..k] == vtx[..k];
      if k < |vtx| {
        assert Placed(pool, vtx, k);
      } else {
        assert vtx[..k] == vtx;
      }
    }
  }

  lemma OrderedIsClosed(pool: Pool, vtx: seq<Tx>)
    requires Ordered(pool, vtx)
    ensures Closed(pool, Elements(vtx)) && forall t :: t in Elements(vtx) ==> pool.Has(t)
  {
    forall t | t in vtx ensures pool.Has(t) && pool.txs[t].parents <= Elements(vtx) {
      var k: nat :| k < |vtx| && vtx[k] == t;
      assert Placed(pool, vtx, k);
      assert Elements(vtx[..k]) <= Elements(vtx);
    }
  }

  // Packages

  function WithAncestors(pool: Pool, t: Tx): set<Tx>
    requires pool.Valid() && pool.Has(t)
  {
    pool.Ancestors(t) + {t}
  }

  /** The part of a package that is not in the block yet. */
  function Remaining(pool: Pool, t: Tx, inBlock: set<Tx>): set<Tx>
    requires pool.Valid() && pool.Has(t)
  {
    WithAncestors(pool, t) - inBlock
  }

  predicate Before(pool: Pool, a: Tx, b: Tx)
    requires pool.Valid() && pool.Has(a) && pool.Has(b)
  {
    var ca, cb := |pool.Ancestors(a)| + 1, |pool.Ancestors(b)| + 1;
    if ca != cb then ca < cb else a < b
  }

  ghost predicate SortedByAncestors(pool: Pool, s: seq<Tx>)
    requires pool.Valid()
  {
    && (forall k :: 0 <= k < |s| ==> pool.Has(s[k]))
    && (forall j, k :: 0 <= j < k < |s| ==> Before(pool, s[j], s[k]))
  }

  lemma {:induction false} FirstOf(pool: Pool, s: set<Tx>) returns (t: Tx)
    requires pool.Valid() && s != {} && forall u :: u in s ==> pool.Has(u)
    ensures t in s && forall u :: u in s && u != t ==> Before(pool, t, u)
    decreases s
  {
    hide Pool.Ancestors;
    var x :| x in s;
    t := x;
    if s != {x} {
      assert s - {x} != {};
      var y := FirstOf(pool, s - {x});
      t := if Before(pool, x, y) then x else y;
      forall u | u in s && u != t ensures Before(pool, t, u) {
        assert u != x && u != y ==> u in s - {x};
      }
    }
  }

  /** In a sorted package every parent comes earlier, or is in the block already. */
  lemma SortedIsOrdered(pool: Pool, t: Tx, inBlock: set<Tx>, s: seq<Tx>, k: nat)
    requires pool.Valid() && pool.Has(t) && k < |s|
    requires SortedByAncestors(pool, s) && Elements(s) == Remaining(pool, t, inBlock)
    ensures pool.txs[s[k]].parents <= inBlock + Elements(s[..k])
    ensures s[k] !in Elements(s[..k])
  {
    var c := s[k];
    assert c in Elements(s);
    forall p | p in pool.txs[c].parents ensures p in inBlock + Elements(s[..k]) {
      assert p in pool.Ancestors(c);
      if c != t {
        AncestorsClosed(pool, t, c);
      }
      if p !in inBlock {
        assert p in Elements(s);
        var j :| 0 <= j < |s| && s[j] == p;
        FewerAncestors(pool, c, p);
        assert j < k;
        assert p == s[..k][j];
      }
    }
  }

  // Tracked packages

  /** What is left of a package's totals. */
  datatype Modified = Modified(size: int, modFees: int, sigops: int)

  /** The modified fee is taken off for the first ancestor that goes, and the plain fee for all others. */
  ghost predicate FeesTracked(pool: Pool, t: Tx, fees: int, gone: set<Tx>)
    requires pool.Valid() && pool.Has(t)
  {
    var all := Sum(pool.ModFees(), WithAncestors(pool, t));
    if gone == {} then fees == all
    else exists f :: f in gone && pool.Has(f) && fees == all - Sum(pool.Fees(), gone) - Drift(pool, f)
  }

  /** How much a transaction has been prioritised. */
  ghost function Drift(pool: Pool, t: Tx): int
    requires pool.Has(t)
  {
    pool.txs[t].modFee - pool.txs[t].fee
  }

  /** `gone` holds the ancestors whose size, sigops and fees have been subtracted, each once. */
  ghost predicate Tracks(pool: Pool, t: Tx, m: Modified, gone: set<Tx>, inBlock: set<Tx>)
    requires pool.Valid()
  {
    && pool.Has(t) && t !in inBlock
    && gone <= pool.Ancestors(t) * inBlock
    && m.size == Sum(pool.Sizes(), WithAncestors(pool, t)) - Sum(pool.Sizes(), gone)
    && m.sigops == Sum(pool.SigOps(), WithAncestors(pool, t)) - Sum(pool.SigOps(), gone)
    && FeesTracked(pool, t, m.modFees, gone)
  }

  ghost predicate AllTracked(pool: Pool, mods: map<Tx, Modified>, gone: map<Tx, set<Tx>>, inBlock: set<Tx>)
    requires pool.Valid()
  {
    && mods.Keys == gone.Keys
    && forall t :: t in mods ==> gone[t] != {} && Tracks(pool, t, mods[t], gone[t], inBlock)
  }

  lemma RestAtMost(values: seq<int>, package: set<Tx>, gone: set<Tx>, inBlock: set<Tx>)
    requires gone <= package * inBlock && forall t :: 0 <= t < |values| ==> values[t] >= 0
    ensures Sum(values, package - inBlock) <= Sum(values, package) - Sum(values, gone)
  {
    assert package == gone + (package - gone);
    SumUnion(values, gone, package - gone);
    SumSubset(values, package - inBlock, package - gone);
  }

  /** Tracked totals never fall short of what remains to be added. */
  lemma TracksEnough(pool: Pool, t: Tx, m: Modified, gone: set<Tx>, inBlock: set<Tx>)
    requires pool.Valid() && Tracks(pool, t, m, gone, inBlock)
    ensures 0 <= Sum(pool.Sizes(), Remaining(pool, t, inBlock)) <= m.size
    ensures 0 <= Sum(pool.SigOps(), Remaining(pool, t, inBlock)) <= m.sigops
  {
    RestAtMost(pool.Sizes(), WithAncestors(pool, t), gone, inBlock);
    RestAtMost(pool.SigOps(), WithAncestors(pool, t), gone, inBlock);
    SumSubset(pool.Sizes(), Remaining(pool, t, inBlock), WithAncestors(pool, t));
    SumSubset(pool.SigOps(), Remaining(pool, t, inBlock), WithAncestors(pool, t));
  }

  /** A package's totals as the pool caches them. */
  function Cached(pool: Pool, t: Tx): Modified
    requires pool.Valid() && pool.Has(t)
  {
    Modified(Sum(pool.Sizes(), WithAncestors(pool, t)), Sum(pool.ModFees(), WithAncestors(pool, t)),
             Sum(pool.SigOps(), WithAncestors(pool, t)))
  }

  lemma CachedTracks(pool: Pool, t: Tx, inBlock: set<Tx>)
    requires pool.Valid() && pool.Has(t) && t !in inBlock
    ensures Tracks(pool, t, Cached(pool, t), {}, inBlock)
  {
    SumNone(pool.Sizes(), {});
    SumNone(pool.SigOps(), {});
  }

  /** One more ancestor is taken off. */
  lemma TracksNext(pool: Pool, t: Tx, m: Modified, gone: set<Tx>, inBlock: set<Tx>, it: Tx)
    requires pool.Valid() && Tracks(pool, t, m, gone, inBlock)
    requires it in inBlock && it in pool.Ancestors(t) && it !in gone && pool.Has(it)
    ensures var modFees := m.modFees - if gone == {} then pool.txs[it].modFee else pool.txs[it].fee;
            Tracks(pool, t, Modified(m.size - pool.txs[it].size, modFees, m.sigops - pool.txs[it].sigops), gone + {it},
              inBlock)
  {
    hide FeesTracked;
    SumInsert(pool.Sizes(), gone, it);
    SumInsert(pool.SigOps(), gone, it);
    FeesTrackedNext(pool, t, m.modFees, gone, it);
  }

  lemma FeesTrackedNext(pool: Pool, t: Tx, fees: int, gone: set<Tx>, it: Tx)
    requires pool.Valid() && pool.Has(t) && FeesTracked(pool, t, fees, gone) && it !in gone && pool.Has(it)
    ensures FeesTracked(pool, t, fees - if gone == {} then pool.txs[it].modFee else pool.txs[it].fee, gone + {it})
  {
    SumInsert(pool.Fees(), gone, it);
    SumNone(pool.Fees(), {});
    if gone == {} {
      assert it in gone + {it};
    } else {
      var f :| f in gone && pool.Has(f) &&
        fees == Sum(pool.ModFees(), WithAncestors(pool, t)) - Sum(pool.Fees(), gone) - Drift(pool, f);
      assert f in gone + {it};
    }
  }

  /**
   Tracked fees are the modified fees of what is left, exactly if the ancestors that went after
   the first one have not been prioritised on balance.
   */
  lemma FeesExact(pool: Pool, t: Tx, m: Modified, gone: set<Tx>, inBlock: set<Tx>) returns (first: set<Tx>)
    requires pool.Valid() && Tracks(pool, t, m, gone, inBlock)
    ensures first <= gone && |first| == if gone == {} then 0 else 1
    ensures m.modFees == Sum(pool.ModFees(), WithAncestors(pool, t) - gone) <==>
              Sum(pool.ModFees(), gone - first) == Sum(pool.Fees(), gone - first)
  {
    var all := WithAncestors(pool, t);
    assert all == gone + (all - gone);
    SumUnion(pool.ModFees(), gone, all - gone);
    first := {};
    if gone == {} {
      assert gone - first == {};
      SumNone(pool.ModFees(), {});
      SumNone(pool.Fees(), {});
    } else {
      var f :| f in gone && pool.Has(f) &&
        m.modFees == Sum(pool.ModFees(), all) - Sum(pool.Fees(), gone) - Drift(pool, f);
      first := {f};
      assert gone == gone - first + {f};
      SumInsert(pool.ModFees(), gone - first, f);
      SumInsert(pool.Fees(), gone - first, f);
    }
  }

  /** Two ancestors have gone, of which the second one was prioritised: the tracked fees are wrong. */
  lemma FeesDrift(pool: Pool, t: Tx, inBlock: set<Tx>, a: Tx, b: Tx) returns (m: Modified)
    requires pool.Valid() && pool.Has(t) && t !in inBlock && a != b && pool.Has(a) && pool.Has(b)
    requires {a, b} <= pool.Ancestors(t) * inBlock && Drift(pool, b) != 0
    ensures Tracks(pool, t, m, {a, b}, inBlock) && m.modFees != Sum(pool.ModFees(), WithAncestors(pool, t) - {a, b})
  {
    var x, y, c := pool.txs[a], pool.txs[b], Cached(pool, t);
    CachedTracks(pool, t, inBlock);
    TracksNext(pool, t, c, {}, inBlock, a);
    m := Modified(c.size - x.size, c.modFees - x.modFee, c.sigops - x.sigops);
    assert {} + {a} == {a};
    TracksNext(pool, t, m, {a}, inBlock, b);
    m := Modified(m.size - y.size, m.modFees - y.fee, m.sigops - y.sigops);
    assert {a} + {b} == {a, b};
    var all := WithAncestors(pool, t);
    assert all == all - {a, b} + {a, b};
    SumUnion(pool.ModFees(), all - {a, b}, {a, b});
    SumOne(pool.ModFees(), a);
    SumInsert(pool.ModFees(), {a}, b);
  }

  /** A descendant of a new transaction is not in the block, unless it is new itself. */
  lemma NotInBlockYet(pool: Pool, inBlock: set<Tx>, added: set<Tx>, it: Tx, desc: Tx)
    requires pool.Valid() && it in added && added <= inBlock && Closed(pool, inBlock - added)
    requires desc in pool.Descendants(it) - added
    ensures pool.Has(desc) && it in pool.Ancestors(desc) && desc !in inBlock
  {
    if desc in inBlock {
      ClosedUnderAncestors(pool, inBlock - added, desc, it);
    }
  }

  /** Growing the block keeps a package tracked while it is not in the block itself. */
  lemma TracksOn(pool: Pool, mods: map<Tx, Modified>, gone: map<Tx, set<Tx>>, inBlock: set<Tx>, added: set<Tx>)
    requires pool.Valid() && AllTracked(pool, mods, gone, inBlock) && inBlock !! added
    ensures AllTracked(pool, mods - added, gone - added, inBlock + added)
    ensures forall t :: t in mods - added ==> gone[t] !! added
  {
    forall t | t in mods - added ensures Tracks(pool, t, mods[t], gone[t], inBlock + added) && gone[t] !! added {
      assert Tracks(pool, t, mods[t], gone[t], inBlock);
    }
  }

  /** The ancestors whose totals have been taken off a package so far. */
  ghost function Off(gone: map<Tx, set<Tx>>, t: Tx): set<Tx> { if t in gone then gone[t] else {} }

  /** A transaction has been taken off the totals of others, and all else is as it was. */
  ghost predicate TakenOff(pool: Pool, it: Tx, others: set<Tx>, mods: map<Tx, Modified>, gone: map<Tx, set<Tx>>,
                           mods': map<Tx, Modified>, gone': map<Tx, set<Tx>>)
    requires pool.Valid() && pool.Has(it) && mods.Keys == gone.Keys && others <= pool.All()
  {
    && mods'.Keys == gone'.Keys == mods.Keys + others
    && (forall t :: t in mods && t !in others ==> mods'[t] == mods[t] && gone'[t] == gone[t])
    && (forall t :: t in others ==> gone'[t] == Off(gone, t) + {it} && IsLess(pool, it, t, mods, mods'[t]))
  }

  /** What is left of a package's totals, those that were tracked or else those of the pool, without a transaction. */
  ghost predicate IsLess(pool: Pool, it: Tx, t: Tx, mods: map<Tx, Modified>, m: Modified)
    requires pool.Valid() && pool.Has(it) && pool.Has(t)
  {
    var tx := pool.txs[it];
    if t in mods then
      && m.size == mods[t].size - tx.size && m.sigops == mods[t].sigops - tx.sigops
      && m.modFees == mods[t].modFees - tx.fee
    else
      var package := WithAncestors(pool, t);
      && m.size == Sum(pool.Sizes(), package) - tx.size && m.sigops == Sum(pool.SigOps(), package) - tx.sigops
      && m.modFees == Sum(pool.ModFees(), package) - tx.modFee
  }

  lemma NoneTakenOff(pool: Pool, it: Tx, mods: map<Tx, Modified>, gone: map<Tx, set<Tx>>)
    requires pool.Valid() && pool.Has(it) && mods.Keys == gone.Keys
    ensures TakenOff(pool, it, {}, mods, gone, mods, gone)
  {
  }

  lemma NotTakenOff(pool: Pool, it: Tx, others: set<Tx>, mods: map<Tx, Modified>, gone: map<Tx, set<Tx>>,
                    mods': map<Tx, Modified>, gone': map<Tx, set<Tx>>, t: Tx)
    requires pool.Valid() && pool.Has(it) && mods.Keys == gone.Keys && others <= pool.All() && t !in others
    requires TakenOff(pool, it, others, mods, gone, mods', gone') && forall u :: u in mods ==> it !in gone[u]
    ensures it !in Off(gone', t)
  {
  }

  /** One package more. */
  lemma TakenOffNext(pool: Pool, it: Tx, others: set<Tx>, mods: map<Tx, Modified>, gone: map<Tx, set<Tx>>,
                     mods': map<Tx, Modified>, gone': map<Tx, set<Tx>>, t: Tx, m: Modified)
    requires pool.Valid() && pool.Has(it) && mods.Keys == gone.Keys && others <= pool.All() && t !in others
    requires TakenOff(pool, it, others, mods, gone, mods', gone') && pool.Has(t) && IsLess(pool, it, t, mods', m)
    ensures TakenOff(pool, it, others + {t}, mods, gone, mods'[t := m], gone'[t := Off(gone', t) + {it}])
  {
    hide Pool.Valid, IsLess;
    assert t in mods' <==> t in mods;
    LessAlike(pool, it, t, mods', mods, m);
  }

  lemma LessAlike(pool: Pool, it: Tx, t: Tx, a: map<Tx, Modified>, b: map<Tx, Modified>, m: Modified)
    requires pool.Valid() && pool.Has(it) && pool.Has(t) && IsLess(pool, it, t, a, m)
    requires (t in a <==> t in b) && (t in a ==> a[t] == b[t])
    ensures IsLess(pool, it, t, b, m)
  {
  }

  /** The packages outside the block that have an ancestor in a set. */
  ghost function Affected(pool: Pool, inBlock: set<Tx>, added: set<Tx>): set<Tx>
    requires pool.Valid()
  {
    set t | t in pool.All() && t !in inBlock && pool.Ancestors(t) * added != {}
  }

  /** All of a set has been taken off the totals of the packages it belongs to, and all else is as it was. */
  ghost predicate Updated(pool: Pool, inBlock: set<Tx>, added: set<Tx>, mods: map<Tx, Modified>, gone: map<Tx, set<Tx>>,
                          mods': map<Tx, Modified>, gone': map<Tx, set<Tx>>)
    requires pool.Valid() && mods.Keys == gone.Keys <= pool.All()
  {
    && mods'.Keys == gone'.Keys == mods.Keys + Affected(pool, inBlock, added)
    && forall t :: t in mods' ==>
         gone'[t] == Off(gone, t) + pool.Ancestors(t) * added && IsLessAll(pool, added, t, mods, mods'[t])
  }

  ghost predicate IsLessAll(pool: Pool, added: set<Tx>, t: Tx, mods: map<Tx, Modified>, m: Modified)
    requires pool.Valid() && pool.Has(t)
  {
    var off := pool.Ancestors(t) * added;
    var before := if t in mods then mods[t] else Cached(pool, t);
    && m.size == before.size - Sum(pool.Sizes(), off) && m.sigops == before.sigops - Sum(pool.SigOps(), off)
    && (t in mods ==> m.modFees == before.modFees - Sum(pool.Fees(), off))
  }

  lemma NoneUpdated(pool: Pool, inBlock: set<Tx>, mods: map<Tx, Modified>, gone: map<Tx, set<Tx>>)
    requires pool.Valid() && mods.Keys == gone.Keys <= pool.All()
    ensures Updated(pool, inBlock, {}, mods, gone, mods, gone)
  {
    assert Affected(pool, inBlock, {}) == {};
    SumNone(pool.Sizes(), {});
    SumNone(pool.SigOps(), {});
    SumNone(pool.Fees(), {});
    forall t | t in mods
      ensures gone[t] == Off(gone, t) + pool.Ancestors(t) * {} && IsLessAll(pool, {}, t, mods, mods[t])
    {
      assert pool.Ancestors(t) * {} == {};
    }
  }

  lemma LessOneMore(pool: Pool, done: set<Tx>, it: Tx, t: Tx, mods: map<Tx, Modified>, mid: map<Tx, Modified>,
                    m: Modified)
    requires pool.Valid() && pool.Has(it) && pool.Has(t) && it !in done
    requires it in pool.Ancestors(t) && IsLess(pool, it, t, mid, m)
    requires t in mods ==> t in mid
    requires if t in mid then IsLessAll(pool, done, t, mods, mid[t]) else pool.Ancestors(t) * done == {}
    ensures IsLessAll(pool, done + {it}, t, mods, m)
  {
    hide Pool.Ancestors, Pool.Valid, WithAncestors, Sum;
    var off := pool.Ancestors(t) * done;
    assert pool.Ancestors(t) * (done + {it}) == off + {it};
    SumInsert(pool.Sizes(), off, it);
    SumInsert(pool.SigOps(), off, it);
    SumInsert(pool.Fees(), off, it);
    SumNone(pool.Sizes(), {});
    SumNone(pool.SigOps(), {});
  }

  lemma UpdatedHas(pool: Pool, inBlock: set<Tx>, done: set<Tx>, mods: map<Tx, Modified>, gone: map<Tx, set<Tx>>,
                   mid: map<Tx, Modified>, off: map<Tx, set<Tx>>, t: Tx)
    requires pool.Valid() && mods.Keys == gone.Keys <= pool.All() && Updated(pool, inBlock, done, mods, gone, mid, off)
    requires pool.Has(t) && t !in inBlock
    ensures Off(off, t) == Off(gone, t) + pool.Ancestors(t) * done && (t in mods ==> t in mid)
    ensures if t in mid then IsLessAll(pool, done, t, mods, mid[t]) else pool.Ancestors(t) * done == {}
  {
    hide Pool.Ancestors, Pool.Valid, IsLessAll;
    assert t in pool.All();
    assert t !in mid ==> t !in Affected(pool, inBlock, done);
  }

  lemma UpdatedAt(pool: Pool, done: set<Tx>, it: Tx, others: set<Tx>, mods: map<Tx, Modified>, gone: map<Tx, set<Tx>>,
                  mid: map<Tx, Modified>, off: map<Tx, set<Tx>>, mods': map<Tx, Modified>, gone': map<Tx, set<Tx>>,
                  t: Tx)
    requires pool.Valid() && pool.Has(it) && it !in done && pool.Has(t) && t in mods' && others <= pool.All()
    requires mid.Keys == off.Keys && TakenOff(pool, it, others, mid, off, mods', gone')
    requires t in others <==> it in pool.Ancestors(t)
    requires Off(off, t) == Off(gone, t) + pool.Ancestors(t) * done && (t in mods ==> t in mid)
    requires if t in mid then IsLessAll(pool, done, t, mods, mid[t]) else pool.Ancestors(t) * done == {}
    ensures gone'[t] == Off(gone, t) + pool.Ancestors(t) * (done + {it})
    ensures IsLessAll(pool, done + {it}, t, mods, mods'[t])
  {
    hide Pool.Ancestors, Pool.Valid, IsLess, IsLessAll;
    var a := pool.Ancestors(t);
    assert a * (done + {it}) == if it in a then a * done + {it} else a * done;
    if t in others {
      LessOneMore(pool, done, it, t, mods, mid, mods'[t]);
    } else {
      SameLess(pool, done, done + {it}, t, mods, mid[t]);
    }
  }

  lemma AffectedBy(pool: Pool, inBlock: set<Tx>, it: Tx, t: Tx)
    requires pool.Valid() && pool.Has(t) && t !in inBlock
    ensures t in Affected(pool, inBlock, {it}) <==> it in pool.Ancestors(t)
  {
    hide Pool.Ancestors, Pool.Valid;
    assert t in pool.All();
    assert it in pool.Ancestors(t) <==> it in pool.Ancestors(t) * {it};
  }

  lemma AffectedOutside(pool: Pool, inBlock: set<Tx>, added: set<Tx>)
    requires pool.Valid()
    ensures Affected(pool, inBlock, added) <= pool.All() - inBlock
  {
  }

  /** One transaction more of the set. */
  lemma UpdatedNext(pool: Pool, inBlock: set<Tx>, done: set<Tx>, it: Tx, mods: map<Tx, Modified>,
                    gone: map<Tx, set<Tx>>, mid: map<Tx, Modified>, off: map<Tx, set<Tx>>, mods': map<Tx, Modified>,
                    gone': map<Tx, set<Tx>>)
    requires pool.Valid() && mods.Keys == gone.Keys <= pool.All() - inBlock && pool.Has(it) && it !in done
    requires Updated(pool, inBlock, done, mods, gone, mid, off) && mid.Keys == off.Keys
    requires Affected(pool, inBlock, {it}) <= pool.All()
    requires TakenOff(pool, it, Affected(pool, inBlock, {it}), mid, off, mods', gone')
    ensures Updated(pool, inBlock, done + {it}, mods, gone, mods', gone')
  {
    hide Pool.Ancestors, Pool.Valid, IsLess, IsLessAll, Affected;
    AffectedNext(pool, inBlock, done, it);
    AffectedOutside(pool, inBlock, done);
    AffectedOutside(pool, inBlock, {it});
    forall t | t in mods'
      ensures gone'[t] == Off(gone, t) + pool.Ancestors(t) * (done + {it})
      ensures IsLessAll(pool, done + {it}, t, mods, mods'[t])
    {
      assert t in pool.All() - inBlock;
      UpdatedHas(pool, inBlock, done, mods, gone, mid, off, t);
      AffectedBy(pool, inBlock, it, t);
      UpdatedAt(pool, done, it, Affected(pool, inBlock, {it}), mods, gone, mid, off, mods', gone', t);
    }
  }

  lemma TrackedOutside(pool: Pool, mods: map<Tx, Modified>, gone: map<Tx, set<Tx>>, inBlock: set<Tx>)
    requires pool.Valid() && AllTracked(pool, mods, gone, inBlock)
    ensures mods.Keys == gone.Keys <= pool.All() - inBlock
  {
    forall t | t in mods.Keys ensures t in pool.All() - inBlock { assert Tracks(pool, t, mods[t], gone[t], inBlock); }
  }

  lemma NotYetOff(pool: Pool, inBlock: set<Tx>, done: set<Tx>, it: Tx, mods: map<Tx, Modified>, gone: map<Tx, set<Tx>>,
                  mods': map<Tx, Modified>, gone': map<Tx, set<Tx>>)
    requires pool.Valid() && mods.Keys == gone.Keys <= pool.All() && it !in done
    requires Updated(pool, inBlock, done, mods, gone, mods', gone') && forall t :: t in mods ==> it !in gone[t]
    ensures forall t :: t in mods' ==> it !in gone'[t]
  {
    hide Pool.Ancestors, Pool.Valid, IsLessAll;
  }

  lemma SameLess(pool: Pool, a: set<Tx>, b: set<Tx>, t: Tx, mods: map<Tx, Modified>, m: Modified)
    requires pool.Valid() && pool.Has(t) && pool.Ancestors(t) * a == pool.Ancestors(t) * b
    requires IsLessAll(pool, a, t, mods, m)
    ensures IsLessAll(pool, b, t, mods, m)
  {
  }

  lemma AffectedNext(pool: Pool, inBlock: set<Tx>, done: set<Tx>, it: Tx)
    requires pool.Valid()
    ensures Affected(pool, inBlock, done + {it}) == Affected(pool, inBlock, done) + Affected(pool, inBlock, {it})
  {
    hide Pool.Ancestors, Pool.Valid;
    forall t | t in pool.All()
      ensures pool.Ancestors(t) * (done + {it}) == pool.Ancestors(t) * done + pool.Ancestors(t) * {it}
    {
    }
  }

  lemma AffectedIs(pool: Pool, inBlock: set<Tx>, added: set<Tx>, it: Tx)
    requires pool.Valid() && it in added && added <= inBlock && Closed(pool, inBlock - added)
    ensures Affected(pool, inBlock, {it}) == pool.Descendants(it) - added
  {
    forall t ensures t in Affected(pool, inBlock, {it}) <==> t in pool.Descendants(it) - added {
      if t in pool.Descendants(it) - added {
        NotInBlockYet(pool, inBlock, added, it, t);
        assert it in pool.Ancestors(t) * {it};
      }
    }
  }

  /** A package that was never turned down has had exactly its ancestors in the block taken off. */
  ghost predicate UpToDate(pool: Pool, inBlock: set<Tx>, failedTx: set<Tx>, gone: map<Tx, set<Tx>>)
    requires pool.Valid()
  {
    forall t :: t in pool.All() - inBlock - failedTx ==> Off(gone, t) == pool.Ancestors(t) * inBlock
  }

  lemma UpdatedIsUpToDate(pool: Pool, inBlock: set<Tx>, added: set<Tx>, failedTx: set<Tx>, mods: map<Tx, Modified>,
                          gone: map<Tx, set<Tx>>, mods': map<Tx, Modified>, gone': map<Tx, set<Tx>>)
    requires pool.Valid() && mods.Keys == gone.Keys && inBlock !! added && UpToDate(pool, inBlock, failedTx, gone)
    requires (mods - added).Keys <= pool.All()
    requires Updated(pool, inBlock + added, added, mods - added, gone - added, mods', gone')
    ensures UpToDate(pool, inBlock + added, failedTx, gone')
  {
    hide Pool.Ancestors, Pool.Valid, IsLessAll;
    forall t | t in pool.All() - (inBlock + added) - failedTx
      ensures Off(gone', t) == pool.Ancestors(t) * (inBlock + added)
    {
      assert Off(gone, t) == pool.Ancestors(t) * inBlock && Off(gone - added, t) == Off(gone, t);
      assert pool.Ancestors(t) * (inBlock + added) == pool.Ancestors(t) * inBlock + pool.Ancestors(t) * added;
      assert t !in mods' ==> t !in Affected(pool, inBlock + added, added);
    }
  }

  lemma StartsUpToDate(pool: Pool, inBlock: set<Tx>, mods: map<Tx, Modified>, gone: map<Tx, set<Tx>>)
    requires pool.Valid() && Updated(pool, inBlock, inBlock, map[], map[], mods, gone)
    ensures UpToDate(pool, inBlock, {}, gone)
  {
    hide Pool.Ancestors, Pool.Valid, IsLessAll;
    forall t | t in pool.All() - inBlock - {} ensures Off(gone, t) == pool.Ancestors(t) * inBlock {
      assert t !in mods ==> t !in Affected(pool, inBlock, inBlock);
    }
  }

  lemma StillUpToDate(pool: Pool, inBlock: set<Tx>, failedTx: set<Tx>, gone: map<Tx, set<Tx>>, t: Tx)
    requires pool.Valid() && UpToDate(pool, inBlock, failedTx, gone)
    ensures UpToDate(pool, inBlock, failedTx + {t}, gone - {t})
  {
    hide Pool.Ancestors, Pool.Valid;
    forall u | u in pool.All() - inBlock - (failedTx + {t}) ensures Off(gone - {t}, u) == pool.Ancestors(u) * inBlock {
      assert u in pool.All() - inBlock - failedTx;
    }
  }

  /** Totals are those of what is missing in the block exactly if all ancestors there that have a size are taken off. */
  lemma TotalsExactly(pool: Pool, t: Tx, m: Modified, gone: set<Tx>, inBlock: set<Tx>)
    requires pool.Valid() && Tracks(pool, t, m, gone, inBlock)
    ensures var extra := pool.Ancestors(t) * inBlock - gone;
            && m.size == Sum(pool.Sizes(), Remaining(pool, t, inBlock)) + Sum(pool.Sizes(), extra)
            && m.sigops == Sum(pool.SigOps(), Remaining(pool, t, inBlock)) + Sum(pool.SigOps(), extra)
    ensures m.size == Sum(pool.Sizes(), Remaining(pool, t, inBlock)) <==>
              forall u :: u in pool.Ancestors(t) * inBlock - gone && pool.Has(u) ==> pool.txs[u].size == 0
  {
    hide Pool.Ancestors, Sum, FeesTracked;
    var extra, left := pool.Ancestors(t) * inBlock - gone, Remaining(pool, t, inBlock);
    assert WithAncestors(pool, t) == gone + (extra + left);
    SumUnion(pool.Sizes(), gone, extra + left);
    SumUnion(pool.SigOps(), gone, extra + left);
    SumUnion(pool.Sizes(), extra, left);
    SumUnion(pool.SigOps(), extra, left);
    SumZero(pool.Sizes(), extra);
    assert forall u: Tx :: pool.Has(u) ==> pool.Sizes()[u] == pool.txs[u].size;
  }

  /** So those of a package that is up to date are. */
  lemma ExactTotals(pool: Pool, t: Tx, m: Modified, inBlock: set<Tx>)
    requires pool.Valid() && pool.Has(t) && Tracks(pool, t, m, pool.Ancestors(t) * inBlock, inBlock)
    ensures m.size == Sum(pool.Sizes(), Remaining(pool, t, inBlock))
    ensures m.sigops == Sum(pool.SigOps(), Remaining(pool, t, inBlock))
  {
    hide Pool.Ancestors, FeesTracked;
    var off := pool.Ancestors(t) * inBlock;
    TotalsExactly(pool, t, m, off, inBlock);
    assert off - off == {};
    SumNone(pool.SigOps(), {});
  }

  /** A package that was turned down is tracked anew: an ancestor that was taken off before is counted again. */
  lemma CountedAgain(pool: Pool, inBlock: set<Tx>, t: Tx, a: Tx, b: Tx, others: set<Tx>, mods: map<Tx, Modified>,
                     gone: map<Tx, set<Tx>>, mods': map<Tx, Modified>, gone': map<Tx, set<Tx>>)
    requires pool.Valid() && mods.Keys == gone.Keys && others <= pool.All() && t in others && t !in mods
    requires AllTracked(pool, mods', gone', inBlock) && a != b && {a, b} <= pool.Ancestors(t) * inBlock
    requires pool.Has(a) && pool.Has(b) && pool.txs[a].size > 0 && TakenOff(pool, b, others, mods, gone, mods', gone')
    ensures t in mods' && mods'[t].size != Sum(pool.Sizes(), Remaining(pool, t, inBlock))
  {
    hide Pool.Ancestors, Sum, FeesTracked, IsLess;
    assert gone'[t] == {b};
    TotalsExactly(pool, t, mods'[t], gone'[t], inBlock);
  }

  /** How package selection ends. */
  datatype Ending =
    | Exhausted
    | LowFee(t: Tx, package: Modified)
    | NearlyFull

  /** How full a block is, and the limits it is filled to. */
  datatype Level = Level(weight: int, size: int, sigops: int, maxWeight: int, maxSize: int, sizing: bool, segwit: bool)

  ghost predicate Admissible(pool: Pool, t: Tx, segwit: bool)
    requires pool.Has(t)
  {
    pool.txs[t].isFinal && (pool.txs[t].hasWitness ==> segwit)
  }

  /** A transaction with its ancestors is too heavy, or has too many signature operations. */
  ghost predicate Exceeds(pool: Pool, l: Level, t: Tx)
    requires pool.Valid()
  {
    pool.Has(t) &&
    var package := WithAncestors(pool, t);
    || l.weight + WITNESS_SCALE_FACTOR * Sum(pool.Sizes(), package) >= l.maxWeight
    || l.sigops + Sum(pool.SigOps(), package) >= MAX_BLOCK_SIGOPS_COST
  }

  /** Why a transaction may be left out: with its ancestors it exceeds a limit, or must not be in the block. */
  ghost predicate LeftOut(pool: Pool, l: Level, t: Tx)
    requires pool.Valid()
  {
    pool.Has(t) &&
    var package := WithAncestors(pool, t);
    || Exceeds(pool, l, t)
    || (l.sizing && l.size + Sum(pool.Bytes(), package) >= l.maxSize)
    || exists u :: u in package && pool.Has(u) && !Admissible(pool, u, l.segwit)
  }

  ghost predicate Fuller(l: Level, m: Level) {
    && l.weight <= m.weight && l.size <= m.size && l.sigops <= m.sigops
    && m == l.(weight := m.weight, size := m.size, sigops := m.sigops)
  }

  lemma StillLeftOut(pool: Pool, l: Level, m: Level)
    requires pool.Valid() && Fuller(l, m)
    ensures forall t :: LeftOut(pool, l, t) ==> LeftOut(pool, m, t)
  {
    hide Pool.Ancestors, Sum, WithAncestors;
  }

  ghost predicate Fits(pool: Pool, l: Level, t: Tx)
    requires pool.Has(t)
  {
    && l.weight + pool.txs[t].weight < l.maxWeight
    && (l.sizing ==> l.size + pool.txs[t].bytes < l.maxSize)
    && l.sigops + pool.txs[t].sigops < MAX_BLOCK_SIGOPS_COST
  }

  /** A transaction exceeds a limit by itself, or must not be in the block. */
  ghost predicate Stuck(pool: Pool, l: Level, t: Tx) {
    pool.Has(t) && (!Admissible(pool, t, l.segwit) || !Fits(pool, l, t))
  }

  /** A transaction finds no room, and the block is so full that no other is tried. */
  ghost predicate Finishes(pool: Pool, l: Level, t: Tx, few: nat)
    requires pool.Has(t)
  {
    if l.weight + pool.txs[t].weight >= l.maxWeight then l.weight > l.maxWeight - 400 || few > 50
    else if l.sizing && l.size + pool.txs[t].bytes >= l.maxSize then l.size > l.maxSize - 100 || few > 50
    else l.sigops + pool.txs[t].sigops >= MAX_BLOCK_SIGOPS_COST && l.sigops > MAX_BLOCK_SIGOPS_COST - 8
  }

  /** A transaction finds no room in the last bit of the block. */
  ghost predicate Misses(pool: Pool, l: Level, t: Tx)
    requires pool.Has(t)
  {
    if l.weight + pool.txs[t].weight >= l.maxWeight then l.weight > l.maxWeight - 4000
    else l.sizing && l.size + pool.txs[t].bytes >= l.maxSize && l.size > l.maxSize - 1000
  }

  /**
   Misses are counted close to a limit only, and a block is finished closer still, or after more
   than 50 misses.
   */
  ghost predicate Pressed(l: Level, few: nat, finished: bool) {
    && (few > 0 ==> l.weight > l.maxWeight - 4000 || l.size > l.maxSize - 1000)
    && (finished ==> || l.weight > l.maxWeight - 400 || l.size > l.maxSize - 100
                     || l.sigops > MAX_BLOCK_SIGOPS_COST - 8 || few > 50)
  }

  lemma PressedOn(pool: Pool, l: Level, t: Tx, few: nat, finished: bool)
    requires pool.Has(t)
    ensures var finishes := Finishes(pool, l, t, few);
            var more := if !finishes && Misses(pool, l, t) then 1 else 0;
            Pressed(l, few, finished) ==> Pressed(l, few + more, finished || finishes)
    ensures Fits(pool, l, t) ==> !Finishes(pool, l, t, few) && !Misses(pool, l, t)
  {
  }

  lemma StillPressed(l: Level, m: Level, few: nat, finished: bool)
    requires Fuller(l, m)
    ensures Pressed(l, few, finished) ==> Pressed(m, few, finished)
  {
  }

  /** Nothing is counted at the start, and accounting for the size makes no difference. */
  lemma PressedAnyway(l: Level, few: nat, finished: bool, sizing: bool)
    ensures Pressed(l, 0, false)
    ensures Pressed(l, few, finished) <==> Pressed(l.(sizing := sizing), few, finished)
  {
  }

  datatype Outcome = Added | Waiting | Refused

  lemma StillStuck(pool: Pool, l: Level, m: Level)
    requires Fuller(l, m)
    ensures forall t :: Stuck(pool, l, t) ==> Stuck(pool, m, t)
  {
  }

  lemma Witnessed(pool: Pool, l: Level, t: Tx)
    requires pool.Has(t) && !l.segwit && pool.txs[t].hasWitness
    ensures Stuck(pool, l, t)
  {
  }

  lemma FinalAndPlain(pool: Pool, l: Level, t: Tx)
    requires pool.Has(t) && (l.segwit || !pool.txs[t].hasWitness)
    ensures Admissible(pool, t, l.segwit) <==> pool.txs[t].isFinal
    ensures Stuck(pool, l, t) <==> !(pool.txs[t].isFinal && Fits(pool, l, t))
  {
  }

  lemma IsLeftOut(pool: Pool, l: Level, inBlock: set<Tx>, t: Tx, m: Modified)
    requires pool.Valid() && pool.Has(t) && forall u :: u in Remaining(pool, t, inBlock) ==> pool.Has(u)
    requires m.size <= Sum(pool.Sizes(), WithAncestors(pool, t)) &&
               m.sigops <= Sum(pool.SigOps(), WithAncestors(pool, t))
    requires || l.weight + WITNESS_SCALE_FACTOR * m.size >= l.maxWeight
             || l.sigops + m.sigops >= MAX_BLOCK_SIGOPS_COST
             || (l.sizing && l.size + Sum(pool.Bytes(), Remaining(pool, t, inBlock)) >= l.maxSize)
             || exists u :: u in Remaining(pool, t, inBlock) && !Admissible(pool, u, l.segwit)
    ensures LeftOut(pool, l, t)
    ensures l.weight + WITNESS_SCALE_FACTOR * m.size >= l.maxWeight || l.sigops + m.sigops >= MAX_BLOCK_SIGOPS_COST ==>
              Exceeds(pool, l, t)
  {
    SumSubset(pool.Bytes(), Remaining(pool, t, inBlock), WithAncestors(pool, t));
  }

  /**
   How far package selection has come: the place in the pool's order, the tracked packages, those
   that failed, and the transactions that did not fit since a package was last added.
   */
  datatype Selection = Selection(byScore: seq<Tx>, mi: nat, mods: map<Tx, Modified>, failedTx: set<Tx>,
                                 refused: seq<Tx>)

  /** Everything behind is in the block, still tracked, or left out. */
  ghost predicate Considered(pool: Pool, l: Level, inBlock: set<Tx>, s: Selection)
    requires pool.Valid()
  {
    && s.mi <= |s.byScore|
    && (forall k :: 0 <= k < s.mi ==>
          s.byScore[k] in inBlock || s.byScore[k] in s.mods || LeftOut(pool, l, s.byScore[k]))
    && (forall t :: t in s.failedTx ==> t in inBlock || LeftOut(pool, l, t))
  }

  /** A transaction that did not fit is too large for the block now, and is not going to be tried again. */
  ghost predicate InARow(pool: Pool, l: Level, inBlock: set<Tx>, s: Selection)
    requires pool.Valid()
  {
    && s.mi <= |s.byScore|
    && (forall t :: t in s.refused ==> t !in inBlock && Exceeds(pool, l, t))
    && (forall t :: t in s.refused ==> t !in s.mods && (t in s.failedTx || t in s.byScore[..s.mi]))
    && (Distinct(s.byScore) ==> Distinct(s.refused))
  }

  ghost predicate Selecting(pool: Pool, l: Level, inBlock: set<Tx>, s: Selection)
    requires pool.Valid()
  {
    Considered(pool, l, inBlock, s) && InARow(pool, l, inBlock, s)
  }

  lemma SelectionStarts(pool: Pool, l: Level, inBlock: set<Tx>, byScore: seq<Tx>, mods: map<Tx, Modified>)
    requires pool.Valid()
    ensures Selecting(pool, l, inBlock, Selection(byScore, 0, mods, {}, []))
  {
  }

  lemma SelectionSkips(pool: Pool, l: Level, inBlock: set<Tx>, s: Selection)
    requires pool.Valid() && Selecting(pool, l, inBlock, s) && s.mi < |s.byScore|
    requires var t := s.byScore[s.mi]; t in s.mods || t in inBlock || t in s.failedTx
    ensures Selecting(pool, l, inBlock, s.(mi := s.mi + 1))
  {
    hide Exceeds, LeftOut;
    assert s.byScore[..s.mi + 1] == s.byScore[..s.mi] + [s.byScore[s.mi]];
  }

  /** The selection without the package under consideration. */
  ghost function Tried(s: Selection, t: Tx): Selection {
    if t in s.mods then s.(mods := s.mods - {t}, failedTx := s.failedTx + {t}) else s.(mi := s.mi + 1)
  }

  ghost predicate Candidate(s: Selection, t: Tx) {
    t in s.mods || (s.mi < |s.byScore| && t == s.byScore[s.mi] && t !in s.failedTx)
  }

  lemma SelectionFails(pool: Pool, l: Level, inBlock: set<Tx>, s: Selection, t: Tx, fits: bool)
    requires pool.Valid() && Selecting(pool, l, inBlock, s) && Candidate(s, t)
    requires t !in inBlock && LeftOut(pool, l, t) && (fits || Exceeds(pool, l, t))
    ensures Selecting(pool, l, inBlock, Tried(s, t).(refused := if fits then s.refused else s.refused + [t]))
  {
    hide Exceeds, LeftOut;
    assert t !in s.mods ==> s.byScore[..s.mi + 1] == s.byScore[..s.mi] + [t];
    if Distinct(s.byScore) {
      assert t !in s.refused;
    }
  }

  lemma SelectionAdds(pool: Pool, l: Level, m: Level, inBlock: set<Tx>, added: set<Tx>, s: Selection, t: Tx,
                      mods: map<Tx, Modified>)
    requires pool.Valid() && Selecting(pool, l, inBlock, s) && Candidate(s, t) && Fuller(l, m) && t in added
    requires forall u :: u in s.mods ==> u in inBlock + added || u in mods
    ensures Selecting(pool, m, inBlock + added,
              s.(mi := if t in s.mods then s.mi else s.mi + 1, mods := mods, refused := []))
  {
    hide Exceeds, LeftOut;
    StillLeftOut(pool, l, m);
  }

  lemma SelectionEnds(pool: Pool, l: Level, inBlock: set<Tx>, s: Selection)
    requires pool.Valid() && Selecting(pool, l, inBlock, s)
    ensures s.mi == |s.byScore| && s.mods == map[] ==>
              forall t :: t in s.byScore ==> t in inBlock || LeftOut(pool, l, t)
    ensures forall t :: t in s.refused ==> t !in inBlock && Exceeds(pool, l, t)
    ensures Distinct(s.byScore) ==> Distinct(s.refused)
    ensures forall t :: t in s.failedTx ==> t in inBlock || LeftOut(pool, l, t)
  {
    hide Exceeds, LeftOut;
  }

  lemma NothingTracked(pool: Pool, s: set<Tx>)
    requires pool.Valid()
    ensures Closed(pool, s - s) && AllTracked(pool, map[], map[], s)
  {
  }

  lemma SomeKey(mods: map<Tx, Modified>)
    requires mods != map[]
    ensures exists t :: t in mods
  {
    assert (forall t :: t !in mods) ==> mods == map[];
  }

  lemma Erased(pool: Pool, mods: map<Tx, Modified>, gone: map<Tx, set<Tx>>, inBlock: set<Tx>, t: Tx)
    requires pool.Valid() && AllTracked(pool, mods, gone, inBlock) && t in mods
    ensures AllTracked(pool, mods - {t}, gone - {t}, inBlock) && |mods - {t}| < |mods|
  {
    hide Tracks, Pool.Ancestors, Pool.Valid;
    assert (mods - {t}).Keys == mods.Keys - {t};
  }

  /** What is left of the package under consideration, and that its totals cover it. */
  lemma ThePackage(pool: Pool, mods: map<Tx, Modified>, gone: map<Tx, set<Tx>>, inBlock: set<Tx>, t: Tx,
                   isModified: bool)
    returns (left: set<Tx>)
    requires pool.Valid() && AllTracked(pool, mods, gone, inBlock)
    requires if isModified then t in mods else pool.Has(t) && t !in inBlock
    ensures pool.Has(t) && t !in inBlock && left == Remaining(pool, t, inBlock) && t in left
    ensures left <= pool.All() && left !! inBlock
    ensures var m := if isModified then mods[t] else Cached(pool, t);
            && 0 <= m.size <= Sum(pool.Sizes(), WithAncestors(pool, t))
            && 0 <= m.sigops <= Sum(pool.SigOps(), WithAncestors(pool, t))
            && Sum(pool.Bytes(), left) <= Sum(pool.Bytes(), WithAncestors(pool, t))
            && Sum(pool.Weights(), left) <= WITNESS_SCALE_FACTOR * m.size && Sum(pool.SigOps(), left) <= m.sigops
  {
    hide Sum, FeesTracked, Pool.Ancestors;
    if isModified {
      TracksEnough(pool, t, mods[t], gone[t], inBlock);
      SumSubset(pool.Sizes(), {}, gone[t]);
      SumSubset(pool.SigOps(), {}, gone[t]);
    } else {
      CachedTracks(pool, t, inBlock);
      TracksEnough(pool, t, Cached(pool, t), {}, inBlock);
    }
    left := Remaining(pool, t, inBlock);
    SumScaled(pool.Weights(), pool.Sizes(), left, WITNESS_SCALE_FACTOR);
    SumSubset(pool.Bytes(), left, WithAncestors(pool, t));
    forall a | a in left ensures pool.Has(a) {
      if a != t {
        AncestorsClosed(pool, t, a);
      }
    }
  }

  /** The totals of a package outside the block: exactly those of what is missing, unless it was turned down before. */
  ghost predicate Totals(pool: Pool, t: Tx, m: Modified, inBlock: set<Tx>, failed: set<Tx>)
    requires pool.Valid()
  {
    && (exists gone :: Tracks(pool, t, m, gone, inBlock))
    && (t !in failed && pool.Has(t) ==>
          && m.size == Sum(pool.Sizes(), Remaining(pool, t, inBlock))
          && m.sigops == Sum(pool.SigOps(), Remaining(pool, t, inBlock)))
  }

  lemma TheTotals(pool: Pool, mods: map<Tx, Modified>, gone: map<Tx, set<Tx>>, inBlock: set<Tx>, t: Tx,
                  isModified: bool, failed: set<Tx>)
    requires pool.Valid() && AllTracked(pool, mods, gone, inBlock) && UpToDate(pool, inBlock, failed, gone)
    requires if isModified then t in mods else pool.Has(t) && t !in inBlock && t !in mods
    ensures Totals(pool, t, if isModified then mods[t] else Cached(pool, t), inBlock, failed)
  {
    hide Pool.Ancestors, Pool.Valid, Cached, Sum, WithAncestors, Remaining;
    var m := if isModified then mods[t] else Cached(pool, t);
    if !isModified {
      CachedTracks(pool, t, inBlock);
    }
    assert Tracks(pool, t, m, Off(gone, t), inBlock);
    if t !in failed {
      assert t in pool.All() - inBlock - failed;
      ExactTotals(pool, t, m, inBlock);
    }
  }

  // The assembler

  datatype Setting = Unset | Set(value: int)

  const WORD := 0x1_0000_0000

  function Clamped(lo: int, x: int, hi: int): int { if x < lo then lo else if x > hi then hi else x }

  class BlockAssembler {
    const pool: Pool
    const minFee: int -> int
    const nBlockMaxWeight: nat
    const nBlockMaxSize: nat
    var fIncludeWitness: bool
    var fNeedSizeAccounting: bool

    var nBlockWeight: nat
    var nBlockSize: nat
    var nBlockTx: nat
    var nBlockSigOpsCost: nat
    var nFees: int
    var inBlock: set<Tx>
    var vtx: seq<Tx>
    var lastFewTxs: nat
    var blockFinished: bool

    /** The transactions whose bytes are in nBlockSize. */
    ghost var sized: set<Tx>

    /** The block is a valid selection, and the counters are its totals over their reserves. */
    ghost predicate Consistent()
      reads this
    {
      && pool.Valid()
      && Ordered(pool, vtx) && inBlock == Elements(vtx)
      && sized <= inBlock && (fNeedSizeAccounting ==> sized == inBlock)
      && (forall t :: t in inBlock ==> pool.Has(t) && Includable(t))
      && nBlockWeight == RESERVED_WEIGHT + Sum(pool.Weights(), inBlock)
      && nBlockSize == RESERVED_SIZE + Sum(pool.Bytes(), sized)
      && nBlockSigOpsCost == RESERVED_SIGOPS + Sum(pool.SigOps(), inBlock)
      && nFees == Sum(pool.Fees(), inBlock)
      && nBlockTx == |vtx|
    }

    lemma AllSized()
      requires Consistent() && (fNeedSizeAccounting || inBlock == {})
      ensures sized == inBlock
    {
    }

    lemma PoolIsValid()
      requires Consistent()
      ensures pool.Valid() && forall t :: t in inBlock ==> pool.Has(t)
    {
    }

    ghost predicate Includable(t: Tx)
      requires pool.Has(t)
      reads this
    {
      Admissible(pool, t, fIncludeWitness)
    }

    ghost function Now(): Level
      reads this
    {
      Level(nBlockWeight, nBlockSize, nBlockSigOpsCost, nBlockMaxWeight, nBlockMaxSize, fNeedSizeAccounting,
        fIncludeWitness)
    }

    /** The limits hold as soon as there is anything in the block. */
    ghost predicate Within()
      reads this
    {
      && RESERVED_WEIGHT <= nBlockMaxWeight <= MAX_BLOCK_WEIGHT - 4000
      && RESERVED_SIZE <= nBlockMaxSize <= MAX_BLOCK_SERIALIZED_SIZE - 1000
      && (inBlock != {} ==> nBlockWeight < nBlockMaxWeight)
      && (sized != {} ==> nBlockSize < nBlockMaxSize)
      && nBlockSigOpsCost < MAX_BLOCK_SIGOPS_COST
    }

    constructor (pool: Pool, weight: Setting, size: Setting, minFee: int -> int)
      ensures this.pool == pool && this.minFee == minFee
      ensures RESERVED_WEIGHT <= nBlockMaxWeight <= MAX_BLOCK_WEIGHT - 4000
      ensures RESERVED_SIZE <= nBlockMaxSize <= MAX_BLOCK_SERIALIZED_SIZE - 1000
      ensures fNeedSizeAccounting <==> nBlockMaxSize < MAX_BLOCK_SERIALIZED_SIZE - 1000
      ensures weight.Unset? && size.Unset? ==> nBlockMaxWeight == 3000000 && nBlockMaxSize == 750000
      ensures weight.Set? ==> nBlockMaxWeight == Clamped(4000, weight.value % WORD, MAX_BLOCK_WEIGHT - 4000)
      ensures size.Set? ==> nBlockMaxSize == Clamped(1000, size.value % WORD, MAX_BLOCK_SERIALIZED_SIZE - 1000)
      ensures weight.Set? && size.Unset? ==> nBlockMaxSize == MAX_BLOCK_SERIALIZED_SIZE - 1000
      ensures weight.Unset? && size.Set? ==>
                nBlockMaxWeight == Clamped(4000, 4 * (size.value % WORD) % WORD, MAX_BLOCK_WEIGHT - 4000)
    {
      var w, s := 3000000, 750000;
      if weight.Set? {
        w, s := weight.value % WORD, MAX_BLOCK_SERIALIZED_SIZE;
      }
      if size.Set? {
        s := size.value % WORD;
        if !weight.Set? {
          w := s * WITNESS_SCALE_FACTOR % WORD;
        }
      }
      w := if w < MAX_BLOCK_WEIGHT - 4000 then w else MAX_BLOCK_WEIGHT - 4000;
      w := if w > 4000 then w else 4000;
      s := if s < MAX_BLOCK_SERIALIZED_SIZE - 1000 then s else MAX_BLOCK_SERIALIZED_SIZE - 1000;
      s := if s > 1000 then s else 1000;
      this.pool, this.minFee, nBlockMaxWeight, nBlockMaxSize := pool, minFee, w, s;
      fNeedSizeAccounting := s < MAX_BLOCK_SERIALIZED_SIZE - 1000;
    }

    method Reset()
      requires pool.Valid()
      requires RESERVED_WEIGHT <= nBlockMaxWeight <= MAX_BLOCK_WEIGHT - 4000
      requires RESERVED_SIZE <= nBlockMaxSize <= MAX_BLOCK_SERIALIZED_SIZE - 1000
      modifies this
      ensures Consistent() && Within() && vtx == []
      ensures fNeedSizeAccounting == old(fNeedSizeAccounting) && lastFewTxs == 0 && !blockFinished
    {
      inBlock, vtx, sized := {}, [], {};
      nBlockSize, nBlockWeight, nBlockSigOpsCost := RESERVED_SIZE, RESERVED_WEIGHT, RESERVED_SIGOPS;
      fIncludeWitness, nBlockTx, nFees, lastFewTxs, blockFinished := false, 0, 0, 0, false;
      SumNone(pool.Weights(), {});
      SumNone(pool.Bytes(), {});
      SumNone(pool.SigOps(), {});
      SumNone(pool.Fees(), {});
    }

    method IsStillDependent(t: Tx) returns (r: bool)
      requires pool.Has(t)
      ensures !r <==> pool.txs[t].parents <= inBlock
    {
      r := exists p :: p in pool.txs[t].parents && p !in inBlock;
    }

    method TestPackage(packageSize: nat, packageSigOpsCost: nat) returns (r: bool)
      ensures r <==> && nBlockWeight + WITNESS_SCALE_FACTOR * packageSize < nBlockMaxWeight
                     && nBlockSigOpsCost + packageSigOpsCost < MAX_BLOCK_SIGOPS_COST
    {
      if nBlockWeight + WITNESS_SCALE_FACTOR * packageSize >= nBlockMaxWeight {
        return false;
      }
      if nBlockSigOpsCost + packageSigOpsCost >= MAX_BLOCK_SIGOPS_COST {
        return false;
      }
      return true;
    }

    method TestPackageTransactions(package: set<Tx>) returns (r: bool)
      requires forall t :: t in package ==> pool.Has(t)
      ensures r <==> && (forall t :: t in package ==> Includable(t))
                     && (fNeedSizeAccounting && package != {} ==>
                          nBlockSize + Sum(pool.Bytes(), package) < nBlockMaxSize)
    {
      var nPotentialBlockSize := nBlockSize;
      var todo := package;
      ghost var done: set<Tx> := {};
      SumNone(pool.Bytes(), {});
      while todo != {}
        invariant todo !! done && todo + done == package && forall t :: t in done ==> Includable(t)
        invariant fNeedSizeAccounting ==> nPotentialBlockSize == nBlockSize + Sum(pool.Bytes(), done)
        invariant fNeedSizeAccounting && done != {} ==> nPotentialBlockSize < nBlockMaxSize
        decreases todo
      {
        var t :| t in todo;
        SumInsert(pool.Bytes(), done, t);
        SumSubset(pool.Bytes(), done + {t}, package);
        if !pool.txs[t].isFinal {
          return false;
        }
        if !fIncludeWitness && pool.txs[t].hasWitness {
          return false;
        }
        if fNeedSizeAccounting {
          var nTxSize := pool.txs[t].bytes;
          if nPotentialBlockSize + nTxSize >= nBlockMaxSize {
            return false;
          }
          nPotentialBlockSize := nPotentialBlockSize + nTxSize;
        }
        todo, done := todo - {t}, done + {t};
      }
      assert done == package;
      return true;
    }

    method TestForBlock(t: Tx) returns (r: bool)
      requires pool.Has(t) && Within()
      modifies this`lastFewTxs, this`blockFinished
      ensures r <==> pool.txs[t].isFinal && Fits(pool, Now(), t)
      ensures var finishes := Finishes(pool, Now(), t, old(lastFewTxs));
              && blockFinished == (old(blockFinished) || finishes)
              && lastFewTxs == old(lastFewTxs) + if !finishes && Misses(pool, Now(), t) then 1 else 0
    {
      if nBlockWeight + pool.txs[t].weight >= nBlockMaxWeight {
        if nBlockWeight > nBlockMaxWeight - 400 || lastFewTxs > 50 {
          blockFinished := true;
          return false;
        }
        if nBlockWeight > nBlockMaxWeight - 4000 {
          lastFewTxs := lastFewTxs + 1;
        }
        return false;
      }
      if fNeedSizeAccounting {
        if nBlockSize + pool.txs[t].bytes >= nBlockMaxSize {
          if nBlockSize > nBlockMaxSize - 100 || lastFewTxs > 50 {
            blockFinished := true;
            return false;
          }
          if nBlockSize > nBlockMaxSize - 1000 {
            lastFewTxs := lastFewTxs + 1;
          }
          return false;
        }
      }
      if nBlockSigOpsCost + pool.txs[t].sigops >= MAX_BLOCK_SIGOPS_COST {
        if nBlockSigOpsCost > MAX_BLOCK_SIGOPS_COST - 8 {
          blockFinished := true;
          return false;
        }
        return false;
      }
      return pool.txs[t].isFinal;
    }

    method AddToBlock(t: Tx)
      requires Consistent() && pool.Has(t) && t !in inBlock && pool.txs[t].parents <= inBlock && Includable(t)
      modifies this`vtx, this`nBlockSize, this`nBlockWeight, this`nBlockTx, this`nBlockSigOpsCost, this`nFees
      modifies this`inBlock, this`sized
      ensures Consistent() && vtx == old(vtx) + [t] && inBlock == old(inBlock) + {t}
      ensures sized == if fNeedSizeAccounting then old(sized) + {t} else old(sized)
      ensures nBlockWeight == old(nBlockWeight) + pool.txs[t].weight
      ensures nBlockSigOpsCost == old(nBlockSigOpsCost) + pool.txs[t].sigops
      ensures nBlockSize == old(nBlockSize) + if fNeedSizeAccounting then pool.txs[t].bytes else 0
    {
      OrderedAppend(pool, vtx, t);
      SumInsert(pool.Weights(), inBlock, t);
      SumInsert(pool.SigOps(), inBlock, t);
      SumInsert(pool.Fees(), inBlock, t);
      SumInsert(pool.Bytes(), sized, t);
      vtx := vtx + [t];
      if fNeedSizeAccounting {
        nBlockSize := nBlockSize + pool.txs[t].bytes;
        sized := sized + {t};
      }
      nBlockWeight := nBlockWeight + pool.txs[t].weight;
      nBlockTx := nBlockTx + 1;
      nBlockSigOpsCost := nBlockSigOpsCost + pool.txs[t].sigops;
      nFees := nFees + pool.txs[t].fee;
      inBlock := inBlock + {t};
    }

    /** A package in an order in which it may appear in a block. */
    method SortForBlock(package: set<Tx>) returns (sorted: seq<Tx>)
      requires pool.Valid() && forall t :: t in package ==> pool.Has(t)
      ensures SortedByAncestors(pool, sorted) && Elements(sorted) == package
    {
      hide Pool.Ancestors, Pool.Valid, Before;
      sorted := [];
      var todo := package;
      while todo != {}
        invariant todo !! Elements(sorted) && todo + Elements(sorted) == package
        invariant SortedByAncestors(pool, sorted)
        invariant forall k, u :: 0 <= k < |sorted| && u in todo ==> Before(pool, sorted[k], u)
        decreases todo
      {
        ghost var first := FirstOf(pool, todo);
        var t :| t in todo && forall u :: u in todo && u != t ==> Before(pool, t, u);
        assert Elements(sorted + [t]) == Elements(sorted) + {t};
        sorted := sorted + [t];
        todo := todo - {t};
      }
    }

    /** Adds what is missing of a package, which fits. */
    method AddPackage(t: Tx, mods: map<Tx, Modified>) returns (package: set<Tx>, mods': map<Tx, Modified>)
      requires Consistent() && Within() && pool.Has(t) && t !in inBlock
      requires forall u :: u in Remaining(pool, t, inBlock) ==> pool.Has(u) && Includable(u)
      requires nBlockWeight + Sum(pool.Weights(), Remaining(pool, t, inBlock)) < nBlockMaxWeight
      requires nBlockSigOpsCost + Sum(pool.SigOps(), Remaining(pool, t, inBlock)) < MAX_BLOCK_SIGOPS_COST
      requires fNeedSizeAccounting ==> nBlockSize + Sum(pool.Bytes(), Remaining(pool, t, inBlock)) < nBlockMaxSize
      modifies this`vtx, this`nBlockSize, this`nBlockWeight, this`nBlockTx, this`nBlockSigOpsCost, this`nFees
      modifies this`inBlock, this`sized
      ensures Consistent() && Within()
      ensures package == old(Remaining(pool, t, inBlock)) && inBlock == old(inBlock) + package
      ensures mods' == mods - package && (!fNeedSizeAccounting ==> sized == old(sized))
      ensures Fuller(old(Now()), Now())
    {
      hide Pool.Ancestors, Pool.Valid, Sum, WithAncestors, Ordered, SortedByAncestors;
      package := Remaining(pool, t, inBlock);
      var sorted := SortForBlock(package);
      mods' := mods;
      for i := 0 to |sorted|
        invariant Consistent() && inBlock == old(inBlock) + Elements(sorted[..i])
        invariant sized == if fNeedSizeAccounting then old(sized) + Elements(sorted[..i]) else old(sized)
        invariant mods' == mods - Elements(sorted[..i])
      {
        SortedIsOrdered(pool, t, old(inBlock), sorted, i);
        assert sorted[i] in Elements(sorted);
        assert Elements(sorted[..i + 1]) == Elements(sorted[..i]) + {sorted[i]};
        AddToBlock(sorted[i]);
        mods' := mods' - {sorted[i]};
      }
      assert sorted[..|sorted|] == sorted;
      SumUnion(pool.Weights(), old(inBlock), package);
      SumUnion(pool.SigOps(), old(inBlock), package);
      SumUnion(pool.Bytes(), old(sized), package);
      SumSubset(pool.Weights(), old(inBlock), inBlock);
      SumSubset(pool.SigOps(), old(inBlock), inBlock);
      SumSubset(pool.Bytes(), old(sized), sized);
    }

    /** Takes one new transaction off the totals of its descendants, and leaves all other totals alone. */
    method UpdateDescendants(it: Tx, added: set<Tx>, mods: map<Tx, Modified>, ghost gone: map<Tx, set<Tx>>)
      returns (mods': map<Tx, Modified>, ghost gone': map<Tx, set<Tx>>)
      requires pool.Valid() && pool.Has(it) && it in added && added <= inBlock
      requires Closed(pool, inBlock - added) && forall t :: t in inBlock ==> pool.Has(t)
      requires AllTracked(pool, mods, gone, inBlock) && forall t :: t in mods ==> it !in gone[t]
      ensures AllTracked(pool, mods', gone', inBlock)
      ensures TakenOff(pool, it, pool.Descendants(it) - added, mods, gone, mods', gone')
    {
      hide Pool.Ancestors, Pool.Valid, Tracks, WithAncestors, Sum, Closed, TakenOff;
      mods', gone' := mods, gone;
      var todo := pool.Descendants(it) - added;
      ghost var done: set<Tx> := {};
      NoneTakenOff(pool, it, mods, gone);
      while todo != {}
        invariant todo !! done && todo + done == pool.Descendants(it) - added
        invariant AllTracked(pool, mods', gone', inBlock) && TakenOff(pool, it, done, mods, gone, mods', gone')
        decreases todo
      {
        var desc :| desc in todo;
        NotInBlockYet(pool, inBlock, added, it, desc);
        NotTakenOff(pool, it, done, mods, gone, mods', gone', desc);
        ghost var before, off := mods', gone';
        if desc !in mods' {
          CachedTracks(pool, desc, inBlock);
          var modEntry := Cached(pool, desc);
          TracksNext(pool, desc, modEntry, {}, inBlock, it);
          assert {} + {it} == {it};
          mods' := mods'[desc := Modified(modEntry.size - pool.txs[it].size, modEntry.modFees - pool.txs[it].modFee,
                                          modEntry.sigops - pool.txs[it].sigops)];
        } else {
          var e := mods'[desc];
          TracksNext(pool, desc, e, gone'[desc], inBlock, it);
          mods' := mods'[desc := Modified(e.size - pool.txs[it].size, e.modFees - pool.txs[it].fee,
                                          e.sigops - pool.txs[it].sigops)];
        }
        gone' := gone'[desc := Off(gone', desc) + {it}];
        TakenOffNext(pool, it, done, mods, gone, before, off, desc, mods'[desc]);
        todo, done := todo - {desc}, done + {desc};
      }
      assert done == pool.Descendants(it) - added;
    }

    /** Takes all new transactions off the totals of the packages they belong to, and leaves all other totals alone. */
    method UpdatePackagesForAdded(added: set<Tx>, mods: map<Tx, Modified>, ghost gone: map<Tx, set<Tx>>)
      returns (mods': map<Tx, Modified>, ghost gone': map<Tx, set<Tx>>)
      requires pool.Valid() && added <= inBlock
      requires Closed(pool, inBlock - added) && forall t :: t in inBlock ==> pool.Has(t)
      requires AllTracked(pool, mods, gone, inBlock) && forall t :: t in mods ==> gone[t] !! added
      ensures AllTracked(pool, mods', gone', inBlock) && mods.Keys == gone.Keys <= pool.All() - inBlock
      ensures Updated(pool, inBlock, added, mods, gone, mods', gone')
    {
      hide Pool.Ancestors, Pool.Valid, Tracks, Closed, Updated, TakenOff, Affected;
      TrackedOutside(pool, mods, gone, inBlock);
      mods', gone' := mods, gone;
      var todo := added;
      ghost var done: set<Tx> := {};
      NoneUpdated(pool, inBlock, mods, gone);
      while todo != {}
        invariant todo !! done && todo + done == added
        invariant AllTracked(pool, mods', gone', inBlock) && Updated(pool, inBlock, done, mods, gone, mods', gone')
        decreases todo
      {
        var it :| it in todo;
        NotYetOff(pool, inBlock, done, it, mods, gone, mods', gone');
        AffectedIs(pool, inBlock, added, it);
        ghost var before, off := mods', gone';
        mods', gone' := UpdateDescendants(it, added, mods', gone');
        UpdatedNext(pool, inBlock, done, it, mods, gone, before, off, mods', gone');
        todo, done := todo - {it}, done + {it};
      }
      assert done == added;
    }

    /**
     Adds packages: a transaction with its ancestors that are not in the block yet. `byScore` is
     the order in which the pool offers transactions; which tracked package is best, and whether
     it beats the pool's next one, is left open.
     */
    method AddPackageTxs(byScore: seq<Tx>) returns (end: Ending, ghost refused: seq<Tx>, ghost failed: set<Tx>)
      requires Consistent() && Within() && forall t :: t in byScore ==> pool.Has(t)
      modifies this`vtx, this`nBlockSize, this`nBlockWeight, this`nBlockTx, this`nBlockSigOpsCost, this`nFees
      modifies this`inBlock, this`sized
      ensures Consistent() && Within() && old(inBlock) <= inBlock && (!fNeedSizeAccounting ==> sized == old(sized))
      ensures end.Exhausted? ==> forall t :: t in byScore ==> t in inBlock || LeftOut(pool, Now(), t)
      ensures end.LowFee? ==> && end.package.modFees < minFee(end.package.size) && end.t !in inBlock
                              && Totals(pool, end.t, end.package, inBlock, failed)
      ensures forall t :: t in failed ==> t in inBlock || LeftOut(pool, Now(), t)
      ensures end.NearlyFull? ==> nBlockWeight > nBlockMaxWeight - 4000 && |refused| > MAX_CONSECUTIVE_FAILURES
      ensures end.NearlyFull? ==> && (forall t :: t in refused ==> t !in inBlock && Exceeds(pool, Now(), t))
                                  && (Distinct(byScore) ==> Distinct(refused))
    {
      hide Pool.Ancestors, Pool.Valid, Sum, AllTracked, Closed, WithAncestors, Remaining, LeftOut, Admissible,
           Consistent, Within, Selecting, Exceeds, Distinct, Totals, Updated, UpToDate;
      PoolIsValid();
      refused, failed := [], {};
      ghost var gone: map<Tx, set<Tx>> := map[];
      var mods: map<Tx, Modified> := map[];
      NothingTracked(pool, inBlock);
      mods, gone := UpdatePackagesForAdded(inBlock, mods, gone);
      StartsUpToDate(pool, inBlock, mods, gone);
      var failedTx: set<Tx> := {};
      var mi, nConsecutiveFailed := 0, 0;
      SelectionStarts(pool, Now(), inBlock, byScore, mods);
      while mi < |byScore| || mods != map[]
        invariant Consistent() && Within() && old(inBlock) <= inBlock && (!fNeedSizeAccounting ==> sized == old(sized))
        invariant 0 <= mi <= |byScore| && AllTracked(pool, mods, gone, inBlock) && |refused| == nConsecutiveFailed
        invariant Selecting(pool, Now(), inBlock, Selection(byScore, mi, mods, failedTx, refused))
        invariant UpToDate(pool, inBlock, failedTx, gone)
        decreases pool.All() - inBlock, |byScore| - mi, |mods|
      {
        ghost var s := Selection(byScore, mi, mods, failedTx, refused);
        if mi < |byScore| && (byScore[mi] in mods || byScore[mi] in inBlock || byScore[mi] in failedTx) {
          SelectionSkips(pool, Now(), inBlock, s);
          mi := mi + 1;
          continue;
        }
        var fUsingModified := mi == |byScore|;
        if * {
          fUsingModified := fUsingModified || mods != map[];
        }
        var t;
        if fUsingModified {
          SomeKey(mods);
          t :| t in mods;
        } else {
          t := byScore[mi];
          mi := mi + 1;
        }
        assert pool.Has(t) && t !in inBlock by {
          var _ := ThePackage(pool, mods, gone, inBlock, t, fUsingModified);
        }
        var package := if fUsingModified then mods[t] else Cached(pool, t);
        if package.modFees < minFee(package.size) {
          TheTotals(pool, mods, gone, inBlock, t, fUsingModified, failedTx);
          SelectionEnds(pool, Now(), inBlock, s);
          return LowFee(t, package), [], failedTx;
        }
        var fits;
        fits, mods, failedTx, nConsecutiveFailed, gone, refused :=
          Consider(t, package, mods, failedTx, nConsecutiveFailed, gone, s);
        if !fits && nConsecutiveFailed > MAX_CONSECUTIVE_FAILURES && nBlockWeight > nBlockMaxWeight - 4000 {
          SelectionEnds(pool, Now(), inBlock, Selection(byScore, mi, mods, failedTx, refused));
          return NearlyFull, refused, failedTx;
        }
      }
      SelectionEnds(pool, Now(), inBlock, Selection(byScore, mi, mods, failedTx, refused));
      return Exhausted, [], failedTx;
    }

    /** Adds a package if it can be added. `s` is the selection before it was chosen. */
    method Consider(t: Tx, package: Modified, mods: map<Tx, Modified>, failedTx: set<Tx>, nConsecutiveFailed: nat,
                    ghost gone: map<Tx, set<Tx>>, ghost s: Selection)
      returns (fits: bool, mods': map<Tx, Modified>, failedTx': set<Tx>, nConsecutiveFailed': nat,
               ghost gone': map<Tx, set<Tx>>, ghost refused: seq<Tx>)
      requires Consistent() && Within() && AllTracked(pool, mods, gone, inBlock) && Selecting(pool, Now(), inBlock, s)
      requires s.mods == mods && s.failedTx == failedTx && |s.refused| == nConsecutiveFailed
      requires Candidate(s, t) && pool.Has(t) && t !in inBlock
      requires package == if t in mods then mods[t] else Cached(pool, t)
      requires UpToDate(pool, inBlock, failedTx, gone)
      modifies this`vtx, this`nBlockSize, this`nBlockWeight, this`nBlockTx, this`nBlockSigOpsCost, this`nFees
      modifies this`inBlock, this`sized
      ensures Consistent() && Within() && old(inBlock) <= inBlock && (!fNeedSizeAccounting ==> sized == old(sized))
      ensures AllTracked(pool, mods', gone', inBlock) && |refused| == nConsecutiveFailed'
      ensures UpToDate(pool, inBlock, failedTx', gone')
      ensures Selecting(pool, Now(), inBlock,
                Selection(s.byScore, if t in mods then s.mi else s.mi + 1, mods', failedTx', refused))
      ensures || pool.All() - inBlock < old(pool.All() - inBlock)
              || (inBlock == old(inBlock) && if t in mods then |mods'| < |mods| else mods' == mods)
    {
      hide Pool.Ancestors, Pool.Valid, Sum, AllTracked, Closed, WithAncestors, Remaining, LeftOut, Admissible,
           Consistent, Within, Selecting, Exceeds, Cached, UpToDate;
      PoolIsValid();
      mods', gone', failedTx', nConsecutiveFailed', refused := mods, gone, failedTx, nConsecutiveFailed, s.refused;
      ghost var before, blockBefore := Now(), inBlock;
      ghost var left := ThePackage(pool, mods, gone, inBlock, t, t in mods);
      var final;
      fits, final := Test(t, package);
      if !fits || !final {
        SelectionFails(pool, Now(), inBlock, s, t, fits);
        if t in mods {
          Erased(pool, mods, gone, inBlock, t);
          StillUpToDate(pool, inBlock, failedTx, gone, t);
          mods', gone', failedTx' := mods - {t}, gone - {t}, failedTx + {t};
        }
        if !fits {
          nConsecutiveFailed', refused := nConsecutiveFailed + 1, s.refused + [t];
        }
      } else {
        nConsecutiveFailed', refused := 0, [];
        mods', gone' := Take(t, mods, gone, failedTx);
        SelectionAdds(pool, before, Now(), blockBefore, inBlock - blockBefore, s, t, mods');
        assert blockBefore + (inBlock - blockBefore) == inBlock;
      }
    }

    /** Can the rest of a package be added? */
    method Test(t: Tx, package: Modified) returns (fits: bool, final: bool)
      requires pool.Valid() && pool.Has(t) && forall u :: u in Remaining(pool, t, inBlock) ==> pool.Has(u)
      requires t in Remaining(pool, t, inBlock)
      requires 0 <= package.size <= Sum(pool.Sizes(), WithAncestors(pool, t))
      requires 0 <= package.sigops <= Sum(pool.SigOps(), WithAncestors(pool, t))
      ensures fits <==> && nBlockWeight + WITNESS_SCALE_FACTOR * package.size < nBlockMaxWeight
                        && nBlockSigOpsCost + package.sigops < MAX_BLOCK_SIGOPS_COST
      ensures fits ==>
                var left := Remaining(pool, t, inBlock);
                (final <==>
                  && (fNeedSizeAccounting ==> nBlockSize + Sum(pool.Bytes(), left) < nBlockMaxSize)
                  && forall u :: u in left ==> Includable(u))
      ensures !fits ==> Exceeds(pool, Now(), t)
      ensures !fits || !final ==> LeftOut(pool, Now(), t)
    {
      hide Pool.Ancestors, Pool.Valid, Sum, WithAncestors, Remaining, LeftOut, Exceeds, Admissible;
      final := true;
      fits := TestPackage(package.size, package.sigops);
      if fits {
        final := TestPackageTransactions(Remaining(pool, t, inBlock));
      }
      if !fits || !final {
        IsLeftOut(pool, Now(), inBlock, t, package);
      }
    }

    /** Adds a package and brings the tracked totals up to date. */
    method Take(t: Tx, mods: map<Tx, Modified>, ghost gone: map<Tx, set<Tx>>, ghost failedTx: set<Tx>)
      returns (mods': map<Tx, Modified>, ghost gone': map<Tx, set<Tx>>)
      requires Consistent() && Within() && pool.Has(t) && t !in inBlock && AllTracked(pool, mods, gone, inBlock)
      requires forall u :: u in Remaining(pool, t, inBlock) ==> pool.Has(u) && Includable(u)
      requires nBlockWeight + Sum(pool.Weights(), Remaining(pool, t, inBlock)) < nBlockMaxWeight
      requires nBlockSigOpsCost + Sum(pool.SigOps(), Remaining(pool, t, inBlock)) < MAX_BLOCK_SIGOPS_COST
      requires fNeedSizeAccounting ==> nBlockSize + Sum(pool.Bytes(), Remaining(pool, t, inBlock)) < nBlockMaxSize
      requires UpToDate(pool, inBlock, failedTx, gone)
      modifies this`vtx, this`nBlockSize, this`nBlockWeight, this`nBlockTx, this`nBlockSigOpsCost, this`nFees
      modifies this`inBlock, this`sized
      ensures Consistent() && Within() && AllTracked(pool, mods', gone', inBlock)
      ensures UpToDate(pool, inBlock, failedTx, gone')
      ensures inBlock == old(inBlock) + old(Remaining(pool, t, inBlock)) && t in inBlock
      ensures pool.All() - inBlock < old(pool.All() - inBlock)
      ensures forall u :: u in mods ==> u in inBlock || u in mods'
      ensures Fuller(old(Now()), Now()) && (!fNeedSizeAccounting ==> sized == old(sized))
    {
      hide Pool.Ancestors, Pool.Valid, Sum, Tracks, Closed, Ordered, IsLessAll, UpToDate;
      ghost var before := inBlock;
      TracksOn(pool, mods, gone, inBlock, Remaining(pool, t, inBlock));
      OrderedIsClosed(pool, vtx);
      var added;
      added, mods' := AddPackage(t, mods);
      gone' := gone - added;
      assert inBlock - added == before;
      assert t in added && t in pool.All() - before && t !in pool.All() - inBlock;
      mods', gone' := UpdatePackagesForAdded(added, mods', gone');
      UpdatedIsUpToDate(pool, before, added, failedTx, mods, gone, mods', gone');
    }

    /** Tries to add one transaction. */
    method Offer(t: Tx) returns (o: Outcome)
      requires Consistent() && Within() && fNeedSizeAccounting && pool.Has(t) && t !in inBlock
      modifies this`vtx, this`nBlockSize, this`nBlockWeight, this`nBlockTx, this`nBlockSigOpsCost, this`nFees
      modifies this`inBlock, this`sized
      modifies this`lastFewTxs, this`blockFinished
      ensures Consistent() && Within() && Fuller(old(Now()), Now())
      ensures o.Added? ==> inBlock == old(inBlock) + {t} && vtx == old(vtx) + [t]
      ensures !o.Added? ==> inBlock == old(inBlock) && vtx == old(vtx)
      ensures o.Waiting? ==> !(pool.txs[t].parents <= inBlock)
      ensures o.Refused? ==> Stuck(pool, Now(), t)
      ensures old(lastFewTxs) <= lastFewTxs <= old(lastFewTxs) + if o.Refused? then 1 else 0
      ensures old(Pressed(Now(), lastFewTxs, blockFinished)) ==> Pressed(Now(), lastFewTxs, blockFinished)
    {
      hide Pool.Ancestors, Pool.Valid, Sum, Ordered, Admissible, Stuck, Pressed, Finishes, Misses;
      if !fIncludeWitness && pool.txs[t].hasWitness {
        Witnessed(pool, Now(), t);
        return Refused;
      }
      var dependent := IsStillDependent(t);
      if dependent {
        return Waiting;
      }
      PressedOn(pool, Now(), t, lastFewTxs, blockFinished);
      var ok := TestForBlock(t);
      FinalAndPlain(pool, Now(), t);
      if !ok {
        return Refused;
      }
      AddToBlock(t);
      StillPressed(old(Now()), Now(), lastFewTxs, blockFinished);
      return Added;
    }

    /**
     Adds transactions by priority, whose order is left open, up to a size. Transactions that
     wait for a parent are tried again once it is in.
     */
    method AddPriorityTxs(prioritySize: nat, free: set<Tx>) returns (exhausted: bool, ghost refused: set<Tx>)
      requires Consistent() && Within() && inBlock == {} && !blockFinished && lastFewTxs == 0
      modifies this
      ensures Consistent() && Within() && sized == inBlock
      ensures fNeedSizeAccounting == old(fNeedSizeAccounting) && fIncludeWitness == old(fIncludeWitness)
      ensures exhausted && fNeedSizeAccounting ==>
                forall t :: t in pool.All() ==>
                  t in inBlock || !(pool.txs[t].parents <= inBlock) || Stuck(pool, Now(), t)
      ensures !exhausted ==> || (prioritySize == 0 && vtx == old(vtx)) || blockFinished || nBlockSize >= prioritySize
                             || nBlockSize >= nBlockMaxSize || (vtx != [] && vtx[|vtx| - 1] !in free)
      ensures Pressed(Now(), lastFewTxs, blockFinished) && lastFewTxs <= |refused|
      ensures forall t :: t in refused ==> t !in inBlock && Stuck(pool, Now().(sizing := true), t)
    {
      hide Pool.Valid, Consistent, Within, Stuck, Queues, Pressed, Fuller;
      refused := {};
      AllSized();
      NothingSelected(pool, Now());
      NothingSelected(pool, Now().(sizing := true));
      PressedAnyway(Now(), lastFewTxs, blockFinished, true);
      var nBlockPrioritySize := if nBlockMaxSize < prioritySize then nBlockMaxSize else prioritySize;
      if nBlockPrioritySize == 0 {
        LimitIsPositive();
        return false, {};
      }
      var fSizeAccounting := fNeedSizeAccounting;
      SetAccounting(true);
      var vec, wait: set<Tx> := pool.All(), {};
      exhausted := true;
      while vec != {} && !blockFinished
        invariant Consistent() && Within() && fNeedSizeAccounting && fIncludeWitness == old(fIncludeWitness)
        invariant Queues(pool, Now(), inBlock, vec, wait, refused)
        invariant Pressed(Now(), lastFewTxs, blockFinished) && lastFewTxs <= |refused|
        decreases |vec| + |wait|, |vec|
      {
        var t :| t in vec;
        ghost var before, inBefore := Now(), inBlock;
        Queued(pool, before, inBlock, vec, wait, refused, t);
        var o := Offer(t);
        if o.Waiting? {
          Waits(pool, before, Now(), inBlock, vec, wait, refused, t);
          vec, wait := vec - {t}, wait + {t};
        } else if o.Refused? {
          Drops(pool, before, Now(), inBlock, vec, wait, refused, t);
          vec, refused := vec - {t}, refused + {t};
        } else {
          ghost var was, had := vec, wait;
          if nBlockSize >= nBlockPrioritySize || t !in free {
            exhausted := false;
            Taken(pool, before, Now(), inBefore, vec, wait, refused, t);
            break;
          }
          vec, wait := Requeue(pool, t, vec - {t}, wait);
          Requeued(pool, before, Now(), inBefore, t, was, had, vec, wait, refused);
        }
      }
      Unqueued(pool, Now(), inBlock, vec, wait, refused);
      exhausted := exhausted && !blockFinished;
      AllSized();
      PressedAnyway(Now(), lastFewTxs, blockFinished, fSizeAccounting);
      SetAccounting(fSizeAccounting);
    }

    lemma LimitIsPositive()
      requires Within()
      ensures nBlockMaxSize > 0
    {
    }

    method SetAccounting(f: bool)
      requires Consistent() && Within() && (f ==> sized == inBlock)
      modifies this`fNeedSizeAccounting
      ensures Consistent() && Within() && fNeedSizeAccounting == f
    {
      hide Pool.Valid, Sum, Ordered, Admissible;
      fNeedSizeAccounting := f;
    }

    /**
     A block filled first by priority, then by packages. The size is that of the whole block if it
     is accounted for, and that of the transactions chosen by priority if it is not.
     */
    method CreateNewBlock(prioritySize: nat, free: set<Tx>, byScore: seq<Tx>, segwit: bool)
      returns (end: Ending, ghost byPriority: set<Tx>)
      requires pool.Valid() && forall t :: t in byScore ==> pool.Has(t)
      requires RESERVED_WEIGHT <= nBlockMaxWeight <= MAX_BLOCK_WEIGHT - 4000
      requires RESERVED_SIZE <= nBlockMaxSize <= MAX_BLOCK_SERIALIZED_SIZE - 1000
      modifies this
      ensures Consistent() && Within() && Closed(pool, inBlock)
      ensures fNeedSizeAccounting == old(fNeedSizeAccounting) && byPriority <= inBlock
      ensures fNeedSizeAccounting && inBlock != {} ==> nBlockSize < nBlockMaxSize
      ensures byPriority != {} ==> nBlockSize < nBlockMaxSize
      ensures nBlockSize == RESERVED_SIZE + Sum(pool.Bytes(), if fNeedSizeAccounting then inBlock else byPriority)
      ensures end.Exhausted? ==> forall t :: t in byScore ==> t in inBlock || LeftOut(pool, Now(), t)
    {
      hide Pool.Ancestors, Pool.Valid, Sum, Ordered, LeftOut;
      Reset();
      fIncludeWitness := segwit;
      var _, _ := AddPriorityTxs(prioritySize, free);
      byPriority := inBlock;
      ghost var refused, failed;
      end, refused, failed := AddPackageTxs(byScore);
      OrderedIsClosed(pool, vtx);
    }
  }

  /**
   The queue, the waiting and the refused transactions of selection by priority: none is in the
   block, a waiting one lacks a parent there, a refused one is stuck, and there are no others.
   */
  ghost predicate Queues(pool: Pool, l: Level, inBlock: set<Tx>, vec: set<Tx>, wait: set<Tx>, refused: set<Tx>) {
    && vec !! wait && (vec + wait) !! inBlock && vec + wait <= pool.All() && refused !! (vec + wait + inBlock)
    && (forall c :: c in wait ==> !(pool.txs[c].parents <= inBlock))
    && (forall t :: t in refused ==> Stuck(pool, l, t))
    && (forall t :: t in pool.All() ==> t in vec || t in wait || t in inBlock || t in refused)
  }

  lemma NothingSelected(pool: Pool, l: Level)
    ensures Queues(pool, l, {}, pool.All(), {}, {})
  {
  }

  lemma Queued(pool: Pool, l: Level, inBlock: set<Tx>, vec: set<Tx>, wait: set<Tx>, refused: set<Tx>, t: Tx)
    requires Queues(pool, l, inBlock, vec, wait, refused) && t in vec
    ensures vec !! wait && wait <= pool.All()
    ensures pool.Has(t) && t !in inBlock && |vec - {t}| + |wait + {t}| == |vec| + |wait| && |vec - {t}| < |vec|
  {
  }

  lemma Waits(pool: Pool, l: Level, m: Level, inBlock: set<Tx>, vec: set<Tx>, wait: set<Tx>, refused: set<Tx>, t: Tx)
    requires Queues(pool, l, inBlock, vec, wait, refused) && t in vec && Fuller(l, m) && t < |pool.txs| &&
               !(pool.txs[t].parents <= inBlock)
    ensures Queues(pool, m, inBlock, vec - {t}, wait + {t}, refused)
  {
    hide Stuck;
    StillStuck(pool, l, m);
  }

  lemma Drops(pool: Pool, l: Level, m: Level, inBlock: set<Tx>, vec: set<Tx>, wait: set<Tx>, refused: set<Tx>, t: Tx)
    requires Queues(pool, l, inBlock, vec, wait, refused) && t in vec && Fuller(l, m) && Stuck(pool, m, t)
    ensures Queues(pool, m, inBlock, vec - {t}, wait, refused + {t}) && |refused + {t}| == |refused| + 1
  {
    hide Stuck;
    StillStuck(pool, l, m);
  }

  /** A transaction that ends the selection. */
  lemma Taken(pool: Pool, l: Level, m: Level, inBlock: set<Tx>, vec: set<Tx>, wait: set<Tx>, refused: set<Tx>, t: Tx)
    requires Queues(pool, l, inBlock, vec, wait, refused) && t in vec && Fuller(l, m)
    ensures forall u :: u in refused ==> u !in inBlock + {t} && Stuck(pool, m, u)
  {
    hide Stuck;
    StillStuck(pool, l, m);
  }

  lemma Unqueued(pool: Pool, l: Level, inBlock: set<Tx>, vec: set<Tx>, wait: set<Tx>, refused: set<Tx>)
    ensures Queues(pool, l, inBlock, vec, wait, refused) ==>
              forall t :: t in refused ==> t !in inBlock && Stuck(pool, l, t)
    ensures Queues(pool, l, inBlock, vec, wait, refused) && vec == {} ==>
              forall t :: t in pool.All() ==> t in inBlock || !(pool.txs[t].parents <= inBlock) || Stuck(pool, l, t)
  {
  }

  /** The children of a new transaction are no longer waiting for it. */
  method Requeue(pool: Pool, t: Tx, vec: set<Tx>, wait: set<Tx>) returns (vec': set<Tx>, wait': set<Tx>)
    requires vec !! wait && wait <= pool.All()
    ensures vec' !! wait' && vec' + wait' == vec + wait && wait' <= wait
    ensures forall c :: c in wait' ==> t !in pool.txs[c].parents
  {
    vec', wait' := vec, wait;
    var children := set c | c in pool.All() && t in pool.txs[c].parents;
    while children != {}
      invariant vec' !! wait' && vec' + wait' == vec + wait && wait' <= wait
      invariant forall c :: c in wait' && t in pool.txs[c].parents ==> c in children
      decreases children
    {
      var c :| c in children;
      if c in wait' {
        vec', wait' := vec' + {c}, wait' - {c};
      }
      children := children - {c};
    }
  }

  lemma OneFewer(t: Tx, vec: set<Tx>, wait: set<Tx>, vec': set<Tx>, wait': set<Tx>)
    requires t in vec && vec !! wait && vec' !! wait' && vec' + wait' == vec - {t} + wait
    ensures |vec'| + |wait'| < |vec| + |wait|
  {
    assert |vec' + wait'| == |vec'| + |wait'| && |vec - {t} + wait| == |vec| - 1 + |wait|;
  }

  lemma Requeued(pool: Pool, l: Level, m: Level, inBlock: set<Tx>, t: Tx, vec: set<Tx>, wait: set<Tx>, vec': set<Tx>,
                 wait': set<Tx>, refused: set<Tx>)
    requires Queues(pool, l, inBlock, vec, wait, refused) && t in vec && Fuller(l, m)
    requires vec' !! wait' && vec' + wait' == vec - {t} + wait && wait' <= wait
    requires forall c :: c in wait' && pool.Has(c) ==> t !in pool.txs[c].parents
    ensures Queues(pool, m, inBlock + {t}, vec', wait', refused) && |vec'| + |wait'| < |vec| + |wait|
  {
    hide Stuck;
    StillStuck(pool, l, m);
    OneFewer(t, vec, wait, vec', wait');
    forall x ensures x in vec' || x in wait' <==> (x in vec && x != t) || x in wait {
      assert x in vec' + wait' <==> x in vec - {t} + wait;
    }
  }
}
