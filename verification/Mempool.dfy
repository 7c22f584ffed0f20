/**
 The memory pool as block assembly sees it: transactions, the parents each of them has in the
 pool, and the totals over ancestors that the pool caches. Transactions are numbered in the order
 of their hashes.
 */
module Mempool {

  type Tx = nat

  datatype Entry = Entry(
    parents: set<Tx>, depth: nat,
    size: nat, weight: nat, bytes: nat, sigops: nat, fee: int, modFee: int,
    isFinal: bool, hasWitness: bool)

  datatype Pool = Pool(txs: seq<Entry>) {

    predicate Has(t: Tx) { t < |txs| }

    /** Parents are in the pool, and the depths witness that no transaction is its own ancestor. */
    ghost predicate Valid() {
      && (forall t: Tx, p: Tx :: Has(t) && p in txs[t].parents ==> Has(p) && txs[p].depth < txs[t].depth)
      && (forall t: Tx :: Has(t) ==> txs[t].weight <= 4 * txs[t].size)
    }

    function All(): set<Tx> { set t: Tx | t < |txs| && Has(t) }

    function Ancestors(t: Tx): set<Tx>
      requires Valid() && Has(t)
      decreases txs[t].depth
    {
      txs[t].parents + set p, a | p in txs[t].parents && a in Ancestors(p) :: a
    }

    function Descendants(t: Tx): set<Tx>
      requires Valid()
    {
      set d: Tx | d < |txs| && t in Ancestors(d)
    }

    function Sizes(): seq<int> { seq(|txs|, t requires 0 <= t < |txs| => txs[t].size) }
    function Weights(): seq<int> { seq(|txs|, t requires 0 <= t < |txs| => txs[t].weight) }
    function Bytes(): seq<int> { seq(|txs|, t requires 0 <= t < |txs| => txs[t].bytes) }
    function SigOps(): seq<int> { seq(|txs|, t requires 0 <= t < |txs| => txs[t].sigops) }
    function Fees(): seq<int> { seq(|txs|, t requires 0 <= t < |txs| => txs[t].fee) }
    function ModFees(): seq<int> { seq(|txs|, t requires 0 <= t < |txs| => txs[t].modFee) }
  }

  /** A total over a set of transactions. */
  function Sum(values: seq<int>, s: set<Tx>): int {
    if values == [] then 0
    else
      var n := |values| - 1;
      Sum(values[..n], s) + if n in s then values[n] else 0
  }

  lemma {:induction false} SumUnion(values: seq<int>, a: set<Tx>, b: set<Tx>)
    requires a !! b
    ensures Sum(values, a + b) == Sum(values, a) + Sum(values, b)
  {
    if values != [] {
      SumUnion(values[..|values| - 1], a, b);
    }
  }

  lemma {:induction false} SumOne(values: seq<int>, t: Tx)
    ensures Sum(values, {t}) == if t < |values| then values[t] else 0
  {
    if values != [] {
      SumOne(values[..|values| - 1], t);
      if t == |values| - 1 {
        SumNone(values[..t], {t});
      }
    }
  }

  lemma {:induction false} SumNone(values: seq<int>, s: set<Tx>)
    requires forall t :: t in s ==> t >= |values|
    ensures Sum(values, s) == 0
  {
    if values != [] {
      SumNone(values[..|values| - 1], s);
    }
  }

  lemma {:induction false} SumSubset(values: seq<int>, a: set<Tx>, b: set<Tx>)
    requires a <= b && forall t :: 0 <= t < |values| ==> values[t] >= 0
    ensures 0 <= Sum(values, a) <= Sum(values, b)
  {
    if values != [] {
      SumSubset(values[..|values| - 1], a, b);
    }
  }

  lemma {:induction false} SumZero(values: seq<int>, s: set<Tx>)
    requires forall t :: 0 <= t < |values| ==> values[t] >= 0
    ensures Sum(values, s) == 0 <==> forall t :: t in s && t < |values| ==> values[t] == 0
  {
    if values != [] {
      var n := |values| - 1;
      SumZero(values[..n], s);
      SumSubset(values[..n], {}, s);
      assert forall t: nat :: t < n ==> values[..n][t] == values[t];
    }
  }

  lemma {:induction false} SumScaled(a: seq<int>, b: seq<int>, s: set<Tx>, k: nat)
    requires |a| == |b| && forall t :: 0 <= t < |a| ==> a[t] <= k * b[t]
    ensures Sum(a, s) <= k * Sum(b, s)
  {
    if a != [] {
      var n := |a| - 1;
      SumScaled(a[..n], b[..n], s, k);
      assert a[n] <= k * b[n];
      assert k * (Sum(b[..n], s) + b[n]) == k * Sum(b[..n], s) + k * b[n];
    }
  }

  lemma SumInsert(values: seq<int>, s: set<Tx>, t: Tx)
    requires t !in s && t < |values|
    ensures Sum(values, s + {t}) == Sum(values, s) + values[t]
  {
    SumUnion(values, s, {t});
    SumOne(values, t);
  }

  /** Ancestors are in the pool and earlier, and their ancestors are ancestors too. */
  lemma {:induction false} AncestorsClosed(pool: Pool, t: Tx, a: Tx)
    requires pool.Valid() && pool.Has(t) && a in pool.Ancestors(t)
    ensures pool.Has(a) && pool.txs[a].depth < pool.txs[t].depth
    ensures pool.Ancestors(a) <= pool.Ancestors(t)
    decreases pool.txs[t].depth
  {
    if a !in pool.txs[t].parents {
      var p :| p in pool.txs[t].parents && a in pool.Ancestors(p);
      AncestorsClosed(pool, p, a);
      assert pool.Ancestors(p) <= pool.Ancestors(t);
    }
  }

  lemma NotOwnAncestor(pool: Pool, t: Tx)
    requires pool.Valid() && pool.Has(t)
    ensures t !in pool.Ancestors(t)
  {
    if t in pool.Ancestors(t) {
      AncestorsClosed(pool, t, t);
    }
  }

  /** The number of ancestors orders a package: parents come before their children. */
  lemma FewerAncestors(pool: Pool, t: Tx, a: Tx)
    requires pool.Valid() && pool.Has(t) && a in pool.Ancestors(t)
    ensures pool.Has(a) && |pool.Ancestors(a)| < |pool.Ancestors(t)|
  {
    AncestorsClosed(pool, t, a);
    NotOwnAncestor(pool, a);
    assert pool.Ancestors(t) == pool.Ancestors(a) + (pool.Ancestors(t) - pool.Ancestors(a));
    assert a in pool.Ancestors(t) - pool.Ancestors(a);
  }

  /** A set that holds the parents of its members holds their ancestors. */
  ghost predicate Closed(pool: Pool, s: set<Tx>) {
    forall t, p :: t in s && pool.Has(t) && p in pool.txs[t].parents ==> p in s
  }

  lemma {:induction false} ClosedUnderAncestors(pool: Pool, s: set<Tx>, t: Tx, a: Tx)
    requires pool.Valid() && Closed(pool, s) && t in s && pool.Has(t) && a in pool.Ancestors(t)
    ensures a in s
    decreases pool.txs[t].depth
  {
    if a !in pool.txs[t].parents {
      var p :| p in pool.txs[t].parents && a in pool.Ancestors(p);
      ClosedUnderAncestors(pool, s, p, a);
    }
  }
}
