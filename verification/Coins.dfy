/**
 The layered UTXO cache (src/coins.h, src/coins.cpp) over the coin database (src/txdb.cpp).

 Each cache sits on a base view, which is another cache or the database. Cached entries carry
 a DIRTY and a FRESH flag. `Valid` is the invariant behind the flags and `Contents` the plain
 map of unspent coins that a view stands for: an absent transaction and one whose outputs are
 all spent are the same thing in it. `Run` drives a stack of caches of any depth through any
 sequence of operations and refines a stack of plain maps.
 */
module Coins {
  import opened Options

  type Txid = nat

  datatype TxOut = TxOut(value: int, script: seq<nat>) {
    predicate IsNull() { value == -1 }
  }

  const NULL_OUT := TxOut(-1, [])

  datatype CoinsData = CoinsData(coinbase: bool, vout: seq<TxOut>, height: int, version: int) {

    predicate IsPruned() {
      forall i :: 0 <= i < |vout| ==> vout[i].IsNull()
    }

    /** No spent output at the end of vout. */
    predicate IsClean() {
      vout == [] || !vout[|vout| - 1].IsNull()
    }

    predicate IsAvailable(pos: nat) {
      pos < |vout| && !vout[pos].IsNull()
    }

    /** The source's operator==. */
    predicate Equals(other: CoinsData) {
      (IsPruned() && other.IsPruned()) || this == other
    }

    /** Spent coins all look the same. */
    function Canonical(): CoinsData {
      if IsPruned() then EMPTY else this
    }
  }

  const EMPTY := CoinsData(false, [], 0, 0)

  datatype Entry = Entry(coins: CoinsData, isDirty: bool, isFresh: bool)

  /** The unspent coins a view stands for. */
  type Utxo = map<Txid, CoinsData>

  ghost predicate Unspent(m: Utxo) {
    forall id :: id in m ==> !m[id].IsPruned()
  }

  function Get(m: Utxo, id: Txid): CoinsData {
    if id in m then m[id] else EMPTY
  }

  function Put(m: Utxo, id: Txid, c: CoinsData): (r: Utxo)
    ensures Get(r, id) == c.Canonical()
    ensures forall x :: x != id ==> Get(r, x) == Get(m, x)
    ensures Unspent(m) ==> Unspent(r)
  {
    if c.IsPruned() then m - {id} else m[id := c]
  }

  /** The trailing nulls of vout removed. */
  function Trimmed(vout: seq<TxOut>): (r: seq<TxOut>)
    ensures r <= vout
    ensures r == [] || !r[|r| - 1].IsNull()
    ensures forall i :: |r| <= i < |vout| ==> vout[i].IsNull()
  {
    if vout == [] || !vout[|vout| - 1].IsNull() then vout else Trimmed(vout[..|vout| - 1])
  }

  function Cleaned(c: CoinsData): (r: CoinsData)
    ensures r.IsClean() && r.IsPruned() == c.IsPruned()
  {
    c.(vout := Trimmed(c.vout))
  }

  method Cleanup(c: CoinsData) returns (r: CoinsData)
    ensures r == Cleaned(c)
  {
    r := c;
    while |r.vout| > 0 && r.vout[|r.vout| - 1].IsNull()
      invariant r == c.(vout := r.vout) && Trimmed(r.vout) == Trimmed(c.vout)
      decreases |r.vout|
    {
      r := r.(vout := r.vout[..|r.vout| - 1]);
    }
  }

  /** Marks one output spent. */
  method Spend(c: CoinsData, pos: nat) returns (ok: bool, r: CoinsData)
    ensures ok == c.IsAvailable(pos)
    ensures !ok ==> r == c
    ensures ok ==> r.IsClean() && !r.IsAvailable(pos)
    ensures forall p: nat :: p != pos ==> r.IsAvailable(p) == c.IsAvailable(p)
    ensures forall p: nat :: r.IsAvailable(p) ==> c.IsAvailable(p) && r.vout[p] == c.vout[p]
    ensures r.coinbase == c.coinbase && r.height == c.height && r.version == c.version
  {
    if pos >= |c.vout| || c.vout[pos].IsNull() {
      return false, c;
    }
    var d := c.(vout := c.vout[pos := NULL_OUT]);
    r := Cleanup(d);
    ok := true;
    assert forall p: nat :: d.IsAvailable(p) == r.IsAvailable(p);
  }

  /** What the flags of an entry promise about the base view's version `below` of it. */
  predicate FlagsOk(e: Entry, below: CoinsData) {
    (!e.isDirty ==> e.coins.Canonical() == below) && (e.isFresh ==> below == EMPTY)
  }

  function Lookup<T>(m: map<Txid, T>, id: Txid): Option<T> {
    if id in m then Some(m[id]) else None
  }

  /** What the database keeps of a record once the entry `e` is written to it. */
  function Stored(record: Option<CoinsData>, e: Entry): Option<CoinsData> {
    if !e.isDirty then record else if e.coins.IsPruned() then None else Some(e.coins)
  }

  /** The root view: CCoinsViewDB. */
  class CoinsViewDB {
    var db: map<Txid, CoinsData>
    ghost var Contents: Utxo

    ghost predicate Valid()
      reads this
    {
      && Unspent(Contents)
      && (forall id :: id in db ==> db[id].IsClean())
      && (forall id :: Get(Contents, id) == if id in db then db[id].Canonical() else EMPTY)
    }

    constructor ()
      ensures Valid() && Contents == map[]
    {
      db := map[];
      Contents := map[];
    }

    method BatchWrite(mapCoins: map<Txid, Entry>)
      requires Valid()
      requires forall id :: id in mapCoins ==> mapCoins[id].coins.IsClean()
      modifies this
      ensures Valid()
      ensures Contents == Overlay(old(Contents), mapCoins)
    {
      var todo := mapCoins.Keys;
      while todo != {}
        invariant todo <= mapCoins.Keys && Contents == old(Contents)
        invariant forall id :: id in db ==> db[id].IsClean()
        invariant forall id :: Lookup(db, id) ==
                               if id in mapCoins && id !in todo then Stored(Lookup(old(db), id), mapCoins[id])
                               else Lookup(old(db), id)
        decreases todo
      {
        var id :| id in todo;
        var e := mapCoins[id];
        if e.isDirty {
          if e.coins.IsPruned() {
            db := db - {id};
          } else {
            db := db[id := e.coins];
          }
        }
        todo := todo - {id};
      }
      Contents := Overlay(Contents, mapCoins);
      forall id
        ensures Get(Contents, id) == if id in db then db[id].Canonical() else EMPTY
      {
        assert old(Get(Contents, id)) == if id in old(db) then old(db)[id].Canonical() else EMPTY;
        assert Lookup(db, id) == if id in mapCoins then Stored(Lookup(old(db), id), mapCoins[id])
                 else Lookup(old(db), id);
      }
    }
  }

  /** `m` with the dirty entries of a child cache written over it. */
  ghost function Overlay(m: Utxo, entries: map<Txid, Entry>): (r: Utxo)
    ensures Unspent(m) ==> Unspent(r)
    ensures forall id :: Get(r, id) ==
                         if id in entries && entries[id].isDirty then entries[id].coins.Canonical() else Get(m, id)
  {
    var written := map id | id in entries && entries[id].isDirty && !entries[id].coins.IsPruned() :: entries[id].coins;
    var gone := set id | id in entries && entries[id].isDirty;
    (m - gone) + written
  }

  /**
   The invariant of one cache: what its entries and their flags say about the contents `below`
   of its base view and about the contents it stands for itself. Only the entry that a modifier
   is open on may have spent outputs at its end.
   */
  ghost predicate Consistent(cache: map<Txid, Entry>, below: Utxo, contents: Utxo, modifier: Option<Txid>) {
    && Unspent(below) && Unspent(contents)
    && (forall id :: id in cache ==> FlagsOk(cache[id], Get(below, id)))
    && (forall id :: id in cache ==> cache[id].coins.Canonical() == Get(contents, id))
    && (forall id :: id in cache ==> cache[id].coins.IsClean() || modifier == Some(id))
    && (forall id :: id !in cache ==> Get(contents, id) == Get(below, id))
    && (modifier.Some? ==> modifier.value in cache && cache[modifier.value].isDirty)
  }

  lemma Stores(cache: map<Txid, Entry>, below: Utxo, contents: Utxo, before: Option<Txid>,
               id: Txid, e: Entry, after: Option<Txid>)
    requires Consistent(cache, below, contents, before)
    requires before in {None, Some(id)} && after in {None, Some(id)}
    requires FlagsOk(e, Get(below, id))
    requires if after.None? then e.coins.IsClean() else e.isDirty
    ensures Consistent(cache[id := e], below, Put(contents, id, e.coins), after)
  {
  }

  /** An entry may be rewritten without changing what the cache stands for. */
  lemma Restores(cache: map<Txid, Entry>, below: Utxo, contents: Utxo, before: Option<Txid>,
                 id: Txid, e: Entry, after: Option<Txid>)
    requires Consistent(cache, below, contents, before)
    requires before in {None, Some(id)} && after in {None, Some(id)}
    requires FlagsOk(e, Get(below, id)) && e.coins.Canonical() == Get(contents, id)
    requires if after.None? then e.coins.IsClean() else e.isDirty
    ensures Consistent(cache[id := e], below, contents, after)
  {
    Stores(cache, below, contents, before, id, e, after);
    assert EMPTY.IsPruned();
    SameContents(contents, Put(contents, id, e.coins));
  }

  /** When the flags that ModifyNewCoins gives an entry are right. */
  lemma NewCoinsFlags(cache: map<Txid, Entry>, below: Utxo, contents: Utxo, id: Txid, coinbase: bool, e: Entry)
    requires Consistent(cache, below, contents, None)
    requires !coinbase && id in cache ==> cache[id].coins.IsPruned()
    requires e.coins == EMPTY && e.isDirty
    requires e.isFresh <==> (id in cache && cache[id].isFresh) || (!coinbase && !(id in cache && cache[id].isDirty))
    ensures Consistent(cache[id := e], below, Put(contents, id, EMPTY), Some(id)) <==>
            coinbase || id in cache || id !in below
    ensures id !in contents ==> id in cache || id !in below
  {
    assert EMPTY.IsPruned();
    if FlagsOk(e, Get(below, id)) {
      Stores(cache, below, contents, None, id, e, Some(id));
    } else {
      assert cache[id := e][id] == e;
    }
  }

  lemma Drops(cache: map<Txid, Entry>, below: Utxo, contents: Utxo, before: Option<Txid>, id: Txid)
    requires Consistent(cache, below, contents, before)
    requires before in {None, Some(id)}
    ensures Consistent(cache - {id}, below, Put(contents, id, Get(below, id)), None)
  {
    assert EMPTY.IsPruned();
  }

  lemma LivesOn(cache: map<Txid, Entry>, below: Utxo, contents: Utxo, id: Txid)
    requires Consistent(cache, below, contents, None)
    ensures id in cache && !cache[id].coins.IsPruned() ==> id in contents
  {
    assert EMPTY.IsPruned();
  }

  /** What closing a modifier does to its entry. */
  lemma Closes(cache: map<Txid, Entry>, below: Utxo, contents: Utxo, id: Txid)
    requires Consistent(cache, below, contents, Some(id))
    ensures id in cache
    ensures var e := cache[id].(coins := Cleaned(cache[id].coins));
            Consistent(if e.isFresh && e.coins.IsPruned() then cache - {id} else cache[id := e], below,
                       Put(contents, id, e.coins), None)
  {
    hide Trimmed;
    var e := cache[id].(coins := Cleaned(cache[id].coins));
    if e.isFresh && e.coins.IsPruned() {
      Drops(cache, below, contents, Some(id), id);
    } else {
      Stores(cache, below, contents, Some(id), id, e, None);
    }
  }

  /** The flags of a child's entries are right about `contents`, and the entries clean. */
  predicate Flushable(child: map<Txid, Entry>, contents: Utxo) {
    forall id :: id in child ==> FlagsOk(child[id], Get(contents, id)) && child[id].coins.IsClean()
  }

  /** The "FRESH flag misapplied" error of BatchWrite. */
  predicate Misapplied(ours: Option<Entry>, theirs: Entry) {
    theirs.isDirty && theirs.isFresh && ours.Some? && !ours.value.coins.IsPruned()
  }

  /** What becomes of a parent's entry when the child's entry is written to it. */
  function Merged(ours: Option<Entry>, theirs: Entry): Option<Entry> {
    if !theirs.isDirty then ours
    else match ours
      case None =>
        if theirs.isFresh && theirs.coins.IsPruned() then None else Some(Entry(theirs.coins, true, theirs.isFresh))
      case Some(e) =>
        if e.isFresh && theirs.coins.IsPruned() then None else Some(Entry(theirs.coins, true, e.isFresh))
  }

  ghost predicate MergedInto(child: map<Txid, Entry>, cache: map<Txid, Entry>, result: map<Txid, Entry>) {
    forall id :: Lookup(result, id) ==
                 if id in child then Merged(Lookup(cache, id), child[id]) else Lookup(cache, id)
  }

  /**
   A dirty entry of the child is taken over with its coins. It is fresh exactly if our own entry
   was, or if there was none and the child's is; then it is gone if its coins are spent.
   */
  ghost predicate TakenOver(child: map<Txid, Entry>, cache: map<Txid, Entry>, result: map<Txid, Entry>) {
    && (forall id :: !(id in child && child[id].isDirty) ==> Lookup(result, id) == Lookup(cache, id))
    && (forall id :: id in child && child[id].isDirty ==>
          var absent := if id in cache then cache[id].isFresh else child[id].isFresh;
          && (id !in result <==> absent && child[id].coins.IsPruned())
          && (id in result ==>
                result[id].coins == child[id].coins && result[id].isDirty && (result[id].isFresh <==> absent)))
  }

  lemma MergedIsTakenOver(child: map<Txid, Entry>, cache: map<Txid, Entry>, result: map<Txid, Entry>)
    requires MergedInto(child, cache, result)
    ensures TakenOver(child, cache, result)
  {
    forall id
      ensures Lookup(result, id) == if id in child then Merged(Lookup(cache, id), child[id]) else Lookup(cache, id)
    {
    }
  }

  /** The loop of BatchWrite: takes the child's entries over, in any order, until one is misapplied. */
  method MergeEntries(child: map<Txid, Entry>, cache: map<Txid, Entry>)
    returns (threw: bool, result: map<Txid, Entry>)
    ensures threw <==> exists id :: id in child && Misapplied(Lookup(cache, id), child[id])
    ensures !threw ==> MergedInto(child, cache, result) && TakenOver(child, cache, result)
  {
    hide TakenOver;
    result := cache;
    var todo := child.Keys;
    while todo != {}
      invariant todo <= child.Keys
      invariant forall id :: Lookup(result, id) ==
                             if id in child && id !in todo then Merged(Lookup(cache, id), child[id])
                             else Lookup(cache, id)
      invariant forall id :: id in child && id !in todo ==> !Misapplied(Lookup(cache, id), child[id])
      decreases todo
    {
      var id :| id in todo;
      var e := child[id];
      assert Lookup(result, id) == Lookup(cache, id);
      if e.isDirty {
        if id !in result {
          if !(e.isFresh && e.coins.IsPruned()) {
            result := result[id := Entry(e.coins, true, e.isFresh)];
          }
        } else {
          if e.isFresh && !result[id].coins.IsPruned() {
            return true, result;
          }
          if result[id].isFresh && e.coins.IsPruned() {
            result := result - {id};
          } else {
            result := result[id := Entry(e.coins, true, result[id].isFresh)];
          }
        }
      }
      todo := todo - {id};
    }
    MergedIsTakenOver(child, cache, result);
    threw := false;
  }

  /** Writing a child's entries restores the parent's invariant over the grandparent. */
  lemma MergeKeepsInvariant(child: map<Txid, Entry>, cache: map<Txid, Entry>, result: map<Txid, Entry>,
                            below: Utxo, contents: Utxo)
    requires Consistent(cache, below, contents, None)
    requires Flushable(child, contents)
    requires MergedInto(child, cache, result)
    ensures Consistent(result, below, Overlay(contents, child), None)
  {
    assert EMPTY.IsPruned();
    forall id
      ensures id in result ==>
                && FlagsOk(result[id], Get(below, id))
                && result[id].coins.Canonical() == Get(Overlay(contents, child), id)
                && result[id].coins.IsClean()
      ensures id !in result ==> Get(Overlay(contents, child), id) == Get(below, id)
    {
      assert Lookup(result, id) ==
             if id in child then Merged(Lookup(cache, id), child[id]) else Lookup(cache, id);
    }
  }

  /** Nor can a child whose flags are right run into the misapplied-FRESH error. */
  lemma NeverMisapplied(child: map<Txid, Entry>, cache: map<Txid, Entry>, below: Utxo, contents: Utxo)
    requires Consistent(cache, below, contents, None)
    requires Flushable(child, contents)
    ensures forall id :: id in child ==> !Misapplied(Lookup(cache, id), child[id])
  {
    assert EMPTY.IsPruned();
  }

  /** What the child's flush makes of its base is what the child stood for. */
  lemma FlushMovesContents(child: map<Txid, Entry>, below: Utxo, contents: Utxo)
    requires Consistent(child, below, contents, None)
    ensures Overlay(below, child) == contents
  {
    SameContents(Overlay(below, child), contents);
  }

  /** Two contents that answer every lookup alike are the same map. */
  lemma SameContents(a: Utxo, b: Utxo)
    requires Unspent(a) && Unspent(b)
    requires forall id :: Get(a, id) == Get(b, id)
    ensures a == b
  {
    forall id ensures id in a <==> id in b {
      assert Get(a, id) == Get(b, id);
      assert EMPTY.IsPruned();
    }
    forall id | id in a ensures a[id] == b[id] {
      assert Get(a, id) == Get(b, id);
    }
  }

  /** A view is the database or a cache: the dispatch of the source's virtual methods. */
  datatype View = Root(db: CoinsViewDB) | Layer(cache: CoinsViewCache) {

    ghost function Repr(): set<object> {
      match this
      case Root(db) => {db}
      case Layer(c) => c.Repr
    }

    /** The object a write through this view changes. */
    ghost function Target(): object {
      match this
      case Root(db) => db
      case Layer(c) => c
    }

    ghost predicate Linked()
      decreases Repr(), 1
    {
      match this
      case Root(_) => true
      case Layer(c) => c.Linked()
    }

    /** Valid, and no modifier is open on it. */
    ghost predicate Valid()
      requires Linked()
      reads Repr()
      decreases Repr(), 1
    {
      match this
      case Root(db) => db.Valid()
      case Layer(c) => c.Valid() && c.modifier.None? && |c.Tower| >= 1
    }

    ghost function Contents(): Utxo
      reads Target()
    {
      match this
      case Root(db) => db.Contents
      case Layer(c) => c.Contents
    }

    /** The contents of every view from the database up to this one. */
    ghost function Stack(): seq<Utxo>
      reads Target()
    {
      match this
      case Root(db) => [db.Contents]
      case Layer(c) => c.Tower
    }

    method GetCoins(id: Txid) returns (found: bool, coins: CoinsData)
      requires Linked() && Valid()
      modifies Repr()
      ensures Valid() && Contents() == old(Contents()) && Stack() == old(Stack())
      ensures found ==> coins.Canonical() == Get(Contents(), id) && coins.IsClean()
      ensures !found ==> Get(Contents(), id) == EMPTY
      decreases Repr(), 2
    {
      match this
      case Root(db) =>
        found := id in db.db;
        coins := if found then db.db[id] else EMPTY;
        assert Get(db.Contents, id) == if id in db.db then db.db[id].Canonical() else EMPTY;
      case Layer(c) =>
        found, coins := c.GetCoins(id);
    }

    method BatchWrite(mapCoins: map<Txid, Entry>) returns (threw: bool)
      requires Linked() && Valid()
      requires forall id :: id in mapCoins ==> mapCoins[id].coins.IsClean()
      modifies Target()
      ensures Root? ==> !threw
      ensures !threw ==> Contents() == Overlay(old(Contents()), mapCoins)
      ensures !threw ==> Stack() == old(Stack())[..|old(Stack())| - 1] + [Contents()]
      ensures Flushable(mapCoins, old(Contents())) ==> !threw && Valid()
    {
      match this
      case Root(db) =>
        db.BatchWrite(mapCoins);
        threw := false;
      case Layer(c) =>
        assert c.Linked();
        ghost var below := c.base.Stack();
        threw := c.BatchWrite(mapCoins);
        assert c.base.Stack() == below;
    }
  }

  /** CCoinsViewCache. */
  class CoinsViewCache {
    const base: View
    var cacheCoins: map<Txid, Entry>
    /** The entry that the cache's one CCoinsModifier refers to, while there is one. */
    var modifier: Option<Txid>
    ghost var Contents: Utxo
    /** The contents of every view from the database up to this one. */
    ghost var Tower: seq<Utxo>
    ghost const Repr: set<object>

    ghost predicate Linked()
      decreases Repr, 0
    {
      && this !in base.Repr()
      && Repr == {this} + base.Repr()
      && base.Target() in base.Repr()
      && base.Linked()
    }

    ghost predicate Valid()
      requires Linked()
      reads Repr
      decreases Repr, 0
    {
      && base.Valid()
      && Consistent(cacheCoins, base.Contents(), Contents, modifier)
      && |base.Stack()| >= 1 && Tower == base.Stack() + [Contents]
    }

    constructor (base: View)
      requires base.Linked() && base.Valid()
      ensures Linked() && Valid() && this.base == base
      ensures modifier.None? && cacheCoins == map[] && Contents == base.Contents()
    {
      assert base.Layer? ==> base.cache.Linked();
      this.base := base;
      cacheCoins := map[];
      modifier := None;
      Contents := base.Contents();
      Tower := base.Stack() + [base.Contents()];
      Repr := {this} + base.Repr();
    }

    /** Looks an entry up, filling the cache (and the caches below) on the way. */
    method FetchCoins(id: Txid) returns (found: bool)
      requires Linked() && Valid()
      modifies Repr
      ensures Valid() && Contents == old(Contents) && modifier == old(modifier)
      ensures base.Contents() == old(base.Contents()) && base.Stack() == old(base.Stack())
      ensures found <==> id in cacheCoins
      ensures !found ==> id !in Contents
      ensures forall x :: x != id || x in old(cacheCoins) ==> Lookup(cacheCoins, x) == Lookup(old(cacheCoins), x)
      ensures id !in old(cacheCoins) && found ==>
                !cacheCoins[id].isDirty && (cacheCoins[id].isFresh <==> cacheCoins[id].coins.IsPruned())
      decreases Repr, 0
    {
      if id in cacheCoins {
        return true;
      }
      assert EMPTY.IsPruned();
      var ok, tmp := base.GetCoins(id);
      if !ok {
        return false;
      }
      cacheCoins := cacheCoins[id := Entry(tmp, false, tmp.IsPruned())];
      found := true;
    }

    method GetCoins(id: Txid) returns (found: bool, coins: CoinsData)
      requires Linked() && Valid()
      modifies Repr
      ensures Valid() && Contents == old(Contents) && modifier == old(modifier)
      ensures base.Contents() == old(base.Contents()) && base.Stack() == old(base.Stack())
      ensures found ==> coins.Canonical() == Get(Contents, id) && (modifier.None? ==> coins.IsClean())
      ensures !found ==> Get(Contents, id) == EMPTY
      decreases Repr, 1
    {
      found := FetchCoins(id);
      coins := if found then cacheCoins[id].coins else EMPTY;
    }

    /** The emptiness shortcut is exact: it is true of unspent coins and of nothing else. */
    method HaveCoins(id: Txid) returns (have: bool)
      requires Linked() && Valid()
      modifies Repr
      ensures Valid() && Contents == old(Contents) && modifier == old(modifier)
      ensures base.Contents() == old(base.Contents()) && base.Stack() == old(base.Stack())
      ensures id in Contents ==> have
      ensures modifier != Some(id) ==> (have <==> id in Contents)
    {
      var found := FetchCoins(id);
      have := found && cacheCoins[id].coins.vout != [];
      assert EMPTY.IsPruned();
      assert found ==> cacheCoins[id].coins.Canonical() == Get(Contents, id);
    }

    /** Opens a modifier on an entry, fetching it from below if need be. */
    method ModifyCoins(id: Txid)
      requires Linked() && Valid() && modifier.None?
      modifies Repr
      ensures Valid() && Contents == old(Contents) && modifier == Some(id)
      ensures base.Contents() == old(base.Contents()) && base.Stack() == old(base.Stack())
      ensures forall x :: x != id ==> Lookup(cacheCoins, x) == Lookup(old(cacheCoins), x)
      ensures id in old(cacheCoins) ==> cacheCoins[id] == old(cacheCoins)[id].(isDirty := true)
      ensures id !in old(cacheCoins) ==> (cacheCoins[id].isFresh <==> id !in Contents)
    {
      var entry;
      if id in cacheCoins {
        entry := cacheCoins[id];
      } else {
        var found, coins := base.GetCoins(id);
        assert EMPTY.IsPruned();
        entry := if !found then Entry(EMPTY, false, true) else Entry(coins, false, coins.IsPruned());
      }
      entry := entry.(isDirty := true);
      Restores(cacheCoins, base.Contents(), Contents, None, id, entry, Some(id));
      cacheCoins := cacheCoins[id := entry];
      modifier := Some(id);
    }

    /**
     Opens a modifier on coins that are being created, without asking the base view. Throws
     when a non-coinbase finds unspent coins in the cache. Otherwise the cache stays consistent
     exactly when one of these holds: the transaction is a coinbase, or it is already cached, or
     the base view has no unspent coins for it (which BIP 30 grants).
     */
    method ModifyNewCoins(id: Txid, coinbase: bool) returns (threw: bool)
      requires Linked() && Valid() && modifier.None?
      modifies this
      ensures threw <==> !coinbase && id in old(cacheCoins) && !old(cacheCoins)[id].coins.IsPruned()
      ensures !threw ==> modifier == Some(id) && Contents == Put(old(Contents), id, EMPTY)
      ensures !threw ==>
                && id in cacheCoins && cacheCoins == old(cacheCoins)[id := cacheCoins[id]]
                && cacheCoins[id].coins == EMPTY && cacheCoins[id].isDirty
      ensures !threw ==> (Valid() <==> coinbase || id in old(cacheCoins) || id !in old(base.Contents()))
      ensures !coinbase && id !in old(Contents) ==> !threw && Valid()
    {
      hide Consistent, Put;
      assert EMPTY.IsPruned();
      LivesOn(cacheCoins, base.Contents(), Contents, id);
      var entry := if id in cacheCoins then cacheCoins[id] else Entry(EMPTY, false, false);
      if !coinbase {
        if !entry.coins.IsPruned() {
          return true;
        }
        if !entry.isDirty {
          entry := entry.(isFresh := true);
        }
      }
      entry := entry.(coins := EMPTY, isDirty := true);
      NewCoinsFlags(cacheCoins, base.Contents(), Contents, id, coinbase, entry);
      cacheCoins := cacheCoins[id := entry];
      modifier := Some(id);
      Contents := Put(Contents, id, EMPTY);
      Tower := base.Stack() + [Contents];
      threw := false;
    }

    /** Writes through the open modifier. */
    method Assign(c: CoinsData)
      requires Linked() && Valid() && modifier.Some?
      modifies this`cacheCoins, this`Contents, this`Tower
      ensures Valid()
      ensures cacheCoins == old(cacheCoins)[modifier.value := old(cacheCoins)[modifier.value].(coins := c)]
      ensures Contents == Put(old(Contents), modifier.value, c)
    {
      var id := modifier.value;
      var entry := cacheCoins[id].(coins := c);
      Stores(cacheCoins, base.Contents(), Contents, modifier, id, entry, modifier);
      cacheCoins := cacheCoins[id := entry];
      Contents := Put(Contents, id, c);
      Tower := base.Stack() + [Contents];
    }

    /** The destructor of CCoinsModifier. */
    method EndModify()
      requires Linked() && Valid() && modifier.Some?
      modifies this`cacheCoins, this`modifier, this`Contents, this`Tower
      ensures Valid() && modifier.None?
      ensures var id := old(modifier.value);
              var entry := old(cacheCoins)[id];
              && Contents == Put(old(Contents), id, Cleaned(entry.coins))
              && cacheCoins == if entry.isFresh && entry.coins.IsPruned() then old(cacheCoins) - {id}
                               else old(cacheCoins)[id := entry.(coins := Cleaned(entry.coins))]
    {
      hide Consistent, Trimmed, Put;
      var id := modifier.value;
      Closes(cacheCoins, base.Contents(), Contents, id);
      var entry := cacheCoins[id];
      var cleaned := Cleanup(entry.coins);
      if entry.isFresh && cleaned.IsPruned() {
        cacheCoins := cacheCoins - {id};
      } else {
        cacheCoins := cacheCoins[id := entry.(coins := cleaned)];
      }
      Contents := Put(Contents, id, cleaned);
      Tower := base.Stack() + [Contents];
      modifier := None;
    }

    /** Evicts an unmodified entry; the contents stay what they are. */
    method Uncache(id: Txid)
      requires Linked() && Valid() && modifier.None?
      modifies this`cacheCoins
      ensures Valid()
      ensures cacheCoins == if id in old(cacheCoins) && !old(cacheCoins)[id].isDirty && !old(cacheCoins)[id].isFresh
                            then old(cacheCoins) - {id} else old(cacheCoins)
    {
      if id in cacheCoins && !cacheCoins[id].isDirty && !cacheCoins[id].isFresh {
        cacheCoins := cacheCoins - {id};
      }
    }

    /** Takes over a child's entries, in any order. */
    method BatchWrite(mapCoins: map<Txid, Entry>) returns (threw: bool)
      requires Linked() && Valid() && modifier.None?
      modifies this`cacheCoins, this`Contents, this`Tower
      ensures threw <==> exists id :: id in mapCoins && Misapplied(Lookup(old(cacheCoins), id), mapCoins[id])
      ensures !threw ==> MergedInto(mapCoins, old(cacheCoins), cacheCoins)
      ensures !threw ==> TakenOver(mapCoins, old(cacheCoins), cacheCoins)
      ensures !threw ==> Contents == Overlay(old(Contents), mapCoins) && Tower == base.Stack() + [Contents]
      ensures Flushable(mapCoins, old(Contents)) ==> !threw && Valid()
    {
      hide Consistent, MergedInto, TakenOver;
      if Flushable(mapCoins, Contents) {
        NeverMisapplied(mapCoins, cacheCoins, base.Contents(), Contents);
      }
      ghost var before := cacheCoins;
      threw, cacheCoins := MergeEntries(mapCoins, cacheCoins);
      if threw {
        return;
      }
      if Flushable(mapCoins, Contents) {
        MergeKeepsInvariant(mapCoins, before, cacheCoins, base.Contents(), Contents);
      }
      Contents := Overlay(Contents, mapCoins);
      Tower := base.Stack() + [Contents];
    }

    /** Pushes everything to the base view, which then stands for what this cache stood for. */
    method Flush() returns (threw: bool)
      requires Linked() && Valid() && modifier.None?
      modifies this`cacheCoins, this`Tower, base.Target()
      ensures Valid() && modifier.None? && !threw
      ensures cacheCoins == map[]
      ensures base.Contents() == Contents == old(Contents)
      ensures base.Stack() == old(base.Stack())[..|old(base.Stack())| - 1] + [Contents]
    {
      FlushMovesContents(cacheCoins, base.Contents(), Contents);
      threw := base.BatchWrite(cacheCoins);
      cacheCoins := map[];
      Tower := base.Stack() + [Contents];
    }
  }

  /** One use of a stack of caches, of its topmost cache unless said otherwise. */
  datatype Op =
    | Fetch(id: Txid)
    | Have(id: Txid)
    | Modify(id: Txid, f: CoinsData -> CoinsData)
    | ModifyNew(id: Txid, coinbase: bool, coins: CoinsData)
    | Uncache(id: Txid)
    | Push   // put a new cache on top
    | Flush
    | Pop    // drop the topmost cache, with whatever was not flushed

  datatype Answer = Done | IsThere(have: bool) | Found(coins: CoinsData)

  /** `f` cannot tell spent coins apart. */
  ghost predicate Respects(f: CoinsData -> CoinsData) {
    forall a: CoinsData, b: CoinsData :: a.Equals(b) ==> f(a).Equals(f(b))
  }

  /** The same use of a stack of plain maps, the database's first. */
  function SpecStep(s: seq<Utxo>, op: Op): (r: seq<Utxo>)
    requires |s| >= 1
    ensures |r| >= 1
  {
    var n := |s| - 1;
    var top := s[n];
    if op.Push? then s + [top]
    else if n == 0 then s
    else
      match op
      case Modify(id, f) => s[n := Put(top, id, Cleaned(f(Get(top, id))))]
      case ModifyNew(id, _, coins) => s[n := Put(top, id, Cleaned(coins))]
      case Flush => s[n - 1 := top]
      case Pop => s[..n]
      case _ => s
  }

  function SpecAnswer(s: seq<Utxo>, op: Op): Answer
    requires |s| >= 1
  {
    match op
    case Fetch(id) => Found(Get(s[|s| - 1], id))
    case Have(id) => IsThere(id in s[|s| - 1])
    case _ => Done
  }

  /** What the source asks of a caller; for new non-coinbase coins this is BIP 30. */
  ghost predicate Legal(s: seq<Utxo>, op: Op)
    requires |s| >= 1
  {
    && (|s| >= 2 || op.Push?)
    && (op.Modify? ==> Respects(op.f))
    && (op.ModifyNew? && !op.coinbase ==> op.id !in s[|s| - 1])
  }

  /** The final maps, and the answers on the way. */
  function SpecRun(s: seq<Utxo>, ops: seq<Op>): (seq<Utxo>, seq<Answer>)
    requires |s| >= 1
    decreases |ops|
  {
    if ops == [] then (s, [])
    else
      var (final, answers) := SpecRun(SpecStep(s, ops[0]), ops[1..]);
      (final, [SpecAnswer(s, ops[0])] + answers)
  }

  ghost predicate LegalRun(s: seq<Utxo>, ops: seq<Op>)
    requires |s| >= 1
    decreases |ops|
  {
    ops != [] ==> Legal(s, ops[0]) && LegalRun(SpecStep(s, ops[0]), ops[1..])
  }

  method Modifies(c: CoinsViewCache, id: Txid, f: CoinsData -> CoinsData)
    requires c.Linked() && c.Valid() && c.modifier.None? && Respects(f)
    modifies c.Repr
    ensures c.Valid() && c.modifier.None?
    ensures c.Contents == Put(old(c.Contents), id, Cleaned(f(Get(old(c.Contents), id))))
    ensures c.base.Stack() == old(c.base.Stack())
  {
    c.ModifyCoins(id);
    var coins := c.cacheCoins[id].coins;
    assert EMPTY.IsPruned();
    assert coins.Equals(Get(c.Contents, id));
    assert f(coins).Equals(f(Get(c.Contents, id)));
    c.Assign(f(coins));
    c.EndModify();
    SameContents(c.Contents, Put(old(c.Contents), id, Cleaned(f(Get(old(c.Contents), id)))));
  }

  method Creates(c: CoinsViewCache, id: Txid, coinbase: bool, coins: CoinsData)
    requires c.Linked() && c.Valid() && c.modifier.None?
    requires coinbase || id !in c.Contents
    modifies c
    ensures c.Valid() && c.modifier.None?
    ensures c.Contents == Put(old(c.Contents), id, Cleaned(coins))
    ensures c.base.Stack() == old(c.base.Stack())
  {
    var threw := c.ModifyNewCoins(id, coinbase);
    c.Assign(coins);
    c.EndModify();
    SameContents(c.Contents, Put(old(c.Contents), id, Cleaned(coins)));
  }

  method Use(c: CoinsViewCache, op: Op) returns (answer: Answer)
    requires c.Linked() && c.Valid() && c.modifier.None?
    requires Legal(c.Tower, op) && !op.Push? && !op.Pop?
    modifies c.Repr
    ensures c.Valid() && c.modifier.None?
    ensures c.Tower == SpecStep(old(c.Tower), op)
    ensures answer == SpecAnswer(old(c.Tower), op)
  {
    answer := Done;
    match op
    case Flush =>
      var threw := c.Flush();
    case Fetch(id) =>
      var found, coins := c.GetCoins(id);
      answer := Found(if found && !coins.IsPruned() then coins else EMPTY);
    case Have(id) =>
      var have := c.HaveCoins(id);
      answer := IsThere(have);
    case Uncache(id) =>
      c.Uncache(id);
    case Modify(id, f) =>
      Modifies(c, id, f);
    case ModifyNew(id, coinbase, coins) =>
      Creates(c, id, coinbase, coins);
  }

  method Step(top: View, op: Op) returns (next: View, answer: Answer)
    requires top.Linked() && top.Valid()
    requires Legal(top.Stack(), op)
    modifies top.Repr()
    ensures next.Linked() && next.Valid()
    ensures fresh(next.Repr() - top.Repr())
    ensures next.Stack() == SpecStep(old(top.Stack()), op)
    ensures answer == SpecAnswer(old(top.Stack()), op)
  {
    answer := Done;
    if op.Push? {
      var c := new CoinsViewCache(top);
      next := Layer(c);
    } else if op.Pop? {
      assert top.cache.Linked();
      next := top.cache.base;
    } else {
      next := top;
      answer := Use(top.cache, op);
    }
  }

  /**
   Every legal sequence of operations on a stack of caches over a database, however deep the
   stack is and gets, is indistinguishable from the same sequence on a stack of plain maps.
   */
  method Run(top: View, ops: seq<Op>) returns (final: View, answers: seq<Answer>)
    requires top.Linked() && top.Valid()
    requires LegalRun(top.Stack(), ops)
    modifies top.Repr()
    ensures final.Linked() && final.Valid()
    ensures (final.Stack(), answers) == SpecRun(old(top.Stack()), ops)
    decreases |ops|
  {
    if ops == [] {
      return top, [];
    }
    var next, answer := Step(top, ops[0]);
    final, answers := Run(next, ops[1..]);
    answers := [answer] + answers;
  }
}
