/**
 The file an address manager is saved to (Serialize and Unserialize in src/addrman.h), and the
 state a manager has after it is read back: the same up to new ids.
 */
module AddrStore {
  import opened AddrIndex
  import opened AddrCheck
  import opened Sequences

  /** What is saved of an address. */
  datatype Record = Record(service: Service, nServices: set<nat>, nTime: int, source: NetAddr, nLastSuccess: int,
                           nAttempts: int)

  function ToRecord(info: AddrInfo): Record {
    Record(info.service, info.nServices, info.nTime, info.source, info.nLastSuccess, info.nAttempts)
  }

  function FromRecord(r: Record): AddrInfo {
    AddrInfo(r.service, r.nServices, r.nTime, r.source, 0, 0, r.nLastSuccess, r.nAttempts, 0, false, -1)
  }

  datatype File = File(
    version: nat, keySize: nat, key: Hashes, nNew: int, nTried: int, nUBuckets: int,
    news: seq<Record>, trieds: seq<Record>, buckets: seq<seq<int>>)

  /** The numbers of the addresses in the first places of a bucket. */
  function BucketList(news: map<Slot, Id>, index: map<Id, int>, b: nat, i: nat): seq<int> {
    if i == 0 then []
    else
      var slot := (b, i - 1);
      BucketList(news, index, b, i - 1) + if slot in news && news[slot] in index then [index[news[slot]]] else []
  }

  /** `index` numbers the addresses in `ids` from `first` on. */
  ghost predicate Numbers(index: map<Id, int>, ids: seq<Id>, first: nat) {
    forall k :: 0 <= k < |ids| ==> ids[k] in index && index[ids[k]] == first + k
  }

  function Positions(ids: seq<Id>): map<Id, int> {
    if ids == [] then map[] else Positions(ids[..|ids| - 1])[ids[|ids| - 1] := |ids| - 1]
  }

  lemma {:induction false} PositionsNumber(ids: seq<Id>)
    requires Distinct(ids)
    ensures Numbers(Positions(ids), ids, 0) && Positions(ids).Keys == Elements(ids)
  {
    if ids != [] {
      var n := |ids| - 1;
      var front := ids[..n];
      assert ids == front + [ids[n]];
      assert Distinct(front) by {
        forall j, k | 0 <= j < k < n ensures front[j] != front[k] { assert ids[j] != ids[k]; }
      }
      PositionsNumber(front);
      assert Elements(ids) == Elements(front) + {ids[n]};
    }
  }

  lemma {:induction false} BucketListAgrees(news: map<Slot, Id>, a: map<Id, int>, c: map<Id, int>, b: nat, i: nat)
    requires forall slot :: slot in news ==> news[slot] in a && news[slot] in c && a[news[slot]] == c[news[slot]]
    ensures BucketList(news, a, b, i) == BucketList(news, c, b, i)
  {
    if i > 0 {
      BucketListAgrees(news, a, c, b, i - 1);
    }
  }

  /** The file holds the state: new addresses in the order of `ns`, tried ones in that of `ts`. */
  ghost predicate Saved(f: File, s: State, ns: seq<Id>, ts: seq<Id>) {
    && f.version == 1 && f.keySize == 32 && f.nUBuckets == NEW_BUCKET_COUNT && f.nNew == s.nNew && f.nTried == s.nTried
    && Written(s.infos, false, {}, ns, f.news) && Written(s.infos, true, {}, ts, f.trieds)
    && |f.buckets| == NEW_BUCKET_COUNT
    && forall b :: 0 <= b < NEW_BUCKET_COUNT ==> f.buckets[b] == BucketList(s.news, Positions(ns), b, BUCKET_SIZE)
  }

  // The state after reading

  /** What reading does not bring back: the last attempts; the place in vRandom is new. */
  function Reloaded(info: AddrInfo, k: int): AddrInfo {
    info.(nLastTry := 0, nLastCountAttempt := 0, nRandomPos := k)
  }

  function Renamed<K>(table: map<K, Id>, index: map<Id, int>): map<K, Id> {
    map x | x in table && table[x] in index :: index[table[x]]
  }

  /** The same addresses under new ids, in the same places. */
  ghost predicate Isomorphic(s: State, r: State, ids: seq<Id>, index: map<Id, int>) {
    && Distinct(ids) && Elements(ids) == s.infos.Keys && Numbers(index, ids, 0)
    && (forall k :: k in r.infos <==> 0 <= k < |ids|)
    && (forall k :: 0 <= k < |ids| ==> ids[k] in s.infos && r.infos[k] == Reloaded(s.infos[ids[k]], k))
    && r.order == seq(|ids|, k => k)
    && r.addrs == Renamed(s.addrs, index) && r.news == Renamed(s.news, index) && r.tried == Renamed(s.tried, index)
    && r.nNew == s.nNew && r.nTried == s.nTried && r.idCount == |ids|
  }

  lemma IndexOf(ids: seq<Id>, index: map<Id, int>, id: Id)
    requires Numbers(index, ids, 0) && id in Elements(ids)
    ensures id in index && 0 <= index[id] < |ids| && ids[index[id]] == id
  {
    var k :| 0 <= k < |ids| && ids[k] == id;
  }

  lemma SameSlots(s: State, r: State, ids: seq<Id>, index: map<Id, int>, k: int)
    requires Isomorphic(s, r, ids, index) && 0 <= k < |ids|
    requires forall slot :: slot in s.news ==> s.news[slot] in s.infos
    ensures SlotsOf(r.news, k) == SlotsOf(s.news, ids[k])
  {
    forall slot ensures slot in SlotsOf(r.news, k) <==> slot in SlotsOf(s.news, ids[k]) {
      if slot in s.news {
        assert s.news[slot] in s.infos.Keys;
        IndexOf(ids, index, s.news[slot]);
      }
    }
  }

  lemma {:induction false} SameCount(ids: seq<Id>, index: map<Id, int>, a: set<Id>, b: set<Id>)
    requires Numbers(index, ids, 0) && a <= Elements(ids)
    requires forall k :: k in b <==> 0 <= k < |ids| && ids[k] in a
    requires Distinct(ids)
    ensures |a| == |b|
    decreases a
  {
    if a == {} {
      forall k ensures k !in b { }
      assert b == {};
    } else {
      NonEmpty(a);
      var id :| id in a;
      IndexOf(ids, index, id);
      forall k ensures k in b - {index[id]} <==> 0 <= k < |ids| && ids[k] in a - {id} { }
      SameCount(ids, index, a - {id}, b - {index[id]});
      assert index[id] in b;
    }
  }

  /** Reading back keeps the invariant. */
  lemma IsomorphicIsOk(h: Hashes, s: State, r: State, ids: seq<Id>, index: map<Id, int>)
    requires Ok(h, s, {}, 0) && Isomorphic(s, r, ids, index)
    ensures Ok(h, r, {}, 0)
  {
    IsomorphicIndexed(h, s, r, ids, index);
    IsomorphicTabled(h, s, r, ids, index);
    IsomorphicCounted(h, s, r, ids, index);
  }

  lemma IsomorphicTimed(s: State, r: State, ids: seq<Id>, index: map<Id, int>)
    requires Isomorphic(s, r, ids, index) && Timed(s.infos)
    ensures Timed(r.infos)
  {
    forall k | k in r.infos ensures TimesOk(r.infos[k]) {
      assert ids[k] in s.infos && r.infos[k] == Reloaded(s.infos[ids[k]], k);
      TimesAt(s.infos, ids[k]);
    }
  }

  lemma IsomorphicCounted(h: Hashes, s: State, r: State, ids: seq<Id>, index: map<Id, int>)
    requires Ok(h, s, {}, 0) && Isomorphic(s, r, ids, index)
    ensures Counted(r, {}, 0)
  {
    hide Indexed, Tabled;
    forall id ensures id in s.infos ==> id in Elements(ids) { assert id in s.infos ==> id in s.infos.Keys; }
    SameCount(ids, index, TriedIds(s.infos), TriedIds(r.infos));
    SameCount(ids, index, NewIds(s.infos, {}), NewIds(r.infos, {}));
  }

  lemma IsomorphicIndexed(h: Hashes, s: State, r: State, ids: seq<Id>, index: map<Id, int>)
    requires Ok(h, s, {}, 0) && Isomorphic(s, r, ids, index)
    ensures Indexed(r)
  {
    hide Ok, Isomorphic;
    forall k | k in r.infos ensures IdOk(r, k) { IsomorphicId(h, s, r, ids, index, k); }
    forall ip | ip in r.addrs ensures r.addrs[ip] in r.infos && r.infos[r.addrs[ip]].service.ip == ip {
      IsomorphicAddr(h, s, r, ids, index, ip);
    }
    IsomorphicOrder(s, r, ids, index);
  }

  lemma IsomorphicOrder(s: State, r: State, ids: seq<Id>, index: map<Id, int>)
    requires Isomorphic(s, r, ids, index)
    ensures forall k :: 0 <= k < |r.order| ==> r.order[k] in r.infos && r.infos[r.order[k]].nRandomPos == k
  {
    forall k | 0 <= k < |r.order| ensures r.order[k] in r.infos && r.infos[r.order[k]].nRandomPos == k {
      assert r.order[k] == k && r.infos[k] == Reloaded(s.infos[ids[k]], k);
    }
  }

  lemma IsomorphicId(h: Hashes, s: State, r: State, ids: seq<Id>, index: map<Id, int>, k: Id)
    requires Ok(h, s, {}, 0) && Isomorphic(s, r, ids, index) && k in r.infos
    ensures IdOk(r, k)
  {
    hide Ok;
    AddrOf(h, s, ids[k]);
  }

  lemma IsomorphicAddr(h: Hashes, s: State, r: State, ids: seq<Id>, index: map<Id, int>, ip: NetAddr)
    requires Ok(h, s, {}, 0) && Isomorphic(s, r, ids, index) && ip in r.addrs
    ensures r.addrs[ip] in r.infos && r.infos[r.addrs[ip]].service.ip == ip
  {
    hide Ok;
    AddrKnown(h, s, ip);
    assert s.addrs[ip] in s.infos.Keys;
    IndexOf(ids, index, s.addrs[ip]);
  }

  lemma IsomorphicTabled(h: Hashes, s: State, r: State, ids: seq<Id>, index: map<Id, int>)
    requires Ok(h, s, {}, 0) && Isomorphic(s, r, ids, index)
    ensures Tabled(h, r, {})
  {
    hide Ok, Isomorphic;
    forall slot | slot in r.news ensures NewSlotOk(h, r, slot) { IsomorphicNew(h, s, r, ids, index, slot); }
    forall slot | slot in r.tried ensures TriedSlotOk(h, r, slot) { IsomorphicTried(h, s, r, ids, index, slot); }
    forall k | k in r.infos ensures RoleOk(h, r, {}, k) { IsomorphicRole(h, s, r, ids, index, k); }
  }

  lemma IsomorphicNew(h: Hashes, s: State, r: State, ids: seq<Id>, index: map<Id, int>, slot: Slot)
    requires Ok(h, s, {}, 0) && Isomorphic(s, r, ids, index) && slot in r.news
    ensures NewSlotOk(h, r, slot)
  {
    assert NewSlotOk(h, s, slot) && s.news[slot] in s.infos.Keys;
    IndexOf(ids, index, s.news[slot]);
  }

  lemma IsomorphicTried(h: Hashes, s: State, r: State, ids: seq<Id>, index: map<Id, int>, slot: Slot)
    requires Ok(h, s, {}, 0) && Isomorphic(s, r, ids, index) && slot in r.tried
    ensures TriedSlotOk(h, r, slot)
  {
    assert TriedSlotOk(h, s, slot) && s.tried[slot] in s.infos.Keys;
    IndexOf(ids, index, s.tried[slot]);
  }

  lemma IsomorphicRole(h: Hashes, s: State, r: State, ids: seq<Id>, index: map<Id, int>, k: Id)
    requires Ok(h, s, {}, 0) && Isomorphic(s, r, ids, index) && k in r.infos
    ensures RoleOk(h, r, {}, k)
  {
    assert RoleOk(h, s, {}, ids[k]);
    forall slot | slot in s.news ensures s.news[slot] in s.infos { assert NewSlotOk(h, s, slot); }
    SameSlots(s, r, ids, index, k);
  }

  // The tables are large enough for their addresses

  /** The places before (r, i), row by row. */
  ghost function Cells(r: nat, i: nat): (cells: set<Slot>)
    requires i <= BUCKET_SIZE
    ensures forall slot :: slot in cells ==> Before(slot, r, i)
    decreases r, i
  {
    if i > 0 then Cells(r, i - 1) + {(r, i - 1)} else if r > 0 then Cells(r - 1, BUCKET_SIZE) else {}
  }

  lemma {:induction false} CellsCount(r: nat, i: nat)
    requires i <= BUCKET_SIZE
    ensures |Cells(r, i)| == r * BUCKET_SIZE + i
    decreases r, i
  {
    if i > 0 {
      CellsCount(r, i - 1);
    } else if r > 0 {
      CellsCount(r - 1, BUCKET_SIZE);
    }
  }

  lemma {:induction false} InCells(slot: Slot, r: nat, i: nat)
    requires i <= BUCKET_SIZE && Before(slot, r, i) && slot.1 < BUCKET_SIZE
    ensures slot in Cells(r, i)
    decreases r, i
  {
    if i > 0 {
      if slot != (r, i - 1) {
        InCells(slot, r, i - 1);
      }
    } else {
      InCells(slot, r - 1, BUCKET_SIZE);
    }
  }

  lemma TableCount(table: map<Slot, Id>, rows: nat)
    requires Within(table, rows)
    ensures |table.Keys| <= rows * BUCKET_SIZE
  {
    CellsCount(rows, 0);
    forall slot | slot in table.Keys ensures slot in Cells(rows, 0) { InCells(slot, rows, 0); }
    assert Cells(rows, 0) == table.Keys + (Cells(rows, 0) - table.Keys);
  }

  ghost function SlotsHolding(table: map<Slot, Id>, ids: set<Id>): set<Slot> {
    set slot | slot in table && table[slot] in ids
  }

  lemma {:induction false} EachHasSlot(table: map<Slot, Id>, ids: set<Id>)
    requires forall id :: id in ids ==> exists slot :: slot in table && table[slot] == id
    ensures |ids| <= |SlotsHolding(table, ids)|
    decreases ids
  {
    if ids != {} {
      NonEmpty(ids);
      var id :| id in ids;
      EachHasSlot(table, ids - {id});
      var slot :| slot in table && table[slot] == id;
      var fewer, more := SlotsHolding(table, ids - {id}) + {slot}, SlotsHolding(table, ids);
      assert slot !in SlotsHolding(table, ids - {id});
      assert fewer <= more;
      assert more == fewer + (more - fewer);
    }
  }

  lemma Fits(table: map<Slot, Id>, ids: set<Id>, rows: nat)
    requires Within(table, rows)
    requires forall id :: id in ids ==> exists slot :: slot in table && table[slot] == id
    ensures |ids| <= rows * BUCKET_SIZE
  {
    EachHasSlot(table, ids);
    TableCount(table, rows);
    assert SlotsHolding(table, ids) <= table.Keys;
    assert table.Keys == SlotsHolding(table, ids) + (table.Keys - SlotsHolding(table, ids));
  }

  /** The limits that reading imposes are never exceeded. */
  lemma AddressesFit(h: Hashes, s: State)
    requires Ok(h, s, {}, 0) && Within(s.news, NEW_BUCKET_COUNT) && Within(s.tried, TRIED_BUCKET_COUNT)
    ensures s.nNew <= NEW_BUCKET_COUNT * BUCKET_SIZE && s.nTried <= TRIED_BUCKET_COUNT * BUCKET_SIZE
  {
    forall id | id in NewIds(s.infos, {}) ensures exists slot :: slot in s.news && s.news[slot] == id {
      var b := HasBucket(h, s, {}, 0, id);
    }
    Fits(s.news, NewIds(s.infos, {}), NEW_BUCKET_COUNT);
    forall id | id in TriedIds(s.infos) ensures exists slot :: slot in s.tried && s.tried[slot] == id {
      InTried(h, s, {}, 0, id);
    }
    Fits(s.tried, TriedIds(s.infos), TRIED_BUCKET_COUNT);
  }

  // Writing

  /** Which of the addresses have been written. */
  ghost predicate Written(infos: map<Id, AddrInfo>, tried: bool, todo: set<Id>, ids: seq<Id>, records: seq<Record>) {
    && Distinct(ids) && |records| == |ids|
    && Elements(ids) == (if tried then TriedIds(infos) else NewIds(infos, {})) - todo
    && forall k :: 0 <= k < |ids| ==> ids[k] in infos && records[k] == ToRecord(infos[ids[k]])
  }

  lemma WriteStep(infos: map<Id, AddrInfo>, tried: bool, todo: set<Id>, ids: seq<Id>, records: seq<Record>, id: Id)
    requires Written(infos, tried, todo, ids, records) && id in todo && id in infos
    ensures if infos[id].fInTried == tried then
              Written(infos, tried, todo - {id}, ids + [id], records + [ToRecord(infos[id])])
            else Written(infos, tried, todo - {id}, ids, records)
  {
    if infos[id].fInTried == tried {
      assert id !in Elements(ids);
      assert Elements(ids + [id]) == Elements(ids) + {id};
    }
  }

  lemma WriteEnd(infos: map<Id, AddrInfo>, tried: bool, ids: seq<Id>, records: seq<Record>)
    requires Written(infos, tried, {}, ids, records)
    ensures |ids| == |if tried then TriedIds(infos) else NewIds(infos, {})|
  {
    DistinctCount(ids);
  }

  lemma WriteRoom(infos: map<Id, AddrInfo>, tried: bool, todo: set<Id>, ids: seq<Id>, records: seq<Record>, id: Id)
    requires Written(infos, tried, todo, ids, records) && id in todo && id in infos && infos[id].fInTried == tried
    ensures |ids| < |if tried then TriedIds(infos) else NewIds(infos, {})|
  {
    DistinctCount(ids);
    var all := if tried then TriedIds(infos) else NewIds(infos, {});
    assert id in all && id !in Elements(ids);
    assert all == Elements(ids) + (all - Elements(ids));
    assert id in all - Elements(ids);
  }

  lemma NothingWritten(infos: map<Id, AddrInfo>, tried: bool)
    ensures Written(infos, tried, infos.Keys, [], [])
  {
    assert Elements<Id>([]) == {};
  }

  lemma NewCounter(h: Hashes, s: State)
    requires Ok(h, s, {}, 0)
    ensures s.nNew == |NewIds(s.infos, {})| && s.nTried == |TriedIds(s.infos)|
  {
  }

  lemma NumbersAgree(h: Hashes, s: State, ns: seq<Id>, news: seq<Record>, m: map<Id, int>)
    requires Ok(h, s, {}, 0) && Written(s.infos, false, {}, ns, news)
    requires forall k :: 0 <= k < |ns| ==> ns[k] in m && m[ns[k]] == k
    ensures forall slot :: slot in s.news ==>
              s.news[slot] in m && s.news[slot] in Positions(ns) && m[s.news[slot]] == Positions(ns)[s.news[slot]]
  {
    PositionsNumber(ns);
    forall slot | slot in s.news
      ensures s.news[slot] in m && s.news[slot] in Positions(ns) && m[s.news[slot]] == Positions(ns)[s.news[slot]]
    {
      ReferredTo(h, s, {}, 0, slot);
      assert s.news[slot] in NewIds(s.infos, {}) - {};
      IndexOf(ns, Positions(ns), s.news[slot]);
    }
  }

  // Reading

  ghost function Unseen(s: State, ids: seq<Id>, k: int, b: nat, i: nat): AddrInfo
    requires 0 <= k < |ids| && ids[k] in s.infos
  {
    Reloaded(s.infos[ids[k]], k).(nRefCount := |SeenSlots(s.news, ids[k], b, i)|)
  }

  ghost predicate Listed(s: State, ids: seq<Id>) {
    Distinct(ids) && (forall k :: 0 <= k < |ids| ==> ids[k] in s.infos) && forall id :: id in s.infos ==> id in ids
  }

  ghost predicate StageInfos(s: State, ids: seq<Id>, n: nat, infos: map<Id, AddrInfo>, order: seq<Id>, b: nat, i: nat)
    requires n <= |ids| && Listed(s, ids)
  {
    && (forall k :: k in infos <==> 0 <= k < n)
    && (forall k :: 0 <= k < n ==> infos[k] == Unseen(s, ids, k, b, i))
    && |order| == n && (forall k :: 0 <= k < n ==> order[k] == k)
  }

  function IpAt(s: State, ids: seq<Id>, k: int): NetAddr
    requires 0 <= k < |ids| && ids[k] in s.infos
  {
    s.infos[ids[k]].service.ip
  }

  ghost predicate StageAddrs(s: State, ids: seq<Id>, n: nat, addrs: map<NetAddr, Id>)
    requires n <= |ids| && Listed(s, ids)
  {
    && (forall k :: 0 <= k < n ==> IpAt(s, ids, k) in addrs && addrs[IpAt(s, ids, k)] == k)
    && (forall ip :: ip in addrs ==> 0 <= addrs[ip] < n && IpAt(s, ids, addrs[ip]) == ip)
  }

  ghost predicate StageTried(s: State, ids: seq<Id>, n: nat, tried: map<Slot, Id>)
    requires n <= |ids|
  {
    && (forall slot :: slot in tried ==> slot in s.tried && 0 <= tried[slot] < n && ids[tried[slot]] == s.tried[slot])
    && (forall slot :: slot in s.tried && s.tried[slot] in ids[..n] ==> slot in tried)
  }

  ghost predicate StageNews(s: State, ids: seq<Id>, n: nat, news: map<Slot, Id>, b: nat, i: nat)
    requires n <= |ids|
  {
    && (forall slot :: slot in news ==>
          slot in s.news && Before(slot, b, i) && 0 <= news[slot] < n && ids[news[slot]] == s.news[slot])
    && (forall slot :: slot in s.news && Before(slot, b, i) ==> slot in news)
  }

  /** `n` addresses have been read, and the places of the new table before (b, i). */
  ghost predicate Stage(s: State, ids: seq<Id>, n: nat, r: State, b: nat, i: nat) {
    && n <= |ids| && Listed(s, ids) && StageInfos(s, ids, n, r.infos, r.order, b, i) && StageAddrs(s, ids, n, r.addrs)
    && StageTried(s, ids, n, r.tried) && StageNews(s, ids, n, r.news, b, i)
  }

  lemma AllListed(h: Hashes, s: State, ns: seq<Id>, ts: seq<Id>, f: File)
    requires Ok(h, s, {}, 0) && Saved(f, s, ns, ts)
    ensures Listed(s, ns + ts)
  {
    var ids := ns + ts;
    forall j, k | 0 <= j < k < |ids| ensures ids[j] != ids[k] {
      if j < |ns| <= k {
        assert ids[j] in Elements(ns) && ids[k] in Elements(ts);
      }
    }
    forall id | id in s.infos ensures id in ids {
      assert id in Elements(ns) || id in Elements(ts);
    }
  }

  lemma StageStart(h: Hashes, s: State, ns: seq<Id>, ts: seq<Id>, f: File, r: State)
    requires Ok(h, s, {}, 0) && Saved(f, s, ns, ts)
    requires r.infos == map[] && r.addrs == map[] && r.order == [] && r.tried == map[] && r.news == map[]
    ensures Stage(s, ns + ts, 0, r, 0, 0)
  {
    hide Ok, Saved, Listed;
    AllListed(h, s, ns, ts, f);
  }

  lemma OtherIp(h: Hashes, s: State, ids: seq<Id>, j: int, k: int)
    requires Ok(h, s, {}, 0) && Listed(s, ids) && 0 <= j < k < |ids|
    ensures IpAt(s, ids, j) != IpAt(s, ids, k)
  {
    assert IdOk(s, ids[j]) && IdOk(s, ids[k]);
  }

  lemma AddrsStep(h: Hashes, s: State, ids: seq<Id>, n: nat, addrs: map<NetAddr, Id>)
    requires Ok(h, s, {}, 0) && n < |ids| && Listed(s, ids) && StageAddrs(s, ids, n, addrs)
    ensures StageAddrs(s, ids, n + 1, addrs[IpAt(s, ids, n) := n])
  {
    hide Ok;
    forall k | 0 <= k < n ensures IpAt(s, ids, k) != IpAt(s, ids, n) { OtherIp(h, s, ids, k, n); }
  }

  lemma InfosStep(s: State, ids: seq<Id>, n: nat, infos: map<Id, AddrInfo>, order: seq<Id>)
    requires n < |ids| && Listed(s, ids) && StageInfos(s, ids, n, infos, order, 0, 0)
    ensures StageInfos(s, ids, n + 1, infos[n := Reloaded(s.infos[ids[n]], n).(nRefCount := 0)], order + [n], 0, 0)
  {
    assert SeenSlots(s.news, ids[n], 0, 0) == {};
  }

  lemma TriedSame(s: State, ids: seq<Id>, n: nat, tried: map<Slot, Id>)
    requires n < |ids| && StageTried(s, ids, n, tried) && forall slot :: slot in s.tried ==> s.tried[slot] != ids[n]
    ensures StageTried(s, ids, n + 1, tried)
  {
    assert ids[..n + 1] == ids[..n] + [ids[n]];
  }

  lemma TriedNext(s: State, ids: seq<Id>, n: nat, tried: map<Slot, Id>, slot: Slot)
    requires n < |ids| && Listed(s, ids) && StageTried(s, ids, n, tried) && slot in s.tried && s.tried[slot] == ids[n]
    requires forall x :: x in s.tried && s.tried[x] == ids[n] ==> x == slot
    ensures slot !in tried && StageTried(s, ids, n + 1, tried[slot := n])
  {
    assert ids[..n + 1] == ids[..n] + [ids[n]];
  }

  /** The next address is new. */
  lemma StageNew(h: Hashes, s: State, ns: seq<Id>, ts: seq<Id>, f: File, n: nat, r: State, q: State)
    requires Ok(h, s, {}, 0) && Saved(f, s, ns, ts) && Stage(s, ns + ts, n, r, 0, 0) && n < |ns|
    requires n < |f.news|
    requires q.infos == r.infos[n := FromRecord(f.news[n]).(nRandomPos := n)] && q.order == r.order + [n]
    requires q.addrs == r.addrs[f.news[n].service.ip := n] && q.tried == r.tried && q.news == r.news
    ensures Stage(s, ns + ts, n + 1, q, 0, 0)
  {
    hide Ok, Saved, Listed, StageInfos, StageAddrs, StageTried;
    NewRecord(h, s, ns, ts, f, n);
    InfosStep(s, ns + ts, n, r.infos, r.order);
    AddrsStep(h, s, ns + ts, n, r.addrs);
    TriedSame(s, ns + ts, n, r.tried);
  }

  lemma NewRecord(h: Hashes, s: State, ns: seq<Id>, ts: seq<Id>, f: File, n: nat)
    requires Ok(h, s, {}, 0) && Saved(f, s, ns, ts) && n < |ns|
    ensures n < |f.news| && ns[n] in s.infos && (ns + ts)[n] == ns[n]
    ensures f.news[n].service == s.infos[ns[n]].service
    ensures FromRecord(f.news[n]).(nRandomPos := n) == Reloaded(s.infos[ns[n]], n).(nRefCount := 0)
    ensures forall slot :: slot in s.tried ==> s.tried[slot] != ns[n]
  {
    assert ns[n] in Elements(ns);
    forall slot | slot in s.tried ensures s.tried[slot] != ns[n] { assert TriedSlotOk(h, s, slot); }
  }

  lemma TriedRecord(h: Hashes, s: State, ns: seq<Id>, ts: seq<Id>, f: File, n: nat)
    requires Ok(h, s, {}, 0) && Saved(f, s, ns, ts) && n < |ts|
    ensures n < |f.trieds| && ts[n] in s.infos && (ns + ts)[|ns| + n] == ts[n]
    ensures f.trieds[n].service == s.infos[ts[n]].service
    ensures FromRecord(f.trieds[n]).(nRandomPos := |ns| + n, fInTried := true) ==
              Reloaded(s.infos[ts[n]], |ns| + n).(nRefCount := 0)
    ensures var slot := h.TriedSlot(s.infos[ts[n]].service);
            slot in s.tried && s.tried[slot] == ts[n] && forall x :: x in s.tried && s.tried[x] == ts[n] ==> x == slot
  {
    assert ts[n] in Elements(ts);
    InTried(h, s, {}, 0, ts[n]);
    forall x | x in s.tried && s.tried[x] == ts[n] ensures x == h.TriedSlot(s.infos[ts[n]].service) {
      assert TriedSlotOk(h, s, x);
    }
  }

  /** The next address is a tried one, and its place is free. */
  lemma StageNextTried(h: Hashes, s: State, ns: seq<Id>, ts: seq<Id>, f: File, n: nat, r: State)
    requires Ok(h, s, {}, 0) && Saved(f, s, ns, ts) && Stage(s, ns + ts, |ns| + n, r, 0, 0) && n < |ts|
    ensures n < |f.trieds| && h.TriedSlot(f.trieds[n].service) !in r.tried
    ensures var k := |ns| + n;
            var q := r.(infos := r.infos[k := FromRecord(f.trieds[n]).(nRandomPos := k, fInTried := true)],
                        order := r.order + [k], addrs := r.addrs[f.trieds[n].service.ip := k],
                        tried := r.tried[h.TriedSlot(f.trieds[n].service) := k], idCount := k + 1);
            Stage(s, ns + ts, k + 1, q, 0, 0)
  {
    hide Ok, Saved, Listed, StageInfos, StageAddrs, StageTried;
    TriedRecord(h, s, ns, ts, f, n);
    var k, ids := |ns| + n, ns + ts;
    InfosStep(s, ids, k, r.infos, r.order);
    AddrsStep(h, s, ids, k, r.addrs);
    TriedNext(s, ids, k, r.tried, h.TriedSlot(s.infos[ts[n]].service));
  }

  // Reading the places of the new table

  lemma {:induction false} BucketListGrows(news: map<Slot, Id>, index: map<Id, int>, b: nat, i: nat, j: nat)
    requires i <= j
    ensures BucketList(news, index, b, i) <= BucketList(news, index, b, j)
    decreases j
  {
    if i < j {
      BucketListGrows(news, index, b, i, j - 1);
    }
  }

  /** The next entry of a bucket's list belongs to its next occupied place. */
  lemma {:induction false} NextPlace(s: State, ids: seq<Id>, index: map<Id, int>, b: nat, i: nat, n: nat,
                                     r: State) returns (j: nat)
    requires i <= BUCKET_SIZE && Stage(s, ids, n, r, b, i)
    requires forall slot :: slot in s.news ==> s.news[slot] in index
    requires |BucketList(s.news, index, b, i)| < |BucketList(s.news, index, b, BUCKET_SIZE)|
    ensures i <= j < BUCKET_SIZE && (b, j) in s.news && Stage(s, ids, n, r, b, j)
    ensures var k := |BucketList(s.news, index, b, i)|;
            && BucketList(s.news, index, b, BUCKET_SIZE)[k] == index[s.news[(b, j)]]
            && |BucketList(s.news, index, b, j + 1)| == k + 1
    decreases BUCKET_SIZE - i
  {
    hide Stage;
    BucketListGrows(s.news, index, b, i, BUCKET_SIZE);
    if (b, i) in s.news {
      j := i;
      BucketListGrows(s.news, index, b, i + 1, BUCKET_SIZE);
    } else {
      StageSkip(s, ids, n, r, b, i);
      j := NextPlace(s, ids, index, b, i + 1, n, r);
    }
  }

  /** A place that is free is read without a trace. */
  lemma StageSkip(s: State, ids: seq<Id>, n: nat, r: State, b: nat, i: nat)
    requires Stage(s, ids, n, r, b, i) && (b, i) !in s.news
    ensures Stage(s, ids, n, r, b, i + 1)
  {
    InfosSkip(s, ids, n, r.infos, r.order, b, i);
    forall slot: Slot ensures Before(slot, b, i + 1) <==> Before(slot, b, i) || slot == (b, i) { }
  }

  lemma InfosSkip(s: State, ids: seq<Id>, n: nat, infos: map<Id, AddrInfo>, order: seq<Id>, b: nat, i: nat)
    requires n <= |ids| && Listed(s, ids) && StageInfos(s, ids, n, infos, order, b, i) && (b, i) !in s.news
    ensures StageInfos(s, ids, n, infos, order, b, i + 1)
  {
    forall k | 0 <= k < n ensures Unseen(s, ids, k, b, i + 1) == Unseen(s, ids, k, b, i) {
      SeenStep(s.news, ids[k], b, i);
    }
  }

  /** A place that is taken goes to the same address, which gets one more reference. */
  lemma StageSlot(s: State, ids: seq<Id>, n: nat, r: State, b: nat, i: nat, k: int)
    requires Stage(s, ids, n, r, b, i) && (b, i) in s.news && 0 <= k < n && ids[k] == s.news[(b, i)]
    ensures k in r.infos && (b, i) !in r.news && Stage(s, ids, n, Occupy(r, (b, i), k), b, i + 1)
  {
    hide Listed, StageAddrs, StageTried, StageInfos, StageNews;
    SlotInfos(s, ids, n, r.infos, r.order, b, i, k);
    SlotNews(s, ids, n, r.news, b, i, k);
  }

  lemma SlotInfos(s: State, ids: seq<Id>, n: nat, infos: map<Id, AddrInfo>, order: seq<Id>, b: nat, i: nat, k: int)
    requires n <= |ids| && Listed(s, ids) && StageInfos(s, ids, n, infos, order, b, i)
    requires (b, i) in s.news && 0 <= k < n && ids[k] == s.news[(b, i)]
    ensures k in infos
    ensures StageInfos(s, ids, n, infos[k := infos[k].(nRefCount := infos[k].nRefCount + 1)], order, b, i + 1)
  {
    forall j | 0 <= j < n
      ensures Unseen(s, ids, j, b, i + 1) ==
              if j == k then infos[k].(nRefCount := infos[k].nRefCount + 1) else Unseen(s, ids, j, b, i)
    {
      SeenStep(s.news, ids[j], b, i);
    }
  }

  lemma SlotNews(s: State, ids: seq<Id>, n: nat, news: map<Slot, Id>, b: nat, i: nat, k: int)
    requires n <= |ids| && StageNews(s, ids, n, news, b, i) && (b, i) in s.news && 0 <= k < n &&
               ids[k] == s.news[(b, i)]
    ensures (b, i) !in news && StageNews(s, ids, n, news[(b, i) := k], b, i + 1)
  {
    forall slot: Slot ensures Before(slot, b, i + 1) <==> Before(slot, b, i) || slot == (b, i) { }
  }

  /** At the end of a bucket. */
  lemma StageRow(s: State, ids: seq<Id>, n: nat, r: State, b: nat)
    requires Stage(s, ids, n, r, b, BUCKET_SIZE) && Within(s.news, NEW_BUCKET_COUNT)
    ensures Stage(s, ids, n, r, b + 1, 0)
  {
    forall slot | slot in s.news ensures Before(slot, b + 1, 0) <==> Before(slot, b, BUCKET_SIZE) { }
    forall k | 0 <= k < n ensures Unseen(s, ids, k, b + 1, 0) == Unseen(s, ids, k, b, BUCKET_SIZE) {
      assert SeenSlots(s.news, ids[k], b + 1, 0) == SeenSlots(s.news, ids[k], b, BUCKET_SIZE);
    }
  }

  /** No more entries: the remaining places of the bucket are free. */
  lemma {:induction false} SkipRest(s: State, ids: seq<Id>, index: map<Id, int>, n: nat, r: State, b: nat, i: nat)
    requires i <= BUCKET_SIZE && Stage(s, ids, n, r, b, i)
    requires forall slot :: slot in s.news ==> s.news[slot] in index
    requires |BucketList(s.news, index, b, i)| == |BucketList(s.news, index, b, BUCKET_SIZE)|
    ensures Stage(s, ids, n, r, b, BUCKET_SIZE)
    decreases BUCKET_SIZE - i
  {
    hide Stage;
    if i < BUCKET_SIZE {
      BucketListGrows(s.news, index, b, i + 1, BUCKET_SIZE);
      StageSkip(s, ids, n, r, b, i);
      SkipRest(s, ids, index, n, r, b, i + 1);
    }
  }

  /** A place read from the file: the address is known, the place is free, and more references are allowed. */
  lemma PlaceIsFree(h: Hashes, s: State, ns: seq<Id>, ts: seq<Id>, f: File, r: State, b: nat, i: nat, k: int)
    requires Ok(h, s, {}, 0) && Saved(f, s, ns, ts) && Stage(s, ns + ts, |ns + ts|, r, b, i)
    requires (b, i) in s.news && s.news[(b, i)] in Positions(ns) && k == Positions(ns)[s.news[(b, i)]]
    ensures 0 <= k < |ns| && (ns + ts)[k] == s.news[(b, i)] && k in r.infos
    ensures h.Position(true, b, r.infos[k].service) == i && r.infos[k].nRefCount < NEW_BUCKETS_PER_ADDRESS
  {
    PositionsNumber(ns);
    IndexOf(ns, Positions(ns), s.news[(b, i)]);
    ReferredTo(h, s, {}, 0, (b, i));
    var id := s.news[(b, i)];
    assert RoleOk(h, s, {}, id);
    assert r.infos[k] == Unseen(s, ns + ts, k, b, i);
    SeenStep(s.news, id, b, i);
    SeenAtMost(s.news, id, b, i + 1);
  }

  lemma AllNumbered(h: Hashes, s: State, ns: seq<Id>, ts: seq<Id>, f: File)
    requires Ok(h, s, {}, 0) && Saved(f, s, ns, ts)
    ensures forall slot :: slot in s.news ==> s.news[slot] in Positions(ns)
  {
    PositionsNumber(ns);
    forall slot | slot in s.news ensures s.news[slot] in Positions(ns) {
      ReferredTo(h, s, {}, 0, slot);
      assert s.news[slot] in Elements(ns);
    }
  }

  /** Everything has been read. */
  lemma StageEnd(h: Hashes, s: State, ids: seq<Id>, r: State)
    requires Ok(h, s, {}, 0) && Stage(s, ids, |ids|, r, NEW_BUCKET_COUNT, 0) && Within(s.news, NEW_BUCKET_COUNT)
    requires r.nNew == s.nNew && r.nTried == s.nTried && r.idCount == |ids|
    ensures Isomorphic(s, r, ids, Positions(ids))
  {
    hide Ok, Stage, StageInfos;
    EndInfos(h, s, ids, r);
    EndTables(h, s, ids, r);
    PositionsNumber(ids);
  }

  lemma References(h: Hashes, s: State, id: Id)
    requires Ok(h, s, {}, 0) && id in s.infos
    ensures s.infos[id].nRefCount == |SlotsOf(s.news, id)|
  {
    assert RoleOk(h, s, {}, id);
  }

  lemma EndInfos(h: Hashes, s: State, ids: seq<Id>, r: State)
    requires Ok(h, s, {}, 0) && Stage(s, ids, |ids|, r, NEW_BUCKET_COUNT, 0) && Within(s.news, NEW_BUCKET_COUNT)
    ensures Distinct(ids) && Elements(ids) == s.infos.Keys && r.order == seq(|ids|, k => k)
    ensures forall k :: k in r.infos <==> 0 <= k < |ids|
    ensures forall k :: 0 <= k < |ids| ==> ids[k] in s.infos && r.infos[k] == Reloaded(s.infos[ids[k]], k)
  {
    hide Ok;
    assert Elements(ids) == s.infos.Keys by {
      forall id ensures id in Elements(ids) <==> id in s.infos.Keys { }
    }
    forall k | 0 <= k < |ids| ensures k in r.infos && r.infos[k] == Reloaded(s.infos[ids[k]], k) {
      References(h, s, ids[k]);
      assert SeenSlots(s.news, ids[k], NEW_BUCKET_COUNT, 0) == SlotsOf(s.news, ids[k]);
      assert r.infos[k] == Unseen(s, ids, k, NEW_BUCKET_COUNT, 0);
    }
  }

  lemma EndTables(h: Hashes, s: State, ids: seq<Id>, r: State)
    requires Ok(h, s, {}, 0) && Stage(s, ids, |ids|, r, NEW_BUCKET_COUNT, 0) && Within(s.news, NEW_BUCKET_COUNT)
    ensures r.addrs == Renamed(s.addrs, Positions(ids))
    ensures r.news == Renamed(s.news, Positions(ids)) && r.tried == Renamed(s.tried, Positions(ids))
  {
    hide Ok, StageInfos, StageAddrs, StageNews, StageTried, Listed;
    EndAddrs(h, s, ids, r.addrs);
    EndNews(h, s, ids, r.news);
    EndTried(h, s, ids, r.tried);
  }

  lemma EndAddrs(h: Hashes, s: State, ids: seq<Id>, addrs: map<NetAddr, Id>)
    requires Ok(h, s, {}, 0) && Listed(s, ids) && StageAddrs(s, ids, |ids|, addrs)
    ensures addrs == Renamed(s.addrs, Positions(ids))
  {
    hide Ok;
    PositionsNumber(ids);
    forall ip ensures ip in addrs <==> ip in Renamed(s.addrs, Positions(ids)) {
      if ip in s.addrs {
        AddrKnown(h, s, ip);
        IndexOf(ids, Positions(ids), s.addrs[ip]);
        assert IpAt(s, ids, Positions(ids)[s.addrs[ip]]) == ip;
      }
      if ip in addrs {
        AddrOf(h, s, ids[addrs[ip]]);
      }
    }
    forall ip | ip in addrs ensures addrs[ip] == Positions(ids)[s.addrs[ip]] { AddrOf(h, s, ids[addrs[ip]]); }
  }

  lemma EndNews(h: Hashes, s: State, ids: seq<Id>, news: map<Slot, Id>)
    requires Ok(h, s, {}, 0) && Listed(s, ids) && Within(s.news, NEW_BUCKET_COUNT)
    requires StageNews(s, ids, |ids|, news, NEW_BUCKET_COUNT, 0)
    ensures news == Renamed(s.news, Positions(ids))
  {
    hide Ok;
    PositionsNumber(ids);
    forall slot ensures slot in news <==> slot in Renamed(s.news, Positions(ids)) {
      if slot in s.news {
        assert Before(slot, NEW_BUCKET_COUNT, 0);
        Known(h, s, {}, 0, slot);
      }
    }
  }

  lemma EndTried(h: Hashes, s: State, ids: seq<Id>, tried: map<Slot, Id>)
    requires Ok(h, s, {}, 0) && Listed(s, ids) && StageTried(s, ids, |ids|, tried)
    ensures tried == Renamed(s.tried, Positions(ids))
  {
    hide Ok;
    PositionsNumber(ids);
    assert ids[..|ids|] == ids;
    forall slot ensures slot in tried <==> slot in Renamed(s.tried, Positions(ids)) {
      if slot in s.tried {
        Occupied(h, s, {}, 0, slot);
      }
    }
  }

  lemma StageOrder(s: State, ids: seq<Id>, n: nat, r: State, b: nat, i: nat)
    requires Stage(s, ids, n, r, b, i)
    ensures |r.order| == n
  {
  }

  /** Counters play no part in a stage. */
  lemma StageSame(s: State, ids: seq<Id>, n: nat, r: State, q: State, b: nat, i: nat)
    requires Stage(s, ids, n, r, b, i)
    requires q.infos == r.infos && q.addrs == r.addrs && q.order == r.order && q.tried == r.tried && q.news == r.news
    ensures Stage(s, ids, n, q, b, i)
  {
  }

  lemma SavedCounts(h: Hashes, s: State, f: File, ns: seq<Id>, ts: seq<Id>)
    requires Ok(h, s, {}, 0) && Saved(f, s, ns, ts)
    ensures f.nNew == |ns| && f.nTried == |ts|
  {
    WriteEnd(s.infos, false, ns, f.news);
    WriteEnd(s.infos, true, ts, f.trieds);
  }
}
