/**
 The address manager (src/addrman.h, src/addrman.cpp): redundant indexes over the known
 addresses, with a "new" table that refers to an address up to eight times and a "tried" table
 that refers to it once.

 This module has the data, the invariant behind the source's Check_, and the small changes the
 operations are made of. Module AddrMan has the class.
 */
module AddrIndex {
  import opened Numbers
  import Sequences

  const TRIED_BUCKET_COUNT := 256
  const NEW_BUCKET_COUNT := 1024
  const BUCKET_SIZE := 64
  const NEW_BUCKETS_PER_ADDRESS := 8
  const HORIZON_DAYS := 30
  const RETRIES := 3
  const MAX_FAILURES := 10
  const MIN_FAIL_DAYS := 7

  type NetAddr = nat
  datatype Service = Service(ip: NetAddr, port: nat)

  datatype AddrInfo = AddrInfo(
    service: Service, nServices: set<nat>, nTime: int, source: NetAddr,
    nLastTry: int, nLastCountAttempt: int, nLastSuccess: int, nAttempts: int,
    nRefCount: int, fInTried: bool, nRandomPos: int)
  {
    predicate IsTerrible(nNow: int) {
      if nLastTry != 0 && nLastTry >= nNow - 60 then false
      else if nTime > nNow + 10 * 60 then true
      else if nTime == 0 || nNow - nTime > HORIZON_DAYS * 24 * 60 * 60 then true
      else if nLastSuccess == 0 && nAttempts >= RETRIES then true
      else nNow - nLastSuccess > MIN_FAIL_DAYS * 24 * 60 * 60 && nAttempts >= MAX_FAILURES
    }
  }

  /**
   An address is terrible if it was not tried in the last minute, and is from the future, or has
   not been seen for a month, or never worked in three attempts, or failed ten times in a week.
   */
  lemma TerribleExactly(info: AddrInfo, nNow: int)
    ensures info.IsTerrible(nNow) <==>
              && (info.nLastTry == 0 || info.nLastTry < nNow - 60)
              && (|| info.nTime > nNow + 600
                  || info.nTime == 0 || info.nTime < nNow - 2592000
                  || (info.nLastSuccess == 0 && info.nAttempts >= 3)
                  || (info.nLastSuccess < nNow - 604800 && info.nAttempts >= 10))
  {
  }

  /** The keyed hashes: arbitrary functions, reduced to a bucket or a position as the source does. */
  datatype Hashes = Hashes(
    keyIsNull: bool, tried: Service -> nat, news: (Service, NetAddr) -> nat, position: (bool, nat, Service) -> nat)
  {
    function TriedBucket(s: Service): nat { tried(s) % TRIED_BUCKET_COUNT }
    function NewBucket(s: Service, source: NetAddr): nat { news(s, source) % NEW_BUCKET_COUNT }
    function Position(isNew: bool, bucket: nat, s: Service): nat { position(isNew, bucket, s) % BUCKET_SIZE }
    function TriedSlot(s: Service): Slot { (TriedBucket(s), Position(false, TriedBucket(s), s)) }
    function NewSlot(s: Service, bucket: nat): Slot { (bucket, Position(true, bucket, s)) }
  }

  /** Bucket and position. */
  type Slot = (nat, nat)
  type Id = int

  datatype State = State(
    infos: map<Id, AddrInfo>, addrs: map<NetAddr, Id>, order: seq<Id>,
    tried: map<Slot, Id>, news: map<Slot, Id>, nTried: int, nNew: int, idCount: Id)

  // The invariant

  /** mapInfo, mapAddr and vRandom are inverses of each other. */
  ghost predicate Indexed(s: State) {
    && (forall id :: id in s.infos ==> IdOk(s, id))
    && (forall ip :: ip in s.addrs ==> s.addrs[ip] in s.infos && s.infos[s.addrs[ip]].service.ip == ip)
    && (forall k :: 0 <= k < |s.order| ==> s.order[k] in s.infos && s.infos[s.order[k]].nRandomPos == k)
  }

  ghost predicate IdOk(s: State, id: Id)
    requires id in s.infos
  {
    var info := s.infos[id];
    && 0 <= id < s.idCount
    && info.service.ip in s.addrs && s.addrs[info.service.ip] == id
    && 0 <= info.nRandomPos < |s.order| && s.order[info.nRandomPos] == id
  }

  /** The places in the new table that refer to an address. */
  function SlotsOf(news: map<Slot, Id>, id: Id): set<Slot> {
    set slot | slot in news && news[slot] == id
  }

  ghost predicate NewSlotOk(h: Hashes, s: State, slot: Slot)
    requires slot in s.news
  {
    var id := s.news[slot];
    && id in s.infos && slot.0 < NEW_BUCKET_COUNT
    && slot == h.NewSlot(s.infos[id].service, slot.0)
  }

  ghost predicate TriedSlotOk(h: Hashes, s: State, slot: Slot)
    requires slot in s.tried
  {
    var id := s.tried[slot];
    id in s.infos && s.infos[id].fInTried && slot == h.TriedSlot(s.infos[id].service)
  }

  /** How an address is referred to. Addresses in limbo are just being moved and in no table. */
  ghost predicate RoleOk(h: Hashes, s: State, limbo: set<Id>, id: Id)
    requires id in s.infos
  {
    var info := s.infos[id];
    && info.nRefCount == |SlotsOf(s.news, id)|
    && if info.fInTried then
         && id !in limbo && info.nRefCount == 0
         && h.TriedSlot(info.service) in s.tried && s.tried[h.TriedSlot(info.service)] == id
       else if id in limbo then info.nRefCount == 0
       else 1 <= info.nRefCount <= NEW_BUCKETS_PER_ADDRESS
  }

  ghost predicate Tabled(h: Hashes, s: State, limbo: set<Id>) {
    && (forall slot :: slot in s.news ==> NewSlotOk(h, s, slot))
    && (forall slot :: slot in s.tried ==> TriedSlotOk(h, s, slot))
    && (forall id :: id in s.infos ==> RoleOk(h, s, limbo, id))
  }

  function TriedIds(infos: map<Id, AddrInfo>): set<Id> {
    set id | id in infos && infos[id].fInTried
  }

  function NewIds(infos: map<Id, AddrInfo>, limbo: set<Id>): set<Id> {
    set id | id in infos && !infos[id].fInTried && id !in limbo
  }

  /** The counters; nNew is ahead of the table by `ahead` while an address is being moved. */
  ghost predicate Counted(s: State, limbo: set<Id>, ahead: int) {
    && s.nTried == |TriedIds(s.infos)|
    && s.nNew == |NewIds(s.infos, limbo)| + ahead
  }

  // The times, which are in order unless a caller's clock is not

  predicate TimesOk(info: AddrInfo) {
    info.nLastTry >= 0 && info.nLastSuccess >= 0 && (info.fInTried ==> info.nLastSuccess != 0)
  }

  ghost predicate Timed(infos: map<Id, AddrInfo>) { forall id :: id in infos ==> TimesOk(infos[id]) }

  lemma TimesAt(infos: map<Id, AddrInfo>, id: Id)
    requires Timed(infos) && id in infos
    ensures TimesOk(infos[id])
  {
  }

  ghost predicate SameTimes(a: AddrInfo, b: AddrInfo) {
    b.nLastTry == a.nLastTry && b.nLastSuccess == a.nLastSuccess && (b.fInTried ==> a.fInTried)
  }

  ghost predicate TimesFrom(a: map<Id, AddrInfo>, b: map<Id, AddrInfo>) {
    forall id :: id in b ==> id in a && SameTimes(a[id], b[id])
  }

  /** The structure: everything Check_ demands but the times. */
  ghost predicate Ok(h: Hashes, s: State, limbo: set<Id>, ahead: int) {
    && (forall id :: id in limbo ==> id in s.infos)
    && Indexed(s) && Tabled(h, s, limbo) && Counted(s, limbo, ahead)
  }

  // The changes

  function SwapRandom(s: State, p: nat, q: nat): State
    requires p < |s.order| && q < |s.order| && s.order[p] in s.infos && s.order[q] in s.infos
  {
    if p == q then s
    else
      var a, b := s.order[p], s.order[q];
      var infos := s.infos[a := s.infos[a].(nRandomPos := q)];
      s.(infos := infos[b := infos[b].(nRandomPos := p)], order := s.order[p := b][q := a])
  }

  /** Only statistics and the place in vRandom differ. */
  ghost predicate SameRole(a: AddrInfo, b: AddrInfo) {
    b.service == a.service && b.nRefCount == a.nRefCount && b.fInTried == a.fInTried
  }

  ghost predicate SameRoles(a: map<Id, AddrInfo>, b: map<Id, AddrInfo>) {
    && (forall id :: id in a <==> id in b)
    && (forall id :: id in a ==> SameRole(a[id], b[id]))
  }

  lemma SameRolesKeep(h: Hashes, s: State, r: State, limbo: set<Id>, ahead: int)
    requires Tabled(h, s, limbo) && Counted(s, limbo, ahead) && SameRoles(s.infos, r.infos)
    requires r.news == s.news && r.tried == s.tried && r.nTried == s.nTried && r.nNew == s.nNew
    ensures Tabled(h, r, limbo) && Counted(r, limbo, ahead)
  {
    forall id
      ensures id in TriedIds(r.infos) <==> id in TriedIds(s.infos)
      ensures id in NewIds(r.infos, limbo) <==> id in NewIds(s.infos, limbo)
    {
      assert id in s.infos ==> SameRole(s.infos[id], r.infos[id]);
    }
    assert TriedIds(r.infos) == TriedIds(s.infos) && NewIds(r.infos, limbo) == NewIds(s.infos, limbo);
    forall id | id in r.infos ensures RoleOk(h, r, limbo, id) { assert RoleOk(h, s, limbo, id); }
    forall slot | slot in r.news ensures NewSlotOk(h, r, slot) { assert NewSlotOk(h, s, slot); }
    forall slot | slot in r.tried ensures TriedSlotOk(h, r, slot) { assert TriedSlotOk(h, s, slot); }
  }

  lemma SwapIndexed(s: State, p: nat, q: nat)
    requires Indexed(s) && p < |s.order| && q < |s.order|
    ensures Indexed(SwapRandom(s, p, q))
  {
    var r := SwapRandom(s, p, q);
    assert IdOk(s, s.order[p]) && IdOk(s, s.order[q]);
    forall id | id in r.infos ensures IdOk(r, id) { assert IdOk(s, id); }
    forall k | 0 <= k < |r.order| ensures r.order[k] in r.infos && r.infos[r.order[k]].nRandomPos == k {
      assert IdOk(s, s.order[k]);
    }
  }

  lemma SwapRoles(h: Hashes, s: State, limbo: set<Id>, p: nat, q: nat)
    requires Indexed(s) && Tabled(h, s, limbo) && p < |s.order| && q < |s.order|
    ensures SameRoles(s.infos, SwapRandom(s, p, q).infos)
  {
    forall id | id in s.infos ensures SameRole(s.infos[id], SwapRandom(s, p, q).infos[id]) {
      assert RoleOk(h, s, limbo, id);
    }
  }

  lemma SwapKeeps(h: Hashes, s: State, limbo: set<Id>, ahead: int, p: nat, q: nat)
    requires Ok(h, s, limbo, ahead) && p < |s.order| && q < |s.order|
    ensures Ok(h, SwapRandom(s, p, q), limbo, ahead)
  {
    hide Indexed, Tabled, SameRoles;
    SwapIndexed(s, p, q);
    SwapRoles(h, s, limbo, p, q);
    SameRolesKeep(h, s, SwapRandom(s, p, q), limbo, ahead);
  }

  /** Takes an address in limbo out of every index. */
  function Delete(s: State, id: Id): State
    requires id in s.infos && 0 <= s.infos[id].nRandomPos < |s.order|
    requires s.order[s.infos[id].nRandomPos] == id && s.order[|s.order| - 1] in s.infos
  {
    var r := SwapRandom(s, s.infos[id].nRandomPos, |s.order| - 1);
    r.(order := r.order[..|r.order| - 1], addrs := r.addrs - {s.infos[id].service.ip}, infos := r.infos - {id},
       nNew := r.nNew - 1)
  }

  /** Taking out an address that is last in vRandom. */
  lemma DropKeeps(h: Hashes, s: State, r: State, limbo: set<Id>, ahead: int, id: Id)
    requires Ok(h, s, limbo, ahead) && id in limbo && s.order != [] && s.order[|s.order| - 1] == id
    requires r == s.(order := s.order[..|s.order| - 1], addrs := s.addrs - {s.infos[id].service.ip},
                     infos := s.infos - {id}, nNew := s.nNew - 1)
    ensures Ok(h, r, limbo - {id}, ahead - 1)
  {
    assert RoleOk(h, s, limbo, id) && IdOk(s, id);
    assert SlotsOf(s.news, id) == {};
    assert forall slot :: slot in s.news ==> s.news[slot] != id by {
      forall slot | slot in s.news ensures s.news[slot] != id {
        assert slot in SlotsOf(s.news, s.news[slot]);
      }
    }
    assert TriedIds(r.infos) == TriedIds(s.infos);
    assert NewIds(r.infos, limbo - {id}) == NewIds(s.infos, limbo);
    forall x | x in r.infos ensures IdOk(r, x) && RoleOk(h, r, limbo - {id}, x) {
      assert IdOk(s, x) && RoleOk(h, s, limbo, x);
    }
    forall slot | slot in r.news ensures NewSlotOk(h, r, slot) { assert NewSlotOk(h, s, slot); }
    forall slot | slot in r.tried ensures TriedSlotOk(h, r, slot) { assert TriedSlotOk(h, s, slot); }
  }

  lemma LastInOrder(s: State, id: Id)
    requires Indexed(s) && id in s.infos
    ensures 0 <= s.infos[id].nRandomPos < |s.order| && s.order[s.infos[id].nRandomPos] == id
    ensures s.order[|s.order| - 1] in s.infos
  {
    assert IdOk(s, id);
  }

  lemma SwappedLast(s: State, p: nat)
    requires p < |s.order| && s.order[p] in s.infos && s.order[|s.order| - 1] in s.infos
    ensures var r := SwapRandom(s, p, |s.order| - 1);
            && |r.order| == |s.order| && r.order[|s.order| - 1] == s.order[p] && s.order[p] in r.infos
            && r.infos[s.order[p]].service == s.infos[s.order[p]].service
  {
  }

  lemma DeleteKeeps(h: Hashes, s: State, limbo: set<Id>, ahead: int, id: Id)
    requires Ok(h, s, limbo, ahead) && id in limbo
    ensures 0 <= s.infos[id].nRandomPos < |s.order| && s.order[s.infos[id].nRandomPos] == id
    ensures s.order[|s.order| - 1] in s.infos
    ensures Ok(h, Delete(s, id), limbo - {id}, ahead - 1)
  {
    hide Indexed, Tabled, Counted, SwapRandom;
    LastInOrder(s, id);
    var p := s.infos[id].nRandomPos;
    SwappedLast(s, p);
    SwapKeeps(h, s, limbo, ahead, p, |s.order| - 1);
    DropKeeps(h, SwapRandom(s, p, |s.order| - 1), Delete(s, id), limbo, ahead, id);
  }

  function SetInfo(s: State, id: Id, info: AddrInfo): State {
    s.(infos := s.infos[id := info])
  }

  lemma SetInfoIndexed(s: State, r: State, id: Id)
    requires Indexed(s) && id in s.infos && id in r.infos && r.infos == s.infos[id := r.infos[id]]
    requires r.infos[id].service == s.infos[id].service && r.infos[id].nRandomPos == s.infos[id].nRandomPos
    requires r.addrs == s.addrs && r.order == s.order && r.idCount == s.idCount
    ensures Indexed(r)
  {
    forall x | x in r.infos ensures IdOk(r, x) { assert IdOk(s, x); }
  }

  /** Statistics may change freely. */
  lemma SetInfoKeeps(h: Hashes, s: State, limbo: set<Id>, ahead: int, id: Id, info: AddrInfo)
    requires Ok(h, s, limbo, ahead) && id in s.infos
    requires SameRole(s.infos[id], info) && info.nRandomPos == s.infos[id].nRandomPos
    ensures Ok(h, SetInfo(s, id, info), limbo, ahead)
  {
    var r := SetInfo(s, id, info);
    SetInfoIndexed(s, r, id);
    forall x | x in s.infos ensures SameRole(s.infos[x], r.infos[x]) { assert RoleOk(h, s, limbo, x); }
    SameRolesKeep(h, s, r, limbo, ahead);
  }

  /** What one address contributes to the counters. */
  function TriedCount(infos: map<Id, AddrInfo>, id: Id): int { if id in TriedIds(infos) then 1 else 0 }
  function NewCount(infos: map<Id, AddrInfo>, limbo: set<Id>, id: Id): int {
    if id in NewIds(infos, limbo) then 1 else 0
  }

  lemma CountsChange(a: map<Id, AddrInfo>, limbo: set<Id>, b: map<Id, AddrInfo>, limbo': set<Id>, id: Id)
    requires id in a && id in b && b == a[id := b[id]] && limbo - {id} == limbo' - {id}
    ensures |TriedIds(b)| == |TriedIds(a)| - TriedCount(a, id) + TriedCount(b, id)
    ensures |NewIds(b, limbo')| == |NewIds(a, limbo)| - NewCount(a, limbo, id) + NewCount(b, limbo', id)
  {
    assert TriedIds(a) - {id} == TriedIds(b) - {id};
    assert forall x :: x != id ==> (x in limbo <==> x in limbo - {id}) && (x in limbo' <==> x in limbo' - {id});
    assert NewIds(a, limbo) - {id} == NewIds(b, limbo') - {id};
    Sequences.SizesDiffer(TriedIds(a), TriedIds(b), id);
    Sequences.SizesDiffer(NewIds(a, limbo), NewIds(b, limbo'), id);
  }

  /** An id's slots lose one place, and nobody else's do. */
  lemma SlotsWithout(news: map<Slot, Id>, slot: Slot)
    requires slot in news
    ensures SlotsOf(news - {slot}, news[slot]) == SlotsOf(news, news[slot]) - {slot}
    ensures |SlotsOf(news, news[slot])| == |SlotsOf(news - {slot}, news[slot])| + 1
    ensures forall x :: x != news[slot] ==> SlotsOf(news - {slot}, x) == SlotsOf(news, x)
  {
    assert SlotsOf(news - {slot}, news[slot]) == SlotsOf(news, news[slot]) - {slot};
    assert slot in SlotsOf(news, news[slot]);
    forall x | x != news[slot] ensures SlotsOf(news - {slot}, x) == SlotsOf(news, x) { }
  }

  lemma SlotsWith(news: map<Slot, Id>, slot: Slot, id: Id)
    requires slot !in news
    ensures SlotsOf(news[slot := id], id) == SlotsOf(news, id) + {slot}
    ensures |SlotsOf(news[slot := id], id)| == |SlotsOf(news, id)| + 1
    ensures forall x :: x != id ==> SlotsOf(news[slot := id], x) == SlotsOf(news, x)
  {
    assert SlotsOf(news[slot := id], id) == SlotsOf(news, id) + {slot};
    forall x | x != id ensures SlotsOf(news[slot := id], x) == SlotsOf(news, x) { }
  }

  /** Frees a place in the new table; an address that loses its last place falls into limbo. */
  function Release(s: State, slot: Slot): State
    requires slot in s.news && s.news[slot] in s.infos
  {
    var id := s.news[slot];
    SetInfo(s, id, s.infos[id].(nRefCount := s.infos[id].nRefCount - 1)).(news := s.news - {slot})
  }

  /** A place in the new table refers to a known address that is not in the tried table. */
  lemma ReferredTo(h: Hashes, s: State, limbo: set<Id>, ahead: int, slot: Slot)
    requires Ok(h, s, limbo, ahead) && slot in s.news
    ensures var id := s.news[slot];
            && id in s.infos && id !in limbo && !s.infos[id].fInTried && s.infos[id].nRefCount >= 1
            && NewSlotOk(h, s, slot)
  {
    assert NewSlotOk(h, s, slot);
    SlotsWithout(s.news, slot);
    assert RoleOk(h, s, limbo, s.news[slot]);
  }

  lemma ReleaseTables(h: Hashes, s: State, limbo: set<Id>, slot: Slot, limbo': set<Id>)
    requires Tabled(h, s, limbo) && slot in s.news && NewSlotOk(h, s, slot)
    requires limbo' == if s.infos[s.news[slot]].nRefCount == 1 then limbo + {s.news[slot]} else limbo
    ensures Tabled(h, Release(s, slot), limbo')
  {
    SlotsWithout(s.news, slot);
    var r := Release(s, slot);
    forall x | x in r.infos ensures RoleOk(h, r, limbo', x) { assert RoleOk(h, s, limbo, x); }
    forall x | x in r.news ensures NewSlotOk(h, r, x) { assert NewSlotOk(h, s, x); }
    forall x | x in r.tried ensures TriedSlotOk(h, r, x) { assert TriedSlotOk(h, s, x); }
  }

  function LimboAfter(s: State, limbo: set<Id>, slot: Slot): set<Id>
    requires slot in s.news && s.news[slot] in s.infos
  {
    if s.infos[s.news[slot]].nRefCount == 1 then limbo + {s.news[slot]} else limbo
  }

  lemma ReleaseKeeps(h: Hashes, s: State, limbo: set<Id>, ahead: int, slot: Slot)
    requires Ok(h, s, limbo, ahead) && slot in s.news && s.news[slot] in s.infos
    ensures Ok(h, Release(s, slot), LimboAfter(s, limbo, slot),
               ahead + if s.infos[s.news[slot]].nRefCount == 1 then 1 else 0)
  {
    hide Indexed, Tabled, NewSlotOk;
    ReferredTo(h, s, limbo, ahead, slot);
    var id := s.news[slot];
    SetInfoIndexed(s, Release(s, slot), id);
    ReleaseTables(h, s, limbo, slot, LimboAfter(s, limbo, slot));
    CountsChange(s.infos, limbo, Release(s, slot).infos, LimboAfter(s, limbo, slot), id);
  }

  /** Refers to an address from a free place in the new table, which takes it out of limbo. */
  function Occupy(s: State, slot: Slot, id: Id): State
    requires id in s.infos
  {
    SetInfo(s, id, s.infos[id].(nRefCount := s.infos[id].nRefCount + 1)).(news := s.news[slot := id])
  }

  lemma OccupyTables(h: Hashes, s: State, limbo: set<Id>, slot: Slot, id: Id)
    requires Tabled(h, s, limbo) && slot !in s.news && id in s.infos && !s.infos[id].fInTried
    requires s.infos[id].nRefCount < NEW_BUCKETS_PER_ADDRESS
    requires slot.0 < NEW_BUCKET_COUNT && slot == h.NewSlot(s.infos[id].service, slot.0)
    ensures Tabled(h, Occupy(s, slot, id), limbo - {id})
  {
    SlotsWith(s.news, slot, id);
    assert RoleOk(h, s, limbo, id);
    var r := Occupy(s, slot, id);
    forall x | x in r.infos ensures RoleOk(h, r, limbo - {id}, x) { assert RoleOk(h, s, limbo, x); }
    forall x | x in r.news ensures NewSlotOk(h, r, x) { assert x != slot ==> NewSlotOk(h, s, x); }
    forall x | x in r.tried ensures TriedSlotOk(h, r, x) { assert TriedSlotOk(h, s, x); }
  }

  lemma OccupyKeeps(h: Hashes, s: State, limbo: set<Id>, ahead: int, slot: Slot, id: Id)
    requires Ok(h, s, limbo, ahead) && slot !in s.news && id in s.infos && !s.infos[id].fInTried
    requires s.infos[id].nRefCount < NEW_BUCKETS_PER_ADDRESS
    requires slot.0 < NEW_BUCKET_COUNT && slot == h.NewSlot(s.infos[id].service, slot.0)
    ensures Ok(h, Occupy(s, slot, id), limbo - {id}, if id in limbo then ahead - 1 else ahead)
  {
    hide Indexed, Tabled;
    SetInfoIndexed(s, Occupy(s, slot, id), id);
    OccupyTables(h, s, limbo, slot, id);
    CountsChange(s.infos, limbo, Occupy(s, slot, id).infos, limbo - {id}, id);
  }

  /** Takes an address out of the tried table, into limbo. */
  function LeaveTried(h: Hashes, s: State, id: Id): State
    requires id in s.infos
  {
    SetInfo(s, id, s.infos[id].(fInTried := false)).(
      tried := s.tried - {h.TriedSlot(s.infos[id].service)}, nTried := s.nTried - 1)
  }

  lemma LeaveTriedTables(h: Hashes, s: State, limbo: set<Id>, id: Id)
    requires Tabled(h, s, limbo) && id in s.infos && s.infos[id].fInTried
    ensures Tabled(h, LeaveTried(h, s, id), limbo + {id})
  {
    assert RoleOk(h, s, limbo, id);
    var r := LeaveTried(h, s, id);
    forall x | x in r.infos ensures RoleOk(h, r, limbo + {id}, x) { assert RoleOk(h, s, limbo, x); }
    forall x | x in r.news ensures NewSlotOk(h, r, x) { assert NewSlotOk(h, s, x); }
    forall x | x in r.tried ensures TriedSlotOk(h, r, x) { assert TriedSlotOk(h, s, x); }
  }

  lemma LeaveTriedKeeps(h: Hashes, s: State, limbo: set<Id>, ahead: int, id: Id)
    requires Ok(h, s, limbo, ahead) && id in s.infos && s.infos[id].fInTried
    ensures Ok(h, LeaveTried(h, s, id), limbo + {id}, ahead)
  {
    assert RoleOk(h, s, limbo, id);
    SetInfoIndexed(s, LeaveTried(h, s, id), id);
    LeaveTriedTables(h, s, limbo, id);
    CountsChange(s.infos, limbo, LeaveTried(h, s, id).infos, limbo + {id}, id);
  }

  /** Puts an address in limbo into its free place in the tried table. */
  function EnterTried(h: Hashes, s: State, id: Id): State
    requires id in s.infos
  {
    SetInfo(s, id, s.infos[id].(fInTried := true)).(
      tried := s.tried[h.TriedSlot(s.infos[id].service) := id], nTried := s.nTried + 1)
  }

  lemma EnterTriedTables(h: Hashes, s: State, limbo: set<Id>, id: Id)
    requires Tabled(h, s, limbo) && id in limbo && id in s.infos && !s.infos[id].fInTried
    requires h.TriedSlot(s.infos[id].service) !in s.tried
    ensures Tabled(h, EnterTried(h, s, id), limbo - {id})
  {
    assert RoleOk(h, s, limbo, id);
    var r := EnterTried(h, s, id);
    forall x | x in r.infos ensures RoleOk(h, r, limbo - {id}, x) { assert RoleOk(h, s, limbo, x); }
    forall x | x in r.news ensures NewSlotOk(h, r, x) { assert NewSlotOk(h, s, x); }
    forall x | x in r.tried ensures TriedSlotOk(h, r, x) { assert x in s.tried ==> TriedSlotOk(h, s, x); }
  }

  lemma EnterTriedKeeps(h: Hashes, s: State, limbo: set<Id>, ahead: int, id: Id)
    requires Ok(h, s, limbo, ahead) && id in limbo
    requires h.TriedSlot(s.infos[id].service) !in s.tried
    ensures Ok(h, EnterTried(h, s, id), limbo - {id}, ahead)
  {
    assert RoleOk(h, s, limbo, id);
    SetInfoIndexed(s, EnterTried(h, s, id), id);
    EnterTriedTables(h, s, limbo, id);
    CountsChange(s.infos, limbo, EnterTried(h, s, id).infos, limbo - {id}, id);
  }

  /** A new address, known but not referred to yet. */
  function Create(s: State, info: AddrInfo): State {
    s.(idCount := s.idCount + 1, infos := s.infos[s.idCount := info.(nRandomPos := |s.order|)],
       addrs := s.addrs[info.service.ip := s.idCount], order := s.order + [s.idCount])
  }

  lemma CreateKeeps(h: Hashes, s: State, limbo: set<Id>, ahead: int, info: AddrInfo)
    requires Ok(h, s, limbo, ahead) && info.service.ip !in s.addrs && s.idCount >= 0
    requires info.nRefCount == 0 && !info.fInTried
    ensures s.idCount !in s.infos
    ensures Ok(h, Create(s, info), limbo + {s.idCount}, ahead)
  {
    var id := s.idCount;
    assert id !in s.infos by {
      assert id in s.infos ==> IdOk(s, id);
    }
    var r := Create(s, info);
    assert SlotsOf(s.news, id) == {} by {
      forall slot | slot in s.news ensures s.news[slot] != id { assert NewSlotOk(h, s, slot); }
    }
    forall x | x in r.infos ensures IdOk(r, x) && RoleOk(h, r, limbo + {id}, x) {
      assert x != id ==> IdOk(s, x) && RoleOk(h, s, limbo, x);
    }
    forall x | x in r.news ensures NewSlotOk(h, r, x) { assert NewSlotOk(h, s, x); }
    forall x | x in r.tried ensures TriedSlotOk(h, r, x) { assert TriedSlotOk(h, s, x); }
    assert TriedIds(r.infos) == TriedIds(s.infos);
    assert NewIds(r.infos, limbo + {id}) == NewIds(s.infos, limbo);
  }

  /** Counting a new address more or less. */
  lemma RecountKeeps(h: Hashes, s: State, limbo: set<Id>, ahead: int, k: int)
    requires Ok(h, s, limbo, ahead)
    ensures Ok(h, s.(nNew := s.nNew + k), limbo, ahead + k)
  {
    var r := s.(nNew := s.nNew + k);
    forall x | x in r.infos ensures IdOk(r, x) && RoleOk(h, r, limbo, x) {
      assert IdOk(s, x) && RoleOk(h, s, limbo, x);
    }
    forall x | x in r.news ensures NewSlotOk(h, r, x) { assert NewSlotOk(h, s, x); }
    forall x | x in r.tried ensures TriedSlotOk(h, r, x) { assert TriedSlotOk(h, s, x); }
  }

  // The operations

  /** Only the place in vRandom differs. */
  ghost predicate Moved(a: AddrInfo, b: AddrInfo) { b == a.(nRandomPos := b.nRandomPos) }

  /** Addresses outside `ids` stay as they are, and none appears. */
  ghost predicate KeepsOthers(a: map<Id, AddrInfo>, b: map<Id, AddrInfo>, ids: set<Id>) {
    && (forall x :: x in a && x !in ids ==> x in b && Moved(a[x], b[x]))
    && (forall x :: x in b ==> x in a)
  }

  /** Frees a place in the new table, deleting an address that loses its last one. */
  ghost function ClearNew(h: Hashes, s: State, limbo: set<Id>, ahead: int, slot: Slot): (r: State)
    requires Ok(h, s, limbo, ahead)
  {
    if slot !in s.news then s
    else
      ReferredTo(h, s, limbo, ahead, slot);
      var id := s.news[slot];
      assert IdOk(s, id);
      var r := Release(s, slot);
      if r.infos[id].nRefCount == 0 then Delete(r, id) else r
  }

  lemma ClearNewKeeps(h: Hashes, s: State, limbo: set<Id>, ahead: int, slot: Slot)
    requires Ok(h, s, limbo, ahead)
    ensures Ok(h, ClearNew(h, s, limbo, ahead, slot), limbo, ahead)
  {
    hide Ok, Delete;
    if slot in s.news {
      ReferredTo(h, s, limbo, ahead, slot);
      ReleaseKeeps(h, s, limbo, ahead, slot);
      var id := s.news[slot];
      var r := Release(s, slot);
      if r.infos[id].nRefCount == 0 {
        DeleteKeeps(h, r, limbo + {id}, ahead + 1, id);
        assert limbo + {id} - {id} == limbo;
      }
    }
  }

  lemma NoneMoved(infos: map<Id, AddrInfo>)
    ensures forall id :: id in infos ==> Moved(infos[id], infos[id])
  {
  }

  lemma MovedOn(a: map<Id, AddrInfo>, b: map<Id, AddrInfo>, c: map<Id, AddrInfo>, id: Id)
    requires forall x :: x in b ==> x in a && Moved(a[x], b[x])
    requires KeepsOthers(b, c, {id}) && id !in c
    ensures forall x :: x in c ==> x in a && Moved(a[x], c[x])
  {
  }

  lemma DeleteOthers(s: State, id: Id)
    requires id in s.infos && 0 <= s.infos[id].nRandomPos < |s.order|
    requires s.order[s.infos[id].nRandomPos] == id && s.order[|s.order| - 1] in s.infos
    ensures KeepsOthers(s.infos, Delete(s, id).infos, {id}) && id !in Delete(s, id).infos
    ensures Delete(s, id).addrs == s.addrs - {s.infos[id].service.ip}
    ensures Delete(s, id).news == s.news && Delete(s, id).tried == s.tried
  {
  }

  /** What clearing a place means for the tables and the addresses. */
  lemma ClearNewOthers(h: Hashes, s: State, limbo: set<Id>, ahead: int, slot: Slot)
    requires Ok(h, s, limbo, ahead)
    ensures var r := ClearNew(h, s, limbo, ahead, slot);
            && r.news == s.news - {slot} && r.tried == s.tried
            && if slot !in s.news then r == s
               else
                 var id := s.news[slot];
                 && id in s.infos && id !in limbo && !s.infos[id].fInTried
                 && KeepsOthers(s.infos, r.infos, {id})
                 && (id in r.infos <==> s.infos[id].nRefCount > 1)
                 && (id in r.infos ==> r.infos[id] == s.infos[id].(nRefCount := s.infos[id].nRefCount - 1))
                 && r.addrs == if id in r.infos then s.addrs else s.addrs - {s.infos[id].service.ip}
  {
    if slot in s.news {
      ReferredTo(h, s, limbo, ahead, slot);
      assert IdOk(s, s.news[slot]);
      var r := Release(s, slot);
      var id := s.news[slot];
      hide Ok, Tabled, NewSlotOk, Delete;
      if r.infos[id].nRefCount == 0 {
        DeleteOthers(r, id);
      }
    }
  }

  /** Takes an address out of the buckets of the new table from `bucket` on. */
  function ForgetNew(h: Hashes, s: State, id: Id, bucket: nat): State
    requires id in s.infos && bucket <= NEW_BUCKET_COUNT
    decreases NEW_BUCKET_COUNT - bucket, s
  {
    if bucket == NEW_BUCKET_COUNT then s else ForgetNew(h, ForgetStep(h, s, id, bucket), id, bucket + 1)
  }

  function ForgetStep(h: Hashes, s: State, id: Id, bucket: nat): (r: State)
    requires id in s.infos
    ensures id in r.infos
  {
    var slot := h.NewSlot(s.infos[id].service, bucket);
    if slot in s.news && s.news[slot] == id then Release(s, slot) else s
  }

  ghost predicate SlotsFrom(s: State, id: Id, bucket: nat) {
    forall slot :: slot in s.news && s.news[slot] == id ==> bucket <= slot.0 < NEW_BUCKET_COUNT
  }

  lemma SlotsAdvance(h: Hashes, s: State, limbo: set<Id>, ahead: int, id: Id, bucket: nat)
    requires Ok(h, s, limbo, ahead) && id in s.infos && SlotsFrom(s, id, bucket)
    ensures SlotsFrom(ForgetStep(h, s, id, bucket), id, bucket + 1)
  {
    forall slot | slot in s.news && s.news[slot] == id
      ensures slot.0 == bucket ==> slot == h.NewSlot(s.infos[id].service, bucket)
    {
      assert NewSlotOk(h, s, slot);
    }
  }

  lemma NoSlots(h: Hashes, s: State, limbo: set<Id>, ahead: int, id: Id)
    requires Ok(h, s, limbo, ahead) && id in s.infos && SlotsFrom(s, id, NEW_BUCKET_COUNT)
    ensures s.infos[id].nRefCount == 0 && Without(s.news, id) == s.news
  {
    assert RoleOk(h, s, limbo, id);
    assert SlotsOf(s.news, id) == {};
  }

  lemma AllSlots(h: Hashes, s: State, limbo: set<Id>, ahead: int, id: Id)
    requires Ok(h, s, limbo, ahead)
    ensures SlotsFrom(s, id, 0)
  {
    forall slot | slot in s.news ensures slot.0 < NEW_BUCKET_COUNT { assert NewSlotOk(h, s, slot); }
  }

  function Without(news: map<Slot, Id>, id: Id): map<Slot, Id> {
    map slot | slot in news && news[slot] != id :: news[slot]
  }

  /** The address ends up in limbo, having lost its references and nothing else. */
  lemma {:induction false} ForgetNewKeeps(h: Hashes, s: State, limbo: set<Id>, ahead: int, id: Id, bucket: nat)
    requires id in s.infos && id !in limbo && bucket <= NEW_BUCKET_COUNT && SlotsFrom(s, id, bucket)
    requires if s.infos[id].nRefCount == 0 then Ok(h, s, limbo + {id}, ahead + 1) else Ok(h, s, limbo, ahead)
    ensures var r := ForgetNew(h, s, id, bucket);
            && Ok(h, r, limbo + {id}, ahead + 1)
            && r.infos == s.infos[id := s.infos[id].(nRefCount := 0)] && r.news == Without(s.news, id)
            && r.tried == s.tried && r.addrs == s.addrs && r.idCount == s.idCount
    decreases NEW_BUCKET_COUNT - bucket
  {
    hide Ok, SlotsFrom;
    var l, a := limbo, ahead;
    if s.infos[id].nRefCount == 0 {
      l, a := limbo + {id}, ahead + 1;
    }
    if bucket == NEW_BUCKET_COUNT {
      NoSlots(h, s, l, a, id);
    } else {
      SlotsAdvance(h, s, l, a, id, bucket);
      var slot := h.NewSlot(s.infos[id].service, bucket);
      if slot in s.news && s.news[slot] == id {
        ReferredTo(h, s, l, a, slot);
        ReleaseKeeps(h, s, limbo, ahead, slot);
        ForgetNewKeeps(h, Release(s, slot), limbo, ahead, id, bucket + 1);
        assert Without(s.news - {slot}, id) == Without(s.news, id);
      } else {
        ForgetNewKeeps(h, s, limbo, ahead, id, bucket + 1);
      }
    }
  }

  lemma InTried(h: Hashes, s: State, limbo: set<Id>, ahead: int, id: Id)
    requires Ok(h, s, limbo, ahead) && id in s.infos && s.infos[id].fInTried
    ensures id !in limbo && s.infos[id].nRefCount == 0
    ensures h.TriedSlot(s.infos[id].service) in s.tried && s.tried[h.TriedSlot(s.infos[id].service)] == id
  {
    assert RoleOk(h, s, limbo, id);
  }

  /** Moves an address from the tried table to the place in the new table its source gives it. */
  ghost function Evict(h: Hashes, s: State, limbo: set<Id>, ahead: int, id: Id): (r: State)
    requires Ok(h, s, limbo, ahead) && id in s.infos && s.infos[id].fInTried
  {
    LeaveTriedKeeps(h, s, limbo, ahead, id);
    var t := LeaveTried(h, s, id);
    var slot := HomeSlot(h, s.infos[id]);
    ClearNewOthers(h, t, limbo + {id}, ahead, slot);
    var u := ClearNew(h, t, limbo + {id}, ahead, slot);
    Occupy(u, slot, id).(nNew := u.nNew + 1)
  }

  /** The place in the new table a source gives an address. */
  function SlotFor(h: Hashes, service: Service, source: NetAddr): Slot {
    h.NewSlot(service, h.NewBucket(service, source))
  }

  function HomeSlot(h: Hashes, info: AddrInfo): Slot { SlotFor(h, info.service, info.source) }

  lemma EvictKeeps(h: Hashes, s: State, limbo: set<Id>, ahead: int, id: Id)
    requires Ok(h, s, limbo, ahead) && id in s.infos && s.infos[id].fInTried
    ensures Ok(h, Evict(h, s, limbo, ahead, id), limbo, ahead)
  {
    hide Ok, ClearNew;
    InTried(h, s, limbo, ahead, id);
    LeaveTriedKeeps(h, s, limbo, ahead, id);
    var t := LeaveTried(h, s, id);
    var slot := HomeSlot(h, s.infos[id]);
    ClearNewKeeps(h, t, limbo + {id}, ahead, slot);
    ClearNewOthers(h, t, limbo + {id}, ahead, slot);
    var u := ClearNew(h, t, limbo + {id}, ahead, slot);
    assert Moved(t.infos[id], u.infos[id]);
    OccupyKeeps(h, u, limbo + {id}, ahead, slot, id);
    assert limbo + {id} - {id} == limbo;
    RecountKeeps(h, Occupy(u, slot, id), limbo, ahead - 1, 1);
  }

  /** An eviction touches the evicted address, and the one whose place it takes. */
  lemma EvictOthers(h: Hashes, s: State, limbo: set<Id>, ahead: int, id: Id)
    requires Ok(h, s, limbo, ahead) && id in s.infos && s.infos[id].fInTried
    ensures var r := Evict(h, s, limbo, ahead, id);
            var slot := HomeSlot(h, s.infos[id]);
            && r.news == s.news[slot := id] && r.tried == s.tried - {h.TriedSlot(s.infos[id].service)}
            && id in r.infos && Moved(s.infos[id].(nRefCount := 1, fInTried := false), r.infos[id])
            && TimesFrom(s.infos, r.infos)
            && if slot in s.news then
                 var victim := s.news[slot];
                 && victim in s.infos && victim != id && victim !in limbo
                 && KeepsOthers(s.infos, r.infos, {id, victim})
                 && (victim in r.infos <==> s.infos[victim].nRefCount > 1)
                 && (victim in r.infos ==>
                       Moved(s.infos[victim].(nRefCount := s.infos[victim].nRefCount - 1), r.infos[victim]))
                 && r.addrs == if victim in r.infos then s.addrs else s.addrs - {s.infos[victim].service.ip}
               else KeepsOthers(s.infos, r.infos, {id}) && r.addrs == s.addrs
  {
    hide Ok, ClearNew;
    InTried(h, s, limbo, ahead, id);
    LeaveTriedKeeps(h, s, limbo, ahead, id);
    var t := LeaveTried(h, s, id);
    var slot := HomeSlot(h, s.infos[id]);
    ClearNewOthers(h, t, limbo + {id}, ahead, slot);
    var u := ClearNew(h, t, limbo + {id}, ahead, slot);
    assert Moved(t.infos[id], u.infos[id]);
    assert slot in s.news ==> s.news[slot] != id;
  }

  /** The address and its place in the tried table, free once its occupant is evicted. */
  ghost predicate Promotable(h: Hashes, s: State, id: Id) {
    && Ok(h, s, {}, 0) && id in s.infos && !s.infos[id].fInTried
  }

  ghost function MakeTried(h: Hashes, s: State, id: Id): (r: State)
    requires Promotable(h, s, id)
  {
    hide Ok, Evict, ForgetNew;
    PromotionStarts(h, s, id);
    var t := ForgetNew(h, s, id, 0);
    var u := t.(nNew := t.nNew - 1);
    var slot := h.TriedSlot(s.infos[id].service);
    if slot in u.tried then
      Occupied(h, u, {id}, 0, slot);
      EvictOthers(h, u, {id}, 0, u.tried[slot]);
      EnterTried(h, Evict(h, u, {id}, 0, u.tried[slot]), id)
    else EnterTried(h, u, id)
  }

  lemma PromotionStarts(h: Hashes, s: State, id: Id)
    requires Promotable(h, s, id)
    ensures var t := ForgetNew(h, s, id, 0);
            && Ok(h, t.(nNew := t.nNew - 1), {id}, 0)
            && t.infos == s.infos[id := s.infos[id].(nRefCount := 0)] && t.news == Without(s.news, id)
            && t.tried == s.tried && t.addrs == s.addrs && t.idCount == s.idCount
  {
    hide Ok;
    AllSlots(h, s, {}, 0, id);
    ReferencedOrMoving(h, s, {}, 0, id);
    ForgetNewKeeps(h, s, {}, 0, id, 0);
    assert {} + {id} == {id};
    RecountKeeps(h, ForgetNew(h, s, id, 0), {id}, 1, -1);
  }

  lemma ReferencedOrMoving(h: Hashes, s: State, limbo: set<Id>, ahead: int, id: Id)
    requires Ok(h, s, limbo, ahead) && id in s.infos && !s.infos[id].fInTried
    ensures if id in limbo then s.infos[id].nRefCount == 0 else 1 <= s.infos[id].nRefCount <= NEW_BUCKETS_PER_ADDRESS
  {
    assert RoleOk(h, s, limbo, id);
  }

  lemma ReferencedOrTried(h: Hashes, s: State, id: Id)
    requires Ok(h, s, {}, 0) && id in s.infos
    ensures s.infos[id].fInTried || 1 <= s.infos[id].nRefCount <= NEW_BUCKETS_PER_ADDRESS
  {
    assert RoleOk(h, s, {}, id);
  }

  /** The addresses without references are those in limbo. */
  lemma InLimbo(h: Hashes, s: State, limbo: set<Id>, ahead: int, id: Id)
    requires Ok(h, s, limbo, ahead) && id in s.infos
    ensures id in limbo <==> !s.infos[id].fInTried && s.infos[id].nRefCount == 0
  {
    assert RoleOk(h, s, limbo, id);
  }

  lemma LimboKnown(h: Hashes, s: State, limbo: set<Id>, ahead: int)
    requires Ok(h, s, limbo, ahead)
    ensures limbo <= s.infos.Keys
  {
    forall id | id in limbo ensures id in s.infos.Keys { assert id in s.infos; }
  }

  lemma DeletedKeys(s: State, id: Id)
    requires id in s.infos && 0 <= s.infos[id].nRandomPos < |s.order|
    requires s.order[s.infos[id].nRandomPos] == id && s.order[|s.order| - 1] in s.infos
    ensures Delete(s, id).infos.Keys == s.infos.Keys - {id}
  {
    assert SwapRandom(s, s.infos[id].nRandomPos, |s.order| - 1).infos.Keys == s.infos.Keys;
  }

  /** An address of the new table is found in some bucket. */
  lemma HasBucket(h: Hashes, s: State, limbo: set<Id>, ahead: int, id: Id) returns (bucket: nat)
    requires Ok(h, s, limbo, ahead) && id in s.infos && !s.infos[id].fInTried && id !in limbo
    ensures bucket < NEW_BUCKET_COUNT
    ensures var slot := h.NewSlot(s.infos[id].service, bucket); slot in s.news && s.news[slot] == id
  {
    assert RoleOk(h, s, limbo, id);
    var slot :| slot in SlotsOf(s.news, id);
    assert NewSlotOk(h, s, slot);
    bucket := slot.0;
  }

  lemma Occupied(h: Hashes, s: State, limbo: set<Id>, ahead: int, slot: Slot)
    requires Ok(h, s, limbo, ahead) && slot in s.tried
    ensures var id := s.tried[slot];
            id in s.infos && s.infos[id].fInTried && id !in limbo && h.TriedSlot(s.infos[id].service) == slot
  {
    assert TriedSlotOk(h, s, slot);
    assert RoleOk(h, s, limbo, s.tried[slot]);
  }

  /** An eviction does not lose the address it makes room for. */
  lemma Spared(h: Hashes, s: State, id: Id, slot: Slot)
    requires Ok(h, s, {id}, 0) && slot in s.tried
    requires var o := s.tried[slot];
             o in s.infos && s.infos[o].fInTried && o != id && h.TriedSlot(s.infos[o].service) == slot
    ensures id in s.infos
    ensures var r := Evict(h, s, {id}, 0, s.tried[slot]);
            id in r.infos && Moved(s.infos[id], r.infos[id]) && slot !in r.tried
  {
    EvictOthers(h, s, {id}, 0, s.tried[slot]);
  }

  lemma MakeTriedKeeps(h: Hashes, s: State, id: Id)
    requires Promotable(h, s, id)
    ensures Ok(h, MakeTried(h, s, id), {}, 0)
  {
    hide Ok, Evict, ForgetNew;
    PromotionStarts(h, s, id);
    var t := ForgetNew(h, s, id, 0);
    var u := t.(nNew := t.nNew - 1);
    var slot := h.TriedSlot(s.infos[id].service);
    assert {id} - {id} == {};
    if slot in u.tried {
      Occupied(h, u, {id}, 0, slot);
      EvictKeeps(h, u, {id}, 0, u.tried[slot]);
      EvictOthers(h, u, {id}, 0, u.tried[slot]);
      var v := Evict(h, u, {id}, 0, u.tried[slot]);
      assert Moved(u.infos[id], v.infos[id]);
      EnterTriedKeeps(h, v, {id}, 0, id);
    } else {
      EnterTriedKeeps(h, u, {id}, 0, id);
    }
  }

  /** The address is in its place; its former occupant is in the new table, in its home place. */
  lemma MakeTriedOutcome(h: Hashes, s: State, id: Id)
    requires Promotable(h, s, id)
    ensures var r := MakeTried(h, s, id);
            var slot := h.TriedSlot(s.infos[id].service);
            && r.tried == s.tried[slot := id]
            && id in r.infos && Moved(s.infos[id].(nRefCount := 0, fInTried := true), r.infos[id])
            && TimesFrom(s.infos[id := s.infos[id].(fInTried := true)], r.infos)
            && if slot !in s.tried then
                 r.news == Without(s.news, id) && KeepsOthers(s.infos, r.infos, {id}) && r.addrs == s.addrs
               else
                 var evicted := s.tried[slot];
                 var home := HomeSlot(h, s.infos[evicted]);
                 && r.news == Without(s.news, id)[home := evicted]
                 && evicted != id && evicted in s.infos && evicted in r.infos
                 && Moved(s.infos[evicted].(nRefCount := 1, fInTried := false), r.infos[evicted])
                 && if home in s.news && s.news[home] != id then
                      var victim := s.news[home];
                      && victim in s.infos && victim != evicted && KeepsOthers(s.infos, r.infos, {id, evicted, victim})
                      && (victim in r.infos <==> s.infos[victim].nRefCount > 1)
                      && (victim in r.infos ==>
                            Moved(s.infos[victim].(nRefCount := s.infos[victim].nRefCount - 1), r.infos[victim]))
                      && r.addrs == if victim in r.infos then s.addrs else s.addrs - {s.infos[victim].service.ip}
                    else KeepsOthers(s.infos, r.infos, {id, evicted}) && r.addrs == s.addrs
  {
    hide Ok, Evict, ForgetNew;
    PromotionStarts(h, s, id);
    var t := ForgetNew(h, s, id, 0);
    var u := t.(nNew := t.nNew - 1);
    var slot := h.TriedSlot(s.infos[id].service);
    if slot in u.tried {
      Occupied(h, u, {id}, 0, slot);
      EvictOthers(h, u, {id}, 0, u.tried[slot]);
      var v := Evict(h, u, {id}, 0, u.tried[slot]);
      assert Moved(u.infos[id], v.infos[id]);
    }
  }

  function Succeeded(info: AddrInfo, nTime: int): AddrInfo {
    info.(nLastSuccess := nTime, nLastTry := nTime, nAttempts := 0)
  }

  lemma SucceededKeeps(h: Hashes, s: State, id: Id, nTime: int)
    requires Ok(h, s, {}, 0) && id in s.infos
    ensures Ok(h, SetInfo(s, id, Succeeded(s.infos[id], nTime)), {}, 0)
  {
    hide Ok;
    SetInfoKeeps(h, s, {}, 0, id, Succeeded(s.infos[id], nTime));
  }

  /** A place may be taken from an address that is terrible, or that a first reference needs more. */
  predicate Yields(occupant: AddrInfo, info: AddrInfo, nNow: int) {
    occupant.IsTerrible(nNow) || (occupant.nRefCount > 1 && info.nRefCount == 0)
  }

  /** Refers to an address from one more place; one that gets no place at all is deleted. */
  ghost function Insert(h: Hashes, s: State, limbo: set<Id>, ahead: int, id: Id, slot: Slot, nNow: int): (r: State)
    requires Ok(h, s, limbo, ahead) && id in s.infos
  {
    hide Ok, ClearNew, RoleOk;
    if slot in s.news && s.news[slot] == id then s
    else if slot in s.news && (Known(h, s, limbo, ahead, slot); !Yields(s.infos[s.news[slot]], s.infos[id], nNow)) then
      Placed(h, s, limbo, ahead, id);
      if s.infos[id].nRefCount == 0 then Delete(s, id) else s
    else
      ClearNewOthers(h, s, limbo, ahead, slot);
      Occupy(ClearNew(h, s, limbo, ahead, slot), slot, id)
  }

  lemma Known(h: Hashes, s: State, limbo: set<Id>, ahead: int, slot: Slot)
    requires Ok(h, s, limbo, ahead) && slot in s.news
    ensures s.news[slot] in s.infos && s.news[slot] !in limbo
  {
    ReferredTo(h, s, limbo, ahead, slot);
  }

  lemma Placed(h: Hashes, s: State, limbo: set<Id>, ahead: int, id: Id)
    requires Ok(h, s, limbo, ahead) && id in s.infos
    ensures 0 <= s.infos[id].nRandomPos < |s.order| && s.order[s.infos[id].nRandomPos] == id
    ensures s.order[|s.order| - 1] in s.infos && id >= 0
  {
    assert IdOk(s, id);
  }

  ghost predicate SameAddress(a: AddrInfo, b: AddrInfo) {
    b.service == a.service && b.fInTried == a.fInTried && SameTimes(a, b)
  }

  /** With a single address in limbo, none is after it has been given or refused its place. */
  lemma InsertKeeps(h: Hashes, s: State, id: Id, isNew: bool, slot: Slot, nNow: int)
    requires Ok(h, s, if isNew then {id} else {}, if isNew then 1 else 0)
    requires id in s.infos && !s.infos[id].fInTried && s.infos[id].nRefCount < NEW_BUCKETS_PER_ADDRESS
    requires slot.0 < NEW_BUCKET_COUNT && slot == h.NewSlot(s.infos[id].service, slot.0)
    ensures Ok(h, Insert(h, s, if isNew then {id} else {}, if isNew then 1 else 0, id, slot, nNow), {}, 0)
  {
    hide Ok, ClearNew, Delete, Yields;
    var limbo, ahead := if isNew then {id} else {}, if isNew then 1 else 0;
    assert limbo - {id} == {};
    ReferencedOrMoving(h, s, limbo, ahead, id);
    if slot in s.news {
      Known(h, s, limbo, ahead, slot);
    }
    if slot in s.news && s.news[slot] == id {
    } else if slot in s.news && !Yields(s.infos[s.news[slot]], s.infos[id], nNow) {
      if s.infos[id].nRefCount == 0 {
        DeleteKeeps(h, s, limbo, ahead, id);
      }
    } else {
      ClearNewOthers(h, s, limbo, ahead, slot);
      ClearNewKeeps(h, s, limbo, ahead, slot);
      var t := ClearNew(h, s, limbo, ahead, slot);
      assert Moved(s.infos[id], t.infos[id]);
      OccupyKeeps(h, t, limbo, ahead, slot, id);
    }
  }

  /** Only a terrible address is forgotten, and a first reference is refused only by a better address. */
  lemma InsertOutcome(h: Hashes, s: State, limbo: set<Id>, ahead: int, id: Id, slot: Slot, nNow: int)
    requires Ok(h, s, limbo, ahead) && id in s.infos && !s.infos[id].fInTried
    ensures var r := Insert(h, s, limbo, ahead, id, slot, nNow);
            && r.tried == s.tried
            && (slot in s.news ==> s.news[slot] in s.infos)
            && (id in r.infos <==>
                s.infos[id].nRefCount != 0 || slot !in s.news || Yields(s.infos[s.news[slot]], s.infos[id], nNow))
            && (forall x :: x in s.infos && x != id && x !in r.infos ==> s.infos[x].IsTerrible(nNow))
            && (forall x :: x in s.infos && x != id && !(slot in s.news && s.news[slot] == x) ==>
                  x in r.infos && Moved(s.infos[x], r.infos[x]))
            && (forall x :: x in r.infos ==> x in s.infos && SameAddress(s.infos[x], r.infos[x]))
            && (id in r.infos ==>
                  && r.news == (if slot in s.news && !Yields(s.infos[s.news[slot]], s.infos[id], nNow) then s.news
                                else s.news[slot := id])
                  && r.infos[id].nRefCount == s.infos[id].nRefCount +
                       (if slot in s.news && (s.news[slot] == id || !Yields(s.infos[s.news[slot]], s.infos[id], nNow))
                        then 0 else 1)
                  && Moved(s.infos[id].(nRefCount := r.infos[id].nRefCount), r.infos[id]))
            && (id !in r.infos ==> r.news == s.news)
  {
    hide Ok, ClearNew, Delete;
    if slot in s.news {
      Known(h, s, limbo, ahead, slot);
      ReferredTo(h, s, limbo, ahead, slot);
    }
    if slot in s.news && s.news[slot] == id {
    } else if slot in s.news && !Yields(s.infos[s.news[slot]], s.infos[id], nNow) {
      Placed(h, s, limbo, ahead, id);
      if s.infos[id].nRefCount == 0 {
        DeleteOthers(s, id);
      }
    } else {
      ClearNewOthers(h, s, limbo, ahead, slot);
      assert Moved(s.infos[id], ClearNew(h, s, limbo, ahead, slot).infos[id]);
    }
  }

  /** Is the address known with this very port? */
  predicate Has(s: State, addr: Service) {
    addr.ip in s.addrs && s.addrs[addr.ip] in s.infos && s.infos[s.addrs[addr.ip]].service == addr
  }

  /** A connection to the address succeeded: it belongs in the tried table. */
  ghost function Good(h: Hashes, s: State, addr: Service, nTime: int): (r: State)
    requires Ok(h, s, {}, 0)
  {
    hide Ok, MakeTried;
    if !Has(s, addr) then s
    else
      var id := s.addrs[addr.ip];
      var t := SetInfo(s, id, Succeeded(s.infos[id], nTime));
      if s.infos[id].fInTried then t
      else
        SucceededKeeps(h, s, id, nTime);
        MakeTried(h, t, id)
  }

  /** The structure is kept, and the address is in the tried table, in its place. */
  lemma GoodIsTried(h: Hashes, s: State, addr: Service, nTime: int)
    requires Ok(h, s, {}, 0)
    ensures var r := Good(h, s, addr, nTime);
            && Ok(h, r, {}, 0)
            && (!Has(s, addr) ==> r == s)
            && (Has(s, addr) ==>
                  && Has(r, addr) && r.addrs[addr.ip] == s.addrs[addr.ip]
                  && Moved(s.infos[s.addrs[addr.ip]].(nLastSuccess := nTime, nLastTry := nTime, nAttempts := 0,
                                                      fInTried := true, nRefCount := 0),
                           r.infos[r.addrs[addr.ip]])
                  && h.TriedSlot(addr) in r.tried && r.tried[h.TriedSlot(addr)] == r.addrs[addr.ip])
  {
    hide Ok, MakeTried;
    if Has(s, addr) {
      var id := s.addrs[addr.ip];
      var t := SetInfo(s, id, Succeeded(s.infos[id], nTime));
      SucceededKeeps(h, s, id, nTime);
      if s.infos[id].fInTried {
        InTried(h, t, {}, 0, id);
      } else {
        MakeTriedKeeps(h, t, id);
        MakeTriedOutcome(h, t, id);
        AddrOf(h, MakeTried(h, t, id), id);
      }
    }
  }

  /** The times stay in order exactly if the success is after time zero, or the address is unknown. */
  lemma GoodTimed(h: Hashes, s: State, addr: Service, nTime: int)
    requires Ok(h, s, {}, 0) && Timed(s.infos)
    ensures Timed(Good(h, s, addr, nTime).infos) <==> nTime > 0 || !Has(s, addr)
  {
    hide Ok, MakeTried;
    GoodIsTried(h, s, addr, nTime);
    if Has(s, addr) {
      var id := s.addrs[addr.ip];
      var t := SetInfo(s, id, Succeeded(s.infos[id], nTime));
      SucceededKeeps(h, s, id, nTime);
      if !s.infos[id].fInTried {
        MakeTriedOutcome(h, t, id);
      }
    }
  }

  lemma AddrOf(h: Hashes, s: State, id: Id)
    requires Ok(h, s, {}, 0) && id in s.infos
    ensures s.infos[id].service.ip in s.addrs && s.addrs[s.infos[id].service.ip] == id
  {
    assert IdOk(s, id);
  }

  /** What Add_ is told, and what it reads from the clock and the random generator. */
  datatype Announcement = Announcement(
    addr: Service, nServices: set<nat>, nTime: nat, source: NetAddr, nTimePenalty: int, routable: bool, nNow: int,
    draw: nat)
  {
    /** A source's announcement of itself is not penalised. */
    function Penalty(): int { if addr.ip == source then 0 else nTimePenalty }

    function Seen(): nat { if nTime - Penalty() > 0 then nTime - Penalty() else 0 }

    function NewInfo(): AddrInfo {
      AddrInfo(addr, nServices, Seen(), source, 0, 0, 0, 0, 0, false, -1)
    }

    function UpdateInterval(): int { if nNow - nTime < 24 * 60 * 60 then 60 * 60 else 24 * 60 * 60 }

    function Refreshed(info: AddrInfo): AddrInfo {
      info.(nServices := info.nServices + nServices,
            nTime := if nTime != 0 && (info.nTime == 0 || info.nTime < nTime - UpdateInterval() - Penalty())
                     then Seen() else info.nTime)
    }

    /** What RandomInt gives. */
    function RandomInt(n: nat): nat
      requires n > 0
    {
      draw % n
    }

    /** Should a known address be referred to from one more place? Every place it has makes that half as likely. */
    predicate Wanted(info: AddrInfo) {
      && nTime != 0 && (info.nTime == 0 || nTime > info.nTime)
      && !info.fInTried && info.nRefCount != NEW_BUCKETS_PER_ADDRESS
      && (info.nRefCount <= 0 || RandomInt(Pow2(info.nRefCount)) == 0)
    }
  }

  ghost function Add(h: Hashes, s: State, a: Announcement): (r: State)
    requires Ok(h, s, {}, 0) && s.idCount >= 0
  {
    hide Ok, Insert, Create;
    if !a.routable then s
    else if a.addr.ip in s.addrs then
      AddrKnown(h, s, a.addr.ip);
      var id := s.addrs[a.addr.ip];
      var info := a.Refreshed(s.infos[id]);
      var t := SetInfo(s, id, info);
      RefreshedKeeps(h, s, a, id);
      if a.Wanted(info) then Insert(h, t, {}, 0, id, SlotFor(h, info.service, a.source), a.nNow) else t
    else
      CreatedKeeps(h, s, a);
      Insert(h, Created(s, a), {s.idCount}, 1, s.idCount, SlotFor(h, a.addr, a.source), a.nNow)
  }

  function Created(s: State, a: Announcement): (r: State)
    ensures r.infos == s.infos[s.idCount := a.NewInfo().(nRandomPos := |s.order|)]
    ensures r.news == s.news && r.tried == s.tried && r.addrs == s.addrs[a.addr.ip := s.idCount]
  {
    Create(s, a.NewInfo()).(nNew := s.nNew + 1)
  }

  lemma AddrKnown(h: Hashes, s: State, ip: NetAddr)
    requires Ok(h, s, {}, 0) && ip in s.addrs
    ensures s.addrs[ip] in s.infos && s.infos[s.addrs[ip]].service.ip == ip
  {
  }

  lemma RefreshedKeeps(h: Hashes, s: State, a: Announcement, id: Id)
    requires Ok(h, s, {}, 0) && id in s.infos
    ensures Ok(h, SetInfo(s, id, a.Refreshed(s.infos[id])), {}, 0)
  {
    assert RoleOk(h, s, {}, id);
    SetInfoKeeps(h, s, {}, 0, id, a.Refreshed(s.infos[id]));
  }

  /** News never makes an address look older, or newer than the news, and never takes a service away. */
  ghost predicate Newer(a: Announcement, before: AddrInfo, after: AddrInfo) {
    && after.nServices == before.nServices + a.nServices
    && (before.nTime >= 0 ==> before.nTime <= after.nTime)
    && (a.nTimePenalty >= 0 ==> after.nTime <= before.nTime || after.nTime <= a.nTime)
  }

  lemma NewsMovesOn(a: Announcement, info: AddrInfo)
    ensures Newer(a, info, a.Refreshed(info))
  {
  }

  lemma RefreshedRole(a: Announcement, info: AddrInfo)
    ensures a.Refreshed(info).service == info.service && a.Refreshed(info).fInTried == info.fInTried
    ensures a.Wanted(a.Refreshed(info)) ==> !info.fInTried
  {
  }

  lemma CreatedKeeps(h: Hashes, s: State, a: Announcement)
    requires Ok(h, s, {}, 0) && s.idCount >= 0 && a.addr.ip !in s.addrs
    ensures s.idCount !in s.infos && Ok(h, Created(s, a), {s.idCount}, 1)
  {
    hide Ok;
    CreateKeeps(h, s, {}, 0, a.NewInfo());
    assert {} + {s.idCount} == {s.idCount};
    RecountKeeps(h, Create(s, a.NewInfo()), {s.idCount}, 0, 1);
  }

  lemma AddKeeps(h: Hashes, s: State, a: Announcement)
    requires Ok(h, s, {}, 0) && s.idCount >= 0
    ensures Ok(h, Add(h, s, a), {}, 0)
  {
    hide Ok, Insert, Created;
    if a.routable && a.addr.ip in s.addrs {
      AddrKnown(h, s, a.addr.ip);
      var id := s.addrs[a.addr.ip];
      var info := a.Refreshed(s.infos[id]);
      var t := SetInfo(s, id, info);
      RefreshedKeeps(h, s, a, id);
      if a.Wanted(info) {
        ReferencedOrMoving(h, t, {}, 0, id);
        InsertKeeps(h, t, id, false, SlotFor(h, info.service, a.source), a.nNow);
      }
    } else if a.routable {
      CreatedKeeps(h, s, a);
      InsertKeeps(h, Created(s, a), s.idCount, true, SlotFor(h, a.addr, a.source), a.nNow);
    }
  }

  /** The time news is taken to be of: a source's announcement of itself is not penalised. */
  ghost function Told(a: Announcement): int {
    var p := if a.addr.ip == a.source then 0 else a.nTimePenalty;
    Max(0, a.nTime - p)
  }

  /** What is stored of an address that was not known. */
  ghost predicate IsNews(a: Announcement, info: AddrInfo) {
    && info.service == a.addr && info.nServices == a.nServices && info.source == a.source && info.nTime == Told(a)
    && info.nLastTry == info.nLastCountAttempt == info.nLastSuccess == info.nAttempts == 0
    && info.nRefCount == 1 && !info.fInTried
  }

  /** The time of a known address moves on if it has none, or an hour or a day have gone by, and the penalty. */
  ghost predicate Moves(a: Announcement, info: AddrInfo) {
    var p := if a.addr.ip == a.source then 0 else a.nTimePenalty;
    var interval := if a.nNow < a.nTime + 86400 then 3600 else 86400;
    a.nTime != 0 && (info.nTime == 0 || info.nTime + interval + p < a.nTime)
  }

  /** A known address gets one more place, if the news is still news and there is room. */
  ghost predicate Spreads(a: Announcement, s: State, id: Id, slot: Slot)
    requires id in s.infos && (slot in s.news ==> s.news[slot] in s.infos)
  {
    var info := s.infos[id];
    var time := if Moves(a, info) then Told(a) else info.nTime;
    && a.nTime > 0 && (time == 0 || time < a.nTime)
    && !info.fInTried && 0 < info.nRefCount && info.nRefCount != NEW_BUCKETS_PER_ADDRESS
    && a.draw % Pow2(info.nRefCount) == 0
    && (slot in s.news ==> s.news[slot] != id && s.infos[s.news[slot]].IsTerrible(a.nNow))
  }

  /** What becomes of a known address: time, services and places, and nothing else. */
  ghost predicate IsRenewed(a: Announcement, before: AddrInfo, after: AddrInfo, spreads: bool) {
    after == before.(nTime := if Moves(a, before) then Told(a) else before.nTime,
                     nServices := before.nServices + a.nServices,
                     nRefCount := before.nRefCount + if spreads then 1 else 0,
                     nRandomPos := after.nRandomPos)
  }

  lemma RefreshedIs(a: Announcement, s: State, id: Id, slot: Slot)
    requires id in s.infos && (slot in s.news ==> s.news[slot] in s.infos)
    requires s.infos[id].fInTried || s.infos[id].nRefCount > 0
    ensures var info := a.Refreshed(s.infos[id]);
            && IsRenewed(a, s.infos[id], info, false)
            && (Spreads(a, s, id, slot) <==>
                  && a.Wanted(info)
                  && !(slot in s.news && (s.news[slot] == id || !Yields(s.infos[s.news[slot]], info, a.nNow))))
  {
    hide AddrInfo.IsTerrible, Pow2;
  }

  lemma NewInfoIs(a: Announcement, pos: int, info: AddrInfo)
    requires Moved(a.NewInfo().(nRandomPos := pos, nRefCount := 1), info)
    ensures IsNews(a, info)
  {
  }

  /**
   Adding never touches the tried table, and forgets no address but a terrible one. An address
   that is not routable changes nothing.
   */
  lemma AddOutcome(h: Hashes, s: State, a: Announcement)
    requires Ok(h, s, {}, 0) && s.idCount >= 0
    ensures var r := Add(h, s, a);
            && r.tried == s.tried
            && (forall ip :: ip in s.addrs && ip !in r.addrs ==>
                  s.addrs[ip] in s.infos && s.infos[s.addrs[ip]].IsTerrible(a.nNow))
            && (!a.routable ==> r == s)
            && (Timed(s.infos) ==> Timed(r.infos))
            && (a.routable && a.addr.ip !in s.addrs ==>
                  var slot := SlotFor(h, a.addr, a.source);
                  && (slot in s.news ==> s.news[slot] in s.infos)
                  && (a.addr.ip in r.addrs <==>
                        || slot !in s.news
                        || s.infos[s.news[slot]].IsTerrible(a.nNow) || s.infos[s.news[slot]].nRefCount > 1)
                  && (a.addr.ip in r.addrs ==>
                        r.addrs[a.addr.ip] in r.infos && IsNews(a, r.infos[r.addrs[a.addr.ip]])))
            && (a.routable && a.addr.ip in s.addrs ==>
                  && a.addr.ip in r.addrs && r.addrs[a.addr.ip] == s.addrs[a.addr.ip]
                  && s.addrs[a.addr.ip] in s.infos && s.addrs[a.addr.ip] in r.infos
                  && Newer(a, s.infos[s.addrs[a.addr.ip]], r.infos[s.addrs[a.addr.ip]]))
  {
    hide Ok, Insert, Created, SlotFor, IsNews, IsRenewed, Spreads, Newer, Add, Timed;
    if !a.routable {
      NothingAdded(h, s, a);
    } else if a.addr.ip in s.addrs {
      AddKnownOutcome(h, s, a);
    } else {
      AddNewOutcome(h, s, a);
    }
  }

  lemma NothingAdded(h: Hashes, s: State, a: Announcement)
    requires Ok(h, s, {}, 0) && s.idCount >= 0 && !a.routable
    ensures Add(h, s, a) == s
  {
  }

  lemma OnlyTerrible(h: Hashes, s: State, r: State, nNow: int)
    requires Ok(h, s, {}, 0) && Ok(h, r, {}, 0)
    requires forall x :: x in s.infos && x !in r.infos ==> s.infos[x].IsTerrible(nNow)
    requires forall x :: x in s.infos && x in r.infos ==> r.infos[x].service == s.infos[x].service
    ensures forall ip :: ip in s.addrs && ip !in r.addrs ==>
              s.addrs[ip] in s.infos && s.infos[s.addrs[ip]].IsTerrible(nNow)
  {
    hide Ok, AddrInfo.IsTerrible;
    forall ip | ip in s.addrs && ip !in r.addrs
      ensures s.addrs[ip] in s.infos && s.infos[s.addrs[ip]].IsTerrible(nNow)
    {
      var x := s.addrs[ip];
      AddrKnown(h, s, ip);
      assert x !in r.infos by {
        if x in r.infos {
          AddrOf(h, r, x);
        }
      }
    }
  }

  /** A known address is brought up to date, and is referred to from one more place exactly if it spreads. */
  lemma AddKnownOutcome(h: Hashes, s: State, a: Announcement)
    requires Ok(h, s, {}, 0) && s.idCount >= 0 && a.routable && a.addr.ip in s.addrs
    ensures var r := Add(h, s, a);
            var id := s.addrs[a.addr.ip];
            && r.tried == s.tried && (Timed(s.infos) ==> Timed(r.infos))
            && (forall ip :: ip in s.addrs && ip !in r.addrs ==>
                  s.addrs[ip] in s.infos && s.infos[s.addrs[ip]].IsTerrible(a.nNow))
            && id in s.infos && id in r.infos && a.addr.ip in r.addrs && r.addrs[a.addr.ip] == id
            && var slot := SlotFor(h, s.infos[id].service, a.source);
               && (slot in s.news ==> s.news[slot] in s.infos)
               && IsRenewed(a, s.infos[id], r.infos[id], Spreads(a, s, id, slot))
               && r.news == (if Spreads(a, s, id, slot) then s.news[slot := id] else s.news)
               && Newer(a, s.infos[id], r.infos[id])
  {
    hide Ok, Insert, SlotFor, Spreads, AddrInfo.IsTerrible, Newer, Announcement.Wanted, Announcement.Refreshed, Moves,
         Told;
    var r, id := Add(h, s, a), s.addrs[a.addr.ip];
    AddKeeps(h, s, a);
    AddrKnown(h, s, a.addr.ip);
    ReferencedOrTried(h, s, id);
    var info := a.Refreshed(s.infos[id]);
    var slot := SlotFor(h, s.infos[id].service, a.source);
    if slot in s.news {
      Known(h, s, {}, 0, slot);
    }
    RefreshedRole(a, s.infos[id]);
    RefreshedIs(a, s, id, slot);
    RefreshedKeeps(h, s, a, id);
    NewsMovesOn(a, s.infos[id]);
    if a.Wanted(info) {
      InsertOutcome(h, SetInfo(s, id, info), {}, 0, id, slot, a.nNow);
    }
    AddrOf(h, r, id);
    OnlyTerrible(h, s, r, a.nNow);
    NewerStill(a, s.infos[id], info, r.infos[id]);
  }

  lemma NewerStill(a: Announcement, before: AddrInfo, after: AddrInfo, moved: AddrInfo)
    requires Newer(a, before, after) && moved.nServices == after.nServices && moved.nTime == after.nTime
    ensures Newer(a, before, moved)
  {
  }

  /**
   A new address is kept exactly if its place is free, or held by one that is terrible or has
   another; it is then in that place, as announced.
   */
  lemma AddNewOutcome(h: Hashes, s: State, a: Announcement)
    requires Ok(h, s, {}, 0) && s.idCount >= 0 && a.routable && a.addr.ip !in s.addrs
    ensures var r := Add(h, s, a);
            && r.tried == s.tried && (Timed(s.infos) ==> Timed(r.infos))
            && (forall ip :: ip in s.addrs && ip !in r.addrs ==>
                  s.addrs[ip] in s.infos && s.infos[s.addrs[ip]].IsTerrible(a.nNow))
            && var slot := SlotFor(h, a.addr, a.source);
               && (slot in s.news ==> s.news[slot] in s.infos)
               && (a.addr.ip in r.addrs <==>
                     || slot !in s.news
                     || s.infos[s.news[slot]].IsTerrible(a.nNow) || s.infos[s.news[slot]].nRefCount > 1)
               && (if a.addr.ip in r.addrs then
                     && r.addrs[a.addr.ip] in r.infos && IsNews(a, r.infos[r.addrs[a.addr.ip]])
                     && r.news == s.news[slot := r.addrs[a.addr.ip]]
                   else r.news == s.news)
  {
    hide Ok, Insert, Created, SlotFor, IsNews, AddrInfo.IsTerrible, Announcement.NewInfo;
    var r, id := Add(h, s, a), s.idCount;
    var slot := SlotFor(h, a.addr, a.source);
    AddKeeps(h, s, a);
    CreatedKeeps(h, s, a);
    NewInfoRole(a);
    InsertOutcome(h, Created(s, a), {id}, 1, id, slot, a.nNow);
    if slot in s.news {
      Known(h, s, {}, 0, slot);
    }
    OnlyTerrible(h, s, r, a.nNow);
    if id in r.infos {
      AddrOf(h, r, id);
      NewInfoIs(a, |s.order|, r.infos[id]);
    } else if a.addr.ip in r.addrs {
      AddrKnown(h, r, a.addr.ip);
      AddrOf(h, s, r.addrs[a.addr.ip]);
    }
  }

  lemma NewInfoRole(a: Announcement)
    ensures var info := a.NewInfo(); info.service == a.addr && info.nRefCount == 0 && !info.fInTried && TimesOk(info)
  {
  }

  /** Statistics of an address, changed for a service known with this very port. */
  ghost function Note(s: State, addr: Service, info: AddrInfo): State {
    if Has(s, addr) then SetInfo(s, s.addrs[addr.ip], info) else s
  }

  lemma NoteKeeps(h: Hashes, s: State, addr: Service, info: AddrInfo)
    requires Ok(h, s, {}, 0)
    requires Has(s, addr) ==> var i := s.infos[s.addrs[addr.ip]];
                              i == info.(nTime := i.nTime, nServices := i.nServices, nLastTry := i.nLastTry,
                                         nLastCountAttempt := i.nLastCountAttempt, nAttempts := i.nAttempts)
    ensures Ok(h, Note(s, addr, info), {}, 0)
  {
    if Has(s, addr) {
      assert RoleOk(h, s, {}, s.addrs[addr.ip]);
      SetInfoKeeps(h, s, {}, 0, s.addrs[addr.ip], info);
    }
  }

  /** Known addresses that may be given to peers. */
  function Presentable(s: State, nNow: int): set<Id> {
    set id | id in s.infos && !s.infos[id].IsTerrible(nNow)
  }

  /** vRandom lists every known address once. */
  lemma OrderLists(h: Hashes, s: State)
    requires Ok(h, s, {}, 0)
    ensures forall k :: 0 <= k < |s.order| ==> s.order[k] in s.infos
    ensures forall j, k :: 0 <= j < k < |s.order| ==> s.order[j] != s.order[k]
    ensures forall id :: id in s.infos ==> id in s.order
  {
    forall id | id in s.infos ensures id in s.order { assert IdOk(s, id); }
  }

  /** Drawing the next address at random changes nothing but the order from there on. */
  lemma SwapStep(h: Hashes, s: State, n: nat, q: nat, nNow: int)
    requires Ok(h, s, {}, 0) && n <= q < |s.order|
    ensures s.order[n] in s.infos && s.order[q] in s.infos
    ensures var r := SwapRandom(s, n, q);
            && Ok(h, r, {}, 0) && KeepsOthers(s.infos, r.infos, {}) && |r.order| == |s.order|
            && r.order[..n] == s.order[..n] && r.order[n] == s.order[q] && s.order[q] !in s.order[..n]
            && Presentable(r, nNow) == Presentable(s, nNow) && r.order[n] in r.infos
  {
    hide Ok, AddrInfo.IsTerrible;
    OrderLists(h, s);
    SwapKeeps(h, s, {}, 0, n, q);
    var r := SwapRandom(s, n, q);
    assert KeepsOthers(s.infos, r.infos, {});
    forall id ensures id in Presentable(r, nNow) <==> id in Presentable(s, nNow) {
      if id in s.infos {
        MovedIsAsTerrible(s.infos[id], r.infos[id], nNow);
      }
    }
  }

  lemma MovedIsAsTerrible(a: AddrInfo, b: AddrInfo, nNow: int)
    requires Moved(a, b)
    ensures b.IsTerrible(nNow) == a.IsTerrible(nNow)
  {
  }
}
