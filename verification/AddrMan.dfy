/** CAddrMan (src/addrman.h, src/addrman.cpp) as a class over the indexes of module AddrIndex. */
module AddrMan {
  import opened AddrIndex
  import opened AddrCheck
  import opened AddrRead
  import opened AddrStore
  import opened Numbers
  import opened Options

  const GETADDR_MAX_PCT := 23
  const GETADDR_MAX := 2500

  /** The occupied places of a table; -1 stands for a free one. */
  ghost function Table(a: array2<int>): map<Slot, Id>
    reads a
  {
    map b: nat, i: nat | b < a.Length0 && i < a.Length1 && a[b, i] != -1 :: (b, i) := a[b, i]
  }

  lemma TableAt(a: array2<int>, b: nat, i: nat)
    requires b < a.Length0 && i < a.Length1
    ensures (b, i) in Table(a) <==> a[b, i] != -1
    ensures (b, i) in Table(a) ==> Table(a)[(b, i)] == a[b, i]
  {
  }

  lemma TableWithin(a: array2<int>)
    ensures forall slot :: slot in Table(a) ==> slot.0 < a.Length0 && slot.1 < a.Length1
  {
  }

  lemma EmptyTable(a: array2<int>)
    requires forall b, i :: 0 <= b < a.Length0 && 0 <= i < a.Length1 ==> a[b, i] == -1
    ensures Table(a) == map[]
  {
  }

  method Fill(a: array2<int>, b: nat, i: nat, id: Id)
    requires b < a.Length0 && i < a.Length1 && id != -1
    modifies a
    ensures Table(a) == old(Table(a))[(b, i) := id]
  {
    a[b, i] := id;
    assert forall c: nat, j: nat :: c < a.Length0 && j < a.Length1 && (c, j) != (b, i) ==> a[c, j] == old(a[c, j]);
  }

  method Free(a: array2<int>, b: nat, i: nat)
    requires b < a.Length0 && i < a.Length1
    modifies a
    ensures Table(a) == old(Table(a)) - {(b, i)}
  {
    a[b, i] := -1;
    assert forall c: nat, j: nat :: c < a.Length0 && j < a.Length1 && (c, j) != (b, i) ==> a[c, j] == old(a[c, j]);
  }

  class AddressManager {
    const h: Hashes
    var nIdCount: nat
    var mapInfo: map<Id, AddrInfo>
    var mapAddr: map<NetAddr, Id>
    var vRandom: seq<Id>
    var nTried: int
    const vvTried: array2<int>
    var nNew: int
    const vvNew: array2<int>
    var nLastGood: int

    ghost predicate Shape() {
      && vvTried != vvNew
      && vvTried.Length0 == TRIED_BUCKET_COUNT && vvTried.Length1 == BUCKET_SIZE
      && vvNew.Length0 == NEW_BUCKET_COUNT && vvNew.Length1 == BUCKET_SIZE
    }

    ghost function Abs(): State
      reads this, vvTried, vvNew
    {
      State(mapInfo, mapAddr, vRandom, Table(vvTried), Table(vvNew), nTried, nNew, nIdCount)
    }

    /** All conditions of the source's Check_ on the structure, which no operation can break. */
    ghost predicate Sound()
      reads this, vvTried, vvNew
    {
      Shape() && Ok(h, Abs(), {}, 0)
    }

    /** All conditions of the source's Check_, those on the times included. */
    ghost predicate Valid()
      reads this, vvTried, vvNew
    {
      Sound() && Timed(mapInfo)
    }

    constructor (h: Hashes)
      ensures this.h == h && Valid() && mapAddr == map[] && fresh(vvTried) && fresh(vvNew)
    {
      this.h := h;
      nIdCount, mapInfo, mapAddr, vRandom, nTried, nNew, nLastGood := 0, map[], map[], [], 0, 0, 1;
      vvTried := new int[TRIED_BUCKET_COUNT, BUCKET_SIZE]((_, _) => -1);
      vvNew := new int[NEW_BUCKET_COUNT, BUCKET_SIZE]((_, _) => -1);
      new;
      assert Table(vvTried) == map[] && Table(vvNew) == map[];
      assert TriedIds(mapInfo) == {} && NewIds(mapInfo, {}) == {};
    }

    method Find(ip: NetAddr) returns (found: bool, id: Id)
      requires Sound()
      ensures found <==> ip in mapAddr
      ensures found ==> id in mapInfo && mapInfo[id].service.ip == ip && mapAddr[ip] == id
    {
      found, id := false, 0;
      if ip in mapAddr {
        id := mapAddr[ip];
        found := id in mapInfo;
      }
    }

    method SwapRandom(p: nat, q: nat)
      requires p < |vRandom| && q < |vRandom| && vRandom[p] in mapInfo && vRandom[q] in mapInfo
      modifies this`mapInfo, this`vRandom
      ensures Abs() == AddrIndex.SwapRandom(old(Abs()), p, q)
    {
      if p == q {
        return;
      }
      var a, b := vRandom[p], vRandom[q];
      mapInfo := mapInfo[a := mapInfo[a].(nRandomPos := q)];
      mapInfo := mapInfo[b := mapInfo[b].(nRandomPos := p)];
      vRandom := vRandom[p := b];
      vRandom := vRandom[q := a];
    }

    /** Removes an address that is in no table. */
    method Delete(id: Id)
      requires id in mapInfo && !mapInfo[id].fInTried && mapInfo[id].nRefCount == 0
      requires 0 <= mapInfo[id].nRandomPos < |vRandom|
      requires vRandom[mapInfo[id].nRandomPos] == id && vRandom[|vRandom| - 1] in mapInfo
      modifies this`mapInfo, this`vRandom, this`mapAddr, this`nNew
      ensures Abs() == AddrIndex.Delete(old(Abs()), id)
    {
      hide Table;
      var ip := mapInfo[id].service.ip;
      SwapRandom(mapInfo[id].nRandomPos, |vRandom| - 1);
      vRandom := vRandom[..|vRandom| - 1];
      mapAddr := mapAddr - {ip};
      mapInfo := mapInfo - {id};
      nNew := nNew - 1;
    }

    /** Frees a place in the new table. */
    method ClearNew(b: nat, i: nat, ghost limbo: set<Id>, ghost ahead: int)
      requires Shape() && Ok(h, Abs(), limbo, ahead) && b < NEW_BUCKET_COUNT && i < BUCKET_SIZE
      modifies this`mapInfo, this`vRandom, this`mapAddr, this`nNew, vvNew
      ensures Abs() == AddrIndex.ClearNew(h, old(Abs()), limbo, ahead, (b, i))
    {
      hide Ok, Table, AddrIndex.Delete, NewSlotOk;
      TableAt(vvNew, b, i);
      if vvNew[b, i] != -1 {
        var id := vvNew[b, i];
        ReferredTo(h, Abs(), limbo, ahead, (b, i));
        Placed(h, Abs(), limbo, ahead, id);
        assert mapInfo[id].nRefCount > 0;
        mapInfo := mapInfo[id := mapInfo[id].(nRefCount := mapInfo[id].nRefCount - 1)];
        Free(vvNew, b, i);
        assert Abs() == Release(old(Abs()), (b, i));
        if mapInfo[id].nRefCount == 0 {
          Delete(id);
        }
      }
    }

    method RemoveFromBucket(id: Id, bucket: nat)
      requires Shape() && id in mapInfo && id >= 0 && bucket < NEW_BUCKET_COUNT
      modifies this`mapInfo, vvNew
      ensures Abs() == ForgetStep(h, old(Abs()), id, bucket)
    {
      hide Table;
      var pos := h.Position(true, bucket, mapInfo[id].service);
      TableAt(vvNew, bucket, pos);
      if vvNew[bucket, pos] == id {
        Free(vvNew, bucket, pos);
        mapInfo := mapInfo[id := mapInfo[id].(nRefCount := mapInfo[id].nRefCount - 1)];
      }
    }

    /** Takes an address out of every new bucket. */
    method RemoveFromNew(id: Id)
      requires Shape() && id in mapInfo && id >= 0
      modifies this`mapInfo, vvNew
      ensures Abs() == ForgetNew(h, old(Abs()), id, 0)
    {
      hide Table, ForgetStep;
      for bucket := 0 to NEW_BUCKET_COUNT
        invariant id in mapInfo
        invariant ForgetNew(h, Abs(), id, bucket) == ForgetNew(h, old(Abs()), id, 0)
      {
        RemoveFromBucket(id, bucket);
      }
    }

    /** Moves the occupant of a place in the tried table back to the new table. */
    method MoveToNew(b: nat, i: nat, ghost limbo: set<Id>, ghost ahead: int)
      requires Shape() && Ok(h, Abs(), limbo, ahead) && b < TRIED_BUCKET_COUNT && i < BUCKET_SIZE
      requires (b, i) in Table(vvTried) && vvTried[b, i] in mapInfo && mapInfo[vvTried[b, i]].fInTried
      requires h.TriedSlot(mapInfo[vvTried[b, i]].service) == (b, i)
      modifies this`mapInfo, this`vRandom, this`mapAddr, this`nNew, this`nTried, vvTried, vvNew
      ensures Abs() == Evict(h, old(Abs()), limbo, ahead, old(vvTried[b, i]))
    {
      hide Ok, Table, AddrIndex.ClearNew;
      var id := vvTried[b, i];
      ghost var s := Abs();
      InTried(h, s, limbo, ahead, id);
      Placed(h, s, limbo, ahead, id);
      LeaveTriedKeeps(h, s, limbo, ahead, id);
      mapInfo := mapInfo[id := mapInfo[id].(fInTried := false)];
      Free(vvTried, b, i);
      nTried := nTried - 1;
      ghost var t := Abs();
      assert t == LeaveTried(h, s, id);
      var ub := h.NewBucket(mapInfo[id].service, mapInfo[id].source);
      var ui := h.Position(true, ub, mapInfo[id].service);
      ClearNewOthers(h, t, limbo + {id}, ahead, (ub, ui));
      ClearNew(ub, ui, limbo + {id}, ahead);
      assert Moved(t.infos[id], mapInfo[id]);
      TableAt(vvNew, ub, ui);
      assert vvNew[ub, ui] == -1;
      mapInfo := mapInfo[id := mapInfo[id].(nRefCount := 1)];
      Fill(vvNew, ub, ui, id);
      nNew := nNew + 1;
    }

    /** Moves an address from the new table to the tried table. */
    method MakeTried(id: Id)
      requires Shape() && Promotable(h, Abs(), id)
      modifies this`mapInfo, this`vRandom, this`mapAddr, this`nNew, this`nTried, vvTried, vvNew
      ensures Abs() == AddrIndex.MakeTried(h, old(Abs()), id)
    {
      hide Ok, Table, Evict, ForgetNew, KeepsOthers, AddrInfo.IsTerrible, TimesFrom, HomeSlot;
      ghost var s := Abs();
      Placed(h, s, {}, 0, id);
      PromotionStarts(h, s, id);
      RemoveFromNew(id);
      nNew := nNew - 1;
      assert mapInfo[id].nRefCount == 0;
      ghost var u := Abs();
      var b := h.TriedBucket(mapInfo[id].service);
      var i := h.Position(false, b, mapInfo[id].service);
      TableAt(vvTried, b, i);
      if vvTried[b, i] != -1 {
        Occupied(h, u, {id}, 0, (b, i));
        Spared(h, u, id, (b, i));
        EvictOthers(h, u, {id}, 0, vvTried[b, i]);
        MoveToNew(b, i, {id}, 0);
      }
      TableAt(vvTried, b, i);
      assert vvTried[b, i] == -1;
      Fill(vvTried, b, i, id);
      nTried := nTried + 1;
      mapInfo := mapInfo[id := mapInfo[id].(fInTried := true)];
    }

    /** Looks for a bucket of the new table that holds the address, from a random one on. */
    method FindBucket(id: Id, nRnd: nat) returns (bucket: int)
      requires Shape() && id in mapInfo
      ensures bucket == -1 || 0 <= bucket < NEW_BUCKET_COUNT
      ensures bucket != -1 ==> vvNew[bucket, h.Position(true, bucket, mapInfo[id].service)] == id
      ensures bucket == -1 ==> forall b: nat :: b < NEW_BUCKET_COUNT ==>
                vvNew[b, h.Position(true, b, mapInfo[id].service)] != id
    {
      bucket := -1;
      var n := 0;
      while n < NEW_BUCKET_COUNT
        invariant 0 <= n <= NEW_BUCKET_COUNT
        invariant forall b: nat :: b < NEW_BUCKET_COUNT && Turn(b, nRnd) < n ==>
                    vvNew[b, h.Position(true, b, mapInfo[id].service)] != id
      {
        var b := (n + nRnd) % NEW_BUCKET_COUNT;
        if vvNew[b, h.Position(true, b, mapInfo[id].service)] == id {
          bucket := b;
          return;
        }
        forall c: nat | c < NEW_BUCKET_COUNT && Turn(c, nRnd) == n ensures c == b { TurnIsUnique(c, nRnd, n); }
        n := n + 1;
      }
    }

    /** The last success is recorded, and the address moves to the tried table. */
    method Good(addr: Service, nTime: int, nRnd: nat)
      requires Sound()
      modifies this, vvTried, vvNew
      ensures Sound() && Abs() == AddrIndex.Good(h, old(Abs()), addr, nTime) && nLastGood == nTime
      ensures old(Valid()) ==> (Valid() <==> nTime > 0 || !Has(old(Abs()), addr))
    {
      hide Ok, Table, AddrIndex.MakeTried, ForgetNew, Timed;
      ghost var s := Abs();
      GoodIsTried(h, s, addr, nTime);
      if Timed(mapInfo) {
        GoodTimed(h, s, addr, nTime);
      }
      nLastGood := nTime;
      var found, id := Find(addr.ip);
      if !found || mapInfo[id].service != addr {
        return;
      }
      SucceededKeeps(h, s, id, nTime);
      mapInfo := mapInfo[id := mapInfo[id].(nLastSuccess := nTime, nLastTry := nTime, nAttempts := 0)];
      if mapInfo[id].fInTried {
        return;
      }
      var bucket := FindBucket(id, nRnd);
      ghost var b := HasBucket(h, Abs(), {}, 0, id);
      TableAt(vvNew, b, h.Position(true, b, mapInfo[id].service));
      assert bucket != -1; // the bail-out for an address in no bucket is never taken
      MakeTried(id);
    }

    /** A new address, known but in no table yet. */
    method Create(info: AddrInfo) returns (id: Id)
      modifies this`nIdCount, this`mapInfo, this`mapAddr, this`vRandom
      ensures id == old(nIdCount) && Abs() == AddrIndex.Create(old(Abs()), info)
    {
      hide Table;
      id := nIdCount;
      nIdCount := nIdCount + 1;
      mapInfo := mapInfo[id := info];
      mapAddr := mapAddr[info.service.ip := id];
      mapInfo := mapInfo[id := mapInfo[id].(nRandomPos := |vRandom|)];
      vRandom := vRandom + [id];
    }

    /** Gives an address a place in the new table, if it may have it. */
    method Insert(id: Id, source: NetAddr, nNow: int, ghost limbo: set<Id>, ghost ahead: int)
      requires Shape() && Ok(h, Abs(), limbo, ahead) && id in mapInfo && !mapInfo[id].fInTried
      modifies this`mapInfo, this`vRandom, this`mapAddr, this`nNew, vvNew
      ensures Abs() == AddrIndex.Insert(h, old(Abs()), limbo, ahead, id, SlotFor(h, old(mapInfo[id].service), source),
                nNow)
    {
      hide Ok, Table, AddrIndex.ClearNew, AddrIndex.Delete, RoleOk;
      var b := h.NewBucket(mapInfo[id].service, source);
      var i := h.Position(true, b, mapInfo[id].service);
      ghost var s := Abs();
      TableAt(vvNew, b, i);
      Placed(h, s, limbo, ahead, id);
      if vvNew[b, i] != id {
        var fInsert := vvNew[b, i] == -1;
        if !fInsert {
          Known(h, s, limbo, ahead, (b, i));
          var infoExisting := mapInfo[vvNew[b, i]];
          if infoExisting.IsTerrible(nNow) || (infoExisting.nRefCount > 1 && mapInfo[id].nRefCount == 0) {
            fInsert := true;
          }
        }
        if fInsert {
          ClearNewOthers(h, s, limbo, ahead, (b, i));
          ClearNew(b, i, limbo, ahead);
          mapInfo := mapInfo[id := mapInfo[id].(nRefCount := mapInfo[id].nRefCount + 1)];
          Fill(vvNew, b, i, id);
        } else if mapInfo[id].nRefCount == 0 {
          Delete(id);
        }
      }
    }

    /** Updates a known address, and decides whether it should get one more place. */
    method Refresh(id: Id, a: Announcement) returns (wanted: bool)
      requires id in mapInfo && (mapInfo[id].fInTried || mapInfo[id].nRefCount > 0)
      modifies this`mapInfo
      ensures mapInfo == old(mapInfo)[id := a.Refreshed(old(mapInfo[id]))]
      ensures wanted == a.Wanted(mapInfo[id])
    {
      var nTimePenalty := if a.addr.ip == a.source then 0 else a.nTimePenalty;
      var fCurrentlyOnline := a.nNow - a.nTime < 24 * 60 * 60;
      var nUpdateInterval := if fCurrentlyOnline then 60 * 60 else 24 * 60 * 60;
      var info := mapInfo[id];
      if a.nTime != 0 && (info.nTime == 0 || info.nTime < a.nTime - nUpdateInterval - nTimePenalty) {
        info := info.(nTime := if a.nTime - nTimePenalty > 0 then a.nTime - nTimePenalty else 0);
      }
      info := info.(nServices := info.nServices + a.nServices);
      mapInfo := mapInfo[id := info];
      if a.nTime == 0 || (info.nTime != 0 && a.nTime <= info.nTime) {
        return false;
      }
      if info.fInTried || info.nRefCount == NEW_BUCKETS_PER_ADDRESS {
        return false;
      }
      var nFactor := 1;
      for n := 0 to info.nRefCount
        invariant nFactor == Pow2(n)
      {
        nFactor := nFactor * 2;
      }
      return nFactor == 1 || a.RandomInt(nFactor) == 0;
    }

    method Add(a: Announcement) returns (fNew: bool)
      requires Sound()
      modifies this, vvNew
      ensures Sound() && (old(Valid()) ==> Valid())
      ensures Abs() == AddrIndex.Add(h, old(Abs()), a) && nLastGood == old(nLastGood)
      ensures fNew <==> a.routable && a.addr.ip !in old(mapAddr)
    {
      hide Ok, Table, AddrIndex.Insert, AddrIndex.Create, SlotFor, AddrInfo.IsTerrible, Announcement.Refreshed,
           Announcement.Wanted, Timed, Newer;
      ghost var s := Abs();
      AddKeeps(h, s, a);
      AddOutcome(h, s, a);
      if !a.routable {
        return false;
      }
      var found, id := Find(a.addr.ip);
      fNew := !found;
      if found {
        RefreshedKeeps(h, s, a, id);
        ReferencedOrTried(h, s, id);
        var wanted := Refresh(id, a);
        RefreshedRole(a, s.infos[id]);
        if wanted {
          Insert(id, a.source, a.nNow, {}, 0);
        }
      } else {
        CreatedKeeps(h, s, a);
        id := Create(a.NewInfo());
        nNew := nNew + 1;
        Insert(id, a.source, a.nNow, {id}, 1);
      }
    }

    method Attempt(addr: Service, fCountFailure: bool, nTime: int)
      requires Sound()
      modifies this`mapInfo
      ensures Sound() && (old(Valid()) ==> (Valid() <==> nTime >= 0 || !Has(old(Abs()), addr)))
      ensures Has(old(Abs()), addr) ==>
                var i := old(mapInfo)[mapAddr[addr.ip]];
                var counted := fCountFailure && i.nLastCountAttempt < nLastGood;
                mapInfo == old(mapInfo)[mapAddr[addr.ip] :=
                  i.(nLastTry := nTime, nLastCountAttempt := if counted then nTime else i.nLastCountAttempt,
                     nAttempts := if counted then i.nAttempts + 1 else i.nAttempts)]
      ensures !Has(old(Abs()), addr) ==> mapInfo == old(mapInfo)
    {
      hide Ok, Table;
      var found, id := Find(addr.ip);
      if !found || mapInfo[id].service != addr {
        return;
      }
      var info := mapInfo[id].(nLastTry := nTime);
      if fCountFailure && info.nLastCountAttempt < nLastGood {
        info := info.(nLastCountAttempt := nTime, nAttempts := info.nAttempts + 1);
      }
      NoteKeeps(h, Abs(), addr, info);
      mapInfo := mapInfo[id := info];
      assert old(Timed(mapInfo)) ==> (TimesOk(mapInfo[id]) <==> nTime >= 0);
    }

    method Connected(addr: Service, nTime: int)
      requires Sound()
      modifies this`mapInfo
      ensures Sound() && (old(Valid()) ==> Valid())
      ensures Has(old(Abs()), addr) ==>
                var i := old(mapInfo)[mapAddr[addr.ip]];
                mapInfo == old(mapInfo)[mapAddr[addr.ip] := i.(nTime := if nTime - i.nTime > 20 * 60 then nTime
                  else i.nTime)]
      ensures !Has(old(Abs()), addr) ==> mapInfo == old(mapInfo)
    {
      hide Ok, Table;
      var found, id := Find(addr.ip);
      if !found || mapInfo[id].service != addr {
        return;
      }
      if nTime - mapInfo[id].nTime > 20 * 60 {
        NoteKeeps(h, Abs(), addr, mapInfo[id].(nTime := nTime));
        mapInfo := mapInfo[id := mapInfo[id].(nTime := nTime)];
      }
    }

    method SetServices(addr: Service, nServices: set<nat>)
      requires Sound()
      modifies this`mapInfo
      ensures Sound() && (old(Valid()) ==> Valid())
      ensures Has(old(Abs()), addr) ==>
                mapInfo == old(mapInfo)[mapAddr[addr.ip] := old(mapInfo)[mapAddr[addr.ip]].(nServices := nServices)]
      ensures !Has(old(Abs()), addr) ==> mapInfo == old(mapInfo)
    {
      hide Ok, Table;
      var found, id := Find(addr.ip);
      if !found || mapInfo[id].service != addr {
        return;
      }
      NoteKeeps(h, Abs(), addr, mapInfo[id].(nServices := nServices));
      mapInfo := mapInfo[id := mapInfo[id].(nServices := nServices)];
    }

    /**
     Some addresses for a peer: known, presentable, none twice, at most 23 percent and 2500 of
     them, and all the presentable ones if that bound is not reached.
     */
    method GetAddr(nNow: int) returns (vAddr: seq<Id>)
      requires Sound()
      modifies this`mapInfo, this`vRandom
      ensures Sound() && (old(Valid()) ==> Valid()) && KeepsOthers(old(mapInfo), mapInfo, {})
      ensures |vAddr| <= GETADDR_MAX && |vAddr| * 100 <= GETADDR_MAX_PCT * |vRandom|
      ensures forall j, k :: 0 <= j < k < |vAddr| ==> vAddr[j] != vAddr[k]
      ensures forall id :: id in vAddr ==> id in Presentable(Abs(), nNow)
      ensures |vAddr| == GETADDR_MAX || (|vAddr| + 1) * 100 > GETADDR_MAX_PCT * |vRandom|
              || forall id :: id in Presentable(Abs(), nNow) ==> id in vAddr
    {
      hide Ok, Table, AddrIndex.SwapRandom, AddrInfo.IsTerrible;
      var nNodes := GETADDR_MAX_PCT * |vRandom| / 100;
      if nNodes > GETADDR_MAX {
        nNodes := GETADDR_MAX;
      }
      vAddr := [];
      var n := 0;
      OrderLists(h, Abs());
      while n < |vRandom|
        invariant 0 <= n <= |vRandom| && |vRandom| == old(|vRandom|) && |vAddr| <= nNodes
        invariant Sound() && KeepsOthers(old(mapInfo), mapInfo, {})
        invariant forall j, k :: 0 <= j < k < |vAddr| ==> vAddr[j] != vAddr[k]
        invariant forall id :: id in vAddr <==> id in vRandom[..n] && id in Presentable(Abs(), nNow)
      {
        if |vAddr| >= nNodes {
          break;
        }
        var nRndPos: nat :| n <= nRndPos < |vRandom|;
        SwapStep(h, Abs(), n, nRndPos, nNow);
        SwapRandom(n, nRndPos);
        if !mapInfo[vRandom[n]].IsTerrible(nNow) {
          vAddr := vAddr + [vRandom[n]];
        }
        n := n + 1;
      }
      OrderLists(h, Abs());
    }

    /** The addresses one by one; collects the tried ones, and the references to the new ones. */
    method CheckInfos() returns (code: int, setTried: set<Id>, mapNew: map<Id, int>)
      ensures code == 0 <==> InfosChecked(Abs())
      ensures code == 0 ==> setTried == TriedIds(mapInfo)
      ensures code == 0 ==> mapNew == map id | id in NewIds(mapInfo, {}) :: mapInfo[id].nRefCount
    {
      hide Table;
      ghost var s := Abs();
      setTried, mapNew := {}, map[];
      var todo := mapInfo.Keys;
      while todo != {}
        invariant todo <= mapInfo.Keys
        invariant forall id :: id in mapInfo && id !in todo ==> InfoChecked(s, id)
        invariant setTried == TriedIds(mapInfo) - todo
        invariant mapNew == map id | id in NewIds(mapInfo, {}) - todo :: mapInfo[id].nRefCount
        decreases todo
      {
        NonEmpty(todo);
        var n :| n in todo;
        var info := mapInfo[n];
        code := CheckInfo(n);
        if code != 0 {
          assert !InfoChecked(s, n);
          return;
        }
        if info.fInTried {
          setTried := setTried + {n};
        } else {
          mapNew := mapNew[n := info.nRefCount];
        }
        todo := todo - {n};
      }
      code := 0;
    }

    method CheckInfo(n: Id) returns (code: int)
      requires n in mapInfo
      ensures code == 0 <==> InfoChecked(Abs(), n)
    {
      hide Table;
      var info := mapInfo[n];
      if info.fInTried {
        if info.nLastSuccess == 0 {
          return -1;
        }
        if info.nRefCount != 0 {
          return -2;
        }
      } else {
        if info.nRefCount < 0 || info.nRefCount > NEW_BUCKETS_PER_ADDRESS {
          return -3;
        }
        if info.nRefCount == 0 {
          return -4;
        }
      }
      if IdAt(mapAddr, info.service.ip) != n {
        return -5;
      }
      if info.nRandomPos < 0 || info.nRandomPos >= |vRandom| || vRandom[info.nRandomPos] != n {
        return -14;
      }
      if info.nLastTry < 0 {
        return -6;
      }
      if info.nLastSuccess < 0 {
        return -8;
      }
      return 0;
    }

    method CheckTried(all: set<Id>) returns (code: int)
      requires Shape() && all == TriedIds(mapInfo)
      ensures code == 0 <==> TriedTableChecked(h, Abs())
    {
      hide Table, TriedSoFar, TriedTableChecked;
      ghost var s := Abs();
      TableWithin(vvTried);
      TriedStart(h, s, all);
      var setTried := all;
      for n := 0 to TRIED_BUCKET_COUNT
        invariant TriedSoFar(h, s, n, 0, setTried)
      {
        for i := 0 to BUCKET_SIZE
          invariant TriedSoFar(h, s, n, i, setTried)
        {
          TableAt(vvTried, n, i);
          TriedStep(h, s, n, i, setTried);
          if vvTried[n, i] != -1 {
            var id := vvTried[n, i];
            TriedFault(h, s, (n, i));
            if id !in setTried {
              return -11;
            }
            if h.TriedBucket(mapInfo[id].service) != n {
              return -17;
            }
            if h.Position(false, n, mapInfo[id].service) != i {
              return -18;
            }
            TriedMember(h, s, n, i, setTried, id);
            setTried := setTried - {id};
          }
        }
        TriedRow(h, s, n, setTried);
      }
      TriedEnd(h, s, setTried);
      return if setTried != {} then -13 else 0;
    }

    method CheckNew(all: map<Id, int>) returns (code: int)
      requires Shape() && InfosChecked(Abs())
      requires all == map id | id in NewIds(mapInfo, {}) :: mapInfo[id].nRefCount
      ensures code == 0 <==> NewTableChecked(h, Abs())
    {
      hide Table, NewSoFar, NewTableChecked, InfosChecked;
      ghost var s := Abs();
      TableWithin(vvNew);
      NewStart(h, s, all);
      var mapNew := all;
      for n := 0 to NEW_BUCKET_COUNT
        invariant NewSoFar(h, s, n, 0, mapNew)
      {
        for i := 0 to BUCKET_SIZE
          invariant NewSoFar(h, s, n, i, mapNew)
        {
          TableAt(vvNew, n, i);
          NewStep(h, s, n, i, mapNew);
          if vvNew[n, i] != -1 {
            var id := vvNew[n, i];
            NewFault(h, s, (n, i));
            if id !in mapNew {
              return -12;
            }
            if h.Position(true, n, mapInfo[id].service) != i {
              return -19;
            }
            NewMember(h, s, n, i, mapNew, id);
            mapNew := Paid(mapNew, id);
          }
        }
        NewRow(h, s, n, mapNew);
      }
      NewEnd(h, s, mapNew);
      return if mapNew != map[] then -15 else 0;
    }

    /** Zero means that everything the check looks at is in order. */
    method Check() returns (code: int)
      requires Shape()
      ensures code == 0 <==> Checked(h, Abs()) && !h.keyIsNull
      ensures Sound() ==> (code == 0 <==> Timed(mapInfo) && !h.keyIsNull)
      ensures Valid() ==> code == if h.keyIsNull then -16 else 0
    {
      hide Table, Ok, TriedTableChecked, NewTableChecked, InfosChecked;
      CheckedIsOk(h, Abs());
      if |vRandom| != nTried + nNew {
        return -7;
      }
      var setTried, mapNew;
      code, setTried, mapNew := CheckInfos();
      if code != 0 {
        return;
      }
      if |setTried| != nTried {
        return -9;
      }
      assert mapNew.Keys == NewIds(mapInfo, {});
      if |mapNew| != nNew {
        return -10;
      }
      code := CheckTried(setTried);
      if code != 0 {
        return;
      }
      code := CheckNew(mapNew);
      if code != 0 {
        return;
      }
      if h.keyIsNull {
        return -16;
      }
    }

    /** The new addresses, with the numbers they get in the file. */
    method SaveNew() returns (news: seq<Record>, mapUnkIds: map<Id, int>, ghost ns: seq<Id>)
      requires Sound()
      ensures Written(mapInfo, false, {}, ns, news) && |ns| == nNew
      ensures forall slot :: slot in Table(vvNew) ==>
                && Table(vvNew)[slot] in mapUnkIds && Table(vvNew)[slot] in Positions(ns)
                && mapUnkIds[Table(vvNew)[slot]] == Positions(ns)[Table(vvNew)[slot]]
    {
      hide Ok, Table, Written;
      news, mapUnkIds, ns := [], map[], [];
      var nIds := 0;
      var todo := mapInfo.Keys;
      NothingWritten(mapInfo, false);
      while todo != {}
        invariant todo <= mapInfo.Keys && nIds == |ns| && Written(mapInfo, false, todo, ns, news)
        invariant forall k :: 0 <= k < |ns| ==> ns[k] in mapUnkIds && mapUnkIds[ns[k]] == k && ns[k] !in todo
        decreases todo
      {
        NonEmpty(todo);
        var n :| n in todo;
        var info := mapInfo[n];
        mapUnkIds := mapUnkIds[n := nIds];
        ReferencedOrTried(h, Abs(), n);
        if info.fInTried {
          InTried(h, Abs(), {}, 0, n);
        }
        WriteStep(mapInfo, false, todo, ns, news, n);
        if info.nRefCount != 0 {
          WriteRoom(mapInfo, false, todo, ns, news, n);
          NewCounter(h, Abs());
          assert nIds != nNew;
          news, nIds, ns := news + [ToRecord(info)], nIds + 1, ns + [n];
        }
        todo := todo - {n};
      }
      WriteEnd(mapInfo, false, ns, news);
      NewCounter(h, Abs());
      NumbersAgree(h, Abs(), ns, news, mapUnkIds);
    }

    method SaveTried() returns (trieds: seq<Record>, ghost ts: seq<Id>)
      requires Sound()
      ensures Written(mapInfo, true, {}, ts, trieds) && |ts| == nTried
    {
      hide Ok, Table, Written;
      trieds, ts := [], [];
      var nIds := 0;
      var todo := mapInfo.Keys;
      NothingWritten(mapInfo, true);
      NewCounter(h, Abs());
      while todo != {}
        invariant todo <= mapInfo.Keys && nIds == |ts| && Written(mapInfo, true, todo, ts, trieds)
        decreases todo
      {
        NonEmpty(todo);
        var n :| n in todo;
        var info := mapInfo[n];
        WriteStep(mapInfo, true, todo, ts, trieds, n);
        if info.fInTried {
          WriteRoom(mapInfo, true, todo, ts, trieds, n);
          assert nIds != nTried;
          trieds, nIds, ts := trieds + [ToRecord(info)], nIds + 1, ts + [n];
        }
        todo := todo - {n};
      }
      WriteEnd(mapInfo, true, ts, trieds);
    }

    /** Writes the manager to a file. */
    method Save() returns (f: File, ghost ns: seq<Id>, ghost ts: seq<Id>)
      requires Sound()
      ensures f.key == h && Saved(f, Abs(), ns, ts)
    {
      hide Ok, Table, Written;
      var news, mapUnkIds;
      news, mapUnkIds, ns := SaveNew();
      var trieds;
      trieds, ts := SaveTried();
      var buckets: seq<seq<int>> := [];
      for bucket := 0 to NEW_BUCKET_COUNT
        invariant |buckets| == bucket
        invariant forall b :: 0 <= b < bucket ==> buckets[b] == BucketList(Table(vvNew), Positions(ns), b, BUCKET_SIZE)
      {
        var entries: seq<int> := [];
        for i := 0 to BUCKET_SIZE
          invariant entries == BucketList(Table(vvNew), mapUnkIds, bucket, i)
        {
          TableAt(vvNew, bucket, i);
          if vvNew[bucket, i] != -1 {
            entries := entries + [mapUnkIds[vvNew[bucket, i]]];
          }
        }
        BucketListAgrees(Table(vvNew), mapUnkIds, Positions(ns), bucket, BUCKET_SIZE);
        buckets := buckets + [entries];
      }
      f := File(1, 32, h, nNew, nTried, NEW_BUCKET_COUNT, news, trieds, buckets);
    }

    /** Refers to an address from the place its source gives it, if that is free. */
    method TakeHome(info: AddrInfo, n: nat) returns (taken: bool)
      requires Shape()
      modifies vvNew
      ensures taken <==> HomeSlot(h, info) !in old(Table(vvNew))
      ensures Table(vvNew) == if taken then old(Table(vvNew))[HomeSlot(h, info) := n] else old(Table(vvNew))
    {
      hide Table;
      var nUBucket := h.NewBucket(info.service, info.source);
      var nUBucketPos := h.Position(true, nUBucket, info.service);
      TableAt(vvNew, nUBucket, nUBucketPos);
      taken := vvNew[nUBucket, nUBucketPos] == -1;
      if taken {
        Fill(vvNew, nUBucket, nUBucketPos, n);
      }
    }

    method LoadNew(f: File)
      requires Shape() && Complete(f) && Abs().(nTried := 0) == NewsRead(h, f, 0)
      modifies this`mapInfo, this`mapAddr, this`vRandom, vvNew
      ensures Abs().(nTried := 0, idCount := f.nNew) == NewsRead(h, f, f.nNew)
    {
      hide Table, NewsRead, SlotFor;
      NothingRead(h, f);
      for n := 0 to f.nNew
        invariant Abs().(nTried := 0, idCount := n) == NewsRead(h, f, n)
      {
        NextNew(h, f, n);
        var info := FromRecord(f.news[n]);
        mapAddr := mapAddr[info.service.ip := n];
        info := info.(nRandomPos := |vRandom|);
        vRandom := vRandom + [n];
        if Rebuilds(f) {
          var taken := TakeHome(info, n);
          if taken {
            info := info.(nRefCount := info.nRefCount + 1);
          }
        }
        mapInfo := mapInfo[n := info];
      }
    }

    method LoadTried(f: File) returns (nLost: int)
      requires Shape() && Complete(f) && Abs().(nTried := 0) == TriedsRead(h, f, 0)
      modifies this`mapInfo, this`mapAddr, this`vRandom, this`nIdCount, vvTried
      ensures Abs().(nTried := f.nTried - nLost) == TriedsRead(h, f, f.nTried)
    {
      hide Table, TriedsRead;
      nLost := 0;
      for n := 0 to f.nTried
        invariant Abs().(nTried := n - nLost) == TriedsRead(h, f, n)
      {
        NextTried(h, f, n);
        var info := FromRecord(f.trieds[n]);
        var b := h.TriedBucket(info.service);
        var i := h.Position(false, b, info.service);
        TableAt(vvTried, b, i);
        if vvTried[b, i] == -1 {
          info := info.(nRandomPos := |vRandom|, fInTried := true);
          vRandom := vRandom + [nIdCount];
          mapInfo := mapInfo[nIdCount := info];
          mapAddr := mapAddr[info.service.ip := nIdCount];
          Fill(vvTried, b, i, nIdCount);
          nIdCount := nIdCount + 1;
        } else {
          nLost := nLost + 1;
        }
      }
    }

    /** The entries of one bucket of the new table. */
    method LoadBucket(f: File, bucket: nat)
      requires Shape() && Complete(f) && bucket < f.nUBuckets
      requires forall k :: 0 <= k < f.nNew ==> k in mapInfo
      modifies this`mapInfo, vvNew
      ensures Abs() == PlacesRead(h, f, old(Abs()), bucket, |f.buckets[bucket]|)
      ensures forall k :: 0 <= k < f.nNew ==> k in mapInfo
    {
      hide Table;
      for n := 0 to |f.buckets[bucket]|
        invariant Abs() == PlacesRead(h, f, old(Abs()), bucket, n)
        invariant forall k :: 0 <= k < f.nNew ==> k in mapInfo
      {
        var nIndex := f.buckets[bucket][n];
        if 0 <= nIndex < f.nNew && !Rebuilds(f) {
          var info := mapInfo[nIndex];
          var pos := h.Position(true, bucket, info.service);
          TableAt(vvNew, bucket, pos);
          if vvNew[bucket, pos] == -1 && info.nRefCount < NEW_BUCKETS_PER_ADDRESS {
            mapInfo := mapInfo[nIndex := info.(nRefCount := info.nRefCount + 1)];
            Fill(vvNew, bucket, pos, nIndex);
          }
        }
      }
    }

    /** Deletes exactly the addresses without references. */
    method Prune(ghost limbo: set<Id>) returns (nLostUnk: int)
      requires Shape() && Ok(h, Abs(), limbo, |limbo|)
      modifies this`mapInfo, this`vRandom, this`mapAddr, this`nNew
      ensures Sound() && nLostUnk == |limbo| && mapInfo.Keys == old(mapInfo.Keys) - limbo
      ensures forall id :: id in mapInfo ==> Moved(old(mapInfo)[id], mapInfo[id])
      ensures limbo == {} ==> Abs() == old(Abs())
    {
      hide Ok, Table, AddrIndex.Delete, KeepsOthers, Moved;
      NoneMoved(mapInfo);
      nLostUnk := 0;
      var todo := mapInfo.Keys;
      ghost var left := limbo;
      LimboKnown(h, Abs(), limbo, |limbo|);
      while todo != {}
        invariant todo <= mapInfo.Keys && left == limbo * todo && nLostUnk == |limbo| - |left|
        invariant Ok(h, Abs(), left, |left|) && mapInfo.Keys == old(mapInfo.Keys) - (limbo - left)
        invariant forall id :: id in mapInfo ==> Moved(old(mapInfo)[id], mapInfo[id])
        invariant limbo == {} ==> Abs() == old(Abs())
        decreases todo
      {
        NonEmpty(todo);
        var n :| n in todo;
        InLimbo(h, Abs(), left, |left|, n);
        todo := todo - {n};
        if !mapInfo[n].fInTried && mapInfo[n].nRefCount == 0 {
          DeleteKeeps(h, Abs(), left, |left|, n);
          DeletedKeys(Abs(), n);
          DeleteOthers(Abs(), n);
          MovedOn(old(mapInfo), mapInfo, AddrIndex.Delete(Abs(), n).infos, n);
          Delete(n);
          nLostUnk := nLostUnk + 1;
          left := left - {n};
        }
      }
    }

    /**
     Reads a manager from a file of any version: what has lost its place is gone, and everything
     else is as the file says. If a manager was saved to the file, it comes back.
     */
    constructor Load(f: File)
      requires Accepted(f) && Distinguished(f)
      ensures h == f.key && Sound() && (Dated(f) ==> Valid()) && fresh(vvTried) && fresh(vvNew)
      ensures Tries(h, f, Table(vvTried), f.nTried) && Homes(h, f, Table(vvNew), f.nNew)
      ensures forall id :: id in mapInfo ==> Recorded(f, mapInfo[id])
      ensures forall s, ns, ts :: Storing(f, s, ns, ts) ==>
                Isomorphic(s, Abs(), ns + ts, Positions(ns + ts)) && (Timed(s.infos) ==> Valid())
    {
      hide Ok, Table, Isomorphic, Positions, Timed, Distinguished, Sourced, Tries, Homes, Storing, Recorded, Moved,
           NewsRead, TriedsRead, BucketsRead, PlacesRead, Dated;
      h := f.key;
      mapInfo, mapAddr, vRandom, nLastGood := map[], map[], [], 1;
      vvTried := new int[TRIED_BUCKET_COUNT, BUCKET_SIZE]((_, _) => -1);
      vvNew := new int[NEW_BUCKET_COUNT, BUCKET_SIZE]((_, _) => -1);
      nNew, nTried, nIdCount := f.nNew, f.nTried, 0;
      new;
      EmptyTable(vvTried);
      EmptyTable(vvNew);
      NothingRead(h, f);
      LoadNew(f);
      nIdCount := nNew;
      var nLost := LoadTried(f);
      nTried := nTried - nLost;
      TriedsKnown(h, f, f.nTried);
      var bucket := 0;
      while bucket < f.nUBuckets
        invariant 0 <= bucket && (bucket <= f.nUBuckets || bucket == 0) && Shape() && h == f.key
        invariant Abs() == BucketsRead(h, f, bucket) && forall k :: 0 <= k < f.nNew ==> k in mapInfo
        invariant fresh(vvTried) && fresh(vvNew)
      {
        LoadBucket(f, bucket);
        NextBucket(h, f, bucket);
        bucket := bucket + 1;
      }
      ghost var limbo := BucketsOk(h, f, bucket);
      ghost var read := Abs();
      var _ := Prune(limbo);
      ReadIn(h, f, read, limbo, mapInfo);
      if Dated(f) {
        RecordedTimes(f, mapInfo);
      }
      forall s, ns, ts | Storing(f, s, ns, ts)
        ensures Isomorphic(s, Abs(), ns + ts, Positions(ns + ts)) && (Timed(s.infos) ==> Valid())
      {
        SavedComesBack(h, f, limbo, s, ns, ts);
      }
    }
  }

  /** A file is refused if its key has another size, it claims too many addresses, or ends too early. */
  method Unserialize(f: File) returns (r: Option<AddressManager>)
    requires f.nNew >= 0 && f.nTried >= 0 && (Complete(f) ==> Distinguished(f))
    ensures r.Some? <==> Accepted(f)
    ensures r.Some? ==> && fresh(r.value) && r.value.h == f.key && r.value.Sound() && (Dated(f) ==> r.value.Valid())
                        && forall id :: id in r.value.mapInfo ==> Recorded(f, r.value.mapInfo[id])
  {
    if f.keySize != 32 {
      return None;
    }
    if f.nNew > NEW_BUCKET_COUNT * BUCKET_SIZE || f.nTried > TRIED_BUCKET_COUNT * BUCKET_SIZE || !Complete(f) {
      return None;
    }
    var m := new AddressManager.Load(f);
    return Some(m);
  }

  /** After how many steps a scan that starts at nRnd reaches a bucket. */
  function Turn(b: nat, nRnd: nat): nat { (b - nRnd) % NEW_BUCKET_COUNT }

  lemma TurnIsUnique(b: nat, nRnd: nat, n: nat)
    requires b < NEW_BUCKET_COUNT && n < NEW_BUCKET_COUNT && Turn(b, nRnd) == n
    ensures (n + nRnd) % NEW_BUCKET_COUNT == b
  {
  }

  /** Saving a manager and reading it back gives the same manager, up to the ids. */
  method Restart(m: AddressManager) returns (r: AddressManager, ghost ids: seq<Id>)
    requires m.Sound()
    ensures fresh(r) && r.h == m.h && r.Sound() && (m.Valid() ==> r.Valid())
    ensures Isomorphic(m.Abs(), r.Abs(), ids, Positions(ids))
  {
    hide Ok, Table, Saved, Isomorphic, Storing, Tries, Homes, Recorded, Positions;
    ghost var ns, ts;
    var f;
    f, ns, ts := m.Save();
    TableWithin(m.vvNew);
    TableWithin(m.vvTried);
    SavedIsAccepted(f, m.Abs(), ns, ts);
    r := new AddressManager.Load(f);
    ids := ns + ts;
  }

  /** What can happen to an address manager, with the random numbers drawn. */
  datatype Event =
    | Added(a: Announcement)
    | Reached(addr: Service, nTime: int, nRnd: nat)
    | Attempted(addr: Service, fCountFailure: bool, nTime: int)
    | WasConnected(addr: Service, nTime: int)
    | Offers(addr: Service, nServices: set<nat>)
    | Asked(nNow: int)
  {
    /** The clock was after time zero. */
    predicate Timely() { (Reached? ==> nTime > 0) && (Attempted? ==> nTime >= 0) }
  }

  /** However a manager is used from its construction on, its check finds nothing wrong, if no clock was. */
  method Run(h: Hashes, events: seq<Event>) returns (manager: AddressManager, code: int)
    ensures manager.Sound() && (code == 0 <==> Timed(manager.mapInfo) && !h.keyIsNull)
    ensures (forall e :: e in events ==> e.Timely()) ==> code == if h.keyIsNull then -16 else 0
  {
    hide Ok, Table, Checked, Timed;
    manager := new AddressManager(h);
    for k := 0 to |events|
      invariant manager.h == h && manager.Sound() && fresh(manager) && fresh(manager.vvTried) && fresh(manager.vvNew)
      invariant (forall e :: e in events ==> e.Timely()) ==> manager.Valid()
    {
      assert events[k] in events;
      match events[k] {
        case Added(a) =>
          var _ := manager.Add(a);
        case Reached(addr, nTime, nRnd) =>
          manager.Good(addr, nTime, nRnd);
        case Attempted(addr, fCountFailure, nTime) =>
          manager.Attempt(addr, fCountFailure, nTime);
        case WasConnected(addr, nTime) =>
          manager.Connected(addr, nTime);
        case Offers(addr, nServices) =>
          manager.SetServices(addr, nServices);
        case Asked(nNow) =>
          var _ := manager.GetAddr(nNow);
      }
    }
    code := manager.Check();
  }
}
