/** The consistency check of the address manager (Check_ in src/addrman.cpp), as a condition. */
module AddrCheck {
  import opened AddrIndex
  import opened Sequences

  /** Looking up an address that is not there yields id 0. */
  function IdAt(addrs: map<NetAddr, Id>, ip: NetAddr): Id { if ip in addrs then addrs[ip] else 0 }

  predicate InfoChecked(s: State, id: Id)
    requires id in s.infos
  {
    var info := s.infos[id];
    && (if info.fInTried then info.nLastSuccess != 0 && info.nRefCount == 0
        else 1 <= info.nRefCount <= NEW_BUCKETS_PER_ADDRESS)
    && IdAt(s.addrs, info.service.ip) == id
    && 0 <= info.nRandomPos < |s.order| && s.order[info.nRandomPos] == id
    && info.nLastTry >= 0 && info.nLastSuccess >= 0
  }

  predicate TriedChecked(h: Hashes, s: State, slot: Slot)
    requires slot in s.tried
  {
    s.tried[slot] in TriedIds(s.infos) && h.TriedSlot(s.infos[s.tried[slot]].service) == slot
  }

  predicate NewChecked(h: Hashes, s: State, slot: Slot)
    requires slot in s.news
  {
    s.news[slot] in NewIds(s.infos, {}) && h.NewSlot(s.infos[s.news[slot]].service, slot.0) == slot
  }

  predicate InfosChecked(s: State) {
    forall id :: id in s.infos ==> InfoChecked(s, id)
  }

  ghost predicate TriedTableChecked(h: Hashes, s: State) {
    && (forall slot :: slot in s.tried ==> TriedChecked(h, s, slot))
    && (forall id :: id in TriedIds(s.infos) ==> InPlace(h, s, id))
  }

  ghost predicate InPlace(h: Hashes, s: State, id: Id)
    requires id in s.infos
  {
    var slot := h.TriedSlot(s.infos[id].service);
    slot in s.tried && s.tried[slot] == id
  }

  ghost predicate NewTableChecked(h: Hashes, s: State) {
    && (forall slot :: slot in s.news ==> NewChecked(h, s, slot))
    && (forall id :: id in NewIds(s.infos, {}) ==> s.infos[id].nRefCount == |SlotsOf(s.news, id)|)
  }

  /** What Check_ looks at. */
  ghost predicate Checked(h: Hashes, s: State) {
    && |s.order| == s.nTried + s.nNew
    && InfosChecked(s)
    && |TriedIds(s.infos)| == s.nTried && |NewIds(s.infos, {})| == s.nNew
    && TriedTableChecked(h, s) && NewTableChecked(h, s)
  }

  /** What it does not look at: stale entries of mapAddr, and ids that were never given out. */
  ghost predicate Unchecked(s: State) {
    && (forall ip :: ip in s.addrs ==> s.addrs[ip] in s.infos && s.infos[s.addrs[ip]].service.ip == ip)
    && (forall id :: id in s.infos ==> 0 <= id < s.idCount && s.infos[id].service.ip in s.addrs)
    && (forall slot :: slot in s.news ==> slot.0 < NEW_BUCKET_COUNT)
  }

  lemma PartsCount(infos: map<Id, AddrInfo>)
    ensures |TriedIds(infos)| + |NewIds(infos, {})| == |infos|
  {
    assert TriedIds(infos) !! NewIds(infos, {});
    assert TriedIds(infos) + NewIds(infos, {}) == infos.Keys;
  }

  lemma NonEmpty(ids: set<Id>)
    requires ids != {}
    ensures exists id :: id in ids
  {
    assert (forall id :: id !in ids) ==> ids == {};
  }

  lemma SubsetCount(a: set<Id>, b: set<Id>)
    requires a <= b && |b| <= |a|
    ensures a == b
  {
    assert b == a + (b - a);
    assert |b| == |a| + |b - a|;
    assert b - a == {};
  }

  /** As many places as addresses, and each address in its own place: every place is taken. */
  lemma EveryPlaceTaken(order: seq<Id>, infos: map<Id, AddrInfo>)
    requires forall id :: id in infos ==> 0 <= infos[id].nRandomPos < |order| && order[infos[id].nRandomPos] == id
    requires |order| == |infos|
    ensures forall k :: 0 <= k < |order| ==> order[k] in infos && infos[order[k]].nRandomPos == k
  {
    DistinctCount(order);
    assert infos.Keys <= Elements(order) by {
      forall id | id in infos.Keys ensures id in Elements(order) { assert order[infos[id].nRandomPos] == id; }
    }
    SubsetCount(infos.Keys, Elements(order));
    forall k | 0 <= k < |order| ensures order[k] in infos && infos[order[k]].nRandomPos == k {
      assert order[k] in Elements(order);
      assert order[k] in infos.Keys;
      var p := infos[order[k]].nRandomPos;
      assert Distinct(order) && order[p] == order[k];
    }
  }

  lemma PlacesCount(h: Hashes, s: State)
    requires Ok(h, s, {}, 0)
    ensures |s.order| == |s.infos|
  {
    OrderLists(h, s);
    DistinctCount(s.order);
    assert Elements(s.order) == s.infos.Keys by {
      forall id ensures id in Elements(s.order) <==> id in s.infos.Keys { }
    }
  }

  /** Structure and times are what Check_ finds in order, together with what it leaves unchecked. */
  lemma CheckedIsOk(h: Hashes, s: State)
    ensures Ok(h, s, {}, 0) && Timed(s.infos) <==> Checked(h, s) && Unchecked(s)
    ensures Ok(h, s, {}, 0) ==> (Checked(h, s) <==> Timed(s.infos))
  {
    if Ok(h, s, {}, 0) && Timed(s.infos) {
      OkIsChecked(h, s);
    }
    if Checked(h, s) {
      CheckedTimed(h, s);
    }
    if Checked(h, s) && Unchecked(s) {
      CheckedIndexed(h, s);
      CheckedTabled(h, s);
    }
  }

  lemma CheckedTimed(h: Hashes, s: State)
    requires Checked(h, s)
    ensures Timed(s.infos)
  {
    forall id | id in s.infos ensures TimesOk(s.infos[id]) { assert InfoChecked(s, id); }
  }

  lemma OkIsChecked(h: Hashes, s: State)
    requires Ok(h, s, {}, 0) && Timed(s.infos)
    ensures Checked(h, s) && Unchecked(s)
  {
    PartsCount(s.infos);
    PlacesCount(h, s);
    forall id | id in s.infos ensures InfoChecked(s, id) {
      assert IdOk(s, id) && RoleOk(h, s, {}, id) && TimesOk(s.infos[id]);
    }
    forall slot | slot in s.tried ensures TriedChecked(h, s, slot) { assert TriedSlotOk(h, s, slot); }
    forall slot | slot in s.news ensures NewChecked(h, s, slot) && slot.0 < NEW_BUCKET_COUNT {
      ReferredTo(h, s, {}, 0, slot);
    }
    forall id | id in TriedIds(s.infos) ensures InPlace(h, s, id) { assert RoleOk(h, s, {}, id); }
    forall id | id in NewIds(s.infos, {}) ensures s.infos[id].nRefCount == |SlotsOf(s.news, id)| {
      assert RoleOk(h, s, {}, id);
    }
    forall id | id in s.infos ensures 0 <= id < s.idCount && s.infos[id].service.ip in s.addrs { assert IdOk(s, id); }
  }

  lemma CheckedIndexed(h: Hashes, s: State)
    requires Checked(h, s) && Unchecked(s)
    ensures Indexed(s)
  {
    PartsCount(s.infos);
    forall id | id in s.infos ensures IdOk(s, id) { assert InfoChecked(s, id); }
    forall id | id in s.infos
      ensures 0 <= s.infos[id].nRandomPos < |s.order| && s.order[s.infos[id].nRandomPos] == id
    {
      assert IdOk(s, id);
    }
    EveryPlaceTaken(s.order, s.infos);
  }

  lemma CheckedTabled(h: Hashes, s: State)
    requires Checked(h, s) && Unchecked(s)
    ensures Tabled(h, s, {})
  {
    forall slot | slot in s.news ensures NewSlotOk(h, s, slot) { assert NewChecked(h, s, slot); }
    forall slot | slot in s.tried ensures TriedSlotOk(h, s, slot) { assert TriedChecked(h, s, slot); }
    forall id | id in s.infos ensures RoleOk(h, s, {}, id) {
      assert InfoChecked(s, id);
      if s.infos[id].fInTried {
        assert InPlace(h, s, id);
        assert SlotsOf(s.news, id) == {} by {
          forall slot | slot in s.news ensures s.news[slot] != id { assert NewChecked(h, s, slot); }
        }
      } else {
        assert id in NewIds(s.infos, {});
      }
    }
  }

  // The scans over the tables

  predicate Before(slot: Slot, n: nat, i: nat) { slot.0 < n || (slot.0 == n && slot.1 < i) }

  ghost predicate Within(table: map<Slot, Id>, rows: nat) {
    forall slot :: slot in table ==> slot.0 < rows && slot.1 < BUCKET_SIZE
  }

  /** The tried addresses that the scan has not met yet. */
  ghost predicate TriedSoFar(h: Hashes, s: State, n: nat, i: nat, setTried: set<Id>) {
    && (forall slot :: slot in s.tried && Before(slot, n, i) ==> TriedChecked(h, s, slot))
    && (forall id :: id in setTried ==> id in TriedIds(s.infos))
    && (forall id :: id in TriedIds(s.infos) ==>
          (id in setTried <==> !(InPlace(h, s, id) && Before(h.TriedSlot(s.infos[id].service), n, i))))
  }

  lemma TriedStep(h: Hashes, s: State, n: nat, i: nat, setTried: set<Id>)
    requires TriedSoFar(h, s, n, i, setTried)
    ensures if (n, i) !in s.tried then TriedSoFar(h, s, n, i + 1, setTried)
            else if s.tried[(n, i)] !in setTried then !TriedChecked(h, s, (n, i))
            else s.tried[(n, i)] in s.infos &&
                   (TriedChecked(h, s, (n, i)) ==> TriedSoFar(h, s, n, i + 1, setTried - {s.tried[(n, i)]}))
  {
    forall slot: Slot ensures Before(slot, n, i + 1) <==> Before(slot, n, i) || slot == (n, i) { }
    if (n, i) in s.tried {
      var id := s.tried[(n, i)];
      if TriedChecked(h, s, (n, i)) {
        assert InPlace(h, s, id) && !Before((n, i), n, i);
        assert id in TriedIds(s.infos);
        forall x | x in TriedIds(s.infos) && x != id
          ensures InPlace(h, s, x) ==> h.TriedSlot(s.infos[x].service) != (n, i)
        {
        }
      } else if id in setTried {
        assert id in TriedIds(s.infos);
      }
    }
  }

  lemma TriedStart(h: Hashes, s: State, setTried: set<Id>)
    requires setTried == TriedIds(s.infos)
    ensures TriedSoFar(h, s, 0, 0, setTried)
  {
  }

  lemma TriedFault(h: Hashes, s: State, slot: Slot)
    requires slot in s.tried
    ensures TriedTableChecked(h, s) ==> TriedChecked(h, s, slot)
  {
  }

  lemma TriedMember(h: Hashes, s: State, n: nat, i: nat, setTried: set<Id>, id: Id)
    requires TriedSoFar(h, s, n, i, setTried) && id in setTried
    ensures id in TriedIds(s.infos)
  {
  }

  lemma TriedRow(h: Hashes, s: State, n: nat, setTried: set<Id>)
    requires TriedSoFar(h, s, n, BUCKET_SIZE, setTried) && Within(s.tried, TRIED_BUCKET_COUNT)
    ensures TriedSoFar(h, s, n + 1, 0, setTried)
  {
    forall slot | slot in s.tried ensures Before(slot, n + 1, 0) <==> Before(slot, n, BUCKET_SIZE) { }
    forall id | id in TriedIds(s.infos)
      ensures Before(h.TriedSlot(s.infos[id].service), n + 1, 0) <==>
                Before(h.TriedSlot(s.infos[id].service), n, BUCKET_SIZE)
    {
    }
  }

  lemma TriedEnd(h: Hashes, s: State, setTried: set<Id>)
    requires TriedSoFar(h, s, TRIED_BUCKET_COUNT, 0, setTried) && Within(s.tried, TRIED_BUCKET_COUNT)
    ensures setTried == {} <==> TriedTableChecked(h, s)
  {
    forall id | id in TriedIds(s.infos) ensures id in setTried <==> !InPlace(h, s, id) { }
    forall slot | slot in s.tried ensures TriedChecked(h, s, slot) { assert Before(slot, TRIED_BUCKET_COUNT, 0); }
    if TriedTableChecked(h, s) {
      forall id ensures id !in setTried { assert id in setTried ==> id in TriedIds(s.infos); }
      assert setTried == {};
    }
  }

  function SeenSlots(news: map<Slot, Id>, id: Id, n: nat, i: nat): set<Slot> {
    set slot | slot in news && news[slot] == id && Before(slot, n, i)
  }

  /** The references that the scan still has to meet, where there are any. */
  ghost predicate Owed(s: State, n: nat, i: nat, mapNew: map<Id, int>, id: Id)
    requires id in s.infos
  {
    var owed := s.infos[id].nRefCount - |SeenSlots(s.news, id, n, i)|;
    owed >= 0 && (id in mapNew <==> owed > 0) && (id in mapNew ==> mapNew[id] == owed)
  }

  ghost predicate NewSoFar(h: Hashes, s: State, n: nat, i: nat, mapNew: map<Id, int>) {
    && (forall slot :: slot in s.news && Before(slot, n, i) ==> NewChecked(h, s, slot))
    && (forall id :: id in mapNew ==> id in NewIds(s.infos, {}))
    && (forall id :: id in NewIds(s.infos, {}) ==> Owed(s, n, i, mapNew, id))
  }

  /** One reference less is owed; the last one takes the address off the list. */
  function Paid(mapNew: map<Id, int>, id: Id): map<Id, int>
    requires id in mapNew
  {
    if mapNew[id] == 1 then mapNew - {id} else mapNew[id := mapNew[id] - 1]
  }

  lemma SeenStep(news: map<Slot, Id>, id: Id, n: nat, i: nat)
    ensures |SeenSlots(news, id, n, i + 1)| ==
            |SeenSlots(news, id, n, i)| + (if (n, i) in news && news[(n, i)] == id then 1 else 0)
  {
    forall slot: Slot ensures Before(slot, n, i + 1) <==> Before(slot, n, i) || slot == (n, i) { }
    if (n, i) in news && news[(n, i)] == id {
      assert SeenSlots(news, id, n, i + 1) == SeenSlots(news, id, n, i) + {(n, i)};
    } else {
      assert SeenSlots(news, id, n, i + 1) == SeenSlots(news, id, n, i);
    }
  }

  lemma NewStep(h: Hashes, s: State, n: nat, i: nat, mapNew: map<Id, int>)
    requires NewSoFar(h, s, n, i, mapNew)
    ensures if (n, i) !in s.news then NewSoFar(h, s, n, i + 1, mapNew)
            else if s.news[(n, i)] !in mapNew then !NewTableChecked(h, s)
            else s.news[(n, i)] in s.infos &&
                   (NewChecked(h, s, (n, i)) ==> NewSoFar(h, s, n, i + 1, Paid(mapNew, s.news[(n, i)])))
  {
    forall slot: Slot ensures Before(slot, n, i + 1) <==> Before(slot, n, i) || slot == (n, i) { }
    forall id ensures |SeenSlots(s.news, id, n, i + 1)| ==
                      |SeenSlots(s.news, id, n, i)| + (if (n, i) in s.news && s.news[(n, i)] == id then 1 else 0)
    {
      SeenStep(s.news, id, n, i);
    }
    if (n, i) in s.news && s.news[(n, i)] !in mapNew {
      var id := s.news[(n, i)];
      SeenAtMost(s.news, id, n, i + 1);
      if id in NewIds(s.infos, {}) {
        assert Owed(s, n, i, mapNew, id);
      } else {
        assert !NewChecked(h, s, (n, i));
      }
    }
  }

  lemma SeenAtMost(news: map<Slot, Id>, id: Id, n: nat, i: nat)
    ensures |SeenSlots(news, id, n, i)| <= |SlotsOf(news, id)|
  {
    assert SlotsOf(news, id) == SeenSlots(news, id, n, i) + (SlotsOf(news, id) - SeenSlots(news, id, n, i));
  }

  lemma NewStart(h: Hashes, s: State, mapNew: map<Id, int>)
    requires InfosChecked(s)
    requires mapNew == map id | id in NewIds(s.infos, {}) :: s.infos[id].nRefCount
    ensures NewSoFar(h, s, 0, 0, mapNew)
  {
    forall id | id in NewIds(s.infos, {}) ensures Owed(s, 0, 0, mapNew, id) {
      assert SeenSlots(s.news, id, 0, 0) == {} && InfoChecked(s, id);
    }
  }

  lemma NewFault(h: Hashes, s: State, slot: Slot)
    requires slot in s.news
    ensures NewTableChecked(h, s) ==> NewChecked(h, s, slot)
  {
  }

  lemma NewMember(h: Hashes, s: State, n: nat, i: nat, mapNew: map<Id, int>, id: Id)
    requires NewSoFar(h, s, n, i, mapNew) && id in mapNew
    ensures id in NewIds(s.infos, {})
  {
  }

  lemma NewRow(h: Hashes, s: State, n: nat, mapNew: map<Id, int>)
    requires NewSoFar(h, s, n, BUCKET_SIZE, mapNew) && Within(s.news, NEW_BUCKET_COUNT)
    ensures NewSoFar(h, s, n + 1, 0, mapNew)
  {
    forall slot | slot in s.news ensures Before(slot, n + 1, 0) <==> Before(slot, n, BUCKET_SIZE) { }
    forall id ensures SeenSlots(s.news, id, n + 1, 0) == SeenSlots(s.news, id, n, BUCKET_SIZE) { }
    forall id | id in NewIds(s.infos, {}) ensures Owed(s, n + 1, 0, mapNew, id) {
      assert Owed(s, n, BUCKET_SIZE, mapNew, id);
    }
  }

  lemma NewEnd(h: Hashes, s: State, mapNew: map<Id, int>)
    requires NewSoFar(h, s, NEW_BUCKET_COUNT, 0, mapNew) && Within(s.news, NEW_BUCKET_COUNT)
    ensures mapNew == map[] <==> NewTableChecked(h, s)
  {
    forall id | id in NewIds(s.infos, {})
      ensures id in mapNew <==> s.infos[id].nRefCount != |SlotsOf(s.news, id)|
    {
      assert SeenSlots(s.news, id, NEW_BUCKET_COUNT, 0) == SlotsOf(s.news, id);
      assert Owed(s, NEW_BUCKET_COUNT, 0, mapNew, id);
    }
    forall slot | slot in s.news ensures NewChecked(h, s, slot) { assert Before(slot, NEW_BUCKET_COUNT, 0); }
    if NewTableChecked(h, s) {
      forall id ensures id !in mapNew { assert id in mapNew ==> id in NewIds(s.infos, {}); }
      assert mapNew == map[];
    }
  }
}
