/**
 Reading an address manager from a file of any version (Unserialize in src/addrman.h), as a
 function on states: what holds after any file, and what comes back of a manager that was saved.
 */
module AddrRead {
  import opened AddrIndex
  import opened AddrCheck
  import opened AddrStore
  import opened Sequences

  /** The places in the file cannot be used. */
  predicate Rebuilds(f: File) { f.version != 1 || f.nUBuckets != NEW_BUCKET_COUNT }

  function ReadNew(h: Hashes, f: File, s: State, n: nat): State
    requires n < |f.news|
  {
    var info := FromRecord(f.news[n]);
    var r := Create(s, info);
    if Rebuilds(f) && HomeSlot(h, info) !in s.news then Occupy(r, HomeSlot(h, info), s.idCount) else r
  }

  function NewsRead(h: Hashes, f: File, n: nat): State
    requires n <= |f.news|
  {
    if n == 0 then State(map[], map[], [], map[], map[], 0, f.nNew, 0) else ReadNew(h, f, NewsRead(h, f, n - 1), n - 1)
  }

  /** An address whose place is taken is lost. */
  function ReadTried(h: Hashes, f: File, s: State, n: nat): State
    requires n < |f.trieds|
  {
    var info := FromRecord(f.trieds[n]);
    if h.TriedSlot(info.service) in s.tried then s else EnterTried(h, Create(s, info), s.idCount)
  }

  function TriedsRead(h: Hashes, f: File, n: nat): State
    requires n <= |f.trieds| && 0 <= f.nNew <= |f.news|
  {
    if n == 0 then NewsRead(h, f, f.nNew) else ReadTried(h, f, TriedsRead(h, f, n - 1), n - 1)
  }

  /** An address gets back a place in a bucket that is free. */
  function ReadPlace(h: Hashes, f: File, s: State, b: nat, k: int): State {
    if 0 <= k < f.nNew && k in s.infos && !Rebuilds(f) && h.NewSlot(s.infos[k].service, b) !in s.news &&
       s.infos[k].nRefCount < NEW_BUCKETS_PER_ADDRESS
    then Occupy(s, h.NewSlot(s.infos[k].service, b), k)
    else s
  }

  function PlacesRead(h: Hashes, f: File, s: State, b: nat, n: nat): State
    requires b < |f.buckets| && n <= |f.buckets[b]|
  {
    if n == 0 then s else ReadPlace(h, f, PlacesRead(h, f, s, b, n - 1), b, f.buckets[b][n - 1])
  }

  function BucketsRead(h: Hashes, f: File, b: nat): State
    requires b <= |f.buckets| && 0 <= f.nNew <= |f.news| && 0 <= f.nTried <= |f.trieds|
  {
    if b == 0 then TriedsRead(h, f, f.nTried)
    else PlacesRead(h, f, BucketsRead(h, f, b - 1), b - 1, |f.buckets[b - 1]|)
  }

  predicate Complete(f: File) {
    0 <= f.nNew <= |f.news| && 0 <= f.nTried <= |f.trieds| && f.nUBuckets <= |f.buckets|
  }

  function ReadAll(h: Hashes, f: File): State
    requires Complete(f)
  {
    BucketsRead(h, f, if f.nUBuckets < 0 then 0 else f.nUBuckets)
  }

  // Any file

  /** No address occurs twice. */
  ghost predicate Distinguished(f: File)
    requires Complete(f)
  {
    && (forall j, k :: 0 <= j < k < f.nNew ==> f.news[j].service.ip != f.news[k].service.ip)
    && (forall j, k :: 0 <= j < k < f.nTried ==> f.trieds[j].service.ip != f.trieds[k].service.ip)
    && (forall j, k :: 0 <= j < f.nNew && 0 <= k < f.nTried ==> f.news[j].service.ip != f.trieds[k].service.ip)
  }

  /** What a record says of an address, apart from its places. */
  ghost predicate IsFrom(info: AddrInfo, r: Record) {
    info == FromRecord(r).(nRefCount := info.nRefCount, fInTried := info.fInTried, nRandomPos := info.nRandomPos)
  }

  ghost predicate Sourced(infos: map<Id, AddrInfo>, f: File, n: nat, m: nat)
    requires n <= |f.news| && m <= |f.trieds|
  {
    && (forall k :: 0 <= k < n ==> k in infos && !infos[k].fInTried && IsFrom(infos[k], f.news[k]))
    && (forall id :: id in infos && !(0 <= id < n) ==>
          infos[id].fInTried && exists k :: 0 <= k < m && IsFrom(infos[id], f.trieds[k]))
  }

  ghost predicate Homes(h: Hashes, f: File, news: map<Slot, Id>, n: nat)
    requires n <= |f.news|
  {
    Rebuilds(f) ==> forall k :: 0 <= k < n ==> HomeSlot(h, FromRecord(f.news[k])) in news
  }

  ghost predicate Tries(h: Hashes, f: File, tried: map<Slot, Id>, m: nat)
    requires m <= |f.trieds|
  {
    forall k :: 0 <= k < m ==> h.TriedSlot(f.trieds[k].service) in tried
  }

  /** `n` new and `m` tried addresses have been read; those in limbo have no place. */
  ghost predicate Reading(h: Hashes, f: File, s: State, limbo: set<Id>, n: nat, m: nat)
    requires n <= |f.news| && m <= |f.trieds|
  {
    && Ok(h, s, limbo, |limbo| + f.nNew - n) && n <= s.idCount
    && Sourced(s.infos, f, n, m) && Homes(h, f, s.news, n) && Tries(h, f, s.tried, m)
  }

  lemma ReadingStart(h: Hashes, f: File)
    ensures Reading(h, f, NewsRead(h, f, 0), {}, 0, 0)
  {
    var s := NewsRead(h, f, 0);
    assert TriedIds(s.infos) == {} && NewIds(s.infos, {}) == {};
  }

  lemma KnownIsRead(h: Hashes, f: File, s: State, limbo: set<Id>, n: nat, m: nat, ip: NetAddr)
    requires n <= |f.news| && m <= |f.trieds| && Reading(h, f, s, limbo, n, m)
    ensures ip in s.addrs ==> || (exists k :: 0 <= k < n && f.news[k].service.ip == ip)
                              || (exists k :: 0 <= k < m && f.trieds[k].service.ip == ip)
  {
    if ip in s.addrs {
      var id := s.addrs[ip];
      assert s.infos[id].service.ip == ip;
      if 0 <= id < n {
        assert IsFrom(s.infos[id], f.news[id]);
      } else {
        var k :| 0 <= k < m && IsFrom(s.infos[id], f.trieds[k]);
      }
    }
  }

  lemma ReadingNew(h: Hashes, f: File, s: State, limbo: set<Id>, n: nat) returns (limbo': set<Id>)
    requires Complete(f) && Distinguished(f) && n < f.nNew && Reading(h, f, s, limbo, n, 0) && s.idCount == n
    ensures Reading(h, f, ReadNew(h, f, s, n), limbo', n + 1, 0) && ReadNew(h, f, s, n).idCount == n + 1
  {
    hide Ok, Sourced, Homes;
    var info := FromRecord(f.news[n]);
    KnownIsRead(h, f, s, limbo, n, 0, info.service.ip);
    CreateKeeps(h, s, limbo, |limbo| + f.nNew - n, info);
    LimboKnown(h, s, limbo, |limbo| + f.nNew - n);
    var r, slot := Create(s, info), HomeSlot(h, info);
    limbo' := limbo + {n};
    if Rebuilds(f) && slot !in s.news {
      OccupyKeeps(h, r, limbo', |limbo| + f.nNew - n, slot, n);
      assert limbo' - {n} == limbo;
      limbo' := limbo;
    }
    NextSourced(h, f, s, n);
  }

  lemma NextSourced(h: Hashes, f: File, s: State, n: nat)
    requires n < |f.news| && s.idCount == n && Sourced(s.infos, f, n, 0) && Homes(h, f, s.news, n)
    ensures var r := ReadNew(h, f, s, n); Sourced(r.infos, f, n + 1, 0) && Homes(h, f, r.news, n + 1)
  {
  }

  lemma {:induction false} NewsOk(h: Hashes, f: File, n: nat) returns (limbo: set<Id>)
    requires Complete(f) && Distinguished(f) && n <= f.nNew
    ensures Reading(h, f, NewsRead(h, f, n), limbo, n, 0) && NewsRead(h, f, n).idCount == n
  {
    hide Reading, ReadNew, Distinguished;
    if n == 0 {
      ReadingStart(h, f);
      limbo := {};
    } else {
      limbo := NewsOk(h, f, n - 1);
      limbo := ReadingNew(h, f, NewsRead(h, f, n - 1), limbo, n - 1);
    }
  }

  lemma SourcedMore(infos: map<Id, AddrInfo>, f: File, n: nat, m: nat)
    requires n <= |f.news| && m < |f.trieds| && Sourced(infos, f, n, m)
    ensures Sourced(infos, f, n, m + 1)
  {
    forall id | id in infos && !(0 <= id < n)
      ensures infos[id].fInTried && exists k :: 0 <= k < m + 1 && IsFrom(infos[id], f.trieds[k])
    {
      var k :| 0 <= k < m && IsFrom(infos[id], f.trieds[k]);
      assert 0 <= k < m + 1;
    }
  }

  lemma ReadingTried(h: Hashes, f: File, s: State, limbo: set<Id>, m: nat)
    requires Complete(f) && Distinguished(f) && m < f.nTried && Reading(h, f, s, limbo, f.nNew, m)
    ensures Reading(h, f, ReadTried(h, f, s, m), limbo, f.nNew, m + 1)
  {
    hide Ok, Sourced;
    SourcedMore(s.infos, f, f.nNew, m);
    var info := FromRecord(f.trieds[m]);
    if h.TriedSlot(info.service) !in s.tried {
      KnownIsRead(h, f, s, limbo, f.nNew, m, info.service.ip);
      CreateKeeps(h, s, limbo, |limbo|, info);
      LimboKnown(h, s, limbo, |limbo|);
      EnterTriedKeeps(h, Create(s, info), limbo + {s.idCount}, |limbo|, s.idCount);
      assert limbo + {s.idCount} - {s.idCount} == limbo;
      OneMoreSourced(s.infos, ReadTried(h, f, s, m).infos, f, f.nNew, m, s.idCount);
    }
  }

  lemma OneMoreSourced(a: map<Id, AddrInfo>, b: map<Id, AddrInfo>, f: File, n: nat, m: nat, id: Id)
    requires n <= |f.news| && m < |f.trieds| && Sourced(a, f, n, m + 1) && id >= n && id in b && b == a[id := b[id]]
    requires b[id].fInTried && IsFrom(b[id], f.trieds[m])
    ensures Sourced(b, f, n, m + 1)
  {
    assert 0 <= m < m + 1;
    forall x | x in b && !(0 <= x < n)
      ensures b[x].fInTried && exists k :: 0 <= k < m + 1 && IsFrom(b[x], f.trieds[k])
    {
      if x != id {
        assert a[x].fInTried && exists k :: 0 <= k < m + 1 && IsFrom(a[x], f.trieds[k]);
      }
    }
  }

  lemma {:induction false} TriedsOk(h: Hashes, f: File, m: nat) returns (limbo: set<Id>)
    requires Complete(f) && Distinguished(f) && m <= f.nTried
    ensures Reading(h, f, TriedsRead(h, f, m), limbo, f.nNew, m)
    decreases m
  {
    hide Reading, ReadTried, Distinguished;
    if m == 0 {
      limbo := NewsOk(h, f, f.nNew);
    } else {
      limbo := TriedsOk(h, f, m - 1);
      ReadingTried(h, f, TriedsRead(h, f, m - 1), limbo, m - 1);
    }
  }

  lemma ReadingPlace(h: Hashes, f: File, s: State, limbo: set<Id>, b: nat, k: int) returns (limbo': set<Id>)
    requires Complete(f) && Reading(h, f, s, limbo, f.nNew, f.nTried) && (b < NEW_BUCKET_COUNT || Rebuilds(f))
    ensures Reading(h, f, ReadPlace(h, f, s, b, k), limbo', f.nNew, f.nTried)
  {
    hide Ok, Sourced;
    limbo' := limbo;
    var r := ReadPlace(h, f, s, b, k);
    if r != s {
      SourcedAt(s.infos, f, f.nNew, f.nTried, k);
      OccupyKeeps(h, s, limbo, |limbo|, h.NewSlot(s.infos[k].service, b), k);
      limbo' := limbo - {k};
      SourcedStill(s.infos, r.infos, f, f.nNew, f.nTried, k);
    }
  }

  lemma SourcedAt(infos: map<Id, AddrInfo>, f: File, n: nat, m: nat, k: int)
    requires n <= |f.news| && m <= |f.trieds| && Sourced(infos, f, n, m) && 0 <= k < n
    ensures k in infos && !infos[k].fInTried
  {
  }

  lemma SourcedStill(a: map<Id, AddrInfo>, b: map<Id, AddrInfo>, f: File, n: nat, m: nat, k: int)
    requires n <= |f.news| && m <= |f.trieds| && Sourced(a, f, n, m) && 0 <= k < n && k in a && k in b
    requires b == a[k := b[k]] && b[k] == a[k].(nRefCount := b[k].nRefCount)
    ensures Sourced(b, f, n, m)
  {
    assert IsFrom(a[k], f.news[k]);
    forall id | id in b && !(0 <= id < n)
      ensures b[id].fInTried && exists j :: 0 <= j < m && IsFrom(b[id], f.trieds[j])
    {
      assert id in a && a[id].fInTried && exists j :: 0 <= j < m && IsFrom(a[id], f.trieds[j]);
    }
  }

  lemma {:induction false} PlacesOk(h: Hashes, f: File, s: State, limbo: set<Id>, b: nat, n: nat)
    returns (limbo': set<Id>)
    requires Complete(f) && b < |f.buckets| && n <= |f.buckets[b]| && (b < NEW_BUCKET_COUNT || Rebuilds(f))
    requires Reading(h, f, s, limbo, f.nNew, f.nTried)
    ensures Reading(h, f, PlacesRead(h, f, s, b, n), limbo', f.nNew, f.nTried)
    decreases n
  {
    hide Reading, ReadPlace;
    if n == 0 {
      limbo' := limbo;
    } else {
      limbo' := PlacesOk(h, f, s, limbo, b, n - 1);
      limbo' := ReadingPlace(h, f, PlacesRead(h, f, s, b, n - 1), limbo', b, f.buckets[b][n - 1]);
    }
  }

  /** Whatever the file, the structure is sound but for the addresses without a place, which are counted. */
  lemma {:induction false} BucketsOk(h: Hashes, f: File, b: nat) returns (limbo: set<Id>)
    requires Complete(f) && Distinguished(f) && b <= |f.buckets| && (b <= NEW_BUCKET_COUNT || Rebuilds(f))
    ensures Reading(h, f, BucketsRead(h, f, b), limbo, f.nNew, f.nTried)
    decreases b
  {
    hide Reading, PlacesRead, Distinguished;
    if b == 0 {
      limbo := TriedsOk(h, f, f.nTried);
    } else {
      limbo := BucketsOk(h, f, b - 1);
      limbo := PlacesOk(h, f, BucketsRead(h, f, b - 1), limbo, b - 1, |f.buckets[b - 1]|);
    }
  }

  // A file that was saved

  lemma SavedIsComplete(h: Hashes, s: State, f: File, ns: seq<Id>, ts: seq<Id>)
    requires Ok(h, s, {}, 0) && Saved(f, s, ns, ts)
    ensures Complete(f) && Distinguished(f) && !Rebuilds(f) && f.nNew == |ns| && f.nTried == |ts|
  {
    SavedCounts(h, s, f, ns, ts);
    AllListed(h, s, ns, ts, f);
    hide Ok, Listed;
    var ids := ns + ts;
    forall j, k | 0 <= j < k < |ids| ensures IpAt(s, ids, j) != IpAt(s, ids, k) { OtherIp(h, s, ids, j, k); }
    forall k: nat | k < |ns| ensures f.news[k].service.ip == IpAt(s, ids, k) { NewRecord(h, s, ns, ts, f, k); }
    forall k: nat | k < |ts| ensures f.trieds[k].service.ip == IpAt(s, ids, |ns| + k) {
      TriedRecord(h, s, ns, ts, f, k);
    }
  }

  lemma {:induction false} SavedNews(h: Hashes, s: State, f: File, ns: seq<Id>, ts: seq<Id>, n: nat)
    requires Ok(h, s, {}, 0) && Saved(f, s, ns, ts) && n <= |ns| <= |f.news| && !Rebuilds(f)
    ensures Stage(s, ns + ts, n, NewsRead(h, f, n), 0, 0)
    ensures var r := NewsRead(h, f, n); r.idCount == n && r.nTried == 0 && r.nNew == f.nNew
  {
    hide Ok, Saved, Stage;
    if n == 0 {
      StageStart(h, s, ns, ts, f, NewsRead(h, f, 0));
    } else {
      SavedNews(h, s, f, ns, ts, n - 1);
      var r := NewsRead(h, f, n - 1);
      StageOrder(s, ns + ts, n - 1, r, 0, 0);
      StageNew(h, s, ns, ts, f, n - 1, r, NewsRead(h, f, n));
    }
  }

  lemma EnteredAtOnce(h: Hashes, f: File, s: State, n: nat)
    requires n < |f.trieds| && h.TriedSlot(f.trieds[n].service) !in s.tried && |s.order| == s.idCount
    ensures var id := s.idCount;
            ReadTried(h, f, s, n) ==
              s.(infos := s.infos[id := FromRecord(f.trieds[n]).(nRandomPos := id, fInTried := true)],
                 order := s.order + [id], addrs := s.addrs[f.trieds[n].service.ip := id],
                 tried := s.tried[h.TriedSlot(f.trieds[n].service) := id], idCount := id + 1, nTried := s.nTried + 1)
  {
  }

  lemma SavedTriedStep(h: Hashes, s: State, f: File, ns: seq<Id>, ts: seq<Id>, n: nat, r: State)
    requires Ok(h, s, {}, 0) && Saved(f, s, ns, ts) && n < |ts| && n < |f.trieds|
    requires Stage(s, ns + ts, |ns| + n, r, 0, 0) && r.idCount == |ns| + n
    ensures var q := ReadTried(h, f, r, n);
            && Stage(s, ns + ts, |ns| + n + 1, q, 0, 0)
            && q.idCount == r.idCount + 1 && q.nTried == r.nTried + 1 && q.nNew == r.nNew
  {
    hide Ok, Saved, Stage, ReadTried, Hashes.TriedSlot;
    var k := |ns| + n;
    StageOrder(s, ns + ts, k, r, 0, 0);
    StageNextTried(h, s, ns, ts, f, n, r);
    EnteredAtOnce(h, f, r, n);
    StageSame(s, ns + ts, k + 1, ReadTried(h, f, r, n).(nTried := r.nTried), ReadTried(h, f, r, n), 0, 0);
  }

  lemma {:induction false} SavedTrieds(h: Hashes, s: State, f: File, ns: seq<Id>, ts: seq<Id>, n: nat)
    requires Ok(h, s, {}, 0) && Saved(f, s, ns, ts) && n <= |ts| <= |f.trieds| && 0 <= f.nNew == |ns| <= |f.news|
    requires !Rebuilds(f)
    ensures Stage(s, ns + ts, |ns| + n, TriedsRead(h, f, n), 0, 0)
    ensures var r := TriedsRead(h, f, n); r.idCount == |ns| + n && r.nTried == n && r.nNew == f.nNew
    decreases n
  {
    hide Ok, Saved, Stage, ReadTried, NewsRead;
    if n == 0 {
      SavedNews(h, s, f, ns, ts, |ns|);
    } else {
      SavedTrieds(h, s, f, ns, ts, n - 1);
      SavedTriedStep(h, s, f, ns, ts, n - 1, TriedsRead(h, f, n - 1));
    }
  }

  /** The entries of one bucket. */
  lemma SavedPlaces(h: Hashes, s: State, f: File, ns: seq<Id>, ts: seq<Id>, r: State, b: nat)
    requires Ok(h, s, {}, 0) && Saved(f, s, ns, ts) && Stage(s, ns + ts, |ns + ts|, r, b, 0) && !Rebuilds(f)
    requires b < NEW_BUCKET_COUNT && b < |f.buckets| && |ns| == f.nNew
    requires f.buckets[b] == BucketList(s.news, Positions(ns), b, BUCKET_SIZE)
    requires forall slot :: slot in s.news ==> s.news[slot] in Positions(ns)
    ensures var q := PlacesRead(h, f, r, b, |f.buckets[b]|);
            && Stage(s, ns + ts, |ns + ts|, q, b, BUCKET_SIZE)
            && q.idCount == r.idCount && q.nTried == r.nTried && q.nNew == r.nNew
  {
    hide Ok, Saved, Stage;
    var i, q := 0, r;
    for n := 0 to |f.buckets[b]|
      invariant 0 <= i <= BUCKET_SIZE && |BucketList(s.news, Positions(ns), b, i)| == n
      invariant q == PlacesRead(h, f, r, b, n) && Stage(s, ns + ts, |ns + ts|, q, b, i)
      invariant q.idCount == r.idCount && q.nTried == r.nTried && q.nNew == r.nNew
    {
      var j := NextPlace(s, ns + ts, Positions(ns), b, i, |ns + ts|, q);
      var k := f.buckets[b][n];
      PlaceIsFree(h, s, ns, ts, f, q, b, j, k);
      StageSlot(s, ns + ts, |ns + ts|, q, b, j, k);
      q := ReadPlace(h, f, q, b, k);
      i := j + 1;
    }
    SkipRest(s, ns + ts, Positions(ns), |ns + ts|, q, b, i);
  }

  lemma {:induction false} SavedBuckets(h: Hashes, s: State, f: File, ns: seq<Id>, ts: seq<Id>, b: nat)
    requires Ok(h, s, {}, 0) && Saved(f, s, ns, ts) && Within(s.news, NEW_BUCKET_COUNT)
    requires b <= NEW_BUCKET_COUNT == |f.buckets| && 0 <= f.nNew == |ns| <= |f.news| && 0 <= f.nTried <= |f.trieds|
    requires f.nTried == |ts| && !Rebuilds(f)
    ensures Stage(s, ns + ts, |ns + ts|, BucketsRead(h, f, b), b, 0)
    ensures var r := BucketsRead(h, f, b); r.idCount == |ns + ts| && r.nTried == f.nTried && r.nNew == f.nNew
    decreases b
  {
    hide Ok, Stage, PlacesRead, Positions, BucketList, Written;
    if b == 0 {
      SavedTrieds(h, s, f, ns, ts, |ts|);
    } else {
      SavedBuckets(h, s, f, ns, ts, b - 1);
      AllNumbered(h, s, ns, ts, f);
      SavedPlaces(h, s, f, ns, ts, BucketsRead(h, f, b - 1), b - 1);
      StageRow(s, ns + ts, |ns + ts|, BucketsRead(h, f, b), b - 1);
    }
  }

  /** Reading what was saved gives the same addresses in the same places. */
  lemma SavedAll(h: Hashes, s: State, f: File, ns: seq<Id>, ts: seq<Id>)
    requires Ok(h, s, {}, 0) && Saved(f, s, ns, ts)
    requires Within(s.news, NEW_BUCKET_COUNT) && Within(s.tried, TRIED_BUCKET_COUNT)
    ensures Complete(f) && Isomorphic(s, ReadAll(h, f), ns + ts, Positions(ns + ts)) && Ok(h, ReadAll(h, f), {}, 0)
    ensures Timed(s.infos) ==> Timed(ReadAll(h, f).infos)
  {
    hide Ok, Stage, Isomorphic, BucketsRead, Positions, Distinguished, Timed, Written;
    SavedIsComplete(h, s, f, ns, ts);
    SavedBuckets(h, s, f, ns, ts, NEW_BUCKET_COUNT);
    StageEnd(h, s, ns + ts, ReadAll(h, f));
    IsomorphicIsOk(h, s, ReadAll(h, f), ns + ts, Positions(ns + ts));
    if Timed(s.infos) {
      IsomorphicTimed(s, ReadAll(h, f), ns + ts, Positions(ns + ts));
    }
  }

  /** A complete file within the limits. */
  predicate Accepted(f: File) {
    && f.keySize == 32 && Complete(f)
    && f.nNew <= NEW_BUCKET_COUNT * BUCKET_SIZE && f.nTried <= TRIED_BUCKET_COUNT * BUCKET_SIZE
  }

  /** The manager that was saved to a file, and the order in which it was. */
  ghost predicate Storing(f: File, s: State, ns: seq<Id>, ts: seq<Id>) {
    && Ok(f.key, s, {}, 0) && Saved(f, s, ns, ts)
    && Within(s.news, NEW_BUCKET_COUNT) && Within(s.tried, TRIED_BUCKET_COUNT)
  }

  lemma SavedIsAccepted(f: File, s: State, ns: seq<Id>, ts: seq<Id>)
    requires Ok(f.key, s, {}, 0) && Saved(f, s, ns, ts)
    requires Within(s.news, NEW_BUCKET_COUNT) && Within(s.tried, TRIED_BUCKET_COUNT)
    ensures Accepted(f) && Distinguished(f) && Storing(f, s, ns, ts)
  {
    hide Ok, Distinguished, Written, BucketList, Positions;
    SavedIsComplete(f.key, s, f, ns, ts);
    AddressesFit(f.key, s);
  }

  lemma SavedComesBack(h: Hashes, f: File, limbo: set<Id>, s: State, ns: seq<Id>, ts: seq<Id>)
    requires h == f.key && Complete(f) && Ok(h, ReadAll(h, f), limbo, |limbo|) && Storing(f, s, ns, ts)
    ensures limbo == {} && Isomorphic(s, ReadAll(h, f), ns + ts, Positions(ns + ts))
    ensures Timed(s.infos) ==> Timed(ReadAll(h, f).infos)
  {
    hide Ok, Isomorphic, Positions, Timed, BucketsRead, Saved;
    SavedAll(h, s, f, ns, ts);
    LimboKnown(h, ReadAll(h, f), limbo, |limbo|);
    forall id ensures id !in limbo {
      if id in limbo {
        InLimbo(h, ReadAll(h, f), limbo, |limbo|, id);
        InLimbo(h, ReadAll(h, f), {}, 0, id);
      }
    }
  }

  lemma NothingRead(h: Hashes, f: File)
    requires Complete(f)
    ensures NewsRead(h, f, 0) == State(map[], map[], [], map[], map[], 0, f.nNew, 0)
    ensures TriedsRead(h, f, 0) == NewsRead(h, f, f.nNew) && BucketsRead(h, f, 0) == TriedsRead(h, f, f.nTried)
  {
  }

  /** One new address more, in one go. */
  lemma NextNew(h: Hashes, f: File, n: nat)
    requires n < |f.news|
    ensures var s := NewsRead(h, f, n);
            var info := FromRecord(f.news[n]);
            var slot := HomeSlot(h, info);
            var placed := Rebuilds(f) && slot !in s.news;
            NewsRead(h, f, n + 1) ==
              s.(infos := s.infos[s.idCount := info.(nRandomPos := |s.order|, nRefCount := if placed then 1 else 0)],
                 order := s.order + [s.idCount], addrs := s.addrs[info.service.ip := s.idCount],
                 news := if placed then s.news[slot := s.idCount] else s.news, idCount := s.idCount + 1)
  {
  }

  lemma NextTried(h: Hashes, f: File, n: nat)
    requires Complete(f) && n < |f.trieds|
    ensures var s := TriedsRead(h, f, n);
            var info := FromRecord(f.trieds[n]);
            var slot := h.TriedSlot(info.service);
            TriedsRead(h, f, n + 1) ==
              if slot in s.tried then s
              else
                s.(infos := s.infos[s.idCount := info.(nRandomPos := |s.order|, fInTried := true)],
                   order := s.order + [s.idCount], addrs := s.addrs[info.service.ip := s.idCount],
                   tried := s.tried[slot := s.idCount], idCount := s.idCount + 1, nTried := s.nTried + 1)
  {
  }

  lemma NextBucket(h: Hashes, f: File, b: nat)
    requires Complete(f) && b < |f.buckets|
    ensures BucketsRead(h, f, b + 1) == PlacesRead(h, f, BucketsRead(h, f, b), b, |f.buckets[b]|)
  {
  }

  lemma {:induction false} NewsKnown(h: Hashes, f: File, n: nat)
    requires n <= |f.news|
    ensures NewsRead(h, f, n).idCount == n && forall k :: 0 <= k < n ==> k in NewsRead(h, f, n).infos
  {
    if n > 0 {
      NewsKnown(h, f, n - 1);
    }
  }

  lemma {:induction false} TriedsKnown(h: Hashes, f: File, n: nat)
    requires Complete(f) && n <= |f.trieds|
    ensures forall k :: 0 <= k < f.nNew ==> k in TriedsRead(h, f, n).infos
  {
    if n > 0 {
      TriedsKnown(h, f, n - 1);
    } else {
      NewsKnown(h, f, f.nNew);
    }
  }

  /** An address is as a record of the table it is in says. */
  ghost predicate Recorded(f: File, info: AddrInfo) {
    exists r :: r in (if info.fInTried then f.trieds else f.news) && IsFrom(info, r)
  }

  /** Addresses have succeeded at times that are not negative, and tried ones have succeeded at all. */
  ghost predicate Dated(f: File) {
    (forall r :: r in f.news ==> r.nLastSuccess >= 0) && (forall r :: r in f.trieds ==> r.nLastSuccess > 0)
  }

  lemma RecordedTimes(f: File, infos: map<Id, AddrInfo>)
    requires Dated(f) && forall id :: id in infos ==> Recorded(f, infos[id])
    ensures Timed(infos)
  {
    forall id | id in infos ensures TimesOk(infos[id]) { assert Recorded(f, infos[id]); }
  }

  lemma ReadIn(h: Hashes, f: File, s: State, limbo: set<Id>, infos: map<Id, AddrInfo>)
    requires Complete(f) && Reading(h, f, s, limbo, f.nNew, f.nTried)
    requires forall id :: id in infos ==> id in s.infos && Moved(s.infos[id], infos[id])
    ensures forall id :: id in infos ==> Recorded(f, infos[id])
  {
    hide Ok;
    forall id | id in infos ensures Recorded(f, infos[id]) {
      if 0 <= id < f.nNew {
        assert f.news[id] in f.news && IsFrom(infos[id], f.news[id]);
      } else {
        var k :| 0 <= k < f.nTried && IsFrom(s.infos[id], f.trieds[k]);
        assert f.trieds[k] in f.trieds && IsFrom(infos[id], f.trieds[k]);
      }
    }
  }
}
