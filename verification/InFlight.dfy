/**
 Which blocks have been asked of which peer (MarkBlockAsInFlight, MarkBlockAsReceived,
 InitializeNode, FinalizeNode and the places that request blocks, in src/net_processing.cpp).
 */
module InFlight {
  import opened Sequences

  const MAX_BLOCKS_IN_TRANSIT_PER_PEER := 16

  type NodeId = int
  type Hash = nat

  datatype Queued = Queued(hash: Hash, validated: bool)

  datatype Peer = Peer(queue: seq<Queued>, nBlocks: int, nValidated: int, preferred: bool)

  // One peer's queue

  function CountValidated(q: seq<Queued>): nat {
    if q == [] then 0 else CountValidated(q[..|q| - 1]) + if q[|q| - 1].validated then 1 else 0
  }

  /** Where a block is in the queue; its length if it is not there. */
  function Find(q: seq<Queued>, hash: Hash): (k: nat)
    ensures k <= |q| && (k < |q| ==> q[k].hash == hash) && forall j :: 0 <= j < k ==> q[j].hash != hash
  {
    if q == [] || q[0].hash == hash then 0 else 1 + Find(q[1..], hash)
  }

  lemma {:induction false} CountConcat(a: seq<Queued>, b: seq<Queued>)
    ensures CountValidated(a + b) == CountValidated(a) + CountValidated(b)
  {
    if b == [] {
      assert a + b == a;
    } else {
      var n := |b| - 1;
      CountConcat(a, b[..n]);
      assert (a + b)[..|a + b| - 1] == a + b[..n];
    }
  }

  lemma CountOne(x: Queued)
    ensures CountValidated([x]) == if x.validated then 1 else 0
  {
    assert [x][..0] == [];
  }

  function Removed(q: seq<Queued>, k: nat): seq<Queued>
    requires k < |q|
  {
    q[..k] + q[k + 1..]
  }

  /** Where a place of the shortened queue was before. */
  function Shifted(j: nat, k: nat): nat { if j < k then j else j + 1 }

  lemma RemovedAt(q: seq<Queued>, k: nat)
    requires k < |q|
    ensures |Removed(q, k)| == |q| - 1 && forall j :: 0 <= j < |q| - 1 ==> Removed(q, k)[j] == q[Shifted(j, k)]
  {
  }

  lemma RemovedNoneTwice(q: seq<Queued>, k: nat)
    requires k < |q| && NoneTwice(q)
    ensures NoneTwice(Removed(q, k)) && forall j :: 0 <= j < |q| && j != k ==> q[j].hash != q[k].hash
  {
    hide Removed;
    RemovedAt(q, k);
    var r := Removed(q, k);
    forall i, j | 0 <= i < j < |r| ensures r[i].hash != r[j].hash {
      assert q[Shifted(i, k)].hash != q[Shifted(j, k)].hash;
    }
  }

  lemma CountRemoved(q: seq<Queued>, k: nat)
    requires k < |q|
    ensures CountValidated(Removed(q, k)) == CountValidated(q) - if q[k].validated then 1 else 0
  {
    hide CountValidated;
    assert q == q[..k] + [q[k]] + q[k + 1..];
    CountParts(q[..k], q[k], q[k + 1..]);
  }

  lemma CountParts(a: seq<Queued>, x: Queued, b: seq<Queued>)
    ensures CountValidated(a + [x] + b) == CountValidated(a + b) + if x.validated then 1 else 0
  {
    hide CountValidated;
    CountConcat(a + [x], b);
    CountConcat(a, [x]);
    CountConcat(a, b);
    CountOne(x);
  }

  ghost predicate NoneTwice(q: seq<Queued>) { forall j, k :: 0 <= j < k < |q| ==> q[j].hash != q[k].hash }

  // All peers

  /** A peer's counters are exact, and its queue is what is in flight from it. */
  ghost predicate PeerOk(n: NodeId, p: Peer, inFlight: map<Hash, NodeId>) {
    && p.nBlocks == |p.queue| && p.nValidated == CountValidated(p.queue) && NoneTwice(p.queue)
    && (forall k :: 0 <= k < |p.queue| ==> p.queue[k].hash in inFlight && inFlight[p.queue[k].hash] == n)
    && (forall h :: h in inFlight && inFlight[h] == n ==> Find(p.queue, h) < |p.queue|)
  }

  function Downloading(peers: map<NodeId, Peer>): set<NodeId> { set n | n in peers && peers[n].nValidated != 0 }

  function Preferred(peers: map<NodeId, Peer>): set<NodeId> { set n | n in peers && peers[n].preferred }

  ghost predicate Linked(peers: map<NodeId, Peer>, inFlight: map<Hash, NodeId>) {
    && (forall n :: n in peers ==> PeerOk(n, peers[n], inFlight))
    && (forall h :: h in inFlight ==> inFlight[h] in peers)
  }

  ghost predicate Counted(peers: map<NodeId, Peer>, nDownloading: int, nPreferred: int) {
    nDownloading == |Downloading(peers)| && nPreferred == |Preferred(peers)|
  }

  ghost predicate Bounded(peers: map<NodeId, Peer>) {
    forall n :: n in peers ==> |peers[n].queue| <= MAX_BLOCKS_IN_TRANSIT_PER_PEER
  }

  /** Changing one peer changes the counts by what that peer contributes. */
  lemma CountsChange(peers: map<NodeId, Peer>, n: NodeId, p: Peer)
    ensures |Downloading(peers[n := p])| == |Downloading(peers)|
              - (if n in peers && peers[n].nValidated != 0 then 1 else 0) + if p.nValidated != 0 then 1 else 0
    ensures |Preferred(peers[n := p])| == |Preferred(peers)|
              - (if n in peers && peers[n].preferred then 1 else 0) + if p.preferred then 1 else 0
  {
    assert Downloading(peers) - {n} == Downloading(peers[n := p]) - {n};
    assert Preferred(peers) - {n} == Preferred(peers[n := p]) - {n};
    SizesDiffer(Downloading(peers), Downloading(peers[n := p]), n);
    SizesDiffer(Preferred(peers), Preferred(peers[n := p]), n);
  }

  lemma CountsDrop(peers: map<NodeId, Peer>, n: NodeId)
    requires n in peers
    ensures |Downloading(peers - {n})| == |Downloading(peers)| - if peers[n].nValidated != 0 then 1 else 0
    ensures |Preferred(peers - {n})| == |Preferred(peers)| - if peers[n].preferred then 1 else 0
  {
    assert Downloading(peers) - {n} == Downloading(peers - {n}) - {n};
    assert Preferred(peers) - {n} == Preferred(peers - {n}) - {n};
    SizesDiffer(Downloading(peers), Downloading(peers - {n}), n);
    SizesDiffer(Preferred(peers), Preferred(peers - {n}), n);
  }

  /** The peer after one of its blocks has left the queue. */
  function Taken(p: Peer, k: nat): Peer
    requires k < |p.queue|
  {
    p.(queue := Removed(p.queue, k), nBlocks := p.nBlocks - 1,
       nValidated := p.nValidated - if p.queue[k].validated then 1 else 0)
  }

  /** The peer after a block has been asked of it. */
  function Asked(p: Peer, x: Queued): Peer {
    p.(queue := p.queue + [x], nBlocks := p.nBlocks + 1, nValidated := p.nValidated + if x.validated then 1 else 0)
  }

  /** The peers after a block has arrived, or has been given up. */
  function Receive(peers: map<NodeId, Peer>, inFlight: map<Hash, NodeId>, h: Hash): map<NodeId, Peer> {
    if h in inFlight && inFlight[h] in peers && Find(peers[inFlight[h]].queue, h) < |peers[inFlight[h]].queue| then
      peers[inFlight[h] := Taken(peers[inFlight[h]], Find(peers[inFlight[h]].queue, h))]
    else
      peers
  }

  lemma ReceiveOther(peers: map<NodeId, Peer>, inFlight: map<Hash, NodeId>, h: Hash, n: NodeId)
    requires n in peers && (h in inFlight ==> inFlight[h] != n)
    ensures n in Receive(peers, inFlight, h) && Receive(peers, inFlight, h)[n] == peers[n]
  {
  }

  /** The peer after several validated blocks have been asked of it. */
  function AskedAll(p: Peer, hashes: seq<Hash>): Peer {
    p.(queue := p.queue + seq(|hashes|, i requires 0 <= i < |hashes| => Queued(hashes[i], true)),
       nBlocks := p.nBlocks + |hashes|, nValidated := p.nValidated + |hashes|)
  }

  lemma AskedOneMore(p: Peer, hashes: seq<Hash>, k: nat)
    requires k < |hashes|
    ensures AskedAll(p, hashes[..k + 1]) == Asked(AskedAll(p, hashes[..k]), Queued(hashes[k], true))
  {
    assert AskedAll(p, hashes[..k + 1]).queue == Asked(AskedAll(p, hashes[..k]), Queued(hashes[k], true)).queue;
  }

  lemma AskedNone(p: Peer, hashes: seq<Hash>)
    ensures AskedAll(p, hashes[..0]) == p
  {
    assert AskedAll(p, hashes[..0]).queue == p.queue;
  }

  lemma PeerTaken(n: NodeId, p: Peer, inFlight: map<Hash, NodeId>, h: Hash)
    requires PeerOk(n, p, inFlight) && Find(p.queue, h) < |p.queue|
    ensures PeerOk(n, Taken(p, Find(p.queue, h)), inFlight - {h})
  {
    hide CountValidated, Find, Removed, NoneTwice;
    var q, k := p.queue, Find(p.queue, h);
    var r := Taken(p, k);
    CountRemoved(q, k);
    RemovedAt(q, k);
    RemovedNoneTwice(q, k);
    forall j | 0 <= j < |r.queue| ensures r.queue[j].hash in inFlight - {h} && inFlight[r.queue[j].hash] == n {
      assert q[Shifted(j, k)].hash in inFlight;
    }
    forall g | g in inFlight && g != h && inFlight[g] == n ensures Find(r.queue, g) < |r.queue| {
      var j := Find(q, g);
      assert r.queue[if j < k then j else j - 1].hash == g;
    }
  }

  lemma PeerAsked(n: NodeId, p: Peer, inFlight: map<Hash, NodeId>, x: Queued)
    requires PeerOk(n, p, inFlight) && x.hash !in inFlight
    ensures PeerOk(n, Asked(p, x), inFlight[x.hash := n])
  {
    hide CountValidated, Find;
    var r := Asked(p, x);
    CountConcat(p.queue, [x]);
    CountOne(x);
    assert r.queue[|p.queue|].hash == x.hash;
    forall g | g in inFlight && inFlight[g] == n ensures Find(r.queue, g) < |r.queue| {
      assert r.queue[Find(p.queue, g)].hash == g;
    }
  }

  /** What becomes of another peer's block does not concern a peer. */
  lemma PeerOther(n: NodeId, p: Peer, inFlight: map<Hash, NodeId>, after: map<Hash, NodeId>, h: Hash)
    requires PeerOk(n, p, inFlight) && (h in inFlight ==> inFlight[h] != n) && (h in after ==> after[h] != n)
    requires inFlight - {h} == after - {h}
    ensures PeerOk(n, p, after)
  {
    hide CountValidated, Find;
    forall g | g != h ensures g in inFlight <==> g in after { assert g in inFlight - {h} <==> g in after - {h}; }
    forall g | g != h && g in after ensures after[g] == inFlight[g] { assert (after - {h})[g] == (inFlight - {h})[g]; }
  }

  /** A block that is no longer in flight. */
  lemma Unlinked(peers: map<NodeId, Peer>, inFlight: map<Hash, NodeId>, h: Hash)
    requires Linked(peers, inFlight) && h in inFlight
    ensures var p := peers[inFlight[h]];
            && Find(p.queue, h) < |p.queue|
            && Linked(peers[inFlight[h] := Taken(p, Find(p.queue, h))], inFlight - {h})
  {
    hide PeerOk, Find;
    var n := inFlight[h];
    FindIt(n, peers[n], inFlight, h);
    PeerTaken(n, peers[n], inFlight, h);
    forall m | m in peers && m != n ensures PeerOk(m, peers[m], inFlight - {h}) {
      PeerOther(m, peers[m], inFlight, inFlight - {h}, h);
    }
  }

  lemma FindIt(n: NodeId, p: Peer, inFlight: map<Hash, NodeId>, h: Hash)
    requires PeerOk(n, p, inFlight) && h in inFlight && inFlight[h] == n
    ensures Find(p.queue, h) < |p.queue|
  {
  }

  lemma EntryCounts(n: NodeId, p: Peer, inFlight: map<Hash, NodeId>, k: nat)
    requires PeerOk(n, p, inFlight) && k < |p.queue|
    ensures p.queue[k].validated ==> p.nValidated > 0
  {
    hide CountValidated;
    CountRemoved(p.queue, k);
  }

  lemma CountersOk(n: NodeId, p: Peer, inFlight: map<Hash, NodeId>)
    requires PeerOk(n, p, inFlight)
    ensures p.nBlocks == |p.queue| && p.nValidated >= 0
  {
  }

  /** A block that is asked of a peer. */
  lemma Relinked(peers: map<NodeId, Peer>, inFlight: map<Hash, NodeId>, n: NodeId, x: Queued)
    requires Linked(peers, inFlight) && x.hash !in inFlight && n in peers
    ensures Linked(peers[n := Asked(peers[n], x)], inFlight[x.hash := n])
  {
    hide PeerOk;
    PeerAsked(n, peers[n], inFlight, x);
    forall m | m in peers && m != n ensures PeerOk(m, peers[m], inFlight[x.hash := n]) {
      PeerOther(m, peers[m], inFlight, inFlight[x.hash := n], x.hash);
    }
  }

  /** A peer that leaves takes its blocks with it. */
  lemma PeerGone(peers: map<NodeId, Peer>, inFlight: map<Hash, NodeId>, n: NodeId, after: map<Hash, NodeId>)
    requires Linked(peers, inFlight) && n in peers
    requires forall h :: h in after <==> h in inFlight && inFlight[h] != n
    requires forall h :: h in after ==> after[h] == inFlight[h]
    ensures Linked(peers - {n}, after)
  {
    hide Find, CountValidated;
    forall m | m in peers && m != n ensures PeerOk(m, peers[m], after) { assert PeerOk(m, peers[m], inFlight); }
  }

  lemma PeerNew(peers: map<NodeId, Peer>, inFlight: map<Hash, NodeId>, n: NodeId)
    requires Linked(peers, inFlight) && n !in peers
    ensures Linked(peers[n := Peer([], 0, 0, false)], inFlight)
  {
    forall m | m in peers ensures PeerOk(m, peers[m], inFlight) { }
  }

  lemma PeerPreferred(peers: map<NodeId, Peer>, inFlight: map<Hash, NodeId>, n: NodeId, preferred: bool)
    requires Linked(peers, inFlight) && n in peers
    ensures Linked(peers[n := peers[n].(preferred := preferred)], inFlight)
  {
    hide Find, CountValidated;
    assert PeerOk(n, peers[n], inFlight);
  }

  class Downloads {
    var mapNodeState: map<NodeId, Peer>
    var mapBlocksInFlight: map<Hash, NodeId>
    var nPeersWithValidatedDownloads: int
    var nPreferredDownload: int

    /** The blocks in flight and all queues list each other, and every count is exact. */
    ghost predicate Valid()
      reads this
    {
      Linked(mapNodeState, mapBlocksInFlight) && Counted(mapNodeState, nPeersWithValidatedDownloads, nPreferredDownload)
    }

    constructor ()
      ensures Valid() && mapNodeState == map[]
    {
      mapNodeState, mapBlocksInFlight, nPeersWithValidatedDownloads, nPreferredDownload := map[], map[], 0, 0;
      new;
      assert Downloading(mapNodeState) == {} && Preferred(mapNodeState) == {};
    }

    /** A peer that is known already stays as it is. */
    method InitializeNode(n: NodeId)
      requires Valid()
      modifies this`mapNodeState
      ensures Valid() && mapNodeState == if n in old(mapNodeState) then old(mapNodeState)
                else old(mapNodeState)[n := Peer([], 0, 0, false)]
    {
      hide Linked;
      if n !in mapNodeState {
        PeerNew(mapNodeState, mapBlocksInFlight, n);
        CountsChange(mapNodeState, n, Peer([], 0, 0, false));
        mapNodeState := mapNodeState[n := Peer([], 0, 0, false)];
      }
    }

    method UpdatePreferredDownload(n: NodeId, preferred: bool)
      requires Valid() && n in mapNodeState
      modifies this`mapNodeState, this`nPreferredDownload
      ensures Valid() && mapNodeState == old(mapNodeState)[n := old(mapNodeState)[n].(preferred := preferred)]
    {
      hide Linked;
      var state := mapNodeState[n];
      PeerPreferred(mapNodeState, mapBlocksInFlight, n, preferred);
      CountsChange(mapNodeState, n, state.(preferred := preferred));
      if state.preferred {
        nPreferredDownload := nPreferredDownload - 1;
      }
      mapNodeState := mapNodeState[n := state.(preferred := preferred)];
      if preferred {
        nPreferredDownload := nPreferredDownload + 1;
      }
    }

    method MarkBlockAsReceived(hash: Hash) returns (requested: bool)
      requires Valid()
      modifies this`mapNodeState, this`mapBlocksInFlight, this`nPeersWithValidatedDownloads
      ensures Valid() && requested == (hash in old(mapBlocksInFlight))
      ensures mapBlocksInFlight == old(mapBlocksInFlight) - {hash} && mapNodeState.Keys == old(mapNodeState.Keys)
      ensures mapNodeState == old(Receive(mapNodeState, mapBlocksInFlight, hash))
      ensures old(Bounded(mapNodeState)) ==> Bounded(mapNodeState)
    {
      hide PeerOk, Find;
      requested := hash in mapBlocksInFlight;
      if requested {
        var n := mapBlocksInFlight[hash];
        var state := mapNodeState[n];
        Unlinked(mapNodeState, mapBlocksInFlight, hash);
        var k := Find(state.queue, hash);
        EntryCounts(n, state, mapBlocksInFlight, k);
        CountsChange(mapNodeState, n, Taken(state, k));
        var entry := state.queue[k];
        state := state.(nValidated := state.nValidated - if entry.validated then 1 else 0);
        if state.nValidated == 0 && entry.validated {
          nPeersWithValidatedDownloads := nPeersWithValidatedDownloads - 1;
        }
        state := state.(queue := Removed(state.queue, k), nBlocks := state.nBlocks - 1);
        mapNodeState := mapNodeState[n := state];
        mapBlocksInFlight := mapBlocksInFlight - {hash};
      }
    }

    /** Asks a peer for a block, taking it from another peer if need be. */
    method MarkBlockAsInFlight(n: NodeId, hash: Hash, validated: bool) returns (isNew: bool)
      requires Valid() && n in mapNodeState
      modifies this`mapNodeState, this`mapBlocksInFlight, this`nPeersWithValidatedDownloads
      ensures Valid() && isNew == !(hash in old(mapBlocksInFlight) && old(mapBlocksInFlight)[hash] == n)
      ensures mapBlocksInFlight == old(mapBlocksInFlight)[hash := n] && mapNodeState.Keys == old(mapNodeState.Keys)
      ensures old(Bounded(mapNodeState)) &&
                (!isNew || |old(mapNodeState)[n].queue| < MAX_BLOCKS_IN_TRANSIT_PER_PEER) ==>
                Bounded(mapNodeState)
      ensures mapNodeState == if !isNew then old(mapNodeState) else
                var rest := old(Receive(mapNodeState, mapBlocksInFlight, hash));
                rest[n := Asked(rest[n], Queued(hash, validated))]
    {
      hide PeerOk, Find, Receive;
      if hash in mapBlocksInFlight && mapBlocksInFlight[hash] == n {
        return false;
      }
      ReceiveOther(mapNodeState, mapBlocksInFlight, hash, n);
      var _ := MarkBlockAsReceived(hash);
      var state := mapNodeState[n];
      Relinked(mapNodeState, mapBlocksInFlight, n, Queued(hash, validated));
      CountersOk(n, state, mapBlocksInFlight);
      CountsChange(mapNodeState, n, Asked(state, Queued(hash, validated)));
      state := state.(queue := state.queue + [Queued(hash, validated)], nBlocks := state.nBlocks + 1);
      state := state.(nValidated := state.nValidated + if validated then 1 else 0);
      if state.nValidated == 1 && validated {
        nPeersWithValidatedDownloads := nPeersWithValidatedDownloads + 1;
      }
      mapNodeState := mapNodeState[n := state];
      mapBlocksInFlight := mapBlocksInFlight[hash := n];
      return true;
    }

    /** A peer leaves; when the last one has left, nothing is in flight and all counts are zero. */
    method FinalizeNode(n: NodeId)
      requires Valid() && n in mapNodeState
      modifies this
      ensures Valid() && mapNodeState == old(mapNodeState) - {n}
      ensures forall h :: h in mapBlocksInFlight <==> h in old(mapBlocksInFlight) && old(mapBlocksInFlight)[h] != n
      ensures mapNodeState == map[] ==>
                mapBlocksInFlight == map[] && nPreferredDownload == 0 && nPeersWithValidatedDownloads == 0
    {
      hide PeerOk;
      var state := mapNodeState[n];
      ghost var before := mapBlocksInFlight;
      PeerQueue(n, state, before);
      CountersOk(n, state, before);
      for k := 0 to |state.queue|
        invariant forall h :: h in mapBlocksInFlight <==> h in before && forall j :: 0 <= j < k ==>
                    state.queue[j].hash != h
        invariant forall h :: h in mapBlocksInFlight ==> mapBlocksInFlight[h] == before[h]
        invariant mapNodeState == old(mapNodeState) && nPreferredDownload == old(nPreferredDownload)
        invariant nPeersWithValidatedDownloads == old(nPeersWithValidatedDownloads)
      {
        mapBlocksInFlight := mapBlocksInFlight - {state.queue[k].hash};
      }
      CountsDrop(mapNodeState, n);
      PeerGone(mapNodeState, before, n, mapBlocksInFlight);
      if state.preferred {
        nPreferredDownload := nPreferredDownload - 1;
      }
      if state.nValidated != 0 {
        nPeersWithValidatedDownloads := nPeersWithValidatedDownloads - 1;
      }
      assert nPeersWithValidatedDownloads >= 0;
      mapNodeState := mapNodeState - {n};
      if mapNodeState == map[] {
        assert Downloading(mapNodeState) == {} && Preferred(mapNodeState) == {};
        assert mapBlocksInFlight == map[];
      }
    }

    // The places that request blocks

    /** A compact block is announced: it is asked of the peer if it is in flight from nobody and the peer has room. */
    method OnCompactBlock(n: NodeId, hash: Hash)
      requires Valid() && Bounded(mapNodeState) && n in mapNodeState
      modifies this`mapNodeState, this`mapBlocksInFlight, this`nPeersWithValidatedDownloads
      ensures Valid() && Bounded(mapNodeState) && mapNodeState.Keys == old(mapNodeState.Keys)
      ensures mapNodeState == if hash in old(mapBlocksInFlight) ||
                |old(mapNodeState)[n].queue| == MAX_BLOCKS_IN_TRANSIT_PER_PEER
                then old(mapNodeState) else old(mapNodeState)[n := Asked(old(mapNodeState)[n], Queued(hash, true))]
    {
      hide Linked;
      BlocksCounted(n);
      var already := hash in mapBlocksInFlight;
      if (!already && mapNodeState[n].nBlocks < MAX_BLOCKS_IN_TRANSIT_PER_PEER) ||
        (already && mapBlocksInFlight[hash] == n) {
        var _ := MarkBlockAsInFlight(n, hash, true);
      }
    }

    lemma BlocksCounted(n: NodeId)
      requires Valid() && n in mapNodeState
      ensures mapNodeState[n].nBlocks == |mapNodeState[n].queue|
    {
      CountersOk(n, mapNodeState[n], mapBlocksInFlight);
    }

    /** Collects missing blocks on the way back to the active chain, up to the limit. */
    method WalkBack(blocks: seq<Successor>) returns (reached: bool, toFetch: seq<Hash>)
      ensures reached <==> !TooMany(blocks, mapBlocksInFlight)
      ensures reached ==> toFetch == Missing(blocks, |blocks|, mapBlocksInFlight)
    {
      toFetch := [];
      var i := 0;
      while i < |blocks| && |toFetch| <= MAX_BLOCKS_IN_TRANSIT_PER_PEER
        invariant 0 <= i <= |blocks| && toFetch == Missing(blocks, i, mapBlocksInFlight)
        invariant i == |blocks| ==> !TooMany(blocks, mapBlocksInFlight)
      {
        if !blocks[i].have && blocks[i].hash !in mapBlocksInFlight {
          toFetch := toFetch + [blocks[i].hash];
        }
        i := i + 1;
      }
      reached := i == |blocks|;
      if !reached {
        MissingGrows(blocks, i, |blocks| - 1, mapBlocksInFlight);
      }
    }

    /**
     Asks for announced blocks that are missing and not in flight, the earliest first, while the
     peer has room; or for none, if there are too many. `blocks` leads back from the last
     announced one to the active chain.
     */
    method FetchDirectly(n: NodeId, blocks: seq<Successor>) returns (ghost asked: nat)
      requires Valid() && Bounded(mapNodeState) && n in mapNodeState && HashesDiffer(blocks)
      modifies this`mapNodeState, this`mapBlocksInFlight, this`nPeersWithValidatedDownloads
      ensures Valid() && Bounded(mapNodeState) && mapNodeState.Keys == old(mapNodeState.Keys)
      ensures var wanted := Reversed(Missing(blocks, |blocks|, old(mapBlocksInFlight)));
              && asked <= |wanted|
              && mapNodeState == old(mapNodeState)[n := AskedAll(old(mapNodeState)[n], wanted[..asked])]
              && (if TooMany(blocks, old(mapBlocksInFlight)) then asked == 0
                  else asked == |wanted| || |mapNodeState[n].queue| == MAX_BLOCKS_IN_TRANSIT_PER_PEER)
    {
      hide Linked, Receive, AskedAll, Missing, TooMany;
      asked := 0;
      ghost var before := mapNodeState[n];
      ghost var wanted := Reversed(Missing(blocks, |blocks|, mapBlocksInFlight));
      AskedNone(before, wanted);
      assert mapNodeState == mapNodeState[n := before];
      var reached, toFetch := WalkBack(blocks);
      if !reached {
        return;
      }
      MissingOnes(blocks, |blocks|, mapBlocksInFlight);
      var k := |toFetch|;
      while k > 0
        invariant 0 <= k <= |toFetch| && Valid() && Bounded(mapNodeState) && mapNodeState.Keys == old(mapNodeState.Keys)
        invariant forall j :: 0 <= j < k ==> toFetch[j] !in mapBlocksInFlight
        invariant asked == |toFetch| - k && mapNodeState == old(mapNodeState)[n := AskedAll(before, wanted[..asked])]
      {
        k := k - 1;
        BlocksCounted(n);
        if mapNodeState[n].nBlocks >= MAX_BLOCKS_IN_TRANSIT_PER_PEER {
          break;
        }
        NoneTaken(mapNodeState, mapBlocksInFlight, toFetch[k]);
        var isNew := MarkBlockAsInFlight(n, toFetch[k], true);
        assert isNew; // no place is given to report a block that was asked of this peer before
        AskedOneMore(before, wanted, asked);
        asked := asked + 1;
      }
    }

    /**
     The missing blocks to ask a peer for, among the ones that lead to its best one; and the peer
     that holds up the download, if the window's end is reached with nothing to ask for.
     */
    method FindNextBlocksToDownload(n: NodeId, count: nat, blocks: seq<Successor>, windowEnd: int)
      returns (vBlocks: seq<Hash>, staller: NodeId, ghost seen: nat)
      requires Valid() && n in mapNodeState && -1 !in mapNodeState
      requires HashesDiffer(blocks)
      ensures |vBlocks| <= count && seen <= |blocks| && vBlocks == Missing(blocks, seen, mapBlocksInFlight)
      ensures seen == |blocks| || |vBlocks| == count || Blocked(blocks[seen], windowEnd, mapBlocksInFlight)
      ensures forall k :: 0 <= k < seen ==> !Blocked(blocks[k], windowEnd, mapBlocksInFlight)
      ensures staller == Staller(n, vBlocks, blocks, seen, windowEnd, mapBlocksInFlight)
      ensures staller != -1 ==> staller in mapNodeState && staller != n
    {
      hide PeerOk;
      vBlocks, staller, seen := [], -1, 0;
      if count == 0 {
        return;
      }
      var waitingfor := -1;
      for i := 0 to |blocks|
        invariant |vBlocks| < count && vBlocks == Missing(blocks, i, mapBlocksInFlight) && seen == i
        invariant forall k :: 0 <= k < i ==> !Blocked(blocks[k], windowEnd, mapBlocksInFlight)
        invariant waitingfor == FirstWaiting(blocks, i, mapBlocksInFlight)
        invariant waitingfor != -1 ==> waitingfor in mapNodeState
      {
        var b := blocks[i];
        if !b.valid {
          return;
        }
        if b.have {
        } else if b.hash !in mapBlocksInFlight {
          if b.height > windowEnd {
            if |vBlocks| == 0 && waitingfor != n {
              staller := waitingfor;
            }
            return;
          }
          vBlocks := vBlocks + [b.hash];
          if |vBlocks| == count {
            seen := i + 1;
            return;
          }
        } else if waitingfor == -1 {
          waitingfor := mapBlocksInFlight[b.hash];
        }
        seen := i + 1;
      }
    }

    /** Asks for as many missing blocks as the peer has room for. */
    method Download(n: NodeId, blocks: seq<Successor>, windowEnd: int) returns (ghost seen: nat)
      requires Valid() && Bounded(mapNodeState) && n in mapNodeState && -1 !in mapNodeState
      requires HashesDiffer(blocks)
      modifies this`mapNodeState, this`mapBlocksInFlight, this`nPeersWithValidatedDownloads
      ensures Valid() && Bounded(mapNodeState) && mapNodeState.Keys == old(mapNodeState.Keys) && seen <= |blocks|
      ensures mapNodeState ==
              old(mapNodeState)[n := AskedAll(old(mapNodeState)[n], Missing(blocks, seen, old(mapBlocksInFlight)))]
      ensures || seen == |blocks| || |mapNodeState[n].queue| == MAX_BLOCKS_IN_TRANSIT_PER_PEER
              || Blocked(blocks[seen], windowEnd, old(mapBlocksInFlight))
    {
      hide Linked, Receive, AskedAll, Blocked;
      BlocksCounted(n);
      ghost var before := mapNodeState[n];
      seen := 0;
      AskedNone(before, []);
      assert mapNodeState == mapNodeState[n := before];
      if mapNodeState[n].nBlocks >= MAX_BLOCKS_IN_TRANSIT_PER_PEER {
        return;
      }
      var toDownload, _, stop := FindNextBlocksToDownload(n, MAX_BLOCKS_IN_TRANSIT_PER_PEER - mapNodeState[n].nBlocks,
                                   blocks, windowEnd);
      seen := stop;
      MissingOnes(blocks, seen, mapBlocksInFlight);
      AskedNone(before, toDownload);
      for k := 0 to |toDownload|
        invariant Valid() && Bounded(mapNodeState) && mapNodeState.Keys == old(mapNodeState.Keys)
        invariant mapNodeState == old(mapNodeState)[n := AskedAll(before, toDownload[..k])]
        invariant |mapNodeState[n].queue| + |toDownload| - k == |before.queue| + |toDownload|
        invariant forall j :: k <= j < |toDownload| ==> toDownload[j] !in mapBlocksInFlight
      {
        NoneTaken(mapNodeState, mapBlocksInFlight, toDownload[k]);
        var isNew := MarkBlockAsInFlight(n, toDownload[k], true);
        assert isNew;
        AskedOneMore(before, toDownload, k);
      }
      assert toDownload[..|toDownload|] == toDownload;
    }
  }

  lemma NoneTaken(peers: map<NodeId, Peer>, inFlight: map<Hash, NodeId>, h: Hash)
    requires h !in inFlight
    ensures Receive(peers, inFlight, h) == peers
  {
  }

  /** A block on the way to a peer's best one: is its header valid, and do we have it? */
  datatype Successor = Successor(hash: Hash, height: int, valid: bool, have: bool)

  ghost predicate HashesDiffer(blocks: seq<Successor>) {
    forall j, k :: 0 <= j < k < |blocks| ==> blocks[j].hash != blocks[k].hash
  }

  /** The first blocks that are missing and have been asked of nobody. */
  ghost function Missing(blocks: seq<Successor>, i: nat, inFlight: map<Hash, NodeId>): seq<Hash>
    requires i <= |blocks|
  {
    if i == 0 then [] else
      Missing(blocks, i - 1, inFlight)
      + if !blocks[i - 1].have && blocks[i - 1].hash !in inFlight then [blocks[i - 1].hash] else []
  }

  /** Download towards a peer's best block ends here: the block is invalid, or one to fetch beyond the window. */
  ghost predicate Blocked(b: Successor, windowEnd: int, inFlight: map<Hash, NodeId>) {
    !b.valid || (!b.have && b.hash !in inFlight && b.height > windowEnd)
  }

  /** The peer that the first missing block was asked of; -1 if there is none. */
  ghost function FirstWaiting(blocks: seq<Successor>, i: nat, inFlight: map<Hash, NodeId>): NodeId
    requires i <= |blocks|
  {
    if i == 0 then -1
    else if FirstWaiting(blocks, i - 1, inFlight) != -1 then FirstWaiting(blocks, i - 1, inFlight)
    else if !blocks[i - 1].have && blocks[i - 1].hash in inFlight then inFlight[blocks[i - 1].hash]
    else -1
  }

  /** Another peer holds up the download when the window's end is reached and there is nothing to ask for. */
  ghost function Staller(n: NodeId, chosen: seq<Hash>, blocks: seq<Successor>, seen: nat, windowEnd: int,
                         inFlight: map<Hash, NodeId>): NodeId
    requires seen <= |blocks|
  {
    if && chosen == [] && seen < |blocks| && blocks[seen].valid && Blocked(blocks[seen], windowEnd, inFlight)
       && FirstWaiting(blocks, seen, inFlight) != n
    then FirstWaiting(blocks, seen, inFlight) else -1
  }

  /** The limit is passed before the walk back reaches the active chain. */
  ghost predicate TooMany(blocks: seq<Successor>, inFlight: map<Hash, NodeId>) {
    blocks != [] && |Missing(blocks, |blocks| - 1, inFlight)| > MAX_BLOCKS_IN_TRANSIT_PER_PEER
  }

  ghost function Reversed(s: seq<Hash>): seq<Hash> { seq(|s|, i requires 0 <= i < |s| => s[|s| - 1 - i]) }

  lemma {:induction false} MissingGrows(blocks: seq<Successor>, i: nat, j: nat, inFlight: map<Hash, NodeId>)
    requires i <= j <= |blocks|
    ensures |Missing(blocks, i, inFlight)| <= |Missing(blocks, j, inFlight)|
  {
    if i < j {
      MissingGrows(blocks, i, j - 1, inFlight);
    }
  }

  /** The missing blocks are not in flight, and none is listed twice. */
  lemma {:induction false} MissingOnes(blocks: seq<Successor>, i: nat, inFlight: map<Hash, NodeId>)
    requires i <= |blocks| && HashesDiffer(blocks)
    ensures Distinct(Missing(blocks, i, inFlight))
    ensures forall h :: h in Missing(blocks, i, inFlight) ==>
              h !in inFlight && exists k :: 0 <= k < i && blocks[k].hash == h
  {
    if i > 0 {
      MissingOnes(blocks, i - 1, inFlight);
    }
  }

  lemma PeerQueue(n: NodeId, p: Peer, inFlight: map<Hash, NodeId>)
    requires PeerOk(n, p, inFlight)
    ensures forall h :: h in inFlight && inFlight[h] == n ==> exists k :: 0 <= k < |p.queue| && p.queue[k].hash == h
    ensures forall k :: 0 <= k < |p.queue| ==> p.queue[k].hash in inFlight && inFlight[p.queue[k].hash] == n
  {
    hide Find;
    forall h | h in inFlight && inFlight[h] == n ensures exists k :: 0 <= k < |p.queue| && p.queue[k].hash == h {
      assert p.queue[Find(p.queue, h)].hash == h;
    }
  }

  datatype Event =
    | Connected(n: NodeId)
    | Left(n: NodeId)
    | Preference(n: NodeId, preferred: bool)
    | Received(hash: Hash)
    | Announced(n: NodeId, hash: Hash)
    | HeadersFrom(n: NodeId, blocks: seq<Successor>)
    | Idle(n: NodeId, blocks: seq<Successor>, windowEnd: int)
  {
    ghost predicate Possible() {
      && (Connected? ==> n >= 0)
      && (HeadersFrom? || Idle? ==> HashesDiffer(blocks))
    }
  }

  /** Whatever happens, the books stay balanced, and no peer is asked for too much. */
  method Run(events: seq<Event>) returns (d: Downloads)
    requires forall e :: e in events ==> e.Possible()
    ensures d.Valid() && Bounded(d.mapNodeState)
    ensures d.mapNodeState == map[] ==>
              d.mapBlocksInFlight == map[] && d.nPreferredDownload == 0 && d.nPeersWithValidatedDownloads == 0
  {
    hide PeerOk;
    d := new Downloads();
    for k := 0 to |events|
      invariant fresh(d) && d.Valid() && Bounded(d.mapNodeState) && -1 !in d.mapNodeState
    {
      assert events[k] in events && events[k].Possible();
      match events[k] {
        case Connected(n) =>
          d.InitializeNode(n);
        case Left(n) =>
          if n in d.mapNodeState {
            d.FinalizeNode(n);
          }
        case Preference(n, preferred) =>
          if n in d.mapNodeState {
            d.UpdatePreferredDownload(n, preferred);
          }
        case Received(hash) =>
          var _ := d.MarkBlockAsReceived(hash);
        case Announced(n, hash) =>
          if n in d.mapNodeState {
            d.OnCompactBlock(n, hash);
          }
        case HeadersFrom(n, blocks) =>
          if n in d.mapNodeState {
            var _ := d.FetchDirectly(n, blocks);
          }
        case Idle(n, blocks, windowEnd) =>
          if n in d.mapNodeState {
            var _ := d.Download(n, blocks, windowEnd);
          }
      }
    }
    if d.mapNodeState == map[] {
      assert Downloading(d.mapNodeState) == {} && Preferred(d.mapNodeState) == {};
      assert d.mapBlocksInFlight == map[];
    }
  }
}
