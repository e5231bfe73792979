/**
 * The region map as the server holds it: region objects that are shared between a list and an
 * index by id, and changed in place.
 */
module ClusterInstances {
  import opened ByteStrings
  import opened MvccKeys
  import opened Oracle
  import opened Regions

  class RegionInstance {
    var id: nat
    var startKey: Bytes
    /** None is the absent end key, which only validation tells apart from the empty one. */
    var endKey: Option<Bytes>
    var epoch: Epoch
    var peers: seq<Peer>
    var leader: nat

    constructor (id: nat, startKey: Bytes, endKey: Option<Bytes>)
      ensures View() == Region(id, startKey, End(), Epoch(0, 0), [], 0) && this.endKey == endKey
    {
      this.id, this.startKey, this.endKey, epoch, peers, leader := id, startKey, endKey, Epoch(0, 0), [], 0;
    }

    function End(): Bytes
      reads this
    {
      if endKey.Some? then endKey.value else []
    }

    function View(): Region
      reads this
    {
      Region(id, startKey, End(), epoch, peers, leader)
    }

    /** init: a new epoch, and one peer on the given store, which leads. */
    method Init(ids: IDAllocator, storeID: nat)
      modifies this, ids
      ensures HasLeader(View()) && ids.lastID == old(ids.lastID) + 3
      ensures View() == Initial(old(View()), old(ids.lastID), storeID)
      ensures id == old(id) && startKey == old(startKey) && End() == old(End())
      ensures epoch == Epoch(old(ids.lastID) + 1, old(ids.lastID) + 2)
      ensures leader == old(ids.lastID) + 3 && peers == [Peer(leader, storeID)]
    {
      var confVer := ids.AllocID();
      var version := ids.AllocID();
      epoch := Epoch(confVer, version);
      var peerID := ids.AllocID();
      peers := [Peer(peerID, storeID)];
      leader := peerID;
      assert peers[0].id == leader;
    }

    /** The region keeps the keys below the split key; a new region takes the rest, both under the next version. */
    method Halve(newID: nat, splitKey: Bytes, newPeerIDs: seq<nat>, newLeader: nat) returns (right: RegionInstance)
      requires |newPeerIDs| >= |peers|
      modifies this
      ensures fresh(right) && View() == Left(old(View()), splitKey)
      ensures right.View() == Right(old(View()), splitKey, newID, Renamed(old(peers), newPeerIDs), newLeader)
    {
      right := new RegionInstance(newID, splitKey, endKey);
      right.epoch := Epoch(epoch.confVer, epoch.version + 1);
      epoch := Epoch(epoch.confVer, epoch.version + 1);
      endKey := Some(splitKey);
      right.peers := CopyPeers(peers, newPeerIDs);
      right.leader := newLeader;
    }

    method LeaderPeer() returns (p: Option<Peer>)
      ensures p == LeaderOf(View())
    {
      var i := 0;
      while i < |peers|
        invariant 0 <= i <= |peers|
        invariant forall j :: 0 <= j < i ==> peers[j].id != leader
        invariant FindPeer(peers, leader) == FindPeer(peers[i..], leader)
      {
        if peers[i].id == leader { return Some(peers[i]); }
        assert peers[i..][1..] == peers[i + 1..];
        i := i + 1;
      }
      return None;
    }
  }

  function Initial(r: Region, lastID: nat, storeID: nat): Region {
    r.(epoch := Epoch(lastID + 1, lastID + 2), peers := [Peer(lastID + 3, storeID)], leader := lastID + 3)
  }

  function FindPeer(peers: seq<Peer>, id: nat): Option<Peer> {
    if peers == [] then None else if peers[0].id == id then Some(peers[0]) else FindPeer(peers[1..], id)
  }

  function LeaderOf(r: Region): Option<Peer> { FindPeer(r.peers, r.leader) }

  /** A leader among the peers is found, and is that peer. */
  lemma {:induction false} FindPeerExactly(peers: seq<Peer>, id: nat)
    ensures FindPeer(peers, id).Some? <==> exists i :: 0 <= i < |peers| && peers[i].id == id
    ensures FindPeer(peers, id).Some? ==> FindPeer(peers, id).value in peers && FindPeer(peers, id).value.id == id
  {
    if peers != [] {
      FindPeerExactly(peers[1..], id);
      assert forall i :: 1 <= i < |peers| ==> peers[i] == peers[1..][i - 1];
    }
  }

  function Views(regions: seq<RegionInstance>): (rs: seq<Region>)
    reads regions
    ensures |rs| == |regions| && forall i :: 0 <= i < |regions| ==> rs[i] == regions[i].View()
  {
    seq(|regions|, i requires 0 <= i < |regions| reads regions => regions[i].View())
  }

  ghost predicate DistinctObjects(regions: seq<RegionInstance>) {
    forall i, j :: 0 <= i < j < |regions| ==> regions[i] != regions[j]
  }

  /** validateRegion: accepts exactly the chained lists; an absent end key means the same as an empty one. */
  method ValidateRegion(regions: seq<RegionInstance>) returns (ok: bool)
    requires DistinctObjects(regions)
    modifies regions
    ensures ok <==> Chained(Views(regions))
    ensures Views(regions) == old(Views(regions))
    ensures forall r :: r in regions && old(r.endKey).Some? ==> r.endKey == old(r.endKey)
    ensures ok && |regions| > 0 ==> regions[0].endKey.Some?
  {
    var lastEndKey: Option<Bytes> := None;
    ghost var rs := Views(regions);
    var i := 0;
    while i < |regions|
      invariant 0 <= i <= |regions| && Views(regions) == rs
      invariant lastEndKey == if i == 0 then None else regions[i - 1].endKey
      invariant forall j :: 0 <= j < i ==> ChainedAt(rs, j)
      invariant forall r :: r in regions && old(r.endKey).Some? ==> r.endKey == old(r.endKey)
      invariant i > 0 ==> regions[0].endKey.Some?
    {
      var region := regions[i];
      assert region.View() == rs[i];
      if lastEndKey == None {
        if region.startKey != [] {
          assert !ChainedAt(rs, i);
          return false;
        }
        if region.endKey == None { region.endKey := Some([]); }
      } else if region.startKey != lastEndKey.value {
        assert !ChainedAt(rs, i);
        return false;
      }
      if region.End() != [] && region.startKey != [] && !Less(region.startKey, region.End()) {
        assert !ChainedAt(rs, i);
        return false;
      }
      lastEndKey := region.endKey;
      i := i + 1;
    }
    ok := lastEndKey == None || lastEndKey.value == [];
  }

  // ---- creating a cluster ----

  function Numbered(rs: seq<Region>, lastID: nat): seq<Region> {
    seq(|rs|, i requires 0 <= i < |rs| => rs[i].(id := lastID + 1 + i))
  }

  /** Regions take the stores in turn. */
  function StoreFor(stores: seq<nat>, i: nat): nat
    requires stores != []
  {
    stores[i % |stores|]
  }

  function Initialised(rs: seq<Region>, lastID: nat, stores: seq<nat>): seq<Region>
    requires stores != []
  {
    seq(|rs|, i requires 0 <= i < |rs| => Initial(rs[i], lastID + 3 * i, StoreFor(stores, i)))
  }

  /** The index by id holds exactly the listed regions; rs are the regions that the objects hold. */
  ghost predicate Indexed(regions: seq<RegionInstance>, rs: seq<Region>, regionByID: map<nat, RegionInstance>) {
    && |rs| == |regions|
    && (forall i :: 0 <= i < |rs| ==> rs[i].id in regionByID && regionByID[rs[i].id] == regions[i])
    && (forall id :: id in regionByID ==> exists i :: 0 <= i < |rs| && rs[i].id == id)
  }

  /** Each region gets the next id and is entered under it; rs is what the regions held. */
  method AssignIDs(regions: seq<RegionInstance>, ids: IDAllocator, ghost rs: seq<Region>)
    returns (regionByID: map<nat, RegionInstance>)
    requires DistinctObjects(regions) && rs == Views(regions)
    modifies regions, ids
    ensures Views(regions) == Numbered(rs, old(ids.lastID)) && ids.lastID == old(ids.lastID) + |rs|
    ensures Indexed(regions, Numbered(rs, old(ids.lastID)), regionByID)
  {
    ghost var base := ids.lastID;
    regionByID := map[];
    for i := 0 to |regions|
      invariant ids.lastID == base + i
      invariant forall j :: 0 <= j < i ==> regions[j].View() == rs[j].(id := base + 1 + j)
      invariant forall j :: i <= j < |regions| ==> regions[j].View() == rs[j]
      invariant forall j :: 0 <= j < i ==> regions[j].id in regionByID && regionByID[regions[j].id] == regions[j]
      invariant forall id :: id in regionByID ==> base < id <= base + i
    {
      var id := ids.AllocID();
      regions[i].id := id;
      regionByID := regionByID[id := regions[i]];
    }
    ghost var numbered := Numbered(rs, base);
    assert Views(regions) == numbered;
    forall id | id in regionByID ensures exists i :: 0 <= i < |numbered| && numbered[i].id == id {
      assert numbered[id - base - 1].id == id;
    }
  }

  lemma SameIDsStayIndexed(regions: seq<RegionInstance>, rs: seq<Region>, rs': seq<Region>,
                           regionByID: map<nat, RegionInstance>)
    requires Indexed(regions, rs, regionByID) && |rs'| == |rs| && forall i :: 0 <= i < |rs| ==> rs'[i].id == rs[i].id
    ensures Indexed(regions, rs', regionByID)
  {
    forall id | id in regionByID ensures exists i :: 0 <= i < |rs'| && rs'[i].id == id {
      var i :| 0 <= i < |rs| && rs[i].id == id;
      assert rs'[i].id == id;
    }
  }

  /** Each region gets an epoch and a peer on the next store. */
  method InitRegions(regions: seq<RegionInstance>, ids: IDAllocator, stores: seq<nat>, ghost rs: seq<Region>)
    requires DistinctObjects(regions) && stores != [] && rs == Views(regions)
    modifies regions, ids
    ensures Views(regions) == Initialised(rs, old(ids.lastID), stores)
    ensures ids.lastID == old(ids.lastID) + 3 * |rs|
  {
    ghost var base := ids.lastID;
    for i := 0 to |regions|
      invariant ids.lastID == base + 3 * i
      invariant forall j :: 0 <= j < i ==> regions[j].View() == Initial(rs[j], base + 3 * j, StoreFor(stores, j))
      invariant forall j :: i <= j < |regions| ==> regions[j].View() == rs[j]
    {
      regions[i].Init(ids, StoreFor(stores, i));
    }
  }

  lemma InitialisedStaysIndexed(regions: seq<RegionInstance>, rs: seq<Region>, regionByID: map<nat, RegionInstance>,
                                lastID: nat, stores: seq<nat>)
    requires stores != [] && Indexed(regions, rs, regionByID)
    ensures Indexed(regions, Initialised(rs, lastID, stores), regionByID)
  {
    SameIDsStayIndexed(regions, rs, Initialised(rs, lastID, stores), regionByID);
  }

  /**
   * A cluster made of an accepted list covers every key, and is good exactly when only its last region
   * is unbounded.
   */
  lemma CreatedIsGood(rs: seq<Region>, c: Cluster, a: nat, b: nat, stores: seq<nat>)
    requires Chained(rs) && rs != [] && stores != [] && a + |rs| <= c.lastID &&
             c.regions == Initialised(Numbered(rs, a), b, stores)
    ensures SameRanges(c.regions, rs) && Covers(c.regions)
    ensures Good(c) <==> forall n :: 0 <= n < |c.regions| - 1 ==> c.regions[n].end != []
  {
    var made := c.regions;
    assert forall i, key :: 0 <= i < |rs| ==> (Contains(made[i], key) <==> Contains(rs[i], key));
    AcceptedCovers(rs);
    AcceptedDisjointExactly(rs);
    forall key ensures Covered(made, key) {
      assert Covered(rs, key);
      var i :| 0 <= i < |rs| && Contains(rs[i], key);
      assert Contains(made[i], key);
    }
    assert Disjoint(made) <==> Disjoint(rs);
    forall i | 0 <= i < |made| ensures HasLeader(made[i]) { assert made[i].peers[0].id == made[i].leader; }
  }

  /**
   * The i-th region of a new cluster has the i-th id and range and one peer, its leader, on the store
   * whose turn it is; epochs and peers take ids apart from those of the other regions.
   */
  lemma CreatedExactly(rs: seq<Region>, a: nat, b: nat, stores: seq<nat>, i: nat)
    requires i < |rs| && stores != []
    ensures var made := Initialised(Numbered(rs, a), b, stores);
            var r := made[i];
            && r.id == a + 1 + i && r.start == rs[i].start && r.end == rs[i].end
            && r.peers == [Peer(r.leader, stores[i % |stores|])]
            && b < r.epoch.confVer < r.epoch.version < r.leader <= b + 3 * |rs|
            && forall j :: 0 <= j < i ==> made[j].leader < r.epoch.confVer
  {
  }

  lemma SplitKeepsIndexed(regions: seq<RegionInstance>, rs: seq<Region>, regionByID: map<nat, RegionInstance>, i: nat,
                          key: Bytes, id: nat, peers: seq<Peer>, leader: nat, right: RegionInstance)
    requires Indexed(regions, rs, regionByID) && i < |rs| && id !in regionByID
    ensures Indexed(regions + [right], SplitList(rs, i, key, id, peers, leader), regionByID[id := right])
  {
    var rs', index := SplitList(rs, i, key, id, peers, leader), regionByID[id := right];
    assert forall j :: 0 <= j < |rs| ==> rs'[j].id == rs[j].id;
    forall n | n in index ensures exists j :: 0 <= j < |rs'| && rs'[j].id == n {
      if n == id {
        assert rs'[|rs|].id == n;
      } else {
        var j :| 0 <= j < |rs| && rs[j].id == n;
        assert rs'[j].id == n;
      }
    }
  }

  /** Halving a listed region changes that region in the list, and the new one can be appended. */
  method HalveListed(regions: seq<RegionInstance>, ghost i: nat, origin: RegionInstance,
                     newID: nat, splitKey: Bytes, newPeerIDs: seq<nat>, newLeader: nat)
    returns (right: RegionInstance)
    requires DistinctObjects(regions) && i < |regions| && regions[i] == origin
    requires |newPeerIDs| >= |origin.peers|
    modifies origin
    ensures fresh(right) && DistinctObjects(regions + [right]) && right.id == newID && origin.id == old(origin.id)
    ensures Views(regions + [right]) ==
            SplitList(old(Views(regions)), i, splitKey, newID, Renamed(old(origin.peers), newPeerIDs), newLeader)
    ensures origin.View() == Views(regions + [right])[i] && right.View() == Views(regions + [right])[|regions|]
  {
    ghost var rs := Views(regions);
    right := origin.Halve(newID, splitKey, newPeerIDs, newLeader);
    assert forall j :: 0 <= j < |regions| && j != i ==> regions[j].View() == rs[j];
  }

  // ---- admitting requests ----

  datatype Context = Context(regionID: nat, peerStoreID: Option<nat>, epoch: Option<Epoch>)

  datatype Admission =
    | Admitted(start: Bytes, end: Bytes)
    | StoreNotMatch
    | RegionNotFound
    | NoLeader
    | NotLeader(leader: Peer)
    | EpochNotMatch(current: seq<Region>)

  /** The last peer on a store. */
  function LastOn(peers: seq<Peer>, storeID: nat): Option<Peer> {
    if peers == [] then None
    else if peers[|peers| - 1].storeID == storeID then Some(peers[|peers| - 1])
    else LastOn(peers[..|peers| - 1], storeID)
  }

  function LastWithID(peers: seq<Peer>, id: nat): Option<Peer> {
    if peers == [] then None
    else if peers[|peers| - 1].id == id then Some(peers[|peers| - 1])
    else LastWithID(peers[..|peers| - 1], id)
  }

  lemma {:induction false} LastWithIDFound(peers: seq<Peer>, i: nat)
    requires i < |peers|
    ensures LastWithID(peers, peers[i].id).Some?
    ensures LastWithID(peers, peers[i].id).value.id == peers[i].id && LastWithID(peers, peers[i].id).value in peers
  {
    if peers[|peers| - 1].id != peers[i].id { LastWithIDFound(peers[..|peers| - 1], i); }
  }

  lemma LeaderFound(r: Region)
    requires HasLeader(r)
    ensures LeaderOf(r).Some? && LeaderOf(r).value in r.peers && LeaderOf(r).value.id == r.leader
    ensures LastWithID(r.peers, r.leader).Some? && LastWithID(r.peers, r.leader).value in r.peers &&
            LastWithID(r.peers, r.leader).value.id == r.leader
  {
    FindPeerExactly(r.peers, r.leader);
    var i :| 0 <= i < |r.peers| && r.peers[i].id == r.leader;
    LastWithIDFound(r.peers, i);
  }

  /** The last peer on a store and the last with a given id, in one pass. */
  method FindPeers(peers: seq<Peer>, storeID: nat, leaderID: nat)
    returns (storePeer: Option<Peer>, leaderPeer: Option<Peer>)
    ensures storePeer == LastOn(peers, storeID) && leaderPeer == LastWithID(peers, leaderID)
  {
    storePeer, leaderPeer := None, None;
    var i := 0;
    while i < |peers|
      invariant 0 <= i <= |peers|
      invariant storePeer == LastOn(peers[..i], storeID) && leaderPeer == LastWithID(peers[..i], leaderID)
    {
      assert peers[..i + 1][..i] == peers[..i];
      if peers[i].storeID == storeID { storePeer := Some(peers[i]); }
      if peers[i].id == leaderID { leaderPeer := Some(peers[i]); }
      i := i + 1;
    }
    assert peers[..i] == peers;
  }

  /** A listed region has a leader that is found, and is the only one with its id. */
  lemma TheRegion(c: Cluster, r: Region)
    requires Good(c) && r in c.regions
    ensures HasLeader(r) && LeaderOf(r).Some? && LeaderOf(r).value.id == r.leader
    ensures forall other :: other in c.regions && other.id == r.id ==> other == r
  {
    var i :| 0 <= i < |c.regions| && c.regions[i] == r;
    assert HasLeader(c.regions[i]);
    LeaderFound(r);
  }

  /** The i-th peer is the region's peer on the store: the last one there. */
  predicate PeerOn(r: Region, storeID: nat, i: int) {
    && 0 <= i < |r.peers| && r.peers[i].storeID == storeID
    && forall j :: i < j < |r.peers| ==> r.peers[j].storeID != storeID
  }

  ghost predicate OnStore(r: Region, storeID: nat) {
    exists i :: 0 <= i < |r.peers| && r.peers[i].storeID == storeID
  }

  /** The region's peer on the store leads. */
  ghost predicate LedBy(r: Region, storeID: nat) {
    exists i :: PeerOn(r, storeID, i) && r.peers[i].id == r.leader
  }

  lemma {:induction false} LastOnExactly(peers: seq<Peer>, storeID: nat)
    ensures LastOn(peers, storeID).None? <==> forall i :: 0 <= i < |peers| ==> peers[i].storeID != storeID
    ensures LastOn(peers, storeID).Some? ==>
            exists i :: 0 <= i < |peers| && LastOn(peers, storeID) == Some(peers[i]) && peers[i].storeID == storeID &&
                        forall j :: i < j < |peers| ==> peers[j].storeID != storeID
  {
    if peers != [] && peers[|peers| - 1].storeID != storeID { LastOnExactly(peers[..|peers| - 1], storeID); }
  }

  lemma PeerHere(r: Region, storeID: nat)
    ensures LastOn(r.peers, storeID).Some? <==> OnStore(r, storeID)
    ensures LedBy(r, storeID) <==> LastOn(r.peers, storeID).Some? && LastOn(r.peers, storeID).value.id == r.leader
  {
    LastOnExactly(r.peers, storeID);
    if LastOn(r.peers, storeID).Some? {
      var i :| 0 <= i < |r.peers| && LastOn(r.peers, storeID) == Some(r.peers[i]) && r.peers[i].storeID == storeID &&
               forall j :: i < j < |r.peers| ==> r.peers[j].storeID != storeID;
      assert PeerOn(r, storeID, i);
    }
  }

  ghost predicate WrongStore(storeID: nat, ctx: Context) {
    ctx.peerStoreID.Some? && ctx.peerStoreID.value != storeID
  }

  /** The region is the request's, at the request's epoch, and is led by its peer on the store. */
  ghost predicate Admits(r: Region, storeID: nat, ctx: Context) {
    !WrongStore(storeID, ctx) && r.id == ctx.regionID && ctx.epoch == Some(r.epoch) && LedBy(r, storeID)
  }

  /** The verdict on a request as far as its own region decides it. */
  ghost predicate Judged(region: Region, storeID: nat, epoch: Option<Epoch>, r: Admission) {
    match LastOn(region.peers, storeID)
    case None => r == RegionNotFound
    case Some(peer) =>
      if peer.id != region.leader then r.NotLeader? && r.leader in region.peers && r.leader.id == region.leader
      else if epoch != Some(region.epoch) then r.EpochNotMatch? && |r.current| > 0 && r.current[0] == region
      else r == Admitted(region.start, region.end)
  }

  /** checkRequestContext after the region is found; the neighbour of an epoch mismatch is added later. */
  method JudgeRegion(region: Region, leaderID: nat, storeID: nat, epoch: Option<Epoch>) returns (r: Admission)
    requires HasLeader(region) && leaderID == region.leader
    ensures Judged(region, storeID, epoch, r)
  {
    LeaderFound(region);
    var storePeer, leaderPeer := FindPeers(region.peers, storeID, leaderID);
    if storePeer.None? { return RegionNotFound; }
    if leaderPeer.None? { return NoLeader; }
    if storePeer.value.id != leaderPeer.value.id { return NotLeader(leaderPeer.value); }
    if epoch != Some(region.epoch) { return EpochNotMatch([region]); }
    return Admitted(region.start, region.end);
  }

  /** What a request is told about its region, and that it is told nothing else: each answer has its exact case. */
  ghost predicate Answers(rs: seq<Region>, storeID: nat, ctx: Context, r: Admission) {
    && (r.StoreNotMatch? <==> WrongStore(storeID, ctx))
    && (r.RegionNotFound? <==>
          !WrongStore(storeID, ctx) && forall region :: region in rs && region.id == ctx.regionID ==>
              !OnStore(region, storeID))
    && (r.NotLeader? <==>
          !WrongStore(storeID, ctx) &&
          exists region :: region in rs && region.id == ctx.regionID && OnStore(region, storeID) &&
              !LedBy(region, storeID))
    && (r.EpochNotMatch? <==>
          !WrongStore(storeID, ctx) &&
          exists region :: region in rs && region.id == ctx.regionID && LedBy(region, storeID) &&
              ctx.epoch != Some(region.epoch))
    && (r.Admitted? <==> exists region :: region in rs && Admits(region, storeID, ctx))
    && !r.NoLeader?
    && forall region :: region in rs && region.id == ctx.regionID ==> Tells(rs, region, r)
  }

  /**
   * The content of an answer: the range to act on, the leader to ask, or, for a stale request, the
   * region as it is now and the one that holds its end key.
   */
  ghost predicate Tells(rs: seq<Region>, region: Region, r: Admission) {
    && (r.Admitted? ==> r == Admitted(region.start, region.end))
    && (r.NotLeader? ==> r.leader in region.peers && r.leader.id == region.leader)
    && (r.EpochNotMatch? ==>
          |r.current| == 2 && r.current[0] == region && r.current[1] in rs && Contains(r.current[1], region.end))
  }

  lemma JudgementAnswers(c: Cluster, region: Region, storeID: nat, ctx: Context, r: Admission)
    requires Good(c) && region in c.regions && region.id == ctx.regionID && !WrongStore(storeID, ctx)
    requires Judged(region, storeID, ctx.epoch, r)
    requires r.EpochNotMatch? ==> |r.current| == 2 && r.current[1] in c.regions && Contains(r.current[1], region.end)
    ensures Answers(c.regions, storeID, ctx, r)
  {
    TheRegion(c, region);
    PeerHere(region, storeID);
  }

  /** A request made for a region as it once was is admitted only while that region is still the same. */
  lemma AdmittedMeansUnchanged(c: Cluster, events: seq<Event>, r: Region, r': Region, storeID: nat, ctx: Context)
    requires Good(c) && r in c.regions && ctx.regionID == r.id && ctx.epoch == Some(r.epoch)
    requires r' in AfterAll(c, events).regions && Admits(r', storeID, ctx)
    ensures r' == r
  {
    EpochFences(c, events, r, r');
  }

  ghost predicate SameRanges(rs: seq<Region>, rs': seq<Region>) {
    |rs| == |rs'| && forall i :: 0 <= i < |rs| ==> rs[i].start == rs'[i].start && rs[i].end == rs'[i].end
  }

  /** Peers on the same stores under new ids. */
  function Renamed(peers: seq<Peer>, ids: seq<nat>): seq<Peer>
    requires |peers| <= |ids|
  {
    seq(|peers|, n requires 0 <= n < |peers| => Peer(ids[n], peers[n].storeID))
  }

  method CopyPeers(peers: seq<Peer>, ids: seq<nat>) returns (copies: seq<Peer>)
    requires |peers| <= |ids|
    ensures copies == Renamed(peers, ids)
  {
    copies := [];
    for n := 0 to |peers|
      invariant |copies| == n && forall i :: 0 <= i < n ==> copies[i] == Peer(ids[i], peers[i].storeID)
    {
      copies := copies + [Peer(ids[n], peers[n].storeID)];
    }
  }

  lemma SplitIsSplitAt(c: Cluster, i: nat, key: Bytes, id: nat, peerIDs: seq<nat>, rs: seq<Region>)
    requires i < |c.regions| && c.regions[i].peers != [] && id == c.lastID + 1 &&
             peerIDs == Successive(id + 1, |c.regions[i].peers|)
    requires rs == SplitList(c.regions, i, key, id, Renamed(c.regions[i].peers, peerIDs), peerIDs[0])
    ensures SplitAt(c, i, key) == Cluster(rs, id + |peerIDs|)
  {
    assert Renamed(c.regions[i].peers, peerIDs) == NewPeers(c.regions[i].peers, id + 1);
  }

  class ClusterInstance {
    var regions: seq<RegionInstance>
    var regionByID: map<nat, RegionInstance>
    const ids: IDAllocator
    /** What the listed objects hold. */
    ghost var view: seq<Region>

    constructor (regions: seq<RegionInstance>, regionByID: map<nat, RegionInstance>, ids: IDAllocator)
      ensures this.regions == regions && this.regionByID == regionByID && this.ids == ids && view == Views(regions)
    {
      this.regions, this.regionByID, this.ids, view := regions, regionByID, ids, Views(regions);
    }

    /** The list, the index and the objects agree. */
    ghost predicate Wired()
      reads this, regions
    {
      view == Views(regions) && DistinctObjects(regions) && Indexed(regions, view, regionByID)
    }

    ghost function Value(): Cluster
      reads this, ids
    {
      Cluster(view, ids.lastID)
    }

    ghost predicate Valid()
      reads this, regions, ids
    {
      Wired() && Good(Value())
    }

    method GetRegionByKey(key: Bytes) returns (found: Option<(Region, Option<Peer>)>)
      requires Wired()
      ensures var i := Route(view, key);
              found == if i < |view| then Some((view[i], LeaderOf(view[i]))) else None
    {
      var i := 0;
      while i < |regions|
        invariant 0 <= i <= |regions|
        invariant forall j :: 0 <= j < i ==> !Contains(view[j], key)
      {
        var r := regions[i];
        assert r.View() == view[i];
        if InRange(r.startKey, r.End(), key) {
          var leader := r.LeaderPeer();
          return Some((r.View(), leader));
        }
        i := i + 1;
      }
      return None;
    }

    /** Searching the list by id finds what the index holds. */
    method GetRegionByID(id: nat) returns (found: Option<(Region, Option<Peer>)>)
      requires Wired()
      ensures found == if id in regionByID then Some((regionByID[id].View(), LeaderOf(regionByID[id].View()))) else None
      ensures found.Some? ==> found.value.0 in view && found.value.0.id == id
      ensures found.None? ==> forall r :: r in view ==> r.id != id
    {
      var i := 0;
      while i < |regions|
        invariant 0 <= i <= |regions|
        invariant forall j :: 0 <= j < i ==> view[j].id != id
      {
        assert regions[i].View() == view[i];
        if regions[i].id == id {
          var leader := regions[i].LeaderPeer();
          return Some((regions[i].View(), leader));
        }
        i := i + 1;
      }
      return None;
    }

    /** SplitRaw; rs is what the list held, and i the place of the origin region in it. */
    method SplitRaw(oldRegionID: nat, newRegionID: nat, splitKey: Bytes, newPeerIDs: seq<nat>, newLeaderPeerID: nat,
                    ghost rs: seq<Region>, ghost i: nat)
      returns (halves: Option<(Region, Region)>)
      requires Wired() && rs == view
      requires oldRegionID in regionByID ==> i < |rs| && rs[i].id == oldRegionID && |newPeerIDs| >= |rs[i].peers|
      modifies this, regions
      ensures halves.None? <==> oldRegionID !in old(regionByID)
      ensures halves.None? ==> view == rs && Wired()
      ensures halves.Some? ==>
              && i < |rs| && |newPeerIDs| >= |rs[i].peers|
              && view == SplitList(rs, i, splitKey, newRegionID, Renamed(rs[i].peers, newPeerIDs), newLeaderPeerID)
              && halves == Some((view[i], view[|rs|]))
      ensures newRegionID !in old(regionByID) ==> Wired()
      ensures forall r :: r in regions ==> r in old(regions) || fresh(r)
    {
      if oldRegionID !in regionByID { return None; }
      var origin := regionByID[oldRegionID];
      assert rs[i] == origin.View();
      var right := HalveListed(regions, i, origin, newRegionID, splitKey, newPeerIDs, newLeaderPeerID);
      view := SplitList(rs, i, splitKey, newRegionID, Renamed(rs[i].peers, newPeerIDs), newLeaderPeerID);
      if newRegionID !in regionByID {
        SplitKeepsIndexed(regions, rs, regionByID, i, splitKey, newRegionID, Renamed(rs[i].peers, newPeerIDs),
            newLeaderPeerID, right);
      }
      regionByID := regionByID[newRegionID := right];
      regions := regions + [right];
      halves := Some((origin.View(), right.View()));
    }

    /** The ids for the new region and its peers are allocated, and the region found is split. */
    method SplitFound(region: Region, key: Bytes, ghost c: Cluster, ghost i: nat)
      returns (halves: Option<(Region, Region)>)
      requires Wired() && c == Value() && DistinctIDs(c) && i < |view| && view[i] == region && region.peers != []
      modifies this, regions, ids
      ensures Wired() && Value() == SplitAt(c, i, key)
      ensures halves == Some((view[i], view[|c.regions|]))
    {
      assert regionByID[region.id].peers == region.peers by { assert regions[i].View() == region; }
      var newRegionID := ids.AllocID();
      var newPeerIDs := ids.AllocIDs(|region.peers|);
      assert newRegionID !in regionByID by { assert forall j :: 0 <= j < |view| ==> view[j].id <= c.lastID; }
      halves := SplitRaw(region.id, newRegionID, key, newPeerIDs, newPeerIDs[0], c.regions, i);
      SplitIsSplitAt(c, i, key, newRegionID, newPeerIDs, view);
    }

    method SplitRouted(rawKey: Bytes) returns (halves: Option<(Region, Region)>)
      requires Wired() && DistinctIDs(Value())
      requires var i := Route(view, NewMvccKey(rawKey)); i < |view| && view[i].peers != []
      modifies this, regions, ids
      ensures Wired() && Value() == Regions.SplitRegion(old(Value()), rawKey)
      ensures var key := NewMvccKey(rawKey);
              var i := Route(old(view), key);
              && (halves == None <==> old(view)[i].start == key)
              && (halves.Some? ==> |view| == old(|view|) + 1 && halves.value == (view[i], view[old(|view|)]))
    {
      ghost var c := Value();
      var key := NewMvccKey(rawKey);
      var found := GetRegionByKey(key);
      var region := found.value.0;
      if region.start == key { return None; }
      ghost var i := Route(view, key);
      assert regions[i].View() == region;
      halves := SplitFound(region, key, c, i);
    }

    /** SplitRegion as one step: the region of the key is split there, unless it starts there. */
    method SplitRegion(rawKey: Bytes) returns (halves: Option<(Region, Region)>)
      requires Valid()
      modifies this, regions, ids
      ensures Valid() && Value() == Regions.SplitRegion(old(Value()), rawKey)
      ensures halves == None <==> StartsAt(old(view), NewMvccKey(rawKey))
      ensures halves.Some? ==>
              var i := Route(old(view), NewMvccKey(rawKey));
              i < old(|view|) && |view| == old(|view|) + 1 && halves.value == (view[i], view[old(|view|)])
    {
      SplitKeepsGood(Value(), rawKey);
      RouteStartsAt(view, NewMvccKey(rawKey));
      assert HasLeader(view[Route(view, NewMvccKey(rawKey))]);
      halves := SplitRouted(rawKey);
    }

    /** The region and the one that holds its end key. */
    method WithNeighbour(region: Region) returns (current: seq<Region>)
      requires Wired() && Covers(view)
      ensures |current| == 2 && current[0] == region && current[1] in view && Contains(current[1], region.end)
    {
      assert Covered(view, region.end);
      var next := GetRegionByKey(region.end);
      current := [region];
      if next.Some? { current := current + [next.value.0]; }
    }

    /** checkRequestContext on the store with the given id. */
    method CheckRequestContext(storeID: nat, ctx: Context) returns (r: Admission)
      requires Valid()
      ensures Answers(view, storeID, ctx, r)
    {
      if ctx.peerStoreID.Some? && ctx.peerStoreID.value != storeID { return StoreNotMatch; }
      var found := GetRegionByID(ctx.regionID);
      if found.None? { return RegionNotFound; }
      var region, leader := found.value.0, found.value.1;
      TheRegion(Value(), region);
      r := JudgeRegion(region, leader.value.id, storeID, ctx.epoch);
      if r.EpochNotMatch? {
        var current := WithNeighbour(region);
        r := EpochNotMatch(current);
      }
      JudgementAnswers(Value(), region, storeID, ctx, r);
    }
  }

  /** Ids for the cluster, the regions, the stores and the member, in this order; a is the cluster's. */
  method AssignAll(ids: IDAllocator, regions: seq<RegionInstance>, stores: nat, ghost rs: seq<Region>)
    returns (regionByID: map<nat, RegionInstance>, storeIDs: seq<nat>, ghost a: nat)
    requires DistinctObjects(regions) && rs == Views(regions) && stores > 0
    modifies ids, regions
    ensures a == old(ids.lastID) + 1 && storeIDs == Successive(a + |rs| + 1, stores)
    ensures ids.lastID == a + |rs| + stores + 1
    ensures Views(regions) == Numbered(rs, a) && Indexed(regions, Numbered(rs, a), regionByID)
  {
    var clusterID := ids.AllocID();
    a := ids.lastID;
    regionByID := AssignIDs(regions, ids, rs);
    storeIDs := ids.AllocIDs(stores);
    var memberID := ids.AllocID();
  }

  /**
   * The cluster of a list of regions: ids for the cluster, the regions, the stores and the member, then
   * an epoch and a peer for each region.
   */
  method Assemble(ids: IDAllocator, regions: seq<RegionInstance>, stores: nat, ghost rs: seq<Region>)
    returns (c: ClusterInstance, ghost a: nat, ghost b: nat, storeIDs: seq<nat>)
    requires DistinctObjects(regions) && rs == Views(regions) && stores > 0
    modifies ids, regions
    ensures c.Wired() && c.ids == ids && a == old(ids.lastID) + 1 && b == a + |rs| + stores + 1
    ensures storeIDs == Successive(a + |rs| + 1, stores) && ids.lastID == b + 3 * |rs|
    ensures c.view == Initialised(Numbered(rs, a), b, storeIDs)
  {
    var regionByID, made, last := AssignAll(ids, regions, stores, rs);
    storeIDs, a, b := made, last, ids.lastID;
    InitRegions(regions, ids, storeIDs, Numbered(rs, a));
    InitialisedStaysIndexed(regions, Numbered(rs, a), regionByID, b, storeIDs);
    c := new ClusterInstance(regions, regionByID, ids);
  }

  /** The i-th region has the i-th id after the cluster's, and one peer, its leader, on the store whose turn it is. */
  ghost predicate TakeTurns(rs: seq<Region>, lastID: nat, storeIDs: seq<nat>) {
    storeIDs != [] &&
    forall i :: 0 <= i < |rs| ==>
      rs[i].id == lastID + 2 + i && rs[i].peers == [Peer(rs[i].leader, storeIDs[i % |storeIDs|])]
  }

  lemma CreatedTakeTurns(rs: seq<Region>, a: nat, b: nat, stores: seq<nat>)
    requires a > 0 && stores != []
    ensures TakeTurns(Initialised(Numbered(rs, a), b, stores), a - 1, stores)
  {
    forall i | 0 <= i < |rs|
      ensures var r := Initialised(Numbered(rs, a), b, stores)[i];
              r.id == a + 1 + i && r.peers == [Peer(r.leader, stores[i % |stores|])]
    {
      CreatedExactly(rs, a, b, stores, i);
    }
  }

  /** What is made of an accepted list. */
  ghost predicate MadeOf(c: Cluster, rs: seq<Region>, lastID: nat, storeIDs: seq<nat>) {
    && SameRanges(c.regions, rs) && Covers(c.regions) && TakeTurns(c.regions, lastID, storeIDs)
    && (Good(c) <==> forall n :: 0 <= n < |c.regions| - 1 ==> c.regions[n].end != [])
  }

  method MakeCluster(ids: IDAllocator, regions: seq<RegionInstance>, stores: nat, ghost rs: seq<Region>)
    returns (c: ClusterInstance, storeIDs: seq<nat>)
    requires DistinctObjects(regions) && rs == Views(regions) && rs != [] && Chained(rs) && stores > 0
    modifies ids, regions
    ensures c.Wired() && c.ids == ids && |storeIDs| == stores && MadeOf(c.Value(), rs, old(ids.lastID), storeIDs)
  {
    var cluster, a, b, made := Assemble(ids, regions, stores, rs);
    c, storeIDs := cluster, made;
    CreatedIsGood(rs, c.Value(), a, b, storeIDs);
    CreatedTakeTurns(rs, a, b, storeIDs);
  }

  /** The region that a cluster gets when none is given. */
  function Whole(): Region { Region(0, [], [], Epoch(0, 0), [], 0) }

  /** A list that is not empty, if validation accepts it, becomes a cluster. */
  method CreateFrom(ids: IDAllocator, regions: seq<RegionInstance>, stores: nat, ghost rs: seq<Region>)
    returns (cluster: Option<ClusterInstance>, storeIDs: seq<nat>)
    requires DistinctObjects(regions) && rs == Views(regions) && rs != [] && stores > 0
    modifies ids, regions
    ensures cluster.Some? <==> Chained(rs)
    ensures cluster.Some? ==>
            && cluster.value.Wired() && cluster.value.ids == ids && |storeIDs| == stores
            && MadeOf(cluster.value.Value(), rs, old(ids.lastID), storeIDs)
  {
    var ok := ValidateRegion(regions);
    if !ok { return None, []; }
    var c;
    c, storeIDs := MakeCluster(ids, regions, stores, rs);
    cluster := Some(c);
  }

  /**
   * doCreateCluster, without the network: a list that validation accepts becomes a cluster, the empty
   * one with a single region, on the given number of stores or, if none is given, on one.
   */
  method CreateCluster(ids: IDAllocator, given: seq<RegionInstance>, stores: nat)
    returns (cluster: Option<ClusterInstance>, storeIDs: seq<nat>)
    requires DistinctObjects(given)
    modifies ids, given
    ensures cluster.Some? <==> Chained(old(Views(given)))
    ensures cluster.Some? ==>
            var rs := if given == [] then [Whole()] else old(Views(given));
            && cluster.value.Wired() && cluster.value.ids == ids
            && |storeIDs| == (if stores == 0 then 1 else stores)
            && MadeOf(cluster.value.Value(), rs, old(ids.lastID), storeIDs)
  {
    var n := if stores == 0 then 1 else stores;
    if given == [] {
      var all := new RegionInstance(0, [], Some([]));
      assert Views([all]) == [Whole()] && Chained([Whole()]);
      cluster, storeIDs := CreateFrom(ids, [all], n, [Whole()]);
    } else {
      cluster, storeIDs := CreateFrom(ids, given, n, Views(given));
    }
  }
}
