/** The region map as values: validation, routing, splitting, and what every run of splits keeps. */
module Regions {
  import opened ByteStrings
  import opened Entries
  import opened MvccStore
  import opened MvccKeys

  datatype Peer = Peer(id: nat, storeID: nat)

  datatype Epoch = Epoch(confVer: nat, version: nat)

  datatype Region = Region(id: nat, start: Bytes, end: Bytes, epoch: Epoch, peers: seq<Peer>, leader: nat)

  predicate Contains(r: Region, key: Bytes) {
    InRange(r.start, r.end, key)
  }

  // ---- what a list of regions covers ----

  ghost predicate Covered(rs: seq<Region>, key: Bytes) {
    exists i :: 0 <= i < |rs| && Contains(rs[i], key)
  }

  ghost predicate Covers(rs: seq<Region>) {
    forall key :: Covered(rs, key)
  }

  ghost predicate Disjoint(rs: seq<Region>) {
    forall i, j, key :: 0 <= i < j < |rs| ==> !(Contains(rs[i], key) && Contains(rs[j], key))
  }

  ghost predicate Partition(rs: seq<Region>) { Covers(rs) && Disjoint(rs) }

  /** Each region starts where the previous one ends, the first and the last are unbounded outwards. */
  predicate Chained(rs: seq<Region>) {
    && (forall i :: 0 <= i < |rs| ==> ChainedAt(rs, i))
    && (rs != [] ==> rs[|rs| - 1].end == [])
  }

  predicate ChainedAt(rs: seq<Region>, i: nat)
    requires i < |rs|
  {
    && rs[i].start == (if i == 0 then [] else rs[i - 1].end)
    && (rs[i].end != [] && rs[i].start != [] ==> Less(rs[i].start, rs[i].end))
  }

  lemma {:induction false} CoveredFrom(rs: seq<Region>, i: nat, key: Bytes) returns (j: nat)
    requires Chained(rs) && i < |rs| && AtMost(rs[i].start, key)
    ensures i <= j < |rs| && Contains(rs[j], key)
    decreases |rs| - i
  {
    if Contains(rs[i], key) {
      j := i;
    } else {
      LessTrichotomy(key, rs[i].end);
      assert ChainedAt(rs, i + 1);
      j := CoveredFrom(rs, i + 1, key);
    }
  }

  /** Every accepted list of regions but the empty one covers every key. */
  lemma AcceptedCovers(rs: seq<Region>)
    requires Chained(rs) && rs != []
    ensures Covers(rs)
  {
    forall key ensures Covered(rs, key) {
      assert ChainedAt(rs, 0);
      var j := CoveredFrom(rs, 0, key);
    }
  }

  lemma {:induction false} EndsAscend(rs: seq<Region>, i: nat, j: nat)
    requires Chained(rs) && i < j < |rs| && forall n :: 0 <= n < |rs| - 1 ==> rs[n].end != []
    ensures AtMost(rs[i].end, rs[j].start)
    decreases j
  {
    assert ChainedAt(rs, j);
    if i < j - 1 {
      EndsAscend(rs, i, j - 1);
      assert ChainedAt(rs, j - 1);
      var a, b, c := rs[i].end, rs[j - 1].start, rs[j].start;
      assert b != [];
      if a != b { LessTransitive(a, b, c); }
    }
  }

  /** The regions of an accepted list are disjoint exactly when only the last one is unbounded. */
  lemma AcceptedDisjointExactly(rs: seq<Region>)
    requires Chained(rs)
    ensures Disjoint(rs) <==> forall n :: 0 <= n < |rs| - 1 ==> rs[n].end != []
  {
    if n :| 0 <= n < |rs| - 1 && rs[n].end == [] {
      assert ChainedAt(rs, 0) && ChainedAt(rs, n + 1);
      assert Contains(rs[0], []) && Contains(rs[n + 1], []);
    } else {
      forall i, j, key | 0 <= i < j < |rs| ensures !(Contains(rs[i], key) && Contains(rs[j], key)) {
        EndsAscend(rs, i, j);
        Ordered(key, rs[i].end, rs[j].start);
      }
    }
  }

  lemma Ordered(key: Bytes, end: Bytes, start: Bytes)
    requires AtMost(end, start)
    ensures !(Less(key, end) && AtMost(start, key))
  {
    LessIrreflexive(key);
    if Less(key, end) && AtMost(start, key) {
      if end != start { LessTransitive(key, end, start); }
      if start != key { LessTransitive(key, start, key); }
    }
  }

  /** No region is empty. */
  ghost predicate AllInhabited(rs: seq<Region>) {
    forall i :: 0 <= i < |rs| ==> Contains(rs[i], rs[i].start)
  }

  ghost predicate StartsAscend(rs: seq<Region>) {
    forall i, j {:trigger Less(rs[i].start, rs[j].start)} :: 0 <= i < j < |rs| ==> Less(rs[i].start, rs[j].start)
  }

  lemma ChainStartsAscend(rs: seq<Region>)
    requires Chained(rs) && forall n :: 0 <= n < |rs| - 1 ==> rs[n].end != []
    ensures StartsAscend(rs) && AllInhabited(rs)
  {
    forall i | 0 <= i < |rs| ensures Contains(rs[i], rs[i].start) { assert ChainedAt(rs, i); }
    forall i, j | 0 <= i < j < |rs| ensures Less(rs[i].start, rs[j].start) {
      assert ChainedAt(rs, i);
      EndsAscend(rs, i, j);
      if rs[i].end != rs[j].start { LessTransitive(rs[i].start, rs[i].end, rs[j].start); }
    }
  }

  /**
   * In an ascending partition without empty regions no region ends before the next one starts, or before
   * the last key.
   */
  lemma NoGap(rs: seq<Region>, i: nat)
    requires Partition(rs) && StartsAscend(rs) && AllInhabited(rs) && i < |rs| && rs[i].end != []
    ensures i + 1 < |rs| && AtMost(rs[i + 1].start, rs[i].end)
  {
    var x := rs[i].end;
    assert Covered(rs, x);
    var j :| 0 <= j < |rs| && Contains(rs[j], x);
    LessIrreflexive(x);
    assert Contains(rs[i], rs[i].start) && j != i;
    if j < i {
      assert Less(rs[j].start, rs[i].start);
      OverlapBelow(rs[j], rs[i].start, x);
    } else if j > i + 1 {
      assert Less(rs[i + 1].start, rs[j].start);
      StartBefore(rs[i + 1].start, rs[j].start, x);
    }
  }

  /** A region that contains x and starts below y contains every y up to x. */
  lemma OverlapBelow(r: Region, y: Bytes, x: Bytes)
    requires Contains(r, x) && Less(r.start, y) && Less(y, x)
    ensures Contains(r, y)
  {
    if r.end != [] { LessTransitive(y, x, r.end); }
  }

  lemma StartBefore(a: Bytes, b: Bytes, x: Bytes)
    requires Less(a, b) && AtMost(b, x)
    ensures AtMost(a, x)
  {
    if b != x { LessTransitive(a, b, x); }
  }

  /** Nor does one reach into the next. */
  lemma NoReach(rs: seq<Region>, i: nat)
    requires Disjoint(rs) && StartsAscend(rs) && AllInhabited(rs) && i + 1 < |rs|
    ensures rs[i].end != [] && AtMost(rs[i].end, rs[i + 1].start)
  {
    var y := rs[i + 1].start;
    assert Less(rs[i].start, y) && Contains(rs[i + 1], y);
    assert !Contains(rs[i], y);
    LessTrichotomy(y, rs[i].end);
  }

  lemma PartitionChained(rs: seq<Region>)
    requires Partition(rs) && StartsAscend(rs) && AllInhabited(rs)
    ensures Chained(rs) && forall n :: 0 <= n < |rs| - 1 ==> rs[n].end != []
  {
    assert Covered(rs, []);
    var f :| 0 <= f < |rs| && Contains(rs[f], []);
    assert rs[f].start == [];
    assert f > 0 ==> Less(rs[0].start, rs[f].start);
    forall i | 0 <= i < |rs| ensures ChainedAt(rs, i) {
      assert Contains(rs[i], rs[i].start);
      LessIrreflexive(rs[i].start);
      if i > 0 {
        NoReach(rs, i - 1);
        NoGap(rs, i - 1);
        LessTrichotomy(rs[i - 1].end, rs[i].start);
      }
    }
    if rs[|rs| - 1].end != [] { NoGap(rs, |rs| - 1); }
    forall n | 0 <= n < |rs| - 1 ensures rs[n].end != [] { NoReach(rs, n); }
  }

  /**
   * The lists that validation accepts and that are unbounded only at the end are exactly the partitions
   * into inhabited regions, listed by ascending start.
   */
  lemma AcceptedPartitionExactly(rs: seq<Region>)
    requires rs != []
    ensures Chained(rs) && (forall n :: 0 <= n < |rs| - 1 ==> rs[n].end != []) <==>
            Partition(rs) && StartsAscend(rs) && AllInhabited(rs)
  {
    if Chained(rs) && forall n :: 0 <= n < |rs| - 1 ==> rs[n].end != [] {
      AcceptedCovers(rs);
      AcceptedDisjointExactly(rs);
      ChainStartsAscend(rs);
    }
    if Partition(rs) && StartsAscend(rs) && AllInhabited(rs) { PartitionChained(rs); }
  }

  /**
   * An unbounded region inside a list restarts the chain: a list is accepted exactly when the part up to
   * that region and the part after it are.
   */
  lemma AcceptedInParts(rs: seq<Region>, n: nat)
    requires n < |rs| && rs[n].end == []
    ensures Chained(rs) <==> Chained(rs[..n + 1]) && Chained(rs[n + 1..])
  {
    var a, b := rs[..n + 1], rs[n + 1..];
    assert forall i :: 0 <= i <= n ==> (ChainedAt(a, i) <==> ChainedAt(rs, i));
    assert forall i :: 0 <= i < |b| ==> b[i] == rs[n + 1 + i];
    forall i | 0 <= i < |b| ensures ChainedAt(b, i) <==> ChainedAt(rs, n + 1 + i) {
      assert i > 0 ==> b[i - 1] == rs[n + i];
    }
    if Chained(a) && Chained(b) {
      forall i | 0 <= i < |rs| ensures ChainedAt(rs, i) {
        if i <= n { assert ChainedAt(a, i); } else { assert ChainedAt(b, i - n - 1); }
      }
      assert b == [] ==> |rs| == n + 1;
    }
  }

  // ---- routing ----

  /** The first region that contains the key. */
  function Route(rs: seq<Region>, key: Bytes): (i: nat)
    ensures i <= |rs| && (i < |rs| ==> Contains(rs[i], key)) && forall j :: 0 <= j < i ==> !Contains(rs[j], key)
  {
    if rs == [] then 0 else if Contains(rs[0], key) then 0 else 1 + Route(rs[1..], key)
  }

  /** In a partition a key has exactly one region, the one it is routed to. */
  lemma RoutedUniquely(rs: seq<Region>, key: Bytes, i: nat)
    requires Partition(rs) && i < |rs|
    ensures Route(rs, key) < |rs| && (Contains(rs[i], key) <==> i == Route(rs, key))
  {
    assert Covered(rs, key);
  }

  // ---- splitting ----

  /** The regions of a cluster, and the last id allocated. */
  datatype Cluster = Cluster(regions: seq<Region>, lastID: nat)

  function NewPeers(peers: seq<Peer>, firstID: nat): seq<Peer> {
    seq(|peers|, i requires 0 <= i < |peers| => Peer(firstID + i, peers[i].storeID))
  }

  function Bumped(r: Region): Epoch { r.epoch.(version := r.epoch.version + 1) }

  function Left(r: Region, key: Bytes): Region {
    r.(end := key, epoch := Bumped(r))
  }

  function Right(r: Region, key: Bytes, id: nat, peers: seq<Peer>, leader: nat): Region {
    Region(id, key, r.end, Bumped(r), peers, leader)
  }

  /** The i-th region keeps the left half in its place; the right half is appended. */
  function SplitList(rs: seq<Region>, i: nat, key: Bytes, id: nat, peers: seq<Peer>, leader: nat): seq<Region>
    requires i < |rs|
  {
    rs[i := Left(rs[i], key)] + [Right(rs[i], key, id, peers, leader)]
  }

  /** The effect of SplitRegion on the i-th region: the new region takes ids after the last one allocated. */
  function SplitAt(c: Cluster, i: nat, key: Bytes): Cluster
    requires i < |c.regions|
  {
    var r := c.regions[i];
    var id := c.lastID + 1;
    Cluster(SplitList(c.regions, i, key, id, NewPeers(r.peers, id + 1), id + 1), id + |r.peers|)
  }

  /** SplitRegion: the region of the key is split there, unless it starts there. */
  function SplitRegion(c: Cluster, rawKey: Bytes): Cluster {
    var key := NewMvccKey(rawKey);
    var i := Route(c.regions, key);
    if i == |c.regions| || c.regions[i].start == key then c else SplitAt(c, i, key)
  }

  // ---- the invariant of the region map ----

  ghost predicate HasLeader(r: Region) {
    r.peers != [] && exists i :: 0 <= i < |r.peers| && r.peers[i].id == r.leader
  }

  ghost predicate DistinctIDs(c: Cluster) {
    (forall i :: 0 <= i < |c.regions| ==> c.regions[i].id <= c.lastID) &&
    (forall i, j :: 0 <= i < j < |c.regions| ==> c.regions[i].id != c.regions[j].id)
  }

  ghost predicate Good(c: Cluster) {
    Partition(c.regions) && DistinctIDs(c) && forall i :: 0 <= i < |c.regions| ==> HasLeader(c.regions[i])
  }

  ghost predicate EncodedBounds(rs: seq<Region>) {
    forall i :: 0 <= i < |rs| ==> IsMvccKey(rs[i].start) && IsMvccKey(rs[i].end)
  }

  /** Both halves together contain what the region contained, and nothing twice. */
  lemma HalvesPartition(start: Bytes, end: Bytes, key: Bytes, x: Bytes)
    requires InRange(start, end, key) && key != start
    ensures InRange(start, end, x) <==> InRange(start, key, x) || InRange(key, end, x)
    ensures !(InRange(start, key, x) && InRange(key, end, x))
  {
    assert Less(start, key) && key != [];
    LessTrichotomy(x, key);
    if AtMost(key, x) && key != x { LessTransitive(start, key, x); }
    if Less(x, key) && end != [] { LessTransitive(x, key, end); }
  }

  lemma SplitKeepsPartition(rs: seq<Region>, i: nat, l: Region, r: Region)
    requires Partition(rs) && i < |rs|
    requires forall x :: Contains(rs[i], x) <==> Contains(l, x) || Contains(r, x)
    requires forall x :: !(Contains(l, x) && Contains(r, x))
    ensures Partition(rs[i := l] + [r])
  {
    var rs' := rs[i := l] + [r];
    forall x ensures Covered(rs', x) {
      assert Covered(rs, x);
      var j :| 0 <= j < |rs| && Contains(rs[j], x);
      assert if j != i then rs'[j] == rs[j] else rs'[i] == l && rs'[|rs|] == r;
    }
    forall a, b, x | 0 <= a < b < |rs'| ensures !(Contains(rs'[a], x) && Contains(rs'[b], x)) {
      var old_b := if b == |rs| then i else b;
      if a != old_b { assert !(Contains(rs[a], x) && Contains(rs[old_b], x)); }
    }
  }

  lemma SplitKeepsGood(c: Cluster, rawKey: Bytes)
    requires Good(c)
    ensures Good(SplitRegion(c, rawKey))
    ensures EncodedBounds(c.regions) ==> EncodedBounds(SplitRegion(c, rawKey).regions)
  {
    var key := NewMvccKey(rawKey);
    var i := Route(c.regions, key);
    if i < |c.regions| && c.regions[i].start != key {
      var r := c.regions[i];
      forall x ensures Contains(r, x) <==> InRange(r.start, key, x) || InRange(key, r.end, x)
        ensures !(InRange(r.start, key, x) && InRange(key, r.end, x))
      {
        HalvesPartition(r.start, r.end, key, x);
      }
      var c' := SplitAt(c, i, key);
      SplitKeepsPartition(c.regions, i, c'.regions[i], c'.regions[|c.regions|]);
      assert HasLeader(r);
      assert c'.regions[|c.regions|].peers[0].id == c'.regions[|c.regions|].leader;
      assert HasLeader(c'.regions[i]);
    }
  }

  // ---- a split happens ----

  /** The region of the key starts at the key. */
  ghost predicate StartsAt(rs: seq<Region>, key: Bytes) {
    exists r :: r in rs && r.start == key && Contains(r, key)
  }

  lemma RouteStartsAt(rs: seq<Region>, key: Bytes)
    requires Partition(rs)
    ensures Route(rs, key) < |rs| && (StartsAt(rs, key) <==> rs[Route(rs, key)].start == key)
  {
    assert Covered(rs, key);
    var i := Route(rs, key);
    assert rs[i] in rs;
    if r :| r in rs && r.start == key && Contains(r, key) {
      var j :| 0 <= j < |rs| && rs[j] == r;
      RoutedUniquely(rs, key, j);
    }
  }

  /** right is the part of the region r from the key on, under the next version, with new ids on the same stores. */
  ghost predicate RightHalfOf(r: Region, key: Bytes, right: Region, lastID: nat) {
    && right.start == key && right.end == r.end && right.id > lastID
    && right.epoch.confVer == r.epoch.confVer && right.epoch.version == r.epoch.version + 1
    && |right.peers| == |r.peers| > 0 && right.leader == right.peers[0].id
    && (forall n :: 0 <= n < |r.peers| ==> right.peers[n].storeID == r.peers[n].storeID)
    && (forall n :: 0 <= n < |r.peers| ==> right.peers[n].id > lastID && right.peers[n].id != right.id)
    && (forall n, m :: 0 <= n < m < |r.peers| ==> right.peers[n].id != right.peers[m].id)
  }

  /** left is the part of the region r below the key, under the next version, and otherwise r. */
  ghost predicate LeftHalfOf(r: Region, key: Bytes, left: Region) {
    && left.start == r.start && left.end == key && left.id == r.id && left.peers == r.peers && left.leader == r.leader
    && left.epoch.confVer == r.epoch.confVer && left.epoch.version == r.epoch.version + 1
  }

  /**
   * After SplitRegion the region of the key starts there. If it did before, nothing changes; otherwise
   * there is exactly one more region, the right half, the old one is its left half, and the others stay.
   */
  lemma SplitHappens(c: Cluster, rawKey: Bytes)
    requires Good(c)
    ensures var key, c' := NewMvccKey(rawKey), SplitRegion(c, rawKey);
            && StartsAt(c'.regions, key)
            && (StartsAt(c.regions, key) ==> c' == c)
            && (!StartsAt(c.regions, key) ==>
                  var i, n := Route(c.regions, key), |c.regions|;
                  && i < n && |c'.regions| == n + 1 && Contains(c.regions[i], key)
                  && LeftHalfOf(c.regions[i], key, c'.regions[i])
                  && RightHalfOf(c.regions[i], key, c'.regions[n], c.lastID)
                  && forall j :: 0 <= j < n && j != i ==> c'.regions[j] == c.regions[j])
  {
    var key, c' := NewMvccKey(rawKey), SplitRegion(c, rawKey);
    var i := Route(c.regions, key);
    RouteStartsAt(c.regions, key);
    if c.regions[i].start != key {
      assert HasLeader(c.regions[i]);
      var right := c'.regions[|c.regions|];
      assert right.start == key && right in c'.regions;
      assert Contains(right, key);
    }
  }

  // ---- lineage ----

  /** What a region may become: its range shrinks from the right, and only with a larger version. */
  ghost predicate Descends(r: Region, r': Region) {
    && r'.id == r.id && r'.start == r.start && r'.epoch.confVer == r.epoch.confVer && r'.peers == r.peers &&
         r'.leader == r.leader
    && r.epoch.version <= r'.epoch.version && (r.epoch.version == r'.epoch.version ==> r' == r)
    && forall key :: Contains(r', key) ==> Contains(r, key)
  }

  ghost predicate Lineage(c: Cluster, c': Cluster) {
    |c.regions| <= |c'.regions| && c.lastID <= c'.lastID &&
    forall i :: 0 <= i < |c.regions| ==> Descends(c.regions[i], c'.regions[i])
  }

  lemma SplitDescends(c: Cluster, rawKey: Bytes)
    requires Good(c)
    ensures Lineage(c, SplitRegion(c, rawKey))
  {
    var key := NewMvccKey(rawKey);
    var i := Route(c.regions, key);
    if i < |c.regions| && c.regions[i].start != key {
      var r := c.regions[i];
      forall x | InRange(r.start, key, x) ensures Contains(r, x) { HalvesPartition(r.start, r.end, key, x); }
    }
  }

  // ---- runs ----

  /** What happens to a cluster: a split, or ids allocated for something else by the shared allocator. */
  datatype Event = Split(rawKey: Bytes) | Allocate(ids: nat)

  function After(c: Cluster, event: Event): Cluster {
    match event
    case Split(rawKey) => SplitRegion(c, rawKey)
    case Allocate(ids) => c.(lastID := c.lastID + ids)
  }

  function AfterAll(c: Cluster, events: seq<Event>): Cluster
    decreases |events|
  {
    if events == [] then c else AfterAll(After(c, events[0]), events[1..])
  }

  /** Every run of splits keeps each key in exactly one region, every leader among its region's peers, and ids apart. */
  lemma {:induction false} RunKeepsGood(c: Cluster, events: seq<Event>)
    requires Good(c)
    ensures Good(AfterAll(c, events)) && Lineage(c, AfterAll(c, events))
    ensures EncodedBounds(c.regions) ==> EncodedBounds(AfterAll(c, events).regions)
    decreases |events|
  {
    if events != [] {
      var c1 := After(c, events[0]);
      if events[0].Split? {
        SplitKeepsGood(c, events[0].rawKey);
        SplitDescends(c, events[0].rawKey);
      }
      RunKeepsGood(c1, events[1..]);
      forall i | 0 <= i < |c.regions| ensures Descends(c.regions[i], AfterAll(c, events).regions[i]) {
        assert Descends(c.regions[i], c1.regions[i]) && Descends(c1.regions[i], AfterAll(c1, events[1..]).regions[i]);
      }
    }
  }

  /**
   * Epoch fencing: a region id with the epoch it once had is still the very region it then was,
   * so a request that carries them acts on the range they were issued for.
   */
  lemma EpochFences(c: Cluster, events: seq<Event>, r: Region, r': Region)
    requires Good(c) && r in c.regions && r' in AfterAll(c, events).regions && r.id == r'.id
    ensures r'.epoch == r.epoch ==> r' == r
    ensures r' != r ==> r'.epoch.version > r.epoch.version
  {
    RunKeepsGood(c, events);
    var i :| 0 <= i < |c.regions| && c.regions[i] == r;
    var j :| 0 <= j < |AfterAll(c, events).regions| && AfterAll(c, events).regions[j] == r';
    assert Descends(r, AfterAll(c, events).regions[i]);
    assert i == j;
  }

  // ---- a split whose lookup is out of date ----

  /** The key lies between the bounds, so that cutting there leaves two ranges that make up the old one. */
  predicate SplitsCleanly(start: Bytes, end: Bytes, key: Bytes) {
    if key == [] then false
    else if end == [] then AtMost(start, key)
    else (AtMost(start, key) && AtMost(key, end)) || (AtMost(end, key) && AtMost(key, start))
  }

  lemma LessAtMost(a: Bytes, b: Bytes, c: Bytes)
    ensures AtMost(a, b) && Less(b, c) ==> Less(a, c)
    ensures Less(a, b) && AtMost(b, c) ==> Less(a, c)
    ensures Less(a, b) <==> !AtMost(b, a)
  {
    LessTrichotomy(a, b);
    if Less(a, b) && Less(b, c) { LessTransitive(a, b, c); }
  }

  lemma CleanHalves(start: Bytes, end: Bytes, key: Bytes, x: Bytes)
    requires SplitsCleanly(start, end, key)
    ensures InRange(start, end, x) <==> InRange(start, key, x) || InRange(key, end, x)
    ensures !(InRange(start, key, x) && InRange(key, end, x))
  {
    LessAtMost(x, key, end);
    LessAtMost(start, key, x);
    LessAtMost(key, x, end);
    LessAtMost(x, end, key);
    LessAtMost(end, key, x);
    LessAtMost(key, start, x);
    LessAtMost(x, key, start);
  }

  /** A half that reaches beyond the region meets the region that already holds the key there. */
  lemma HalfOutsideOverlaps(rs: seq<Region>, i: nat, l: Region, r: Region, x: Bytes)
    requires Partition(rs) && i < |rs| && !Contains(rs[i], x) && (Contains(l, x) || Contains(r, x))
    ensures !Disjoint(rs[i := l] + [r])
  {
    var rs' := rs[i := l] + [r];
    assert Covered(rs, x);
    var j :| 0 <= j < |rs| && Contains(rs[j], x);
    assert rs'[j] == rs[j] && rs'[i] == l && rs'[|rs|] == r;
  }

  /** A key that both halves contain, or that one contains and the region does not. */
  lemma UncleanKey(start: Bytes, end: Bytes, key: Bytes) returns (x: Bytes)
    requires !SplitsCleanly(start, end, key)
    ensures || (InRange(start, key, x) && InRange(key, end, x))
            || ((InRange(start, key, x) || InRange(key, end, x)) && !InRange(start, end, x))
  {
    LessAtMost(key, start, end);
    LessAtMost(end, key, start);
    LessAtMost(end, start, key);
    LessAtMost(start, end, key);
    LessAtMost(key, end, start);
    LessAtMost(start, key, end);
    LessIrreflexive(end);
    if key == [] {
      x := start;
    } else if Less(key, start) {
      x := key;
    } else {
      x := if AtMost(start, end) then end else start;
    }
  }

  /** Splitting a region of a partition at a key keeps a partition exactly when the key lies between its bounds. */
  lemma SplitPartitionExactly(rs: seq<Region>, i: nat, key: Bytes, id: nat, peers: seq<Peer>, leader: nat)
    requires Partition(rs) && i < |rs|
    ensures Partition(SplitList(rs, i, key, id, peers, leader)) <==> SplitsCleanly(rs[i].start, rs[i].end, key)
  {
    var l, r := Left(rs[i], key), Right(rs[i], key, id, peers, leader);
    if SplitsCleanly(rs[i].start, rs[i].end, key) {
      forall x
        ensures (Contains(rs[i], x) <==> Contains(l, x) || Contains(r, x)) && !(Contains(l, x) && Contains(r, x))
      {
        CleanHalves(rs[i].start, rs[i].end, key, x);
      }
      SplitKeepsPartition(rs, i, l, r);
    } else {
      var x := UncleanKey(rs[i].start, rs[i].end, key);
      if Contains(rs[i], x) {
        var rs' := SplitList(rs, i, key, id, peers, leader);
        assert rs'[i] == l && rs'[|rs|] == r && Contains(rs'[i], x) && Contains(rs'[|rs|], x);
      } else {
        HalfOutsideOverlaps(rs, i, l, r, x);
      }
    }
  }

  /**
   * SplitRegion looks the region up and splits it in two critical sections. When other splits come in
   * between, the result is still a partition exactly when none of them cut the region below the key.
   */
  lemma StaleSplitExactly(c: Cluster, events: seq<Event>, key: Bytes, i: nat)
    requires Good(c) && i == Route(c.regions, key) && i < |c.regions| && c.regions[i].start != key
    ensures var c' := AfterAll(c, events);
            i < |c'.regions| &&
            (Partition(SplitAt(c', i, key).regions) <==> c'.regions[i].end == [] || AtMost(key, c'.regions[i].end))
  {
    RunKeepsGood(c, events);
    var c' := AfterAll(c, events);
    var r := c'.regions[i];
    assert Descends(c.regions[i], r);
    LessAtMost(r.start, key, []);
    SplitPartitionExactly(c'.regions, i, key, c'.lastID + 1, NewPeers(r.peers, c'.lastID + 2), c'.lastID + 2);
  }

  /** An instance: two requests look up the same region, and the one with the smaller key splits it first. */
  lemma ConcurrentSplitsOverlap(c: Cluster)
    requires Good(c) && |c.regions| == 1
    ensures !Partition(SplitAt(SplitRegion(c, [1]), 0, NewMvccKey([2])).regions)
  {
    var k1, k2 := NewMvccKey([1]), NewMvccKey([2]);
    var r := c.regions[0];
    assert Covered(c.regions, []) && Covered(c.regions, k1) && Covered(c.regions, k2);
    EncodedNotEmpty([1]);
    EncodedNotEmpty([2]);
    assert r.start == [];
    assert AfterAll(c, [Split([1])]) == SplitRegion(c, [1]) by { assert [Split([1])][1..] == []; }
    StaleSplitExactly(c, [Split([1])], k2, 0);
    NewMvccKeyOrder([1], [2]);
    LessAtMost(k1, k2, []);
  }

  // ---- requests that go to every region ----

  /** ResolveLock sent to each region in turn, with the region's bounds decoded as KvResolveLock does. */
  function ResolvePerRegion(st: Store, rs: seq<Region>, t: U64, commitTS: U64): Store
    decreases |rs|
  {
    if rs == [] then st
    else ResolvePerRegion(ResolveLock(st, Raw(rs[0].start), Raw(rs[0].end), t, commitTS), rs[1..], t, commitTS)
  }

  lemma {:induction false} ResolvePerRegionEffect(st: Store, rs: seq<Region>, t: U64, commitTS: U64, k: Bytes)
    requires EncodedBounds(rs)
    ensures At(ResolvePerRegion(st, rs, t, commitTS), k) ==
            if exists i :: 0 <= i < |rs| && KeyInRegion(rs[i].start, rs[i].end, k)
            then ApplyWrites(At(st, k), ResolveListed(At(st, k).lock, map[t := commitTS])) else At(st, k)
    decreases |rs|
  {
    if rs != [] {
      var start, end := Raw(rs[0].start), Raw(rs[0].end);
      var st1 := ResolveLock(st, start, end, t, commitTS);
      KeyInRegionIsRaw(rs[0].start, rs[0].end, k);
      ResolveEffect(st, start, end, map[t := commitTS], k);
      ResolvedStays(At(st, k), t, commitTS);
      ResolvePerRegionEffect(st1, rs[1..], t, commitTS, k);
      assert forall i :: 1 <= i < |rs| ==> rs[i] == rs[1..][i - 1];
      assert forall i :: 0 <= i < |rs| - 1 ==> rs[1..][i] == rs[i + 1];
    }
  }

  lemma ResolvedStays(e: Entry, t: U64, commitTS: U64)
    ensures var infos := map[t := commitTS];
            var e' := ApplyWrites(e, ResolveListed(e.lock, infos));
            ApplyWrites(e', ResolveListed(e'.lock, infos)) == e'
  {
    if e.lock.Some? && e.lock.value.startTS == t {
      ApplyRollbackLock(e, t);
      ApplyCommitLock(e, e.lock.value, t, commitTS);
    }
  }

  /** After any run of splits, resolving region by region equals resolving the whole key space at once. */
  lemma ResolvePerRegionIsWhole(c: Cluster, events: seq<Event>, st: Store, t: U64, commitTS: U64)
    requires Good(c) && EncodedBounds(c.regions)
    ensures Same(ResolvePerRegion(st, AfterAll(c, events).regions, t, commitTS), ResolveLock(st, [], [], t, commitTS))
  {
    RunKeepsGood(c, events);
    var rs := AfterAll(c, events).regions;
    forall k ensures At(ResolvePerRegion(st, rs, t, commitTS), k) == At(ResolveLock(st, [], [], t, commitTS), k) {
      ResolvePerRegionEffect(st, rs, t, commitTS, k);
      ResolveEffect(st, [], [], map[t := commitTS], k);
      assert Covered(rs, NewMvccKey(k));
      var i :| 0 <= i < |rs| && Contains(rs[i], NewMvccKey(k));
      assert KeyInRegion(rs[i].start, rs[i].end, k);
    }
  }
}
