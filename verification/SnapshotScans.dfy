/** Snapshot isolation for reads of many keys: BatchGet and Scan. */
module SnapshotScans {
  import opened ByteStrings
  import opened Entries
  import opened MvccStore
  import opened MvccLevelDb
  import opened Protocol
  import opened ProtocolInvariant
  import opened ProtocolTheorems
  import opened Snapshots

  /** Transaction t began by ts and holds a lock to write the key. */
  ghost predicate BlockedBy(s: State, t: U64, k: Bytes, ts: U64) {
    Holds(E(s, k), t) && t <= ts && Writes(s, t, k)
  }

  /** What a key contributes to a read of the snapshot at ts: its lock error, its value, or nothing. */
  ghost function SnapshotPair(s: State, k: Bytes, ts: U64): seq<Pair> {
    if t :| BlockedBy(s, t, k, ts) then [KeyError(k, LockedBy(s, t, k))]
    else match SnapshotValue(s, k, ts) case Some(v) => [KeyValue(k, v)] case None => []
  }

  ghost function SnapshotPairs(s: State, ks: seq<Bytes>, ts: U64): seq<Pair> {
    if ks == [] then [] else SnapshotPair(s, ks[0], ts) + SnapshotPairs(s, ks[1..], ts)
  }

  lemma PointReadIsSnapshot(s: State, k: Bytes, ts: U64)
    requires Reachable(s) && ts <= s.now
    ensures PairsOf(k, Read(E(s, k), k, ts, true)) == SnapshotPair(s, k, ts)
  {
    ReadRefusedExactly(s, k, ts);
    if Read(E(s, k), k, ts, true).Ok? {
      ReadsAreSnapshots(s, k, ts);
      assert forall t :: !BlockedBy(s, t, k, ts);
    } else {
      var t: U64 :| Holds(E(s, k), t) && t <= ts && Writes(s, t, k);
      assert BlockedBy(s, t, k, ts);
    }
  }

  /**
   * A read of many keys at an issued timestamp is the snapshot of these keys, in order, with lock errors
   * in their places.
   */
  lemma {:induction false} BatchGetIsSnapshot(s: State, ks: seq<Bytes>, ts: U64)
    requires Reachable(s) && ts <= s.now
    ensures ReadPairs(s.st, ks, ts, true) == SnapshotPairs(s, ks, ts)
  {
    if ks != [] {
      PointReadIsSnapshot(s, ks[0], ts);
      BatchGetIsSnapshot(s, ks[1..], ts);
    }
  }

  /** A key with a value in a snapshot, or with a lock, has a record, so scans meet it. */
  lemma SnapshotKeysLive(s: State, k: Bytes, ts: U64)
    requires Inv(s) && SnapshotPair(s, k, ts) != []
    ensures E(s, k) != EMPTY
  {
    if t :| LastWriter(s, t, k, ts) { WriteLocatedIn(s, t, k); }
  }

  lemma {:induction false} PairsOfKeys(s: State, ks: seq<Bytes>, ts: U64)
    ensures forall p :: p in SnapshotPairs(s, ks, ts) <==> p.key in ks && p in SnapshotPair(s, p.key, ts)
    decreases |ks|
  {
    if ks != [] {
      PairsOfKeys(s, ks[1..], ts);
      assert ks == [ks[0]] + ks[1..];
    }
  }

  /**
   * A scan at an issued timestamp is the whole snapshot of its range: in key order, the value of
   * every key that has one and is not blocked, the lock error of every key that is, and nothing else.
   */
  lemma ScanIsSnapshot(s: State, start: Bytes, end: Bytes, ts: U64)
    requires Reachable(s) && ts <= s.now
    ensures var pairs := ReadPairs(s.st, LiveKeys(s.st, start, end), ts, true);
            && (forall p :: p in pairs <==> InRange(start, end, p.key) && p in SnapshotPair(s, p.key, ts))
            && Ascending(PairKeys(pairs))
  {
    ReachableInv(s);
    var ks := LiveKeys(s.st, start, end);
    BatchGetIsSnapshot(s, ks, ts);
    PairsOfKeys(s, ks, ts);
    ReadPairsAscend(s.st, ks, ts, true);
    forall p: Pair | InRange(start, end, p.key) && p in SnapshotPair(s, p.key, ts) ensures p.key in ks {
      SnapshotKeysLive(s, p.key, ts);
    }
  }

  /** The values of the keys in the snapshot at ts, absent ones left out. */
  ghost function ValuePairs(s: State, ks: seq<Bytes>, ts: U64): seq<Pair> {
    if ks == [] then [] else PairsOf(ks[0], Ok(SnapshotValue(s, ks[0], ts))) + ValuePairs(s, ks[1..], ts)
  }

  /**
   * A read of many keys that meets no lock returns their values in the snapshot of that state and of
   * every later one.
   */
  lemma {:induction false} BatchSharesSnapshot(s: State, acts: seq<Action>, ks: seq<Bytes>, ts: U64)
    requires Reachable(s) && forall k :: k in ks ==> Readable(s, k, ts)
    ensures ReadPairs(s.st, ks, ts, true) == ValuePairs(Run(s, acts), ks, ts)
    decreases |ks|
  {
    if ks != [] {
      ReadsShareOneSnapshot(s, acts, ks[0], ts);
      BatchSharesSnapshot(s, acts, ks[1..], ts);
    }
  }

  /**
   * ScanLock in a run: in ascending key order exactly the locks of the range whose transactions began
   * by maxTS, each with its transaction's own primary.
   */
  lemma ScanLockReports(s: State, start: Bytes, end: Bytes, maxTS: U64)
    requires Reachable(s)
    ensures var locks := LocksUpTo(s.st, LiveKeys(s.st, start, end), maxTS);
            && Ascending(LockKeys(locks))
            && forall info :: info in locks <==>
                 && InRange(start, end, info.key) && Holds(E(s, info.key), info.startTS) && info.startTS <= maxTS
                 && info.startTS in s.clients && info.primary == s.clients[info.startTS].txn.primary
  {
    var ks := LiveKeys(s.st, start, end);
    LocksUpToExactly(s.st, ks, maxTS);
    LocksAscend(s.st, ks, maxTS);
    forall k | E(s, k).lock.Some?
      ensures var l := E(s, k).lock.value; l.startTS in s.clients && l.primary == s.clients[l.startTS].txn.primary
    {
      LockFields(s, k);
    }
  }
}
