/** Runs of the protocol on the bytes: the database serves every action, and its reads are snapshots. */
module Serving {
  import opened ByteStrings
  import opened Records
  import opened Entries
  import opened MvccStore
  import opened StoreSteps
  import opened MvccLevelDb
  import opened Protocol
  import opened ProtocolInvariant
  import opened Snapshots
  import opened SnapshotScans

  /** Every transaction's slices are within what a stored lock can hold. */
  ghost predicate Fitting(s: State) {
    forall t :: t in s.clients ==>
      |s.clients[t].txn.primary| <= MAX_SLICE &&
      forall k :: k in s.clients[t].txn.intents ==> |s.clients[t].txn.intents[k].value| <= MAX_SLICE
  }

  lemma RequestFits(s: State, t: U64, keys: seq<Bytes>)
    requires Fitting(s) && t in s.clients && forall k :: k in keys ==> k in s.clients[t].txn.intents
    ensures Encodable(PrewriteRequest(t, s.clients[t].txn, keys))
  {
  }

  lemma TimestampsFit(s: State)
    requires Reachable(s)
    ensures forall t :: t in s.clients ==>
            t < MAX_U64 && (s.clients[t].phase.Committing? ==> s.clients[t].phase.commitTS < MAX_U64)
    ensures forall t :: t in s.verdicts ==> t < MAX_U64 && s.verdicts[t] < MAX_U64
  {
    ReachableInv(s);
    assert forall t :: t in s.clients ==> ClientGood(s, t);
    assert forall t :: t in s.verdicts ==> VerdictGood(s, t);
  }

  /** KvCleanup: the answer is the verdict, the commit timestamp or 0, and never an error. */
  method KvCleanup(store: MVCCLevelDB, key: Bytes, startTS: U64) returns (commitVersion: U64, err: Option<Error>)
    requires store.Valid()
    modifies store
    ensures startTS < MAX_U64 ==> store.Valid() && store.st == Execute(old(store.st), Rollback([key], startTS))
    ensures commitVersion == CleanupVerdict(old(store.st), key, startTS) && err == None
  {
    commitVersion, err := 0, None;
    var e := store.Cleanup(key, startTS);
    if e.Some? {
      if e.value.AlreadyCommitted? { commitVersion := e.value.commitTS; } else { err := e; }
    }
  }

  /**
   * Serving an action of a run. The bytes come to represent the next state's store, and the answers
   * of the store are what the clients and resolvers of the next state have learned.
   */
  method Serve(store: MVCCLevelDB, s: State, a: Action) returns (clients: map<U64, Client>, verdicts: map<U64, U64>)
    requires store.Valid() && store.st == s.st && Reachable(s) && Fitting(s) && Enabled(s, a)
    modifies store
    ensures store.Valid() && store.st == Step(s, a).st && clients == Step(s, a).clients &&
            verdicts == Step(s, a).verdicts
  {
    TimestampsFit(s);
    clients, verdicts := s.clients, s.verdicts;
    match a
    case SendPrewrite(t, keys, delivered) => clients := ServePrewrite(store, s, t, keys, delivered);
    case SendCommit(t, keys, delivered) =>
      var cl := s.clients[t];
      var err := store.Commit(keys, t, cl.phase.commitTS);
      var done := cl.primaryDone || (delivered && cl.txn.primary in keys && err.None?);
      clients := s.clients[t := cl.(primaryDone := done)];
    case SendRollback(t, keys) =>
      var _ := store.Rollback(keys, t);
    case SendCleanup(t, delivered) =>
      var verdict, _ := KvCleanup(store, s.clients[t].txn.primary, t);
      if delivered { verdicts := s.verdicts[t := verdict]; }
    case SendResolve(start, end, t) =>
      store.ResolveLock(start, end, t, s.verdicts[t]);
    case SendBatchResolve(start, end, infos) =>
      store.BatchResolveLock(start, end, infos);
    case SendCheckStatus(t, callerStartTS, currentTS) =>
      var _ := store.CheckTxnStatus(s.clients[t].txn.primary, t, callerStartTS, currentTS);
    case IssueTimestamp(_) =>
    case Begin(ts, txn) => clients := s.clients[ts := Client(txn, {}, Prewriting, false)];
    case GiveUp(t) => clients := s.clients[t := s.clients[t].(phase := Aborted)];
    case GetCommitTimestamp(t, c) => clients := s.clients[t := s.clients[t].(phase := Committing(c))];
  }

  /** A delivered answer without errors acknowledges the keys. */
  method ServePrewrite(store: MVCCLevelDB, s: State, t: U64, keys: seq<Bytes>, delivered: bool)
    returns (clients: map<U64, Client>)
    requires store.Valid() && store.st == s.st && Fitting(s) && Enabled(s, SendPrewrite(t, keys, delivered))
    modifies store
    ensures var s' := Step(s, SendPrewrite(t, keys, delivered));
            store.Valid() && store.st == s'.st && clients == s'.clients
  {
    RequestFits(s, t, keys);
    var cl := s.clients[t];
    var req := PrewriteRequest(t, cl.txn, keys);
    var errs := store.Prewrite(req.mutations, req.primary, t, req.ttl);
    var ok := forall i :: 0 <= i < |errs| ==> errs[i].None?;
    assert ok <==> Succeeds(s.st, req);
    var acked := if delivered && ok then cl.acked + (set k | k in keys) else cl.acked;
    clients := s.clients[t := cl.(acked := acked)];
  }

  /** A point read of the bytes at an issued timestamp meets a lock or returns the snapshot. */
  method ReadSnapshot(store: MVCCLevelDB, key: Bytes, ts: U64, ghost s: State) returns (r: Result<Option<Bytes>>)
    requires store.Valid() && store.st == s.st && Reachable(s) && ts <= s.now
    ensures r.Err? ==> r.error.Locked?
    ensures r.Ok? ==> r.value == SnapshotValue(s, key, ts)
  {
    r := store.Get(key, ts, true);
    if r.Ok? { ReadsAreSnapshots(s, key, ts); }
  }

  /** BatchGet of the bytes is the snapshot of its keys. */
  method BatchGetSnapshot(store: MVCCLevelDB, ks: seq<Bytes>, ts: U64, ghost s: State) returns (pairs: seq<Pair>)
    requires store.Valid() && store.st == s.st && Reachable(s) && ts <= s.now
    ensures pairs == SnapshotPairs(s, ks, ts)
  {
    pairs := store.BatchGet(ks, ts, true);
    BatchGetIsSnapshot(s, ks, ts);
  }

  /** A scan of the bytes that stays below its limit is the whole snapshot of its range, in key order. */
  method ScanSnapshot(store: MVCCLevelDB, start: Bytes, end: Bytes, limit: int, ts: U64, ghost s: State)
    returns (pairs: seq<Pair>)
    requires store.Valid() && store.st == s.st && Reachable(s) && ts <= s.now
    ensures forall p :: p in pairs ==> InRange(start, end, p.key) && p in SnapshotPair(s, p.key, ts)
    ensures Ascending(PairKeys(pairs))
    ensures |pairs| < limit ==> forall p: Pair :: InRange(start, end, p.key) && p in SnapshotPair(s, p.key, ts) ==>
            p in pairs
  {
    pairs := store.Scan(start, end, limit, ts, true);
    ghost var all := ReadPairs(s.st, LiveKeys(s.st, start, end), ts, true);
    ScanIsSnapshot(s, start, end, ts);
    assert forall p :: p in pairs ==> p in all;
    ghost var keys, allKeys := PairKeys(pairs), PairKeys(all);
    forall i, j | 0 <= i < j < |keys| ensures Less(keys[i], keys[j]) { assert Less(allKeys[i], allKeys[j]); }
  }
}
