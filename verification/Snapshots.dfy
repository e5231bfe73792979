/** Snapshot isolation: what reads return over every run. */
module Snapshots {
  import opened ByteStrings
  import opened Records
  import opened Entries
  import opened MvccStore
  import opened Protocol
  import opened EntryInvariant
  import opened ProtocolInvariant
  import opened ProtocolTheorems

  /** Transaction t is committed by its primary, not after ts, and puts or deletes key k. */
  ghost predicate WroteBy(s: State, t: U64, k: Bytes, ts: U64) {
    Writes(s, t, k) && PrimaryCommitted(s, t) && s.clients[t].phase.commitTS <= ts
  }

  /** The one among them that committed last. */
  ghost predicate LastWriter(s: State, t: U64, k: Bytes, ts: U64) {
    WroteBy(s, t, k, ts) &&
    forall u :: WroteBy(s, u, k, ts) ==> s.clients[u].phase.commitTS <= s.clients[t].phase.commitTS
  }

  /** The value of key k in the snapshot at ts: decided by the transactions' intents and primaries alone. */
  ghost function SnapshotValue(s: State, k: Bytes, ts: U64): Option<Bytes> {
    if t :| LastWriter(s, t, k, ts) then
      var intent := s.clients[t].txn.intents[k];
      if intent.op == OP_PUT then Some(intent.value) else None
    else None
  }

  lemma LastWriterUnique(s: State, t: U64, u: U64, k: Bytes, ts: U64)
    requires Inv(s) && LastWriter(s, t, k, ts) && LastWriter(s, u, k, ts)
    ensures t == u
  {
  }

  /** A key that a read at an issued timestamp finds readable. */
  ghost predicate Readable(s: State, k: Bytes, ts: U64) {
    ts <= s.now && Read(E(s, k), k, ts, true).Ok?
  }

  /** Transaction t writes the key and has a commit timestamp up to ts. */
  ghost predicate MayAppear(s: State, t: U64, k: Bytes, ts: U64) {
    Writes(s, t, k) && s.clients[t].phase.Committing? && s.clients[t].phase.commitTS <= ts
  }

  /** Every transaction that may still have a commit timestamp up to ts has its record on the key. */
  ghost predicate Settled(s: State, k: Bytes, ts: U64) {
    ts <= s.now && forall t :: MayAppear(s, t, k, ts) ==> HasRecord(E(s, k), t)
  }

  /** The lock check of a read ensures that no pending commit can still appear in the snapshot. */
  lemma ReadableIsSettled(s: State, k: Bytes, ts: U64)
    requires Inv(s) && Readable(s, k, ts)
    ensures Settled(s, k, ts)
  {
    forall t | MayAppear(s, t, k, ts) ensures HasRecord(E(s, k), t) {
      WriteLocatedIn(s, t, k);
      assert ClientGood(s, t);
      assert RolledBack(E(s, k), t) ==> E(s, k).writes[t].startTS == t;
    }
  }

  /** On a settled key the puts and deletes up to ts are those of the committed transactions. */
  lemma SettledHolds(s: State, k: Bytes, ts: U64, t: U64)
    requires Inv(s) && Settled(s, k, ts)
    ensures WroteBy(s, t, k, ts) ==> CommittedAt(E(s, k), t, s.clients[t].phase.commitTS)
    ensures forall c: U64 :: c <= ts && CommittedAt(E(s, k), t, c) ==>
            WroteBy(s, t, k, ts) && s.clients[t].phase.commitTS == c && E(s, k).writes[c] == IntentRecord(s, t, k, c)
  {
    if WroteBy(s, t, k, ts) {
      assert MayAppear(s, t, k, ts);
      WriteLocatedIn(s, t, k);
      assert KeyGood(s, k);
      AtomicInState(s, t, s.clients[t].txn.primary, k, s.clients[t].phase.commitTS);
    }
    forall c: U64 | c <= ts && CommittedAt(E(s, k), t, c)
      ensures WroteBy(s, t, k, ts) && s.clients[t].phase.commitTS == c && E(s, k).writes[c] == IntentRecord(s, t, k, c)
    {
      AtomicInState(s, t, k, k, c);
    }
  }

  /** The newest visible record of a settled key is the last writer's. */
  lemma NewestIsLastWriter(s: State, k: Bytes, ts: U64, x: Value)
    requires Inv(s) && Settled(s, k, ts) && NewestVisible(E(s, k).writes, ts, x)
    ensures LastWriter(s, x.startTS, k, ts) && x == IntentRecord(s, x.startTS, k, x.commitTS)
  {
    SettledHolds(s, k, ts, x.startTS);
    assert CommittedAt(E(s, k), x.startTS, x.commitTS);
    forall u | WroteBy(s, u, k, ts) ensures s.clients[u].phase.commitTS <= x.commitTS {
      SettledHolds(s, k, ts, u);
    }
  }

  /** A read that is answered sees no lock in its way, so it reads at its own timestamp. */
  lemma ReadsAtOwnTimestamp(s: State, k: Bytes, ts: U64)
    requires Inv(s) && Readable(s, k, ts)
    ensures Read(E(s, k), k, ts, true) == Ok(ValueRead(FirstVisible(History(E(s, k)), ts)))
  {
  }

  lemma SettledValue(s: State, k: Bytes, ts: U64)
    requires Inv(s) && Settled(s, k, ts)
    ensures ValueRead(FirstVisible(History(E(s, k)), ts)) == SnapshotValue(s, k, ts)
  {
    var w := E(s, k).writes;
    assert KeyGood(s, k);
    VisibleIsNewest(w, ts);
    var found := FirstVisible(Versions(w, MAX_U64), ts);
    if found.Some? {
      NewestIsLastWriter(s, k, ts, found.value);
      forall u | LastWriter(s, u, k, ts)
        ensures u == found.value.startTS
      {
        LastWriterUnique(s, u, found.value.startTS, k, ts);
      }
    } else {
      FirstVisibleBelow(w, MAX_U64, ts);
      forall u ensures !WroteBy(s, u, k, ts) { SettledHolds(s, k, ts, u); }
    }
  }

  /**
   * Every read that is answered returns the snapshot: the last write, up to its timestamp, among
   * the transactions whose primaries are committed, whichever of their other keys are still locked.
   */
  lemma ReadsAreSnapshots(s: State, k: Bytes, ts: U64)
    requires Reachable(s) && Readable(s, k, ts)
    ensures Read(E(s, k), k, ts, true) == Ok(SnapshotValue(s, k, ts))
  {
    ReachableInv(s);
    ReadsAtOwnTimestamp(s, k, ts);
    ReadableIsSettled(s, k, ts);
    SettledValue(s, k, ts);
  }

  // ---- later states ----

  /** The same puts and deletes up to ts. */
  ghost predicate SameData(w: map<U64, Value>, w': map<U64, Value>, ts: U64) {
    forall v: U64 :: v <= ts ==>
      ((v in w && IsData(w[v])) <==> (v in w' && IsData(w'[v]))) && (v in w && IsData(w[v]) ==> w'[v] == w[v])
  }

  lemma SameDataReadsSame(e: Entry, e': Entry, ts: U64)
    requires KeyInv(e) && KeyInv(e') && SameData(e.writes, e'.writes, ts)
    ensures FirstVisible(History(e), ts) == FirstVisible(History(e'), ts)
  {
    VisibleIsNewest(e.writes, ts);
    VisibleIsNewest(e'.writes, ts);
    assert forall x :: NewestVisible(e.writes, ts, x) <==> NewestVisible(e'.writes, ts, x);
  }

  lemma RequestKeepsSettled(s: State, s': State, k: Bytes, ts: U64)
    requires Inv(s) && Requests(s, s') && Settled(s, k, ts)
    ensures Settled(s', k, ts) && SameData(E(s, k).writes, E(s', k).writes, ts)
  {
    assert Advances(s, s', k) && KeyGood(s, k);
    AdvanceGrows(s, s', k);
    forall t | MayAppear(s', t, k, ts) ensures HasRecord(E(s', k), t) {
      assert MayAppear(s, t, k, ts);
      var v :| v in E(s, k).writes && E(s, k).writes[v].startTS == t;
      assert E(s', k).writes[v].startTS == t;
    }
    if t :| Commits(s, s', k, t) {
      assert !HasRecord(E(s, k), t);
      assert E(s, k).lock.value.op == OP_LOCK || s.clients[t].phase.commitTS > ts;
    }
  }

  lemma ProceedKeepsSettled(s: State, s': State, k: Bytes, ts: U64)
    requires Inv(s) && Proceeds(s, s') && Settled(s, k, ts)
    ensures Settled(s', k, ts) && SameData(E(s, k).writes, E(s', k).writes, ts)
  {
    assert E(s', k) == E(s, k);
    forall t | MayAppear(s', t, k, ts) ensures HasRecord(E(s', k), t) {
      assert t in s.clients && s'.clients[t] == s.clients[t];
      assert MayAppear(s, t, k, ts);
    }
  }

  lemma StepKeepsSettled(s: State, a: Action, k: Bytes, ts: U64)
    requires Inv(s) && Settled(s, k, ts)
    ensures Settled(Step(s, a), k, ts) && SameData(E(s, k).writes, E(Step(s, a), k).writes, ts)
  {
    StepKeeps(s, a);
    if Requests(s, Step(s, a)) {
      RequestKeepsSettled(s, Step(s, a), k, ts);
    } else {
      ProceedKeepsSettled(s, Step(s, a), k, ts);
    }
  }

  lemma {:induction false} RunKeepsSettled(s: State, acts: seq<Action>, k: Bytes, ts: U64)
    requires Inv(s) && Settled(s, k, ts)
    ensures Settled(Run(s, acts), k, ts) && SameData(E(s, k).writes, E(Run(s, acts), k).writes, ts)
    decreases |acts|
  {
    if acts != [] {
      StepKeeps(s, acts[0]);
      StepKeepsSettled(s, acts[0], k, ts);
      RunKeepsSettled(Step(s, acts[0]), acts[1..], k, ts);
    }
  }

  /** Once a read at an issued timestamp is answered, every later read there gets the same answer or meets a lock. */
  lemma RepeatableRead(s: State, acts: seq<Action>, k: Bytes, ts: U64)
    requires Reachable(s) && Readable(s, k, ts)
    ensures var later := Read(E(Run(s, acts), k), k, ts, true);
            later == Read(E(s, k), k, ts, true) || (later.Err? && later.error.Locked?)
  {
    var s' := Run(s, acts);
    ReachableInv(s);
    RunKeeps(s, acts);
    ReadableIsSettled(s, k, ts);
    RunKeepsSettled(s, acts, k, ts);
    assert KeyGood(s, k) && KeyGood(s', k);
    SameDataReadsSame(E(s, k), E(s', k), ts);
    ReadsAtOwnTimestamp(s, k, ts);
    if Readable(s', k, ts) { ReadsAtOwnTimestamp(s', k, ts); }
  }

  /** Reads at one timestamp, made in different states, all belong to the snapshot of the last of them. */
  lemma ReadsShareOneSnapshot(s: State, acts: seq<Action>, k: Bytes, ts: U64)
    requires Reachable(s) && Readable(s, k, ts)
    ensures Read(E(s, k), k, ts, true) == Ok(SnapshotValue(Run(s, acts), k, ts))
  {
    var s' := Run(s, acts);
    ReachableInv(s);
    RunKeeps(s, acts);
    ReadableIsSettled(s, k, ts);
    RunKeepsSettled(s, acts, k, ts);
    assert KeyGood(s, k) && KeyGood(s', k);
    ReadsAtOwnTimestamp(s, k, ts);
    SameDataReadsSame(E(s, k), E(s', k), ts);
    SettledValue(s', k, ts);
  }

  // ---- reading the newest value ----

  /**
   * A read at the largest timestamp of a key locked as its own primary is answered with the newest
   * committed value: reading just below the lock's start hides no put or delete.
   */
  lemma ReadAtMaxSkipsOwnPrimary(s: State, k: Bytes)
    requires Reachable(s) && E(s, k).lock.Some? && E(s, k).lock.value.primary == k
    ensures var e := E(s, k);
            Read(e, k, MAX_U64, true) == Ok(ValueRead(FirstVisible(History(e), MAX_U64))) &&
            forall x :: FirstVisible(History(e), MAX_U64) == Some(x) <==> NewestVisible(e.writes, MAX_U64, x)
  {
    ReachableInv(s);
    var e := E(s, k);
    var l := e.lock.value;
    assert KeyGood(s, k) && ClientGood(s, l.startTS);
    VisibleIsNewest(e.writes, MAX_U64);
    VisibleIsNewest(e.writes, l.startTS - 1);
    assert forall x :: NewestVisible(e.writes, l.startTS - 1, x) <==> NewestVisible(e.writes, MAX_U64, x);
    assert FirstVisible(History(e), l.startTS - 1) == FirstVisible(History(e), MAX_U64);
  }

  // ---- refused reads ----

  /** Transaction t holds a lock to put or delete the key, and the key is not its primary. */
  ghost predicate BlocksNewest(s: State, t: U64, k: Bytes) {
    Holds(E(s, k), t) && Writes(s, t, k) && s.clients[t].txn.primary != k
  }

  /**
   * A read at the largest timestamp is refused exactly while a transaction holds a lock to write the
   * key as one of its secondaries; otherwise it returns the newest value there is.
   */
  lemma ReadAtMaxExactly(s: State, k: Bytes)
    requires Reachable(s)
    ensures var r := Read(E(s, k), k, MAX_U64, true);
            && (r.Err? <==> exists t :: BlocksNewest(s, t, k))
            && (forall t :: BlocksNewest(s, t, k) ==> r == Err(LockedBy(s, t, k)))
            && (r.Ok? ==> ReadsNewest(E(s, k).writes, MAX_U64, r.value))
  {
    ReachableInv(s);
    var e := E(s, k);
    assert KeyGood(s, k);
    SnapshotReadExactly(e, k, MAX_U64);
    if e.lock.Some? {
      var t := e.lock.value.startTS;
      assert Holds(e, t) && ClientGood(s, t);
      assert InTheWay(e.lock, MAX_U64) <==> Writes(s, t, k);
      if InTheWay(e.lock, MAX_U64) {
        if e.lock.value.primary == k { BelowLockIsNewest(e); } else { assert BlocksNewest(s, t, k); }
      }
    }
  }

  /** Reading just below a lock's start hides no put or delete. */
  lemma BelowLockIsNewest(e: Entry)
    requires KeyInv(e) && e.lock.Some? && e.lock.value.startTS > 0
    ensures forall v :: ReadsNewest(e.writes, e.lock.value.startTS - 1, v) ==> ReadsNewest(e.writes, MAX_U64, v)
  {
    var below := e.lock.value.startTS - 1;
    assert forall x :: NewestVisible(e.writes, below, x) <==> NewestVisible(e.writes, MAX_U64, x);
  }

  /**
   * A read at an issued timestamp is refused exactly while a transaction that began by then holds
   * a lock to write the key, and the reader is told that transaction's primary, start and time to live.
   */
  lemma ReadRefusedExactly(s: State, k: Bytes, ts: U64)
    requires Reachable(s) && ts <= s.now
    ensures Read(E(s, k), k, ts, true).Err? <==> exists t: U64 :: Holds(E(s, k), t) && t <= ts && Writes(s, t, k)
    ensures forall t: U64 :: Holds(E(s, k), t) && t <= ts && Writes(s, t, k) ==>
            Read(E(s, k), k, ts, true) == Err(LockedBy(s, t, k))
  {
    ReachableInv(s);
    assert KeyGood(s, k);
    if E(s, k).lock.Some? { assert Holds(E(s, k), E(s, k).lock.value.startTS); }
  }

  /** While a key is locked, no request but its owner's resolution changes the lock. */
  lemma LockGoesOrStays(s: State, s': State, k: Bytes, t: U64)
    requires Advances(s, s', k) && Holds(E(s, k), t)
    ensures E(s', k).lock == None || Holds(E(s', k), t)
  {
  }

  lemma ResolveFreesKey(s: State, k: Bytes, t: U64)
    requires t in s.verdicts && (E(s, k).lock == None || Holds(E(s, k), t))
    ensures E(Step(s, SendResolve([], [], t)), k).lock == None && Step(s, SendResolve([], [], t)).now == s.now
  {
    var infos := map[t := s.verdicts[t]];
    ResolveEffect(s.st, [], [], infos, k);
    if E(s, k).lock.Some? { ResolveLeavesNoListedLock(s.st, [], [], infos, k); }
  }

  /** A refused reader that cleans up that transaction's primary and resolves its locks is answered next time. */
  lemma ResolverUnblocksReader(s: State, k: Bytes, ts: U64, t: U64)
    requires Reachable(s) && ts <= s.now && Holds(E(s, k), t)
    ensures var s2 := Step(Step(s, SendCleanup(t, true)), SendResolve([], [], t)); Readable(s2, k, ts)
  {
    ReachableInv(s);
    assert KeyGood(s, k);
    var s1 := Step(s, SendCleanup(t, true));
    assert t in s1.verdicts && s1.now == s.now;
    CleanupKeeps(s, t, true);
    LockGoesOrStays(s, s1, k, t);
    ResolveFreesKey(s1, k, t);
  }
}
