/** What holds of every run: atomicity, no lost updates, final verdicts, and progress of resolvers. */
module ProtocolTheorems {
  import opened ByteStrings
  import opened Codec
  import opened Records
  import opened Entries
  import opened MvccStore
  import opened Protocol
  import opened EntryInvariant
  import opened ProtocolInvariant
  import Regions

  /** The record that the intent of transaction t on key k becomes. */
  ghost function IntentRecord(s: State, t: U64, k: Bytes, c: U64): Value
    requires t in s.clients && k in s.clients[t].txn.intents
  {
    CommitRecord(IntentLock(t, s.clients[t].txn, k), t, c)
  }

  /** Transaction t means to put or delete key k. */
  ghost predicate Writes(s: State, t: U64, k: Bytes) {
    t in s.clients && k in s.clients[t].txn.intents && s.clients[t].txn.intents[k].op != OP_LOCK
  }

  // ---- what locks and records say ----

  /** Every lock carries its transaction's primary and time to live and the key's mutation, whatever its kind. */
  lemma LockFields(s: State, k: Bytes)
    requires Reachable(s) && E(s, k).lock.Some?
    ensures var l := E(s, k).lock.value;
            && l.startTS in s.clients && k in s.clients[l.startTS].txn.intents
            && var txn := s.clients[l.startTS].txn;
               && l.primary == txn.primary && l.ttl == txn.ttl && l.minCommitTS == 0
               && l.op == txn.intents[k].op && l.value == txn.intents[k].value
  {
    ReachableInv(s);
    assert KeyGood(s, k);
  }

  /** Every record carries its transaction's mutation and timestamps; a tombstone carries its start timestamp alone. */
  lemma RecordFields(s: State, k: Bytes, v: U64)
    requires Reachable(s) && v in E(s, k).writes
    ensures var x := E(s, k).writes[v];
            && x.commitTS == v && x.startTS in s.clients
            && if x.valueType == TYPE_ROLLBACK then x.startTS == v && x.value == []
               else
                 && x.startTS < v && Writes(s, x.startTS, k) && s.clients[x.startTS].phase == Committing(v)
                 && var intent := s.clients[x.startTS].txn.intents[k];
                    x.valueType == (if intent.op == OP_PUT then TYPE_PUT else TYPE_DELETE) && x.value == intent.value
  {
    ReachableInv(s);
    assert KeyGood(s, k) && RecordOwned(s, k, E(s, k).writes[v], v);
  }

  /** The error that tells a reader about the lock of transaction t on key k. */
  ghost function LockedBy(s: State, t: U64, k: Bytes): Error
    requires t in s.clients
  {
    Locked(MvccEncode(k, MAX_U64), s.clients[t].txn.primary, t, s.clients[t].txn.ttl)
  }

  /** A prewrite of a key that another transaction holds, if only by a mere lock, fails and names that transaction. */
  lemma PrewriteMeetsLock(s: State, k: Bytes, t: U64, r: Request, i: nat)
    requires Reachable(s) && Holds(E(s, k), t)
    requires r.Prewrite? && r.startTS != t && i < Size(r) && KeyOf(r, i) == k
    ensures t in s.clients && Outcome(s.st, r, i) == Err(LockedBy(s, t, k))
    ensures !Succeeds(s.st, r) && Execute(s.st, r) == s.st
  {
    LockFields(s, k);
    ReachableInv(s);
    assert KeyGood(s, k);
    PrewriteStep(E(s, k), r.mutations[i], r.primary, r.startTS, r.ttl);
  }

  // ---- no lost update ----

  /** Any two puts or deletes of a key have disjoint intervals from start to commit. */
  lemma NoLostUpdate(s: State, k: Bytes, t: U64, c: U64, u: U64, d: U64)
    requires Reachable(s) && CommittedAt(E(s, k), t, c) && CommittedAt(E(s, k), u, d) && t != u
    ensures t < c < u < d || u < d < t < c
  {
    ReachableInv(s);
    assert KeyGood(s, k);
  }

  // ---- atomicity ----

  lemma AtomicInState(s: State, t: U64, k1: Bytes, k2: Bytes, c: U64)
    requires Inv(s) && CommittedAt(E(s, k1), t, c)
    ensures !RolledBack(E(s, k2), t) && PrimaryCommitted(s, t) && s.clients[t].phase.commitTS == c && Writes(s, t, k1)
    ensures E(s, k1).writes[c] == IntentRecord(s, t, k1, c)
  {
    assert KeyGood(s, k1) && KeyGood(s, k2);
    assert RecordOwned(s, k1, E(s, k1).writes[c], c);
    assert KeyGood(s, s.clients[t].txn.primary) && ClientGood(s, t);
    assert t in E(s, k2).writes ==> RecordOwned(s, k2, E(s, k2).writes[t], t);
  }

  /** No transaction is committed on one key and rolled back on another, or committed at two timestamps. */
  lemma Atomicity(s: State, t: U64, k1: Bytes, k2: Bytes, c: U64)
    requires Reachable(s) && CommittedAt(E(s, k1), t, c)
    ensures !RolledBack(E(s, k2), t)
    ensures forall d :: CommittedAt(E(s, k2), t, d) ==> d == c
  {
    ReachableInv(s);
    AtomicInState(s, t, k1, k2, c);
    forall d | CommittedAt(E(s, k2), t, d) ensures d == c { AtomicInState(s, t, k2, k1, d); }
  }

  /**
   * Once the primary is committed, every key the transaction writes is still locked by it or holds
   * exactly its write.
   */
  lemma AllOrNothing(s: State, t: U64, k: Bytes)
    requires Reachable(s) && PrimaryCommitted(s, t) && Writes(s, t, k)
    ensures var e, c := E(s, k), s.clients[t].phase.commitTS;
            e.lock == Some(IntentLock(t, s.clients[t].txn, k)) ||
                (c in e.writes && e.writes[c] == IntentRecord(s, t, k, c))
  {
    ReachableInv(s);
    WriteLocatedIn(s, t, k);
    AtomicInState(s, t, s.clients[t].txn.primary, k, s.clients[t].phase.commitTS);
  }

  /** A transaction that fetched its commit timestamp has left a lock or a record on every key it writes. */
  lemma WriteLocatedIn(s: State, t: U64, k: Bytes)
    requires Inv(s) && Writes(s, t, k) && s.clients[t].phase.Committing?
    ensures var e, c := E(s, k), s.clients[t].phase.commitTS;
            e.lock == Some(IntentLock(t, s.clients[t].txn, k)) || RolledBack(e, t) ||
                (c in e.writes && e.writes[c] == IntentRecord(s, t, k, c))
  {
    assert KeyGood(s, k) && ClientGood(s, t) && AckGood(s, t, k);
    if !Holds(E(s, k), t) {
      var v :| v in E(s, k).writes && E(s, k).writes[v].startTS == t;
      assert RecordOwned(s, k, E(s, k).writes[v], v);
    }
  }

  // ---- over runs ----

  lemma {:induction false} RunExtends(s: State, acts1: seq<Action>, acts2: seq<Action>)
    ensures Run(s, acts1 + acts2) == Run(Run(s, acts1), acts2)
    decreases |acts1|
  {
    if acts1 == [] {
      assert acts1 + acts2 == acts2;
    } else {
      assert (acts1 + acts2)[1..] == acts1[1..] + acts2;
      RunExtends(Step(s, acts1[0]), acts1[1..], acts2);
    }
  }

  lemma RunOne(s: State, a: Action)
    ensures Run(s, [a]) == Step(s, a)
  {
    assert [a][1..] == [];
  }

  lemma RunReachable(s: State, acts: seq<Action>)
    requires Reachable(s)
    ensures Reachable(Run(s, acts))
  {
    var before :| Run(INIT, before) == s;
    RunExtends(INIT, before, acts);
  }

  /** No version record ever disappears or changes. */
  lemma {:induction false} RecordsPersist(s: State, acts: seq<Action>, k: Bytes, v: U64)
    requires Inv(s) && v in E(s, k).writes
    ensures v in E(Run(s, acts), k).writes && E(Run(s, acts), k).writes[v] == E(s, k).writes[v]
    decreases |acts|
  {
    if acts != [] {
      StepKeeps(s, acts[0]);
      var s1 := Step(s, acts[0]);
      if Requests(s, s1) { AdvanceGrows(s, s1, k); }
      RecordsPersist(s1, acts[1..], k, v);
    }
  }

  /**
   * A transaction committed on a key is never rolled back anywhere, and one rolled back on a key never
   * committed anywhere.
   */
  lemma AtomicityOverRuns(s: State, acts: seq<Action>, t: U64, k1: Bytes, k2: Bytes, c: U64)
    requires Reachable(s)
    ensures CommittedAt(E(s, k1), t, c) ==> !RolledBack(E(Run(s, acts), k2), t)
    ensures RolledBack(E(s, k1), t) ==> !CommittedAt(E(Run(s, acts), k2), t, c)
  {
    var s' := Run(s, acts);
    ReachableInv(s);
    RunReachable(s, acts);
    if CommittedAt(E(s, k1), t, c) {
      RecordsPersist(s, acts, k1, c);
      Atomicity(s', t, k1, k2, c);
    }
    if RolledBack(E(s, k1), t) {
      RecordsPersist(s, acts, k1, t);
      if CommittedAt(E(s', k2), t, c) { Atomicity(s', t, k2, k1, c); }
    }
  }

  // ---- verdicts are final ----

  lemma CommittedAnswers(e: Entry, t: U64, c: U64)
    requires KeyInv(e) && CommittedAt(e, t, c)
    ensures !Holds(e, t) && FindTxn(History(e), t) == Some(e.writes[c])
  {
    FindInKey(e, t);
    assert HasRecord(e, t);
  }

  lemma {:induction false} NoWritesSame(st: Store, batch: seq<KeyWrites>)
    requires forall i :: 0 <= i < |batch| ==> batch[i].writes == []
    ensures Same(WriteBatch(st, batch), st)
    decreases |batch|
  {
    if batch != [] { NoWritesSame(WriteKey(st, batch[0]), batch[1..]); }
  }

  lemma CommittedLater(s: State, acts: seq<Action>, k: Bytes, t: U64, c: U64)
    requires Reachable(s) && CommittedAt(E(s, k), t, c)
    ensures var s' := Run(s, acts);
            Reachable(s') && Inv(s') && KeyInv(E(s', k)) && CommittedAt(E(s', k), t, c) &&
            !Holds(E(s', k), t) && FindTxn(History(E(s', k)), t) == Some(E(s', k).writes[c])
  {
    ReachableInv(s);
    RunReachable(s, acts);
    ReachableInv(Run(s, acts));
    RecordsPersist(s, acts, k, c);
    assert KeyGood(Run(s, acts), k);
    CommittedAnswers(E(Run(s, acts), k), t, c);
  }

  /**
   * After puts or deletes are committed, in every later state committing these keys again succeeds and
   * changes nothing.
   */
  lemma CommitIsFinal(s: State, acts: seq<Action>, keys: seq<Bytes>, t: U64, d: U64)
    requires Reachable(s) && forall k :: k in keys ==> exists c :: CommittedAt(E(s, k), t, c)
    ensures var st, r := Run(s, acts).st, Commit(keys, t, d); Succeeds(st, r) && Same(Execute(st, r), st)
  {
    var st, r := Run(s, acts).st, Commit(keys, t, d);
    forall i | 0 <= i < Size(r) ensures Outcome(st, r, i) == Ok([]) {
      assert keys[i] in keys;
      var c :| CommittedAt(E(s, keys[i]), t, c);
      CommittedLater(s, acts, keys[i], t, c);
    }
    NoWritesSame(st, Batch(st, r, Size(r)));
  }

  /**
   * Rolling the transaction back on any keys among which one is committed is refused whole, with its
   * commit timestamp.
   */
  lemma CommittedRefusesRollback(s: State, acts: seq<Action>, keys: seq<Bytes>, k: Bytes, t: U64, c: U64)
    requires Reachable(s) && CommittedAt(E(s, k), t, c) && k in keys
    ensures var st, r := Run(s, acts).st, Rollback(keys, t);
            (exists n :: FailsAt(st, r, n, AlreadyCommitted(c))) && Execute(st, r) == st
  {
    var s', r := Run(s, acts), Rollback(keys, t);
    CommittedLater(s, acts, k, t, c);
    var i :| 0 <= i < |keys| && keys[i] == k;
    assert KeyOf(r, i) == k && Outcome(s'.st, r, i) == RollbackKey(E(s', k), t);
    var n := FailureExists(s'.st, r, 0);
    AtomicInState(s', t, k, keys[n], c);
    assert KeyGood(s', keys[n]) && ClientGood(s', t);
    VersionsApart(s', keys[n], t);
    RollbackStep(E(s', keys[n]), t);
    var d := Outcome(s'.st, r, n).error.commitTS;
    Atomicity(s', t, k, keys[n], c);
    assert CommittedAt(E(s', keys[n]), t, d);
  }

  /** A status check of a committed key answers its commit timestamp and changes nothing. */
  lemma CommittedStatus(s: State, acts: seq<Action>, k: Bytes, t: U64, c: U64, callerStartTS: U64, currentTS: U64)
    requires Reachable(s) && CommittedAt(E(s, k), t, c)
    ensures var st := Run(s, acts).st;
            && CheckTxnStatus(st, k, t, callerStartTS, currentTS).0 == Status(0, c)
            && Same(CheckTxnStatus(st, k, t, callerStartTS, currentTS).1, st)
  {
    CommittedLater(s, acts, k, t, c);
  }

  /**
   * After a rollback, in every later state every prewrite or commit of that transaction that touches the
   * key fails whole.
   */
  lemma RollbackIsFinal(s: State, acts: seq<Action>, k: Bytes, t: U64, r: Request, i: nat)
    requires Reachable(s) && RolledBack(E(s, k), t)
    requires i < Size(r) && KeyOf(r, i) == k && r.startTS == t && !r.Rollback?
    ensures !Succeeds(Run(s, acts).st, r) && Execute(Run(s, acts).st, r) == Run(s, acts).st
  {
    var s' := Run(s, acts);
    ReachableInv(s);
    RunReachable(s, acts);
    ReachableInv(s');
    RecordsPersist(s, acts, k, t);
    var e := E(s', k);
    assert KeyGood(s', k) && HasRecord(e, t) && !Holds(e, t);
    FindInKey(e, t);
    NewestInKey(e, t);
    assert Outcome(s'.st, r, i).Err?;
  }

  /** Expiry in wrapping arithmetic: as meant, or the sum of start time and time to live overflowed. */
  lemma ExpiredExactly(l: Lock, currentTS: U64)
    ensures var expiry := ExtractPhysical(l.startTS) + l.ttl;
            Expired(l, currentTS) <==>
              expiry < ExtractPhysical(currentTS) || (expiry >= TWO64 && expiry - TWO64 < ExtractPhysical(currentTS))
  {
    var expiry := ExtractPhysical(l.startTS) + l.ttl;
    assert ExtractPhysical(currentTS) <= currentTS < TWO64;
    assert expiry < 2 * TWO64;
    if expiry >= TWO64 { assert expiry % TWO64 == expiry - TWO64; }
  }

  /** Once the primary lock outlived its time, a status check rolls the transaction back on its primary for good. */
  lemma ExpiryRollsBack(s: State, t: U64, callerStartTS: U64, currentTS: U64)
    requires Reachable(s) && t in s.clients && Holds(E(s, s.clients[t].txn.primary), t)
    requires ExtractPhysical(t) + s.clients[t].txn.ttl < ExtractPhysical(currentTS)
    ensures RolledBack(E(Step(s, SendCheckStatus(t, callerStartTS, currentTS)), s.clients[t].txn.primary), t)
  {
    ReachableInv(s);
    var p := s.clients[t].txn.primary;
    assert KeyGood(s, p) && ClientGood(s, t);
    VersionsApart(s, p, t);
    ExpiredExactly(E(s, p).lock.value, currentTS);
    StatusStep(E(s, p), t, callerStartTS, currentTS);
  }

  /** A status check of a live lock changes nothing: the pushed minimal commit timestamp is not stored. */
  lemma PushIsLost(s: State, t: U64, callerStartTS: U64, currentTS: U64)
    requires Reachable(s) && t in s.clients
    requires Holds(E(s, s.clients[t].txn.primary), t) && !Expired(E(s, s.clients[t].txn.primary).lock.value, currentTS)
    ensures Same(CheckTxnStatus(s.st, s.clients[t].txn.primary, t, callerStartTS, currentTS).1, s.st)
    ensures CheckTxnStatus(s.st, s.clients[t].txn.primary, t, callerStartTS, currentTS).0 ==
            Status(s.clients[t].txn.ttl, 0)
  {
    ReachableInv(s);
    var p := s.clients[t].txn.primary;
    assert KeyGood(s, p) && ClientGood(s, t);
    VersionsApart(s, p, t);
    StatusStep(E(s, p), t, callerStartTS, currentTS);
  }

  // ---- resolvers get through ----

  lemma NeverCommitted(s: State, acts: seq<Action>, t: U64)
    requires Reachable(s) && PrimaryRolledBack(s, t)
    ensures forall k, c :: !CommittedAt(E(Run(s, acts), k), t, c)
  {
    forall k, c ensures !CommittedAt(E(Run(s, acts), k), t, c) {
      AtomicityOverRuns(s, acts, t, s.clients[t].txn.primary, k, c);
    }
  }

  lemma ResolveLeavesNoLock(st: Store, t: U64, commitTS: U64, k: Bytes)
    ensures !Holds(At(ResolveLock(st, [], [], t, commitTS), k), t)
  {
    var infos := map[t := commitTS];
    ResolveEffect(st, [], [], infos, k);
    if At(st, k).lock.Some? { ResolveLeavesNoListedLock(st, [], [], infos, k); }
  }

  /**
   * From any reachable state, cleaning up the primary and resolving the whole key space removes
   * every lock of the transaction; then either it has its write on every key it writes, at one
   * commit timestamp, or it has none and never will.
   */
  lemma ResolverCompletes(s: State, t: U64)
    requires Reachable(s) && t in s.clients
    ensures var s2 := Step(Step(s, SendCleanup(t, true)), SendResolve([], [], t));
            && (forall k :: !Holds(E(s2, k), t))
            && t in s2.verdicts && t in s2.clients
            && (s2.verdicts[t] == 0 ==> forall acts, k, c :: !CommittedAt(E(Run(s2, acts), k), t, c))
            && (s2.verdicts[t] > 0 ==>
                  forall k :: Writes(s2, t, k) ==>
                    s2.verdicts[t] in E(s2, k).writes &&
                        E(s2, k).writes[s2.verdicts[t]] == IntentRecord(s2, t, k, s2.verdicts[t]))
  {
    var s1 := Step(s, SendCleanup(t, true));
    var s2 := Step(s1, SendResolve([], [], t));
    RunOne(s, SendCleanup(t, true));
    RunOne(s1, SendResolve([], [], t));
    RunReachable(s, [SendCleanup(t, true)]);
    RunReachable(s1, [SendResolve([], [], t)]);
    ReachableInv(s1);
    ReachableInv(s2);
    forall k ensures !Holds(E(s2, k), t) { ResolveLeavesNoLock(s1.st, t, s1.verdicts[t], k); }
    assert VerdictGood(s2, t);
    if s2.verdicts[t] == 0 {
      forall acts ensures forall k, c :: !CommittedAt(E(Run(s2, acts), k), t, c) { NeverCommitted(s2, acts, t); }
    } else {
      forall k | Writes(s2, t, k)
        ensures s2.verdicts[t] in E(s2, k).writes &&
                E(s2, k).writes[s2.verdicts[t]] == IntentRecord(s2, t, k, s2.verdicts[t])
      {
        AllOrNothing(s2, t, k);
      }
    }
  }

  /** Sending the resolve to every region of a cluster, however split, leaves the same store. */
  lemma ResolverCompletesPerRegion(s: State, t: U64, c: Regions.Cluster, events: seq<Regions.Event>)
    requires t in s.clients && Regions.Good(c) && Regions.EncodedBounds(c.regions)
    ensures var s1 := Step(s, SendCleanup(t, true));
            t in s1.verdicts &&
            var st := Regions.ResolvePerRegion(s1.st, Regions.AfterAll(c, events).regions, t, s1.verdicts[t]);
            Same(st, Step(s1, SendResolve([], [], t)).st) && forall k :: !Holds(At(st, k), t)
  {
    var s1 := Step(s, SendCleanup(t, true));
    var verdict := CleanupVerdict(s.st, s.clients[t].txn.primary, t);
    assert t in s1.verdicts && s1.verdicts[t] == verdict;
    assert Step(s1, SendResolve([], [], t)).st == ResolveLock(s1.st, [], [], t, verdict);
    PerRegionLeavesNoLock(s1.st, t, verdict, c, events);
  }

  lemma PerRegionLeavesNoLock(st: Store, t: U64, commitTS: U64, c: Regions.Cluster, events: seq<Regions.Event>)
    requires Regions.Good(c) && Regions.EncodedBounds(c.regions)
    ensures var st' := Regions.ResolvePerRegion(st, Regions.AfterAll(c, events).regions, t, commitTS);
            Same(st', ResolveLock(st, [], [], t, commitTS)) && forall k :: !Holds(At(st', k), t)
  {
    Regions.ResolvePerRegionIsWhole(c, events, st, t, commitTS);
    forall k ensures !Holds(At(ResolveLock(st, [], [], t, commitTS), k), t) { ResolveLeavesNoLock(st, t, commitTS, k); }
  }
}
