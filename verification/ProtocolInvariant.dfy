/** The invariant that ties every lock, record and verdict to its transaction, and its proof for every action. */
module ProtocolInvariant {
  import opened ByteStrings
  import opened Records
  import opened Entries
  import opened MvccStore
  import opened Protocol
  import opened EntryInvariant

  // ---- the invariant ----

  /** A lock is the one its transaction's intent prescribes. */
  ghost predicate LockOwned(s: State, k: Bytes) {
    E(s, k).lock.Some? ==>
      var l := E(s, k).lock.value;
      l.startTS in s.clients && k in s.clients[l.startTS].txn.intents &&
          l == IntentLock(l.startTS, s.clients[l.startTS].txn, k)
  }

  /**
   * A put or delete is the intent of a transaction whose primary is committed, at that
   * transaction's commit timestamp; a tombstone's transaction gave up or lost its primary.
   */
  ghost predicate RecordOwned(s: State, k: Bytes, x: Value, v: U64) {
    && x.startTS in s.clients
    && var cl := s.clients[x.startTS];
       if IsData(x) then
         && k in cl.txn.intents && cl.txn.intents[k].op != OP_LOCK && cl.phase == Committing(v)
         && x == CommitRecord(IntentLock(x.startTS, cl.txn, k), x.startTS, v) && PrimaryCommitted(s, x.startTS)
       else cl.phase == Aborted || PrimaryRolledBack(s, x.startTS)
  }

  ghost predicate KeyGood(s: State, k: Bytes) {
    KeyInv(E(s, k)) && LockOwned(s, k) && forall v :: v in E(s, k).writes ==> RecordOwned(s, k, E(s, k).writes[v], v)
  }

  /** A prewrite that was seen to succeed has left the lock, or what became of it. */
  ghost predicate AckGood(s: State, t: U64, k: Bytes)
    requires t in s.clients
  {
    k in s.clients[t].txn.intents &&
        (s.clients[t].txn.intents[k].op == OP_LOCK || Holds(E(s, k), t) || HasRecord(E(s, k), t))
  }

  ghost predicate ClientGood(s: State, t: U64)
    requires t in s.clients
  {
    var cl := s.clients[t];
    && 0 < t <= s.now && WellFormed(cl.txn)
    && (forall k :: k in cl.acked ==> AckGood(s, t, k))
    && (cl.phase.Committing? ==>
         cl.acked == cl.txn.intents.Keys && t < cl.phase.commitTS <= s.now && cl.phase.commitTS !in s.clients)
    && (cl.primaryDone ==> PrimaryCommitted(s, t))
  }

  ghost predicate VerdictGood(s: State, t: U64)
    requires t in s.verdicts
  {
    t in s.clients &&
    if s.verdicts[t] == 0 then PrimaryRolledBack(s, t)
    else PrimaryCommitted(s, t) && s.clients[t].phase.commitTS == s.verdicts[t]
  }

  ghost predicate CommitsDistinct(s: State) {
    forall t, u :: t in s.clients && u in s.clients ==>
      s.clients[t].phase.Committing? && s.clients[t].phase == s.clients[u].phase ==> t == u
  }

  ghost predicate Inv(s: State) {
    && s.now < MAX_U64
    && (forall k :: KeyGood(s, k))
    && (forall t :: t in s.clients ==> ClientGood(s, t))
    && (forall t :: t in s.verdicts ==> VerdictGood(s, t))
    && CommitsDistinct(s)
  }

  // ---- what a request may do to a key ----

  ghost predicate Locks(s: State, s': State, k: Bytes, t: U64) {
    t in s.clients && k in s.clients[t].txn.intents && GetsLock(E(s, k), E(s', k), IntentLock(t, s.clients[t].txn, k))
  }

  ghost predicate Commits(s: State, s': State, k: Bytes, t: U64) {
    PrimaryCommitted(s', t) && t in s.clients && s.clients[t].phase == s'.clients[t].phase &&
    GetsCommitted(E(s, k), E(s', k), t, s'.clients[t].phase.commitTS)
  }

  ghost predicate RollsBack(s: State, s': State, k: Bytes, t: U64) {
    t in s.clients && GetsRolledBack(E(s, k), E(s', k), t) &&
        (s.clients[t].phase == Aborted || PrimaryRolledBack(s', t))
  }

  ghost predicate Advances(s: State, s': State, k: Bytes) {
    E(s', k) == E(s, k) || (exists t :: Locks(s, s', k, t)) || (exists t :: Commits(s, s', k, t)) ||
        (exists t :: RollsBack(s, s', k, t))
  }

  /** Same transactions in the same phases at the same time. */
  ghost predicate SameTxns(s: State, s': State) {
    s'.now == s.now && s'.clients.Keys == s.clients.Keys &&
    forall t :: t in s.clients ==> s'.clients[t].txn == s.clients[t].txn && s'.clients[t].phase == s.clients[t].phase
  }

  /** What the clients and resolvers newly believe is so. */
  ghost predicate Learns(s: State, s': State)
    requires SameTxns(s, s')
  {
    && (forall t, k :: t in s'.clients && k in s'.clients[t].acked ==> k in s.clients[t].acked || AckGood(s', t, k))
    && (forall t :: t in s.clients && s.clients[t].phase.Committing? ==> s'.clients[t].acked == s.clients[t].acked)
    && (forall t :: t in s'.clients && s'.clients[t].primaryDone ==>
         s.clients[t].primaryDone || PrimaryCommitted(s', t))
    && (forall t :: t in s'.verdicts ==> (t in s.verdicts && s'.verdicts[t] == s.verdicts[t]) || VerdictGood(s', t))
  }

  /** Records are never lost; a lock goes only with a record, or when it is a mere lock. */
  ghost predicate Grows(s: State, s': State, k: Bytes) {
    && KeepsRecords(E(s, k), E(s', k))
    && (forall t :: Holds(E(s, k), t) ==>
         Holds(E(s', k), t) || HasRecord(E(s', k), t) || E(s, k).lock.value.op == OP_LOCK)
  }

  lemma AdvanceGrows(s: State, s': State, k: Bytes)
    requires Advances(s, s', k)
    ensures Grows(s, s', k)
  {
    forall t | Holds(E(s, k), t)
      ensures Holds(E(s', k), t) || HasRecord(E(s', k), t) || E(s, k).lock.value.op == OP_LOCK
    {
      if u :| Commits(s, s', k, u) {
        assert u == t;
        if E(s, k).lock.value.op != OP_LOCK {
          assert E(s', k).writes[s'.clients[t].phase.commitTS].startTS == t;
        }
      } else if u :| RollsBack(s, s', k, u) {
        assert u == t ==> E(s', k).writes[t].startTS == t;
      }
    }
  }

  /** What was so of a record stays so while records only grow. */
  lemma OwnershipKept(s: State, s': State, k: Bytes, v: U64)
    requires Inv(s) && SameTxns(s, s') && v in E(s, k).writes
    requires forall k :: Grows(s, s', k)
    ensures RecordOwned(s', k, E(s, k).writes[v], v)
  {
    assert KeyGood(s, k);
    var x := E(s, k).writes[v];
    assert RecordOwned(s, k, x, v);
    assert Grows(s, s', s.clients[x.startTS].txn.primary);
  }

  lemma AdvanceKeepsEntry(s: State, s': State, k: Bytes)
    requires KeyInv(E(s, k)) && Advances(s, s', k)
    ensures KeyInv(E(s', k))
  {
    var e, e' := E(s, k), E(s', k);
    if t :| Locks(s, s', k, t) {
      LockKeepsKeyInv(e, e', IntentLock(t, s.clients[t].txn, k));
    } else if t :| Commits(s, s', k, t) {
      CommitKeepsKeyInv(e, e', t, s'.clients[t].phase.commitTS);
    } else if t :| RollsBack(s, s', k, t) {
      RollbackKeepsKeyInv(e, e', t);
    }
  }

  /** A record that a request adds belongs to the transaction that it commits or rolls back. */
  lemma NewRecordOwned(s: State, s': State, k: Bytes, v: U64)
    requires LockOwned(s, k) && SameTxns(s, s') && Advances(s, s', k) && v in E(s', k).writes && v !in E(s, k).writes
    ensures RecordOwned(s', k, E(s', k).writes[v], v)
  {
    if t :| Commits(s, s', k, t) {
      assert v == s'.clients[t].phase.commitTS;
    }
  }

  lemma AdvanceKeepsKey(s: State, s': State, k: Bytes)
    requires Inv(s) && SameTxns(s, s') && Advances(s, s', k)
    requires forall k :: Grows(s, s', k)
    ensures KeyGood(s', k)
  {
    assert KeyGood(s, k) && Grows(s, s', k);
    AdvanceKeepsEntry(s, s', k);
    forall v | v in E(s', k).writes ensures RecordOwned(s', k, E(s', k).writes[v], v) {
      if v in E(s, k).writes { OwnershipKept(s, s', k, v); } else { NewRecordOwned(s, s', k, v); }
    }
  }

  /** A request that only advances keys, and truthful answers, keep the invariant. */
  lemma RequestKeeps(s: State, s': State)
    requires Inv(s) && SameTxns(s, s') && Learns(s, s') && forall k :: Advances(s, s', k)
    ensures Inv(s')
  {
    forall k ensures Grows(s, s', k) { AdvanceGrows(s, s', k); }
    forall k ensures KeyGood(s', k) { AdvanceKeepsKey(s, s', k); }
    forall t | t in s'.clients ensures ClientGood(s', t) {
      assert ClientGood(s, t) && Grows(s, s', s.clients[t].txn.primary);
      forall k | k in s'.clients[t].acked ensures AckGood(s', t, k) {
        if k in s.clients[t].acked { AckKept(s, s', t, k); }
      }
    }
    forall t | t in s'.verdicts ensures VerdictGood(s', t) {
      if t in s.verdicts && s'.verdicts[t] == s.verdicts[t] {
        assert VerdictGood(s, t) && Grows(s, s', s.clients[t].txn.primary);
      }
    }
  }

  lemma AckKept(s: State, s': State, t: U64, k: Bytes)
    requires Inv(s) && SameTxns(s, s') && t in s.clients && AckGood(s, t, k) && Grows(s, s', k)
    ensures AckGood(s', t, k)
  {
    assert KeyGood(s, k);
    if Holds(E(s, k), t) {
      assert E(s, k).lock.value.op == s.clients[t].txn.intents[k].op;
    } else if v :| v in E(s, k).writes && E(s, k).writes[v].startTS == t {
      assert E(s', k).writes[v].startTS == t;
    }
  }

  // ---- every request advances keys ----

  /** Neither a start nor a commit timestamp of one transaction is a version of another. */
  lemma VersionsApart(s: State, k: Bytes, t: U64)
    requires Inv(s) && t in s.clients
    ensures t in E(s, k).writes ==> E(s, k).writes[t].startTS == t
    ensures s.clients[t].phase.Committing? && Holds(E(s, k), t) ==> s.clients[t].phase.commitTS !in E(s, k).writes
  {
    assert KeyGood(s, k);
    if t in E(s, k).writes {
      var x := E(s, k).writes[t];
      assert RecordOwned(s, k, x, t) && ClientGood(s, x.startTS);
    }
    if s.clients[t].phase.Committing? && s.clients[t].phase.commitTS in E(s, k).writes {
      var c := s.clients[t].phase.commitTS;
      var x := E(s, k).writes[c];
      assert RecordOwned(s, k, x, c) && ClientGood(s, t);
    }
  }

  lemma PrewriteAdvances(s: State, s': State, keys: seq<Bytes>, t: U64, k: Bytes)
    requires Inv(s) && t in s.clients && KeysOfTxn(s.clients[t].txn, keys)
    requires s'.st == Execute(s.st, PrewriteRequest(t, s.clients[t].txn, keys))
    ensures Advances(s, s', k)
    ensures Succeeds(s.st, PrewriteRequest(t, s.clients[t].txn, keys)) && k in keys ==> Holds(E(s', k), t)
  {
    var txn := s.clients[t].txn;
    var req := PrewriteRequest(t, txn, keys);
    ExecuteEffect(s.st, req, k);
    assert KeyGood(s, k);
    if Succeeds(s.st, req) && k in keys {
      var i :| 0 <= i < |keys| && keys[i] == k;
      assert KeyOf(req, i) == k &&
             Outcome(s.st, req, i) == PrewriteKey(E(s, k), MutationOf(txn, k), txn.primary, t, txn.ttl);
      PrewriteStep(E(s, k), MutationOf(txn, k), txn.primary, t, txn.ttl);
      assert Holds(E(s, k), t) || Locks(s, s', k, t);
    }
  }

  /** A successful commit leaves each of its keys committed, except for mere locks. */
  lemma CommitReaches(s: State, s': State, keys: seq<Bytes>, t: U64, k: Bytes)
    requires Inv(s) && t in s.clients && KeysOfTxn(s.clients[t].txn, keys) && s.clients[t].phase.Committing?
    requires s'.st == Execute(s.st, Commit(keys, t, s.clients[t].phase.commitTS))
    requires Succeeds(s.st, Commit(keys, t, s.clients[t].phase.commitTS))
    ensures k !in keys ==> E(s', k) == E(s, k)
    ensures k in keys ==> E(s', k) == E(s, k) || GetsCommitted(E(s, k), E(s', k), t, s.clients[t].phase.commitTS)
    ensures k in keys && s.clients[t].txn.intents[k].op != OP_LOCK ==>
            CommittedAt(E(s', k), t, s.clients[t].phase.commitTS)
  {
    var c := s.clients[t].phase.commitTS;
    var req := Commit(keys, t, c);
    ExecuteEffect(s.st, req, k);
    assert KeyGood(s, k) && ClientGood(s, t);
    if k in keys {
      var i :| 0 <= i < |keys| && keys[i] == k;
      assert KeyOf(req, i) == k && Outcome(s.st, req, i) == CommitKey(E(s, k), t, c);
      VersionsApart(s, k, t);
      CommitStep(E(s, k), t, c);
      if v :| CommittedAt(E(s, k), t, v) {
        assert RecordOwned(s, k, E(s, k).writes[v], v);
      }
    }
  }

  lemma CommitAdvances(s: State, s': State, keys: seq<Bytes>, t: U64, k: Bytes)
    requires Inv(s) && t in s.clients && KeysOfTxn(s.clients[t].txn, keys) && s.clients[t].phase.Committing?
    requires SameTxns(s, s') && s'.st == Execute(s.st, Commit(keys, t, s.clients[t].phase.commitTS))
    requires s.clients[t].txn.primary in keys || s.clients[t].primaryDone
    ensures Advances(s, s', k)
    ensures Succeeds(s.st, Commit(keys, t, s.clients[t].phase.commitTS)) ==> PrimaryCommitted(s', t)
  {
    if Succeeds(s.st, Commit(keys, t, s.clients[t].phase.commitTS)) {
      assert ClientGood(s, t);
      CommitReaches(s, s', keys, t, s.clients[t].txn.primary);
      CommitReaches(s, s', keys, t, k);
      assert E(s', k) == E(s, k) || Commits(s, s', k, t);
    }
  }

  lemma RollbackReaches(s: State, s': State, keys: seq<Bytes>, t: U64, k: Bytes)
    requires Inv(s) && t in s.clients && KeysOfTxn(s.clients[t].txn, keys)
    requires s'.st == Execute(s.st, Rollback(keys, t))
    requires Succeeds(s.st, Rollback(keys, t))
    ensures k !in keys ==> E(s', k) == E(s, k)
    ensures k in keys ==> RolledBack(E(s', k), t) && (E(s', k) == E(s, k) || GetsRolledBack(E(s, k), E(s', k), t))
  {
    var req := Rollback(keys, t);
    ExecuteEffect(s.st, req, k);
    assert KeyGood(s, k) && ClientGood(s, t);
    if k in keys {
      var i :| 0 <= i < |keys| && keys[i] == k;
      assert KeyOf(req, i) == k && Outcome(s.st, req, i) == RollbackKey(E(s, k), t);
      VersionsApart(s, k, t);
      RollbackStep(E(s, k), t);
    }
  }

  lemma RollbackAdvances(s: State, s': State, keys: seq<Bytes>, t: U64, k: Bytes)
    requires Inv(s) && t in s.clients && KeysOfTxn(s.clients[t].txn, keys)
    requires SameTxns(s, s') && s'.st == Execute(s.st, Rollback(keys, t))
    requires s.clients[t].phase == Aborted || s.clients[t].txn.primary in keys ||
             (t in s.verdicts && s.verdicts[t] == 0)
    ensures Advances(s, s', k)
  {
    if Succeeds(s.st, Rollback(keys, t)) {
      var p := s.clients[t].txn.primary;
      RollbackReaches(s, s', keys, t, p);
      RollbackReaches(s, s', keys, t, k);
      if t in s.verdicts { assert VerdictGood(s, t); }
      assert RolledBack(E(s, p), t) ==> RolledBack(E(s', p), t);
      assert E(s', k) == E(s, k) || RollsBack(s, s', k, t);
    }
  }

  /** The verdict of a cleanup is what the primary's entry then says. */
  lemma CleanupTells(s: State, s': State, t: U64)
    requires Inv(s) && t in s.clients && SameTxns(s, s')
    requires s'.st == Execute(s.st, Rollback([s.clients[t].txn.primary], t))
    ensures var c := CleanupVerdict(s.st, s.clients[t].txn.primary, t);
            if c == 0 then PrimaryRolledBack(s', t) else PrimaryCommitted(s', t) && s.clients[t].phase.commitTS == c
  {
    var p := s.clients[t].txn.primary;
    var req := Rollback([p], t);
    assert KeyGood(s, p) && ClientGood(s, t);
    VersionsApart(s, p, t);
    RollbackStep(E(s, p), t);
    assert KeyOf(req, 0) == p && Outcome(s.st, req, 0) == RollbackKey(E(s, p), t);
    if RollbackKey(E(s, p), t).Ok? {
      assert Succeeds(s.st, req);
      RollbackReaches(s, s', [p], t, p);
    } else {
      assert !Succeeds(s.st, req) && s'.st == s.st;
      var c := RollbackKey(E(s, p), t).error.commitTS;
      assert CommittedAt(E(s, p), t, c) && RecordOwned(s, p, E(s, p).writes[c], c);
    }
  }

  /** Resolving on verdicts turns a listed lock into its transaction's record or tombstone. */
  lemma ResolveChanges(s: State, start: Bytes, end: Bytes, infos: map<U64, U64>, k: Bytes)
    requires Inv(s) && forall t :: t in infos ==> t in s.verdicts && infos[t] == s.verdicts[t]
    ensures var e, e' := E(s, k), At(BatchResolveLock(s.st, start, end, infos), k);
            if InRange(start, end, k) && e.lock.Some? && e.lock.value.startTS in infos then
              var t := e.lock.value.startTS;
              if infos[t] == 0 then GetsRolledBack(e, e', t) else GetsCommitted(e, e', t, infos[t])
            else e' == e
  {
    ResolveEffect(s.st, start, end, infos, k);
    var e := E(s, k);
    assert KeyGood(s, k);
    if e.lock.Some? && e.lock.value.startTS in infos {
      var t := e.lock.value.startTS;
      assert VerdictGood(s, t) && ClientGood(s, t);
      VersionsApart(s, k, t);
      ResolveStep(e, infos);
    }
  }

  lemma ResolveKeepsPrimary(s: State, s': State, start: Bytes, end: Bytes, infos: map<U64, U64>, t: U64)
    requires Inv(s) && SameTxns(s, s') && s'.st == BatchResolveLock(s.st, start, end, infos) && t in s.clients
    requires forall t :: t in infos ==> t in s.verdicts && infos[t] == s.verdicts[t]
    ensures PrimaryCommitted(s, t) ==> PrimaryCommitted(s', t)
    ensures PrimaryRolledBack(s, t) ==> PrimaryRolledBack(s', t)
  {
    ResolveKeepsRecords(s, start, end, infos, s.clients[t].txn.primary);
    PrimaryStays(s, s', t);
  }

  lemma ResolveKeepsRecords(s: State, start: Bytes, end: Bytes, infos: map<U64, U64>, k: Bytes)
    requires Inv(s) && forall t :: t in infos ==> t in s.verdicts && infos[t] == s.verdicts[t]
    ensures KeepsRecords(E(s, k), At(BatchResolveLock(s.st, start, end, infos), k))
  {
    ResolveChanges(s, start, end, infos, k);
  }

  lemma PrimaryStays(s: State, s': State, t: U64)
    requires SameTxns(s, s') && t in s.clients &&
             KeepsRecords(E(s, s.clients[t].txn.primary), E(s', s.clients[t].txn.primary))
    ensures PrimaryCommitted(s, t) ==> PrimaryCommitted(s', t)
    ensures PrimaryRolledBack(s, t) ==> PrimaryRolledBack(s', t)
  {
  }

  lemma ResolveAdvances(s: State, s': State, start: Bytes, end: Bytes, infos: map<U64, U64>, k: Bytes)
    requires Inv(s) && SameTxns(s, s') && s'.st == BatchResolveLock(s.st, start, end, infos)
    requires forall t :: t in infos ==> t in s.verdicts && infos[t] == s.verdicts[t]
    ensures Advances(s, s', k)
  {
    ResolveChanges(s, start, end, infos, k);
    var lock := E(s, k).lock;
    if lock.Some? && lock.value.startTS in infos && InRange(start, end, k) {
      var t := lock.value.startTS;
      assert VerdictGood(s, t);
      ResolveKeepsPrimary(s, s', start, end, infos, t);
      assert if infos[t] == 0 then RollsBack(s, s', k, t) else Commits(s, s', k, t);
    }
  }

  lemma StatusAdvances(s: State, s': State, t: U64, callerStartTS: U64, currentTS: U64, k: Bytes)
    requires Inv(s) && t in s.clients && SameTxns(s, s')
    requires s'.st == CheckTxnStatus(s.st, s.clients[t].txn.primary, t, callerStartTS, currentTS).1
    ensures Advances(s, s', k)
  {
    var p := s.clients[t].txn.primary;
    assert KeyGood(s, p) && ClientGood(s, t);
    VersionsApart(s, p, t);
    StatusStep(E(s, p), t, callerStartTS, currentTS);
    assert k != p ==> E(s', k) == E(s, k);
    assert E(s', p) == E(s, p) || RollsBack(s, s', p, t);
  }

  // ---- every action keeps the invariant ----

  /** What every request does: it keeps the transactions and advances keys. */
  ghost predicate Requests(s: State, s': State) {
    SameTxns(s, s') && forall k :: Advances(s, s', k)
  }

  /** Only one client learns something. */
  lemma LearnsOf(s: State, s': State, t: U64)
    requires t in s.clients && SameTxns(s, s') && s'.verdicts == s.verdicts &&
             s'.clients == s.clients[t := s'.clients[t]]
    requires forall k :: k in s'.clients[t].acked ==> k in s.clients[t].acked || AckGood(s', t, k)
    requires s.clients[t].phase.Committing? ==> s'.clients[t].acked == s.clients[t].acked
    requires s'.clients[t].primaryDone ==> s.clients[t].primaryDone || PrimaryCommitted(s', t)
    ensures Learns(s, s')
  {
    assert forall u :: u in s.clients && u != t ==> s'.clients[u] == s.clients[u];
  }

  lemma PrewriteKeeps(s: State, s': State, t: U64, keys: seq<Bytes>)
    requires Inv(s) && t in s.clients && t in s'.clients && KeysOfTxn(s.clients[t].txn, keys)
    requires var req, cl := PrewriteRequest(t, s.clients[t].txn, keys), s.clients[t];
             && s' == s.(st := Execute(s.st, req), clients := s.clients[t := cl.(acked := s'.clients[t].acked)])
             && (s'.clients[t].acked == cl.acked ||
                  (Succeeds(s.st, req) && s'.clients[t].acked == cl.acked + (set k | k in keys)))
    ensures Inv(s') && Requests(s, s')
  {
    assert s.clients[t].phase.Committing? ==> s'.clients[t].acked == s.clients[t].acked by { assert ClientGood(s, t); }
    forall k ensures Advances(s, s', k) && (k in s'.clients[t].acked ==> k in s.clients[t].acked || AckGood(s', t, k)) {
      PrewriteAdvances(s, s', keys, t, k);
    }
    LearnsOf(s, s', t);
    RequestKeeps(s, s');
  }

  lemma CommitKeeps(s: State, s': State, t: U64, keys: seq<Bytes>)
    requires Inv(s) && t in s.clients && t in s'.clients && KeysOfTxn(s.clients[t].txn, keys) &&
             s.clients[t].phase.Committing?
    requires s.clients[t].txn.primary in keys || s.clients[t].primaryDone
    requires var req, cl := Commit(keys, t, s.clients[t].phase.commitTS), s.clients[t];
             && s' == s.(st := Execute(s.st, req),
                         clients := s.clients[t := cl.(primaryDone := s'.clients[t].primaryDone)])
             && (s'.clients[t].primaryDone ==> cl.primaryDone || Succeeds(s.st, req))
    ensures Inv(s') && Requests(s, s')
  {
    forall k ensures Advances(s, s', k) { CommitAdvances(s, s', keys, t, k); }
    CommitAdvances(s, s', keys, t, s.clients[t].txn.primary);
    LearnsOf(s, s', t);
    RequestKeeps(s, s');
  }

  lemma RollbackKeeps(s: State, t: U64, keys: seq<Bytes>)
    requires Inv(s) && Enabled(s, SendRollback(t, keys))
    ensures var s' := Perform(s, SendRollback(t, keys)); Inv(s') && Requests(s, s')
  {
    var s' := Perform(s, SendRollback(t, keys));
    forall k ensures Advances(s, s', k) { RollbackAdvances(s, s', keys, t, k); }
    RequestKeeps(s, s');
  }

  lemma CleanupKeeps(s: State, t: U64, delivered: bool)
    requires Inv(s) && Enabled(s, SendCleanup(t, delivered))
    ensures var s' := Perform(s, SendCleanup(t, delivered)); Inv(s') && Requests(s, s')
  {
    var s' := Perform(s, SendCleanup(t, delivered));
    assert ClientGood(s, t);
    forall k ensures Advances(s, s', k) { RollbackAdvances(s, s', [s.clients[t].txn.primary], t, k); }
    CleanupTells(s, s', t);
    RequestKeeps(s, s');
  }

  lemma ResolveKeeps(s: State, start: Bytes, end: Bytes, infos: map<U64, U64>)
    requires Inv(s) && Enabled(s, SendBatchResolve(start, end, infos))
    ensures var s' := Perform(s, SendBatchResolve(start, end, infos)); Inv(s') && Requests(s, s')
  {
    var s' := Perform(s, SendBatchResolve(start, end, infos));
    forall k ensures Advances(s, s', k) { ResolveAdvances(s, s', start, end, infos, k); }
    RequestKeeps(s, s');
  }

  lemma StatusKeeps(s: State, t: U64, callerStartTS: U64, currentTS: U64)
    requires Inv(s) && Enabled(s, SendCheckStatus(t, callerStartTS, currentTS))
    ensures var s' := Perform(s, SendCheckStatus(t, callerStartTS, currentTS)); Inv(s') && Requests(s, s')
  {
    var s' := Perform(s, SendCheckStatus(t, callerStartTS, currentTS));
    forall k ensures Advances(s, s', k) { StatusAdvances(s, s', t, callerStartTS, currentTS, k); }
    RequestKeeps(s, s');
  }

  /** A client leaves the prewriting phase, perhaps with a new commit timestamp after all its prewrites. */
  ghost predicate Decides(s: State, s': State, t: U64)
    requires t in s.clients && t in s'.clients
  {
    var cl, cl' := s.clients[t], s'.clients[t];
    && cl.phase == Prewriting && cl' == cl.(phase := cl'.phase)
    && (cl'.phase.Committing? ==>
         cl.acked == cl.txn.intents.Keys && s.now < cl'.phase.commitTS <= s'.now && s'.clients.Keys == s.clients.Keys)
  }

  /** What the oracle and the clients do on their own: time passes, transactions begin and decide. */
  ghost predicate Proceeds(s: State, s': State) {
    && s'.st == s.st && s'.verdicts == s.verdicts && s.now <= s'.now < MAX_U64 && CommitsDistinct(s')
    && (forall t :: t in s.clients ==> t in s'.clients && (s'.clients[t] == s.clients[t] || Decides(s, s', t)))
    && (forall t :: t in s'.clients && t !in s.clients ==>
          s.now < t <= s'.now && s'.clients[t] == Client(s'.clients[t].txn, {}, Prewriting, false) &&
              WellFormed(s'.clients[t].txn))
  }

  /** The part of the invariant that these actions need: clients began by now. */
  ghost predicate BegunByNow(s: State) {
    CommitsDistinct(s) && s.now < MAX_U64 && forall t :: t in s.clients ==> t <= s.now
  }

  lemma InvBegunByNow(s: State)
    requires Inv(s)
    ensures BegunByNow(s)
  {
    assert forall t :: t in s.clients ==> ClientGood(s, t);
  }

  lemma IssueProceeds(s: State, ts: U64)
    requires BegunByNow(s) && s.now < ts < MAX_U64
    ensures Proceeds(s, s.(now := ts))
  {
  }

  lemma BeginProceeds(s: State, ts: U64, txn: Txn)
    requires BegunByNow(s) && s.now < ts < MAX_U64 && WellFormed(txn)
    ensures Proceeds(s, s.(now := ts, clients := s.clients[ts := Client(txn, {}, Prewriting, false)]))
  {
  }

  /** A client decides: it gives up or takes the next timestamp for its commit. */
  lemma DecisionProceeds(s: State, t: U64, phase: Phase, now: U64)
    requires BegunByNow(s) && t in s.clients && s.clients[t].phase == Prewriting && s.now <= now < MAX_U64
    requires phase.Committing? ==> s.clients[t].acked == s.clients[t].txn.intents.Keys && s.now < phase.commitTS == now
    requires CommitsDistinct(s.(now := now, clients := s.clients[t := s.clients[t].(phase := phase)]))
    ensures Proceeds(s, s.(now := now, clients := s.clients[t := s.clients[t].(phase := phase)]))
  {
    var s' := s.(now := now, clients := s.clients[t := s.clients[t].(phase := phase)]);
    assert s'.clients.Keys == s.clients.Keys;
    assert Decides(s, s', t);
  }

  lemma ActionProceeds(s: State, a: Action)
    requires Inv(s) && Enabled(s, a) && (a.IssueTimestamp? || a.Begin? || a.GiveUp? || a.GetCommitTimestamp?)
    ensures Proceeds(s, Perform(s, a))
  {
    InvBegunByNow(s);
    match a
    case IssueTimestamp(ts) => IssueProceeds(s, ts);
    case Begin(ts, txn) => BeginProceeds(s, ts, txn);
    case GiveUp(t) =>
      assert s.(now := s.now) == s;
      DecisionProceeds(s, t, Aborted, s.now);
    case GetCommitTimestamp(t, c) =>
      NewCommitDistinct(s, Perform(s, a), t, c);
      DecisionProceeds(s, t, Committing(c), c);
  }

  lemma NewCommitDistinct(s: State, s': State, t: U64, c: U64)
    requires Inv(s) && t in s.clients && c > s.now &&
             s'.clients == s.clients[t := s.clients[t].(phase := Committing(c))]
    ensures CommitsDistinct(s')
  {
    forall u | u in s.clients && s.clients[u].phase.Committing?
      ensures s.clients[u].phase.commitTS < c
    {
      assert ClientGood(s, u);
    }
  }

  lemma PrimaryStands(s: State, s': State, t: U64)
    requires Proceeds(s, s') && t in s.clients
    ensures PrimaryCommitted(s, t) ==> PrimaryCommitted(s', t)
    ensures PrimaryRolledBack(s, t) ==> PrimaryRolledBack(s', t)
  {
    var p := s.clients[t].txn.primary;
    assert s'.clients[t].txn.primary == p && E(s', p) == E(s, p);
  }

  lemma ProceedKeepsKey(s: State, s': State, k: Bytes)
    requires Inv(s) && Proceeds(s, s')
    ensures KeyGood(s', k)
  {
    assert KeyGood(s, k) && E(s', k) == E(s, k);
    forall v | v in E(s, k).writes ensures RecordOwned(s', k, E(s, k).writes[v], v) {
      var x := E(s, k).writes[v];
      assert RecordOwned(s, k, x, v);
      PrimaryStands(s, s', x.startTS);
    }
  }

  lemma ProceedKeepsClient(s: State, s': State, t: U64)
    requires Inv(s) && Proceeds(s, s') && t in s'.clients
    ensures ClientGood(s', t)
  {
    if t in s.clients {
      assert ClientGood(s, t);
      PrimaryStands(s, s', t);
      forall k | k in s.clients[t].acked ensures AckGood(s', t, k) { assert AckGood(s, t, k) && E(s', k) == E(s, k); }
      assert forall u :: u in s.clients ==> u <= s.now by { assert forall u :: u in s.clients ==> ClientGood(s, u); }
    }
  }

  lemma ProceedKeeps(s: State, s': State)
    requires Inv(s) && Proceeds(s, s')
    ensures Inv(s')
  {
    forall k ensures KeyGood(s', k) { ProceedKeepsKey(s, s', k); }
    forall t | t in s'.clients ensures ClientGood(s', t) { ProceedKeepsClient(s, s', t); }
    forall t | t in s'.verdicts ensures VerdictGood(s', t) {
      assert VerdictGood(s, t);
      PrimaryStands(s, s', t);
    }
  }

  lemma StepKeeps(s: State, a: Action)
    requires Inv(s)
    ensures Inv(Step(s, a)) && (Requests(s, Step(s, a)) || Proceeds(s, Step(s, a)))
  {
    if Enabled(s, a) {
      if a.IssueTimestamp? || a.Begin? || a.GiveUp? || a.GetCommitTimestamp? {
        ActionProceeds(s, a);
        ProceedKeeps(s, Perform(s, a));
      } else {
        SendKeeps(s, a);
      }
    }
  }

  lemma SendKeeps(s: State, a: Action)
    requires Inv(s) && Enabled(s, a) && !(a.IssueTimestamp? || a.Begin? || a.GiveUp? || a.GetCommitTimestamp?)
    ensures Inv(Perform(s, a)) && Requests(s, Perform(s, a))
  {
    match a
    case SendPrewrite(t, keys, delivered) => PrewriteKeeps(s, Perform(s, a), t, keys);
    case SendCommit(t, keys, delivered) => CommitKeeps(s, Perform(s, a), t, keys);
    case SendRollback(t, keys) => RollbackKeeps(s, t, keys);
    case SendCleanup(t, delivered) => CleanupKeeps(s, t, delivered);
    case SendResolve(start, end, t) => ResolveKeeps(s, start, end, map[t := s.verdicts[t]]);
    case SendBatchResolve(start, end, infos) => ResolveKeeps(s, start, end, infos);
    case SendCheckStatus(t, callerStartTS, currentTS) => StatusKeeps(s, t, callerStartTS, currentTS);
  }

  lemma {:induction false} RunKeeps(s: State, acts: seq<Action>)
    requires Inv(s)
    ensures Inv(Run(s, acts))
    decreases |acts|
  {
    if acts != [] {
      StepKeeps(s, acts[0]);
      RunKeeps(Step(s, acts[0]), acts[1..]);
    }
  }

  /** The invariant holds in every reachable state. */
  lemma ReachableInv(s: State)
    requires Reachable(s)
    ensures Inv(s)
  {
    var acts :| Run(INIT, acts) == s;
    assert forall k :: E(INIT, k) == EMPTY;
    RunKeeps(INIT, acts);
  }
}
