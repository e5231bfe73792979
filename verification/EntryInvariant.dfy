/** The invariant of a single key, and the four ways in which a request may change a key. */
module EntryInvariant {
  import opened ByteStrings
  import opened Codec
  import opened Records
  import opened Entries
  import opened MvccStore
  import opened Protocol

  /** Each record sits at its commit timestamp; a rollback record is its transaction's tombstone. */
  ghost predicate Placed(w: map<U64, Value>) {
    forall v :: v in w ==>
      v < MAX_U64 && w[v].commitTS == v && if IsData(w[v]) then w[v].startTS < v else w[v] == Tombstone(v)
  }

  /** At most one record per transaction. */
  ghost predicate OnePerTxn(w: map<U64, Value>) {
    forall u, v :: u in w && v in w && w[u].startTS == w[v].startTS ==> u == v
  }

  /** Puts and deletes have disjoint intervals [startTS, commitTS]. */
  ghost predicate NoOverlap(w: map<U64, Value>) {
    forall u, v :: u in w && v in w && u < v && IsData(w[u]) && IsData(w[v]) ==> u < w[v].startTS
  }

  /** The lock's owner has no record, and every put or delete was committed before the owner began. */
  ghost predicate LockAhead(e: Entry) {
    e.lock.Some? ==> forall v :: v in e.writes ==>
      e.writes[v].startTS != e.lock.value.startTS && (IsData(e.writes[v]) ==> v < e.lock.value.startTS)
  }

  ghost predicate KeyInv(e: Entry) {
    Placed(e.writes) && OnePerTxn(e.writes) && NoOverlap(e.writes) && LockAhead(e)
  }

  // ---- what the searches find in such a key ----

  lemma FindInKey(e: Entry, t: U64)
    requires KeyInv(e)
    ensures FindTxn(History(e), t) == None <==> !HasRecord(e, t)
    ensures FindTxn(History(e), t).Some? ==>
            var x := FindTxn(History(e), t).value;
            x.commitTS in e.writes && e.writes[x.commitTS] == x && x.startTS == t
  {
    FindTxnBelow(e.writes, MAX_U64, t);
  }

  lemma NewestInKey(e: Entry, t: U64)
    requires KeyInv(e)
    ensures History(e) == [] || History(e)[0].commitTS < t <==> forall v :: v in e.writes ==> v < t
  {
    NewestBelow(e.writes, MAX_U64);
  }

  // ---- the changes ----

  /** A new lock: the key is free and its newest record is older than the transaction. */
  ghost predicate GetsLock(e: Entry, e': Entry, l: Lock) {
    e.lock.None? && (forall v :: v in e.writes ==> v < l.startTS) && e' == e.(lock := Some(l))
  }

  /** The transaction's lock becomes its record at c, or vanishes if it is a mere lock. */
  ghost predicate GetsCommitted(e: Entry, e': Entry, t: U64, c: U64) {
    && Holds(e, t) && t < c < MAX_U64 && c !in e.writes
    && e'.lock == None
    && e'.writes == if e.lock.value.op == OP_LOCK then e.writes else e.writes[c := CommitRecord(e.lock.value, t, c)]
  }

  /** The transaction's tombstone is written, in place of its lock if it holds one. */
  ghost predicate GetsRolledBack(e: Entry, e': Entry, t: U64) {
    && !HasRecord(e, t) && t < MAX_U64 && t !in e.writes
    && e' == Entry(if Holds(e, t) then None else e.lock, e.writes[t := Tombstone(t)])
  }

  /** No record is lost or changed. */
  ghost predicate KeepsRecords(e: Entry, e': Entry) {
    forall v :: v in e.writes ==> v in e'.writes && e'.writes[v] == e.writes[v]
  }

  lemma LockKeepsKeyInv(e: Entry, e': Entry, l: Lock)
    requires KeyInv(e) && GetsLock(e, e', l)
    ensures KeyInv(e')
  {
    forall v | v in e.writes ensures e.writes[v].startTS != l.startTS {
      assert e.writes[v].startTS <= v;
    }
  }

  lemma CommitKeepsKeyInv(e: Entry, e': Entry, t: U64, c: U64)
    requires KeyInv(e) && GetsCommitted(e, e', t, c)
    ensures KeyInv(e')
  {
  }

  lemma RollbackKeepsKeyInv(e: Entry, e': Entry, t: U64)
    requires KeyInv(e) && GetsRolledBack(e, e', t)
    ensures KeyInv(e')
  {
    assert forall v :: v in e.writes ==> e.writes[v].startTS != t;
    assert Placed(e'.writes) && OnePerTxn(e'.writes);
    assert NoOverlap(e'.writes);
  }

  // ---- the steps of a request on such a key ----

  lemma PrewriteStep(e: Entry, m: Mutation, primary: Bytes, t: U64, ttl: U64)
    requires KeyInv(e)
    ensures var step := PrewriteKey(e, m, primary, t, ttl);
            step.Ok? ==>
              var e' := ApplyWrites(e, step.value);
              (Holds(e, t) && e' == e) || GetsLock(e, e', NewLock(m, primary, t, ttl))
    ensures var step := PrewriteKey(e, m, primary, t, ttl);
            step.Ok? && !Holds(e, t) ==>
                ApplyWrites(e, step.value).lock == Some(Lock(t, primary, m.value, m.op, ttl, 0))
    ensures var step := PrewriteKey(e, m, primary, t, ttl);
            step.Ok? <==> Holds(e, t) || (e.lock.None? && forall v :: v in e.writes ==> v < t)
    ensures var step := PrewriteKey(e, m, primary, t, ttl);
            && (e.lock.None? && step.Err? ==> step.error == Retryable("write conflict"))
            && (e.lock.Some? && e.lock.value.startTS != t ==>
                  var l := e.lock.value;
                  step == Err(Locked(MvccEncode(m.key, MAX_U64), l.primary, l.startTS, l.ttl)))
  {
    NewestInKey(e, t);
    var step := PrewriteKey(e, m, primary, t, ttl);
    if step.Ok? && step.value != [] { assert step.value[1..] == []; }
  }

  lemma CommitStep(e: Entry, t: U64, c: U64)
    requires KeyInv(e) && t < c < MAX_U64 && (Holds(e, t) ==> c !in e.writes)
    ensures var step := CommitKey(e, t, c);
            step.Ok? ==>
              var e' := ApplyWrites(e, step.value);
              (!Holds(e, t) && e' == e && exists v :: CommittedAt(e, t, v)) || GetsCommitted(e, e', t, c)
    ensures CommitKey(e, t, c).Ok? <==> Holds(e, t) || exists v :: CommittedAt(e, t, v)
    ensures CommitKey(e, t, c).Err? ==> CommitKey(e, t, c).error == Retryable("txn not found")
  {
    FindInKey(e, t);
    if Holds(e, t) { ApplyCommitLock(e, e.lock.value, t, c); }
    var found := FindTxn(History(e), t);
    if found.Some? && IsData(found.value) { assert CommittedAt(e, t, found.value.commitTS); }
    if v :| CommittedAt(e, t, v) { assert found.value.commitTS == v; }
  }

  /** Rolling back fails exactly on a committed transaction, and says when it committed. */
  lemma RollbackStep(e: Entry, t: U64)
    requires KeyInv(e) && t < MAX_U64 && (t in e.writes ==> e.writes[t].startTS == t)
    ensures var step := RollbackKey(e, t);
            step.Ok? ==>
              var e' := ApplyWrites(e, step.value);
              RolledBack(e', t) && ((!Holds(e, t) && RolledBack(e, t) && e' == e) || GetsRolledBack(e, e', t))
    ensures forall c :: RollbackKey(e, t) == Err(AlreadyCommitted(c)) <==> !Holds(e, t) && CommittedAt(e, t, c)
    ensures RollbackKey(e, t).Err? ==> RollbackKey(e, t).error.AlreadyCommitted?
  {
    FindInKey(e, t);
    ApplyRollbackLock(e, t);
    var found := FindTxn(History(e), t);
    forall c ensures RollbackKey(e, t) == Err(AlreadyCommitted(c)) <==> !Holds(e, t) && CommittedAt(e, t, c) {
      if CommittedAt(e, t, c) && found.Some? { assert found.value.commitTS == c; }
      if RollbackKey(e, t) == Err(AlreadyCommitted(c)) { assert found.value.commitTS == c; }
    }
    var step := RollbackKey(e, t);
    if step.Ok? && !Holds(e, t) && step.value != [] { assert step.value[1..] == []; }
  }

  /** Resolving the lock of a listed transaction turns it into its record or its tombstone. */
  lemma ResolveStep(e: Entry, infos: map<U64, U64>)
    requires KeyInv(e) && e.lock.Some? && e.lock.value.startTS in infos
    requires var t := e.lock.value.startTS; t < MAX_U64 && t !in e.writes
    requires var c := infos[e.lock.value.startTS]; c == 0 || (e.lock.value.startTS < c < MAX_U64 && c !in e.writes)
    ensures var t, e' := e.lock.value.startTS, ApplyWrites(e, ResolveListed(e.lock, infos));
            if infos[t] == 0 then GetsRolledBack(e, e', t) else GetsCommitted(e, e', t, infos[t])
  {
    var t := e.lock.value.startTS;
    ApplyRollbackLock(e, t);
    ApplyCommitLock(e, e.lock.value, t, infos[t]);
  }

  /** A status check rolls an expired lock back; a live lock is written back as it was, as stored. */
  lemma StatusStep(e: Entry, t: U64, callerStartTS: U64, currentTS: U64)
    requires KeyInv(e) && t < MAX_U64 && (Holds(e, t) ==> t !in e.writes && e.lock.value.minCommitTS == 0)
    ensures var e' := ApplyWrites(e, CheckStatusKey(e, t, callerStartTS, currentTS).1);
            if Holds(e, t) && Expired(e.lock.value, currentTS) then GetsRolledBack(e, e', t) else e' == e
  {
    ApplyRollbackLock(e, t);
    if Holds(e, t) && !Expired(e.lock.value, currentTS) {
      var l := e.lock.value;
      var w := PutLock(l.(minCommitTS := PushedMinCommitTS(l, callerStartTS, currentTS)));
      assert CheckStatusKey(e, t, callerStartTS, currentTS).1 == [w];
      assert [w][1..] == [];
      assert ApplyWrites(e, [w]) == ApplyWrites(ApplyWrite(e, w), []) == ApplyWrite(e, w);
    }
  }

  /**
   * After a commit, committing again succeeds and a cleanup is refused exactly when the lock was
   * more than a mere lock, which leaves no record. So a mere lock cannot serve as a primary.
   */
  lemma CommitRetryExactly(e: Entry, t: U64, c: U64, d: U64)
    requires KeyInv(e) && Holds(e, t) && t < c < MAX_U64 && c !in e.writes && t !in e.writes && t < d < MAX_U64
    ensures var e' := ApplyWrites(e, CommitKey(e, t, c).value);
            && (CommitKey(e', t, d).Ok? <==> e.lock.value.op != OP_LOCK)
            && (RollbackKey(e', t).Err? <==> e.lock.value.op != OP_LOCK)
  {
    CommitStep(e, t, c);
    var e' := ApplyWrites(e, CommitKey(e, t, c).value);
    CommitKeepsKeyInv(e, e', t, c);
    CommitStep(e', t, d);
    RollbackStep(e', t);
    if e.lock.value.op != OP_LOCK { assert CommittedAt(e', t, c); }
  }
}
