/** What a status check that answers (0, 0) is worth to a resolver. */
module StatusVerdicts {
  import opened ByteStrings
  import opened Records
  import opened Entries
  import opened MvccStore
  import opened Protocol
  import opened EntryInvariant
  import opened ProtocolInvariant
  import opened ProtocolTheorems

  ghost function Primary(s: State, t: U64): Entry
    requires t in s.clients
  {
    E(s, s.clients[t].txn.primary)
  }

  /** The answer to a status check on the transaction's primary. */
  ghost function StatusOf(s: State, t: U64, callerStartTS: U64, currentTS: U64): Status
    requires t in s.clients
  {
    CheckTxnStatus(s.st, s.clients[t].txn.primary, t, callerStartTS, currentTS).0
  }

  /** The primary lock is held and has outlived its time. */
  ghost predicate LockExpired(s: State, t: U64, currentTS: U64)
    requires t in s.clients
  {
    Holds(Primary(s, t), t) && Expired(Primary(s, t).lock.value, currentTS)
  }

  /** The answer is (0, 0) exactly on an expired lock, a lock without time to live, or no lock and no commit. */
  lemma ZeroStatusExactly(s: State, t: U64, callerStartTS: U64, currentTS: U64)
    requires Reachable(s) && t in s.clients
    ensures StatusOf(s, t, callerStartTS, currentTS) == Status(0, 0) <==>
            if Holds(Primary(s, t), t) then LockExpired(s, t, currentTS) || s.clients[t].txn.ttl == 0
            else forall c :: !CommittedAt(Primary(s, t), t, c)
  {
    ReachableInv(s);
    var e := Primary(s, t);
    assert KeyGood(s, s.clients[t].txn.primary) && ClientGood(s, t);
    FindInKey(e, t);
    var found := FindTxn(History(e), t);
    if found.Some? && IsData(found.value) { assert CommittedAt(e, t, found.value.commitTS); }
    if c :| CommittedAt(e, t, c) { assert HasRecord(e, t) && found.value.commitTS == c; }
  }

  /** A status check that finds neither lock nor record answers "not committed" and leaves nothing behind. */
  lemma StatusLeavesNoTrace(s: State, t: U64, callerStartTS: U64, currentTS: U64)
    requires Reachable(s) && t in s.clients && !Holds(Primary(s, t), t) && !HasRecord(Primary(s, t), t)
    ensures StatusOf(s, t, callerStartTS, currentTS) == Status(0, 0)
    ensures Same(CheckTxnStatus(s.st, s.clients[t].txn.primary, t, callerStartTS, currentTS).1, s.st)
  {
    ReachableInv(s);
    assert KeyGood(s, s.clients[t].txn.primary);
    FindInKey(Primary(s, t), t);
  }

  /**
   * After an answer of (0, 0) the transaction is rolled back on its primary if and only if it was
   * before or its lock had expired; then no later run commits it on any key.
   */
  lemma ZeroStatusIsVerdictExactly(s: State, t: U64, callerStartTS: U64, currentTS: U64)
    requires Reachable(s) && t in s.clients && StatusOf(s, t, callerStartTS, currentTS) == Status(0, 0)
    ensures var s' := Step(s, SendCheckStatus(t, callerStartTS, currentTS));
            && (PrimaryRolledBack(s', t) <==> PrimaryRolledBack(s, t) || LockExpired(s, t, currentTS))
            && (PrimaryRolledBack(s', t) ==> forall acts, k, c :: !CommittedAt(E(Run(s', acts), k), t, c))
  {
    ReachableInv(s);
    var s' := Step(s, SendCheckStatus(t, callerStartTS, currentTS));
    var p := s.clients[t].txn.primary;
    assert KeyGood(s, p) && ClientGood(s, t);
    VersionsApart(s, p, t);
    StatusStep(E(s, p), t, callerStartTS, currentTS);
    RunOne(s, SendCheckStatus(t, callerStartTS, currentTS));
    RunReachable(s, [SendCheckStatus(t, callerStartTS, currentTS)]);
    if PrimaryRolledBack(s', t) {
      forall acts ensures forall k, c :: !CommittedAt(E(Run(s', acts), k), t, c) { NeverCommitted(s', acts, t); }
    }
  }

  // ---- it is no verdict otherwise ----

  /** The answer is (0, 0), and there is a later run that commits the transaction. */
  ghost predicate NoVerdict(s: State, t: U64, acts: seq<Action>, c: U64) {
    && Reachable(s) && t in s.clients && StatusOf(s, t, 0, 0) == Status(0, 0)
    && CommittedAt(E(Run(s, acts), s.clients[t].txn.primary), t, c)
  }

  /** A client that holds its primary lock and its commit timestamp commits, whatever a status check answered. */
  lemma HeldPrimaryCommits(s: State, t: U64)
    requires Inv(s) && t in s.clients && s.clients[t].phase.Committing? && Holds(Primary(s, t), t)
    ensures var p := s.clients[t].txn.primary;
            var e := E(Step(s, SendCommit(t, [p], true)), p);
            e.lock == None && CommittedAt(e, t, s.clients[t].phase.commitTS)
  {
    var p, c := s.clients[t].txn.primary, s.clients[t].phase.commitTS;
    assert ClientGood(s, t) && KeyGood(s, p);
    assert Outcome(s.st, Commit([p], t, c), 0) == CommitKey(E(s, p), t, c);
    CommitReaches(s, Step(s, SendCommit(t, [p], true)), [p], t, p);
  }

  /** So a live lock without time to live is answered (0, 0), and its owner may commit right after. */
  lemma LiveLockCommitsLater(s: State, t: U64, callerStartTS: U64, currentTS: U64)
    requires Reachable(s) && t in s.clients && s.clients[t].phase.Committing? && s.clients[t].txn.ttl == 0
    requires Holds(Primary(s, t), t) && !LockExpired(s, t, currentTS)
    ensures var p, s' := s.clients[t].txn.primary, Step(s, SendCheckStatus(t, callerStartTS, currentTS));
            && StatusOf(s, t, callerStartTS, currentTS) == Status(0, 0)
            && CommittedAt(E(Step(s', SendCommit(t, [p], true)), p), t, s.clients[t].phase.commitTS)
  {
    ZeroStatusExactly(s, t, callerStartTS, currentTS);
    var p, s' := s.clients[t].txn.primary, Step(s, SendCheckStatus(t, callerStartTS, currentTS));
    Onward(s, SendCheckStatus(t, callerStartTS, currentTS));
    ReachableInv(s);
    assert KeyGood(s, p) && ClientGood(s, t);
    StatusStep(E(s, p), t, callerStartTS, currentTS);
    HeldPrimaryCommits(s', t);
  }

  lemma FreePrewriteSucceeds(s: State, t: U64, k: Bytes) returns (s': State)
    requires Inv(s) && t in s.clients && k in s.clients[t].txn.intents && E(s, k) == EMPTY
    ensures s' == Step(s, SendPrewrite(t, [k], true)) && Inv(s') && Holds(E(s', k), t) && s'.now == s.now
    ensures t in s'.clients && s'.clients[t] == s.clients[t].(acked := s.clients[t].acked + {k})
  {
    var txn := s.clients[t].txn;
    s' := Step(s, SendPrewrite(t, [k], true));
    assert Succeeds(s.st, PrewriteRequest(t, txn, [k])) by {
      assert KeyGood(s, k);
      PrewriteStep(E(s, k), MutationOf(txn, k), txn.primary, t, txn.ttl);
      assert Outcome(s.st, PrewriteRequest(t, txn, [k]), 0).Ok?;
    }
    PrewriteAdvances(s, s', [k], t, k);
    StepKeeps(s, SendPrewrite(t, [k], true));
    assert (set x | x in [k]) == {k};
  }

  /** The run of a transaction that writes a single key: begun, prewritten, ready to commit, committed. */
  lemma LoneRun(k: Bytes, intent: Intent) returns (s0: State, s1: State, s2: State, s3: State)
    requires intent.op != OP_LOCK
    ensures var txn := Txn(k, map[k := intent], 0);
            && s0.clients == map[1 := Client(txn, {}, Prewriting, false)] && s0.st == map[]
            && s1 == Step(s0, SendPrewrite(1, [k], true)) && s2 == Step(s1, GetCommitTimestamp(1, 2))
            && s3 == Step(s2, SendCommit(1, [k], true))
            && 1 in s1.clients && s1.clients[1].txn == txn && 1 in s2.clients && s2.clients[1].txn == txn
            && 1 in s3.clients && s3.clients[1].txn == txn
    ensures Reachable(s0) && Reachable(s1) && Reachable(s2) && Reachable(s3)
    ensures Holds(E(s1, k), 1) && Holds(E(s2, k), 1) && CommittedAt(E(s3, k), 1, 2) && E(s3, k).lock == None &&
            s3.now == 2
  {
    var txn := Txn(k, map[k := intent], 0);
    s0 := Step(INIT, Begin(1, txn));
    Onward(INIT, Begin(1, txn));
    s1 := FreePrewriteSucceeds(s0, 1, k);
    Onward(s0, SendPrewrite(1, [k], true));
    s2 := Step(s1, GetCommitTimestamp(1, 2));
    Onward(s1, GetCommitTimestamp(1, 2));
    assert s1.clients[1].acked == txn.intents.Keys;
    assert s2.clients[1] == s1.clients[1].(phase := Committing(2)) && E(s2, k) == E(s1, k);
    s3 := Step(s2, SendCommit(1, [k], true));
    Onward(s2, SendCommit(1, [k], true));
    HeldPrimaryCommits(s2, 1);
  }

  lemma Onward(s: State, a: Action)
    requires Reachable(s) || s == INIT
    ensures Reachable(Step(s, a)) && Inv(Step(s, a))
  {
    assert Run(INIT, []) == INIT;
    RunOne(s, a);
    RunReachable(s, [a]);
    ReachableInv(Step(s, a));
  }

  lemma RunThree(s: State, a1: Action, a2: Action, a3: Action)
    ensures Run(s, [a1, a2, a3]) == Step(Step(Step(s, a1), a2), a3)
  {
    assert [a1, a2, a3][1..] == [a2, a3] && [a2, a3][1..] == [a3];
    RunOne(Step(Step(s, a1), a2), a3);
    assert Run(Step(s, a1), [a2, a3]) == Run(Step(Step(s, a1), a2), [a3]);
  }

  /** A status check that found nothing: the transaction had not reached its primary yet. */
  lemma UnseenTxnCommitsLater() returns (s: State, acts: seq<Action>)
    ensures NoVerdict(s, 1, acts, 2) && !Holds(Primary(s, 1), 1)
  {
    var k: Bytes := [1];
    var s1, s2, s3;
    s, s1, s2, s3 := LoneRun(k, Intent(OP_PUT, []));
    acts := [SendPrewrite(1, [k], true), GetCommitTimestamp(1, 2), SendCommit(1, [k], true)];
    assert E(s, k) == EMPTY;
    StatusLeavesNoTrace(s, 1, 0, 0);
    RunThree(s, acts[0], acts[1], acts[2]);
  }

  /** A status check that found a live lock without time to live. */
  lemma LiveTxnCommitsLater() returns (s: State, acts: seq<Action>)
    ensures NoVerdict(s, 1, acts, 2) && Holds(Primary(s, 1), 1)
  {
    var k: Bytes := [1];
    var s0, s1, s3;
    s0, s1, s, s3 := LoneRun(k, Intent(OP_PUT, []));
    acts := [SendCommit(1, [k], true)];
    ZeroStatusExactly(s, 1, 0, 0);
    RunOne(s, acts[0]);
  }
}
