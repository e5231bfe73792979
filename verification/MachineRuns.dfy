/** Throughout a run the database and the in-memory machine of a key stay in step. */
module MachineRuns {
  import opened ByteStrings
  import opened Entries
  import opened Protocol
  import opened EntryInvariant
  import opened ProtocolInvariant
  import opened MvccEntryMachine

  /** In a reachable state neither a commit nor a rollback of a transaction writes at a version that exists. */
  lemma NoVersionReused(s: State, k: Bytes, t: U64)
    requires Reachable(s) && t in s.clients
    ensures !RollbackReusesVersion(E(s, k), t)
    ensures s.clients[t].phase.Committing? ==> !CommitReusesVersion(E(s, k), t, s.clients[t].phase.commitTS)
  {
    ReachableInv(s);
    var e := E(s, k);
    assert KeyGood(s, k) && ClientGood(s, t);
    VersionsApart(s, k, t);
    if t in e.writes {
      assert HasRecord(e, t);
      FindInKey(e, t);
    }
  }

  /** So every step of every run leaves the machine with the same lock and versions as the database. */
  lemma StaysInStep(s: State, k: Bytes, t: U64)
    requires Reachable(s) && t in s.clients
    ensures k in s.clients[t].txn.intents ==>
            var txn := s.clients[t].txn;
            var step := PrewriteKey(E(s, k), MutationOf(txn, k), txn.primary, t, txn.ttl);
            ListPrewrite(Listing(E(s, k)), MutationOf(txn, k), txn.primary, t, txn.ttl).1 ==
            Listing(if step.Ok? then ApplyWrites(E(s, k), step.value) else E(s, k))
    ensures s.clients[t].phase.Committing? ==>
            var step := CommitKey(E(s, k), t, s.clients[t].phase.commitTS);
            ListCommit(Listing(E(s, k)), t, s.clients[t].phase.commitTS).1 ==
            Listing(if step.Ok? then ApplyWrites(E(s, k), step.value) else E(s, k))
    ensures var step := RollbackKey(E(s, k), t);
            ListRollback(Listing(E(s, k)), t).1 ==
            Listing(if step.Ok? then ApplyWrites(E(s, k), step.value) else E(s, k))
  {
    ReachableInv(s);
    assert KeyGood(s, k) && ClientGood(s, t);
    NoVersionReused(s, k, t);
    if k in s.clients[t].txn.intents {
      PrewriteRefines(E(s, k), MutationOf(s.clients[t].txn, k), s.clients[t].txn.primary, t, s.clients[t].txn.ttl);
    }
    if s.clients[t].phase.Committing? { CommitRefines(E(s, k), t, s.clients[t].phase.commitTS); }
    RollbackRefines(E(s, k), t);
  }
}
