/**
 * Runs of the store under transactional clients and lock resolvers. Every request is one atomic
 * step; clients and resolvers differ only in when they may send which request. Requests may be
 * repeated and delayed, and their answers may be lost.
 */
module Protocol {
  import opened ByteStrings
  import opened Records
  import opened Entries
  import opened MvccStore

  /** What a transaction does to a key, fixed when the transaction begins. */
  datatype Intent = Intent(op: I32, value: Bytes)

  datatype Txn = Txn(primary: Bytes, intents: map<Bytes, Intent>, ttl: U64)

  datatype Phase = Prewriting | Aborted | Committing(commitTS: U64)

  /** A client: the keys whose prewrite it saw succeed, and whether it saw the primary's commit succeed. */
  datatype Client = Client(txn: Txn, acked: set<Bytes>, phase: Phase, primaryDone: bool)

  /**
   * The store, the last timestamp the oracle issued, the clients by start timestamp, and what
   * resolvers learned from cleaning up a primary: the commit timestamp, or 0 for rolled back.
   */
  datatype State = State(st: Store, now: U64, clients: map<U64, Client>, verdicts: map<U64, U64>)

  const INIT := State(map[], 0, map[], map[])

  datatype Action =
    | IssueTimestamp(ts: U64)
    | Begin(ts: U64, txn: Txn)
    | SendPrewrite(t: U64, keys: seq<Bytes>, delivered: bool)
    | GiveUp(t: U64)
    | GetCommitTimestamp(t: U64, c: U64)
    | SendCommit(t: U64, keys: seq<Bytes>, delivered: bool)
    | SendRollback(t: U64, keys: seq<Bytes>)
    | SendCleanup(t: U64, delivered: bool)
    | SendResolve(start: Bytes, end: Bytes, t: U64)
    | SendBatchResolve(start: Bytes, end: Bytes, infos: map<U64, U64>)
    | SendCheckStatus(t: U64, callerStartTS: U64, currentTS: U64)

  predicate WellFormed(txn: Txn) {
    txn.primary in txn.intents && txn.intents[txn.primary].op != OP_LOCK
  }

  predicate Distinct(keys: seq<Bytes>) {
    forall i, j :: 0 <= i < j < |keys| ==> keys[i] != keys[j]
  }

  predicate KeysOfTxn(txn: Txn, keys: seq<Bytes>) {
    Distinct(keys) && forall k :: k in keys ==> k in txn.intents
  }

  /**
   * The discipline: the commit timestamp is fetched after every prewrite was seen to succeed,
   * secondaries are committed only together with or after the primary, keys are rolled back only
   * after giving up, together with the primary, or on a rolled-back verdict, and resolvers act on
   * verdicts only.
   */
  predicate Enabled(s: State, a: Action) {
    match a
    case IssueTimestamp(ts) => s.now < ts < MAX_U64
    case Begin(ts, txn) => s.now < ts < MAX_U64 && WellFormed(txn)
    case SendPrewrite(t, keys, _) => t in s.clients && KeysOfTxn(s.clients[t].txn, keys)
    case GiveUp(t) => t in s.clients && s.clients[t].phase == Prewriting
    case GetCommitTimestamp(t, c) =>
      t in s.clients && s.clients[t].phase == Prewriting && s.clients[t].acked == s.clients[t].txn.intents.Keys &&
          s.now < c < MAX_U64
    case SendCommit(t, keys, _) =>
      t in s.clients && s.clients[t].phase.Committing? && KeysOfTxn(s.clients[t].txn, keys) &&
      (s.clients[t].txn.primary in keys || s.clients[t].primaryDone)
    case SendRollback(t, keys) =>
      t in s.clients && KeysOfTxn(s.clients[t].txn, keys) &&
      (s.clients[t].phase == Aborted || s.clients[t].txn.primary in keys || (t in s.verdicts && s.verdicts[t] == 0))
    case SendCleanup(t, _) => t in s.clients
    case SendResolve(_, _, t) => t in s.verdicts
    case SendBatchResolve(_, _, infos) => forall t :: t in infos ==> t in s.verdicts && infos[t] == s.verdicts[t]
    case SendCheckStatus(t, _, _) => t in s.clients
  }

  function MutationOf(txn: Txn, k: Bytes): Mutation
    requires k in txn.intents
  {
    Mutation(txn.intents[k].op, k, txn.intents[k].value)
  }

  /** The lock that prewriting key k of transaction t leaves. */
  function IntentLock(t: U64, txn: Txn, k: Bytes): Lock
    requires k in txn.intents
  {
    NewLock(MutationOf(txn, k), txn.primary, t, txn.ttl)
  }

  function PrewriteRequest(t: U64, txn: Txn, keys: seq<Bytes>): Request
    requires forall k :: k in keys ==> k in txn.intents
  {
    Prewrite(seq(|keys|, i requires 0 <= i < |keys| => MutationOf(txn, keys[i])), txn.primary, t, txn.ttl)
  }

  /** What KvCleanup answers: 0 when rolled back, else the commit timestamp. */
  ghost function CleanupVerdict(st: Store, key: Bytes, t: U64): U64 {
    match RollbackKey(At(st, key), t)
    case Err(AlreadyCommitted(c)) => c
    case _ => 0
  }

  ghost function Perform(s: State, a: Action): State
    requires Enabled(s, a)
  {
    match a
    case IssueTimestamp(ts) => s.(now := ts)
    case Begin(ts, txn) => s.(now := ts, clients := s.clients[ts := Client(txn, {}, Prewriting, false)])
    case SendPrewrite(t, keys, delivered) =>
      var cl := s.clients[t];
      var req := PrewriteRequest(t, cl.txn, keys);
      var acked := if delivered && Succeeds(s.st, req) then cl.acked + (set k | k in keys) else cl.acked;
      s.(st := Execute(s.st, req), clients := s.clients[t := cl.(acked := acked)])
    case GiveUp(t) => s.(clients := s.clients[t := s.clients[t].(phase := Aborted)])
    case GetCommitTimestamp(t, c) => s.(now := c, clients := s.clients[t := s.clients[t].(phase := Committing(c))])
    case SendCommit(t, keys, delivered) =>
      var cl := s.clients[t];
      var req := Commit(keys, t, cl.phase.commitTS);
      var done := cl.primaryDone || (delivered && cl.txn.primary in keys && Succeeds(s.st, req));
      s.(st := Execute(s.st, req), clients := s.clients[t := cl.(primaryDone := done)])
    case SendRollback(t, keys) => s.(st := Execute(s.st, Rollback(keys, t)))
    case SendCleanup(t, delivered) =>
      var primary := s.clients[t].txn.primary;
      var verdicts := if delivered then s.verdicts[t := CleanupVerdict(s.st, primary, t)] else s.verdicts;
      s.(st := Execute(s.st, Rollback([primary], t)), verdicts := verdicts)
    case SendResolve(start, end, t) => s.(st := ResolveLock(s.st, start, end, t, s.verdicts[t]))
    case SendBatchResolve(start, end, infos) => s.(st := BatchResolveLock(s.st, start, end, infos))
    case SendCheckStatus(t, callerStartTS, currentTS) =>
      s.(st := CheckTxnStatus(s.st, s.clients[t].txn.primary, t, callerStartTS, currentTS).1)
  }

  /** An action that is not enabled does not happen. */
  ghost function Step(s: State, a: Action): State {
    if Enabled(s, a) then Perform(s, a) else s
  }

  ghost function Run(s: State, acts: seq<Action>): State
    decreases |acts|
  {
    if acts == [] then s else Run(Step(s, acts[0]), acts[1..])
  }

  ghost predicate Reachable(s: State) {
    exists acts :: Run(INIT, acts) == s
  }

  // ---- what a state says about a transaction and a key ----

  function E(s: State, k: Bytes): Entry { At(s.st, k) }

  ghost predicate IsData(v: Value) { v.valueType != TYPE_ROLLBACK }

  ghost predicate Holds(e: Entry, t: U64) {
    e.lock.Some? && e.lock.value.startTS == t
  }

  /** Transaction t has a put or delete at commit timestamp c. */
  ghost predicate CommittedAt(e: Entry, t: U64, c: U64) {
    c in e.writes && e.writes[c].startTS == t && IsData(e.writes[c])
  }

  ghost predicate RolledBack(e: Entry, t: U64) {
    t in e.writes && e.writes[t] == Tombstone(t)
  }

  ghost predicate HasRecord(e: Entry, t: U64) {
    exists v :: v in e.writes && e.writes[v].startTS == t
  }

  ghost predicate PrimaryCommitted(s: State, t: U64) {
    && t in s.clients && s.clients[t].phase.Committing?
    && CommittedAt(E(s, s.clients[t].txn.primary), t, s.clients[t].phase.commitTS)
  }

  ghost predicate PrimaryRolledBack(s: State, t: U64) {
    t in s.clients && RolledBack(E(s, s.clients[t].txn.primary), t)
  }
}
