/**
 * One key of the store: at most one lock and the key's versions, and what each transactional
 * request does to a single key.
 */
module Entries {
  import opened ByteStrings
  import opened Codec
  import opened Records

  datatype Entry = Entry(lock: Option<Lock>, writes: map<U64, Value>)

  const EMPTY := Entry(None, map[])

  datatype Mutation = Mutation(op: I32, key: Bytes, value: Bytes)

  datatype Error =
    | Locked(key: Bytes, primary: Bytes, startTS: U64, ttl: U64)
    | Retryable(message: string)
    | AlreadyCommitted(commitTS: U64)

  datatype Result<+T> = Ok(value: T) | Err(error: Error)

  /** What a request puts into the batch for one key. */
  datatype Write = PutLock(lock: Lock) | PutValue(ver: U64, value: Value) | DropLock

  // ---- the versions of a key, newest first ----

  ghost function Versions(w: map<U64, Value>, bound: nat): seq<Value>
    requires bound <= MAX_U64
  {
    if bound == 0 then []
    else if bound - 1 in w then [w[bound - 1]] + Versions(w, bound - 1)
    else Versions(w, bound - 1)
  }

  ghost function History(e: Entry): seq<Value> {
    Versions(e.writes, MAX_U64)
  }

  /** The first version of transaction startTS: getTxnCommitInfo. */
  function FindTxn(vs: seq<Value>, startTS: U64): Option<Value> {
    if vs == [] then None else if vs[0].startTS == startTS then Some(vs[0]) else FindTxn(vs[1..], startTS)
  }

  /** The first put or delete visible at ts. */
  function FirstVisible(vs: seq<Value>, ts: U64): Option<Value> {
    if vs == [] then None
    else if vs[0].valueType != TYPE_ROLLBACK && vs[0].commitTS <= ts then Some(vs[0])
    else FirstVisible(vs[1..], ts)
  }

  // ---- reading ----

  function LockError(l: Lock, key: Bytes): Error {
    Locked(MvccEncode(key, MAX_U64), l.primary, l.startTS, l.ttl)
  }

  /** mvccLock.check: the timestamp to read at in the presence of a lock. */
  function CheckLock(l: Lock, ts: U64, key: Bytes): Result<U64> {
    if l.startTS > ts || l.op == OP_LOCK then Ok(ts)
    else if ts == MAX_U64 && l.primary == key then Ok(if l.startTS == 0 then MAX_U64 else l.startTS - 1)
    else Err(LockError(l, key))
  }

  function ReadTimestamp(lock: Option<Lock>, ts: U64, key: Bytes, si: bool): Result<U64> {
    if si && lock.Some? then CheckLock(lock.value, ts, key) else Ok(ts)
  }

  function ValueRead(v: Option<Value>): Option<Bytes> {
    if v.None? || v.value.valueType == TYPE_DELETE then None else Some(v.value.value)
  }

  /** The point read of a key. */
  ghost function Read(e: Entry, key: Bytes, ts: U64, si: bool): Result<Option<Bytes>> {
    match ReadTimestamp(e.lock, ts, key, si)
    case Err(error) => Err(error)
    case Ok(at) => Ok(ValueRead(FirstVisible(History(e), at)))
  }

  // ---- the transactional steps on one key ----

  function Tombstone(startTS: U64): Value {
    Value(TYPE_ROLLBACK, startTS, startTS, [])
  }

  function CommitRecord(l: Lock, startTS: U64, commitTS: U64): Value {
    Value(if l.op == OP_PUT then TYPE_PUT else TYPE_DELETE, startTS, commitTS, l.value)
  }

  function CommitLock(l: Lock, startTS: U64, commitTS: U64): seq<Write> {
    (if l.op != OP_LOCK then [PutValue(commitTS, CommitRecord(l, startTS, commitTS))] else []) + [DropLock]
  }

  function RollbackLock(startTS: U64): seq<Write> {
    [PutValue(startTS, Tombstone(startTS)), DropLock]
  }

  function NewLock(m: Mutation, primary: Bytes, startTS: U64, ttl: U64): Lock {
    Lock(startTS, primary, m.value, m.op, ttl, 0)
  }

  ghost function PrewriteKey(e: Entry, m: Mutation, primary: Bytes, startTS: U64, ttl: U64): Result<seq<Write>> {
    if e.lock.Some? then
      if e.lock.value.startTS != startTS then Err(LockError(e.lock.value, m.key)) else Ok([])
    else if History(e) != [] && History(e)[0].commitTS >= startTS then Err(Retryable("write conflict"))
    else Ok([PutLock(NewLock(m, primary, startTS, ttl))])
  }

  ghost function CommitKey(e: Entry, startTS: U64, commitTS: U64): Result<seq<Write>> {
    if e.lock.None? || e.lock.value.startTS != startTS then
      var c := FindTxn(History(e), startTS);
      if c.Some? && c.value.valueType != TYPE_ROLLBACK then Ok([]) else Err(Retryable("txn not found"))
    else Ok(CommitLock(e.lock.value, startTS, commitTS))
  }

  ghost function RollbackKey(e: Entry, startTS: U64): Result<seq<Write>> {
    if e.lock.Some? && e.lock.value.startTS == startTS then Ok(RollbackLock(startTS))
    else
      var c := FindTxn(History(e), startTS);
      if c.None? then Ok([PutValue(startTS, Tombstone(startTS))])
      else if c.value.valueType != TYPE_ROLLBACK then Err(AlreadyCommitted(c.value.commitTS))
      else Ok([])
  }

  /** What ResolveLock does to a locked key: commit if a commit timestamp is given, else roll back. */
  function ResolveKey(lock: Option<Lock>, startTS: U64, commitTS: U64): seq<Write> {
    if lock.None? || lock.value.startTS != startTS then []
    else if commitTS > 0 then CommitLock(lock.value, startTS, commitTS)
    else RollbackLock(startTS)
  }

  /** The physical part of a timestamp. */
  function ExtractPhysical(ts: U64): (p: nat)
    ensures p * 0x4_0000 <= ts < (p + 1) * 0x4_0000
  {
    ts / 0x4_0000
  }

  /** Whether a lock's time to live is over, in wrapping uint64 arithmetic. */
  predicate Expired(l: Lock, currentTS: U64) {
    (ExtractPhysical(l.startTS) + l.ttl) % TWO64 < ExtractPhysical(currentTS)
  }

  /** minCommitTS after the pushes of CheckTxnStatus; callerStartTS + 1 wraps. */
  function PushedMinCommitTS(l: Lock, callerStartTS: U64, currentTS: U64): U64 {
    var next := (callerStartTS + 1) % TWO64;
    var m := if l.minCommitTS > 0 && l.minCommitTS < next then next else l.minCommitTS;
    if m < currentTS then currentTS else m
  }

  /** The push raises minCommitTS to the current timestamp and, if it was set, above the caller's, and no further. */
  lemma PushedExactly(l: Lock, callerStartTS: U64, currentTS: U64)
    ensures var m := PushedMinCommitTS(l, callerStartTS, currentTS);
            && l.minCommitTS <= m && currentTS <= m
            && (l.minCommitTS > 0 && callerStartTS < MAX_U64 ==> callerStartTS < m)
            && (m == l.minCommitTS || m == currentTS || (l.minCommitTS > 0 && m == callerStartTS + 1))
  {
    if callerStartTS == MAX_U64 { assert (callerStartTS + 1) % TWO64 == 0; }
  }

  datatype Status = Status(ttl: U64, commitTS: U64)

  /** CheckTxnStatus on the primary: the answer and the writes. */
  ghost function CheckStatusKey(e: Entry, lockTS: U64, callerStartTS: U64, currentTS: U64): (Status, seq<Write>) {
    if e.lock.Some? && e.lock.value.startTS == lockTS then
      var l := e.lock.value;
      if Expired(l, currentTS) then (Status(0, 0), RollbackLock(lockTS))
      else (Status(l.ttl, 0), [PutLock(l.(minCommitTS := PushedMinCommitTS(l, callerStartTS, currentTS)))])
    else
      var c := FindTxn(History(e), lockTS);
      if c.Some? && c.value.valueType != TYPE_ROLLBACK then (Status(0, c.value.commitTS), []) else (Status(0, 0), [])
  }

  /** Writing to a key; a stored lock keeps only its serialised fields. */
  function ApplyWrite(e: Entry, w: Write): Entry {
    match w
    case PutLock(l) => e.(lock := Some(l.(minCommitTS := 0)))
    case PutValue(ver, v) => e.(writes := e.writes[ver := v])
    case DropLock => e.(lock := None)
  }

  function ApplyWrites(e: Entry, ws: seq<Write>): Entry
    decreases |ws|
  {
    if ws == [] then e else ApplyWrites(ApplyWrite(e, ws[0]), ws[1..])
  }

  lemma ApplyTwo(e: Entry, w1: Write, w2: Write)
    ensures ApplyWrites(e, [w1, w2]) == ApplyWrite(ApplyWrite(e, w1), w2)
  {
    var e1 := ApplyWrite(e, w1);
    assert [w1, w2][1..] == [w2];
    assert ApplyWrites(e1, [w2]) == ApplyWrite(e1, w2);
  }

  lemma ApplyRollbackLock(e: Entry, startTS: U64)
    ensures ApplyWrites(e, RollbackLock(startTS)) == Entry(None, e.writes[startTS := Tombstone(startTS)])
  {
    ApplyTwo(e, PutValue(startTS, Tombstone(startTS)), DropLock);
  }

  lemma ApplyCommitLock(e: Entry, l: Lock, startTS: U64, commitTS: U64)
    ensures ApplyWrites(e, CommitLock(l, startTS, commitTS)) ==
            Entry(None, if l.op == OP_LOCK then e.writes else e.writes[commitTS := CommitRecord(l, startTS, commitTS)])
  {
    ApplyTwo(e, PutValue(commitTS, CommitRecord(l, startTS, commitTS)), DropLock);
    var put := PutValue(commitTS, CommitRecord(l, startTS, commitTS));
    assert [put] + [DropLock] == [put, DropLock];
    if l.op == OP_LOCK { assert CommitLock(l, startTS, commitTS) == [DropLock]; }
  }

  // ---- what the newest-first searches find ----

  lemma {:induction false} FindTxnBelow(w: map<U64, Value>, bound: nat, startTS: U64)
    requires bound <= MAX_U64
    ensures FindTxn(Versions(w, bound), startTS) == None <==>
            forall v :: v in w && v < bound ==> w[v].startTS != startTS
    ensures FindTxn(Versions(w, bound), startTS).Some? ==>
            exists v :: v in w && v < bound && w[v].startTS == startTS &&
                FindTxn(Versions(w, bound), startTS) == Some(w[v])
  {
    if bound > 0 {
      FindTxnBelow(w, bound - 1, startTS);
      if bound - 1 in w {
        assert Versions(w, bound)[1..] == Versions(w, bound - 1);
      }
    }
  }

  lemma {:induction false} NewestBelow(w: map<U64, Value>, bound: nat)
    requires bound <= MAX_U64
    ensures Versions(w, bound) == [] <==> forall v :: v in w ==> v >= bound
    ensures Versions(w, bound) != [] ==>
            exists v :: v in w && v < bound && Versions(w, bound)[0] == w[v] &&
                        forall u :: u in w && u < bound ==> u <= v
  {
    if bound > 0 && bound - 1 !in w {
      NewestBelow(w, bound - 1);
      assert Versions(w, bound) == Versions(w, bound - 1);
    }
  }

  /** Every version record sits at the version equal to its commit timestamp, below the lock slot. */
  ghost predicate Slotted(w: map<U64, Value>) {
    forall v :: v in w ==> v < MAX_U64 && w[v].commitTS == v
  }

  /** x is the put or delete of largest commit timestamp not above ts. */
  ghost predicate NewestVisible(w: map<U64, Value>, ts: U64, x: Value) {
    && x.commitTS in w && w[x.commitTS] == x && x.valueType != TYPE_ROLLBACK && x.commitTS <= ts
    && forall v :: v in w && w[v].valueType != TYPE_ROLLBACK && v <= ts ==> v <= x.commitTS
  }

  lemma {:induction false} FirstVisibleBelow(w: map<U64, Value>, bound: nat, ts: U64)
    requires bound <= MAX_U64 && Slotted(w)
    ensures FirstVisible(Versions(w, bound), ts) == None <==>
            forall v :: v in w && v < bound && w[v].valueType != TYPE_ROLLBACK ==> v > ts
    ensures FirstVisible(Versions(w, bound), ts).Some? ==>
            var x := FirstVisible(Versions(w, bound), ts).value;
            && x.commitTS in w && w[x.commitTS] == x && x.commitTS < bound
            && x.valueType != TYPE_ROLLBACK && x.commitTS <= ts
            && forall v :: v in w && v < bound && w[v].valueType != TYPE_ROLLBACK && v <= ts ==> v <= x.commitTS
  {
    if bound > 0 {
      FirstVisibleBelow(w, bound - 1, ts);
      if bound - 1 in w {
        assert Versions(w, bound)[1..] == Versions(w, bound - 1);
      }
    }
  }

  /** The newest-first search finds exactly the put or delete of largest visible commit timestamp. */
  lemma VisibleIsNewest(w: map<U64, Value>, ts: U64)
    requires Slotted(w)
    ensures forall x :: FirstVisible(Versions(w, MAX_U64), ts) == Some(x) <==> NewestVisible(w, ts, x)
  {
    FirstVisibleBelow(w, MAX_U64, ts);
  }

  // ---- what reads answer, at either isolation level ----

  /** v is the value of the newest put or delete up to ts: none for a delete or when there is no record. */
  ghost predicate ReadsNewest(w: map<U64, Value>, ts: U64, v: Option<Bytes>) {
    && (forall x :: NewestVisible(w, ts, x) ==> v == if x.valueType == TYPE_DELETE then None else Some(x.value))
    && ((forall x :: !NewestVisible(w, ts, x)) ==> v == None)
  }

  lemma SearchReadsNewest(w: map<U64, Value>, ts: U64)
    requires Slotted(w)
    ensures ReadsNewest(w, ts, ValueRead(FirstVisible(Versions(w, MAX_U64), ts)))
  {
    VisibleIsNewest(w, ts);
    var found := FirstVisible(Versions(w, MAX_U64), ts);
    if found.Some? { assert NewestVisible(w, ts, found.value); }
  }

  /** A read-committed read is never refused, whatever the lock, and returns the newest value up to its timestamp. */
  lemma ReadCommittedExactly(e: Entry, key: Bytes, ts: U64)
    requires Slotted(e.writes)
    ensures Read(e, key, ts, false).Ok? && ReadsNewest(e.writes, ts, Read(e, key, ts, false).value)
  {
    SearchReadsNewest(e.writes, ts);
  }

  /** The lock is one that puts or deletes, of a transaction that began by ts. */
  ghost predicate InTheWay(lock: Option<Lock>, ts: U64) {
    lock.Some? && lock.value.startTS <= ts && lock.value.op != OP_LOCK
  }

  /**
   * A snapshot read is refused exactly by a lock in its way, except at MaxUint64 by the key's own
   * primary lock: there it reads below the lock. Otherwise it reads at its own timestamp.
   */
  lemma SnapshotReadExactly(e: Entry, key: Bytes, ts: U64)
    requires Slotted(e.writes)
    ensures var r := Read(e, key, ts, true);
            if !InTheWay(e.lock, ts) then r.Ok? && ReadsNewest(e.writes, ts, r.value)
            else if ts < MAX_U64 || e.lock.value.primary != key then
              r == Err(Locked(MvccEncode(key, MAX_U64), e.lock.value.primary, e.lock.value.startTS, e.lock.value.ttl))
            else
              var below := if e.lock.value.startTS > 0 then e.lock.value.startTS - 1 else ts;
              r.Ok? && ReadsNewest(e.writes, below, r.value)
  {
    SearchReadsNewest(e.writes, ts);
    if e.lock.Some? && e.lock.value.startTS > 0 { SearchReadsNewest(e.writes, e.lock.value.startTS - 1); }
  }
}
