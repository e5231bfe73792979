/**
 * The whole store as keys with their entries, and the requests that touch several keys.
 * A request reads every key from the store as it was, collects one batch, and writes it at once.
 */
module MvccStore {
  import opened ByteStrings
  import opened Records
  import opened Entries

  type Store = map<Bytes, Entry>

  function At(st: Store, k: Bytes): Entry {
    if k in st then st[k] else EMPTY
  }

  /** Stores are the same when every key has the same lock and versions. */
  ghost predicate Same(a: Store, b: Store) {
    forall k :: At(a, k) == At(b, k)
  }

  datatype KeyWrites = KeyWrites(key: Bytes, writes: seq<Write>)

  function WriteKey(st: Store, kw: KeyWrites): Store {
    st[kw.key := ApplyWrites(At(st, kw.key), kw.writes)]
  }

  function WriteBatch(st: Store, batch: seq<KeyWrites>): Store
    decreases |batch|
  {
    if batch == [] then st else WriteBatch(WriteKey(st, batch[0]), batch[1..])
  }

  // ---- Prewrite, Commit and Rollback ----

  datatype Request =
    | Prewrite(mutations: seq<Mutation>, primary: Bytes, startTS: U64, ttl: U64)
    | Commit(keys: seq<Bytes>, startTS: U64, commitTS: U64)
    | Rollback(keys: seq<Bytes>, startTS: U64)

  function Size(r: Request): nat {
    if r.Prewrite? then |r.mutations| else |r.keys|
  }

  function KeyOf(r: Request, i: nat): Bytes
    requires i < Size(r)
  {
    if r.Prewrite? then r.mutations[i].key else r.keys[i]
  }

  predicate DistinctKeys(r: Request) {
    forall i, j :: 0 <= i < j < Size(r) ==> KeyOf(r, i) != KeyOf(r, j)
  }

  /** The request's step on its i-th key, given that key's entry. */
  ghost function StepOn(r: Request, i: nat, e: Entry): Result<seq<Write>>
    requires i < Size(r)
  {
    match r
    case Prewrite(ms, primary, startTS, ttl) => PrewriteKey(e, ms[i], primary, startTS, ttl)
    case Commit(_, startTS, commitTS) => CommitKey(e, startTS, commitTS)
    case Rollback(_, startTS) => RollbackKey(e, startTS)
  }

  /** The step on the i-th key against the store as the request found it. */
  ghost function Outcome(st: Store, r: Request, i: nat): Result<seq<Write>>
    requires i < Size(r)
  {
    StepOn(r, i, At(st, KeyOf(r, i)))
  }

  ghost predicate Succeeds(st: Store, r: Request) {
    forall i :: 0 <= i < Size(r) ==> Outcome(st, r, i).Ok?
  }

  /** The i-th key is the first to fail, with the given error. */
  ghost predicate FailsAt(st: Store, r: Request, i: int, error: Error) {
    0 <= i < Size(r) && Outcome(st, r, i) == Err(error) && forall j :: 0 <= j < i ==> Outcome(st, r, j).Ok?
  }

  /** The batch collected over the first n keys. */
  ghost function Batch(st: Store, r: Request, n: nat): seq<KeyWrites>
    requires n <= Size(r) && forall i :: 0 <= i < n ==> Outcome(st, r, i).Ok?
  {
    seq(n, i requires 0 <= i < n => KeyWrites(KeyOf(r, i), Outcome(st, r, i).value))
  }

  ghost function Execute(st: Store, r: Request): Store {
    if Succeeds(st, r) then WriteBatch(st, Batch(st, r, Size(r))) else st
  }

  /** Running the request one key after the other, each step seeing the previous writes. */
  ghost function OneByOne(st: Store, r: Request, i: nat): Result<Store>
    requires i <= Size(r)
    decreases Size(r) - i
  {
    if i == Size(r) then Ok(st)
    else
      match Outcome(st, r, i)
      case Err(error) => Err(error)
      case Ok(ws) => OneByOne(WriteKey(st, KeyWrites(KeyOf(r, i), ws)), r, i + 1)
  }

  /** A batch over distinct keys changes each of them by its own writes and nothing else. */
  lemma {:induction false} WriteBatchEffect(st: Store, batch: seq<KeyWrites>, k: Bytes)
    requires forall i, j :: 0 <= i < j < |batch| ==> batch[i].key != batch[j].key
    ensures (forall i :: 0 <= i < |batch| ==> batch[i].key != k) ==> At(WriteBatch(st, batch), k) == At(st, k)
    ensures forall i :: 0 <= i < |batch| && batch[i].key == k ==>
            At(WriteBatch(st, batch), k) == ApplyWrites(At(st, k), batch[i].writes)
    decreases |batch|
  {
    if batch != [] {
      var st1, rest := WriteKey(st, batch[0]), batch[1..];
      assert forall i :: 0 <= i < |rest| ==> rest[i] == batch[i + 1];
      WriteBatchEffect(st1, rest, k);
      forall i | 0 <= i < |batch| && batch[i].key == k
        ensures At(WriteBatch(st, batch), k) == ApplyWrites(At(st, k), batch[i].writes)
      {
        if i > 0 { assert rest[i - 1].key == k; }
      }
    }
  }

  /** A successful request over distinct keys applies every key's own step; a failed one changes nothing. */
  lemma ExecuteEffect(st: Store, r: Request, k: Bytes)
    requires DistinctKeys(r)
    ensures !Succeeds(st, r) ==> Execute(st, r) == st
    ensures Succeeds(st, r) && (forall i :: 0 <= i < Size(r) ==> KeyOf(r, i) != k) ==>
            At(Execute(st, r), k) == At(st, k)
    ensures Succeeds(st, r) ==> forall i :: 0 <= i < Size(r) && KeyOf(r, i) == k ==>
            At(Execute(st, r), k) == ApplyWrites(At(st, k), Outcome(st, r, i).value)
  {
    if Succeeds(st, r) {
      var batch := Batch(st, r, Size(r));
      WriteBatchEffect(st, batch, k);
      forall i | 0 <= i < Size(r) && KeyOf(r, i) == k
        ensures At(Execute(st, r), k) == ApplyWrites(At(st, k), Outcome(st, r, i).value)
      {
        assert batch[i] == KeyWrites(k, Outcome(st, r, i).value);
      }
    }
  }

  /** A request that does not succeed has a first key that fails. */
  lemma {:induction false} FailureExists(st: Store, r: Request, i: nat) returns (n: nat)
    requires !Succeeds(st, r) && i <= Size(r) && forall j :: 0 <= j < i ==> Outcome(st, r, j).Ok?
    ensures n < Size(r) && Outcome(st, r, n).Err? && FailsAt(st, r, n, Outcome(st, r, n).error)
    decreases Size(r) - i
  {
    if i < Size(r) && Outcome(st, r, i).Err? { n := i; } else { n := FailureExists(st, r, i + 1); }
  }

  /** The deferred batch and the key-by-key run agree from the i-th key on. */
  lemma {:induction false} DeferredFrom(st0: Store, st: Store, r: Request, i: nat)
    requires DistinctKeys(r) && i <= Size(r) && Succeeds(st0, r)
    requires forall j :: i <= j < Size(r) ==> At(st, KeyOf(r, j)) == At(st0, KeyOf(r, j))
    ensures OneByOne(st, r, i) == Ok(WriteBatch(st, Batch(st0, r, Size(r))[i..]))
    decreases Size(r) - i
  {
    var batch := Batch(st0, r, Size(r));
    if i < Size(r) {
      assert batch[i..][0] == batch[i] && batch[i..][1..] == batch[i + 1..];
      DeferredFrom(st0, WriteKey(st, batch[i]), r, i + 1);
    }
  }

  lemma {:induction false} FirstFailureFrom(st0: Store, st: Store, r: Request, i: nat, n: nat)
    requires DistinctKeys(r) && i <= n < Size(r) && Outcome(st0, r, n).Err?
    requires forall j :: i <= j < n ==> Outcome(st0, r, j).Ok?
    requires forall j :: i <= j < Size(r) ==> At(st, KeyOf(r, j)) == At(st0, KeyOf(r, j))
    ensures OneByOne(st, r, i) == Err(Outcome(st0, r, n).error)
    decreases n - i
  {
    if i < n {
      FirstFailureFrom(st0, WriteKey(st, KeyWrites(KeyOf(r, i), Outcome(st0, r, i).value)), r, i + 1, n);
    }
  }

  /**
   * All or nothing: on distinct keys the request fails exactly when running it key by key fails,
   * with the first failing key's error and an unchanged store, and otherwise has the same result.
   */
  lemma DeferredEqualsOneByOne(st: Store, r: Request)
    requires DistinctKeys(r)
    ensures Succeeds(st, r) ==> OneByOne(st, r, 0) == Ok(Execute(st, r))
    ensures forall n, error :: FailsAt(st, r, n, error) ==> OneByOne(st, r, 0) == Err(error) && Execute(st, r) == st
  {
    if Succeeds(st, r) {
      DeferredFrom(st, st, r, 0);
      assert Batch(st, r, Size(r))[0..] == Batch(st, r, Size(r));
    }
    forall n, error | FailsAt(st, r, n, error) ensures OneByOne(st, r, 0) == Err(error) && Execute(st, r) == st
    {
      FirstFailureFrom(st, st, r, 0, n);
    }
  }

  // ---- resolving locks over a key range ----

  function LiveKeys(st: Store, start: Bytes, end: Bytes): seq<Bytes> {
    Sorted(set k | k in st && st[k] != EMPTY && InRange(start, end, k))
  }

  /** The writes that resolve a key's lock when its transaction is listed. */
  function ResolveListed(lock: Option<Lock>, infos: map<U64, U64>): seq<Write> {
    if lock.Some? && lock.value.startTS in infos then ResolveKey(lock, lock.value.startTS, infos[lock.value.startTS])
    else []
  }

  function ResolveBatch(st: Store, ks: seq<Bytes>, infos: map<U64, U64>): seq<KeyWrites> {
    seq(|ks|, i requires 0 <= i < |ks| => KeyWrites(ks[i], ResolveListed(At(st, ks[i]).lock, infos)))
  }

  function BatchResolveLock(st: Store, start: Bytes, end: Bytes, infos: map<U64, U64>): Store {
    WriteBatch(st, ResolveBatch(st, LiveKeys(st, start, end), infos))
  }

  function ResolveLock(st: Store, start: Bytes, end: Bytes, startTS: U64, commitTS: U64): Store {
    BatchResolveLock(st, start, end, map[startTS := commitTS])
  }

  /** Within the range every listed lock is resolved; every other key stays as it was. */
  lemma ResolveEffect(st: Store, start: Bytes, end: Bytes, infos: map<U64, U64>, k: Bytes)
    ensures At(BatchResolveLock(st, start, end, infos), k) ==
            if InRange(start, end, k) then ApplyWrites(At(st, k), ResolveListed(At(st, k).lock, infos)) else At(st, k)
  {
    var ks := LiveKeys(st, start, end);
    var batch := ResolveBatch(st, ks, infos);
    forall i, j | 0 <= i < j < |batch| ensures batch[i].key != batch[j].key {
      LessIrreflexive(ks[i]);
      assert Less(ks[i], ks[j]);
    }
    WriteBatchEffect(st, batch, k);
    if k in ks {
      var i :| 0 <= i < |ks| && ks[i] == k;
      assert batch[i].key == k;
    }
  }

  /** Afterwards no listed transaction holds a lock in the range, and its lock became its record. */
  lemma ResolveLeavesNoListedLock(st: Store, start: Bytes, end: Bytes, infos: map<U64, U64>, k: Bytes)
    requires InRange(start, end, k) && At(st, k).lock.Some?
    ensures var e, l, e' := At(st, k), At(st, k).lock.value, At(BatchResolveLock(st, start, end, infos), k);
            if l.startTS !in infos then e' == e
            else if infos[l.startTS] == 0 then e' == Entry(None, e.writes[l.startTS := Tombstone(l.startTS)])
            else if l.op == OP_LOCK then e' == Entry(None, e.writes)
            else e' == Entry(None, e.writes[infos[l.startTS] := CommitRecord(l, l.startTS, infos[l.startTS])])
  {
    ResolveEffect(st, start, end, infos, k);
    var e, l := At(st, k), At(st, k).lock.value;
    ApplyRollbackLock(e, l.startTS);
    if l.startTS in infos { ApplyCommitLock(e, l, l.startTS, infos[l.startTS]); }
  }

  /** Resolving the listed transactions one by one, in the order given. */
  function FoldResolve(st: Store, start: Bytes, end: Bytes, infos: map<U64, U64>, order: seq<U64>): Store
    requires forall t :: t in order ==> t in infos
    decreases |order|
  {
    if order == [] then st
    else FoldResolve(ResolveLock(st, start, end, order[0], infos[order[0]]), start, end, infos, order[1..])
  }

  lemma {:induction false} FoldEffect(st: Store, start: Bytes, end: Bytes, infos: map<U64, U64>, order: seq<U64>,
                                      k: Bytes)
    requires forall t :: t in order ==> t in infos
    ensures At(FoldResolve(st, start, end, infos, order), k) ==
            if InRange(start, end, k) && At(st, k).lock.Some? && At(st, k).lock.value.startTS in order
            then ApplyWrites(At(st, k), ResolveListed(At(st, k).lock, infos)) else At(st, k)
    decreases |order|
  {
    if order != [] {
      var t := order[0];
      if At(st, k).lock.Some? && t == At(st, k).lock.value.startTS {
        ApplyRollbackLock(At(st, k), t);
        ApplyCommitLock(At(st, k), At(st, k).lock.value, t, infos[t]);
      }
      ResolveEffect(st, start, end, map[t := infos[t]], k);
      FoldEffect(ResolveLock(st, start, end, t, infos[t]), start, end, infos, order[1..], k);
      assert order == [t] + order[1..];
    }
  }

  /** BatchResolveLock equals folding ResolveLock over the listed transactions, in any order. */
  lemma BatchResolveIsFold(st: Store, start: Bytes, end: Bytes, infos: map<U64, U64>, order: seq<U64>)
    requires forall t :: t in order <==> t in infos
    ensures Same(FoldResolve(st, start, end, infos, order), BatchResolveLock(st, start, end, infos))
  {
    forall k
      ensures At(FoldResolve(st, start, end, infos, order), k) == At(BatchResolveLock(st, start, end, infos), k)
    {
      FoldEffect(st, start, end, infos, order, k);
      ResolveEffect(st, start, end, infos, k);
    }
  }

  // ---- the remaining requests ----

  ghost function CheckTxnStatus(st: Store, primary: Bytes, lockTS: U64, callerStartTS: U64, currentTS: U64)
    : (Status, Store)
  {
    var (status, ws) := CheckStatusKey(At(st, primary), lockTS, callerStartTS, currentTS);
    (status, WriteKey(st, KeyWrites(primary, ws)))
  }

  /** DeleteRange drops the keys of [start, end); here an empty end bounds from above like any other. */
  function DeleteRange(st: Store, start: Bytes, end: Bytes): Store {
    map k | k in st && !(AtMost(start, k) && Less(k, end)) :: st[k]
  }
}
