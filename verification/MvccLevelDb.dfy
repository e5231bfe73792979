/**
 * MVCCLevelDB: every request over the byte-keyed database is proved to answer from the represented
 * store and to change it as MvccStore says.
 */
module MvccLevelDb {
  import opened ByteStrings
  import opened Codec
  import opened Records
  import opened Entries
  import opened MvccStore
  import opened Layout
  import opened Cursors
  import opened StoreSteps

  datatype Pair = KeyValue(key: Bytes, value: Bytes) | KeyError(key: Bytes, error: Error)

  datatype LockInfo = LockInfo(primary: Bytes, startTS: U64, key: Bytes)

  /** The pair a read contributes to a result list: absent values contribute none. */
  function PairsOf(key: Bytes, r: Result<Option<Bytes>>): seq<Pair> {
    match r
    case Err(error) => [KeyError(key, error)]
    case Ok(None) => []
    case Ok(Some(v)) => [KeyValue(key, v)]
  }

  /** Independent point reads of the keys, in order. */
  ghost function ReadPairs(st: Store, ks: seq<Bytes>, ts: U64, si: bool): seq<Pair> {
    if ks == [] then [] else PairsOf(ks[0], Read(At(st, ks[0]), ks[0], ts, si)) + ReadPairs(st, ks[1..], ts, si)
  }

  function Take<T>(s: seq<T>, limit: int): seq<T> {
    if limit <= 0 then [] else if |s| <= limit then s else s[..limit]
  }

  lemma {:induction false} ReadPairsAppend(st: Store, a: seq<Bytes>, b: seq<Bytes>, ts: U64, si: bool)
    ensures ReadPairs(st, a + b, ts, si) == ReadPairs(st, a, ts, si) + ReadPairs(st, b, ts, si)
  {
    if a == [] {
      assert a + b == b;
    } else {
      assert (a + b)[1..] == a[1..] + b;
      ReadPairsAppend(st, a[1..], b, ts, si);
    }
  }

  /** The pairs of the keys are the pairs of each key. */
  lemma {:induction false} ReadPairsMembers(st: Store, ks: seq<Bytes>, ts: U64, si: bool)
    ensures forall p :: p in ReadPairs(st, ks, ts, si) <==>
            p.key in ks && p in PairsOf(p.key, Read(At(st, p.key), p.key, ts, si))
    decreases |ks|
  {
    if ks != [] {
      ReadPairsMembers(st, ks[1..], ts, si);
      assert ks == [ks[0]] + ks[1..];
    }
  }

  function PairKeys(pairs: seq<Pair>): seq<Bytes> {
    seq(|pairs|, i requires 0 <= i < |pairs| => pairs[i].key)
  }

  /** Pairs of ascending keys are in strictly ascending key order. */
  lemma {:induction false} ReadPairsAscend(st: Store, ks: seq<Bytes>, ts: U64, si: bool)
    requires Ascending(ks)
    ensures Ascending(PairKeys(ReadPairs(st, ks, ts, si)))
    decreases |ks|
  {
    if ks != [] {
      var head, rest := PairsOf(ks[0], Read(At(st, ks[0]), ks[0], ts, si)), ReadPairs(st, ks[1..], ts, si);
      TailAscends(ks);
      ReadPairsAscend(st, ks[1..], ts, si);
      ReadPairsMembers(st, ks[1..], ts, si);
      forall j | 0 <= j < |rest| ensures Less(ks[0], rest[j].key) {
        assert rest[j] in rest;
        var m :| 0 <= m < |ks| - 1 && ks[1..][m] == rest[j].key;
        assert Less(ks[0], ks[m + 1]);
      }
      assert PairKeys(head + rest) == PairKeys(head) + PairKeys(rest);
      AscendingConcat(PairKeys(head), PairKeys(rest));
    }
  }

  /** The newest put or delete of the key up to ts is a put of the value. */
  ghost predicate NewestPut(e: Entry, ts: U64, value: Bytes) {
    exists x :: NewestVisible(e.writes, ts, x) && x.valueType != TYPE_DELETE && x.value == value
  }

  /** At read-committed level the pairs are exactly the keys' newest values up to ts; no lock is in the way. */
  lemma ReadCommittedPairs(st: Store, ks: seq<Bytes>, ts: U64)
    requires forall k :: k in ks ==> Slotted(At(st, k).writes)
    ensures forall p :: p in ReadPairs(st, ks, ts, false) <==>
            p.KeyValue? && p.key in ks && NewestPut(At(st, p.key), ts, p.value)
  {
    ReadPairsMembers(st, ks, ts, false);
    forall k | k in ks
      ensures forall p :: p in PairsOf(k, Read(At(st, k), k, ts, false)) <==>
              p.KeyValue? && p.key == k && NewestPut(At(st, k), ts, p.value)
    {
      ReadCommittedExactly(At(st, k), k, ts);
    }
  }

  lemma ReadPairsNext(st: Store, ks: seq<Bytes>, n: nat, ts: U64, si: bool)
    requires n < |ks|
    ensures ReadPairs(st, ks[..n + 1], ts, si) ==
            ReadPairs(st, ks[..n], ts, si) + PairsOf(ks[n], Read(At(st, ks[n]), ks[n], ts, si))
  {
    assert ks[..n + 1] == ks[..n] + [ks[n]];
    ReadPairsAppend(st, ks[..n], [ks[n]], ts, si);
    assert ReadPairs(st, [ks[n]], ts, si) == PairsOf(ks[n], Read(At(st, ks[n]), ks[n], ts, si)) + [];
  }

  lemma ReadPairsPrefix(st: Store, ks: seq<Bytes>, n: nat, ts: U64, si: bool, limit: int)
    requires n <= |ks| && |ReadPairs(st, ks[..n], ts, si)| <= limit
    requires n == |ks| || |ReadPairs(st, ks[..n], ts, si)| == limit
    ensures ReadPairs(st, ks[..n], ts, si) == Take(ReadPairs(st, ks, ts, si), limit)
  {
    assert ks == ks[..n] + ks[n..];
    ReadPairsAppend(st, ks[..n], ks[n..], ts, si);
    if n == |ks| { assert ks[..n] == ks; }
  }

  /** The locks of the keys with a start timestamp up to maxTS, in key order. */
  function LocksOf(key: Bytes, lock: Option<Lock>, maxTS: U64): seq<LockInfo> {
    if lock.Some? && lock.value.startTS <= maxTS then [LockInfo(lock.value.primary, lock.value.startTS, key)] else []
  }

  function LocksUpTo(st: Store, ks: seq<Bytes>, maxTS: U64): seq<LockInfo> {
    if ks == [] then []
    else LocksUpTo(st, ks[..|ks| - 1], maxTS) + LocksOf(ks[|ks| - 1], At(st, ks[|ks| - 1]).lock, maxTS)
  }

  lemma LocksNext(st: Store, ks: seq<Bytes>, n: nat, maxTS: U64)
    requires n < |ks|
    ensures LocksUpTo(st, ks[..n + 1], maxTS) ==
            LocksUpTo(st, ks[..n], maxTS) + LocksOf(ks[n], At(st, ks[n]).lock, maxTS)
  {
    assert ks[..n + 1][..n] == ks[..n];
  }

  /** ScanLock's answer holds exactly the locks in range that are old enough. */
  lemma {:induction false} LocksUpToExactly(st: Store, ks: seq<Bytes>, maxTS: U64)
    ensures forall info :: info in LocksUpTo(st, ks, maxTS) <==>
            && info.key in ks && At(st, info.key).lock.Some? && At(st, info.key).lock.value.startTS <= maxTS
            && info == LockInfo(At(st, info.key).lock.value.primary, At(st, info.key).lock.value.startTS, info.key)
    decreases |ks|
  {
    if ks != [] {
      LocksUpToExactly(st, ks[..|ks| - 1], maxTS);
      assert ks == ks[..|ks| - 1] + [ks[|ks| - 1]];
    }
  }

  function LockKeys(locks: seq<LockInfo>): seq<Bytes> {
    seq(|locks|, i requires 0 <= i < |locks| => locks[i].key)
  }

  /** And it holds them in strictly ascending key order. */
  lemma {:induction false} LocksAscend(st: Store, ks: seq<Bytes>, maxTS: U64)
    requires Ascending(ks)
    ensures Ascending(LockKeys(LocksUpTo(st, ks, maxTS)))
    decreases |ks|
  {
    if ks != [] {
      var n := |ks| - 1;
      var front, last := LocksUpTo(st, ks[..n], maxTS), LocksOf(ks[n], At(st, ks[n]).lock, maxTS);
      FrontAscends(ks);
      LocksAscend(st, ks[..n], maxTS);
      LocksUpToExactly(st, ks[..n], maxTS);
      forall i | 0 <= i < |front| ensures Less(front[i].key, ks[n]) {
        assert front[i] in front;
        var m :| 0 <= m < n && ks[..n][m] == front[i].key;
        assert Less(ks[m], ks[n]);
      }
      assert LockKeys(front + last) == LockKeys(front) + LockKeys(last);
      AscendingConcat(LockKeys(front), LockKeys(last));
    }
  }

  lemma ResolveBatchNext(st: Store, ks: seq<Bytes>, n: nat, infos: map<U64, U64>)
    requires n < |ks|
    ensures ResolveBatch(st, ks[..n + 1], infos) ==
            ResolveBatch(st, ks[..n], infos) + [KeyWrites(ks[n], ResolveListed(At(st, ks[n]).lock, infos))]
  {
    var next, writes := ks[..n + 1], ResolveListed(At(st, ks[n]).lock, infos);
    assert next[n] == ks[n] && |next| == n + 1;
    assert forall i :: 0 <= i < n ==> next[i] == ks[..n][i];
    assert ResolveBatch(st, next, infos)[n] == KeyWrites(ks[n], writes);
  }

  /** One round of resolving: the current key's operations extend the batch. */
  lemma BatchResolveGrows(st: Store, ks: seq<Bytes>, done: nat, here: bool, currKey: Bytes, infos: map<U64, U64>,
                          ops: seq<BatchOp>)
    requires done <= |ks| && (here ==> done < |ks| && currKey == ks[done])
    requires ops == KeyOps(currKey, ResolveListed(Current(st, here, currKey).lock, infos))
    ensures var next := if here then done + 1 else done;
            BatchOps(ResolveBatch(st, ks[..done], infos)) + ops == BatchOps(ResolveBatch(st, ks[..next], infos))
  {
    if here {
      ResolveBatchNext(st, ks, done, infos);
      BatchOpsAppend(ResolveBatch(st, ks[..done], infos),
          KeyWrites(currKey, ResolveListed(At(st, currKey).lock, infos)));
    }
  }

  /** The bytes after resolving the listed transactions over a range. */
  ghost function Resolved(db: DB, st: Store, start: Bytes, end: Bytes, infos: map<U64, U64>): DB {
    PerformAll(db, BatchOps(ResolveBatch(st, LiveKeys(st, start, end), infos)))
  }

  /** ResolveLock's treatment of the current key: only the given transaction's lock is resolved. */
  method ResolveOne(lock: Option<Lock>, key: Bytes, startTS: U64, commitTS: U64) returns (ops: seq<BatchOp>)
    ensures ops == KeyOps(key, ResolveListed(lock, map[startTS := commitTS]))
  {
    ops := [];
    if lock.Some? && lock.value.startTS == startTS { ops := ResolveOps(lock.value, key, commitTS); }
  }

  /** BatchResolveLock's: the lock of any listed transaction is. */
  method ResolveAny(lock: Option<Lock>, key: Bytes, infos: map<U64, U64>) returns (ops: seq<BatchOp>)
    ensures ops == KeyOps(key, ResolveListed(lock, infos))
  {
    ops := [];
    if lock.Some? && lock.value.startTS in infos { ops := ResolveOps(lock.value, key, infos[lock.value.startTS]); }
  }

  /** A rollback request with one key is that key's step. */
  lemma SingleRollback(st: Store, key: Bytes, startTS: U64)
    ensures var req, step := Request.Rollback([key], startTS), RollbackKey(At(st, key), startTS);
            if step.Err? then Execute(st, req) == st
            else Succeeds(st, req) && BatchOps(Batch(st, req, Size(req))) == KeyOps(key, step.value)
  {
    var req := Request.Rollback([key], startTS);
    assert Outcome(st, req, 0) == RollbackKey(At(st, key), startTS);
    if Succeeds(st, req) {
      BatchGrows(st, req, 0);
      assert BatchOps(Batch(st, req, 0)) == [];
    }
  }

  method PushMinCommitTS(l: Lock, callerStartTS: U64, currentTS: U64) returns (lock: Lock)
    ensures lock == l.(minCommitTS := PushedMinCommitTS(l, callerStartTS, currentTS))
  {
    lock := l;
    var next := (callerStartTS + 1) % TWO64;
    if lock.minCommitTS > 0 {
      if lock.minCommitTS < next { lock := lock.(minCommitTS := next); }
    }
    if lock.minCommitTS < currentTS { lock := lock.(minCommitTS := currentTS); }
  }

  /** CheckTxnStatus's reading of the primary: the answer, and what it writes. */
  method CheckStatusOps(db: DB, primaryKey: Bytes, lockTS: U64, callerStartTS: U64, currentTS: U64, ghost st: Store)
    returns (status: Status, ops: seq<BatchOp>)
    requires Represents(db, st)
    ensures status == CheckStatusKey(At(st, primaryKey), lockTS, callerStartTS, currentTS).0
    ensures ops == KeyOps(primaryKey, CheckStatusKey(At(st, primaryKey), lockTS, callerStartTS, currentTS).1)
  {
    var it := OpenAt(db, primaryKey, st);
    if it.HasCurrent() {
      var held := DecodeLock(it, primaryKey);
      if held.Some? && held.value.startTS == lockTS {
        if Expired(held.value, currentTS) {
          ops := RollbackLockOps(primaryKey, lockTS);
          return Status(0, 0), ops;
        }
        var lock := PushMinCommitTS(held.value, callerStartTS, currentTS);
        var data := MarshalLock(lock);
        assert KeyOps(primaryKey, [PutLock(lock)]) == [WriteOp(primaryKey, PutLock(lock))];
        return Status(lock.ttl, 0), [Put(MvccEncode(primaryKey, MAX_U64), data)];
      }
      var c := GetTxnCommitInfo(it, primaryKey, lockTS, History(At(st, primaryKey)));
      if c.Some? && c.value.valueType != TYPE_ROLLBACK { return Status(0, c.value.commitTS), []; }
    }
    return Status(0, 0), [];
  }

  function DeleteOps(ks: seq<Bytes>): seq<BatchOp> {
    seq(|ks|, i requires 0 <= i < |ks| => Delete(ks[i]))
  }

  lemma {:induction false} DeleteAll(db: DB, ks: seq<Bytes>)
    ensures PerformAll(db, DeleteOps(ks)) == db - (set k | k in ks)
    decreases |ks|
  {
    if ks != [] {
      assert DeleteOps(ks)[1..] == DeleteOps(ks[1..]);
      DeleteAll(db - {ks[0]}, ks[1..]);
      assert ks == [ks[0]] + ks[1..];
      assert db - {ks[0]} - (set k | k in ks[1..]) == db - (set k | k in ks);
    }
  }

  method CollectDeletes(keys: seq<Bytes>) returns (batch: seq<BatchOp>)
    ensures batch == DeleteOps(keys)
  {
    batch := [];
    for i := 0 to |keys|
      invariant batch == DeleteOps(keys[..i])
    {
      batch := batch + [Delete(keys[i])];
    }
    assert keys[..|keys|] == keys;
  }

  lemma DeleteListed(db: DB, st: Store, startKey: Bytes, endKey: Bytes)
    requires Represents(db, st) && Proper(st)
    ensures var keys := KeysInRange(db, Some(Encoded(startKey)), Some(Encoded(endKey)));
            Represents(PerformAll(db, DeleteOps(keys)), MvccStore.DeleteRange(st, startKey, endKey))
    ensures Proper(MvccStore.DeleteRange(st, startKey, endKey))
  {
    var keys := KeysInRange(db, Some(Encoded(startKey)), Some(Encoded(endKey)));
    DeleteAll(db, keys);
    assert (set k | k in keys) == SlotsBetween(db, startKey, endKey);
    DeleteRangeRefines(db, st, startKey, endKey);
  }

  class MVCCLevelDB {
    var db: DB
    ghost var st: Store

    ghost predicate Valid()
      reads this
    {
      Represents(db, st) && Proper(st)
    }

    constructor ()
      ensures Valid() && st == map[]
    {
      db, st := map[], map[];
    }

    method Get(key: Bytes, ts: U64, si: bool) returns (r: Result<Option<Bytes>>)
      requires Valid()
      ensures r == Read(At(st, key), key, ts, si)
    {
      var it := OpenAt(db, key, st);
      r := GetValue(it, key, ts, si, At(st, key));
    }

    method BatchGet(ks: seq<Bytes>, ts: U64, si: bool) returns (pairs: seq<Pair>)
      requires Valid()
      ensures pairs == ReadPairs(st, ks, ts, si)
    {
      pairs := [];
      for i := 0 to |ks|
        invariant pairs == ReadPairs(st, ks[..i], ts, si)
      {
        var r := Get(ks[i], ts, si);
        ReadPairsNext(st, ks, i, ts, si);
        pairs := pairs + PairsOf(ks[i], r);
      }
      assert ks[..|ks|] == ks;
    }

    /** One shared iterator pass gives the first limit results of independent point reads. */
    method Scan(startKey: Bytes, endKey: Bytes, limit: int, ts: U64, si: bool) returns (pairs: seq<Pair>)
      requires Valid()
      ensures pairs == Take(ReadPairs(st, LiveKeys(st, startKey, endKey), ts, si), limit)
    {
      ghost var ks, done := LiveKeys(st, startKey, endKey), 0;
      var it, currKey, here := OpenScan(db, startKey, endKey, st);
      var ok := true;
      pairs := [];
      while |pairs| < limit && ok
        invariant Cursor(it, it.pos, st, ks, done, here, currKey)
        invariant pairs == ReadPairs(st, ks[..done], ts, si) && (limit > 0 ==> |pairs| <= limit)
        invariant !ok ==> done == |ks|
        invariant limit <= 0 ==> pairs == []
        decreases |ks| - done + (if here then 0 else 1), ok
      {
        if here { ReadPairsNext(st, ks, done, ts, si); } else { NewestBelow(map[], MAX_U64); }
        var r, nextKey;
        r, ok, nextKey, done, here := ReadKey(it, currKey, ts, si, st, ks, done, here);
        pairs := pairs + PairsOf(currKey, r);
        currKey := nextKey;
      }
      if limit > 0 { ReadPairsPrefix(st, ks, done, ts, si, limit); }
    }

    /** All errors are reported; the locks are written only if there is none. */
    method Prewrite(mutations: seq<Mutation>, primary: Bytes, startTS: U64, ttl: U64) returns (errs: seq<Option<Error>>)
      requires Valid()
      modifies this
      ensures var req := Request.Prewrite(mutations, primary, startTS, ttl);
              && |errs| == |mutations|
              && (forall i :: 0 <= i < |errs| ==> errs[i] == ErrorOf(Outcome(old(st), req, i)))
              && db == Written(old(db), old(st), req)
              && (Encodable(req) || !Succeeds(old(st), req) ==> Valid() && st == Execute(old(st), req))
    {
      ghost var req := Request.Prewrite(mutations, primary, startTS, ttl);
      var anyError := false;
      var batch: seq<BatchOp> := [];
      errs := [];
      for i := 0 to |mutations|
        invariant db == old(db) && st == old(st)
        invariant |errs| == i && forall j :: 0 <= j < i ==> errs[j] == ErrorOf(Outcome(st, req, j))
        invariant anyError ==> !Succeeds(st, req)
        invariant !anyError ==>
                  (forall j :: 0 <= j < i ==> Outcome(st, req, j).Ok?) && batch == BatchOps(Batch(st, req, i))
      {
        var r := PrewriteMutation(db, mutations[i], startTS, primary, ttl, st);
        assert r == OpsOf(mutations[i].key, Outcome(st, req, i));
        errs := errs + [ErrorOf(r)];
        if r.Err? {
          anyError := true;
        } else {
          if !anyError { BatchGrows(st, req, i); }
          batch := batch + r.value;
        }
      }
      if anyError { return; }
      if Encodable(req) { WrittenRefines(db, st, req); }
      db, st := PerformAll(db, batch), Execute(st, req);
    }

    method Commit(keys: seq<Bytes>, startTS: U64, commitTS: U64) returns (err: Option<Error>)
      requires Valid()
      modifies this
      ensures var req := Request.Commit(keys, startTS, commitTS);
              && (err.None? <==> Succeeds(old(st), req))
              && (err.Some? ==> exists i :: FailsAt(old(st), req, i, err.value))
              && db == Written(old(db), old(st), req)
              && (commitTS < MAX_U64 || !Succeeds(old(st), req) ==> Valid() && st == Execute(old(st), req))
    {
      ghost var req := Request.Commit(keys, startTS, commitTS);
      var batch: seq<BatchOp> := [];
      for i := 0 to |keys|
        invariant db == old(db) && st == old(st)
        invariant forall j :: 0 <= j < i ==> Outcome(st, req, j).Ok?
        invariant batch == BatchOps(Batch(st, req, i))
      {
        var r := CommitOneKey(db, keys[i], startTS, commitTS, st);
        assert r == OpsOf(keys[i], Outcome(st, req, i));
        if r.Err? {
          assert FailsAt(st, req, i, r.error);
          return Some(r.error);
        }
        BatchGrows(st, req, i);
        batch := batch + r.value;
      }
      if Encodable(req) { WrittenRefines(db, st, req); }
      db, st := PerformAll(db, batch), Execute(st, req);
      err := None;
    }

    method Rollback(keys: seq<Bytes>, startTS: U64) returns (err: Option<Error>)
      requires Valid()
      modifies this
      ensures var req := Request.Rollback(keys, startTS);
              && (err.None? <==> Succeeds(old(st), req))
              && (err.Some? ==> exists i :: FailsAt(old(st), req, i, err.value))
              && db == Written(old(db), old(st), req)
              && (startTS < MAX_U64 || !Succeeds(old(st), req) ==> Valid() && st == Execute(old(st), req))
    {
      ghost var req := Request.Rollback(keys, startTS);
      var batch: seq<BatchOp> := [];
      for i := 0 to |keys|
        invariant db == old(db) && st == old(st)
        invariant forall j :: 0 <= j < i ==> Outcome(st, req, j).Ok?
        invariant batch == BatchOps(Batch(st, req, i))
      {
        var r := RollbackOneKey(db, keys[i], startTS, st);
        assert r == OpsOf(keys[i], Outcome(st, req, i));
        if r.Err? {
          assert FailsAt(st, req, i, r.error);
          return Some(r.error);
        }
        BatchGrows(st, req, i);
        batch := batch + r.value;
      }
      if Encodable(req) { WrittenRefines(db, st, req); }
      db, st := PerformAll(db, batch), Execute(st, req);
      err := None;
    }

    /** Cleanup is a rollback of one key; its error tells a resolver the commit timestamp. */
    method Cleanup(key: Bytes, startTS: U64) returns (err: Option<Error>)
      requires Valid()
      modifies this
      ensures err == ErrorOf(RollbackKey(old(At(st, key)), startTS))
      ensures var req := Request.Rollback([key], startTS);
              && db == Written(old(db), old(st), req)
              && (startTS < MAX_U64 || !Succeeds(old(st), req) ==> Valid() && st == Execute(old(st), req))
    {
      var r := RollbackOneKey(db, key, startTS, st);
      SingleRollback(st, key, startTS);
      if r.Err? { return Some(r.error); }
      if startTS < MAX_U64 { WrittenRefines(db, st, Request.Rollback([key], startTS)); }
      db, st := PerformAll(db, r.value), Execute(st, Request.Rollback([key], startTS));
      err := None;
    }

    /** Terminates although an iteration may only change currKey and leave the iterator where it is. */
    method ScanLock(startKey: Bytes, endKey: Bytes, maxTS: U64) returns (locks: seq<LockInfo>)
      requires Valid()
      ensures locks == LocksUpTo(st, LiveKeys(st, startKey, endKey), maxTS)
    {
      ghost var ks, done := LiveKeys(st, startKey, endKey), 0;
      var it, currKey, here := OpenScan(db, startKey, endKey, st);
      locks := [];
      while it.HasCurrent()
        invariant Cursor(it, it.pos, st, ks, done, here, currKey)
        invariant it.HasCurrent() <==> done < |ks|
        invariant locks == LocksUpTo(st, ks[..done], maxTS)
        decreases |ks| - done + (if here then 0 else 1), |it.rows| - it.pos
      {
        if here { LocksNext(st, ks, done, maxTS); }
        var lock, nextKey;
        lock, nextKey, done, here := ReadLock(it, currKey, st, ks, done, here);
        if lock.Some? && lock.value.startTS <= maxTS {
          locks := locks + [LockInfo(lock.value.primary, lock.value.startTS, currKey)];
        }
        currKey := nextKey;
      }
      assert ks[..done] == ks;
    }

    method CheckTxnStatus(primaryKey: Bytes, lockTS: U64, callerStartTS: U64, currentTS: U64) returns (status: Status)
      requires Valid()
      modifies this
      ensures var (answer, ws) := CheckStatusKey(old(At(st, primaryKey)), lockTS, callerStartTS, currentTS);
              && status == answer && db == PerformAll(old(db), KeyOps(primaryKey, ws))
              && (lockTS < MAX_U64 ==> Valid() && st == WriteKey(old(st), KeyWrites(primaryKey, ws)))
      ensures lockTS < MAX_U64 ==>
              (status, st) == MvccStore.CheckTxnStatus(old(st), primaryKey, lockTS, callerStartTS, currentTS)
    {
      ghost var ws := CheckStatusKey(At(st, primaryKey), lockTS, callerStartTS, currentTS).1;
      var ops;
      status, ops := CheckStatusOps(db, primaryKey, lockTS, callerStartTS, currentTS, st);
      if lockTS < MAX_U64 {
        if At(st, primaryKey).lock.Some? { StoredLockFits(db, st, primaryKey); }
        assert AllFit(ws);
        KeyOpsRefine(db, st, primaryKey, ws);
        FittingWritesStayProper(At(st, primaryKey), ws);
      }
      db, st := PerformAll(db, ops), WriteKey(st, KeyWrites(primaryKey, ws));
    }

    method ResolveLock(startKey: Bytes, endKey: Bytes, startTS: U64, commitTS: U64)
      requires Valid()
      modifies this
      ensures db == Resolved(old(db), old(st), startKey, endKey, map[startTS := commitTS])
      ensures startTS < MAX_U64 && commitTS < MAX_U64 ==>
              Valid() && st == MvccStore.ResolveLock(old(st), startKey, endKey, startTS, commitTS)
    {
      ghost var infos := map[startTS := commitTS];
      ghost var ks, done := LiveKeys(st, startKey, endKey), 0;
      var it, currKey, here := OpenScan(db, startKey, endKey, st);
      var batch: seq<BatchOp> := [];
      while it.HasCurrent()
        invariant db == old(db) && st == old(st)
        invariant Cursor(it, it.pos, st, ks, done, here, currKey)
        invariant it.HasCurrent() <==> done < |ks|
        invariant batch == BatchOps(ResolveBatch(st, ks[..done], infos))
        decreases |ks| - done + (if here then 0 else 1), |it.rows| - it.pos
      {
        ghost var n, at := done, here;
        var lock, nextKey;
        lock, nextKey, done, here := ReadLock(it, currKey, st, ks, done, here);
        var ops := ResolveOne(lock, currKey, startTS, commitTS);
        BatchResolveGrows(st, ks, n, at, currKey, infos, ops);
        batch, currKey := batch + ops, nextKey;
      }
      assert ks[..done] == ks;
      FinishResolve(batch, startKey, endKey, infos);
    }

    method BatchResolveLock(startKey: Bytes, endKey: Bytes, infos: map<U64, U64>)
      requires Valid()
      modifies this
      ensures db == Resolved(old(db), old(st), startKey, endKey, infos)
      ensures EncodableInfos(infos) ==> Valid() && st == MvccStore.BatchResolveLock(old(st), startKey, endKey, infos)
    {
      ghost var ks, done := LiveKeys(st, startKey, endKey), 0;
      var it, currKey, here := OpenScan(db, startKey, endKey, st);
      var batch: seq<BatchOp> := [];
      while it.HasCurrent()
        invariant db == old(db) && st == old(st)
        invariant Cursor(it, it.pos, st, ks, done, here, currKey)
        invariant it.HasCurrent() <==> done < |ks|
        invariant batch == BatchOps(ResolveBatch(st, ks[..done], infos))
        decreases |ks| - done + (if here then 0 else 1), |it.rows| - it.pos
      {
        ghost var n, at := done, here;
        var lock, nextKey;
        lock, nextKey, done, here := ReadLock(it, currKey, st, ks, done, here);
        var ops := ResolveAny(lock, currKey, infos);
        BatchResolveGrows(st, ks, n, at, currKey, infos, ops);
        batch, currKey := batch + ops, nextKey;
      }
      assert ks[..done] == ks;
      FinishResolve(batch, startKey, endKey, infos);
    }

    /** Writing the collected batch. */
    method FinishResolve(batch: seq<BatchOp>, startKey: Bytes, endKey: Bytes, ghost infos: map<U64, U64>)
      requires Valid() && batch == BatchOps(ResolveBatch(st, LiveKeys(st, startKey, endKey), infos))
      modifies this
      ensures db == Resolved(old(db), old(st), startKey, endKey, infos)
      ensures EncodableInfos(infos) ==> Valid() && st == MvccStore.BatchResolveLock(old(st), startKey, endKey, infos)
    {
      ghost var writes := ResolveBatch(st, LiveKeys(st, startKey, endKey), infos);
      if EncodableInfos(infos) {
        ResolveFits(db, st, LiveKeys(st, startKey, endKey), infos);
        BatchRefines(db, st, writes);
        FittingBatchStaysProper(st, writes);
      }
      db, st := PerformAll(db, batch), WriteBatch(st, writes);
    }

    /** Removes every record whose bytes lie between the two encoded keys. */
    method DeleteRange(startKey: Bytes, endKey: Bytes)
      requires Valid()
      modifies this
      ensures Valid() && st == MvccStore.DeleteRange(old(st), startKey, endKey)
    {
      var lo := EncodeBytes([], startKey);
      var hi := EncodeBytes([], endKey);
      var keys := KeysInRange(db, Some(lo), Some(hi));
      assert [] + Encoded(startKey) == Encoded(startKey) && [] + Encoded(endKey) == Encoded(endKey);
      assert keys == KeysInRange(db, Some(Encoded(startKey)), Some(Encoded(endKey)));
      var batch := CollectDeletes(keys);
      DeleteListed(db, st, startKey, endKey);
      db, st := PerformAll(db, batch), MvccStore.DeleteRange(st, startKey, endKey);
    }
  }
}
