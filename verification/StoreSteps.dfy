/**
 * The pieces of MVCCLevelDB's requests: the steps on one key as the source runs them, with an
 * iterator and a batch over the byte-keyed database, and the iteration key by key over a range.
 */
module StoreSteps {
  import opened ByteStrings
  import opened Codec
  import opened Records
  import opened Entries
  import opened MvccStore
  import opened Layout
  import opened Cursors

  // ---- one key ----

  ghost function OpsOf(k: Bytes, r: Result<seq<Write>>): Result<seq<BatchOp>> {
    match r case Err(error) => Err(error) case Ok(ws) => Ok(KeyOps(k, ws))
  }

  /** newIterator from the key's lock slot on. */
  method OpenAt(db: DB, key: Bytes, ghost st: Store) returns (it: Iterator)
    requires Represents(db, st)
    ensures fresh(it) && it.Valid() && it.pos == 0 && EntryHere(it.rows, 0, key, At(st, key))
  {
    ghost var rest := IterationFromKey(db, st, key);
    it := new Iterator(db, Some(MvccEncode(key, MAX_U64)), None, st, EntryRows(key, At(st, key)) + rest);
    assert it.rows[0..] == EntryRows(key, At(st, key)) + rest;
    EntryIsHere(it.rows, 0, key, At(st, key), rest);
  }

  method PrewriteMutation(db: DB, m: Mutation, startTS: U64, primary: Bytes, ttl: U64, ghost st: Store)
    returns (r: Result<seq<BatchOp>>)
    requires Represents(db, st)
    ensures r == OpsOf(m.key, PrewriteKey(At(st, m.key), m, primary, startTS, ttl))
  {
    var it := OpenAt(db, m.key, st);
    var held := DecodeLock(it, m.key);
    if held.Some? {
      if held.value.startTS != startTS { return Err(LockError(held.value, m.key)); }
      return Ok([]);
    }
    var newest := DecodeValue(it, m.key);
    if newest.Some? && newest.value.commitTS >= startTS { return Err(Retryable("write conflict")); }
    var lock := Lock(startTS, primary, m.value, m.op, ttl, 0);
    var data := MarshalLock(lock);
    r := Ok([Put(MvccEncode(m.key, MAX_U64), data)]);
    assert KeyOps(m.key, [PutLock(lock)]) == [WriteOp(m.key, PutLock(lock))];
  }

  method CommitLockOps(l: Lock, key: Bytes, startTS: U64, commitTS: U64) returns (ops: seq<BatchOp>)
    ensures ops == KeyOps(key, CommitLock(l, startTS, commitTS))
  {
    ops := [];
    if l.op != OP_LOCK {
      var valueType := if l.op == OP_PUT then TYPE_PUT else TYPE_DELETE;
      var data := MarshalValue(Value(valueType, startTS, commitTS, l.value));
      ops := [Put(MvccEncode(key, commitTS), data)];
    }
    ops := ops + [Delete(MvccEncode(key, MAX_U64))];
    ghost var ws := CommitLock(l, startTS, commitTS);
    assert KeyOps(key, [DropLock]) == [WriteOp(key, DropLock)];
    if l.op != OP_LOCK { assert ws[1..] == [DropLock]; } else { assert ws == [DropLock]; }
  }

  method RollbackLockOps(key: Bytes, startTS: U64) returns (ops: seq<BatchOp>)
    ensures ops == KeyOps(key, RollbackLock(startTS))
  {
    var data := MarshalValue(Tombstone(startTS));
    ops := [Put(MvccEncode(key, startTS), data), Delete(MvccEncode(key, MAX_U64))];
    ghost var ws := RollbackLock(startTS);
    assert KeyOps(key, [DropLock]) == [WriteOp(key, DropLock)];
    assert ws[1..] == [DropLock];
  }

  method CommitOneKey(db: DB, key: Bytes, startTS: U64, commitTS: U64, ghost st: Store)
    returns (r: Result<seq<BatchOp>>)
    requires Represents(db, st)
    ensures r == OpsOf(key, CommitKey(At(st, key), startTS, commitTS))
  {
    var it := OpenAt(db, key, st);
    var lock := DecodeLock(it, key);
    if lock.None? || lock.value.startTS != startTS {
      var c := GetTxnCommitInfo(it, key, startTS, History(At(st, key)));
      if c.Some? && c.value.valueType != TYPE_ROLLBACK { return Ok([]); }
      return Err(Retryable("txn not found"));
    }
    var ops := CommitLockOps(lock.value, key, startTS, commitTS);
    r := Ok(ops);
  }

  method RollbackOneKey(db: DB, key: Bytes, startTS: U64, ghost st: Store) returns (r: Result<seq<BatchOp>>)
    requires Represents(db, st)
    ensures r == OpsOf(key, RollbackKey(At(st, key), startTS))
  {
    var it := OpenAt(db, key, st);
    if it.HasCurrent() {
      var lock := DecodeLock(it, key);
      if lock.Some? && lock.value.startTS == startTS {
        var ops := RollbackLockOps(key, startTS);
        return Ok(ops);
      }
      var c := GetTxnCommitInfo(it, key, startTS, History(At(st, key)));
      if c.Some? {
        if c.value.valueType != TYPE_ROLLBACK { return Err(AlreadyCommitted(c.value.commitTS)); }
        return Ok([]);
      }
    }
    var data := MarshalValue(Tombstone(startTS));
    r := Ok([Put(MvccEncode(key, startTS), data)]);
    assert KeyOps(key, [PutValue(startTS, Tombstone(startTS))]) ==
           [WriteOp(key, PutValue(startTS, Tombstone(startTS)))];
  }

  // ---- what a request writes can be read back ----

  lemma ReadLockFits(b: Bytes, l: Lock)
    requires UnmarshalledLock(b) == Some(l)
    ensures LockReadable(l) && l.minCommitTS == 0
  {
  }

  lemma StoredLockFits(db: DB, st: Store, k: Bytes)
    requires Represents(db, st) && At(st, k).lock.Some?
    ensures LockReadable(At(st, k).lock.value) && At(st, k).lock.value.minCommitTS == 0
  {
    var l := At(st, k).lock.value;
    var r := Row(k, MAX_U64, LockCell(l));
    assert HasRow(st, r);
    ReadLockFits(db[SlotOf(r)], l);
  }

  /** Timestamps name version slots and slices are within the request size limit. */
  predicate Encodable(r: Request) {
    match r
    case Prewrite(ms, primary, _, _) => |primary| <= MAX_SLICE && forall i :: 0 <= i < |ms| ==>
        |ms[i].value| <= MAX_SLICE
    case Commit(_, _, commitTS) => commitTS < MAX_U64
    case Rollback(_, startTS) => startTS < MAX_U64
  }

  lemma OutcomeFits(db: DB, st: Store, r: Request, i: nat)
    requires Represents(db, st) && Encodable(r) && i < Size(r) && Outcome(st, r, i).Ok?
    ensures AllFit(Outcome(st, r, i).value)
  {
    if At(st, KeyOf(r, i)).lock.Some? { StoredLockFits(db, st, KeyOf(r, i)); }
  }

  lemma ExecuteRefines(db: DB, st: Store, r: Request)
    requires Represents(db, st) && Proper(st) && Encodable(r) && Succeeds(st, r)
    ensures Represents(PerformAll(db, BatchOps(Batch(st, r, Size(r)))), Execute(st, r)) && Proper(Execute(st, r))
  {
    var batch := Batch(st, r, Size(r));
    forall i | 0 <= i < |batch| ensures AllFit(batch[i].writes) { OutcomeFits(db, st, r, i); }
    BatchRefines(db, st, batch);
    FittingBatchStaysProper(st, batch);
  }

  /** The bytes after a request: its whole batch, or nothing. */
  ghost function Written(db: DB, st: Store, r: Request): DB {
    if Succeeds(st, r) then PerformAll(db, BatchOps(Batch(st, r, Size(r)))) else db
  }

  /** They represent the request's result whenever it can be encoded. */
  lemma WrittenRefines(db: DB, st: Store, r: Request)
    requires Represents(db, st) && Proper(st) && Encodable(r)
    ensures Represents(Written(db, st, r), Execute(st, r)) && Proper(Execute(st, r))
  {
    if Succeeds(st, r) { ExecuteRefines(db, st, r); }
  }

  predicate EncodableInfos(infos: map<U64, U64>) {
    forall t :: t in infos ==> t < MAX_U64 && infos[t] < MAX_U64
  }

  lemma ResolveFits(db: DB, st: Store, ks: seq<Bytes>, infos: map<U64, U64>)
    requires Represents(db, st) && EncodableInfos(infos)
    ensures forall i :: 0 <= i < |ks| ==> AllFit(ResolveBatch(st, ks, infos)[i].writes)
  {
    forall i | 0 <= i < |ks| ensures AllFit(ResolveBatch(st, ks, infos)[i].writes) {
      if At(st, ks[i]).lock.Some? { StoredLockFits(db, st, ks[i]); }
    }
  }

  function ErrorOf<T>(r: Result<T>): Option<Error> {
    match r case Err(error) => Some(error) case Ok(_) => None
  }

  lemma BatchGrows(st: Store, r: Request, n: nat)
    requires n < Size(r) && forall i :: 0 <= i <= n ==> Outcome(st, r, i).Ok?
    ensures BatchOps(Batch(st, r, n + 1)) == BatchOps(Batch(st, r, n)) + KeyOps(KeyOf(r, n), Outcome(st, r, n).value)
  {
    var batch, kw := Batch(st, r, n), KeyWrites(KeyOf(r, n), Outcome(st, r, n).value);
    assert Batch(st, r, n + 1) == batch + [kw];
    BatchOpsAppend(batch, kw);
  }

  // ---- iterating key by key over a range ----

  /**
   * The iterator stands before the records of the keys ks[done..]. Either currKey is the first of
   * them, or it has no records there.
   */
  ghost predicate Cursor(it: Iterator, pos: nat, st: Store, ks: seq<Bytes>, done: nat, here: bool, currKey: Bytes)
    reads it
  {
    && it.Valid() && done <= |ks| && pos <= |it.rows|
    && it.rows[pos..] == Rows(st, ks[done..])
    && (here ==> done < |ks| && currKey == ks[done])
    && (!here ==> currKey !in ks[done..])
  }

  /** Keys in ascending order, all with a record. */
  ghost predicate Live(st: Store, ks: seq<Bytes>) {
    Ascending(ks) && Proper(st) && forall i :: 0 <= i < |ks| ==> At(st, ks[i]) != EMPTY
  }

  ghost function Current(st: Store, here: bool, currKey: Bytes): Entry {
    if here then At(st, currKey) else EMPTY
  }

  /** An entry that is not empty has a record. */
  lemma EntryNotEmpty(k: Bytes, e: Entry)
    requires e != EMPTY && MAX_U64 !in e.writes
    ensures EntryRows(k, e) != [] && EntryRows(k, e)[0].key == k
  {
    EntryRowsFacts(k, e);
    if e.lock.Some? {
      assert Row(k, MAX_U64, LockCell(e.lock.value)) in EntryRows(k, e);
    } else {
      assert e.writes != map[];
      var v :| v in e.writes;
      assert HasRow(map[k := e], Row(k, v, ValueCell(e.writes[v])));
      assert Row(k, v, ValueCell(e.writes[v])) in EntryRows(k, e);
    }
    assert EntryRows(k, e)[0] in EntryRows(k, e);
  }

  lemma FirstRowOfKey(st: Store, ks: seq<Bytes>, done: nat)
    requires Live(st, ks) && done < |ks|
    ensures Rows(st, ks[done..]) == EntryRows(ks[done], At(st, ks[done])) + Rows(st, ks[done + 1..])
    ensures Rows(st, ks[done..]) != [] && Rows(st, ks[done..])[0].key == ks[done]
  {
    assert ks[done..][0] == ks[done] && ks[done..][1..] == ks[done + 1..];
    EntryNotEmpty(ks[done], At(st, ks[done]));
  }

  /** Under the cursor lies the current key's whole entry. */
  lemma CursorEntry(it: Iterator, pos: nat, st: Store, ks: seq<Bytes>, done: nat, here: bool, currKey: Bytes)
    requires Live(st, ks) && Cursor(it, pos, st, ks, done, here, currKey)
    ensures EntryHere(it.rows, pos, currKey, Current(st, here, currKey))
    ensures here ==>
            var n := Span(At(st, currKey));
            && pos + n <= |it.rows| && it.rows[pos + n..] == Rows(st, ks[done + 1..])
            && forall i :: pos <= i < pos + n ==> it.rows[i].key == currKey
  {
    if done < |ks| { FirstRowOfKey(st, ks, done); }
    if here {
      LaterKeysDiffer(st, ks, done);
      EntryIsHere(it.rows, pos, currKey, At(st, currKey), Rows(st, ks[done + 1..]));
      assert forall i :: pos <= i < |it.rows| ==> it.rows[i] == it.rows[pos..][i - pos];
    } else {
      NewestBelow(map[], MAX_U64);
      assert pos < |it.rows| ==> it.rows[pos] == it.rows[pos..][0];
      if done < |ks| { assert ks[done] in ks[done..]; }
    }
  }

  lemma LaterKeysDiffer(st: Store, ks: seq<Bytes>, done: nat)
    requires Live(st, ks) && done < |ks|
    ensures ks[done] !in ks[done + 1..]
    ensures Rows(st, ks[done + 1..]) != [] ==> Rows(st, ks[done + 1..])[0].key != ks[done]
  {
    LessIrreflexive(ks[done]);
    if done + 1 < |ks| { FirstRowOfKey(st, ks, done + 1); }
  }

  /** newScanIterator: an iterator over [startKey, endKey) and the key to begin with. */
  method OpenScan(db: DB, startKey: Bytes, endKey: Bytes, ghost st: Store)
    returns (it: Iterator, currKey: Bytes, ghost here: bool)
    requires Represents(db, st) && Proper(st)
    ensures fresh(it) && it.pos == 0
    ensures Live(st, LiveKeys(st, startKey, endKey)) &&
            Cursor(it, 0, st, LiveKeys(st, startKey, endKey), 0, here, currKey)
    ensures it.rows == Rows(st, LiveKeys(st, startKey, endKey)) &&
            (it.HasCurrent() <==> LiveKeys(st, startKey, endKey) != [])
  {
    ghost var ks := LiveKeys(st, startKey, endKey);
    assert forall i :: 0 <= i < |ks| ==> ks[i] in ks;
    IterationOfRange(db, st, startKey, endKey);
    it := new Iterator(db, LockBound(startKey), LockBound(endKey), st, Rows(st, ks));
    currKey := startKey;
    assert ks[0..] == ks;
    if ks != [] { FirstRowOfKey(st, ks, 0); }
    if startKey == [] && it.HasCurrent() {
      var key, _ := it.CurrentSlot();
      currKey := key;
    }
    here := ks != [] && currKey == ks[0];
    if !here && ks != [] { StartNotLater(st, startKey, endKey); }
    assert it.rows[0..] == it.rows;
  }

  lemma StartNotLater(st: Store, startKey: Bytes, endKey: Bytes)
    ensures var ks := LiveKeys(st, startKey, endKey); ks != [] && startKey in ks ==> ks[0] == startKey
  {
    var ks := LiveKeys(st, startKey, endKey);
    if ks != [] && startKey in ks {
      assert ks[0] in ks;
      var i :| 0 <= i < |ks| && ks[i] == startKey;
      if i > 0 { LessTrichotomy(ks[0], startKey); }
    }
  }

  /** How many records the current key has under the cursor. */
  ghost function Span(e: Entry): nat {
    |History(e)| + if e.lock.Some? then 1 else 0
  }

  /** Past the current key's records lie those of the following keys, and the next key differs. */
  lemma CursorNext(it: Iterator, pos: nat, st: Store, ks: seq<Bytes>, done: nat, here: bool, currKey: Bytes)
    requires Live(st, ks) && Cursor(it, pos, st, ks, done, here, currKey)
    ensures var n, next := Span(Current(st, here, currKey)), if here then done + 1 else done;
            && pos + n <= |it.rows| && (here ==> n > 0)
            && (forall i :: pos <= i < pos + n ==> it.rows[i].key == currKey)
            && Cursor(it, pos + n, st, ks, next, next < |ks|, if next < |ks| then ks[next] else currKey)
            && (pos + n < |it.rows| <==> next < |ks|)
            && (next < |ks| ==> it.rows[pos + n].key == ks[next] != currKey)
  {
    var n, next := Span(Current(st, here, currKey)), if here then done + 1 else done;
    CursorEntry(it, pos, st, ks, done, here, currKey);
    NewestBelow(map[], MAX_U64);
    if here {
      LaterKeysDiffer(st, ks, done);
      FirstRowOfKey(st, ks, done);
    }
    assert it.rows[pos + n..] == Rows(st, ks[next..]);
    if next < |ks| {
      FirstRowOfKey(st, ks, next);
      assert it.rows[pos + n] == it.rows[pos + n..][0];
      assert ks[next] in ks[next..];
    }
  }

  /** skipDecoder seen key by key: the cursor moves to the next key. */
  method SkipKey(it: Iterator, currKey: Bytes, ghost base: nat, ghost st: Store, ghost ks: seq<Bytes>,
                 ghost done: nat, ghost here: bool)
    returns (ok: bool, nextKey: Bytes, ghost done': nat, ghost here': bool)
    requires Live(st, ks) && Cursor(it, base, st, ks, done, here, currKey)
    requires base <= it.pos <= base + Span(Current(st, here, currKey))
    modifies it
    ensures Cursor(it, it.pos, st, ks, done', here', nextKey)
    ensures done' == (if here then done + 1 else done) && ok == here' == (done' < |ks|) == it.HasCurrent()
    ensures here ==> it.pos > base
  {
    CursorNext(it, base, st, ks, done, here, currKey);
    ghost var n := Span(Current(st, here, currKey));
    done' := if here then done + 1 else done;
    ok, nextKey := Skip(it, currKey);
    here' := ok;
    assert it.pos == base + n;
  }

  /** One round of a scan: read the current key, then move on. */
  method ReadKey(it: Iterator, currKey: Bytes, ts: U64, si: bool, ghost st: Store, ghost ks: seq<Bytes>,
                 ghost done: nat, ghost here: bool)
    returns (r: Result<Option<Bytes>>, ok: bool, nextKey: Bytes, ghost done': nat, ghost here': bool)
    requires Live(st, ks) && Cursor(it, it.pos, st, ks, done, here, currKey)
    modifies it
    ensures r == Read(Current(st, here, currKey), currKey, ts, si)
    ensures Cursor(it, it.pos, st, ks, done', here', nextKey)
    ensures done' == (if here then done + 1 else done) && ok == here' == (done' < |ks|)
  {
    ghost var base := it.pos;
    CursorEntry(it, it.pos, st, ks, done, here, currKey);
    r := GetValue(it, currKey, ts, si, Current(st, here, currKey));
    ok, nextKey, done', here' := SkipKey(it, currKey, base, st, ks, done, here);
  }

  /** One round of a lock scan: take the current key's lock, then move on. */
  method ReadLock(it: Iterator, currKey: Bytes, ghost st: Store, ghost ks: seq<Bytes>, ghost done: nat,
                  ghost here: bool)
    returns (lock: Option<Lock>, nextKey: Bytes, ghost done': nat, ghost here': bool)
    requires Live(st, ks) && Cursor(it, it.pos, st, ks, done, here, currKey)
    modifies it
    ensures lock == Current(st, here, currKey).lock
    ensures Cursor(it, it.pos, st, ks, done', here', nextKey)
    ensures done' == (if here then done + 1 else done) && here' == (done' < |ks|) == it.HasCurrent()
    ensures here ==> it.pos > old(it.pos)
  {
    ghost var base := it.pos;
    CursorEntry(it, it.pos, st, ks, done, here, currKey);
    lock := DecodeLock(it, currKey);
    var ok;
    ok, nextKey, done', here' := SkipKey(it, currKey, base, st, ks, done, here);
  }

  /** What resolving a lock puts into the batch. */
  method ResolveOps(l: Lock, key: Bytes, commitTS: U64) returns (ops: seq<BatchOp>)
    ensures ops == KeyOps(key, ResolveKey(Some(l), l.startTS, commitTS))
  {
    if commitTS > 0 {
      ops := CommitLockOps(l, key, l.startTS, commitTS);
    } else {
      ops := RollbackLockOps(key, l.startTS);
    }
  }
}
