/**
 * Requests at the edge of the encoding: a timestamp of MaxUint64 names the lock slot, and a slice
 * above 10 MiB cannot be read back. For each request: exactly when the bytes still represent a store.
 */
module LockSlot {
  import opened ByteStrings
  import opened Codec
  import opened Records
  import opened Entries
  import opened MvccStore
  import opened Layout
  import opened StoreSteps
  import opened MvccLevelDb

  /** The bytes represent some store. */
  ghost predicate Sound(db: DB) {
    exists st :: Represents(db, st)
  }

  lemma SoundLockSlot(db: DB, k: Bytes)
    requires Sound(db) && MvccEncode(k, MAX_U64) in db
    ensures UnmarshalledLock(db[MvccEncode(k, MAX_U64)]).Some?
  {
    var st :| Represents(db, st);
    var r :| HasRow(st, r) && SlotOf(r) == MvccEncode(k, MAX_U64);
    OtherSlot(r, k, MAX_U64);
  }

  // ---- a tombstone in the lock slot cannot be read ----

  lemma {:induction false} LongUvarintFails(b: Bytes, i: nat)
    requires forall j :: 0 <= j < 10 - i && j < |b| ==> b[j] >= 128
    ensures ReadUvarint(b, i) == Reading.Failed
    decreases |b|
  {
    if b != [] && b[0] >= 128 { LongUvarintFails(b[1..], i + 1); }
  }

  lemma AllOnes(i: nat)
    requires i < 8
    ensures MAX_U64 / Pow256(i) % 256 == 255
  {
    var p := [1, 0x100, 0x1_0000, 0x100_0000, 0x1_0000_0000, 0x100_0000_0000, 0x1_0000_0000_0000, 0x100_0000_0000_0000];
    assert Pow256(i) == p[i] by {
      WidthBounds();
      assert Pow256(5) == 256 * Pow256(4) && Pow256(6) == 256 * Pow256(5) && Pow256(7) == 256 * Pow256(6);
    }
    assert MAX_U64 / p[i] % 256 == 255;
  }

  lemma TombstoneIsNoLock()
    ensures UnmarshalledLock(MarshalledValue(Tombstone(MAX_U64))) == None
  {
    var data, head, ones :=
        MarshalledValue(Tombstone(MAX_U64)), LittleEndian(Bits64(TYPE_ROLLBACK), 8), LittleEndian(MAX_U64, 8);
    var b := ones + (ones + SliceBytes([]));
    assert data == head + b && data[8..] == b;
    assert ReadUvarint(b, 0) == Reading.Failed by {
      forall j | 0 <= j < 8 ensures ones[j] == 255 { AllOnes(j); }
      LongUvarintFails(b, 0);
    }
  }

  // ---- prewrite ----

  /** Writing a lock leaves the bytes sound exactly when its slices can be read back. */
  lemma PrewriteSoundExactly(db: DB, st: Store, k: Bytes, l: Lock)
    requires Represents(db, st) && |l.primary| < TWO64 && |l.value| < TWO64
    ensures Sound(Perform(db, WriteOp(k, PutLock(l)))) <==> LockReadable(l)
  {
    LockRoundTrip(l, []);
    assert MarshalledLock(l) + [] == MarshalledLock(l);
    if LockReadable(l) {
      WriteRefines(db, st, k, PutLock(l));
    } else if Sound(Perform(db, WriteOp(k, PutLock(l)))) {
      SoundLockSlot(Perform(db, WriteOp(k, PutLock(l))), k);
    }
  }

  // ---- commit and rollback ----

  lemma PerformTwo(db: DB, k: Bytes, w1: Write, w2: Write)
    ensures PerformAll(db, KeyOps(k, [w1, w2])) == Perform(Perform(db, WriteOp(k, w1)), WriteOp(k, w2))
  {
    var p, d := WriteOp(k, w1), WriteOp(k, w2);
    assert [w1, w2][1..] == [w2] && [w2][1..] == [];
    assert KeyOps(k, [w2]) == [d] && KeyOps(k, [w1, w2]) == [p] + [d];
    assert ([p] + [d])[1..] == [d] && [d][1..] == [];
    assert PerformAll(Perform(db, p), [d]) == PerformAll(Perform(Perform(db, p), d), []);
  }

  lemma PerformOne(db: DB, k: Bytes, w: Write)
    ensures PerformAll(db, KeyOps(k, [w])) == Perform(db, WriteOp(k, w))
  {
    var p := WriteOp(k, w);
    assert [w][1..] == [] && KeyOps(k, [w]) == [p] && [p][1..] == [];
    assert PerformAll(db, [p]) == PerformAll(Perform(db, p), []);
  }

  /** Whatever goes into the lock slot before the lock is dropped goes with it. */
  lemma PutThenDrop(db: DB, k: Bytes, v: Value)
    ensures PerformAll(db, KeyOps(k, [PutValue(MAX_U64, v), DropLock])) == PerformAll(db, KeyOps(k, [DropLock]))
  {
    PerformTwo(db, k, PutValue(MAX_U64, v), DropLock);
    PerformOne(db, k, DropLock);
    var slot := MvccEncode(k, MAX_U64);
    assert db[slot := MarshalledValue(v)] - {slot} == db - {slot};
  }

  /** A commit at MaxUint64 drops the lock and leaves no record; the bytes stay sound. */
  lemma CommitAtMaxDropsLock(db: DB, st: Store, k: Bytes, l: Lock, startTS: U64)
    requires Represents(db, st)
    ensures Represents(PerformAll(db, KeyOps(k, CommitLock(l, startTS, MAX_U64))), st[k := At(st, k).(lock := None)])
  {
    var ws := CommitLock(l, startTS, MAX_U64);
    var v := CommitRecord(l, startTS, MAX_U64);
    assert ws == if l.op != OP_LOCK then [PutValue(MAX_U64, v), DropLock] else [DropLock];
    PutThenDrop(db, k, v);
    PerformOne(db, k, DropLock);
    DropLockRefines(db, st, k);
  }

  /** The writes go into the lock slot and are dropped with it. */
  predicate Vanishes(ws: seq<Write>) {
    |ws| == 2 && ws[0].PutValue? && ws[0].ver == MAX_U64 && ws[1] == DropLock
  }

  /** What the writes amount to on the bytes. */
  function Effective(ws: seq<Write>): seq<Write> {
    if Vanishes(ws) then [DropLock] else ws
  }

  function EffectiveBatch(batch: seq<KeyWrites>): seq<KeyWrites> {
    seq(|batch|, i requires 0 <= i < |batch| => KeyWrites(batch[i].key, Effective(batch[i].writes)))
  }

  lemma {:induction false} EffectiveBatchWrites(db: DB, batch: seq<KeyWrites>)
    ensures PerformAll(db, BatchOps(batch)) == PerformAll(db, BatchOps(EffectiveBatch(batch)))
    decreases |batch|
  {
    if batch != [] {
      var kw, rest := batch[0], batch[1..];
      assert EffectiveBatch(batch)[1..] == EffectiveBatch(rest);
      if Vanishes(kw.writes) {
        assert kw.writes == [PutValue(MAX_U64, kw.writes[0].value), DropLock];
        PutThenDrop(db, kw.key, kw.writes[0].value);
      }
      var ops, ops' := KeyOps(kw.key, kw.writes), KeyOps(kw.key, Effective(kw.writes));
      PerformAppend(db, ops, BatchOps(rest));
      PerformAppend(db, ops', BatchOps(EffectiveBatch(rest)));
      EffectiveBatchWrites(PerformAll(db, ops), rest);
    }
  }

  /** A batch of such writes and of writes that can be read back keeps the bytes sound. */
  lemma EffectiveBatchSound(db: DB, st: Store, batch: seq<KeyWrites>)
    requires Represents(db, st)
    requires forall i :: 0 <= i < |batch| ==> AllFit(batch[i].writes) || Vanishes(batch[i].writes)
    ensures Sound(PerformAll(db, BatchOps(batch)))
  {
    EffectiveBatchWrites(db, batch);
    var effective := EffectiveBatch(batch);
    forall i | 0 <= i < |effective| ensures AllFit(effective[i].writes) {
      assert effective[i].writes == Effective(batch[i].writes);
      assert AllFit([DropLock]);
    }
    BatchRefines(db, st, effective);
  }

  lemma CommitLockKeepsSound(db: DB, st: Store, k: Bytes, startTS: U64, commitTS: U64)
    requires Represents(db, st) && At(st, k).lock.Some?
    ensures var ws := CommitLock(At(st, k).lock.value, startTS, commitTS); AllFit(ws) || Vanishes(ws)
  {
    StoredLockFits(db, st, k);
  }

  /** A commit keeps the bytes sound at every timestamp. */
  lemma CommitSound(db: DB, st: Store, keys: seq<Bytes>, startTS: U64, commitTS: U64)
    requires Represents(db, st)
    ensures Sound(Written(db, st, Commit(keys, startTS, commitTS)))
  {
    var r := Commit(keys, startTS, commitTS);
    if Succeeds(st, r) {
      var batch := Batch(st, r, Size(r));
      forall i | 0 <= i < |batch| ensures AllFit(batch[i].writes) || Vanishes(batch[i].writes) {
        assert Outcome(st, r, i) == CommitKey(At(st, keys[i]), startTS, commitTS);
        if At(st, keys[i]).lock.Some? { CommitLockKeepsSound(db, st, keys[i], startTS, commitTS); }
      }
      EffectiveBatchSound(db, st, batch);
    }
  }

  /** So does resolving locks. */
  lemma ResolveSound(db: DB, st: Store, start: Bytes, end: Bytes, infos: map<U64, U64>)
    requires Represents(db, st)
    ensures Sound(Resolved(db, st, start, end, infos))
  {
    var ks := LiveKeys(st, start, end);
    var batch := ResolveBatch(st, ks, infos);
    forall i | 0 <= i < |batch| ensures AllFit(batch[i].writes) || Vanishes(batch[i].writes) {
      var lock := At(st, ks[i]).lock;
      if lock.Some? && lock.value.startTS in infos {
        CommitLockKeepsSound(db, st, ks[i], lock.value.startTS, infos[lock.value.startTS]);
      }
    }
    EffectiveBatchSound(db, st, batch);
  }

  /** And a status check. */
  lemma StatusSound(db: DB, st: Store, k: Bytes, lockTS: U64, callerStartTS: U64, currentTS: U64)
    requires Represents(db, st)
    ensures Sound(PerformAll(db, KeyOps(k, CheckStatusKey(At(st, k), lockTS, callerStartTS, currentTS).1)))
  {
    var ws := CheckStatusKey(At(st, k), lockTS, callerStartTS, currentTS).1;
    if At(st, k).lock.Some? { StoredLockFits(db, st, k); }
    var batch := [KeyWrites(k, ws)];
    assert batch[1..] == [] && BatchOps(batch) == KeyOps(k, ws) + BatchOps([]) == KeyOps(k, ws);
    EffectiveBatchSound(db, st, batch);
  }

  /** A rollback writes the tombstone without dropping the lock: the transaction holds none and has no record. */
  ghost predicate BareTombstone(e: Entry, startTS: U64) {
    !(e.lock.Some? && e.lock.value.startTS == startTS) && FindTxn(History(e), startTS).None?
  }

  lemma LockedRollbackSound(db: DB, st: Store, keys: seq<Bytes>)
    requires Represents(db, st) && Succeeds(st, Rollback(keys, MAX_U64))
    requires forall k :: k in keys ==> !BareTombstone(At(st, k), MAX_U64)
    ensures Sound(Written(db, st, Rollback(keys, MAX_U64)))
  {
    var r := Rollback(keys, MAX_U64);
    var batch := Batch(st, r, Size(r));
    forall i | 0 <= i < |batch| ensures AllFit(batch[i].writes) || Vanishes(batch[i].writes) {
      assert Outcome(st, r, i) == RollbackKey(At(st, keys[i]), MAX_U64);
      assert keys[i] in keys;
    }
    EffectiveBatchSound(db, st, batch);
  }

  /** Rolling back other keys, or the same key in the same way, leaves the tombstone in the lock slot. */
  lemma {:induction false} TombstoneStays(db: DB, batch: seq<KeyWrites>, k: Bytes, i: nat)
    requires i < |batch| && batch[i].key == k
    requires forall j :: 0 <= j < |batch| ==> var ws := batch[j].writes;
             if batch[j].key == k then ws == [PutValue(MAX_U64, Tombstone(MAX_U64))]
             else ws == [] || ws == RollbackLock(MAX_U64) || ws == [PutValue(MAX_U64, Tombstone(MAX_U64))]
    ensures var db', slot := PerformAll(db, BatchOps(batch)), MvccEncode(k, MAX_U64);
            slot in db' && db'[slot] == MarshalledValue(Tombstone(MAX_U64))
    decreases |batch|
  {
    var last := |batch| - 1;
    var front, kw := batch[..last], batch[last];
    assert batch == front + [kw];
    BatchOpsAppend(front, kw);
    PerformAppend(db, BatchOps(front), KeyOps(kw.key, kw.writes));
    var db1 := PerformAll(db, BatchOps(front));
    PerformOne(db1, kw.key, PutValue(MAX_U64, Tombstone(MAX_U64)));
    if kw.key != k {
      TombstoneStays(db, front, k, i);
      OtherSlot(Row(k, MAX_U64, ValueCell(Tombstone(MAX_U64))), kw.key, MAX_U64);
      PerformTwo(db1, kw.key, PutValue(MAX_U64, Tombstone(MAX_U64)), DropLock);
    }
  }

  lemma BareTombstoneUnsound(db: DB, st: Store, keys: seq<Bytes>, k: Bytes)
    requires Succeeds(st, Rollback(keys, MAX_U64)) && k in keys && BareTombstone(At(st, k), MAX_U64)
    ensures !Sound(Written(db, st, Rollback(keys, MAX_U64)))
  {
    var r := Rollback(keys, MAX_U64);
    var batch := Batch(st, r, Size(r));
    forall j | 0 <= j < |batch| ensures Outcome(st, r, j) == RollbackKey(At(st, keys[j]), MAX_U64) {
    }
    var i :| 0 <= i < |keys| && keys[i] == k;
    TombstoneStays(db, batch, k, i);
    TombstoneIsNoLock();
    if Sound(Written(db, st, r)) { SoundLockSlot(Written(db, st, r), k); }
  }

  /**
   * A rollback leaves the bytes sound exactly when the start timestamp is below MaxUint64 or no key
   * gets a tombstone without giving up a lock. Otherwise that key's lock can never be decoded again.
   */
  lemma RollbackSoundExactly(db: DB, st: Store, keys: seq<Bytes>, startTS: U64)
    requires Represents(db, st) && Proper(st)
    ensures Sound(Written(db, st, Rollback(keys, startTS))) <==>
            || startTS < MAX_U64 || !Succeeds(st, Rollback(keys, startTS))
            || forall k :: k in keys ==> !BareTombstone(At(st, k), startTS)
  {
    var r := Rollback(keys, startTS);
    if startTS < MAX_U64 {
      WrittenRefines(db, st, r);
    } else if Succeeds(st, r) {
      if k :| k in keys && BareTombstone(At(st, k), startTS) {
        BareTombstoneUnsound(db, st, keys, k);
      } else {
        LockedRollbackSound(db, st, keys);
      }
    }
  }

  /** An instance: cleaning up the unknown transaction MaxUint64 on an empty database. */
  lemma CleanupAtMaxBricksKey(k: Bytes)
    ensures Represents(map[], map[]) && !Sound(Written(map[], map[], Rollback([k], MAX_U64)))
    ensures MvccEncode(k, MAX_U64) in Written(map[], map[], Rollback([k], MAX_U64))
  {
    NewestBelow(map[], MAX_U64);
    var r := Rollback([k], MAX_U64);
    assert Outcome(map[], r, 0) == Ok([PutValue(MAX_U64, Tombstone(MAX_U64))]);
    RollbackSoundExactly(map[], map[], [k], MAX_U64);
    TombstoneStays(map[], Batch(map[], r, 1), k, 0);
  }
}
