/**
 * How keys, locks and versions lie in the flat byte-keyed database: one record per slot, sorted by
 * key and within a key by version from new to old, the lock before all versions.
 */
module Layout {
  import opened ByteStrings
  import opened Codec
  import opened Records
  import opened Entries
  import opened MvccStore

  type DB = map<Bytes, Bytes>

  datatype BatchOp = Put(key: Bytes, value: Bytes) | Delete(key: Bytes)

  function Perform(db: DB, op: BatchOp): DB {
    match op
    case Put(k, v) => db[k := v]
    case Delete(k) => db - {k}
  }

  /** Writing a batch applies its operations in order. */
  function PerformAll(db: DB, ops: seq<BatchOp>): DB
    decreases |ops|
  {
    if ops == [] then db else PerformAll(Perform(db, ops[0]), ops[1..])
  }

  lemma {:induction false} PerformAppend(db: DB, a: seq<BatchOp>, b: seq<BatchOp>)
    ensures PerformAll(db, a + b) == PerformAll(PerformAll(db, a), b)
    decreases |a|
  {
    if a == [] {
      assert a + b == b;
    } else {
      assert (a + b)[1..] == a[1..] + b;
      PerformAppend(Perform(db, a[0]), a[1..], b);
    }
  }

  // ---- records and the slots they occupy ----

  datatype Cell = LockCell(lock: Lock) | ValueCell(value: Value)
  datatype Row = Row(key: Bytes, ver: U64, cell: Cell)

  function SlotOf(r: Row): Bytes { MvccEncode(r.key, r.ver) }

  predicate CellBytes(c: Cell, data: Bytes) {
    match c
    case LockCell(l) => UnmarshalledLock(data) == Some(l)
    case ValueCell(v) => UnmarshalledValue(data) == Some(v)
  }

  ghost predicate HasRow(st: Store, r: Row) {
    match r.cell
    case LockCell(l) => r.ver == MAX_U64 && At(st, r.key).lock == Some(l)
    case ValueCell(v) => r.ver < MAX_U64 && r.ver in At(st, r.key).writes && At(st, r.key).writes[r.ver] == v
  }

  /** The database holds exactly the store's records, each readable and under its own slot. */
  ghost predicate Represents(db: DB, st: Store) {
    && (forall r :: HasRow(st, r) ==> SlotOf(r) in db && CellBytes(r.cell, db[SlotOf(r)]))
    && (forall b :: b in db ==> exists r :: HasRow(st, r) && SlotOf(r) == b)
  }

  // ---- writing ----

  function WriteOp(k: Bytes, w: Write): BatchOp {
    match w
    case PutLock(l) => Put(MvccEncode(k, MAX_U64), MarshalledLock(l))
    case PutValue(ver, v) => Put(MvccEncode(k, ver), MarshalledValue(v))
    case DropLock => Delete(MvccEncode(k, MAX_U64))
  }

  function KeyOps(k: Bytes, ws: seq<Write>): seq<BatchOp> {
    if ws == [] then [] else [WriteOp(k, ws[0])] + KeyOps(k, ws[1..])
  }

  function BatchOps(batch: seq<KeyWrites>): seq<BatchOp> {
    if batch == [] then [] else KeyOps(batch[0].key, batch[0].writes) + BatchOps(batch[1..])
  }

  lemma {:induction false} BatchOpsAppend(batch: seq<KeyWrites>, kw: KeyWrites)
    ensures BatchOps(batch + [kw]) == BatchOps(batch) + KeyOps(kw.key, kw.writes)
  {
    if batch == [] {
      assert (batch + [kw])[1..] == [] && batch + [kw] == [kw];
      assert BatchOps([kw]) == KeyOps(kw.key, kw.writes) + [];
    } else {
      assert (batch + [kw])[1..] == batch[1..] + [kw];
      BatchOpsAppend(batch[1..], kw);
    }
  }

  /** A write that can be read back: not into the lock slot, and no slice above 10 MiB. */
  predicate Fits(w: Write) {
    match w
    case PutLock(l) => LockReadable(l)
    case PutValue(ver, v) => ver < MAX_U64 && ValueReadable(v)
    case DropLock => true
  }

  predicate AllFit(ws: seq<Write>) {
    forall i :: 0 <= i < |ws| ==> Fits(ws[i])
  }

  lemma OtherSlot(r: Row, k: Bytes, ver: U64)
    ensures SlotOf(r) == MvccEncode(k, ver) <==> r.key == k && r.ver == ver
  {
    if SlotOf(r) == MvccEncode(k, ver) { MvccEncodeInjective(r.key, r.ver, k, ver); }
  }

  lemma PutRefines(db: DB, st: Store, k: Bytes, ver: U64, c: Cell, data: Bytes, st': Store)
    requires Represents(db, st) && CellBytes(c, data) && HasRow(st', Row(k, ver, c))
    requires forall r: Row :: r.key != k || r.ver != ver ==> (HasRow(st', r) <==> HasRow(st, r))
    requires forall r: Row :: r.key == k && r.ver == ver && HasRow(st', r) ==> r.cell == c
    ensures Represents(db[MvccEncode(k, ver) := data], st')
  {
    var db' := db[MvccEncode(k, ver) := data];
    forall r | HasRow(st', r) ensures SlotOf(r) in db' && CellBytes(r.cell, db'[SlotOf(r)]) { OtherSlot(r, k, ver); }
    forall b | b in db' ensures exists r :: HasRow(st', r) && SlotOf(r) == b {
      if b == MvccEncode(k, ver) {
        assert SlotOf(Row(k, ver, c)) == b;
      } else {
        var r :| HasRow(st, r) && SlotOf(r) == b;
        OtherSlot(r, k, ver);
        assert HasRow(st', r);
      }
    }
  }

  /** Removing slots removes exactly the records in them. */
  lemma RemoveRefines(db: DB, st: Store, gone: set<Bytes>, st': Store)
    requires Represents(db, st)
    requires forall r :: HasRow(st', r) <==> HasRow(st, r) && SlotOf(r) !in gone
    ensures Represents(db - gone, st')
  {
    forall b | b in db - gone ensures exists r :: HasRow(st', r) && SlotOf(r) == b {
      var r :| HasRow(st, r) && SlotOf(r) == b;
      assert HasRow(st', r);
    }
  }

  lemma PutLockRefines(db: DB, st: Store, k: Bytes, l: Lock, data: Bytes)
    requires Represents(db, st) && CellBytes(LockCell(l), data)
    ensures Represents(db[MvccEncode(k, MAX_U64) := data], st[k := At(st, k).(lock := Some(l))])
  {
    PutRefines(db, st, k, MAX_U64, LockCell(l), data, st[k := At(st, k).(lock := Some(l))]);
  }

  lemma PutValueRefines(db: DB, st: Store, k: Bytes, ver: U64, v: Value, data: Bytes)
    requires Represents(db, st) && ver < MAX_U64 && CellBytes(ValueCell(v), data)
    ensures Represents(db[MvccEncode(k, ver) := data], st[k := At(st, k).(writes := At(st, k).writes[ver := v])])
  {
    PutRefines(db, st, k, ver, ValueCell(v), data, st[k := At(st, k).(writes := At(st, k).writes[ver := v])]);
  }

  lemma DropLockRow(st: Store, k: Bytes, r: Row)
    ensures HasRow(st[k := ApplyWrite(At(st, k), DropLock)], r) <==>
            HasRow(st, r) && SlotOf(r) != MvccEncode(k, MAX_U64)
  {
    OtherSlot(r, k, MAX_U64);
  }

  lemma DropLockRefines(db: DB, st: Store, k: Bytes)
    requires Represents(db, st)
    ensures Represents(Perform(db, WriteOp(k, DropLock)), st[k := ApplyWrite(At(st, k), DropLock)])
  {
    var st', slot := st[k := ApplyWrite(At(st, k), DropLock)], MvccEncode(k, MAX_U64);
    forall r ensures HasRow(st', r) <==> HasRow(st, r) && SlotOf(r) !in {slot} { DropLockRow(st, k, r); }
    RemoveRefines(db, st, {slot}, st');
  }

  lemma WriteRefines(db: DB, st: Store, k: Bytes, w: Write)
    requires Represents(db, st) && Fits(w)
    ensures Represents(Perform(db, WriteOp(k, w)), st[k := ApplyWrite(At(st, k), w)])
  {
    match w
    case PutLock(l) =>
      LockRoundTrip(l, []);
      assert MarshalledLock(l) + [] == MarshalledLock(l);
      PutLockRefines(db, st, k, l.(minCommitTS := 0), MarshalledLock(l));
    case PutValue(ver, v) =>
      ValueRoundTrip(v, []);
      assert MarshalledValue(v) + [] == MarshalledValue(v);
      PutValueRefines(db, st, k, ver, v, MarshalledValue(v));
    case DropLock => DropLockRefines(db, st, k);
  }

  lemma NoWriteRefines(db: DB, st: Store, k: Bytes)
    requires Represents(db, st)
    ensures Represents(db, st[k := At(st, k)])
  {
    assert forall r :: HasRow(st, r) <==> HasRow(st[k := At(st, k)], r);
  }

  lemma {:induction false} KeyOpsRefine(db: DB, st: Store, k: Bytes, ws: seq<Write>)
    requires Represents(db, st) && AllFit(ws)
    ensures Represents(PerformAll(db, KeyOps(k, ws)), WriteKey(st, KeyWrites(k, ws)))
    decreases |ws|
  {
    if ws == [] {
      NoWriteRefines(db, st, k);
    } else {
      var e1 := ApplyWrite(At(st, k), ws[0]);
      WriteRefines(db, st, k, ws[0]);
      KeyOpsRefine(Perform(db, WriteOp(k, ws[0])), st[k := e1], k, ws[1..]);
      assert KeyOps(k, ws)[1..] == KeyOps(k, ws[1..]);
      assert st[k := e1][k := ApplyWrites(e1, ws[1..])] == st[k := ApplyWrites(e1, ws[1..])];
    }
  }

  /** Writing the encoded batch to the bytes is writing the batch to the store. */
  lemma {:induction false} BatchRefines(db: DB, st: Store, batch: seq<KeyWrites>)
    requires Represents(db, st) && forall i :: 0 <= i < |batch| ==> AllFit(batch[i].writes)
    ensures Represents(PerformAll(db, BatchOps(batch)), WriteBatch(st, batch))
    decreases |batch|
  {
    if batch != [] {
      var ops := KeyOps(batch[0].key, batch[0].writes);
      KeyOpsRefine(db, st, batch[0].key, batch[0].writes);
      BatchRefines(PerformAll(db, ops), WriteKey(st, batch[0]), batch[1..]);
      PerformAppend(db, ops, BatchOps(batch[1..]));
    }
  }

  /** No version lies in the lock slot. */
  ghost predicate Proper(st: Store) {
    forall k :: k in st ==> MAX_U64 !in st[k].writes
  }

  lemma {:induction false} FittingWritesStayProper(e: Entry, ws: seq<Write>)
    requires MAX_U64 !in e.writes && AllFit(ws)
    ensures MAX_U64 !in ApplyWrites(e, ws).writes
    decreases |ws|
  {
    if ws != [] { FittingWritesStayProper(ApplyWrite(e, ws[0]), ws[1..]); }
  }

  lemma {:induction false} FittingBatchStaysProper(st: Store, batch: seq<KeyWrites>)
    requires Proper(st) && forall i :: 0 <= i < |batch| ==> AllFit(batch[i].writes)
    ensures Proper(WriteBatch(st, batch))
    decreases |batch|
  {
    if batch != [] {
      FittingWritesStayProper(At(st, batch[0].key), batch[0].writes);
      FittingBatchStaysProper(WriteKey(st, batch[0]), batch[1..]);
    }
  }

  /** A commit timestamp of MaxUint64 would name the lock slot: the record is lost with the lock. */
  lemma CommitAtLockVersionLosesRecord(db: DB, k: Bytes, l: Lock, startTS: U64, commitTS: U64)
    requires l.op != OP_LOCK
    ensures var db' := PerformAll(db, KeyOps(k, CommitLock(l, startTS, commitTS)));
            MvccEncode(k, commitTS) in db' <==> commitTS != MAX_U64
  {
    var ws := CommitLock(l, startTS, commitTS);
    var p, d := WriteOp(k, ws[0]), WriteOp(k, ws[1]);
    assert ws[1..] == [DropLock];
    assert KeyOps(k, [DropLock]) == [d];
    assert KeyOps(k, ws) == [p] + [d];
    assert PerformAll(db, KeyOps(k, ws)) == Perform(Perform(db, p), d) by {
      assert ([p] + [d])[1..] == [d];
      assert PerformAll(Perform(db, p), [d]) == Perform(Perform(db, p), d);
    }
    OtherSlot(Row(k, commitTS, LockCell(l)), k, MAX_U64);
  }

  // ---- the sorted records of a store ----

  ghost function ValueRows(k: Bytes, w: map<U64, Value>, bound: nat): seq<Row>
    requires bound <= MAX_U64
  {
    if bound == 0 then []
    else if bound - 1 in w then [Row(k, bound - 1, ValueCell(w[bound - 1]))] + ValueRows(k, w, bound - 1)
    else ValueRows(k, w, bound - 1)
  }

  ghost function LockRows(k: Bytes, lock: Option<Lock>): seq<Row> {
    if lock.Some? then [Row(k, MAX_U64, LockCell(lock.value))] else []
  }

  ghost function EntryRows(k: Bytes, e: Entry): seq<Row> {
    LockRows(k, e.lock) + ValueRows(k, e.writes, MAX_U64)
  }

  ghost function Rows(st: Store, ks: seq<Bytes>): seq<Row> {
    if ks == [] then [] else EntryRows(ks[0], At(st, ks[0])) + Rows(st, ks[1..])
  }

  predicate RowLess(a: Row, b: Row) {
    Less(a.key, b.key) || (a.key == b.key && a.ver > b.ver)
  }

  ghost predicate InOrder(rows: seq<Row>) {
    forall i, j :: 0 <= i < j < |rows| ==> RowLess(rows[i], rows[j])
  }

  lemma {:induction false} ValueRowsFacts(k: Bytes, w: map<U64, Value>, bound: nat)
    requires bound <= MAX_U64
    ensures InOrder(ValueRows(k, w, bound))
    ensures forall r :: r in ValueRows(k, w, bound) <==>
            r.key == k && r.ver < bound && r.ver in w && r.cell == ValueCell(w[r.ver])
  {
    if bound > 0 {
      ValueRowsFacts(k, w, bound - 1);
      var tail := ValueRows(k, w, bound - 1);
      assert forall i :: 0 <= i < |tail| ==> tail[i] in tail;
    }
  }

  lemma EntryRowsFacts(k: Bytes, e: Entry)
    ensures InOrder(EntryRows(k, e))
    ensures forall r :: r in EntryRows(k, e) <==> r.key == k && HasRow(map[k := e], r)
  {
    ValueRowsFacts(k, e.writes, MAX_U64);
    var tail := ValueRows(k, e.writes, MAX_U64);
    assert forall i :: 0 <= i < |tail| ==> tail[i] in tail;
  }

  lemma {:induction false} RowsFacts(st: Store, ks: seq<Bytes>)
    requires Ascending(ks)
    ensures InOrder(Rows(st, ks))
    ensures forall r :: r in Rows(st, ks) <==> r.key in ks && HasRow(st, r)
  {
    if ks != [] {
      var first, rest := EntryRows(ks[0], At(st, ks[0])), Rows(st, ks[1..]);
      EntryRowsFacts(ks[0], At(st, ks[0]));
      RowsFacts(st, ks[1..]);
      forall i, j | 0 <= i < |first| && 0 <= j < |rest| ensures RowLess(first[i], rest[j]) {
        assert first[i] in first && rest[j] in rest;
        var n :| 0 <= n < |ks[1..]| && ks[1..][n] == rest[j].key;
        assert Less(ks[0], ks[n + 1]);
      }
      assert ks == [ks[0]] + ks[1..];
    }
  }

  ghost function Slots(rows: seq<Row>): seq<Bytes> {
    seq(|rows|, i requires 0 <= i < |rows| => SlotOf(rows[i]))
  }

  /** Start and limit of a byte range; None is unbounded. */
  predicate InByteRange(start: Option<Bytes>, limit: Option<Bytes>, b: Bytes) {
    (start.None? || AtMost(start.value, b)) && (limit.None? || Less(b, limit.value))
  }

  function LockBound(key: Bytes): Option<Bytes> {
    if key == [] then None else Some(MvccEncode(key, MAX_U64))
  }

  function KeysInRange(db: DB, start: Option<Bytes>, limit: Option<Bytes>): seq<Bytes> {
    Sorted(set b | b in db && InByteRange(start, limit, b))
  }

  lemma LockBoundsMeanKeys(start: Bytes, end: Bytes, key: Bytes, ver: U64)
    ensures InByteRange(LockBound(start), LockBound(end), MvccEncode(key, ver)) <==> InRange(start, end, key)
    ensures InByteRange(Some(MvccEncode(start, MAX_U64)), None, MvccEncode(key, ver)) <==> AtMost(start, key)
  {
    MvccEncodeOrder(start, MAX_U64, key, ver);
    MvccEncodeOrder(key, ver, end, MAX_U64);
    if MvccEncode(start, MAX_U64) == MvccEncode(key, ver) { MvccEncodeInjective(start, MAX_U64, key, ver); }
  }

  /** The encoding keeps the records in order. */
  lemma SlotsAscend(rows: seq<Row>)
    requires InOrder(rows)
    ensures Ascending(Slots(rows))
  {
    forall i, j | 0 <= i < j < |rows| ensures Less(SlotOf(rows[i]), SlotOf(rows[j])) {
      MvccEncodeOrder(rows[i].key, rows[i].ver, rows[j].key, rows[j].ver);
    }
  }

  lemma SlotMembers(rows: seq<Row>, b: Bytes)
    ensures b in Slots(rows) <==> exists r :: r in rows && SlotOf(r) == b
  {
    if b in Slots(rows) {
      var i :| 0 <= i < |rows| && Slots(rows)[i] == b;
      assert rows[i] in rows && SlotOf(rows[i]) == b;
    }
    if r :| r in rows && SlotOf(r) == b {
      var i :| 0 <= i < |rows| && rows[i] == r;
      assert Slots(rows)[i] == b;
    }
  }

  /** The sorted byte keys of a range are the slots of the sorted records of the keys in it. */
  lemma IterationOrder(db: DB, st: Store, start: Option<Bytes>, limit: Option<Bytes>, ks: seq<Bytes>)
    requires Represents(db, st) && Ascending(ks)
    requires forall r :: HasRow(st, r) ==> (InByteRange(start, limit, SlotOf(r)) <==> r.key in ks)
    ensures KeysInRange(db, start, limit) == Slots(Rows(st, ks))
  {
    var rows := Rows(st, ks);
    var keys := KeysInRange(db, start, limit);
    RowsFacts(st, ks);
    SlotsAscend(rows);
    forall b ensures b in keys <==> b in Slots(rows) {
      SlotMembers(rows, b);
    }
    AscendingUnique(keys, Slots(rows));
  }

  /** From a key's lock slot on: its own records first, then records of other keys only. */
  lemma IterationFromKey(db: DB, st: Store, key: Bytes) returns (rest: seq<Row>)
    requires Represents(db, st)
    ensures KeysInRange(db, Some(MvccEncode(key, MAX_U64)), None) == Slots(EntryRows(key, At(st, key)) + rest)
    ensures forall i :: 0 <= i < |rest| ==> rest[i].key != key
    ensures forall r :: r in EntryRows(key, At(st, key)) + rest ==> HasRow(st, r)
  {
    var later := Sorted(set k | k in st && Less(key, k));
    var ks := [key] + later;
    assert Ascending(ks) by {
      forall i | 0 <= i < |later| ensures Less(key, later[i]) { assert later[i] in later; }
    }
    forall r | HasRow(st, r) ensures InByteRange(Some(MvccEncode(key, MAX_U64)), None, SlotOf(r)) <==> r.key in ks {
      LockBoundsMeanKeys(key, [], r.key, r.ver);
      assert r.key in ks <==> r.key == key || r.key in later;
    }
    IterationOrder(db, st, Some(MvccEncode(key, MAX_U64)), None, ks);
    RowsFacts(st, ks);
    rest := Rows(st, ks[1..]);
    assert ks[1..] == later;
    RowsFacts(st, later);
    forall i | 0 <= i < |rest| ensures rest[i].key != key {
      assert rest[i] in rest;
      LessIrreflexive(key);
    }
  }

  /** From startKey to endKey: the records of the live keys in that range. */
  lemma IterationOfRange(db: DB, st: Store, start: Bytes, end: Bytes)
    requires Represents(db, st)
    ensures KeysInRange(db, LockBound(start), LockBound(end)) == Slots(Rows(st, LiveKeys(st, start, end)))
    ensures forall r :: r in Rows(st, LiveKeys(st, start, end)) ==> HasRow(st, r)
  {
    var ks := LiveKeys(st, start, end);
    forall r | HasRow(st, r) ensures InByteRange(LockBound(start), LockBound(end), SlotOf(r)) <==> r.key in ks {
      LockBoundsMeanKeys(start, end, r.key, r.ver);
    }
    IterationOrder(db, st, LockBound(start), LockBound(end), ks);
    RowsFacts(st, ks);
  }

  /** Deleting the byte range between two encoded keys deletes the keys of that range, wholly. */
  lemma DeleteRangeRefines(db: DB, st: Store, start: Bytes, end: Bytes)
    requires Represents(db, st)
    ensures Represents(db - SlotsBetween(db, start, end), DeleteRange(st, start, end))
  {
    var gone, st' := SlotsBetween(db, start, end), DeleteRange(st, start, end);
    forall r ensures HasRow(st', r) <==> HasRow(st, r) && SlotOf(r) !in gone {
      EncodedKeyBounds(start, end, r.key, r.ver);
    }
    RemoveRefines(db, st, gone, st');
  }

  function SlotsBetween(db: DB, start: Bytes, end: Bytes): set<Bytes> {
    set b | b in db && InByteRange(Some(Encoded(start)), Some(Encoded(end)), b)
  }
}
