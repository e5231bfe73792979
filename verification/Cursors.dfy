/** The database iterator and the decoders that advance it over the records of a key. */
module Cursors {
  import opened ByteStrings
  import opened Codec
  import opened Records
  import opened Entries
  import opened MvccStore
  import opened Layout

  /** A snapshot of a byte range in key order, and a position in it. */
  class Iterator {
    const keys: seq<Bytes>
    const vals: seq<Bytes>
    ghost const rows: seq<Row>
    var pos: nat

    /** The bytes under the iterator are the records rows. */
    ghost predicate Valid()
      reads this
    {
      && |keys| == |vals| == |rows| && pos <= |rows|
      && (forall i :: 0 <= i < |rows| ==> (rows[i].cell.LockCell? <==> rows[i].ver == MAX_U64))
      && (forall i {:trigger keys[i]} :: 0 <= i < |rows| ==> keys[i] == SlotOf(rows[i]))
      && (forall i {:trigger vals[i]} :: 0 <= i < |rows| ==> CellBytes(rows[i].cell, vals[i]))
    }

    constructor (db: DB, start: Option<Bytes>, limit: Option<Bytes>, ghost st: Store, ghost rows: seq<Row>)
      requires Represents(db, st) && KeysInRange(db, start, limit) == Slots(rows)
      requires forall r :: r in rows ==> HasRow(st, r)
      ensures Valid() && pos == 0 && this.rows == rows
    {
      var ks := KeysInRange(db, start, limit);
      assert forall i :: 0 <= i < |ks| ==> ks[i] in ks;
      this.keys := ks;
      this.vals := seq(|ks|, i requires 0 <= i < |ks| => db[ks[i]]);
      this.rows := rows;
      this.pos := 0;
      assert forall i :: 0 <= i < |ks| ==> ks[i] == SlotOf(rows[i]) && rows[i] in rows;
    }

    predicate HasCurrent()
      reads this
    {
      pos < |keys|
    }

    method Next()
      requires Valid() && HasCurrent()
      modifies this
      ensures Valid() && pos == old(pos) + 1
    {
      pos := pos + 1;
    }

    method Last() returns (ok: bool)
      requires Valid()
      modifies this
      ensures Valid() && ok == (|rows| > 0) && (ok ==> pos == |rows| - 1)
    {
      ok := |keys| > 0;
      if ok { pos := |keys| - 1; }
    }

    /** Steps back; before the first record the iterator is exhausted. */
    method Prev() returns (ok: bool)
      requires Valid() && HasCurrent()
      modifies this
      ensures Valid() && ok == (old(pos) > 0) && pos == if ok then old(pos) - 1 else |rows|
    {
      ok := pos > 0;
      pos := if ok then pos - 1 else |keys|;
    }

    /** mvccDecode of the current byte key. */
    method CurrentSlot() returns (key: Bytes, ver: U64)
      requires Valid() && HasCurrent()
      ensures key == rows[pos].key && ver == rows[pos].ver
    {
      MvccDecodeExactly(keys[pos], rows[pos].key, rows[pos].ver);
      var slot := MvccDecode(keys[pos]);
      key, ver := slot.key, slot.ver;
    }
  }

  /** lockDecoder: takes the lock if the iterator stands on the expected key's lock slot. */
  method DecodeLock(it: Iterator, expectKey: Bytes) returns (lock: Option<Lock>)
    requires it.Valid()
    modifies it
    ensures it.Valid()
    ensures if old(it.pos) < |it.rows| && it.rows[old(it.pos)].key == expectKey && it.rows[old(it.pos)].ver == MAX_U64
            then it.pos == old(it.pos) + 1 && lock == Some(it.rows[old(it.pos)].cell.lock)
            else it.pos == old(it.pos) && lock == None
  {
    if !it.HasCurrent() { return None; }
    var key, ver := it.CurrentSlot();
    if key != expectKey || ver != MAX_U64 { return None; }
    lock := UnmarshalLock(it.vals[it.pos]);
    it.Next();
  }

  /** valueDecoder: takes the version if the iterator stands on a version of the expected key. */
  method DecodeValue(it: Iterator, expectKey: Bytes) returns (value: Option<Value>)
    requires it.Valid()
    modifies it
    ensures it.Valid()
    ensures if old(it.pos) < |it.rows| && it.rows[old(it.pos)].key == expectKey && it.rows[old(it.pos)].ver != MAX_U64
            then it.pos == old(it.pos) + 1 && value == Some(it.rows[old(it.pos)].cell.value)
            else it.pos == old(it.pos) && value == None
  {
    if !it.HasCurrent() { return None; }
    var key, ver := it.CurrentSlot();
    if key != expectKey || ver == MAX_U64 { return None; }
    value := UnmarshalValue(it.vals[it.pos]);
    it.Next();
  }

  /** skipDecoder: moves past all records of currKey and names the next key, if any. */
  method Skip(it: Iterator, currKey: Bytes) returns (ok: bool, nextKey: Bytes)
    requires it.Valid()
    modifies it
    ensures it.Valid() && old(it.pos) <= it.pos
    ensures forall i :: old(it.pos) <= i < it.pos ==> it.rows[i].key == currKey
    ensures it.pos < |it.rows| ==> ok && it.rows[it.pos].key == nextKey != currKey
    ensures it.pos == |it.rows| ==> !ok && nextKey == currKey
  {
    while it.HasCurrent()
      invariant it.Valid() && old(it.pos) <= it.pos
      invariant forall i :: old(it.pos) <= i < it.pos ==> it.rows[i].key == currKey
      decreases |it.rows| - it.pos
    {
      var key, _ := it.CurrentSlot();
      if key != currKey { return true, key; }
      it.Next();
    }
    return false, currKey;
  }

  // ---- a key's records under the iterator ----

  /** From p on lie exactly the versions vs of key, followed by another key or the end. */
  ghost predicate ValuesHere(rows: seq<Row>, p: nat, key: Bytes, vs: seq<Value>) {
    && p + |vs| <= |rows|
    && (forall i :: p <= i < p + |vs| ==>
         rows[i].key == key && rows[i].ver != MAX_U64 && rows[i].cell == ValueCell(vs[i - p]))
    && (p + |vs| < |rows| ==> rows[p + |vs|].key != key)
  }

  /** From p on lies the whole entry e of key. */
  ghost predicate EntryHere(rows: seq<Row>, p: nat, key: Bytes, e: Entry) {
    if e.lock.Some? then
        p < |rows| && rows[p] == Row(key, MAX_U64, LockCell(e.lock.value)) && ValuesHere(rows, p + 1, key, History(e))
    else ValuesHere(rows, p, key, History(e))
  }

  lemma {:induction false} ValueRowsAligned(k: Bytes, w: map<U64, Value>, bound: nat)
    requires bound <= MAX_U64
    ensures |ValueRows(k, w, bound)| == |Versions(w, bound)|
    ensures forall i :: 0 <= i < |Versions(w, bound)| ==>
            var r := ValueRows(k, w, bound)[i];
            r.key == k && r.ver != MAX_U64 && r.cell == ValueCell(Versions(w, bound)[i])
  {
    if bound > 0 { ValueRowsAligned(k, w, bound - 1); }
  }

  lemma EntryIsHere(rows: seq<Row>, p: nat, key: Bytes, e: Entry, rest: seq<Row>)
    requires p <= |rows| && rows[p..] == EntryRows(key, e) + rest
    requires rest != [] ==> rest[0].key != key
    ensures EntryHere(rows, p, key, e)
    ensures |EntryRows(key, e)| == |History(e)| + if e.lock.Some? then 1 else 0
    ensures forall i :: 0 <= i < |EntryRows(key, e)| ==> EntryRows(key, e)[i].key == key
  {
    ValueRowsAligned(key, e.writes, MAX_U64);
    assert forall i :: p <= i < |rows| ==> rows[i] == rows[p..][i - p];
  }

  lemma {:induction false} FindTxnIs(vs: seq<Value>, startTS: U64, n: nat)
    requires n <= |vs| && forall j :: 0 <= j < n ==> vs[j].startTS != startTS
    ensures n == |vs| ==> FindTxn(vs, startTS) == None
    ensures n < |vs| && vs[n].startTS == startTS ==> FindTxn(vs, startTS) == Some(vs[n])
  {
    if n > 0 { FindTxnIs(vs[1..], startTS, n - 1); }
  }

  predicate Sees(v: Value, ts: U64) {
    v.valueType != TYPE_ROLLBACK && v.commitTS <= ts
  }

  lemma {:induction false} FirstVisibleIs(vs: seq<Value>, ts: U64, n: nat)
    requires n <= |vs| && forall j :: 0 <= j < n ==> !Sees(vs[j], ts)
    ensures n == |vs| ==> FirstVisible(vs, ts) == None
    ensures n < |vs| && Sees(vs[n], ts) ==> FirstVisible(vs, ts) == Some(vs[n])
  {
    if n > 0 { FirstVisibleIs(vs[1..], ts, n - 1); }
  }

  /** getTxnCommitInfo: the first version of the transaction. */
  method GetTxnCommitInfo(it: Iterator, key: Bytes, startTS: U64, ghost vs: seq<Value>) returns (c: Option<Value>)
    requires it.Valid() && ValuesHere(it.rows, it.pos, key, vs)
    modifies it
    ensures it.Valid() && c == FindTxn(vs, startTS)
  {
    ghost var p, n := it.pos, 0;
    while it.HasCurrent()
      invariant it.Valid() && 0 <= n <= |vs| && it.pos == p + n
      invariant forall j :: 0 <= j < n ==> vs[j].startTS != startTS
      decreases |it.rows| - it.pos
    {
      FindTxnIs(vs, startTS, n);
      var v := DecodeValue(it, key);
      if v.None? { return None; }
      if v.value.startTS == startTS { return v; }
      n := n + 1;
    }
    FindTxnIs(vs, startTS, n);
    return None;
  }

  /** getValue's search: the first committed version that can be seen, skipping rollbacks. */
  method VisibleValue(it: Iterator, key: Bytes, at: U64, ghost vs: seq<Value>) returns (r: Option<Bytes>)
    requires it.Valid() && ValuesHere(it.rows, it.pos, key, vs)
    modifies it
    ensures it.Valid() && r == ValueRead(FirstVisible(vs, at))
    ensures old(it.pos) <= it.pos <= old(it.pos) + |vs|
  {
    ghost var p, n := it.pos, 0;
    while it.HasCurrent()
      invariant it.Valid() && 0 <= n <= |vs| && it.pos == p + n
      invariant forall j :: 0 <= j < n ==> !Sees(vs[j], at)
      decreases |it.rows| - it.pos
    {
      FirstVisibleIs(vs, at, n);
      var v := DecodeValue(it, key);
      if v.None? { return None; }
      n := n + 1;
      if v.value.valueType == TYPE_ROLLBACK { continue; }
      if v.value.commitTS <= at {
        if v.value.valueType == TYPE_DELETE { return None; }
        return Some(v.value.value);
      }
    }
    FirstVisibleIs(vs, at, n);
    return None;
  }

  /** getValue: reads a key whose records lie under the iterator. */
  method GetValue(it: Iterator, key: Bytes, ts: U64, si: bool, ghost e: Entry) returns (r: Result<Option<Bytes>>)
    requires it.Valid() && EntryHere(it.rows, it.pos, key, e)
    modifies it
    ensures it.Valid() && r == Read(e, key, ts, si)
    ensures old(it.pos) <= it.pos <= old(it.pos) + |History(e)| + if e.lock.Some? then 1 else 0
  {
    var lock := DecodeLock(it, key);
    assert lock == e.lock;
    var at := ts;
    if lock.Some? && si {
      match CheckLock(lock.value, ts, key)
      case Err(error) => return Err(error);
      case Ok(t) => at := t;
    }
    var v := VisibleValue(it, key, at, History(e));
    r := Ok(v);
  }
}
