/**
 * mvccEntry, the simple in-memory machine for one key: a lock and a list of versions kept in
 * descending commit order. The steps the database performs on a key refine it.
 */
module MvccEntryMachine {
  import opened ByteStrings
  import opened MvccKeys
  import opened Records
  import opened Entries

  datatype Listed = Listed(lock: Option<Lock>, values: seq<Value>)

  // ---- the steps on the list form ----

  predicate Descending(vs: seq<Value>) {
    forall i, j :: 0 <= i < j < |vs| ==> vs[i].commitTS >= vs[j].commitTS
  }

  /** Where addValue puts v: before the first version that is not newer. */
  function Insert(vs: seq<Value>, v: Value): seq<Value> {
    if vs == [] then [v]
    else if vs[0].commitTS <= v.commitTS then [v] + vs
    else [vs[0]] + Insert(vs[1..], v)
  }

  /** mvccEntry.Get: the first visible put or delete, whichever it is. */
  function ListGet(l: Listed, key: Bytes, ts: U64, si: bool): Result<Option<Bytes>> {
    match ReadTimestamp(l.lock, ts, key, si)
    case Err(error) => Err(error)
    case Ok(at) =>
      var v := FirstVisible(l.values, at);
      Ok(if v.Some? then Some(v.value.value) else None)
  }

  function ListPrewrite(l: Listed, m: Mutation, primary: Bytes, startTS: U64, ttl: U64): (Option<Error>, Listed) {
    if l.values != [] && l.values[0].commitTS >= startTS then (Some(Retryable("write conflict")), l)
    else if l.lock.Some? then
      (if l.lock.value.startTS != startTS then Some(LockError(l.lock.value, m.key)) else None, l)
    else (None, l.(lock := Some(NewLock(m, primary, startTS, ttl))))
  }

  function ListCommit(l: Listed, startTS: U64, commitTS: U64): (Option<Error>, Listed) {
    if l.lock.None? || l.lock.value.startTS != startTS then
      var c := FindTxn(l.values, startTS);
      (if c.Some? && c.value.valueType != TYPE_ROLLBACK then None else Some(Retryable("txn not found")), l)
    else if l.lock.value.op == OP_LOCK then (None, l.(lock := None))
    else (None, Listed(None, Insert(l.values, CommitRecord(l.lock.value, startTS, commitTS))))
  }

  function ListRollback(l: Listed, startTS: U64): (Option<Error>, Listed) {
    if l.lock.Some? && l.lock.value.startTS == startTS then (None, Listed(None, Insert(l.values, Tombstone(startTS))))
    else
      var c := FindTxn(l.values, startTS);
      if c.None? then (None, l.(values := Insert(l.values, Tombstone(startTS))))
      else if c.value.valueType != TYPE_ROLLBACK then (Some(AlreadyCommitted(c.value.commitTS)), l)
      else (None, l)
  }

  // ---- the machine itself ----

  class MvccEntry {
    var key: Bytes
    var values: seq<Value>
    var lock: Option<Lock>

    ghost function Contents(): Listed reads this { Listed(lock, values) }

    constructor (rawKey: Bytes)
      ensures key == NewMvccKey(rawKey) && Contents() == Listed(None, [])
    {
      key, values, lock := NewMvccKey(rawKey), [], None;
    }

    method Get(ts: U64, si: bool) returns (r: Result<Option<Bytes>>)
      ensures r == ListGet(Contents(), Raw(key), ts, si)
    {
      var at := ts;
      if si && lock.Some? {
        match CheckLock(lock.value, ts, Raw(key))
        case Err(error) => return Err(error);
        case Ok(t) => at := t;
      }
      var i := 0;
      while i < |values|
        invariant 0 <= i <= |values|
        invariant FirstVisible(values, at) == FirstVisible(values[i..], at)
      {
        var v := values[i];
        if v.commitTS <= at && v.valueType != TYPE_ROLLBACK { return Ok(Some(v.value)); }
        assert values[i..][1..] == values[i + 1..];
        i := i + 1;
      }
      r := Ok(None);
    }

    method GetTxnCommitInfo(startTS: U64) returns (r: Option<Value>)
      ensures r == FindTxn(values, startTS)
    {
      var i := 0;
      while i < |values|
        invariant 0 <= i <= |values|
        invariant FindTxn(values, startTS) == FindTxn(values[i..], startTS)
      {
        if values[i].startTS == startTS { return Some(values[i]); }
        assert values[i..][1..] == values[i + 1..];
        i := i + 1;
      }
      r := None;
    }

    method Prewrite(m: Mutation, startTS: U64, primary: Bytes, ttl: U64) returns (err: Option<Error>)
      requires key == NewMvccKey(m.key)
      modifies this
      ensures (err, Contents()) == ListPrewrite(old(Contents()), m, primary, startTS, ttl) && key == old(key)
    {
      RawOfNew(m.key);
      if |values| > 0 && values[0].commitTS >= startTS { return Some(Retryable("write conflict")); }
      if lock.Some? {
        if lock.value.startTS != startTS { return Some(LockError(lock.value, Raw(key))); }
        return None;
      }
      lock := Some(NewLock(m, primary, startTS, ttl));
      err := None;
    }

    method Commit(startTS: U64, commitTS: U64) returns (err: Option<Error>)
      requires Descending(values)
      modifies this
      ensures (err, Contents()) == ListCommit(old(Contents()), startTS, commitTS) && key == old(key)
      ensures Descending(values)
    {
      if lock.None? || lock.value.startTS != startTS {
        var c := GetTxnCommitInfo(startTS);
        if c.Some? && c.value.valueType != TYPE_ROLLBACK { return None; }
        return Some(Retryable("txn not found"));
      }
      if lock.value.op != OP_LOCK { AddValue(CommitRecord(lock.value, startTS, commitTS)); }
      lock := None;
      err := None;
    }

    method Rollback(startTS: U64) returns (err: Option<Error>)
      requires Descending(values)
      modifies this
      ensures (err, Contents()) == ListRollback(old(Contents()), startTS) && key == old(key)
      ensures Descending(values)
    {
      if lock.Some? && lock.value.startTS == startTS {
        lock := None;
        AddValue(Tombstone(startTS));
        return None;
      }
      var c := GetTxnCommitInfo(startTS);
      if c.Some? {
        if c.value.valueType != TYPE_ROLLBACK { return Some(AlreadyCommitted(c.value.commitTS)); }
        return None;
      }
      AddValue(Tombstone(startTS));
      err := None;
    }

    /** Binary search for the place, then shift and insert. */
    method AddValue(v: Value)
      requires Descending(values)
      modifies this`values
      ensures values == Insert(old(values), v) && Descending(values)
    {
      var lo, hi := 0, |values|;
      while lo < hi
        invariant 0 <= lo <= hi <= |values|
        invariant forall i :: 0 <= i < lo ==> values[i].commitTS > v.commitTS
        invariant forall i :: hi <= i < |values| ==> values[i].commitTS <= v.commitTS
      {
        var mid := (lo + hi) / 2;
        if values[mid].commitTS <= v.commitTS { hi := mid; } else { lo := mid + 1; }
      }
      InsertAt(values, v, lo);
      InsertDescends(values, v, lo);
      ShiftedInsert(values, v, lo);
      if lo >= |values| {
        values := values + [v];
      } else {
        values := values[..lo + 1] + values[lo..];
        values := values[lo := v];
      }
    }

    /** Whether the transaction left a lock or a version; the search stops below its timestamp. */
    method ContainsStartTS(startTS: U64) returns (found: bool)
      ensures found <==> (lock.Some? && lock.value.startTS == startTS) || exists i :: FoundAt(values, startTS, i)
    {
      if lock.Some? && lock.value.startTS == startTS { return true; }
      var i := 0;
      while i < |values|
        invariant 0 <= i <= |values|
        invariant forall j :: 0 <= j < i ==> values[j].startTS != startTS && values[j].commitTS >= startTS
      {
        if values[i].startTS == startTS {
          assert FoundAt(values, startTS, i);
          return true;
        }
        if values[i].commitTS < startTS { return false; }
        i := i + 1;
      }
      found := false;
    }
  }

  /** The i-th version is the transaction's, and no version before it is older than the transaction. */
  predicate FoundAt(vs: seq<Value>, startTS: U64, i: int) {
    0 <= i < |vs| && vs[i].startTS == startTS && forall j :: 0 <= j < i ==> vs[j].commitTS >= startTS
  }

  /** Stopping early misses nothing in a descending list where no commit precedes its start. */
  lemma EarlyStopMissesNothing(vs: seq<Value>, startTS: U64)
    requires Descending(vs) && forall i :: 0 <= i < |vs| ==> vs[i].startTS <= vs[i].commitTS
    ensures (exists i :: FoundAt(vs, startTS, i)) <==> exists i :: 0 <= i < |vs| && vs[i].startTS == startTS
  {
    if i :| 0 <= i < |vs| && vs[i].startTS == startTS { assert FoundAt(vs, startTS, i); }
  }

  lemma {:induction false} InsertAt(vs: seq<Value>, v: Value, n: nat)
    requires n <= |vs|
    requires forall i :: 0 <= i < n ==> vs[i].commitTS > v.commitTS
    requires n < |vs| ==> vs[n].commitTS <= v.commitTS
    ensures Insert(vs, v) == vs[..n] + [v] + vs[n..]
  {
    if n > 0 {
      InsertAt(vs[1..], v, n - 1);
      assert vs == [vs[0]] + vs[1..] && vs[1..][..n - 1] == vs[1..n] && vs[1..][n - 1..] == vs[n..];
      assert vs[..n] == [vs[0]] + vs[1..n];
    }
  }

  lemma InsertDescends(vs: seq<Value>, v: Value, n: nat)
    requires Descending(vs) && n <= |vs|
    requires forall i :: 0 <= i < n ==> vs[i].commitTS > v.commitTS
    requires forall i :: n <= i < |vs| ==> vs[i].commitTS <= v.commitTS
    ensures Descending(vs[..n] + [v] + vs[n..])
  {
  }

  lemma ShiftedInsert(vs: seq<Value>, v: Value, n: nat)
    requires n <= |vs|
    ensures n == |vs| ==> vs + [v] == vs[..n] + [v] + vs[n..]
    ensures n < |vs| ==> (vs[..n + 1] + vs[n..])[n := v] == vs[..n] + [v] + vs[n..]
  {
  }

  // ---- the database's steps refine the machine's ----

  ghost function Listing(e: Entry): Listed { Listed(e.lock, History(e)) }

  /** A new version lands where the list would insert it. */
  lemma {:induction false} VersionsInsert(w: map<U64, Value>, bound: nat, v: Value)
    requires bound <= MAX_U64 && Slotted(w) && v.commitTS !in w
    ensures v.commitTS < bound ==> Versions(w[v.commitTS := v], bound) == Insert(Versions(w, bound), v)
    ensures v.commitTS >= bound ==> Versions(w[v.commitTS := v], bound) == Versions(w, bound)
  {
    if bound > 0 {
      VersionsInsert(w, bound - 1, v);
      NewestBelow(w, bound);
      if v.commitTS == bound - 1 {
        var vs := Versions(w, bound);
        assert vs != [] ==> vs[0].commitTS <= v.commitTS;
      } else if bound - 1 in w {
        assert Versions(w, bound)[1..] == Versions(w, bound - 1);
      }
    }
  }

  lemma {:induction false} VersionsDescend(w: map<U64, Value>, bound: nat)
    requires bound <= MAX_U64 && Slotted(w)
    ensures Descending(Versions(w, bound))
    ensures forall i :: 0 <= i < |Versions(w, bound)| ==> Versions(w, bound)[i].commitTS < bound
  {
    if bound > 0 { VersionsDescend(w, bound - 1); }
  }

  /** The case in which a prewrite succeeds in the database but not in the machine. */
  ghost predicate RetryUnderNewerVersion(e: Entry, startTS: U64) {
    && e.lock.Some? && e.lock.value.startTS == startTS
    && History(e) != [] && History(e)[0].commitTS >= startTS
  }

  /** The case in which both fail, the database on the lock and the machine on the newer version. */
  ghost predicate LockedUnderNewerVersion(e: Entry, startTS: U64) {
    && e.lock.Some? && e.lock.value.startTS != startTS
    && History(e) != [] && History(e)[0].commitTS >= startTS
  }

  lemma PrewriteRefines(e: Entry, m: Mutation, primary: Bytes, startTS: U64, ttl: U64)
    ensures var step := PrewriteKey(e, m, primary, startTS, ttl);
            var (err, after) := ListPrewrite(Listing(e), m, primary, startTS, ttl);
            && after == Listing(if step.Ok? then ApplyWrites(e, step.value) else e)
            && (step.Ok? != err.None? <==> RetryUnderNewerVersion(e, startTS))
            && (step.Err? ==> err.Some? && (err.value == step.error <==> !LockedUnderNewerVersion(e, startTS)))
  {
    var step := PrewriteKey(e, m, primary, startTS, ttl);
    if step.Ok? && step.value != [] {
      assert step.value[1..] == [];
    }
  }

  /** Writing at a version that exists replaces it in the database, while the machine lists both. */
  lemma {:induction false} OverwriteKeepsLength(w: map<U64, Value>, bound: nat, ver: U64, v: Value)
    requires bound <= MAX_U64 && ver in w
    ensures |Versions(w[ver := v], bound)| == |Versions(w, bound)|
  {
    if bound > 0 { OverwriteKeepsLength(w, bound - 1, ver, v); }
  }

  lemma {:induction false} InsertGrows(vs: seq<Value>, v: Value)
    ensures |Insert(vs, v)| == |vs| + 1
  {
    if vs != [] { InsertGrows(vs[1..], v); }
  }

  /** Inserting agrees with writing exactly when the version is new. */
  lemma InsertIsWrite(w: map<U64, Value>, v: Value)
    requires Slotted(w)
    ensures Insert(Versions(w, MAX_U64), v) == Versions(w[v.commitTS := v], MAX_U64) <==>
            v.commitTS !in w && v.commitTS < MAX_U64
  {
    if v.commitTS !in w {
      VersionsInsert(w, MAX_U64, v);
      InsertGrows(Versions(w, MAX_U64), v);
    } else {
      OverwriteKeepsLength(w, MAX_U64, v.commitTS, v);
      InsertGrows(Versions(w, MAX_U64), v);
    }
  }

  /** The case in which a commit writes at a version that exists, or into the lock slot. */
  ghost predicate CommitReusesVersion(e: Entry, startTS: U64, commitTS: U64) {
    && e.lock.Some? && e.lock.value.startTS == startTS && e.lock.value.op != OP_LOCK
    && (commitTS in e.writes || commitTS == MAX_U64)
  }

  /** A commit always ends alike, and leaves the same lock and versions exactly when it reuses no version. */
  lemma CommitRefines(e: Entry, startTS: U64, commitTS: U64)
    requires Slotted(e.writes)
    ensures var step := CommitKey(e, startTS, commitTS);
            var (err, after) := ListCommit(Listing(e), startTS, commitTS);
            && (if step.Ok? then err == None else err == Some(step.error))
            && (after == Listing(if step.Ok? then ApplyWrites(e, step.value) else e) <==>
                 !CommitReusesVersion(e, startTS, commitTS))
  {
    if e.lock.Some? && e.lock.value.startTS == startTS {
      ApplyCommitLock(e, e.lock.value, startTS, commitTS);
      InsertIsWrite(e.writes, CommitRecord(e.lock.value, startTS, commitTS));
    }
  }

  /** The case in which a rollback writes its tombstone at a version that exists, or into the lock slot. */
  ghost predicate RollbackReusesVersion(e: Entry, startTS: U64) {
    (startTS in e.writes || startTS == MAX_U64) &&
        ((e.lock.Some? && e.lock.value.startTS == startTS) || FindTxn(History(e), startTS).None?)
  }

  lemma RollbackRefines(e: Entry, startTS: U64)
    requires Slotted(e.writes)
    ensures var step := RollbackKey(e, startTS);
            var (err, after) := ListRollback(Listing(e), startTS);
            && (if step.Ok? then err == None else err == Some(step.error))
            && (after == Listing(if step.Ok? then ApplyWrites(e, step.value) else e) <==>
                 !RollbackReusesVersion(e, startTS))
  {
    ApplyRollbackLock(e, startTS);
    InsertIsWrite(e.writes, Tombstone(startTS));
    var step := RollbackKey(e, startTS);
    if step.Ok? && step.value != [] &&
        !(e.lock.Some? && e.lock.value.startTS == startTS) { assert step.value[1..] == []; }
  }
}
