/**
 * Requests that name a key twice. The batch is collected against the store as the request found it,
 * so a repeated key is stepped twice from the same entry, while key by key the second step sees the
 * first. For each request: exactly when the two still agree.
 */
module RepeatedKeys {
  import opened ByteStrings
  import opened Records
  import opened Entries
  import opened MvccStore
  import opened Protocol
  import opened ProtocolInvariant

  /** Both succeed with the same store, or both fail with the same error. */
  ghost predicate Agrees(st: Store, r: Request) {
    match OneByOne(st, r, 0)
    case Ok(st') => Succeeds(st, r) && Same(st', Execute(st, r))
    case Err(error) => exists n :: FailsAt(st, r, n, error)
  }

  // ---- occurrences of a key ----

  function KeysOf(r: Request): seq<Bytes> {
    seq(Size(r), i requires 0 <= i < Size(r) => KeyOf(r, i))
  }

  predicate Unseen(ks: seq<Bytes>, i: nat, k: Bytes)
    requires i <= |ks|
  {
    forall h :: 0 <= h < i ==> ks[h] != k
  }

  predicate First(ks: seq<Bytes>, i: int) {
    0 <= i < |ks| && Unseen(ks, i, ks[i])
  }

  predicate Last(ks: seq<Bytes>, j: int) {
    0 <= j < |ks| && forall h :: j < h < |ks| ==> ks[h] != ks[j]
  }

  /** The j-th key is the h-th again, which is its first occurrence. */
  predicate Repeats(ks: seq<Bytes>, h: int, j: int) {
    0 <= h < j < |ks| && First(ks, h) && ks[h] == ks[j]
  }

  lemma {:induction false} FirstExists(ks: seq<Bytes>, i: nat) returns (h: nat)
    requires i < |ks|
    ensures h <= i && First(ks, h) && ks[h] == ks[i]
  {
    h := i;
    if g :| 0 <= g < i && ks[g] == ks[i] { h := FirstExists(ks, g); }
  }

  lemma {:induction false} LastExists(ks: seq<Bytes>, i: nat) returns (j: nat)
    requires i < |ks|
    ensures i <= j && Last(ks, j) && ks[j] == ks[i]
    decreases |ks| - i
  {
    j := i;
    if g :| i < g < |ks| && ks[g] == ks[i] { j := LastExists(ks, g); }
  }

  // ---- key by key ----

  ghost predicate OkBelow(st: Store, r: Request, n: nat)
    requires n <= Size(r)
  {
    forall h :: 0 <= h < n ==> Outcome(st, r, h).Ok?
  }

  /** The entry of the h-th key after its own step alone. */
  ghost function Done(st: Store, r: Request, h: nat): Entry
    requires h < Size(r) && Outcome(st, r, h).Ok?
  {
    ApplyWrites(At(st, KeyOf(r, h)), Outcome(st, r, h).value)
  }

  ghost function DoneBelow(st: Store, r: Request, n: nat): seq<Entry>
    requires n <= Size(r) && OkBelow(st, r, n)
  {
    seq(n, h requires 0 <= h < n => Done(st, r, h))
  }

  /** After i keys every key seen is as its first occurrence left it, and the others are untouched. */
  ghost predicate Progress(st0: Store, st: Store, ks: seq<Bytes>, done: seq<Entry>, i: nat)
    requires i <= |ks| && i <= |done|
  {
    && (forall k :: Unseen(ks, i, k) ==> At(st, k) == At(st0, k))
    && (forall h :: 0 <= h < i && First(ks, h) ==> At(st, ks[h]) == done[h])
  }

  lemma ProgressNext(st0: Store, st: Store, st': Store, ks: seq<Bytes>, done: seq<Entry>, i: nat, h: nat)
    requires i < |ks| && i < |done| && Progress(st0, st, ks, done, i)
    requires h <= i && First(ks, h) && ks[h] == ks[i] && st' == st[ks[i] := done[h]]
    ensures Progress(st0, st', ks, done, i + 1)
  {
    forall x | Unseen(ks, i + 1, x) ensures At(st', x) == At(st0, x) { assert Unseen(ks, i, x) && x != ks[i]; }
    forall g | 0 <= g < i + 1 && First(ks, g) ensures At(st', ks[g]) == done[g] {
      if ks[g] == ks[i] { assert g == h; }
    }
  }

  /** The step of the j-th key on top of the h-th, which is the same key, changes nothing. */
  ghost predicate Settles(st: Store, r: Request, h: nat, j: nat)
    requires h < Size(r) && j < Size(r) && Outcome(st, r, h).Ok?
  {
    var e := Done(st, r, h);
    StepOn(r, j, e).Ok? && ApplyWrites(e, StepOn(r, j, e).value) == e
  }

  /** The i-th step leaves the key as its first occurrence h does. */
  lemma StepInTurn(st0: Store, st: Store, r: Request, i: nat, h: nat)
    requires h <= i < Size(r) && KeyOf(r, h) == KeyOf(r, i) && Outcome(st0, r, h).Ok?
    requires At(st, KeyOf(r, i)) == if h == i then At(st0, KeyOf(r, i)) else Done(st0, r, h)
    requires h < i ==> Settles(st0, r, h, i)
    ensures Outcome(st, r, i).Ok? && ApplyWrites(At(st, KeyOf(r, i)), Outcome(st, r, i).value) == Done(st0, r, h)
  {
  }

  lemma OneKeyOn(st0: Store, st: Store, r: Request, ks: seq<Bytes>, done: seq<Entry>, i: nat, n: nat)
    returns (st': Store)
    requires i < n <= Size(r) && OkBelow(st0, r, n) && ks == KeysOf(r) && done == DoneBelow(st0, r, n)
    requires Progress(st0, st, ks, done, i) && forall h :: Repeats(ks, h, i) ==> Settles(st0, r, h, i)
    ensures Progress(st0, st', ks, done, i + 1) && OneByOne(st, r, i) == OneByOne(st', r, i + 1)
  {
    var h := FirstExists(ks, i);
    assert h < i ==> Repeats(ks, h, i);
    assert ks[i] == KeyOf(r, i) && ks[h] == KeyOf(r, h) && done[h] == Done(st0, r, h);
    assert h == i ==> Unseen(ks, i, ks[i]);
    StepInTurn(st0, st, r, i, h);
    st' := WriteKey(st, KeyWrites(ks[i], Outcome(st, r, i).value));
    ProgressNext(st0, st, st', ks, done, i, h);
  }

  /** The run up to the n-th key, or to the first repetition that fails. */
  lemma {:induction false} KeyByKey(st0: Store, st: Store, r: Request, ks: seq<Bytes>, done: seq<Entry>, i: nat, n: nat)
    returns (st': Store, j: nat)
    requires i <= n <= Size(r) && OkBelow(st0, r, n) && ks == KeysOf(r) && done == DoneBelow(st0, r, n)
    requires Progress(st0, st, ks, done, i)
    requires forall h, j :: Repeats(ks, h, j) && j < n ==> Settles(st0, r, h, j) || StepOn(r, j, Done(st0, r, h)).Err?
    ensures i <= j <= n && Progress(st0, st', ks, done, j) && OneByOne(st, r, i) == OneByOne(st', r, j)
    ensures j < n ==> exists h :: Repeats(ks, h, j) && StepOn(r, j, Done(st0, r, h)).Err?
    decreases n - i
  {
    if i == n || exists h :: Repeats(ks, h, i) && StepOn(r, i, Done(st0, r, h)).Err? {
      st', j := st, i;
    } else {
      var st1 := OneKeyOn(st0, st, r, ks, done, i, n);
      st', j := KeyByKey(st0, st1, r, ks, done, i + 1, n);
    }
  }

  /** A repetition that fails on top of its first occurrence fails the run. */
  lemma StopsAtRepetition(st0: Store, st: Store, r: Request, n: nat, h: nat, j: nat)
    requires j <= n <= Size(r) && OkBelow(st0, r, n) && Progress(st0, st, KeysOf(r), DoneBelow(st0, r, n), j)
    requires Repeats(KeysOf(r), h, j) && StepOn(r, j, Done(st0, r, h)).Err?
    ensures OneByOne(st, r, j) == Err(StepOn(r, j, Done(st0, r, h)).error)
  {
    assert At(st, KeysOf(r)[h]) == DoneBelow(st0, r, n)[h];
  }

  /** So does a first occurrence that fails. */
  lemma StopsAtFirst(st0: Store, st: Store, r: Request, n: nat)
    requires n < Size(r) && OkBelow(st0, r, n) && Progress(st0, st, KeysOf(r), DoneBelow(st0, r, n), n)
    requires First(KeysOf(r), n) && Outcome(st0, r, n).Err?
    ensures OneByOne(st, r, n) == Err(Outcome(st0, r, n).error)
  {
    assert At(st, KeyOf(r, n)) == At(st0, KeyOf(r, n));
  }

  // ---- the batch ----

  lemma {:induction false} WriteBatchAppend(st: Store, batch: seq<KeyWrites>, kw: KeyWrites)
    ensures WriteBatch(st, batch + [kw]) == WriteKey(WriteBatch(st, batch), kw)
    decreases |batch|
  {
    if batch == [] {
      assert (batch + [kw])[1..] == [];
    } else {
      assert (batch + [kw])[1..] == batch[1..] + [kw];
      WriteBatchAppend(WriteKey(st, batch[0]), batch[1..], kw);
    }
  }

  /** The later writes leave nothing of the earlier ones. */
  ghost predicate Absorbs(e: Entry, ws: seq<Write>, ws': seq<Write>) {
    ApplyWrites(ApplyWrites(e, ws), ws') == ApplyWrites(e, ws')
  }

  /** Where the key occurs last among the first n, or -1. */
  function LastIndex(batch: seq<KeyWrites>, n: nat, k: Bytes): (j: int)
    requires n <= |batch|
    ensures -1 <= j < n && (forall h :: j < h < n ==> batch[h].key != k) && (j >= 0 ==> batch[j].key == k)
  {
    if n == 0 then -1 else if batch[n - 1].key == k then n - 1 else LastIndex(batch, n - 1, k)
  }

  ghost predicate Absorbing(e: Entry, batch: seq<KeyWrites>, k: Bytes) {
    forall h, j :: 0 <= h < j < |batch| && batch[h].key == k && batch[j].key == k ==>
        Absorbs(e, batch[h].writes, batch[j].writes)
  }

  lemma {:induction false} LastWins(st: Store, batch: seq<KeyWrites>, n: nat, k: Bytes)
    requires n <= |batch| && Absorbing(At(st, k), batch, k)
    ensures var j := LastIndex(batch, n, k);
            At(WriteBatch(st, batch[..n]), k) == if j < 0 then At(st, k) else ApplyWrites(At(st, k), batch[j].writes)
  {
    if n > 0 {
      var kw, h := batch[n - 1], LastIndex(batch, n - 1, k);
      LastWins(st, batch, n - 1, k);
      assert batch[..n] == batch[..n - 1] + [kw];
      WriteBatchAppend(st, batch[..n - 1], kw);
      if kw.key == k && h >= 0 { assert Absorbs(At(st, k), batch[h].writes, kw.writes); }
    }
  }

  /** Steps on the same key leave nothing of each other. */
  ghost predicate StepsAbsorb(st: Store, r: Request)
    requires Succeeds(st, r)
  {
    forall h, j :: 0 <= h < j < Size(r) && KeyOf(r, h) == KeyOf(r, j) ==>
      Absorbs(At(st, KeyOf(r, j)), Outcome(st, r, h).value, Outcome(st, r, j).value)
  }

  /** Each key ends as its last step alone leaves it. */
  lemma BatchLast(st: Store, r: Request, k: Bytes)
    requires Succeeds(st, r) && StepsAbsorb(st, r)
    ensures Unseen(KeysOf(r), Size(r), k) ==> At(Execute(st, r), k) == At(st, k)
    ensures forall j :: Last(KeysOf(r), j) && KeyOf(r, j) == k ==> At(Execute(st, r), k) == Done(st, r, j)
  {
    var ks, batch := KeysOf(r), Batch(st, r, Size(r));
    assert batch[..Size(r)] == batch;
    assert Absorbing(At(st, k), batch, k);
    LastWins(st, batch, Size(r), k);
    var l := LastIndex(batch, Size(r), k);
    if l >= 0 { assert ks[l] == k; }
    forall j | Last(ks, j) && KeyOf(r, j) == k ensures j == l { assert batch[j].key == k == ks[j]; }
  }

  /** Every key's first and last step leave the same. */
  ghost predicate EndsAlike(st: Store, r: Request)
    requires Succeeds(st, r)
  {
    forall h, j :: First(KeysOf(r), h) && Last(KeysOf(r), j) && KeyOf(r, h) == KeyOf(r, j) ==>
        Done(st, r, h) == Done(st, r, j)
  }

  lemma FirstAndLastAt(st: Store, st': Store, r: Request, h: nat, j: nat)
    requires Succeeds(st, r) && StepsAbsorb(st, r) && Progress(st, st', KeysOf(r), DoneBelow(st, r, Size(r)), Size(r))
    requires First(KeysOf(r), h) && Last(KeysOf(r), j) && KeyOf(r, h) == KeyOf(r, j)
    ensures At(st', KeyOf(r, h)) == Done(st, r, h) && At(Execute(st, r), KeyOf(r, h)) == Done(st, r, j)
  {
    BatchLast(st, r, KeyOf(r, j));
    assert At(st', KeysOf(r)[h]) == DoneBelow(st, r, Size(r))[h];
  }

  /** When the run gets through, it agrees with the batch exactly when every key ends alike. */
  lemma FirstAndLast(st: Store, st': Store, r: Request)
    requires Succeeds(st, r) && StepsAbsorb(st, r) && Progress(st, st', KeysOf(r), DoneBelow(st, r, Size(r)), Size(r))
    ensures Same(st', Execute(st, r)) <==> EndsAlike(st, r)
  {
    var ks := KeysOf(r);
    forall h, j | First(ks, h) && Last(ks, j) && KeyOf(r, h) == KeyOf(r, j)
      ensures At(st', KeyOf(r, h)) == Done(st, r, h) && At(Execute(st, r), KeyOf(r, h)) == Done(st, r, j)
    {
      FirstAndLastAt(st, st', r, h, j);
    }
    if EndsAlike(st, r) {
      forall k ensures At(st', k) == At(Execute(st, r), k) {
        if i :| 0 <= i < |ks| && ks[i] == k {
          var h := FirstExists(ks, i);
          var j := LastExists(ks, i);
          FirstAndLastAt(st, st', r, h, j);
        } else {
          BatchLast(st, r, k);
        }
      }
    }
  }

  /** Repeating a step that succeeds succeeds again and settles. */
  ghost predicate AllSettle(st: Store, r: Request) {
    forall h, j :: Repeats(KeysOf(r), h, j) && Outcome(st, r, h).Ok? ==> Outcome(st, r, j).Ok? && Settles(st, r, h, j)
  }

  lemma SettledRun(st: Store, r: Request, n: nat) returns (st': Store)
    requires n <= Size(r) && OkBelow(st, r, n) && AllSettle(st, r)
    ensures Progress(st, st', KeysOf(r), DoneBelow(st, r, n), n) && OneByOne(st, r, 0) == OneByOne(st', r, n)
  {
    var j;
    st', j := KeyByKey(st, st, r, KeysOf(r), DoneBelow(st, r, n), 0, n);
  }

  /** The first key to fail is no repetition, so both fail alike. */
  lemma FailsAlike(st: Store, r: Request)
    requires !Succeeds(st, r) && AllSettle(st, r)
    ensures Agrees(st, r)
  {
    var n := FailureExists(st, r, 0);
    var h := FirstExists(KeysOf(r), n);
    assert h < n ==> Repeats(KeysOf(r), h, n);
    var st' := SettledRun(st, r, n);
    StopsAtFirst(st, st', r, n);
    assert FailsAt(st, r, n, Outcome(st, r, n).error);
  }

  // ---- prewrite ----

  lemma PrewriteAgain(st: Store, r: Request, h: nat, j: nat)
    requires r.Prewrite? && h < Size(r) && j < Size(r) && KeyOf(r, h) == KeyOf(r, j) && Outcome(st, r, h).Ok?
    ensures Outcome(st, r, j).Ok? && Settles(st, r, h, j)
    ensures Absorbs(At(st, KeyOf(r, j)), Outcome(st, r, h).value, Outcome(st, r, j).value)
    ensures Done(st, r, h) == Done(st, r, j) <==>
            || Holds(At(st, KeyOf(r, h)), r.startTS)
            || (r.mutations[h].op == r.mutations[j].op && r.mutations[h].value == r.mutations[j].value)
  {
    var e := At(st, KeyOf(r, h));
    if e.lock.None? {
      var l, l' :=
          NewLock(r.mutations[h], r.primary, r.startTS, r.ttl), NewLock(r.mutations[j], r.primary, r.startTS, r.ttl);
      assert Outcome(st, r, h).value == [PutLock(l)] && Outcome(st, r, j).value == [PutLock(l')];
      AppliedOne(e, PutLock(l));
      AppliedOne(e, PutLock(l'));
      AppliedOne(e.(lock := Some(l)), PutLock(l'));
    }
  }

  lemma AppliedOne(e: Entry, w: Write)
    ensures ApplyWrites(e, [w]) == ApplyWrite(e, w)
  {
    assert [w][1..] == [];
  }

  /** On every key the transaction has not locked yet, the first and the last mutation are the same. */
  ghost predicate SameMutations(st: Store, r: Request)
    requires r.Prewrite?
  {
    forall h, j :: First(KeysOf(r), h) && Last(KeysOf(r), j) && KeyOf(r, h) == KeyOf(r, j) ==>
      || Holds(At(st, KeyOf(r, h)), r.startTS)
      || (r.mutations[h].op == r.mutations[j].op && r.mutations[h].value == r.mutations[j].value)
  }

  /** A prewrite agrees with running it key by key exactly when it fails or its repeated mutations do not matter. */
  lemma PrewriteAgreesExactly(st: Store, r: Request)
    requires r.Prewrite?
    ensures Agrees(st, r) <==> (Succeeds(st, r) ==> SameMutations(st, r))
  {
    forall h, j | Repeats(KeysOf(r), h, j) && Outcome(st, r, h).Ok?
      ensures Outcome(st, r, j).Ok? && Settles(st, r, h, j)
    {
      PrewriteAgain(st, r, h, j);
    }
    if !Succeeds(st, r) {
      FailsAlike(st, r);
    } else {
      var st' := SettledRun(st, r, Size(r));
      PrewritesEnd(st, r);
      FirstAndLast(st, st', r);
    }
  }

  lemma PrewritesEnd(st: Store, r: Request)
    requires r.Prewrite? && Succeeds(st, r)
    ensures StepsAbsorb(st, r) && (EndsAlike(st, r) <==> SameMutations(st, r))
  {
    forall h, j | 0 <= h < Size(r) && 0 <= j < Size(r) && KeyOf(r, h) == KeyOf(r, j)
      ensures Absorbs(At(st, KeyOf(r, j)), Outcome(st, r, h).value, Outcome(st, r, j).value)
      ensures Done(st, r, h) == Done(st, r, j) <==>
              || Holds(At(st, KeyOf(r, h)), r.startTS)
              || (r.mutations[h].op == r.mutations[j].op && r.mutations[h].value == r.mutations[j].value)
    {
      PrewriteAgain(st, r, h, j);
    }
  }

  // ---- commit and rollback ----

  /** The owner of a lock has no record on the key: part of the store invariant. */
  ghost predicate OwnersAhead(st: Store, keys: seq<Bytes>, t: U64) {
    forall k :: k in keys && Holds(At(st, k), t) ==> !HasRecord(At(st, k), t)
  }

  lemma OwnersAheadInRuns(s: State, keys: seq<Bytes>, t: U64)
    requires Reachable(s)
    ensures OwnersAhead(s.st, keys, t)
  {
    ReachableInv(s);
    forall k | k in keys && Holds(At(s.st, k), t) ensures !HasRecord(At(s.st, k), t) { assert KeyGood(s, k); }
  }

  /** Committing the lock leaves no record that a second commit could find. */
  ghost predicate CommitsTracelessly(e: Entry, t: U64, c: U64) {
    Holds(e, t) && (e.lock.value.op == OP_LOCK || c == MAX_U64)
  }

  lemma CommitAgain(e: Entry, t: U64, c: U64)
    requires Holds(e, t) ==> !HasRecord(e, t)
    requires CommitKey(e, t, c).Ok?
    ensures var ws := CommitKey(e, t, c).value;
            var e' := ApplyWrites(e, ws);
            && Absorbs(e, ws, ws)
            && CommitKey(e', t, c) == if CommitsTracelessly(e, t, c) then Err(Retryable("txn not found")) else Ok([])
  {
    if Holds(e, t) {
      var l := e.lock.value;
      ApplyCommitLock(e, l, t, c);
      var e' := ApplyWrites(e, CommitKey(e, t, c).value);
      ApplyCommitLock(e', l, t, c);
      FindTxnBelow(e'.writes, MAX_U64, t);
      if l.op != OP_LOCK && c < MAX_U64 { assert e'.writes[c].startTS == t; }
    }
  }

  lemma RollbackAgain(e: Entry, t: U64)
    requires Holds(e, t) ==> !HasRecord(e, t)
    requires RollbackKey(e, t).Ok?
    ensures var ws := RollbackKey(e, t).value;
            var e' := ApplyWrites(e, ws);
            Absorbs(e, ws, ws) && RollbackKey(e', t).Ok? && ApplyWrites(e', RollbackKey(e', t).value) == e'
  {
    var ws := RollbackKey(e, t).value;
    var e' := ApplyWrites(e, ws);
    ApplyRollbackLock(e, t);
    ApplyRollbackLock(e', t);
    AppliedOne(e, PutValue(t, Tombstone(t)));
    AppliedOne(e', PutValue(t, Tombstone(t)));
    if ws != [] {
      FindTxnBelow(e.writes, MAX_U64, t);
      FindTxnBelow(e'.writes, MAX_U64, t);
      if t < MAX_U64 { assert e'.writes[t].startTS == t; }
    }
  }

  lemma CommitStepAgain(st: Store, r: Request, h: nat, j: nat)
    requires r.Commit? && OwnersAhead(st, r.keys, r.startTS)
    requires h < Size(r) && j < Size(r) && KeyOf(r, h) == KeyOf(r, j) && Outcome(st, r, h).Ok?
    ensures Outcome(st, r, j) == Outcome(st, r, h)
    ensures Absorbs(At(st, KeyOf(r, j)), Outcome(st, r, h).value, Outcome(st, r, j).value)
    ensures StepOn(r, j, Done(st, r, h)) ==
            if CommitsTracelessly(At(st, r.keys[j]), r.startTS, r.commitTS) then
                Err(Retryable("txn not found")) else Ok([])
  {
    assert r.keys[j] in r.keys;
    CommitAgain(At(st, r.keys[j]), r.startTS, r.commitTS);
  }

  /** A repeated key that is committed without a trace. */
  ghost predicate TracelessAt(st: Store, r: Request, h: int, j: int)
    requires r.Commit?
  {
    Repeats(KeysOf(r), h, j) && CommitsTracelessly(At(st, r.keys[j]), r.startTS, r.commitTS)
  }

  lemma CommitRun(st: Store, r: Request, n: nat) returns (st': Store, j: nat)
    requires r.Commit? && OwnersAhead(st, r.keys, r.startTS) && n <= Size(r) && OkBelow(st, r, n)
    ensures j <= n && Progress(st, st', KeysOf(r), DoneBelow(st, r, n), j) && OneByOne(st, r, 0) == OneByOne(st', r, j)
    ensures j < n ==> OneByOne(st', r, j) == Err(Retryable("txn not found")) && exists h :: TracelessAt(st, r, h, j)
  {
    forall h, j | Repeats(KeysOf(r), h, j) && j < n ensures Settles(st, r, h, j) || StepOn(r, j, Done(st, r, h)).Err? {
      CommitStepAgain(st, r, h, j);
    }
    st', j := KeyByKey(st, st, r, KeysOf(r), DoneBelow(st, r, n), 0, n);
    if j < n {
      var h :| Repeats(KeysOf(r), h, j) && StepOn(r, j, Done(st, r, h)).Err?;
      StopsAtRepetition(st, st', r, n, h, j);
      CommitStepAgain(st, r, h, j);
      assert TracelessAt(st, r, h, j);
    }
  }

  lemma CommitFailsAlike(st: Store, r: Request)
    requires r.Commit? && OwnersAhead(st, r.keys, r.startTS) && !Succeeds(st, r)
    ensures Agrees(st, r)
  {
    var n := FailureExists(st, r, 0);
    var h := FirstExists(KeysOf(r), n);
    assert Outcome(st, r, n) == Outcome(st, r, h);
    var st', j := CommitRun(st, r, n);
    if j == n { StopsAtFirst(st, st', r, n); }
    assert FailsAt(st, r, n, Retryable("txn not found"));
  }

  lemma CommitSucceedsAlike(st: Store, r: Request)
    requires r.Commit? && OwnersAhead(st, r.keys, r.startTS) && Succeeds(st, r)
    requires forall h, j :: !TracelessAt(st, r, h, j)
    ensures Agrees(st, r)
  {
    var st', n := CommitRun(st, r, Size(r));
    forall h, j | 0 <= h < Size(r) && 0 <= j < Size(r) && KeyOf(r, h) == KeyOf(r, j)
      ensures Outcome(st, r, j) == Outcome(st, r, h)
      ensures Absorbs(At(st, KeyOf(r, j)), Outcome(st, r, h).value, Outcome(st, r, j).value)
    {
      CommitStepAgain(st, r, h, j);
    }
    FirstAndLast(st, st', r);
  }

  lemma TracelessDisagrees(st: Store, r: Request, h: nat, j: nat)
    requires r.Commit? && OwnersAhead(st, r.keys, r.startTS) && Succeeds(st, r) && TracelessAt(st, r, h, j)
    ensures !Agrees(st, r)
  {
    var st', n := CommitRun(st, r, j);
    if n == j {
      CommitStepAgain(st, r, h, j);
      StopsAtRepetition(st, st', r, j, h, j);
    }
  }

  /** A commit agrees exactly when it fails or no repeated key is committed without a trace. */
  lemma CommitAgreesExactly(st: Store, r: Request)
    requires r.Commit? && OwnersAhead(st, r.keys, r.startTS)
    ensures Agrees(st, r) <==> (Succeeds(st, r) ==> forall h, j :: !TracelessAt(st, r, h, j))
  {
    if !Succeeds(st, r) {
      CommitFailsAlike(st, r);
    } else if h, j :| TracelessAt(st, r, h, j) {
      TracelessDisagrees(st, r, h, j);
    } else {
      CommitSucceedsAlike(st, r);
    }
  }

  lemma RollbackStepAgain(st: Store, r: Request, h: nat, j: nat)
    requires r.Rollback? && OwnersAhead(st, r.keys, r.startTS)
    requires h < Size(r) && j < Size(r) && KeyOf(r, h) == KeyOf(r, j) && Outcome(st, r, h).Ok?
    ensures Outcome(st, r, j) == Outcome(st, r, h) && Settles(st, r, h, j)
    ensures Absorbs(At(st, KeyOf(r, j)), Outcome(st, r, h).value, Outcome(st, r, j).value)
  {
    assert r.keys[j] in r.keys;
    RollbackAgain(At(st, r.keys[j]), r.startTS);
  }

  /** A rollback always agrees. */
  lemma RollbackAgrees(st: Store, r: Request)
    requires r.Rollback? && OwnersAhead(st, r.keys, r.startTS)
    ensures Agrees(st, r)
  {
    forall h, j | Repeats(KeysOf(r), h, j) && Outcome(st, r, h).Ok?
      ensures Outcome(st, r, j).Ok? && Settles(st, r, h, j)
    {
      RollbackStepAgain(st, r, h, j);
    }
    if !Succeeds(st, r) {
      FailsAlike(st, r);
    } else {
      var st' := SettledRun(st, r, Size(r));
      forall h, j | 0 <= h < Size(r) && 0 <= j < Size(r) && KeyOf(r, h) == KeyOf(r, j)
        ensures Outcome(st, r, j) == Outcome(st, r, h)
        ensures Absorbs(At(st, KeyOf(r, j)), Outcome(st, r, h).value, Outcome(st, r, j).value)
      {
        RollbackStepAgain(st, r, h, j);
      }
      FirstAndLast(st, st', r);
    }
  }

  // ---- instances ----

  /** Two different puts of one free key: the batch keeps the last, key by key the first. */
  lemma RepeatedPutDiffers(k: Bytes, t: U64)
    ensures !Agrees(map[], Prewrite([Mutation(OP_PUT, k, [1]), Mutation(OP_PUT, k, [2])], k, t, 0))
  {
    var r := Prewrite([Mutation(OP_PUT, k, [1]), Mutation(OP_PUT, k, [2])], k, t, 0);
    NewestBelow(map[], MAX_U64);
    assert Outcome(map[], r, 0).Ok? && Outcome(map[], r, 1).Ok?;
    assert First(KeysOf(r), 0) && Last(KeysOf(r), 1) && KeyOf(r, 0) == KeyOf(r, 1) == k;
    PrewriteAgreesExactly(map[], r);
  }

  /** Committing a mere lock twice: the batch succeeds, key by key the second commit finds nothing. */
  lemma RepeatedLockCommitDiffers(k: Bytes, t: U64, c: U64)
    ensures var l := Lock(t, k, [], OP_LOCK, 0, 0);
            !Agrees(map[k := Entry(Some(l), map[])], Commit([k, k], t, c))
  {
    var st := map[k := Entry(Some(Lock(t, k, [], OP_LOCK, 0, 0)), map[])];
    var r := Commit([k, k], t, c);
    assert Outcome(st, r, 0).Ok? && Outcome(st, r, 1).Ok?;
    assert TracelessAt(st, r, 0, 1);
    CommitAgreesExactly(st, r);
  }
}
