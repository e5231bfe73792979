/** ReverseScan: the range read backwards, record by record, and when it agrees with Scan. */
module ReverseScanning {
  import opened ByteStrings
  import opened Records
  import opened Entries
  import opened MvccStore
  import opened Layout
  import opened Cursors
  import opened StoreSteps
  import opened MvccEntryMachine
  import opened MvccKeys
  import opened MvccLevelDb
  import Protocol
  import ProtocolInvariant
  import StatusVerdicts

  /** The pair finishEntry makes: empty values are dropped, and a delete counts by its value. */
  function ReversePair(key: Bytes, r: Result<Option<Bytes>>): seq<Pair> {
    match r
    case Err(error) => [KeyError(key, error)]
    case Ok(None) => []
    case Ok(Some(v)) => if v == [] then [] else [KeyValue(key, v)]
  }

  ghost function ReverseRead(st: Store, key: Bytes, ts: U64, si: bool): seq<Pair> {
    ReversePair(key, ListGet(Listing(At(st, key)), key, ts, si))
  }

  /** The pairs of the keys from the last to the first. */
  ghost function ReversePairs(st: Store, ks: seq<Bytes>, ts: U64, si: bool): seq<Pair> {
    if ks == [] then [] else ReversePairs(st, ks[1..], ts, si) + ReverseRead(st, ks[0], ts, si)
  }

  lemma {:induction false} ReversePairsAppend(st: Store, a: seq<Bytes>, b: seq<Bytes>, ts: U64, si: bool)
    ensures ReversePairs(st, a + b, ts, si) == ReversePairs(st, b, ts, si) + ReversePairs(st, a, ts, si)
  {
    if a == [] {
      assert a + b == b;
    } else {
      assert (a + b)[1..] == a[1..] + b;
      ReversePairsAppend(st, a[1..], b, ts, si);
    }
  }

  function Reversed<T>(s: seq<T>): (r: seq<T>)
    ensures |r| == |s| && forall i :: 0 <= i < |s| ==> r[i] == s[|s| - 1 - i]
  {
    seq(|s|, i requires 0 <= i < |s| => s[|s| - 1 - i])
  }

  /** reverse: swaps in place from both ends. */
  method ReverseInPlace(a: array<Value>)
    modifies a
    ensures a[..] == Reversed(old(a[..]))
  {
    var i, j := 0, a.Length - 1;
    while i < j
      invariant 0 <= i && i + j == a.Length - 1
      invariant forall k :: 0 <= k < a.Length && (k < i || k > j) ==> a[k] == old(a[a.Length - 1 - k])
      invariant forall k :: 0 <= k < a.Length && i <= k <= j ==> a[k] == old(a[k])
    {
      a[i], a[j] := a[j], a[i];
      i, j := i + 1, j - 1;
    }
  }

  method NewestFirst(vs: seq<Value>) returns (r: seq<Value>)
    ensures r == Reversed(vs)
  {
    var a := new Value[|vs|](i requires 0 <= i < |vs| => vs[i]);
    assert a[..] == vs;
    ReverseInPlace(a);
    r := a[..];
  }

  /** What the helper holds. */
  datatype Gathered = Gathered(ts: U64, si: bool, currKey: Bytes, lock: Option<Lock>, values: seq<Value>,
                               pairs: seq<Pair>)

  /** The pair of the pending entry, if it makes one. */
  function PendingPair(g: Gathered): seq<Pair> {
    ReversePair(g.currKey, ListGet(Listed(g.lock, Reversed(g.values)), g.currKey, g.ts, g.si))
  }

  class ReverseScanHelper {
    const ts: U64
    const si: bool
    var currKey: Bytes
    var lock: Option<Lock>
    var values: seq<Value>
    var pairs: seq<Pair>

    ghost function View(): Gathered
      reads this
    {
      Gathered(ts, si, currKey, lock, values, pairs)
    }

    constructor (ts: U64, si: bool, currKey: Bytes)
      ensures View() == Gathered(ts, si, currKey, None, [], [])
    {
      this.ts, this.si, this.currKey := ts, si, currKey;
      lock, values, pairs := None, [], [];
    }

    /** Reads the entry collected so far, newest version last, and starts a new one. */
    method FinishEntry()
      modifies this
      ensures lock == None && values == [] && currKey == old(currKey)
      ensures pairs == old(pairs) + PendingPair(old(View()))
    {
      var newestFirst := NewestFirst(values);
      var entry := new MvccEntry(currKey);
      entry.values, entry.lock := newestFirst, lock;
      var r := entry.Get(ts, si);
      RawOfNew(currKey);
      pairs := pairs + ReversePair(currKey, r);
      lock, values := None, [];
    }
  }

  // ---- where the records of the j-th key lie ----

  lemma Associative<T>(a: seq<T>, b: seq<T>, c: seq<T>)
    ensures a + (b + c) == (a + b) + c
  {
  }

  lemma {:induction false} RowsAppend(st: Store, a: seq<Bytes>, b: seq<Bytes>)
    ensures Rows(st, a + b) == Rows(st, a) + Rows(st, b)
  {
    if a == [] {
      assert a + b == b;
    } else {
      assert (a + b)[1..] == a[1..] + b;
      RowsAppend(st, a[1..], b);
      Associative(EntryRows(a[0], At(st, a[0])), Rows(st, a[1..]), Rows(st, b));
    }
  }

  ghost function Base(st: Store, ks: seq<Bytes>, j: nat): nat
    requires j <= |ks|
  {
    |Rows(st, ks[..j])|
  }

  lemma BaseSplits(st: Store, ks: seq<Bytes>, j: nat)
    requires j < |ks|
    ensures Base(st, ks, j) <= |Rows(st, ks)| && Rows(st, ks)[Base(st, ks, j)..] == Rows(st, ks[j..])
    ensures Base(st, ks, j + 1) == Base(st, ks, j) + |EntryRows(ks[j], At(st, ks[j]))|
  {
    assert ks == ks[..j] + ks[j..] && ks[..j + 1] == ks[..j] + [ks[j]];
    RowsAppend(st, ks[..j], ks[j..]);
    RowsAppend(st, ks[..j], [ks[j]]);
    assert Rows(st, [ks[j]]) == EntryRows(ks[j], At(st, ks[j])) + [];
  }

  /** The j-th key's records start at its base: the lock if any, then the versions. */
  lemma KeyRecords(st: Store, ks: seq<Bytes>, j: nat)
    requires Live(st, ks) && j < |ks|
    ensures var e, base, rows := At(st, ks[j]), Base(st, ks, j), Rows(st, ks);
            && Base(st, ks, j + 1) == base + Span(e) <= |rows| && Span(e) > 0
            && (forall i :: base <= i < base + Span(e) ==> rows[i].key == ks[j])
            && EntryHere(rows, base, ks[j], e)
  {
    var e, base, rows := At(st, ks[j]), Base(st, ks, j), Rows(st, ks);
    BaseSplits(st, ks, j);
    FirstRowOfKey(st, ks, j);
    LaterKeysDiffer(st, ks, j);
    EntryIsHere(rows, base, ks[j], e, Rows(st, ks[j + 1..]));
    EntryNotEmpty(ks[j], e);
    SameKeyRows(rows, base, EntryRows(ks[j], e), Rows(st, ks[j + 1..]), ks[j]);
  }

  lemma SameKeyRows(rows: seq<Row>, base: nat, part: seq<Row>, rest: seq<Row>, key: Bytes)
    requires base <= |rows| && rows[base..] == part + rest && forall i :: 0 <= i < |part| ==> part[i].key == key
    ensures base + |part| <= |rows| && forall i :: base <= i < base + |part| ==> rows[i].key == key
  {
    forall i | base <= i < base + |part| ensures rows[i].key == key { assert rows[i] == rows[base..][i - base]; }
  }

  function Held(e: Entry): nat { if e.lock.Some? then 1 else 0 }

  /** lock and values are what reading the entry's records backwards down to the q-th collects. */
  ghost predicate PartOf(lock: Option<Lock>, values: seq<Value>, e: Entry, q: nat) {
    && q <= Span(e)
    && lock == (if q == 0 then e.lock else None)
    && values == Reversed(History(e)[if q <= Held(e) then 0 else q - Held(e)..])
  }

  lemma TakeVersion(lock: Option<Lock>, values: seq<Value>, e: Entry, q: nat)
    requires PartOf(lock, values, e, q + 1) && q >= Held(e)
    ensures PartOf(lock, values + [History(e)[q - Held(e)]], e, q)
  {
    var vs, i := History(e), q - Held(e);
    assert vs[i..] == [vs[i]] + vs[i + 1..];
    assert Reversed(vs[i..]) == Reversed(vs[i + 1..]) + [vs[i]];
  }

  /** The j-th key's records from the p-th on are collected. */
  ghost predicate Collected(g: Gathered, st: Store, ks: seq<Bytes>, j: nat, p: nat) {
    && j < |ks| && g.currKey == ks[j] && Base(st, ks, j) <= p
    && PartOf(g.lock, g.values, At(st, ks[j]), p - Base(st, ks, j))
  }

  /** The pairs are those of the keys after the j-th, all of them in range. */
  ghost predicate Progress(g: Gathered, st: Store, ks: seq<Bytes>, j: nat, startKey: Bytes, limit: int) {
    && j < |ks| && g.pairs == ReversePairs(st, ks[j + 1..], g.ts, g.si)
    && (forall i :: j < i < |ks| ==> AtMost(startKey, ks[i]))
    && |g.pairs| <= limit
  }

  /** Everything from the p-th record on is gathered. */
  ghost predicate Scanning(g: Gathered, st: Store, ks: seq<Bytes>, j: nat, p: nat, startKey: Bytes, limit: int) {
    && Live(st, ks) && p <= |Rows(st, ks)|
    && Progress(g, st, ks, j, startKey, limit) && Collected(g, st, ks, j, p)
    && (p < Base(st, ks, j) + Span(At(st, ks[j])) ==> AtMost(startKey, ks[j]))
  }

  lemma EmptyPart(e: Entry)
    requires Span(e) > 0
    ensures PartOf(None, [], e, Span(e))
  {
    assert History(e)[|History(e)|..] == [];
  }

  lemma WholePart(lock: Option<Lock>, values: seq<Value>, e: Entry)
    requires PartOf(lock, values, e, 0)
    ensures Listed(lock, Reversed(values)) == Listing(e)
  {
    assert History(e)[0..] == History(e);
    assert Reversed(Reversed(History(e))) == History(e);
  }

  lemma WholeKeyBelow(st: Store, ks: seq<Bytes>, j: nat, p: nat)
    requires Live(st, ks) && j < |ks| && 0 < p <= |Rows(st, ks)| &&
             Base(st, ks, j) <= p <= Base(st, ks, j) + Span(At(st, ks[j]))
    ensures p > Base(st, ks, j) ==> Rows(st, ks)[p - 1].key == ks[j]
    ensures p == Base(st, ks, j) ==>
            j > 0 && Rows(st, ks)[p - 1].key == ks[j - 1] != ks[j] &&
                Base(st, ks, j - 1) + Span(At(st, ks[j - 1])) == p && Base(st, ks, j - 1) < p
    ensures Span(At(st, ks[j])) > 0
  {
    KeyRecords(st, ks, j);
    assert ks[..0] == [];
    if p == Base(st, ks, j) {
      KeyRecords(st, ks, j - 1);
      LessIrreflexive(ks[j]);
      assert Less(ks[j - 1], ks[j]);
    }
  }

  /** Finishing a fully collected key adds its pair; collecting then starts at the key below. */
  lemma NextKey(g: Gathered, st: Store, ks: seq<Bytes>, j: nat, startKey: Bytes, limit: int)
    requires 0 < j < |ks| && Scanning(g, st, ks, j, Base(st, ks, j), startKey, limit) && |g.pairs| < limit
    ensures var g' := g.(currKey := ks[j - 1], lock := None, values := [], pairs := g.pairs + PendingPair(g));
            && Progress(g', st, ks, j - 1, startKey, limit) && Collected(g', st, ks, j - 1, Base(st, ks, j))
            && Base(st, ks, j) == Base(st, ks, j - 1) + Span(At(st, ks[j - 1])) > Base(st, ks, j - 1)
  {
    WholePart(g.lock, g.values, At(st, ks[j]));
    assert ks[j..][1..] == ks[j + 1..];
    KeyRecords(st, ks, j);
    KeyRecords(st, ks, j - 1);
    EmptyPart(At(st, ks[j - 1]));
  }

  /** One record backwards: its lock or version joins the helper's entry. */
  method CollectRecord(it: Iterator, h: ReverseScanHelper, ghost e: Entry, ghost base: nat)
    requires it.Valid() && it.HasCurrent() && base <= it.pos && EntryHere(it.rows, base, h.currKey, e)
    requires PartOf(h.lock, h.values, e, it.pos + 1 - base)
    modifies h`lock, h`values
    ensures PartOf(h.lock, h.values, e, it.pos - base)
  {
    ghost var q := it.pos - base;
    assert it.rows[it.pos].ver == MAX_U64 <==> q < Held(e);
    var key, ver := it.CurrentSlot();
    if ver == MAX_U64 {
      var lock := UnmarshalLock(it.vals[it.pos]);
      h.lock := lock;
    } else {
      var value := UnmarshalValue(it.vals[it.pos]);
      TakeVersion(h.lock, h.values, e, q);
      h.values := h.values + [value.value];
    }
  }

  // ---- the scan ----

  /** The keys in range are the tail of all keys below the end. */
  lemma RangeIsTail(st: Store, startKey: Bytes, endKey: Bytes, n: nat)
    requires n <= |LiveKeys(st, [], endKey)|
    requires forall i :: 0 <= i < |LiveKeys(st, [], endKey)| ==>
             (AtMost(startKey, LiveKeys(st, [], endKey)[i]) <==> i >= n)
    ensures LiveKeys(st, startKey, endKey) == LiveKeys(st, [], endKey)[n..]
  {
    var all, some := LiveKeys(st, [], endKey), LiveKeys(st, startKey, endKey);
    forall k ensures k in some <==> k in all[n..] {
      if k in some {
        assert k in all;
        var i :| 0 <= i < |all| && all[i] == k;
        assert all[n..][i - n] == k;
      }
      if k in all[n..] {
        var i :| 0 <= i < |all[n..]| && all[n..][i] == k;
        assert all[i + n] == k && k in all;
      }
    }
    AscendingUnique(some, all[n..]);
  }

  /** Below a key that is out of range all keys are. */
  lemma OutOfRangeBelow(ks: seq<Bytes>, n: nat, startKey: Bytes)
    requires Ascending(ks) && n <= |ks| && (n > 0 ==> !AtMost(startKey, ks[n - 1]))
    ensures forall i :: 0 <= i < n ==> !AtMost(startKey, ks[i])
  {
    forall i | 0 <= i < n ensures !AtMost(startKey, ks[i]) {
      if i < n - 1 && AtMost(startKey, ks[i]) {
        AtMostLess(startKey, ks[i], ks[n - 1]);
        assert false;
      }
    }
  }

  lemma AtMostLess(a: Bytes, b: Bytes, c: Bytes)
    requires AtMost(a, b) && Less(b, c)
    ensures AtMost(a, c)
  {
    if a != b { LessTransitive(a, b, c); }
  }

  /** How many keys lie below the range. */
  lemma RangeStart(ks: seq<Bytes>, startKey: Bytes) returns (n: nat)
    requires Ascending(ks)
    ensures n <= |ks| && forall i :: 0 <= i < |ks| ==> (AtMost(startKey, ks[i]) <==> i >= n)
  {
    n := |ks|;
    while n > 0 && AtMost(startKey, ks[n - 1])
      invariant n <= |ks| && forall i :: n <= i < |ks| ==> AtMost(startKey, ks[i])
    {
      n := n - 1;
    }
    OutOfRangeBelow(ks, n, startKey);
  }

  /** What was collected from the keys ks[m..] answers the scan over ks[n..]. */
  lemma ReverseAnswer(st: Store, ks: seq<Bytes>, n: nat, m: nat, ts: U64, si: bool, limit: int)
    requires n <= m <= |ks| && limit > 0
    requires |ReversePairs(st, ks[m..], ts, si)| <= limit
    requires n == m || |ReversePairs(st, ks[m..], ts, si)| == limit
    ensures ReversePairs(st, ks[m..], ts, si) == Take(ReversePairs(st, ks[n..], ts, si), limit)
  {
    assert ks[n..] == ks[n..m] + ks[m..];
    ReversePairsAppend(st, ks[n..m], ks[m..], ts, si);
  }

  lemma ReverseFinished(st: Store, ks: seq<Bytes>, startKey: Bytes, endKey: Bytes, ts: U64, si: bool, limit: int,
                        m: nat)
    requires ks == LiveKeys(st, [], endKey) && limit > 0 && m <= |ks|
    requires Answered(ReversePairs(st, ks[m..], ts, si), st, ks, m, startKey, ts, si, limit)
    ensures ReversePairs(st, ks[m..], ts, si) == Take(ReversePairs(st, LiveKeys(st, startKey, endKey), ts, si), limit)
  {
    var n := RangeStart(ks, startKey);
    RangeIsTail(st, startKey, endKey, n);
    assert n <= m by { if m < |ks| { assert m >= n; } }
    if n < m { assert AtMost(startKey, ks[m - 1]); }
    ReverseAnswer(st, ks, n, m, ts, si, limit);
  }

  lemma NothingLive(st: Store, startKey: Bytes, endKey: Bytes)
    requires Proper(st)
    ensures Rows(st, LiveKeys(st, [], endKey)) == [] ==> LiveKeys(st, startKey, endKey) == []
  {
    var all, some := LiveKeys(st, [], endKey), LiveKeys(st, startKey, endKey);
    assert forall i :: 0 <= i < |all| ==> all[i] in all;
    assert all[0..] == all;
    forall k | k in some ensures k in all {
    }
    if all != [] { FirstRowOfKey(st, all, 0); }
    assert some != [] ==> some[0] in some;
  }

  /** An entry gathered whole gives its key's pair. */
  lemma CompletePending(g: Gathered, st: Store, ks: seq<Bytes>, j: nat)
    requires j < |ks| && Collected(g, st, ks, j, Base(st, ks, j)) &&
             g.pairs == ReversePairs(st, ks[j + 1..], g.ts, g.si)
    ensures ReversePairs(st, ks[j..], g.ts, g.si) == g.pairs + PendingPair(g)
  {
    WholePart(g.lock, g.values, At(st, ks[j]));
    assert ks[j..][1..] == ks[j + 1..];
  }

  /** An entry of which nothing is gathered gives none. */
  lemma EmptyPending(g: Gathered, e: Entry)
    requires Span(e) > 0 && PartOf(g.lock, g.values, e, Span(e))
    ensures PendingPair(g) == []
  {
    EmptyPart(e);
    assert Reversed<Value>([]) == [];
  }

  /** Below the range's start the loop stops between two keys. */
  lemma StopsBetweenKeys(st: Store, ks: seq<Bytes>, j: nat, p: nat, startKey: Bytes)
    requires Live(st, ks) && j < |ks| && p <= |Rows(st, ks)| &&
             Base(st, ks, j) <= p <= Base(st, ks, j) + Span(At(st, ks[j]))
    requires p < Base(st, ks, j) + Span(At(st, ks[j])) ==> AtMost(startKey, ks[j])
    requires p > 0 ==> Less(Rows(st, ks)[p - 1].key, startKey)
    ensures p == Base(st, ks, j) ==> AtMost(startKey, ks[j]) && (j > 0 ==> !AtMost(startKey, ks[j - 1]))
    ensures p > Base(st, ks, j) ==> p == Base(st, ks, j) + Span(At(st, ks[j])) && !AtMost(startKey, ks[j])
    ensures Span(At(st, ks[j])) > 0
  {
    KeyRecords(st, ks, j);
    if p > 0 {
      WholeKeyBelow(st, ks, j, p);
      LessTrichotomy(Rows(st, ks)[p - 1].key, startKey);
    } else if j > 0 {
      KeyRecords(st, ks, j - 1);
    }
  }

  /** After the loop the pending entry is either complete or empty; m counts the keys not answered for. */
  lemma PendingEntry(g: Gathered, startKey: Bytes, limit: int, st: Store, ks: seq<Bytes>, j: nat, p: nat)
    returns (m: nat)
    requires Scanning(g, st, ks, j, p, startKey, limit)
    requires p > 0 ==> Less(Rows(st, ks)[p - 1].key, startKey)
    ensures m <= |ks| && (m > 0 ==> !AtMost(startKey, ks[m - 1]))
    ensures forall i :: m <= i < |ks| ==> AtMost(startKey, ks[i])
    ensures ReversePairs(st, ks[m..], g.ts, g.si) == g.pairs + PendingPair(g)
  {
    StopsBetweenKeys(st, ks, j, p, startKey);
    m := if p == Base(st, ks, j) then j else j + 1;
    assert ReversePairs(st, ks[m..], g.ts, g.si) == g.pairs + PendingPair(g) by {
      if m == j {
        CompletePending(g, st, ks, j);
      } else {
        EmptyPending(g, At(st, ks[j]));
        assert g.pairs + [] == g.pairs;
      }
    }
  }

  /** A record of another key first finishes the current one. */
  method EnterKey(h: ReverseScanHelper, key: Bytes, ghost st: Store, ghost ks: seq<Bytes>, ghost j: nat, ghost p: nat,
                  ghost startKey: Bytes, ghost limit: int)
    returns (ghost j': nat)
    requires p > 0 && Scanning(h.View(), st, ks, j, p, startKey, limit)
    requires key == Rows(st, ks)[p - 1].key && |h.pairs| < limit
    modifies h
    ensures j' < |ks| && Progress(h.View(), st, ks, j', startKey, limit) && Collected(h.View(), st, ks, j', p)
    ensures Base(st, ks, j') < p && key == ks[j']
  {
    ghost var g := h.View();
    WholeKeyBelow(st, ks, j, p);
    j' := j;
    if key != h.currKey {
      NextKey(g, st, ks, j, startKey, limit);
      h.FinishEntry();
      h.currKey := key;
      j' := j - 1;
      assert h.View() == g.(currKey := ks[j'], lock := None, values := [], pairs := g.pairs + PendingPair(g));
    }
  }

  /** One iteration of the loop. */
  method ReverseStep(it: Iterator, h: ReverseScanHelper, key: Bytes, ghost st: Store, ghost ks: seq<Bytes>,
                     ghost j: nat, ghost startKey: Bytes, ghost limit: int)
    returns (ghost j': nat)
    requires it.Valid() && it.HasCurrent() && it.rows == Rows(st, ks) &&
             Scanning(h.View(), st, ks, j, it.pos + 1, startKey, limit)
    requires key == it.rows[it.pos].key && !Less(key, startKey) && |h.pairs| < limit
    modifies h
    ensures Scanning(h.View(), st, ks, j', it.pos, startKey, limit)
  {
    LessTrichotomy(key, startKey);
    assert Live(st, ks);
    j' := EnterKey(h, key, st, ks, j, it.pos + 1, startKey, limit);
    assert Base(st, ks, j') <= it.pos && AtMost(startKey, ks[j']);
    CollectOfKey(it, h, st, ks, j', startKey, limit);
  }

  method CollectOfKey(it: Iterator, h: ReverseScanHelper, ghost st: Store, ghost ks: seq<Bytes>, ghost j: nat,
                      ghost startKey: Bytes, ghost limit: int)
    requires it.Valid() && it.HasCurrent() && it.rows == Rows(st, ks) && Live(st, ks) && j < |ks|
    requires Progress(h.View(), st, ks, j, startKey, limit) && Collected(h.View(), st, ks, j, it.pos + 1)
    requires Base(st, ks, j) <= it.pos && AtMost(startKey, ks[j])
    modifies h
    ensures Scanning(h.View(), st, ks, j, it.pos, startKey, limit)
  {
    ghost var g := h.View();
    KeyRecords(st, ks, j);
    CollectRecord(it, h, At(st, ks[j]), Base(st, ks, j));
    OneRecordOn(g, h.lock, h.values, st, ks, j, it.pos, startKey, limit);
    assert h.View() == g.(lock := h.lock, values := h.values);
  }

  lemma OneRecordOn(g: Gathered, lock: Option<Lock>, values: seq<Value>, st: Store, ks: seq<Bytes>, j: nat, p: nat,
                    startKey: Bytes, limit: int)
    requires Live(st, ks) && p <= |Rows(st, ks)| && Progress(g, st, ks, j, startKey, limit) && g.currKey == ks[j] &&
             AtMost(startKey, ks[j])
    requires Base(st, ks, j) <= p && PartOf(lock, values, At(st, ks[j]), p - Base(st, ks, j))
    ensures Scanning(g.(lock := lock, values := values), st, ks, j, p, startKey, limit)
  {
  }

  /** The pairs are those of ks[m..], and either all keys below m are out of range or the limit is reached. */
  ghost predicate Answered(pairs: seq<Pair>, st: Store, ks: seq<Bytes>, m: nat, startKey: Bytes, ts: U64, si: bool,
                           limit: int) {
    && m <= |ks| && pairs == ReversePairs(st, ks[m..], ts, si) && |pairs| <= limit
    && (forall i :: m <= i < |ks| ==> AtMost(startKey, ks[i]))
    && ((m > 0 ==> !AtMost(startKey, ks[m - 1])) || |pairs| == limit)
  }

  /** The loop of ReverseScan, down to the range's start, the first record or the limit. */
  method ReverseLoop(it: Iterator, h: ReverseScanHelper, startKey: Bytes, limit: int, ghost st: Store,
                     ghost ks: seq<Bytes>)
    returns (ghost j: nat, ghost p: nat)
    requires ks != [] && it.rows == Rows(st, ks) && it.Valid() && it.HasCurrent()
    requires Scanning(h.View(), st, ks, |ks| - 1, it.pos + 1, startKey, limit)
    modifies it, h
    ensures Scanning(h.View(), st, ks, j, p, startKey, limit)
    ensures |h.pairs| >= limit || p == 0 || Less(Rows(st, ks)[p - 1].key, startKey)
  {
    j, p := |ks| - 1, it.pos + 1;
    ghost var g := h.View();
    var succ := true;
    while succ && |h.pairs| < limit
      invariant it.Valid() && g == h.View() && Scanning(g, st, ks, j, p, startKey, limit)
      invariant if succ then it.HasCurrent() && p == it.pos + 1 else p == 0
      decreases p
    {
      var key, _ := it.CurrentSlot();
      if Less(key, startKey) { return; }
      j := ReverseStep(it, h, key, st, ks, j, startKey, limit);
      succ, g, p := StepBack(it, h);
    }
  }

  /** The iterator steps back; what was gathered stays. */
  method StepBack(it: Iterator, ghost h: ReverseScanHelper) returns (succ: bool, ghost g: Gathered, ghost p: nat)
    requires it.Valid() && it.HasCurrent()
    modifies it
    ensures it.Valid() && p == old(it.pos) && g == h.View()
    ensures if succ then it.HasCurrent() && p == it.pos + 1 else p == 0
  {
    g, p := h.View(), it.pos;
    succ := it.Prev();
  }

  /** What follows the loop: the pending entry counts only below the limit. */
  method FinishScan(h: ReverseScanHelper, startKey: Bytes, limit: int, ghost st: Store, ghost ks: seq<Bytes>,
                    ghost j: nat, ghost p: nat)
    returns (ghost m: nat)
    requires Scanning(h.View(), st, ks, j, p, startKey, limit)
    requires |h.pairs| >= limit || p == 0 || Less(Rows(st, ks)[p - 1].key, startKey)
    modifies h
    ensures Answered(h.pairs, st, ks, m, startKey, h.ts, h.si, limit)
  {
    m := j + 1;
    if |h.pairs| < limit {
      m := PendingEntry(h.View(), startKey, limit, st, ks, j, p);
      h.FinishEntry();
    }
  }

  lemma StartScanning(g: Gathered, st: Store, ks: seq<Bytes>, startKey: Bytes, limit: int)
    requires Live(st, ks) && Rows(st, ks) != [] && limit > 0
    requires g == Gathered(g.ts, g.si, Rows(st, ks)[|Rows(st, ks)| - 1].key, None, [], [])
    ensures ks != [] && Scanning(g, st, ks, |ks| - 1, |Rows(st, ks)|, startKey, limit)
  {
    var j := |ks| - 1;
    KeyRecords(st, ks, j);
    assert ks[..|ks|] == ks && ks[j + 1..] == [];
    EmptyPart(At(st, ks[j]));
  }

  /** An iterator over everything below the end key. */
  method OpenReverse(db: DB, endKey: Bytes, ghost st: Store) returns (it: Iterator)
    requires Represents(db, st) && Proper(st)
    ensures fresh(it) && it.Valid() && it.rows == Rows(st, LiveKeys(st, [], endKey)) &&
            Live(st, LiveKeys(st, [], endKey))
  {
    ghost var ks := LiveKeys(st, [], endKey);
    IterationOfRange(db, st, [], endKey);
    it := new Iterator(db, None, LockBound(endKey), st, Rows(st, ks));
    assert forall i :: 0 <= i < |ks| ==> ks[i] in ks;
  }

  /** Reading backwards over an opened iterator. */
  method ReverseOver(it: Iterator, startKey: Bytes, limit: int, ts: U64, si: bool, ghost st: Store,
                     ghost ks: seq<Bytes>)
    returns (pairs: seq<Pair>, ghost m: nat)
    requires Live(st, ks) && it.Valid() && it.rows == Rows(st, ks)
    modifies it
    ensures limit <= 0 ==> pairs == []
    ensures limit > 0 && it.rows == [] ==> pairs == []
    ensures limit > 0 && it.rows != [] ==> Answered(pairs, st, ks, m, startKey, ts, si, limit)
  {
    m := 0;
    var succ := it.Last();
    var currKey: Bytes := [];
    if succ {
      var key, _ := it.CurrentSlot();
      currKey := key;
    }
    var h := new ReverseScanHelper(ts, si, currKey);
    if succ && 0 < limit {
      StartScanning(h.View(), st, ks, startKey, limit);
      var j, p := ReverseLoop(it, h, startKey, limit, st, ks);
      m := FinishScan(h, startKey, limit, st, ks, j, p);
    } else if 0 < limit {
      assert Reversed<Value>([]) == [];
      h.FinishEntry();
    }
    pairs := h.pairs;
  }

  /** The last limit keys of the range, from the last to the first. */
  method ReverseScan(mvcc: MVCCLevelDB, startKey: Bytes, endKey: Bytes, limit: int, ts: U64, si: bool)
    returns (pairs: seq<Pair>)
    requires mvcc.Valid()
    ensures pairs == Take(ReversePairs(mvcc.st, LiveKeys(mvcc.st, startKey, endKey), ts, si), limit)
  {
    var it := OpenReverse(mvcc.db, endKey, mvcc.st);
    ghost var m;
    pairs, m := ReverseOver(it, startKey, limit, ts, si, mvcc.st, LiveKeys(mvcc.st, [], endKey));
    if it.rows == [] {
      NothingLive(mvcc.st, startKey, endKey);
    } else if limit > 0 {
      ReverseFinished(mvcc.st, LiveKeys(mvcc.st, [], endKey), startKey, endKey, ts, si, limit, m);
    }
  }

  // ---- agreement with Scan ----

  /**
   * When a key's visible record reads the same both ways: a delete carries no value and a put
   * carries one. A lock error reads the same anyway.
   */
  ghost predicate ReadsAlike(e: Entry, key: Bytes, ts: U64, si: bool) {
    match ReadTimestamp(e.lock, ts, key, si)
    case Err(_) => true
    case Ok(at) =>
      var v := FirstVisible(History(e), at);
      v.None? || (v.value.valueType == TYPE_DELETE <==> v.value.value == [])
  }

  lemma {:induction false} AgreementOfKeys(st: Store, ks: seq<Bytes>, ts: U64, si: bool)
    requires Ascending(ks)
    ensures ReversePairs(st, ks, ts, si) == Reversed(ReadPairs(st, ks, ts, si)) <==>
            forall i :: 0 <= i < |ks| ==> ReadsAlike(At(st, ks[i]), ks[i], ts, si)
  {
    if ks != [] {
      var k, rest := ks[0], ks[1..];
      AgreementOfKeys(st, rest, ts, si);
      var forth, back := PairsOf(k, Read(At(st, k), k, ts, si)), ReverseRead(st, k, ts, si);
      assert ReadsAlike(At(st, k), k, ts, si) <==> forth == back;
      assert Reversed(forth) == forth;
      ReversedConcat(forth, ReadPairs(st, rest, ts, si));
      OnlyOneKey(st, ks, ts, si);
      forall i | 0 <= i < |rest| ensures rest[i] == ks[i + 1] { }
    }
  }

  lemma ReversedConcat<T>(a: seq<T>, b: seq<T>)
    ensures Reversed(a + b) == Reversed(b) + Reversed(a)
  {
  }

  function PairKey(p: Pair): Bytes { p.key }

  lemma {:induction false} PairKeysIn(st: Store, ks: seq<Bytes>, ts: U64, si: bool)
    ensures forall i :: 0 <= i < |ReversePairs(st, ks, ts, si)| ==> PairKey(ReversePairs(st, ks, ts, si)[i]) in ks
    ensures forall i :: 0 <= i < |ReadPairs(st, ks, ts, si)| ==> PairKey(ReadPairs(st, ks, ts, si)[i]) in ks
  {
    if ks != [] { PairKeysIn(st, ks[1..], ts, si); }
  }

  /** The last pair of the reversed list tells the first key's pair from those of later keys. */
  lemma OnlyOneKey(st: Store, ks: seq<Bytes>, ts: U64, si: bool)
    requires Ascending(ks) && ks != []
    ensures var forth, back := PairsOf(ks[0], Read(At(st, ks[0]), ks[0], ts, si)), ReverseRead(st, ks[0], ts, si);
            var later, backLater := Reversed(ReadPairs(st, ks[1..], ts, si)), ReversePairs(st, ks[1..], ts, si);
            backLater + back == later + forth <==> backLater == later && back == forth
  {
    var forth, back := PairsOf(ks[0], Read(At(st, ks[0]), ks[0], ts, si)), ReverseRead(st, ks[0], ts, si);
    var later, backLater := Reversed(ReadPairs(st, ks[1..], ts, si)), ReversePairs(st, ks[1..], ts, si);
    PairKeysIn(st, ks[1..], ts, si);
    TailMembers(ks);
    if backLater + back == later + forth {
      SplitByKey(backLater, back, later, forth, ks[0]);
    }
  }

  lemma SplitByKey(a: seq<Pair>, x: seq<Pair>, b: seq<Pair>, y: seq<Pair>, k: Bytes)
    requires a + x == b + y && |x| <= 1 && |y| <= 1
    requires forall i :: 0 <= i < |a| ==> PairKey(a[i]) != k
    requires forall i :: 0 <= i < |b| ==> PairKey(b[i]) != k
    requires forall i :: 0 <= i < |x| ==> PairKey(x[i]) == k
    requires forall i :: 0 <= i < |y| ==> PairKey(y[i]) == k
    ensures a == b && x == y
  {
    var s := a + x;
    assert |x| > 0 <==> |s| > 0 && PairKey(s[|s| - 1]) == k;
    assert |y| > 0 <==> |s| > 0 && PairKey(s[|s| - 1]) == k;
    assert a == s[..|a|] && b == s[..|a|] && x == s[|a|..] && y == s[|a|..];
  }

  function LastOf<T>(s: seq<T>, limit: int): seq<T> {
    if limit <= 0 then [] else if |s| <= limit then s else s[|s| - limit..]
  }

  lemma TakeReversed<T>(s: seq<T>, limit: int)
    ensures Take(Reversed(s), limit) == Reversed(LastOf(s, limit))
  {
  }

  /**
   * For every limit ReverseScan's answer is the reversed tail of the unlimited Scan, exactly when
   * every key in the range reads alike both ways.
   */
  lemma ReverseScanMirrorsScan(st: Store, startKey: Bytes, endKey: Bytes, ts: U64, si: bool)
    ensures (forall limit: int :: Take(ReversePairs(st, LiveKeys(st, startKey, endKey), ts, si), limit) ==
                                  Reversed(LastOf(ReadPairs(st, LiveKeys(st, startKey, endKey), ts, si), limit))) <==>
            (forall k :: k in LiveKeys(st, startKey, endKey) ==> ReadsAlike(At(st, k), k, ts, si))
  {
    var ks := LiveKeys(st, startKey, endKey);
    var back, forth := ReversePairs(st, ks, ts, si), ReadPairs(st, ks, ts, si);
    AgreementOfKeys(st, ks, ts, si);
    if forall limit: int :: Take(back, limit) == Reversed(LastOf(forth, limit)) {
      var all := 1 + |back| + |forth|;
      assert Take(back, all) == Reversed(LastOf(forth, all));
      assert back == Reversed(forth);
    }
    if forall k :: k in ks ==> ReadsAlike(At(st, k), k, ts, si) {
      forall i | 0 <= i < |ks| ensures ReadsAlike(At(st, ks[i]), ks[i], ts, si) { assert ks[i] in ks; }
      forall limit: int ensures Take(back, limit) == Reversed(LastOf(forth, limit)) { TakeReversed(forth, limit); }
    }
  }

  /** Deletes carry no value and puts do. */
  ghost predicate PlainValues(e: Entry) {
    forall v :: v in e.writes && e.writes[v].valueType != TYPE_ROLLBACK ==>
      (e.writes[v].valueType == TYPE_DELETE <==> e.writes[v].value == [])
  }

  lemma {:induction false} VisibleIsARecord(w: map<U64, Value>, bound: nat, ts: U64)
    requires bound <= MAX_U64 && FirstVisible(Versions(w, bound), ts).Some?
    ensures var x := FirstVisible(Versions(w, bound), ts).value;
            x.valueType != TYPE_ROLLBACK && exists v :: v in w && w[v] == x
  {
    if bound > 0 && bound - 1 in w {
      assert Versions(w, bound)[1..] == Versions(w, bound - 1);
      if w[bound - 1].valueType == TYPE_ROLLBACK || w[bound - 1].commitTS > ts { VisibleIsARecord(w, bound - 1, ts); }
    } else if bound > 0 {
      VisibleIsARecord(w, bound - 1, ts);
    }
  }

  /**
   * So over plain values the last limit pairs of the unlimited scan come back in reverse, for every
   * limit and timestamp.
   */
  lemma ReverseScanOfPlainValues(st: Store, startKey: Bytes, endKey: Bytes, limit: int, ts: U64, si: bool)
    requires forall k :: k in LiveKeys(st, startKey, endKey) ==> PlainValues(At(st, k))
    ensures Take(ReversePairs(st, LiveKeys(st, startKey, endKey), ts, si), limit) ==
            Reversed(LastOf(ReadPairs(st, LiveKeys(st, startKey, endKey), ts, si), limit))
  {
    forall k | k in LiveKeys(st, startKey, endKey) ensures ReadsAlike(At(st, k), k, ts, si) {
      var e := At(st, k);
      var at := ReadTimestamp(e.lock, ts, k, si);
      if at.Ok? && FirstVisible(History(e), at.value).Some? { VisibleIsARecord(e.writes, MAX_U64, at.value); }
    }
    ReverseScanMirrorsScan(st, startKey, endKey, ts, si);
  }

  /** The condition can fail in a run: a committed put of the empty value is a pair of Scan and none of ReverseScan. */
  lemma EmptyPutReadsDifferently() returns (s: Protocol.State)
    ensures Protocol.Reachable(s) && !ReadsAlike(Protocol.E(s, [1]), [1], s.now, true)
  {
    var s0, s1, s2;
    s0, s1, s2, s := StatusVerdicts.LoneRun([1], Protocol.Intent(OP_PUT, []));
    var e := Protocol.E(s, [1]);
    ProtocolInvariant.ReachableInv(s);
    assert ProtocolInvariant.KeyGood(s, [1]);
    assert ProtocolInvariant.RecordOwned(s, [1], e.writes[2], 2);
    VisibleIsNewest(e.writes, 2);
    assert NewestVisible(e.writes, 2, e.writes[2]);
  }

  // ---- at read-committed level ----

  lemma {:induction false} ReversePairsMembers(st: Store, ks: seq<Bytes>, ts: U64, si: bool)
    ensures forall p :: p in ReversePairs(st, ks, ts, si) <==> p.key in ks && p in ReverseRead(st, p.key, ts, si)
    decreases |ks|
  {
    if ks != [] {
      ReversePairsMembers(st, ks[1..], ts, si);
      assert ks == [ks[0]] + ks[1..];
    }
  }

  /**
   * No lock is in the way: the pairs are the values, if not empty, of the keys' newest records up to ts,
   * deletes included.
   */
  lemma ReverseReadCommitted(st: Store, ks: seq<Bytes>, ts: U64)
    requires forall k :: k in ks ==> Slotted(At(st, k).writes)
    ensures forall p :: p in ReversePairs(st, ks, ts, false) <==>
            && p.KeyValue? && p.key in ks && p.value != []
            && exists x :: NewestVisible(At(st, p.key).writes, ts, x) && x.value == p.value
  {
    ReversePairsMembers(st, ks, ts, false);
    forall k | k in ks
      ensures forall p :: p in ReverseRead(st, k, ts, false) <==>
              && p.KeyValue? && p.key == k && p.value != []
              && exists x :: NewestVisible(At(st, k).writes, ts, x) && x.value == p.value
    {
      VisibleIsNewest(At(st, k).writes, ts);
    }
  }
}
