/** The timestamp oracle and the id allocator. */
module Oracle {
  /** A timestamp as the oracle hands it out. */
  datatype Timestamp = Timestamp(physical: int, logical: int)

  predicate Earlier(a: Timestamp, b: Timestamp) {
    a.physical < b.physical || (a.physical == b.physical && a.logical < b.logical)
  }

  /**
   * The oracle's next timestamp for a clock reading: the clock, or one more logical step while the clock
   * has not passed.
   */
  function Next(last: Timestamp, clock: int): Timestamp {
    if last.physical >= clock then last.(logical := last.logical + 1) else Timestamp(clock, 0)
  }

  /** The timestamps handed out for a run of clock readings. */
  function Issued(last: Timestamp, clocks: seq<int>): (r: seq<Timestamp>)
    ensures |r| == |clocks|
    decreases |clocks|
  {
    if clocks == [] then [] else [Next(last, clocks[0])] + Issued(Next(last, clocks[0]), clocks[1..])
  }

  class TimestampOracle {
    var physicalTS: int
    var logicalTS: int

    constructor ()
      ensures Last() == Timestamp(0, 0)
    {
      physicalTS, logicalTS := 0, 0;
    }

    function Last(): Timestamp
      reads this
    {
      Timestamp(physicalTS, logicalTS)
    }

    method GetTS(clock: int) returns (ts: Timestamp)
      modifies this
      ensures ts == Last() == Next(old(Last()), clock)
      ensures Earlier(old(Last()), ts) && clock <= ts.physical
    {
      if physicalTS >= clock {
        logicalTS := logicalTS + 1;
      } else {
        physicalTS, logicalTS := clock, 0;
      }
      ts := Timestamp(physicalTS, logicalTS);
    }
  }

  lemma EarlierTransitive(a: Timestamp, b: Timestamp, c: Timestamp)
    requires Earlier(a, b) && Earlier(b, c)
    ensures Earlier(a, c)
  {
  }

  /** Whatever the clock reads, also when it jumps back, timestamps strictly increase and never lag behind the clock. */
  lemma {:induction false} IssuedAscend(last: Timestamp, clocks: seq<int>, j: nat)
    requires j < |clocks|
    ensures Earlier(last, Issued(last, clocks)[j]) && clocks[j] <= Issued(last, clocks)[j].physical
    ensures forall i :: 0 <= i < j ==> Earlier(Issued(last, clocks)[i], Issued(last, clocks)[j])
    decreases |clocks|
  {
    var first := Next(last, clocks[0]);
    var rest := Issued(first, clocks[1..]);
    if j > 0 {
      IssuedAscend(first, clocks[1..], j - 1);
      EarlierTransitive(last, first, rest[j - 1]);
      forall i | 0 <= i < j ensures Earlier(Issued(last, clocks)[i], Issued(last, clocks)[j]) {
        if i > 0 { assert Issued(last, clocks)[i] == rest[i - 1]; }
      }
    }
  }

  /** The single number a client makes of a timestamp. */
  function Compose(ts: Timestamp): int { ts.physical * 0x4_0000 + ts.logical }

  /**
   * The numbers keep the order of every pair of timestamps exactly when the earlier one's logical part
   * is within 18 bits.
   */
  lemma ComposeOrder(a: Timestamp)
    requires a.logical >= 0
    ensures (forall b: Timestamp :: b.logical >= 0 && Earlier(a, b) ==> Compose(a) < Compose(b)) <==>
            a.logical < 0x4_0000
  {
    var next := Timestamp(a.physical + 1, 0);
    assert Earlier(a, next) && Compose(next) == a.physical * 0x4_0000 + 0x4_0000;
    forall b: Timestamp | a.logical < 0x4_0000 && b.logical >= 0 && Earlier(a, b) ensures Compose(a) < Compose(b) {
      if a.physical < b.physical { assert a.physical * 0x4_0000 + 0x4_0000 <= b.physical * 0x4_0000; }
    }
  }

  lemma {:induction false} IssuedNonNegative(last: Timestamp, clocks: seq<int>, i: nat)
    requires last.logical >= 0 && i < |clocks|
    ensures Issued(last, clocks)[i].logical >= 0
    decreases i
  {
    if i > 0 { IssuedNonNegative(Next(last, clocks[0]), clocks[1..], i - 1); }
  }

  /** So the numbers of a run strictly increase as long as no millisecond sees 2^18 requests. */
  lemma ComposedAscend(last: Timestamp, clocks: seq<int>, i: nat, j: nat)
    requires last.logical >= 0 && i < j < |clocks| && Issued(last, clocks)[i].logical < 0x4_0000
    ensures Compose(Issued(last, clocks)[i]) < Compose(Issued(last, clocks)[j])
  {
    IssuedAscend(last, clocks, j);
    IssuedNonNegative(last, clocks, i);
    IssuedNonNegative(last, clocks, j);
    ComposeOrder(Issued(last, clocks)[i]);
  }

  function Successive(first: nat, length: nat): (ids: seq<nat>)
    ensures |ids| == length && forall i :: 0 <= i < length ==> ids[i] == first + i
  {
    seq(length, i => first + i)
  }

  /** The allocator of ids, shared by all clusters of a server. */
  class IDAllocator {
    var lastID: nat

    constructor ()
      ensures lastID == 0
    {
      lastID := 0;
    }

    method AllocID() returns (id: nat)
      modifies this
      ensures id == lastID == old(lastID) + 1
    {
      lastID := lastID + 1;
      id := lastID;
    }

    /** allocIDs: that many successive ids. */
    method AllocIDs(length: nat) returns (ids: seq<nat>)
      modifies this
      ensures ids == Successive(old(lastID) + 1, length) && lastID == old(lastID) + length
    {
      ids := [];
      for n := 0 to length
        invariant |ids| == n && lastID == old(lastID) + n
        invariant forall i :: 0 <= i < n ==> ids[i] == old(lastID) + 1 + i
      {
        var id := AllocID();
        ids := ids + [id];
      }
    }
  }

  function Max(a: int, b: int): int { if a < b then b else a }

  function Latest(start: int, clocks: seq<int>): int
    decreases |clocks|
  {
    if clocks == [] then start else Latest(Max(start, clocks[0]), clocks[1..])
  }

  /** The latest reading is the start or one of the readings, and none is later. */
  lemma {:induction false} LatestExactly(start: int, clocks: seq<int>)
    ensures Latest(start, clocks) == start || Latest(start, clocks) in clocks
    ensures start <= Latest(start, clocks) && forall i :: 0 <= i < |clocks| ==> clocks[i] <= Latest(start, clocks)
    decreases |clocks|
  {
    if clocks != [] {
      LatestExactly(Max(start, clocks[0]), clocks[1..]);
      assert forall i :: 1 <= i < |clocks| ==> clocks[i] == clocks[1..][i - 1];
    }
  }

  /**
   * The physical part of each timestamp is the latest reading so far, and the logical part counts the
   * timestamps since that reading: it restarts exactly when the clock moves past all earlier readings.
   */
  lemma {:induction false} IssuedExactly(last: Timestamp, clocks: seq<int>, j: nat)
    requires j < |clocks|
    ensures Issued(last, clocks)[j].physical == Latest(last.physical, clocks[..j + 1])
    ensures var before := if j == 0 then last else Issued(last, clocks)[j - 1];
            Issued(last, clocks)[j].logical == if clocks[j] > before.physical then 0 else before.logical + 1
    decreases |clocks|
  {
    var next := Next(last, clocks[0]);
    assert clocks[..j + 1][0] == clocks[0] && clocks[..j + 1][1..] == clocks[1..][..j];
    if j > 0 { IssuedExactly(next, clocks[1..], j - 1); } else { assert clocks[1..][..0] == []; }
  }
}
