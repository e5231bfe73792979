/** The oracle's timestamps drive runs: what Protocol asks of timestamps is what getTS delivers. */
module OracleRuns {
  import opened ByteStrings
  import opened Entries
  import opened MvccStore
  import opened Oracle
  import opened Protocol
  import opened ProtocolInvariant
  import opened ProtocolTheorems
  import opened StatusVerdicts

  /** Timestamps whose numbers are proper: no negative part, at most 18 logical bits, below MaxUint64. */
  predicate Proper(ts: Timestamp) {
    0 <= ts.physical && 0 <= ts.logical < 0x4_0000 && Compose(ts) < MAX_U64
  }

  function Number(ts: Timestamp): U64
    requires Proper(ts)
  {
    Compose(ts)
  }

  function IssueActions(tss: seq<Timestamp>): seq<Action>
    requires forall i :: 0 <= i < |tss| ==> Proper(tss[i])
  {
    seq(|tss|, i requires 0 <= i < |tss| => IssueTimestamp(Number(tss[i])))
  }

  /** The next timestamp is what every action that takes a timestamp asks for: larger than the last one issued. */
  lemma NextIsLarger(last: Timestamp, clock: int)
    requires Proper(last) && Proper(Next(last, clock))
    ensures Number(last) < Number(Next(last, clock)) < MAX_U64
  {
    ComposeOrder(last);
    assert Earlier(last, Next(last, clock));
  }

  /**
   * Whatever the clock reads, the timestamps that the oracle hands out one after the other are
   * enabled in a run, as long as their numbers are proper.
   */
  lemma {:induction false} IssuedAreEnabled(s: State, last: Timestamp, clocks: seq<int>, i: nat)
    requires Proper(last) && s.now == Number(last) && i < |clocks|
    requires forall j :: 0 <= j < |clocks| ==> Proper(Issued(last, clocks)[j])
    ensures var acts := IssueActions(Issued(last, clocks));
            Enabled(Run(s, acts[..i]), acts[i]) && Run(s, acts[..i + 1]).now == Number(Issued(last, clocks)[i])
    decreases |clocks|
  {
    var next := Next(last, clocks[0]);
    var tss, rest := Issued(last, clocks), Issued(next, clocks[1..]);
    var acts := IssueActions(tss);
    assert tss[0] == next && tss[1..] == rest;
    assert forall j :: 0 <= j < |rest| ==> rest[j] == tss[j + 1];
    NextIsLarger(last, clocks[0]);
    var s1 := Step(s, acts[0]);
    assert s1.now == Number(next);
    RunPrefix(s, acts, i + 1);
    if i == 0 {
      assert acts[..0] == [] && acts[1..][..0] == [];
    } else {
      assert acts[1..] == IssueActions(rest);
      RunPrefix(s, acts, i);
      IssuedAreEnabled(s1, next, clocks[1..], i - 1);
    }
  }

  lemma RunPrefix(s: State, acts: seq<Action>, n: nat)
    requires 0 < n <= |acts|
    ensures Run(s, acts[..n]) == Run(Step(s, acts[0]), acts[1..][..n - 1])
  {
    assert acts[..n][1..] == acts[1..][..n - 1];
  }

  /** From the start of a run and of the oracle. */
  lemma OracleDrivesRuns(clocks: seq<int>, i: nat)
    requires i < |clocks| && forall j :: 0 <= j < |clocks| ==> Proper(Issued(Timestamp(0, 0), clocks)[j])
    ensures var acts := IssueActions(Issued(Timestamp(0, 0), clocks));
            Enabled(Run(INIT, acts[..i]), acts[i]) &&
                Run(INIT, acts[..i + 1]).now == Number(Issued(Timestamp(0, 0), clocks)[i])
  {
    IssuedAreEnabled(INIT, Timestamp(0, 0), clocks, i);
  }

  // ---- time to live on the oracle's clock ----

  /** The physical part of a number is that of the timestamp it was made of. */
  lemma PhysicalOfNumber(ts: Timestamp)
    requires Proper(ts)
    ensures ExtractPhysical(Number(ts)) == ts.physical
  {
    assert ts.physical * 0x4_0000 <= Number(ts) < (ts.physical + 1) * 0x4_0000;
  }

  /**
   * A primary lock begun at timestamp a and checked at timestamp b is rolled back exactly when its time
   * to live, in milliseconds, is over; else its time to live is reported and nothing changes. The sum is
   * assumed not to overflow.
   */
  lemma ExpiresOnTheClock(s: State, a: Timestamp, b: Timestamp, callerStartTS: U64)
    requires Reachable(s) && Proper(a) && Proper(b) && Number(a) in s.clients && Holds(Primary(s, Number(a)), Number(a))
    requires a.physical + s.clients[Number(a)].txn.ttl < TWO64
    ensures var t, ttl := Number(a), s.clients[Number(a)].txn.ttl;
            var s' := Step(s, SendCheckStatus(t, callerStartTS, Number(b)));
            && (PrimaryRolledBack(s', t) <==> a.physical + ttl < b.physical)
            && (a.physical + ttl < b.physical ==> StatusOf(s, t, callerStartTS, Number(b)) == Status(0, 0))
            && (a.physical + ttl >= b.physical ==>
                  StatusOf(s, t, callerStartTS, Number(b)) == Status(ttl, 0) && Same(s'.st, s.st))
  {
    var t := Number(a);
    var l := Primary(s, t).lock.value;
    PhysicalOfNumber(a);
    PhysicalOfNumber(b);
    LockFields(s, s.clients[t].txn.primary);
    ExpiredExactly(l, Number(b));
    if Expired(l, Number(b)) {
      ExpiryRollsBack(s, t, callerStartTS, Number(b));
    } else {
      PushIsLost(s, t, callerStartTS, Number(b));
      HeldIsNotRolledBack(s, t, callerStartTS, Number(b));
    }
  }

  lemma HeldIsNotRolledBack(s: State, t: U64, callerStartTS: U64, currentTS: U64)
    requires Reachable(s) && t in s.clients && Holds(Primary(s, t), t)
    requires Same(CheckTxnStatus(s.st, s.clients[t].txn.primary, t, callerStartTS, currentTS).1, s.st)
    ensures !PrimaryRolledBack(Step(s, SendCheckStatus(t, callerStartTS, currentTS)), t)
  {
    ReachableInv(s);
    var p := s.clients[t].txn.primary;
    assert KeyGood(s, p) && At(CheckTxnStatus(s.st, p, t, callerStartTS, currentTS).1, p) == E(s, p);
  }
}
