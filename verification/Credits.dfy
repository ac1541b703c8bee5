/** The two channels through which the device hands transmit credits back:
    in-band reports and an 8-bit counter that the host polls. */
module Credits {
  import opened Bytes

  /** The credit-keeping fields of one managed endpoint. */
  datatype Endpoint = Endpoint(
    intCredits: uint32,
    intCreditCounter: uint8,
    rptCreditCounter: uint8,
    credits: uint8,
    maxCredits: uint8,
    seqNo: uint8)

  /** The endpoint after a poll that read `counter` from the device. */
  function Polled(e: Endpoint, counter: uint8): Endpoint
  {
    var unreported := Wrap8(counter as int - e.rptCreditCounter as int);
    var e' := e.(intCreditCounter := counter);
    if unreported < e.intCredits then e'
    else e'.(intCredits := unreported, credits := Wrap8(e.credits as int + unreported as int - e.intCredits as int))
  }

  /** The endpoint after one in-band report entry of `n` credits. */
  function Reported(e: Endpoint, n: uint8): Endpoint
  {
    var covered := if e.intCredits <= n then e.intCredits as int else n as int;
    e.(rptCreditCounter := Wrap8(e.rptCreditCounter as int + n as int),
       intCredits := e.intCredits as int - covered,
       credits := Wrap8(e.credits as int + n as int - covered))
  }

  /** The endpoint after a frame that costs `k` credits is sent. */
  function Charged(e: Endpoint, k: uint8): Endpoint
  {
    e.(credits := Wrap8(e.credits as int - k as int), seqNo := Wrap8(e.seqNo as int + 1))
  }

  /** One pool together with what truly happened on its channels: `returned`
      and `reported` are the unbounded counts behind the device's counter
      register and the in-band reports, `spent` counts the frames charged. */
  datatype Channel = Channel(ep: Endpoint, returned: nat, reported: nat, spent: nat)

  function Fresh(maxCredits: uint8): Endpoint
  {
    Endpoint(0, 0, 0, maxCredits, maxCredits, 0)
  }

  function Start(maxCredits: uint8): Channel
  {
    Channel(Fresh(maxCredits), 0, 0, 0)
  }

  /** What the device's 8-bit register shows. */
  function CounterRegister(c: Channel): uint8
  {
    c.returned % 0x100
  }

  /** Credits given to the host pool so far, over both channels. */
  function Granted(c: Channel): nat
  {
    c.reported + c.ep.intCredits
  }

  function Gap(c: Channel): int
  {
    c.returned - c.reported
  }

  datatype Event = Return(count: nat) | Report(n: uint8) | Poll | Spend

  function Step(c: Channel, e: Event): Channel
  {
    match e
    case Return(count) => c.(returned := c.returned + count)
    case Report(n) => c.(ep := Reported(c.ep, n), reported := c.reported + n)
    case Poll => c.(ep := Polled(c.ep, CounterRegister(c)))
    case Spend => c.(ep := Charged(c.ep, 1), spent := c.spent + 1)
  }

  /** The device returns only credits that were spent and reports only credits
      it returned; the host charges only a pool that is not empty. */
  predicate Enabled(c: Channel, e: Event)
  {
    match e
    case Return(count) => c.returned + count <= c.spent
    case Report(n) => c.reported + n <= c.returned
    case Poll => true
    case Spend => c.ep.credits > 0
  }

  function Run(c: Channel, es: seq<Event>): Channel
    decreases |es|
  {
    if es == [] then c else Run(Step(c, es[0]), es[1..])
  }

  predicate AllEnabled(c: Channel, es: seq<Event>)
    decreases |es|
  {
    es == [] || (Enabled(c, es[0]) && AllEnabled(Step(c, es[0]), es[1..]))
  }

  /** The 8-bit fields are the unbounded counts reduced modulo 256, no credit
      is granted that was not returned, and the pool accounts for every credit. */
  ghost predicate Inv(c: Channel)
  {
    && c.reported <= c.returned <= c.spent
    && c.ep.rptCreditCounter as int == c.reported % 0x100
    && c.ep.seqNo as int == c.spent % 0x100
    && c.ep.intCredits < 0x100
    && Granted(c) <= c.returned
    && c.ep.credits + c.spent == c.ep.maxCredits + Granted(c)
  }

  function Max(a: int, b: int): int { if a < b then b else a }

  lemma ModularDifference(a: nat, b: nat)
    requires b <= a
    ensures Wrap8(a % 0x100 - b % 0x100) == (a - b) % 0x100
  {
  }

  lemma ModularSum(a: nat, b: nat)
    ensures Wrap8(a % 0x100 + b) == (a + b) % 0x100
  {
  }

  /** Every enabled event keeps the invariant, and moves the grant exactly as
      the unbounded counters say: a report lifts it to the reported count, a
      poll to the reported count plus the visible part of the gap. */
  lemma {:induction false} StepKeepsInv(c: Channel, e: Event)
    requires Inv(c) && Enabled(c, e)
    ensures Inv(Step(c, e))
    ensures Step(c, e).ep.maxCredits == c.ep.maxCredits
    ensures Granted(Step(c, e)) ==
            match e
            case Report(n) => Max(Granted(c), c.reported + n)
            case Poll => Max(Granted(c), c.reported + Gap(c) % 0x100)
            case _ => Granted(c)
  {
    match e
    case Return(_) =>
    case Spend => ModularSum(c.spent, 1);
    case Report(n) => ReportKeepsInv(c, n);
    case Poll => PollKeepsInv(c);
  }

  lemma {:induction false} ReportKeepsInv(c: Channel, n: uint8)
    requires Inv(c) && Enabled(c, Report(n))
    ensures Inv(Step(c, Report(n)))
    ensures Granted(Step(c, Report(n))) == Max(Granted(c), c.reported + n)
  {
    ModularSum(c.reported, n);
  }

  lemma {:induction false} PollKeepsInv(c: Channel)
    requires Inv(c)
    ensures Inv(Step(c, Poll))
    ensures Granted(Step(c, Poll)) == Max(Granted(c), c.reported + Gap(c) % 0x100)
  {
    ModularDifference(c.returned, c.reported);
  }

  lemma {:induction false} RunKeepsInv(c: Channel, es: seq<Event>)
    requires Inv(c) && AllEnabled(c, es)
    ensures Inv(Run(c, es))
    ensures Run(c, es).ep.maxCredits == c.ep.maxCredits
    decreases |es|
  {
    if es != [] {
      StepKeepsInv(c, es[0]);
      RunKeepsInv(Step(c, es[0]), es[1..]);
    }
  }

  /** Safety over every interleaving of returns, reports, polls and sends. */
  lemma {:induction false} NeverOvergrants(maxCredits: uint8, es: seq<Event>)
    requires AllEnabled(Start(maxCredits), es)
    ensures var c := Run(Start(maxCredits), es);
            && Inv(c)
            && c.ep.credits <= maxCredits
            && c.ep.credits + (c.spent - Granted(c)) == maxCredits
            && c.reported <= Granted(c) <= c.returned
  {
    RunKeepsInv(Start(maxCredits), es);
  }

  /** A poll makes the grant exact precisely when the gap has not wrapped, and
      the early return of the poll fires precisely when it has. */
  lemma {:induction false} PollIsExactIffGapFits(c: Channel)
    requires Inv(c)
    ensures Granted(Step(c, Poll)) == c.returned <==> Gap(c) < 0x100
    ensures Wrap8(CounterRegister(c) as int - c.ep.rptCreditCounter as int) < c.ep.intCredits <==> Gap(c) >= 0x100
    ensures Gap(c) >= 0x100 ==> Step(c, Poll).ep == c.ep.(intCreditCounter := CounterRegister(c))
  {
    PollKeepsInv(c);
    ModularDifference(c.returned, c.reported);
    assert Gap(c) <= c.ep.maxCredits + c.ep.intCredits;
    if Gap(c) >= 0x100 {
      assert Gap(c) % 0x100 == Gap(c) - 0x100;
    }
  }

  /** Once the gap has wrapped, polling alone never grants another credit: until
      an in-band report arrives the host can send only what its pool still holds. */
  lemma {:induction false} WrappedGapStallsPolling(c: Channel, es: seq<Event>)
    requires Inv(c) && Gap(c) >= 0x100
    requires AllEnabled(c, es)
    requires forall e :: e in es ==> !e.Report?
    ensures Granted(Run(c, es)) == Granted(c)
    ensures Run(c, es).spent + Run(c, es).ep.credits == c.spent + c.ep.credits
    ensures Gap(Run(c, es)) >= 0x100
    decreases |es|
  {
    if es != [] {
      var e := es[0];
      assert e in es;
      StepKeepsInv(c, e);
      if e == Poll {
        PollIsExactIffGapFits(c);
      }
      WrappedGapStallsPolling(Step(c, e), es[1..]);
    }
  }

  /** An empty pool of one credit whose last 256 credits all came back
      out-of-band, the first 255 of them polled. */
  function Stalled(): Channel
  {
    Channel(Endpoint(255, 255, 0, 0, 1, 0), 256, 0, 256)
  }

  /** The stall is reachable: every credit is back at the device, the pool is
      empty, and a poll still grants none. */
  lemma {:induction false} StallIsReachable()
    ensures exists es :: AllEnabled(Start(1), es) && Run(Start(1), es) == Stalled()
    ensures Inv(Stalled()) && Step(Stalled(), Poll).ep.credits == 0
  {
    var rounds := RoundsReach(255);
    ThenStalled(rounds, AfterRounds(255));
    StallHolds(Stalled());
  }

  lemma {:induction false} ThenStalled(es: seq<Event>, c: Channel)
    requires AllEnabled(Start(1), es) && Run(Start(1), es) == c
    requires c == Channel(Endpoint(255, 255, 0, 1, 1, 255), 255, 0, 255)
    ensures exists fs :: AllEnabled(Start(1), fs) && Run(Start(1), fs) == Stalled()
  {
    var last := [Spend, Return(1)];
    LastCreditStalls(c);
    RunSplits(Start(1), es, last);
    assert AllEnabled(Start(1), es + last);
  }

  lemma LastCreditStalls(c: Channel)
    requires c == Channel(Endpoint(255, 255, 0, 1, 1, 255), 255, 0, 255)
    ensures AllEnabled(c, [Spend, Return(1)]) && Run(c, [Spend, Return(1)]) == Stalled()
  {
    var c1 := Channel(Endpoint(255, 255, 0, 0, 1, 0), 255, 0, 256);
    assert Step(c, Spend) == c1;
    RunOne(c, Spend);
    RunOne(c1, Return(1));
    RunSplits(c, [Spend], [Return(1)]);
    assert [Spend] + [Return(1)] == [Spend, Return(1)];
  }

  lemma StallHolds(c: Channel)
    requires c == Channel(Endpoint(255, 255, 0, 0, 1, 0), 256, 0, 256)
    ensures Inv(c) && Step(c, Poll).ep.credits == 0
  {
    PollIsExactIffGapFits(c);
  }

  /** `n` rounds of sending one frame, getting its credit back and polling for it. */
  lemma {:induction false} RoundsReach(n: uint8) returns (es: seq<Event>)
    ensures AllEnabled(Start(1), es)
    ensures Run(Start(1), es) == AfterRounds(n)
  {
    if n == 0 {
      es := [];
    } else {
      var before := RoundsReach(n - 1);
      RunSplits(Start(1), before, [Spend, Return(1), Poll]);
      OneRound(n - 1);
      es := before + [Spend, Return(1), Poll];
    }
  }

  function AfterRounds(n: uint8): Channel
  {
    Channel(Endpoint(n, n, 0, 1, 1, n), n, 0, n)
  }

  lemma {:induction false} OneRound(n: uint8)
    requires n < 0xFF
    ensures AllEnabled(AfterRounds(n), [Spend, Return(1), Poll])
    ensures Run(AfterRounds(n), [Spend, Return(1), Poll]) == AfterRounds(n + 1)
  {
    var c1 := Channel(Endpoint(n, n, 0, 0, 1, n + 1), n, 0, n + 1);
    var c2 := c1.(returned := n + 1);
    assert Step(AfterRounds(n), Spend) == c1;
    assert Step(c2, Poll) == AfterRounds(n + 1);
    RunOne(c2, Poll);
    RunSplits(c1, [Return(1)], [Poll]);
    RunOne(c1, Return(1));
    RunSplits(AfterRounds(n), [Spend], [Return(1), Poll]);
    RunOne(AfterRounds(n), Spend);
    assert [Return(1)] + [Poll] == [Return(1), Poll];
    assert [Spend] + [Return(1), Poll] == [Spend, Return(1), Poll];
  }

  lemma RunOne(c: Channel, e: Event)
    ensures Run(c, [e]) == Step(c, e) && AllEnabled(c, [e]) == Enabled(c, e)
  {
    assert Run(Step(c, e), []) == Step(c, e);
  }

  lemma {:induction false} RunSplits(c: Channel, xs: seq<Event>, ys: seq<Event>)
    ensures Run(c, xs + ys) == Run(Run(c, xs), ys)
    ensures AllEnabled(c, xs + ys) <==> AllEnabled(c, xs) && AllEnabled(Run(c, xs), ys)
    decreases |xs|
  {
    if xs == [] {
      assert xs + ys == ys;
    } else {
      assert (xs + ys)[1..] == xs[1..] + ys;
      RunSplits(Step(c, xs[0]), xs[1..], ys);
    }
  }

  /** Reports that arrive split or merged leave the endpoint in the same state. */
  lemma {:induction false} ReportsMerge(e: Endpoint, a: uint8, b: uint8)
    requires a + b < 0x100
    ensures Reported(Reported(e, a), b) == Reported(e, a + b)
  {
    var e1 := Reported(e, a);
    WrapSum(e.rptCreditCounter + a, b);
    WrapSum(e.credits + a - (e.intCredits - e1.intCredits), b - (e1.intCredits - Reported(e1, b).intCredits));
  }

  /** Two histories that spent, returned and reported the same counts agree on
      the endpoint once nothing is unreported, or once each has polled a gap
      that fits; a poll settles even the last counter read. */
  lemma {:induction false} SchedulesAgree(maxCredits: uint8, xs: seq<Event>, ys: seq<Event>)
    requires AllEnabled(Start(maxCredits), xs) && AllEnabled(Start(maxCredits), ys)
    requires var a, b := Run(Start(maxCredits), xs), Run(Start(maxCredits), ys);
             && a.spent == b.spent && a.returned == b.returned && a.reported == b.reported
             && Gap(a) < 0x100
    ensures var a, b := Run(Start(maxCredits), xs), Run(Start(maxCredits), ys);
            && (Gap(a) == 0 ==> a.ep.(intCreditCounter := 0) == b.ep.(intCreditCounter := 0))
            && Step(a, Poll) == Step(b, Poll)
  {
    RunKeepsInv(Start(maxCredits), xs);
    RunKeepsInv(Start(maxCredits), ys);
    var a, b := Run(Start(maxCredits), xs), Run(Start(maxCredits), ys);
    PollIsExactIffGapFits(a);
    PollIsExactIffGapFits(b);
    StepKeepsInv(a, Poll);
    StepKeepsInv(b, Poll);
  }

  /** The same history as seen by a host that never polls. */
  function WithoutPolls(es: seq<Event>): seq<Event>
  {
    if es == [] then []
    else (if es[0] == Poll then [] else [es[0]]) + WithoutPolls(es[1..])
  }

  /** A host that never polls, beside one that does: they differ by exactly the
      credits taken early, modulo the width of the field. */
  ghost predicate SameButEarly(c: Channel, d: Channel)
  {
    && c.returned == d.returned && c.reported == d.reported && c.spent == d.spent
    && d.ep.intCredits == 0
    && d.ep.maxCredits == c.ep.maxCredits
    && d.ep.rptCreditCounter == c.ep.rptCreditCounter
    && d.ep.seqNo == c.ep.seqNo
    && d.ep.credits == Wrap8(c.ep.credits as int - c.ep.intCredits as int)
  }

  lemma {:induction false} PollBorrows(c: Channel, d: Channel)
    requires Inv(c) && SameButEarly(c, d)
    ensures SameButEarly(Step(c, Poll), d)
  {
    StepKeepsInv(c, Poll);
    var c' := Step(c, Poll);
    assert c'.ep.credits - c'.ep.intCredits == c.ep.credits - c.ep.intCredits;
  }

  lemma {:induction false} ReportRepays(c: Channel, d: Channel, n: uint8)
    requires Inv(c) && SameButEarly(c, d) && Enabled(c, Report(n))
    ensures SameButEarly(Step(c, Report(n)), Step(d, Report(n)))
  {
    StepKeepsInv(c, Report(n));
    var c' := Step(c, Report(n));
    var owed := c.ep.credits - c.ep.intCredits;
    assert c'.ep.credits - c'.ep.intCredits == owed + n;
    WrapSum(owed, n);
  }

  lemma SpendTracks(c: Channel, d: Channel)
    requires Inv(c) && SameButEarly(c, d) && Enabled(c, Spend)
    ensures SameButEarly(Step(c, Spend), Step(d, Spend))
  {
    StepKeepsInv(c, Spend);
    WrapSum(c.ep.credits - c.ep.intCredits, -1);
  }

  lemma WrapSum(a: int, b: int)
    ensures Wrap8(Wrap8(a) as int + b) == Wrap8(a + b)
  {
  }

  lemma {:induction false} PollsOnlyBorrow(c: Channel, d: Channel, es: seq<Event>)
    requires Inv(c) && AllEnabled(c, es) && SameButEarly(c, d)
    ensures SameButEarly(Run(c, es), Run(d, WithoutPolls(es)))
    decreases |es|
  {
    if es != [] {
      var e, c' := es[0], Step(c, es[0]);
      StepKeepsInv(c, e);
      if e == Poll {
        PollBorrows(c, d);
        PollsOnlyBorrow(c', d, es[1..]);
        assert WithoutPolls(es) == WithoutPolls(es[1..]);
      } else {
        match e {
          case Return(_) =>
          case Report(n) => ReportRepays(c, d, n);
          case Spend => SpendTracks(c, d);
        }
        PollsOnlyBorrow(c', Step(d, e), es[1..]);
        assert WithoutPolls(es)[0] == e && WithoutPolls(es)[1..] == WithoutPolls(es[1..]);
      }
    }
  }

  /** Polling never changes the outcome: when every returned credit has been
      reported, the pool is the pool of a host that never polled. */
  lemma {:induction false} PollingLeavesNoTrace(maxCredits: uint8, es: seq<Event>)
    requires AllEnabled(Start(maxCredits), es)
    requires Gap(Run(Start(maxCredits), es)) == 0
    ensures var c, d := Run(Start(maxCredits), es), Run(Start(maxCredits), WithoutPolls(es));
            && c.ep.intCredits == 0
            && c.ep.(intCreditCounter := 0) == d.ep.(intCreditCounter := 0)
  {
    NeverOvergrants(maxCredits, es);
    PollsOnlyBorrow(Start(maxCredits), Start(maxCredits), es);
    var c, d := Run(Start(maxCredits), es), Run(Start(maxCredits), WithoutPolls(es));
    assert c.ep.intCredits == 0;
    assert d.ep.credits == Wrap8(c.ep.credits as int) == c.ep.credits;
  }

  /** Sending a frame that costs more credits than the pool holds wraps the
      8-bit field; it subtracts truly just when the pool can pay. */
  lemma ChargeIsExactIffAffordable(e: Endpoint, k: uint8)
    ensures Charged(e, k).credits as int == e.credits as int - k as int <==> k <= e.credits
  {
  }

  /** Htc_DistributeCredits: one credit each for the control endpoints, the rest
      for the shared data pool, in 8 bits. */
  function Distributed(creditCount: uint16): (eps: seq<Endpoint>)
    ensures |eps| == 3
  {
    [Fresh(1), Fresh(1), Fresh(Wrap8(creditCount - 2))]
  }

  /** The pools hold all the advertised credits exactly for counts the 8-bit
      field and the two reserved credits leave room for. */
  lemma PoolsHoldCreditCount(creditCount: uint16)
    ensures var eps := Distributed(creditCount);
            eps[0].maxCredits + eps[1].maxCredits + eps[2].maxCredits == creditCount <==> 2 <= creditCount <= 257
  {
  }
}
