/** Reverse credits: the host counts the receive buffers it gives back, and
    reports the counts to the device in a trailer of its own. */
module ReverseCredits {
  import opened Bytes
  import opened Credits
  import opened Trailer
  import opened Pools

  const QUEUES: nat := 8
  /** The queue that is shared by all endpoints without one of their own. */
  const SHARED_QUEUE: nat := 7
  const BUFFER_SIZE: nat := 14
  const REPORT_SIZE: nat := 2
  const RECORD_HDR: nat := 2

  /** Which endpoints each queue serves. */
  type Masks = m: seq<set<uint8>> | |m| == QUEUES witness [{}, {}, {}, {}, {}, {}, {}, {}]
  type Counts = c: seq<uint8> | |c| == QUEUES witness [0, 0, 0, 0, 0, 0, 0, 0]

  /** The first queue that serves an endpoint; 8 when none does. */
  function QueueOf(masks: Masks, epid: uint8, from: nat): (i: nat)
    requires from <= QUEUES
    ensures from <= i <= QUEUES && (i < QUEUES ==> epid in masks[i])
    ensures forall j :: from <= j < i ==> epid !in masks[j]
    decreases QUEUES - from
  {
    if from == QUEUES || epid in masks[from] then from else QueueOf(masks, epid, from + 1)
  }

  predicate Counted(masks: Masks, epid: uint8)
  {
    epid != 0 && QueueOf(masks, epid, 0) < SHARED_QUEUE
  }

  function Enqueued(masks: Masks, counts: Counts, epid: uint8): Counts
  {
    if Counted(masks, epid) then
      var i := QueueOf(masks, epid, 0);
      counts[i := Wrap8(counts[i] as int + 1)]
    else counts
  }

  /** GetQueueCtrlIndexByEPID. */
  method GetQueueCtrlIndex(masks: Masks, epid: uint8) returns (i: nat)
    ensures i == QueueOf(masks, epid, 0)
  {
    i := 0;
    while i < QUEUES
      invariant 0 <= i <= QUEUES
      invariant QueueOf(masks, epid, 0) == QueueOf(masks, epid, i)
    {
      if epid in masks[i] {
        break;
      }
      i := i + 1;
    }
  }

  /** The counting part of a_rxbuf_enqueue. */
  method RxbufEnqueue(masks: Masks, counts: array<uint8>, epid: uint8)
    requires counts.Length == QUEUES
    modifies counts
    ensures counts[..] == Enqueued(masks, old(counts[..]), epid)
  {
    if epid == 0 {
      return;
    }
    var i := GetQueueCtrlIndex(masks, epid);
    if i < QUEUES && i != SHARED_QUEUE {
      counts[i] := Wrap8(counts[i] as int + 1);
    }
  }

  /** What is reported, and the counts that are left. */
  datatype Collection = Collection(entries: seq<CreditEntry>, left: Counts)

  /** A collection with `room` bytes left, from queue `i` on. */
  function Collect(counts: Counts, i: nat, room: nat): (c: Collection)
    ensures |c.entries| <= QUEUES
    ensures i <= QUEUES ==> |c.entries| <= QUEUES - i
    decreases QUEUES - i
  {
    if i >= QUEUES || room < REPORT_SIZE then Collection([], counts)
    else if counts[i] == 0 then Collect(counts, i + 1, room)
    else
      var c := Collect(counts[i := 0], i + 1, room - REPORT_SIZE);
      c.(entries := [CreditEntry(i, counts[i])] + c.entries)
  }

  /** Credits that a list of entries gives to one endpoint. */
  function CreditsFor(i: nat, es: seq<CreditEntry>): nat
  {
    if es == [] then 0
    else (if es[0].endpoint as int == i then es[0].credits as int else 0) + CreditsFor(i, es[1..])
  }

  function EntryBytes(es: seq<CreditEntry>): (b: seq<uint8>)
    ensures |b| == 2 * |es|
  {
    if es == [] then [] else [es[0].endpoint, es[0].credits] + EntryBytes(es[1..])
  }

  lemma {:induction false} EntryBytesSnoc(es: seq<CreditEntry>, e: CreditEntry)
    ensures EntryBytes(es + [e]) == EntryBytes(es) + [e.endpoint, e.credits]
  {
    if es == [] {
      assert es + [e] == [e];
    } else {
      assert (es + [e])[1..] == es[1..] + [e];
      EntryBytesSnoc(es[1..], e);
    }
  }

  lemma {:induction false} EntriesOfBytes(es: seq<CreditEntry>)
    ensures Entries(EntryBytes(es)) == es
  {
    if es != [] {
      EntriesOfBytes(es[1..]);
      var b, rest := EntryBytes(es), EntryBytes(es[1..]);
      assert Entries(b)[0] == es[0];
      forall i | 1 <= i < |es|
        ensures Entries(b)[i] == es[i]
      {
        assert b[2 * i] == rest[2 * (i - 1)] && b[2 * i + 1] == rest[2 * (i - 1) + 1];
        assert Entries(rest)[i - 1] == es[i];
      }
    }
  }

  lemma CollectStep(counts: Counts, i: nat, room: nat)
    requires i < QUEUES && room >= REPORT_SIZE
    ensures counts[i] == 0 ==> Collect(counts, i, room) == Collect(counts, i + 1, room)
    ensures counts[i] != 0 ==>
              var c := Collect(counts[i := 0], i + 1, room - REPORT_SIZE);
              Collect(counts, i, room) == Collection([CreditEntry(i, counts[i])] + c.entries, c.left)
  {
  }

  lemma CreditsForCons(q: nat, e: CreditEntry, es: seq<CreditEntry>)
    ensures CreditsFor(q, [e] + es) == (if e.endpoint as int == q then e.credits as int else 0) + CreditsFor(q, es)
  {
    assert ([e] + es)[1..] == es;
  }

  /** What a collection reports for a queue is what it takes from it: all or nothing. */
  lemma {:induction false} CollectionConserves(counts: Counts, i: nat, room: nat, q: nat)
    requires q < QUEUES
    ensures var c := Collect(counts, i, room);
            && CreditsFor(q, c.entries) + c.left[q] == counts[q]
            && (CreditsFor(q, c.entries) == 0 || c.left[q] == 0)
            && (q < i ==> CreditsFor(q, c.entries) == 0)
    decreases QUEUES - i
  {
    hide Collect, CreditsFor;
    if i >= QUEUES || room < REPORT_SIZE {
      NothingCollected(counts, i, room, q);
    } else {
      CollectStep(counts, i, room);
      if counts[i] == 0 {
        CollectionConserves(counts, i + 1, room, q);
      } else {
        CollectionConserves(counts[i := 0], i + 1, room - REPORT_SIZE, q);
        CreditsForCons(q, CreditEntry(i, counts[i]), Collect(counts[i := 0], i + 1, room - REPORT_SIZE).entries);
      }
    }
  }

  lemma NothingCollected(counts: Counts, i: nat, room: nat, q: nat)
    requires i >= QUEUES || room < REPORT_SIZE
    ensures Collect(counts, i, room) == Collection([], counts) && CreditsFor(q, []) == 0
  {
  }

  /** The number of queues with something to report in front of queue `q`, from
      queue `i` on. */
  function WaitingBefore(counts: Counts, i: nat, q: nat): nat
    requires q <= QUEUES
    decreases q - i
  {
    if i >= q then 0 else (if counts[i] != 0 then 1 else 0) + WaitingBefore(counts, i + 1, q)
  }

  /** All of them, from queue `i` on. */
  function Waiting(counts: Counts, i: nat): nat
  {
    WaitingBefore(counts, i, QUEUES)
  }

  lemma {:induction false} WaitingBeforeAbove(counts: Counts, j: nat, i: nat, q: nat)
    requires j < i && j < QUEUES && q <= QUEUES
    ensures WaitingBefore(counts[j := 0], i, q) == WaitingBefore(counts, i, q)
    decreases q - i
  {
    if i < q {
      WaitingBeforeAbove(counts, j, i + 1, q);
    }
  }

  /** A collection reports as many queues as fit into the room, the first ones. */
  lemma {:induction false} CollectsWhatFits(counts: Counts, i: nat, room: nat)
    ensures FitsOf(|Collect(counts, i, room).entries|, Waiting(counts, i), room)
    decreases QUEUES - i
  {
    if i >= QUEUES || room < REPORT_SIZE {
      NothingCollected(counts, i, room, 0);
    } else {
      var next: Counts := if counts[i] == 0 then counts else counts[i := 0];
      CollectsWhatFits(next, i + 1, if counts[i] == 0 then room else room - REPORT_SIZE);
      QueueFits(counts, i, room);
    }
  }

  lemma QueueFits(counts: Counts, i: nat, room: nat)
    requires i < QUEUES && room >= REPORT_SIZE
    requires counts[i] == 0 ==> FitsOf(|Collect(counts, i + 1, room).entries|, Waiting(counts, i + 1), room)
    requires counts[i] != 0 ==>
               FitsOf(|Collect(counts[i := 0], i + 1, room - REPORT_SIZE).entries|, Waiting(counts[i := 0], i + 1), room - REPORT_SIZE)
    ensures FitsOf(|Collect(counts, i, room).entries|, Waiting(counts, i), room)
  {
    hide Collect, Waiting;
    CollectStep(counts, i, room);
    WaitingStep(counts, i);
  }

  lemma WaitingStep(counts: Counts, i: nat)
    requires i < QUEUES
    ensures Waiting(counts, i) == if counts[i] == 0 then Waiting(counts, i + 1) else 1 + Waiting(counts[i := 0], i + 1)
  {
    WaitingBeforeAbove(counts, i, i + 1, QUEUES);
  }

  /** `n` of `waiting` reports are as many as `room` bytes allow. */
  predicate FitsOf(n: nat, waiting: nat, room: nat)
  {
    && n <= waiting && REPORT_SIZE * n <= room
    && (n == waiting || REPORT_SIZE * n + REPORT_SIZE > room)
  }

  lemma {:induction false} WaitingBound(counts: Counts, i: nat)
    requires i <= SHARED_QUEUE && counts[SHARED_QUEUE] == 0
    ensures Waiting(counts, i) <= SHARED_QUEUE - i
    decreases QUEUES - i
  {
    if i < SHARED_QUEUE {
      WaitingBound(counts, i + 1);
    } else {
      assert Waiting(counts, QUEUES) == 0;
    }
  }

  /** The trailer of a collection; the caller's free tail is `room`. */
  function Report(counts: Counts, room: nat): (b: seq<uint8>)
    ensures |b| == RECORD_HDR + REPORT_SIZE * |Collect(counts, 1, room).entries|
  {
    var es := Collect(counts, 1, room).entries;
    [RECORD_CREDITS, REPORT_SIZE * |es|] + EntryBytes(es)
  }

  /** The code counts only the entries against the free tail, not the record
      header: the trailer fits just when the header fits as well. */
  lemma ReportFitsIffHeaderDoes(counts: Counts, room: nat)
    ensures |Report(counts, room)| <= room <==> RECORD_HDR + REPORT_SIZE * Waiting(counts, 1) <= room
    ensures |Report(counts, room)| <= room + RECORD_HDR
  {
    CollectsWhatFits(counts, 1, room);
  }

  /** Twelve free bytes, which the caller insists on, do not suffice for six. */
  lemma TwelveBytesAreTooFew()
    ensures var counts: Counts := [0, 1, 1, 1, 1, 1, 1, 0];
            |Report(counts, 12)| == 14
  {
    var counts: Counts := [0, 1, 1, 1, 1, 1, 1, 0];
    assert Waiting(counts, 7) == 0;
    assert Waiting(counts, 5) == 2;
    assert Waiting(counts, 3) == 4;
    assert Waiting(counts, 1) == 6;
    CollectsWhatFits(counts, 1, 12);
  }

  /** A credit record as the device's parser finds it. */
  ghost predicate IsReportOf(b: seq<uint8>, es: seq<CreditEntry>)
  {
    && Leftover(b) == [] && |Records(b)| == 1
    && Records(b)[0].id == RECORD_CREDITS && Entries(Records(b)[0].body) == es
  }

  /** Parsing the trailer gives back exactly the entries that were collected, and
      fourteen bytes hold it while the shared queue counts nothing. */
  lemma ReportRoundTrip(counts: Counts, room: nat)
    ensures IsReportOf(Report(counts, room), Collect(counts, 1, room).entries)
    ensures counts[SHARED_QUEUE] == 0 ==> |Report(counts, room)| <= BUFFER_SIZE
  {
    var es := Collect(counts, 1, room).entries;
    CollectsWhatFits(counts, 1, room);
    if counts[SHARED_QUEUE] == 0 {
      WaitingBound(counts, 1);
    }
    var r := Record(RECORD_CREDITS, EntryBytes(es));
    assert Encode([r]) == [r.id, |r.body|] + r.body + Encode([]);
    assert Report(counts, room) == Encode([r]) + [];
    RecordsOfEncode([r], []);
    EntriesOfBytes(es);
  }

  // ----- what the report does to the endpoints -----

  /** Queue `q` has something to report, and room left behind the queues in front
      of it. */
  predicate Fits(counts: Counts, i: nat, room: nat, q: nat)
    requires q < QUEUES
  {
    counts[q] != 0 && REPORT_SIZE * WaitingBefore(counts, i, q) + REPORT_SIZE <= room
  }

  lemma FitsStep(counts: Counts, i: nat, room: nat, q: nat)
    requires i <= q < QUEUES
    ensures room < REPORT_SIZE ==> !Fits(counts, i, room, q)
    ensures room >= REPORT_SIZE && i == q ==> (Fits(counts, i, room, q) <==> counts[q] != 0)
    ensures room >= REPORT_SIZE && i < q ==>
              if counts[i] == 0 then Fits(counts, i, room, q) <==> Fits(counts, i + 1, room, q)
              else Fits(counts, i, room, q) <==> Fits(counts[i := 0], i + 1, room - REPORT_SIZE, q)
  {
    if i < q {
      WaitingBeforeAbove(counts, i, i + 1, q);
    }
  }

  /** What the collection gives to queue `q`, one queue further. */
  lemma CollectStepOrEnd(counts: Counts, i: nat, room: nat, q: nat)
    requires i <= q < QUEUES
    ensures room < REPORT_SIZE ==> CreditsFor(q, Collect(counts, i, room).entries) == 0
    ensures room >= REPORT_SIZE && i == q ==> CreditsFor(q, Collect(counts, i, room).entries) == counts[q]
    ensures room >= REPORT_SIZE && i < q ==>
              CreditsFor(q, Collect(counts, i, room).entries) ==
              if counts[i] == 0 then CreditsFor(q, Collect(counts, i + 1, room).entries)
              else CreditsFor(q, Collect(counts[i := 0], i + 1, room - REPORT_SIZE).entries)
  {
    hide Collect, CreditsFor;
    if room < REPORT_SIZE {
      NothingCollected(counts, i, room, q);
    } else {
      CollectStep(counts, i, room);
      var next: Counts := if counts[i] == 0 then counts else counts[i := 0];
      var rest := Collect(next, i + 1, if counts[i] == 0 then room else room - REPORT_SIZE);
      CreditsForCons(q, CreditEntry(i, counts[i]), rest.entries);
      CollectionConserves(next, i + 1, if counts[i] == 0 then room else room - REPORT_SIZE, q);
    }
  }

  /** A queue is reported, with its whole count, exactly when it fits. */
  lemma {:induction false} ReportedIffFits(counts: Counts, i: nat, room: nat, q: nat)
    requires i <= q < QUEUES
    ensures CreditsFor(q, Collect(counts, i, room).entries) == if Fits(counts, i, room, q) then counts[q] else 0
    decreases QUEUES - i
  {
    hide Collect, CreditsFor, Fits;
    CollectStepOrEnd(counts, i, room, q);
    FitsStep(counts, i, room, q);
    if room >= REPORT_SIZE && i < q {
      if counts[i] == 0 {
        ReportedIffFits(counts, i + 1, room, q);
      } else {
        ReportedIffFits(counts[i := 0], i + 1, room - REPORT_SIZE, q);
      }
    }
  }

  /** Every entry names a queue and reports something. */
  predicate Telling(es: seq<CreditEntry>)
  {
    forall e :: e in es ==> (e.endpoint as int) < QUEUES && e.credits != 0
  }

  lemma TellingCons(e: CreditEntry, es: seq<CreditEntry>)
    ensures Telling([e] + es) <==> (e.endpoint as int) < QUEUES && e.credits != 0 && Telling(es)
  {
    assert forall f :: f in [e] + es <==> f == e || f in es;
    assert e in [e] + es;
  }

  lemma {:induction false} CollectionTells(counts: Counts, i: nat, room: nat)
    ensures Telling(Collect(counts, i, room).entries)
    decreases QUEUES - i
  {
    hide Collect, Telling;
    if i >= QUEUES || room < REPORT_SIZE {
      NothingTells(counts, i, room);
    } else {
      CollectStep(counts, i, room);
      if counts[i] == 0 {
        CollectionTells(counts, i + 1, room);
      } else {
        CollectionTells(counts[i := 0], i + 1, room - REPORT_SIZE);
        TellingCons(CreditEntry(i, counts[i]), Collect(counts[i := 0], i + 1, room - REPORT_SIZE).entries);
      }
    }
  }

  lemma NothingTells(counts: Counts, i: nat, room: nat)
    requires i >= QUEUES || room < REPORT_SIZE
    ensures Telling(Collect(counts, i, room).entries)
  {
  }

  lemma {:induction false} NamedIffCredits(es: seq<CreditEntry>, q: uint8)
    requires Telling(es)
    ensures (exists e :: e in es && e.endpoint == q) <==> CreditsFor(q, es) != 0
  {
    if es != [] {
      assert es == [es[0]] + es[1..];
      assert Telling(es[1..]);
      NamedIffCredits(es[1..], q);
    }
  }

  /** The trailer parser takes the report of a collection exactly when neither
      queue 6 nor queue 7 is reported, because those queues name no endpoint of
      this build; then its effect is that of the collected entries. */
  lemma ReportAcceptedIffEndpointsExist(counts: Counts, room: nat, eps: seq<Endpoint>, la: LookAhead)
    requires |eps| == MANAGED_MAX
    ensures Effect(Report(counts, room), eps, la).outcome.Done? <==> !Fits(counts, 1, room, 6) && !Fits(counts, 1, room, 7)
    ensures Effect(Report(counts, room), eps, la).outcome.Done? ==>
              Effect(Report(counts, room), eps, la) == Replayed(ApplyEntries(eps, Collect(counts, 1, room).entries), Done(la))
  {
    hide Collect, Report, CreditsFor, WaitingBefore, Effect;
    var es := Collect(counts, 1, room).entries;
    CollectionTells(counts, 1, room);
    ReportedIffFits(counts, 1, room, 6);
    ReportedIffFits(counts, 1, room, 7);
    NamedIffCredits(es, 6);
    NamedIffCredits(es, 7);
    AcceptedIffKnown(counts, room, eps, la);
  }

  lemma AcceptedIffKnown(counts: Counts, room: nat, eps: seq<Endpoint>, la: LookAhead)
    requires |eps| == MANAGED_MAX
    ensures var es := Collect(counts, 1, room).entries;
            var s := Effect(Report(counts, room), eps, la);
            && (s.outcome.Done? <==> forall e :: e in es ==> (e.endpoint as int) < ENDPOINT_MAX)
            && (s.outcome.Done? ==> s == Replayed(ApplyEntries(eps, es), Done(la)))
  {
    hide Collect, Report, Records, Leftover, Entries, ApplyEntries, Replay;
    var b, es := Report(counts, room), Collect(counts, 1, room).entries;
    ReportRoundTrip(counts, room);
    var r := Records(b)[0];
    assert Records(b) == [r];
    ReplayMeans([r], eps, la);
    assert r in [r];
    assert Reports([r]) == es by { assert [r][1..] == []; }
    assert LastGuarded([r], la) == la by { assert [r][..0] == []; }
  }

  /** Queue 6 counts like any other, and its report ends the parser in an assert. */
  lemma QueueSixIsUnknown(eps: seq<Endpoint>, la: LookAhead)
    requires |eps| == MANAGED_MAX
    ensures var counts: Counts := [0, 0, 0, 0, 0, 0, 1, 0];
            Effect(Report(counts, 14), eps, la).outcome.Asserted?
  {
    var counts: Counts := [0, 0, 0, 0, 0, 0, 1, 0];
    assert WaitingBefore(counts, 4, 6) == 0;
    assert WaitingBefore(counts, 2, 6) == 0;
    ReportAcceptedIffEndpointsExist(counts, 14, eps, la);
  }

  /** One pool after credits of any number were reported to it. */
  function Credited(e: Endpoint, n: nat): Endpoint
  {
    var covered := if e.intCredits <= n then e.intCredits as int else n;
    e.(rptCreditCounter := Wrap8(e.rptCreditCounter as int + n),
       intCredits := e.intCredits as int - covered,
       credits := Wrap8(e.credits as int + n - covered))
  }

  lemma CreditedMore(e: Endpoint, n: uint8, m: nat)
    ensures Credited(Reported(e, n), m) == Credited(e, n + m)
  {
    var covered := if e.intCredits <= n then e.intCredits as int else n as int;
    SumRemainder(e.rptCreditCounter as int + n as int, m);
    var rest := e.intCredits - covered;
    var more := if rest <= m then rest else m;
    SumRemainder(e.credits as int + n as int - covered, m - more);
  }

  lemma {:induction false} EntriesAddUp(eps: seq<Endpoint>, es: seq<CreditEntry>, p: nat)
    requires |eps| == MANAGED_MAX && p < MANAGED_MAX
    ensures ApplyEntries(eps, es)[p] == Credited(eps[p], ReportedIn(p, es))
    decreases |es|
  {
    if es != [] {
      EntriesAddUp(ApplyEntry(eps, es[0]), es[1..], p);
      if PoolOf(es[0].endpoint) == p {
        CreditedMore(eps[p], es[0].credits, ReportedIn(p, es[1..]));
      }
    }
  }

  /** What a collection clears of the queues, from queue `q` on, whose endpoints
      share pool `p`. */
  function Cleared(p: nat, before: Counts, after: Counts, q: nat): int
    decreases QUEUES - q
  {
    if q >= QUEUES then 0
    else (if PoolOf(q) == p then before[q] - after[q] else 0) + Cleared(p, before, after, q + 1)
  }

  /** The same sum, over what entries give. */
  function GivenTo(p: nat, es: seq<CreditEntry>, q: nat): nat
    decreases QUEUES - q
  {
    if q >= QUEUES then 0
    else (if PoolOf(q) == p then CreditsFor(q, es) else 0) + GivenTo(p, es, q + 1)
  }

  lemma {:induction false} GivenToCons(p: nat, e: CreditEntry, es: seq<CreditEntry>, q: nat)
    ensures GivenTo(p, [e] + es, q) == GivenTo(p, es, q) + if q <= e.endpoint as int < QUEUES && PoolOf(e.endpoint) == p then e.credits as int else 0
    decreases QUEUES - q
  {
    if q < QUEUES {
      CreditsForCons(q, e, es);
      GivenToCons(p, e, es, q + 1);
    }
  }

  lemma {:induction false} NothingGiven(p: nat, q: nat)
    ensures GivenTo(p, [], q) == 0
    decreases QUEUES - q
  {
    if q < QUEUES {
      NothingGiven(p, q + 1);
    }
  }

  lemma {:induction false} ReportedIsGiven(p: nat, es: seq<CreditEntry>)
    requires Telling(es)
    ensures ReportedIn(p, es) == GivenTo(p, es, 0)
  {
    if es == [] {
      NothingGiven(p, 0);
    } else {
      assert es == [es[0]] + es[1..];
      assert Telling(es[1..]);
      ReportedIsGiven(p, es[1..]);
      GivenToCons(p, es[0], es[1..], 0);
    }
  }

  lemma {:induction false} GivenIsCleared(p: nat, counts: Counts, room: nat, q: nat)
    ensures GivenTo(p, Collect(counts, 1, room).entries, q) == Cleared(p, counts, Collect(counts, 1, room).left, q)
    decreases QUEUES - q
  {
    if q < QUEUES {
      hide Collect, CreditsFor;
      CollectionConserves(counts, 1, room, q);
      GivenIsCleared(p, counts, room, q + 1);
    }
  }

  /** An accepted report gives every pool exactly the credits whose counts the
      collection cleared: the other end's books balance. */
  lemma CreditsGivenAreCountsCleared(counts: Counts, room: nat, eps: seq<Endpoint>, la: LookAhead, p: nat)
    requires |eps| == MANAGED_MAX && p < MANAGED_MAX
    ensures Cleared(p, counts, Collect(counts, 1, room).left, 0) >= 0
    ensures var s := Effect(Report(counts, room), eps, la);
            s.outcome.Done? ==> s.eps[p] == Credited(eps[p], Cleared(p, counts, Collect(counts, 1, room).left, 0))
  {
    hide Collect, Report, ApplyEntries, Effect, Fits, Credited, ReportedIn;
    var es := Collect(counts, 1, room).entries;
    ReportAcceptedIffEndpointsExist(counts, room, eps, la);
    EntriesAddUp(eps, es, p);
    CollectionTells(counts, 1, room);
    ReportedIsGiven(p, es);
    GivenIsCleared(p, counts, room, 0);
  }

  /** CollectCredits, with its moving record pointer, on the fourteen-byte buffer. */
  method CollectCredits(counts: array<uint8>, buff: array<uint8>, lenFreeTrail: nat) returns (length: nat)
    requires counts.Length == QUEUES && buff.Length == BUFFER_SIZE && counts != buff
    requires counts[SHARED_QUEUE] == 0
    modifies counts, buff
    ensures length <= BUFFER_SIZE && buff[..length] == Report(old(counts[..]), lenFreeTrail)
    ensures counts[..] == Collect(old(counts[..]), 1, lenFreeTrail).left
  {
    hide Collect, EntryBytes;
    ghost var start := Collect(counts[..], 1, lenFreeTrail);
    ghost var done: seq<CreditEntry> := [];
    AtMostSix(counts[..], lenFreeTrail);
    NothingDone(start);
    var len, i := 0, 1;
    while i < QUEUES
      invariant 1 <= i <= QUEUES && len == REPORT_SIZE * |done| <= lenFreeTrail
      invariant start == ToGo(done, Collect(counts[..], i, lenFreeTrail - len))
      invariant len <= BUFFER_SIZE - RECORD_HDR && buff[RECORD_HDR..RECORD_HDR + len] == EntryBytes(done)
    {
      if len + REPORT_SIZE > lenFreeTrail {
        break;
      }
      CollectStep(counts[..], i, lenFreeTrail - len);
      if counts[i] != 0 {
        done := PutEntry(counts, buff, i, len, done, lenFreeTrail - len);
        len := len + REPORT_SIZE;
      }
      i := i + 1;
    }
    CollectEnds(counts[..], i, lenFreeTrail - len, done);
    buff[0], buff[1] := RECORD_CREDITS, len;
    length := len + RECORD_HDR;
    assert buff[..length] == [buff[0], buff[1]] + buff[RECORD_HDR..length];
  }

  /** Writes the next entry of the report, and clears its count. */
  method PutEntry(counts: array<uint8>, buff: array<uint8>, i: nat, len: nat, ghost done: seq<CreditEntry>, ghost room: nat)
    returns (ghost done': seq<CreditEntry>)
    requires counts.Length == QUEUES && buff.Length == BUFFER_SIZE && counts != buff
    requires i < QUEUES && counts[i] != 0 && RECORD_HDR + len + REPORT_SIZE <= BUFFER_SIZE && room >= REPORT_SIZE
    requires buff[RECORD_HDR..RECORD_HDR + len] == EntryBytes(done)
    modifies counts, buff
    ensures counts[..] == old(counts[..])[i := 0]
    ensures done' == done + [CreditEntry(i, old(counts[i]))]
    ensures buff[RECORD_HDR..RECORD_HDR + len + REPORT_SIZE] == EntryBytes(done')
    ensures ToGo(done, Collect(old(counts[..]), i, room)) == ToGo(done', Collect(counts[..], i + 1, room - REPORT_SIZE))
  {
    hide Collect, EntryBytes;
    var e := CreditEntry(i, counts[i]);
    ToGoStep(done, counts[..], i, room);
    EntryBytesSnoc(done, e);
    buff[RECORD_HDR + len] := i;
    buff[RECORD_HDR + len + 1] := counts[i];
    counts[i] := 0;
    done' := done + [e];
    assert buff[RECORD_HDR..RECORD_HDR + len + REPORT_SIZE] == buff[RECORD_HDR..RECORD_HDR + len] + [e.endpoint, e.credits];
  }

  lemma AtMostSix(counts: Counts, room: nat)
    requires counts[SHARED_QUEUE] == 0
    ensures |Collect(counts, 1, room).entries| <= 6
  {
    CollectsWhatFits(counts, 1, room);
    WaitingBound(counts, 1);
  }

  lemma NothingDone(c: Collection)
    ensures ToGo([], c) == c && EntryBytes([]) == []
  {
  }

  lemma CollectEnds(counts: Counts, i: nat, room: nat, done: seq<CreditEntry>)
    requires i == QUEUES || room < REPORT_SIZE
    ensures ToGo(done, Collect(counts, i, room)) == Collection(done, counts)
  {
  }

  ghost function ToGo(done: seq<CreditEntry>, c: Collection): Collection
  {
    Collection(done + c.entries, c.left)
  }

  lemma ToGoStep(done: seq<CreditEntry>, counts: Counts, i: nat, room: nat)
    requires i < QUEUES && room >= REPORT_SIZE && counts[i] != 0
    ensures var e := CreditEntry(i, counts[i]);
            ToGo(done, Collect(counts, i, room)) == ToGo(done + [e], Collect(counts[i := 0], i + 1, room - REPORT_SIZE))
  {
    var e, rest := CreditEntry(i, counts[i]), Collect(counts[i := 0], i + 1, room - REPORT_SIZE).entries;
    assert done + ([e] + rest) == (done + [e]) + rest;
  }

  // ----- runs -----

  datatype Event = Enqueue(epid: uint8) | Collecting(room: nat)

  datatype History = History(counts: Counts, reported: seq<CreditEntry>)

  function Step(masks: Masks, h: History, e: Event): History
  {
    match e
    case Enqueue(epid) => h.(counts := Enqueued(masks, h.counts, epid))
    case Collecting(room) =>
      var c := Collect(h.counts, 1, room);
      History(c.left, h.reported + c.entries)
  }

  function Run(masks: Masks, h: History, es: seq<Event>): History
    decreases |es|
  {
    if es == [] then h else Run(masks, Step(masks, h, es[0]), es[1..])
  }

  /** Queue `q` is the first to serve the endpoint, which is not the transport's own, and
      is not the shared one. */
  predicate ServedBy(masks: Masks, epid: uint8, q: nat)
  {
    epid != 0 && q < 7 && epid in masks[q] && forall j :: 0 <= j < q ==> epid !in masks[j]
  }

  lemma CountedIffServed(masks: Masks, epid: uint8, q: nat)
    ensures ServedBy(masks, epid, q) <==> Counted(masks, epid) && QueueOf(masks, epid, 0) == q
  {
  }

  /** How many buffers of queue `q` were given back. */
  function GivenBack(masks: Masks, es: seq<Event>, q: nat): nat
  {
    if es == [] then 0
    else (if es[0].Enqueue? && ServedBy(masks, es[0].epid, q) then 1 else 0)
         + GivenBack(masks, es[1..], q)
  }

  lemma {:induction false} CreditsForConcat(q: nat, a: seq<CreditEntry>, b: seq<CreditEntry>)
    ensures CreditsFor(q, a + b) == CreditsFor(q, a) + CreditsFor(q, b)
  {
    if a == [] {
      assert a + b == b;
    } else {
      assert (a + b)[1..] == a[1..] + b;
      CreditsForConcat(q, a[1..], b);
    }
  }

  lemma EnqueueCounts(masks: Masks, counts: Counts, epid: uint8, q: nat)
    requires q < QUEUES
    ensures Enqueued(masks, counts, epid)[q] as int == (counts[q] + GivenBack(masks, [Enqueue(epid)], q)) % 0x100
    ensures Enqueued(masks, counts, epid)[SHARED_QUEUE] == counts[SHARED_QUEUE]
  {
    CountedIffServed(masks, epid, q);
    assert [Enqueue(epid)][1..] == [];
  }

  /** Equality of counts that are kept in eight bits. */
  predicate Congruent(a: int, b: int) { a % 0x100 == b % 0x100 }

  lemma CongruentSums(a: int, b: int, n: int)
    ensures Congruent(a, b) ==> Congruent(a + n, b + n)
    ensures Congruent(a + b % 0x100, a + b)
  {
    SumRemainder(a, n);
    SumRemainder(b, n);
    SumRemainder(b, a);
  }

  lemma SumRemainder(a: int, n: int)
    ensures (a + n) % 0x100 == (a % 0x100 + n) % 0x100
  {
  }

  lemma StepConserves(masks: Masks, h: History, e: Event, q: nat)
    requires 1 <= q < QUEUES
    ensures Congruent(Accounted(Step(masks, h, e), q), Accounted(h, q) + GivenBack(masks, [e], q))
    ensures h.counts[SHARED_QUEUE] == 0 ==> Step(masks, h, e).counts[SHARED_QUEUE] == 0
  {
    hide Collect, Enqueued, Congruent;
    assert [e][1..] == [];
    match e {
      case Enqueue(epid) =>
        EnqueueCounts(masks, h.counts, epid, q);
        CongruentSums(CreditsFor(q, h.reported), h.counts[q] + GivenBack(masks, [e], q), 0);
      case Collecting(room) =>
        CollectionConserves(h.counts, 1, room, q);
        CollectionConserves(h.counts, 1, room, SHARED_QUEUE);
        CreditsForConcat(q, h.reported, Collect(h.counts, 1, room).entries);
        CongruentSums(Accounted(h, q), 0, 0);
    }
  }

  /** What was reported for a queue and what is still counted. */
  function Accounted(h: History, q: nat): nat
    requires q < QUEUES
  {
    CreditsFor(q, h.reported) + h.counts[q]
  }

  /** Over every run of enqueues and collections, whatever room each collection
      has: the credits accounted for are the buffers given back, modulo the eight
      bits of the count; the shared queue never counts. */
  lemma {:induction false} RunConserves(masks: Masks, h: History, es: seq<Event>, q: nat)
    requires 1 <= q < QUEUES && h.counts[SHARED_QUEUE] == 0
    ensures Run(masks, h, es).counts[SHARED_QUEUE] == 0
    ensures Congruent(Accounted(Run(masks, h, es), q), Accounted(h, q) + GivenBack(masks, es, q))
    decreases |es|
  {
    hide *;
    if es == [] {
      NothingRun(masks, h, q);
      CongruentSums(Accounted(h, q), 0, 0);
    } else {
      RunCons(masks, h, es);
      GivenBackCons(masks, es, q);
      var h1 := Step(masks, h, es[0]);
      StepConserves(masks, h, es[0], q);
      RunConserves(masks, h1, es[1..], q);
      CongruentChain(Accounted(Run(masks, h1, es[1..]), q), Accounted(h1, q), GivenBack(masks, es[1..], q),
                     Accounted(h, q), GivenBack(masks, [es[0]], q));
    }
  }

  lemma NothingRun(masks: Masks, h: History, q: nat)
    ensures Run(masks, h, []) == h && GivenBack(masks, [], q) == 0
  {
  }

  lemma CongruentChain(z: int, y: int, m: int, x: int, n: int)
    requires Congruent(z, y + m) && Congruent(y, x + n)
    ensures Congruent(z, x + (n + m))
  {
    CongruentSums(y, x + n, m);
  }

  lemma RunCons(masks: Masks, h: History, es: seq<Event>)
    requires es != []
    ensures Run(masks, h, es) == Run(masks, Step(masks, h, es[0]), es[1..])
  {
  }

  lemma GivenBackCons(masks: Masks, es: seq<Event>, q: nat)
    requires es != []
    ensures GivenBack(masks, es, q) == GivenBack(masks, [es[0]], q) + GivenBack(masks, es[1..], q)
  {
    assert [es[0]][1..] == [];
  }
}
