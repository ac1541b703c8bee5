/** The driver task: one pass of Driver_Main, the SPI transfer machine beneath
    it, and the threads, interrupts and device that move beside it. */
module DriverTask {
  import opened Bytes
  import opened Credits
  import opened Trailer
  import opened Netbuf
  import opened Framing
  import opened Pools
  import opened Target
  import opened Wire

  const ENDPOINT_1: uint8 := 1
  const MAX_CREDIT_DEADLOCK_ATTEMPTS: nat := 2
  const START_IRQS: set<Irq> := {PktAvail, LocalCpuIntr} + ERROR_IRQS

  type Frame = f: seq<uint8> | |f| >= HDR_LENGTH witness [0, 0, 0, 0, 0, 0]

  /** A transmit request in the queue; its header space is already reserved. */
  datatype Packet = Packet(epid: uint8, credits: uint8, frame: Frame)

  datatype Request = Tx(packet: Packet) | Rx(lookAhead: LookAhead, bytes: seq<uint8>)

  function MessageOf(p: Packet): Message
  {
    Message(p.epid, p.frame[HDR_LENGTH..])
  }

  function Messages(q: seq<Packet>): (ms: seq<Message>)
    ensures |ms| == |q|
  {
    seq(|q|, i requires 0 <= i < |q| => MessageOf(q[i]))
  }

  /** Driver_SubmitTxRequest assigned the credits that the frame's length asks for. */
  predicate Priced(p: Packet)
  {
    p.credits == Wrap8(CreditsRequired(|p.frame|))
  }

  /** Frames of a pool carry consecutive sequence numbers, modulo 256. */
  ghost predicate Numbered(cs: seq<Charge>)
  {
    forall i :: 0 <= i < |cs| ==> cs[i].seqNo as int == i % 0x100
  }

  ghost predicate AskedLast(cs: seq<Charge>)
  {
    cs != [] && cs[|cs| - 1].flags == FLAG_NEED_CREDIT_UPDATE
  }

  /** A pool accounts for its credits, its frames are numbered modulo 256, and
      a pool that ran dry asked for an update in the frame that emptied it. */
  ghost predicate Account(c: Channel, maxCredits: uint8, cs: seq<Charge>)
  {
    && Inv(c) && c.ep.maxCredits == maxCredits && c.spent == |cs|
    && Numbered(cs)
    && (c.ep.credits == 0 < maxCredits ==> AskedLast(cs))
  }

  /** Credits that come back, seen or unseen, keep the account. */
  lemma CreditsKeepAccount(c: Channel, e: Event, maxCredits: uint8, cs: seq<Charge>)
    requires Account(c, maxCredits, cs) && !e.Spend? && Enabled(c, e)
    ensures Account(Step(c, e), maxCredits, cs)
  {
    StepKeepsInv(c, e);
  }

  lemma StartsExact(maxCredits: uint8)
    ensures Account(Start(maxCredits), maxCredits, [])
  {
  }

  /** A frame charged keeps the account when the pool could pay for it. */
  lemma ChargeKeepsAccount(c: Channel, charge: Charge, maxCredits: uint8, cs: seq<Charge>)
    requires Account(c, maxCredits, cs) && c.ep.credits > 0
    requires charge.seqNo == c.ep.seqNo
    requires charge.flags == if Charged(c.ep, 1).credits == 0 then FLAG_NEED_CREDIT_UPDATE else 0
    ensures Account(Step(c, Spend), maxCredits, cs + [charge])
  {
    StepKeepsInv(c, Spend);
  }

  /** The endpoints together with the true counts of all three pools. */
  datatype Books = Books(eps: seq<Endpoint>, returned: seq<nat>, reported: seq<nat>, charged: seq<seq<Charge>>, creditCount: uint16)

  predicate ThreePools(b: Books)
  {
    |b.eps| == |b.returned| == |b.reported| == |b.charged| == MANAGED_MAX
  }

  function ChannelAt(b: Books, p: nat): Channel
    requires ThreePools(b) && p < MANAGED_MAX
  {
    Channel(b.eps[p], b.returned[p], b.reported[p], |b.charged[p]|)
  }

  ghost predicate PoolBalanced(b: Books, p: nat)
    requires ThreePools(b) && p < MANAGED_MAX
  {
    Account(ChannelAt(b, p), Distributed(b.creditCount)[p].maxCredits, b.charged[p])
  }

  ghost predicate Balanced(b: Books)
  {
    ThreePools(b) && forall p :: 0 <= p < MANAGED_MAX ==> PoolBalanced(b, p)
  }

  /** When one pool moves to another state that balances, all still do. */
  lemma OthersStayBalanced(b: Books, b': Books, p: nat)
    requires Balanced(b) && ThreePools(b') && p < MANAGED_MAX && PoolBalanced(b', p) && b'.creditCount == b.creditCount
    requires forall q :: 0 <= q < MANAGED_MAX && q != p ==> b'.charged[q] == b.charged[q] && ChannelAt(b', q) == ChannelAt(b, q)
    ensures Balanced(b')
  {
    hide Account, Distributed;
    forall q | 0 <= q < MANAGED_MAX
      ensures PoolBalanced(b', q)
    {
      assert PoolBalanced(b, q);
    }
  }

  /** The device returns a credit, a poll sees some, or a frame is charged: a
      step of one pool's channel keeps the books of all. */
  lemma ReturnBalances(b: Books, p: nat)
    requires Balanced(b) && p < MANAGED_MAX && b.returned[p] < |b.charged[p]|
    ensures Balanced(b.(returned := b.returned[p := b.returned[p] + 1]))
  {
    hide Account, Inv;
    assert PoolBalanced(b, p);
    CreditsKeepAccount(ChannelAt(b, p), Return(1), Distributed(b.creditCount)[p].maxCredits, b.charged[p]);
    OthersStayBalanced(b, b.(returned := b.returned[p := b.returned[p] + 1]), p);
  }

  lemma PollBalances(b: Books, p: nat)
    requires Balanced(b) && p < MANAGED_MAX
    ensures Balanced(b.(eps := b.eps[p := Polled(b.eps[p], b.returned[p] % 0x100)]))
  {
    hide Account, Polled;
    assert PoolBalanced(b, p);
    CreditsKeepAccount(ChannelAt(b, p), Poll, Distributed(b.creditCount)[p].maxCredits, b.charged[p]);
    OthersStayBalanced(b, b.(eps := b.eps[p := Polled(b.eps[p], b.returned[p] % 0x100)]), p);
  }

  /** The last counter read is kept for show only. */
  lemma CounterFieldIsFree(b: Books, p: nat)
    requires Balanced(b) && p < MANAGED_MAX
    ensures Balanced(b.(eps := b.eps[p := b.eps[p].(intCreditCounter := 0)]))
  {
    hide Numbered, AskedLast;
    assert PoolBalanced(b, p);
    OthersStayBalanced(b, b.(eps := b.eps[p := b.eps[p].(intCreditCounter := 0)]), p);
  }

  lemma ChargeBalances(b: Books, p: nat, charge: Charge)
    requires Balanced(b) && p < MANAGED_MAX && b.eps[p].credits > 0
    requires charge.seqNo == b.eps[p].seqNo
    requires charge.flags == if Charged(b.eps[p], 1).credits == 0 then FLAG_NEED_CREDIT_UPDATE else 0
    ensures Balanced(b.(eps := b.eps[p := Charged(b.eps[p], 1)], charged := b.charged[p := b.charged[p] + [charge]]))
  {
    hide Account, Charged;
    assert PoolBalanced(b, p);
    ChargeKeepsAccount(ChannelAt(b, p), charge, Distributed(b.creditCount)[p].maxCredits, b.charged[p]);
    OthersStayBalanced(b, b.(eps := b.eps[p := Charged(b.eps[p], 1)], charged := b.charged[p := b.charged[p] + [charge]]), p);
  }

  function Received(b: Books, f: seq<uint8>, pad: seq<uint8>): Books
    requires ThreePools(b) && WellSized(f)
  {
    b.(eps := ReceiveEffect(f + pad, LookAheadOf(f), b.eps).eps, reported := AddReports(b.reported, FrameReports(f)))
  }

  lemma FrameBalancesPool(b: Books, f: seq<uint8>, pad: seq<uint8>, p: nat)
    requires Balanced(b) && WellSized(f) && p < MANAGED_MAX
    requires b.reported[p] + ReportedIn(p, FrameReports(f)) <= b.returned[p]
    requires ReceiveEffect(f + pad, LookAheadOf(f), b.eps).outcome.Done?
    ensures PoolBalanced(Received(b, f, pad), p)
  {
    hide Inv, ReceiveEffect, FrameReports, ReportedIn, Distributed, Numbered, AskedLast;
    assert PoolBalanced(b, p);
    HonestFrameKeepsPool(f, pad, b.eps, p, b.returned[p], b.reported[p], |b.charged[p]|);
  }

  /** An honest frame that is accepted keeps the books of every pool. */
  lemma FrameBalances(b: Books, f: seq<uint8>, pad: seq<uint8>)
    requires Balanced(b) && WellSized(f)
    requires forall p :: 0 <= p < MANAGED_MAX ==> b.reported[p] + ReportedIn(p, FrameReports(f)) <= b.returned[p]
    requires ReceiveEffect(f + pad, LookAheadOf(f), b.eps).outcome.Done?
    ensures Balanced(Received(b, f, pad))
  {
    hide PoolBalanced, ReceiveEffect, FrameReports, ReportedIn, AddReports;
    forall p | 0 <= p < MANAGED_MAX
      ensures PoolBalanced(Received(b, f, pad), p)
    {
      FrameBalancesPool(b, f, pad, p);
    }
  }

  /** The buffer that Htc_PrepareRecvPacket sizes for a frame holds all of it. */
  lemma BufferHoldsFrame(f: seq<uint8>)
    requires WellSized(f)
    ensures RecvLength(LookAheadOf(f)) as int >= |f|
  {
    SizingCoversFrame(LookAheadOf(f));
  }

  /** The control endpoints have a credit each of their own; every data endpoint draws on
      the rest. */
  lemma EndpointsDrawOn(id: uint8, creditCount: uint16)
    requires 2 <= creditCount <= 257
    ensures Distributed(creditCount)[PoolOf(id)].maxCredits as int == if id < 2 then 1 else creditCount as int - 2
    ensures forall other: uint8 :: other != id ==> (PoolOf(other) == PoolOf(id) <==> id >= 2 && other >= 2)
  {
  }

  /** What the user sees of a received frame; endpoint 0 is the transport's own. */
  function DeliveredBy(f: seq<uint8>): seq<Message>
  {
    if |f| < HDR_LENGTH || f[0] == 0 then []
    else
      match Dissect(f, LookAheadOf(f))
      case Parts(payload, _) => [Message(f[0], payload)]
      case Malformed => []
  }

  /** What the device framed for a user is what the user gets, without the trailer. */
  lemma FramedIsDelivered(epid: uint8, otherFlags: uint8, payload: seq<uint8>, trailer: Option<seq<uint8>>, control1: uint8)
    requires otherFlags / 2 % 2 == 0 && WithinLimits(payload, trailer)
    ensures DeliveredBy(DeviceFrame(epid, otherFlags, payload, trailer, control1)) ==
            if epid == 0 then [] else [Message(epid, payload)]
  {
    hide Dissect, WithinLimits;
    var f := DeviceFrame(epid, otherFlags, payload, trailer, control1);
    ReceiveInvertsFraming(epid, otherFlags, payload, trailer, control1, []);
    assert f + [] == f;
    assert f[0] == epid;
  }

  function Deliveries(fs: seq<seq<uint8>>): seq<Message>
  {
    if fs == [] then [] else Deliveries(fs[..|fs| - 1]) + DeliveredBy(fs[|fs| - 1])
  }

  /** Every submitted message is completed, in hand or queued exactly once. */
  ghost predicate EachOnce(submitted: seq<Message>, completed: seq<Message>, inHand: seq<Message>, queue: seq<Packet>)
  {
    multiset(submitted) == multiset(completed) + multiset(inHand) + multiset(Messages(queue))
  }

  /** Moreover completions, the one in hand and the queue continue one another. */
  ghost predicate InOrder(submitted: seq<Message>, completed: seq<Message>, inHand: seq<Message>, queue: seq<Packet>)
  {
    submitted == completed + inHand + Messages(queue)
  }

  lemma SubmittingAccounts(submitted: seq<Message>, completed: seq<Message>, inHand: seq<Message>, queue: seq<Packet>, added: seq<Packet>)
    ensures EachOnce(submitted, completed, inHand, queue) ==> EachOnce(submitted + Messages(added), completed, inHand, queue + added)
    ensures InOrder(submitted, completed, inHand, queue) ==> InOrder(submitted + Messages(added), completed, inHand, queue + added)
  {
    MessagesConcat(queue, added);
  }

  lemma CompletingAccounts(submitted: seq<Message>, completed: seq<Message>, inHand: seq<Message>, queue: seq<Packet>)
    ensures EachOnce(submitted, completed, inHand, queue) ==> EachOnce(submitted, completed + inHand, [], queue)
    ensures InOrder(submitted, completed, inHand, queue) ==> InOrder(submitted, completed + inHand, [], queue)
  {
    assert completed + inHand + [] == completed + inHand;
  }

  lemma DequeuingAccounts(submitted: seq<Message>, completed: seq<Message>, queue: seq<Packet>)
    requires queue != []
    ensures EachOnce(submitted, completed, [], queue) ==> EachOnce(submitted, completed, [MessageOf(queue[0])], queue[1..])
    ensures InOrder(submitted, completed, [], queue) ==> InOrder(submitted, completed, [MessageOf(queue[0])], queue[1..])
  {
    assert Messages(queue) == [MessageOf(queue[0])] + Messages(queue[1..]);
    assert completed + [] == completed;
  }

  lemma RequeuingAccounts(submitted: seq<Message>, completed: seq<Message>, p: Packet, queue: seq<Packet>)
    ensures EachOnce(submitted, completed, [MessageOf(p)], queue) ==> EachOnce(submitted, completed, [], queue + [p])
  {
    MessagesConcat(queue, [p]);
    assert Messages([p]) == [MessageOf(p)];
  }

  /** The packets a purge leaves in the queue, and those it completes. */
  function Kept(q: seq<Packet>): seq<Packet>
  {
    if q == [] then [] else (if q[0].epid > ENDPOINT_1 then [] else [q[0]]) + Kept(q[1..])
  }

  function Purged(q: seq<Packet>): seq<Packet>
  {
    if q == [] then [] else (if q[0].epid > ENDPOINT_1 then [q[0]] else []) + Purged(q[1..])
  }

  lemma {:induction false} KeptSnoc(q: seq<Packet>, p: Packet)
    ensures Kept(q + [p]) == Kept(q) + Kept([p]) && Purged(q + [p]) == Purged(q) + Purged([p])
  {
    if q == [] {
      assert q + [p] == [p];
    } else {
      assert (q + [p])[1..] == q[1..] + [p] && (q + [p])[0] == q[0];
      KeptSnoc(q[1..], p);
      var k, g := if q[0].epid > ENDPOINT_1 then [] else [q[0]], if q[0].epid > ENDPOINT_1 then [q[0]] else [];
      assert Kept(q + [p]) == k + Kept(q[1..] + [p]) && Kept(q) == k + Kept(q[1..]);
      assert Purged(q + [p]) == g + Purged(q[1..] + [p]) && Purged(q) == g + Purged(q[1..]);
      hide Kept, Purged;
      assert k + (Kept(q[1..]) + Kept([p])) == (k + Kept(q[1..])) + Kept([p]);
      assert g + (Purged(q[1..]) + Purged([p])) == (g + Purged(q[1..])) + Purged([p]);
    }
  }

  /** After `i` rounds of a purge that nobody disturbs. */
  ghost predicate PurgedSoFar(q0: seq<Packet>, completed0: seq<Message>, i: nat, q: seq<Packet>, completed: seq<Message>)
  {
    && i <= |q0|
    && q == q0[i..] + Kept(q0[..i])
    && completed == completed0 + Messages(Purged(q0[..i]))
  }

  lemma PurgeStarts(q0: seq<Packet>, completed0: seq<Message>)
    ensures PurgedSoFar(q0, completed0, 0, q0, completed0)
  {
    assert q0[..0] == [] && Messages([]) == [];
  }

  lemma PurgeAdvances(q0: seq<Packet>, completed0: seq<Message>, i: nat, q: seq<Packet>, completed: seq<Message>)
    requires PurgedSoFar(q0, completed0, i, q, completed) && i < |q0|
    ensures PurgedSoFar(q0, completed0, i + 1, q[1..] + Kept(q[..1]), completed + Messages(Purged(q[..1])))
  {
    assert q0[..i + 1] == q0[..i] + [q0[i]];
    assert q[..1] == [q0[i]] && q[1..] == q0[i + 1..] + Kept(q0[..i]);
    KeptSnoc(q0[..i], q0[i]);
    MessagesConcat(Purged(q0[..i]), Purged([q0[i]]));
  }

  lemma PurgeEnds(q0: seq<Packet>, completed0: seq<Message>, q: seq<Packet>, completed: seq<Message>)
    requires PurgedSoFar(q0, completed0, |q0|, q, completed)
    ensures q == Kept(q0) && completed == completed0 + Messages(Purged(q0))
  {
    assert q0[..|q0|] == q0;
  }

  /** A purge leaves only control packets and completes only others, and each
      packet once. */
  lemma {:induction false} PurgePartitions(q: seq<Packet>)
    ensures forall p :: p in Kept(q) ==> p.epid <= ENDPOINT_1
    ensures forall p :: p in Purged(q) ==> p.epid > ENDPOINT_1
    ensures multiset(q) == multiset(Kept(q)) + multiset(Purged(q))
  {
    if q != [] {
      PurgePartitions(q[1..]);
      assert q == [q[0]] + q[1..];
      assert multiset(q) == multiset{q[0]} + multiset(q[1..]);
      assert multiset([q[0]]) == multiset{q[0]};
    }
  }

  /** It keeps the order: it acts on every part of a queue by itself. */
  lemma {:induction false} PurgeKeepsOrder(a: seq<Packet>, b: seq<Packet>)
    ensures Kept(a + b) == Kept(a) + Kept(b) && Purged(a + b) == Purged(a) + Purged(b)
    decreases |b|
  {
    if b == [] {
      assert a + b == a;
    } else {
      assert a + b == (a + b[..|b| - 1]) + [b[|b| - 1]] && b == b[..|b| - 1] + [b[|b| - 1]];
      PurgeKeepsOrder(a, b[..|b| - 1]);
      KeptSnoc(a + b[..|b| - 1], b[|b| - 1]);
      KeptSnoc(b[..|b| - 1], b[|b| - 1]);
    }
  }

  /** What the device must find in the padded frame of packet `p`. */
  predicate OnWire(w: seq<uint8>, p: Packet, sent: SendStatus)
    requires sent.Sent?
  {
    && |w| == Padded(|p.frame|) >= |p.frame|
    && w[HDR_LENGTH..|p.frame|] == p.frame[HDR_LENGTH..]
    && |p.frame| - HDR_LENGTH < 0x1_0000
    && DecodeHeader(w) == Header(p.epid, sent.flags, |p.frame| - HDR_LENGTH, 0, sent.seqNo)
  }

  lemma FilledOnWire(p: Packet, filled: Frame, w: seq<uint8>, sent: SendStatus)
    requires sent.Sent? && Padded(|p.frame|) <= CREDIT_SIZE
    requires filled == FilledFrame(p.frame, p.epid, sent.flags, sent.seqNo)
    requires filled <= w && |w| == Padded(|filled|)
    ensures OnWire(w, p, sent) && w[0] == p.epid
  {
    PaddedBlock(|p.frame|);
    WireDecodes(p.frame[HDR_LENGTH..], filled, p.epid, sent.flags, sent.seqNo, w[|filled|..]);
    assert w == filled + w[|filled|..];
  }

  /** The device decodes the frame to the packet and its charge. */
  lemma OnWireShows(w: seq<uint8>, p: Packet, sent: SendStatus)
    requires sent.Sent? && OnWire(w, p, sent)
    ensures ShownPool(w) == PoolOf(p.epid) && ShownCharge(w) == Charge(sent.flags, sent.seqNo) && ShownMessage(w) == MessageOf(p)
  {
  }

  /** Sending keeps the wire in step with the charges and the requests sent. */
  lemma SendingFollows(ws: seq<seq<uint8>>, ws': seq<seq<uint8>>, cs: Charges, requests: seq<Message>, p: Packet, sent: SendStatus)
    requires Follows(ws, cs, requests) && sent.Sent?
    requires ws' == ws || (|ws'| == |ws| + 1 && ws < ws' && OnWire(ws'[|ws|], p, sent))
    ensures var pool := PoolOf(p.epid);
            var cs' := cs[pool := cs[pool] + [Charge(sent.flags, sent.seqNo)]];
            Follows(ws', cs', requests + [MessageOf(p)]) && TotalCharged(cs') == TotalCharged(cs) + 1
  {
    hide Follows, OnWire, MessageOf;
    if ws' == ws {
      ChargeFollows(ws, cs, requests, PoolOf(p.epid), Charge(sent.flags, sent.seqNo), MessageOf(p));
    } else {
      OnWireShows(ws'[|ws|], p, sent);
      FrameFollows(ws, ws'[|ws|], cs, requests);
      assert ws' == ws + [ws'[|ws|]];
    }
  }

  ghost predicate AllPriced(q: seq<Packet>)
  {
    forall p :: p in q ==> Priced(p)
  }

  lemma MessagesConcat(a: seq<Packet>, b: seq<Packet>)
    ensures Messages(a + b) == Messages(a) + Messages(b)
  {
  }

  /** What the receive side finds, one condition after another: an error, a transfer, a
      pending packet interrupt, a buffer or the prospect of one, the next frame's
      lookahead, the bytes that are buffered, and whether it got a buffer. */
  datatype RxView = RxView(fatal: bool, busy: bool, pending: bool, buffer: bool, lookAhead: LookAhead, available: nat, allotted: bool)

  /** Nothing in the host keeps a frame from being received. */
  predicate Listening(v: RxView)
  {
    !v.fatal && !v.busy && v.pending && v.buffer
  }

  /** The device holds a header, and as many bytes as the next frame's payload. */
  predicate Buffered(v: RxView)
  {
    v.lookAhead != NO_LOOKAHEAD && HDR_LENGTH <= v.available && LookAheadPayload(v.lookAhead) as int <= v.available
  }

  predicate Receivable(v: RxView)
  {
    Listening(v) && Buffered(v) && v.allotted
  }

  /** What one pass of the driver task finds: the receive side, whether credits were
      checked without receive buffers, and the interrupt and the receive buffers at
      its end. */
  datatype Pass = Pass(rx: RxView, starved: bool, detected: bool, buffers: bool)

  class Driver {
    const dev: Device
    const ep: array<Endpoint>
    /** The host detects interrupts by edge; the device announced out-of-band credits. */
    const edgeDetect: bool
    const creditInit: bool
    const creditCount: uint16

    var txQueue: seq<Packet>
    var current: Option<Request>
    var fatal: bool
    var dmaInProg: bool
    var dmaComplete: bool
    var waitForBuffer: bool
    var shadow: set<Irq>
    var irqMask: set<Irq>
    var pendingIrqAcks: bool
    var irqDetected: bool
    var cpuInterrupt: bool
    var writeBufferSpace: uint32
    var readBufferSpace: uint32
    var lookAhead: LookAhead
    var rxBufferStatus: bool
    var haveRxReq: bool
    var creditDeadlock: bool
    var creditDeadlockCounter: uint32
    /** The driver ran into an assert, which spins for ever. */
    var halted: bool
    /** What went back to the users: transmit requests, and received messages. */
    var completed: seq<Message>
    var delivered: seq<Message>

    // ----- history -----

    ghost var submitted: seq<Message>
    /** The deadlock purge ran, so completions need no longer be in order. */
    ghost var purged: bool
    ghost var reported: seq<nat>
    /** The frames taken off the device. */
    ghost var received: seq<seq<uint8>>
    ghost var charged: seq<seq<Charge>>
    /** How often the system had no receive buffer to give. */
    ghost var rxDenials: nat

    // ----- invariants -----

    ghost predicate Shaped()
      reads this`reported, this`charged, dev`fifoUsed, dev`inFlight, dev`arrived, dev`returned, dev`announced,
            dev`rxFrames, dev`queued
    {
      && dev.Valid()
      && ep.Length == |reported| == |charged| == MANAGED_MAX
      && (forall p :: 0 <= p < MANAGED_MAX ==> dev.arrived[p] <= |charged[p]|)
    }

    /** The device has announced exactly what was reported and what still waits
        in `frames`. */
    ghost predicate Announced(frames: seq<seq<uint8>>)
      requires |reported| == |dev.announced| == MANAGED_MAX && forall f :: f in frames ==> |f| >= HDR_LENGTH
      reads this`reported, dev`announced
    {
      forall p :: 0 <= p < MANAGED_MAX ==> dev.announced[p] == reported[p] + QueuedReports(p, frames)
    }

    ghost function TheBooks(): Books
      reads ep, this`reported, this`charged, dev`returned
    {
      Books(ep[..], dev.returned, reported, charged, creditCount)
    }

    ghost predicate CreditsExact()
      reads ep, this`reported, this`charged, dev`returned
    {
      Balanced(TheBooks())
    }

    /** At most one request is with the bus, and exactly while it is, one of the
        transfer flags is set. */
    ghost predicate OneTransfer()
      reads this`current, this`dmaInProg, this`dmaComplete
    {
      && (current.Some? <==> dmaInProg || dmaComplete)
      && !(dmaInProg && dmaComplete)
    }

    /** The packet interrupt is in exactly one place. */
    ghost predicate PacketIrqSomewhere()
      reads this`shadow, this`pendingIrqAcks, this`irqMask
    {
      && irqMask <= {PktAvail}
      && (PktAvail in shadow ==> !pendingIrqAcks && irqMask == {})
      && (pendingIrqAcks ==> irqMask == {})
      && (PktAvail in shadow || pendingIrqAcks || irqMask == {PktAvail})
    }

    /** An interrupt parked in irqMask belongs to a transfer that is not completed. */
    ghost predicate ParkedOnlyInTransfer()
      reads this`irqMask, this`dmaInProg, this`dmaComplete
    {
      irqMask != {} ==> dmaInProg || dmaComplete
    }

    /** The device's enable register is the shadow, except after a failed write
        and, without edge detection, after a fatal error. */
    ghost predicate EnableFollowsShadow()
      reads this`shadow, this`fatal, dev`intrEnable, dev`enableInDoubt
    {
      dev.enableInDoubt || (fatal && !edgeDetect) || dev.intrEnable == shadow
    }

    /** The cached write space never promises more than the device has. */
    ghost predicate FifoSafe()
      reads this`writeBufferSpace, dev`fifoUsed, dev`inFlight
    {
      writeBufferSpace + dev.fifoUsed + dev.inFlight <= FIFO_SIZE
    }

    /** Waiting for buffer space means the watermark interrupt is unmasked and a
        level is programmed that it can fall below. */
    ghost predicate WatermarkArmed()
      reads this`waitForBuffer, this`shadow, dev`watermark
    {
      && (waitForBuffer <==> WrbufBelowWmark in shadow)
      && (waitForBuffer ==> 1 <= dev.watermark < FIFO_SIZE)
    }

    /** Every submitted message is completed, in `inHand`, or queued: once, and in
        order unless the purge ran. */
    ghost predicate Accounted(inHand: seq<Message>)
      reads this`submitted, this`completed, this`txQueue, this`purged
    {
      EachOnce(submitted, completed, inHand, txQueue) && (!purged ==> InOrder(submitted, completed, inHand, txQueue))
    }

    /** What the device saw follows what was charged and the requests sent so far;
        until a purge, just the requests sent were charged. */
    ghost predicate WireFollows(sent: seq<Message>)
      reads this`charged, this`purged, dev`wire
    {
      && |charged| == MANAGED_MAX && Follows(dev.wire, charged, sent)
      && (!purged ==> |sent| == TotalCharged(charged))
    }

    /** Frames that were charged and never reached the device. */
    ghost function Unsent(): int
      reads this`charged, dev`wire
    {
      if |charged| == MANAGED_MAX then TotalCharged(charged) - |dev.wire| else 0
    }

    /** A lookahead that is held describes the frame the device will send next. */
    ghost predicate LookAheadFresh()
      reads this`lookAhead, dev`rxFrames
    {
      lookAhead != NO_LOOKAHEAD ==> dev.rxFrames != [] && lookAhead <= dev.rxFrames[0]
    }

    ghost function InHand(): seq<Message>
      reads this`current
    {
      match current
      case Some(Tx(p)) => [MessageOf(p)]
      case _ => []
    }

    /** What holds whenever the world beside the driver task moves. */
    ghost predicate WorldOk()
      reads this`received, this`reported, this`charged, this`txQueue, this`dmaInProg, ep,
            dev`fifoUsed, dev`inFlight, dev`arrived, dev`returned, dev`announced, dev`rxFrames, dev`queued
    {
      && Shaped() && AllPriced(txQueue) && Announced(dev.rxFrames) && CreditsExact()
      && (!dmaInProg ==> dev.inFlight == 0)
      && dev.queued == received + dev.rxFrames
    }

    /** The part of the invariant that the interrupt machinery keeps. */
    ghost predicate IrqsOk()
      reads this`shadow, this`pendingIrqAcks, this`irqMask, this`fatal, this`waitForBuffer, dev`intrEnable,
            dev`enableInDoubt, dev`watermark
    {
      PacketIrqSomewhere() && EnableFollowsShadow() && WatermarkArmed()
    }

    /** Everything but the account of the submitted messages. */
    ghost predicate Sound()
      reads this`received, this`delivered, this`current, this`dmaInProg, this`dmaComplete, this`waitForBuffer,
            this`shadow, this`irqMask, this`pendingIrqAcks,
            this`fatal, this`writeBufferSpace, this`lookAhead, this`txQueue, this`reported, this`charged, ep,
            this`completed, this`purged,
            dev`intrEnable, dev`enableInDoubt, dev`watermark, dev`fifoUsed, dev`inFlight, dev`arrived, dev`returned,
            dev`announced, dev`rxFrames, dev`queued, dev`wire
    {
      && WorldOk() && IrqsOk() && FifoSafe() && LookAheadFresh()
      && OneTransfer() && ParkedOnlyInTransfer()
      && (current.Some? ==> current.value.Tx?)
      && delivered == Deliveries(received)
      && WireFollows(completed + InHand())
    }

    /** The invariant between two passes of the driver task. */
    ghost predicate Valid()
      reads this`received, this`delivered, this`current, this`dmaInProg, this`dmaComplete, this`waitForBuffer,
            this`shadow, this`irqMask, this`pendingIrqAcks,
            this`fatal, this`writeBufferSpace, this`lookAhead, this`txQueue, this`submitted, this`completed,
            this`purged, this`reported, this`charged, ep,
            dev`intrEnable, dev`enableInDoubt, dev`watermark, dev`fifoUsed, dev`inFlight, dev`arrived, dev`returned,
            dev`announced, dev`rxFrames, dev`queued, dev`wire
    {
      Sound() && Accounted(InHand())
    }

    /** The state HTC_Start leaves behind: credits distributed, nothing sent,
        the packet interrupt enabled. */
    constructor (dev: Device, edgeDetect: bool, creditInit: bool, creditCount: uint16)
      requires dev.Valid() && dev.fifoUsed == dev.inFlight == 0 && dev.rxFrames == dev.queued == dev.wire == []
      requires dev.arrived == dev.returned == dev.announced == [0, 0, 0]
      requires dev.intrEnable == START_IRQS && !dev.enableInDoubt
      ensures Valid() && !halted && this.dev == dev && this.edgeDetect == edgeDetect && this.creditCount == creditCount
      ensures fresh(ep) && submitted == completed == delivered == [] && !fatal && !purged
      ensures shadow == START_IRQS && !dmaInProg
    {
      this.dev, this.edgeDetect, this.creditInit, this.creditCount := dev, edgeDetect, creditInit, creditCount;
      var start := Distributed(creditCount);
      ep := new Endpoint[MANAGED_MAX] [start[0], start[1], start[2]];
      txQueue, current, halted := [], None, false;
      fatal, dmaInProg, dmaComplete, waitForBuffer := false, false, false, false;
      shadow, irqMask, pendingIrqAcks, irqDetected, cpuInterrupt := START_IRQS, {}, false, false, false;
      writeBufferSpace, readBufferSpace, lookAhead := FIFO_SIZE, 0, NO_LOOKAHEAD;
      rxBufferStatus, haveRxReq, creditDeadlock, creditDeadlockCounter := true, false, false, 0;
      submitted, completed, delivered, purged := [], [], [], false;
      reported, charged, received, rxDenials := [0, 0, 0], [[], [], []], [], 0;
      new;
      hide *;
      StartCredits();
      StartValid();
    }

    lemma StartValid()
      requires dev.Valid() && |reported| == |charged| == ep.Length == MANAGED_MAX && CreditsExact()
      requires dev.fifoUsed == dev.inFlight == 0 && dev.rxFrames == dev.queued == received == [] && delivered == [] && Announced([])
      requires dev.arrived == [0, 0, 0]
      requires dev.intrEnable == shadow == START_IRQS && irqMask == {} && !pendingIrqAcks
      requires !dmaInProg && !dmaComplete && !waitForBuffer && current.None?
      requires writeBufferSpace as int == FIFO_SIZE && lookAhead == NO_LOOKAHEAD
      requires txQueue == [] && submitted == completed == [] && dev.wire == [] && charged == [[], [], []]
      ensures Valid()
    {
      NothingFollows(dev.wire, charged, completed + InHand());
      hide CreditsExact, Announced;
      assert Messages(txQueue) == [];
      assert WrbufBelowWmark !in START_IRQS;
    }

    lemma StartCredits()
      requires ep.Length == MANAGED_MAX && ep[..] == Distributed(creditCount)
      requires reported == dev.returned == dev.announced == [0, 0, 0] && charged == [[], [], []]
      ensures CreditsExact() && Announced([])
    {
      hide Account;
      forall p | 0 <= p < MANAGED_MAX
        ensures PoolBalanced(TheBooks(), p)
      {
        StartsExact(ep[..][p].maxCredits);
        assert ChannelAt(TheBooks(), p) == Start(ep[..][p].maxCredits) && charged[p] == [];
      }
    }

    // ----- the world beside the driver task -----

    /** Driver_SubmitTxRequest, from a user thread. */
    method SubmitTxRequest(epid: uint8, header: seq<uint8>, payload: seq<uint8>) returns (ghost p: Packet)
      requires |header| == HDR_LENGTH && AllPriced(txQueue)
      modifies this`txQueue, this`submitted
      ensures AllPriced(txQueue) && txQueue == old(txQueue) + [p]
      ensures MessageOf(p) == Message(epid, payload) && submitted == old(submitted) + [MessageOf(p)]
    {
      var frame := header + payload;
      assert frame[HDR_LENGTH..] == payload;
      var request := Packet(epid, Wrap8(CreditsRequired(|frame|)), frame);
      txQueue := txQueue + [request];
      submitted := submitted + [Message(epid, payload)];
      p := request;
    }

    /** Bus_TransferComplete, from an interrupt. */
    method BusTransferComplete()
      modifies this`dmaInProg, this`dmaComplete
      ensures !dmaInProg && dmaComplete == (old(dmaComplete) || old(dmaInProg))
    {
      if !dmaInProg {
        return;
      }
      dmaComplete := true;
      dmaInProg := false;
    }

    /** The device returns a credit, if it holds one back. */
    method DeviceReturnsCredit(p: nat)
      requires WorldOk() && p < MANAGED_MAX
      modifies dev`returned
      ensures WorldOk()
    {
      hide Balanced, Announced, AllPriced;
      if dev.returned[p] < dev.arrived[p] {
        ReturnBalances(TheBooks(), p);
        dev.ReturnCredit(p);
      }
    }

    /** The device queues a frame, reporting only credits it returned. */
    method DeviceQueuesFrame(f: seq<uint8>)
      requires WorldOk()
      modifies dev`rxFrames, dev`queued, dev`announced
      ensures WorldOk() && old(dev.rxFrames) <= dev.rxFrames
    {
      if WellSized(f) && dev.MayAnnounce(f) {
        ghost var before := dev.rxFrames;
        dev.QueueFrame(f);
        forall p | 0 <= p < MANAGED_MAX
          ensures dev.announced[p] == reported[p] + QueuedReports(p, dev.rxFrames)
        {
          QueuedReportsSnoc(p, before, f);
        }
      }
    }

    /** The device moves bytes through its write FIFO or raises interrupts. */
    method DeviceMovesBytes(n: nat, irqs: set<Irq>)
      requires WorldOk()
      modifies dev`fifoUsed, dev`inFlight, dev`intrCause
      ensures WorldOk() && dev.fifoUsed + dev.inFlight <= old(dev.fifoUsed + dev.inFlight)
      ensures old(dev.intrCause) <= dev.intrCause
    {
      var drain: bool := *;
      if drain && n <= dev.fifoUsed {
        dev.Drain(n);
      } else if n <= dev.inFlight {
        dev.Arrive(n);
      }
      dev.Raise(irqs);
    }

    method DeviceMoves()
      requires WorldOk()
      modifies dev`fifoUsed, dev`inFlight, dev`returned, dev`rxFrames, dev`queued, dev`announced, dev`intrCause
      ensures dev.Valid() && (!dmaInProg ==> dev.inFlight == 0)
      ensures WorldOk() && dev.fifoUsed + dev.inFlight <= old(dev.fifoUsed + dev.inFlight)
      ensures old(dev.rxFrames) <= dev.rxFrames
      ensures old(dev.intrCause) <= dev.intrCause
    {
      var n: int, f: seq<uint8>, irqs: set<Irq> := *, *, *;
      if 0 <= n < MANAGED_MAX {
        DeviceReturnsCredit(n);
      }
      DeviceQueuesFrame(f);
      if 0 <= n {
        DeviceMovesBytes(n, irqs);
      }
    }

    /** A user submits, a transfer completes, an interrupt is detected, or the
        state of the receive buffers changes. */
    method HostMoves() returns (ghost added: seq<Packet>)
      requires WorldOk()
      modifies this`txQueue, this`submitted, this`dmaInProg, this`dmaComplete, this`irqDetected, this`rxBufferStatus,
               dev`fifoUsed, dev`inFlight
      ensures WorldOk() && dev.fifoUsed + dev.inFlight <= old(dev.fifoUsed + dev.inFlight)
      ensures txQueue == old(txQueue) + added && submitted == old(submitted) + Messages(added)
      ensures dmaInProg ==> old(dmaInProg)
      ensures dmaComplete == (old(dmaComplete) || (old(dmaInProg) && !dmaInProg))
      ensures old(irqDetected) ==> irqDetected
    {
      hide WorldOk;
      added := UserMoves();
      var completes: bool := *;
      if completes {
        TransferEnds();
      }
      var detects: bool := *;
      irqDetected, rxBufferStatus := irqDetected || detects, *;
    }

    /** The DMA engine has moved the last byte and calls back. */
    method TransferEnds()
      requires WorldOk()
      modifies this`dmaInProg, this`dmaComplete, dev`fifoUsed, dev`inFlight
      ensures WorldOk() && dev.fifoUsed + dev.inFlight == old(dev.fifoUsed + dev.inFlight)
      ensures !dmaInProg && dmaComplete == (old(dmaComplete) || old(dmaInProg))
    {
      hide CreditsExact, Announced;
      dev.Arrive(dev.inFlight);
      BusTransferComplete();
    }

    method UserMoves() returns (ghost added: seq<Packet>)
      requires WorldOk()
      modifies this`txQueue, this`submitted
      ensures WorldOk() && txQueue == old(txQueue) + added && submitted == old(submitted) + Messages(added)
    {
      hide CreditsExact, Announced;
      added := [];
      var epid: int, bytes: seq<uint8> := *, *;
      if 0 <= epid < 0x100 && |bytes| >= HDR_LENGTH {
        ghost var p := SubmitTxRequest(epid, bytes[..HDR_LENGTH], bytes[HDR_LENGTH..]);
        added := [p];
      }
    }

    /** Any number of moves beside the driver task. */
    method Interfere() returns (ghost added: seq<Packet>)
      requires WorldOk()
      modifies this`txQueue, this`submitted, this`dmaInProg, this`dmaComplete, this`irqDetected, this`rxBufferStatus,
               dev`fifoUsed, dev`inFlight, dev`returned, dev`rxFrames, dev`queued, dev`announced, dev`intrCause
      ensures WorldOk() && dev.fifoUsed + dev.inFlight <= old(dev.fifoUsed + dev.inFlight)
      ensures old(dev.rxFrames) <= dev.rxFrames
      ensures txQueue == old(txQueue) + added && submitted == old(submitted) + Messages(added)
      ensures dmaInProg ==> old(dmaInProg)
      ensures dmaComplete == (old(dmaComplete) || (old(dmaInProg) && !dmaInProg))
      ensures old(dev.intrCause) <= dev.intrCause && (old(irqDetected) ==> irqDetected)
    {
      added := [];
      var moves: int := *;
      while moves > 0
        invariant WorldOk() && dev.fifoUsed + dev.inFlight <= old(dev.fifoUsed + dev.inFlight)
        invariant old(dev.rxFrames) <= dev.rxFrames
        invariant txQueue == old(txQueue) + added && submitted == old(submitted) + Messages(added)
        invariant dmaInProg ==> old(dmaInProg)
        invariant dmaComplete == (old(dmaComplete) || (old(dmaInProg) && !dmaInProg))
        invariant old(dev.intrCause) <= dev.intrCause && (old(irqDetected) ==> irqDetected)
      {
        DeviceMoves();
        ghost var more := HostMoves();
        MessagesConcat(added, more);
        added := added + more;
        moves := moves - 1;
      }
    }

    /** Whatever moves beside the driver task keeps its invariant. */
    method Pause() returns (ghost added: seq<Packet>)
      requires Valid()
      modifies this`txQueue, this`submitted, this`dmaInProg, this`dmaComplete, this`irqDetected, this`rxBufferStatus,
               dev`fifoUsed, dev`inFlight, dev`returned, dev`rxFrames, dev`queued, dev`announced, dev`intrCause
      ensures Valid()
      ensures txQueue == old(txQueue) + added && submitted == old(submitted) + Messages(added)
      ensures dmaInProg ==> old(dmaInProg)
      ensures dmaComplete == (old(dmaComplete) || (old(dmaInProg) && !dmaInProg))
      ensures old(dev.rxFrames) <= dev.rxFrames
      ensures old(dev.intrCause) <= dev.intrCause && (old(irqDetected) ==> irqDetected)
    {
      hide WorldOk, EachOnce, InOrder, IrqsOk, Deliveries;
      added := Interfere();
      SubmittingAccounts(old(submitted), completed, InHand(), old(txQueue), added);
    }

    // ----- spi_hcd.c: the interrupt mask -----

    /** The branch that would call back into UnmaskInterrupts is dead: no bit of
        `mask` is left in the shadow. So the two functions do not recur for ever. */
    method MaskSPIInterrupts(mask: set<Irq>) returns (ok: bool)
      modifies this`shadow, dev`faults, dev`intrEnable, dev`enableInDoubt
      ensures shadow == old(shadow) - mask
      ensures ok <==> !dev.enableInDoubt
      ensures ok ==> dev.intrEnable == shadow
      ensures old(dev.faults) <= dev.faults
    {
      shadow := shadow - mask;
      if mask * shadow != {} {
        assert false;
      }
      ok := dev.WriteEnable(shadow);
    }

    /** Masks again only when `mask` is empty. */
    method UnmaskInterrupts(mask: set<Irq>) returns (ok: bool)
      modifies this`shadow, dev`faults, dev`intrEnable, dev`enableInDoubt
      ensures shadow == old(shadow) + mask
      ensures ok <==> !dev.enableInDoubt
      ensures ok ==> dev.intrEnable == shadow
      ensures old(dev.faults) <= dev.faults
    {
      shadow := shadow + mask;
      if mask * shadow == {} {
        assert mask == {} by {
          assert mask <= shadow;
        }
        var _ := MaskSPIInterrupts(mask);
      }
      ok := dev.WriteEnable(shadow);
    }

    /** EnableDisableSPIIRQHwDetect, enabling: an edge-triggered host needs the
        whole enable register rewritten to see a clean edge. */
    method EnableHwDetect()
      requires !halted
      modifies this`halted, dev`faults, dev`intrEnable, dev`enableInDoubt
      ensures !halted && edgeDetect ==> !dev.enableInDoubt && dev.intrEnable == shadow
      ensures !edgeDetect ==> !halted && dev.intrEnable == old(dev.intrEnable) && dev.enableInDoubt == old(dev.enableInDoubt)
      ensures old(dev.faults) <= dev.faults
      ensures halted ==> old(dev.faults) < dev.faults
    {
      if edgeDetect {
        var ok := dev.WriteEnable({});
        if ok {
          ok := dev.WriteEnable(shadow);
        }
        halted := !ok;
      }
    }

    /** ResetWriteBufferWaterMark. */
    method ResetWatermark() returns (ok: bool)
      modifies dev`faults, dev`watermark, dev`intrCause
      ensures ok ==> dev.watermark == 0 && WrbufBelowWmark !in dev.intrCause
      ensures ok || old(dev.faults) < dev.faults
      ensures old(dev.faults) <= dev.faults
    {
      ok := dev.WriteWatermark(0);
      if ok {
        ok := dev.AckCause({WrbufBelowWmark});
      }
    }

    // ----- spi_hcd.c: Hcd_BusInterrupt -----

    /** The watermark interrupt: the wait ends with the level reset and the cache
        filled from the register. */
    method ServiceWatermark() returns (ok: bool)
      requires WorldOk() && FifoSafe() && !dmaInProg && EnableFollowsShadow() && WatermarkArmed()
      modifies this`shadow, this`writeBufferSpace, this`waitForBuffer, dev`faults, dev`spaceShown, dev`intrEnable,
               dev`enableInDoubt, dev`watermark,
               dev`fifoUsed, dev`inFlight, dev`returned, dev`rxFrames, dev`queued, dev`announced, dev`intrCause
      ensures ok ==> WorldOk() && FifoSafe() && EnableFollowsShadow() && WatermarkArmed()
      ensures shadow == old(shadow) - {WrbufBelowWmark} && old(dev.rxFrames) <= dev.rxFrames
      ensures ok && old(waitForBuffer) ==>
                !waitForBuffer && dev.watermark == 0 && writeBufferSpace as int == FIFO_SIZE - dev.fifoUsed
      ensures ok || old(dev.faults) < dev.faults
      ensures old(dev.faults) <= dev.faults
    {
      hide WorldOk;
      ok := MaskSPIInterrupts({WrbufBelowWmark});
      ok := true;
      if waitForBuffer {
        DeviceMoves();
        var space;
        ok, space := dev.ReadWriteSpace();
        if ok {
          writeBufferSpace := space;
          waitForBuffer := false;
          ok := ResetWatermark();
        }
      }
    }

    /** The interrupts that servicing `irqs` masks. */
    static function Quieted(irqs: set<Irq>): set<Irq>
    {
      (if irqs * ACCESS_DONE != {} then ACCESS_DONE else {})
      + irqs * {WrbufBelowWmark, PktAvail}
      + if LocalCpuIntr in irqs then {CpuIntr, LocalCpuIntr} else {}
    }

    lemma NothingQuieted()
      ensures Quieted({}) == {}
    {
    }

    /** The sources that remain once there was no error. */
    method ServiceSources(irqs: set<Irq>) returns (ok: bool, notify: bool)
      requires WorldOk() && FifoSafe() && !dmaInProg && EnableFollowsShadow() && WatermarkArmed()
      modifies this`shadow, this`writeBufferSpace, this`waitForBuffer, this`cpuInterrupt,
               dev`faults, dev`spaceShown, dev`intrEnable, dev`enableInDoubt, dev`watermark,
               dev`fifoUsed, dev`inFlight, dev`returned, dev`rxFrames, dev`queued, dev`announced, dev`intrCause
      ensures ok ==> WorldOk() && FifoSafe() && EnableFollowsShadow() && WatermarkArmed()
      ensures old(dev.rxFrames) <= dev.rxFrames
      ensures ok ==> (notify <==> PktAvail in irqs) && (PktAvail in shadow <==> PktAvail in old(shadow) && !notify)
      ensures ok ==> cpuInterrupt == (old(cpuInterrupt) || LocalCpuIntr in irqs)
      ensures ok ==> shadow == old(shadow) - Quieted(irqs)
      ensures ok && WrbufBelowWmark in irqs && old(waitForBuffer) ==>
                !waitForBuffer && dev.watermark == 0 && writeBufferSpace as int == FIFO_SIZE - dev.fifoUsed
      ensures ok || old(dev.faults) < dev.faults
      ensures old(dev.faults) <= dev.faults
    {
      hide WorldOk, FifoSafe;
      ok, notify := true, false;
      if irqs * ACCESS_DONE != {} {
        var _ := MaskSPIInterrupts(ACCESS_DONE);
      }
      if WrbufBelowWmark in irqs {
        ok := ServiceWatermark();
        if !ok {
          return;
        }
      }
      notify := ServiceFunctionSources(irqs);
    }

    /** The packet and CPU interrupts stay masked until they have been dealt with. */
    method ServiceFunctionSources(irqs: set<Irq>) returns (notify: bool)
      requires EnableFollowsShadow()
      modifies this`shadow, this`cpuInterrupt, dev`faults, dev`intrEnable, dev`enableInDoubt
      ensures EnableFollowsShadow()
      ensures notify <==> PktAvail in irqs
      ensures PktAvail in shadow <==> PktAvail in old(shadow) && !notify
      ensures shadow == old(shadow) - irqs * {PktAvail} - if LocalCpuIntr in irqs then {CpuIntr, LocalCpuIntr} else {}
      ensures cpuInterrupt == (old(cpuInterrupt) || LocalCpuIntr in irqs)
      ensures old(WatermarkArmed()) ==> WatermarkArmed()
      ensures LocalCpuIntr in irqs ==> cpuInterrupt && LocalCpuIntr !in shadow
      ensures old(dev.faults) <= dev.faults
    {
      notify := PktAvail in irqs;
      if notify {
        var _ := MaskSPIInterrupts({PktAvail});
      }
      if LocalCpuIntr in irqs {
        var _ := MaskSPIInterrupts({CpuIntr, LocalCpuIntr});
        cpuInterrupt := true;
      }
    }

    /** An error interrupt is fatal and masks everything at the device, but not
        in the shadow. */
    method ServiceErrors(irqs: set<Irq>)
      modifies this`fatal, dev`faults, dev`intrCause, dev`intrEnable, dev`enableInDoubt
      ensures fatal && (dev.enableInDoubt || dev.intrEnable == {})
      ensures dev.faults == old(dev.faults) ==> dev.intrCause == old(dev.intrCause) - irqs * ERROR_IRQS
      ensures old(dev.intrCause) - irqs * ERROR_IRQS <= dev.intrCause
      ensures old(dev.faults) <= dev.faults
    {
      var _ := dev.AckCause(irqs * ERROR_IRQS);
      fatal := true;
      var _ := dev.WriteEnable({});
    }

    /** An error stands before everything else. */
    method ServiceCauses(irqs: set<Irq>) returns (ok: bool, notify: bool)
      requires WorldOk() && FifoSafe() && !dmaInProg && EnableFollowsShadow() && WatermarkArmed()
      modifies this`fatal, this`shadow, this`writeBufferSpace, this`waitForBuffer, this`cpuInterrupt,
               dev`faults, dev`spaceShown, dev`intrEnable, dev`enableInDoubt, dev`watermark,
               dev`fifoUsed, dev`inFlight, dev`returned, dev`rxFrames, dev`queued, dev`announced, dev`intrCause
      ensures ok ==> WorldOk() && FifoSafe() && (edgeDetect || EnableFollowsShadow()) && WatermarkArmed()
      ensures fatal == (old(fatal) || irqs * ERROR_IRQS != {})
      ensures irqs * ERROR_IRQS != {} ==>
                ok && !notify && shadow == old(shadow) && (dev.enableInDoubt || dev.intrEnable == {})
      ensures ok && irqs * ERROR_IRQS == {} ==>
                && (notify <==> PktAvail in irqs)
                && cpuInterrupt == (old(cpuInterrupt) || LocalCpuIntr in irqs)
                && shadow == old(shadow) - Quieted(irqs) && (PktAvail in shadow <==> PktAvail in old(shadow) && !notify)
                && (WrbufBelowWmark in irqs && old(waitForBuffer) ==> !waitForBuffer && dev.watermark == 0)
      ensures ok || old(dev.faults) < dev.faults
      ensures old(dev.faults) <= dev.faults && old(dev.rxFrames) <= dev.rxFrames
    {
      hide WorldOk, FifoSafe, Quieted, WatermarkArmed;
      ok, notify := true, false;
      if irqs * ERROR_IRQS != {} {
        ServiceErrors(irqs);
      } else {
        ok, notify := ServiceSources(irqs);
      }
    }

    /** Hcd_BusInterrupt. `seen` is what the cause register showed of the enabled
        interrupts; a transfer in progress owns the bus, and nothing is serviced. */
    method BusInterrupt() returns (ghost seen: set<Irq>)
      requires !halted && WorldOk() && FifoSafe() && IrqsOk()
      modifies this`halted, this`fatal, this`shadow, this`pendingIrqAcks, this`writeBufferSpace, this`waitForBuffer,
               this`cpuInterrupt,
               dev`faults, dev`spaceShown, dev`causeShown, dev`intrEnable, dev`enableInDoubt, dev`watermark,
               dev`fifoUsed, dev`inFlight, dev`returned, dev`rxFrames, dev`queued, dev`announced, dev`intrCause
      ensures !halted ==> WorldOk() && FifoSafe() && IrqsOk()
      ensures old(dev.rxFrames) <= dev.rxFrames
      ensures dmaInProg ==> seen == {} && !halted && unchanged(`fatal, `shadow, `pendingIrqAcks)
      ensures seen == {} || seen == dev.causeShown * old(shadow)
      ensures !halted ==> fatal == (old(fatal) || seen * ERROR_IRQS != {})
      ensures !halted && seen * ERROR_IRQS != {} ==>
                shadow == old(shadow) && pendingIrqAcks == old(pendingIrqAcks) && (edgeDetect ==> dev.intrEnable == shadow)
      ensures !halted && seen * ERROR_IRQS == {} ==>
                && pendingIrqAcks == (old(pendingIrqAcks) || PktAvail in seen)
                && cpuInterrupt == (old(cpuInterrupt) || LocalCpuIntr in seen)
                && shadow == old(shadow) - Quieted(seen)
                && (WrbufBelowWmark in seen && old(waitForBuffer) ==> !waitForBuffer && dev.watermark == 0)
      ensures halted ==> old(dev.faults) < dev.faults
      ensures !halted && !dmaInProg ==> old(dev.intrCause) * old(shadow) <= seen
      ensures old(dev.faults) <= dev.faults
      ensures !halted && seen * ERROR_IRQS != {} && !dev.enableInDoubt ==> (dev.intrEnable == {} <==> !edgeDetect)
    {
      hide WorldOk, FifoSafe, WatermarkArmed, Quieted, WireFollows, Deliveries;
      seen := {};
      NothingQuieted();
      if dmaInProg {
        return;
      }
      var ok, irqs, notify := ReadAndAckCause();
      seen := if ok then irqs else {};
      if ok {
        ok, notify := ServiceCauses(irqs);
      }
      EnableHwDetect();
      if notify {
        pendingIrqAcks := true;
      }
      if !ok {
        halted := true;
      }
    }

    /** The interrupts that are both raised and enabled; those the host controller
        layer owns are acknowledged at once. */
    method ReadAndAckCause() returns (ok: bool, irqs: set<Irq>, notify: bool)
      requires WorldOk() && FifoSafe()
      modifies dev`faults, dev`causeShown, dev`fifoUsed, dev`inFlight, dev`returned, dev`rxFrames, dev`queued, dev`announced,
               dev`intrCause
      ensures WorldOk() && FifoSafe() && old(dev.rxFrames) <= dev.rxFrames
      ensures irqs <= shadow && !notify
      ensures ok || old(dev.faults) < dev.faults
      ensures ok ==> old(dev.intrCause) * shadow <= irqs == dev.causeShown * shadow
      ensures ok ==> dev.intrCause == dev.causeShown - irqs * HOST_IRQS
      ensures old(dev.intrCause) - HOST_IRQS <= dev.intrCause
      ensures old(dev.faults) <= dev.faults
    {
      hide WorldOk;
      DeviceMoves();
      notify := false;
      ok, irqs := dev.ReadCause();
      irqs := irqs * shadow;
      var hostIrqs := irqs * HOST_IRQS;
      if ok && hostIrqs != {} {
        ok := dev.AckCause(hostIrqs);
      }
    }

    // ----- spi_hcd.c: data transfers -----

    /** DoDMAOp opens by masking the packet interrupt: the interrupt line must not
        move while the bus carries data. */
    method OpenTransfer() returns (mask: set<Irq>)
      requires EnableFollowsShadow()
      modifies this`shadow, dev`faults, dev`intrEnable, dev`enableInDoubt
      ensures EnableFollowsShadow()
      ensures mask == old(shadow) * {PktAvail} && shadow == old(shadow) - {PktAvail}
      ensures old(dev.faults) <= dev.faults
    {
      mask := shadow * {PktAvail};
      assert PktAvail in mask <==> PktAvail in shadow;
      if mask != {} {
        var _ := MaskSPIInterrupts(mask);
      }
    }

    /** It closes by unmasking it, or by parking it until the transfer completes. */
    method CloseTransfer(mask: set<Irq>, status: Status)
      requires EnableFollowsShadow() && irqMask == {} && mask <= {PktAvail}
      modifies this`shadow, this`irqMask, dev`faults, dev`intrEnable, dev`enableInDoubt
      ensures EnableFollowsShadow()
      ensures shadow == if status == Pending then old(shadow) else old(shadow) + mask
      ensures irqMask == if status == Pending then mask else {}
      ensures old(dev.faults) <= dev.faults
    {
      if mask != {} {
        if status == Pending {
          irqMask := mask;
        } else {
          var _ := UnmaskInterrupts(mask);
        }
      }
    }

    /** The data phase of a write. A pending transfer belongs to the DMA engine,
        which may be done before the driver task even takes note of it. */
    method WriteData(w: seq<uint8>) returns (status: Status)
      requires WorldOk() && !dmaInProg && !dmaComplete && |w| >= HDR_LENGTH
      requires dev.fifoUsed + dev.inFlight + |w| + WRBUF_RSVD_BYTES <= FIFO_SIZE
      requires dev.arrived[PoolOf(w[0])] < |charged[PoolOf(w[0])]|
      modifies this`dmaInProg, this`dmaComplete, dev`faults, dev`dmaSize, dev`fifoUsed, dev`inFlight, dev`arrived, dev`wire
      ensures WorldOk()
      ensures dev.fifoUsed + dev.inFlight <= old(dev.fifoUsed + dev.inFlight) + |w| + WRBUF_RSVD_BYTES
      ensures (dmaInProg || dmaComplete <==> status == Pending) && !(dmaInProg && dmaComplete)
      ensures status != Failed ==> dev.wire == old(dev.wire) + [w]
      ensures dev.wire == old(dev.wire) || dev.wire == old(dev.wire) + [w]
      ensures status != Failed || old(dev.faults) < dev.faults
      ensures old(dev.faults) <= dev.faults
    {
      hide CreditsExact, Announced;
      var ok := dev.WriteDmaSize(|w|);
      if !ok {
        return Failed;
      }
      status := dev.TransferOut(w);
      if status == Pending {
        dmaInProg := true;
        var early: bool := *;
        if early {
          TransferEnds();
        }
      }
    }

    /** Hcd_Request and DoDMAOp for a write: the cached write space is charged
        before the bytes go out, and does not wrap. */
    method RequestWrite(w: seq<uint8>) returns (status: Status)
      requires WorldOk() && FifoSafe() && IrqsOk()
      requires !dmaInProg && !dmaComplete && irqMask == {} && |w| >= HDR_LENGTH
      requires writeBufferSpace as int >= |w| + WRBUF_RSVD_BYTES
      requires dev.arrived[PoolOf(w[0])] < |charged[PoolOf(w[0])]|
      modifies this`shadow, this`irqMask, this`writeBufferSpace, this`dmaInProg, this`dmaComplete,
               dev`faults, dev`dmaSize, dev`intrEnable, dev`enableInDoubt, dev`fifoUsed, dev`inFlight, dev`arrived, dev`wire
      ensures WorldOk() && FifoSafe() && IrqsOk()
      ensures (dmaInProg || dmaComplete <==> status == Pending) && !(dmaInProg && dmaComplete)
      ensures irqMask != {} ==> status == Pending
      ensures writeBufferSpace == if fatal then old(writeBufferSpace) else old(writeBufferSpace) - |w| - WRBUF_RSVD_BYTES
      ensures status != Failed ==> !fatal && dev.wire == old(dev.wire) + [w]
      ensures dev.wire == old(dev.wire) || dev.wire == old(dev.wire) + [w]
      ensures status != Failed || old(dev.faults) < dev.faults || fatal
      ensures old(dev.faults) <= dev.faults
    {
      hide WorldOk;
      if fatal {
        return Failed;
      }
      writeBufferSpace := Wrap32(writeBufferSpace as int - |w| - WRBUF_RSVD_BYTES);
      var mask := OpenTransfer();
      status := WriteData(w);
      CloseTransfer(mask, status);
    }

    /** Hcd_Request and DoDMAOp for a read. */
    method RequestRead(length: nat) returns (status: Status, bytes: seq<uint8>)
      requires dev.Valid() && IrqsOk()
      requires dev.rxFrames != [] && length >= |dev.rxFrames[0]| && irqMask == {}
      modifies this`shadow, this`irqMask, this`dmaInProg, dev`faults, dev`dmaSize, dev`intrEnable, dev`enableInDoubt, dev`rxFrames
      ensures dev.Valid() && IrqsOk()
      ensures if status == Pending then dmaInProg else irqMask == {} && dmaInProg == old(dmaInProg)
      ensures status != Ok ==> old(dev.faults) < dev.faults || fatal
      ensures status == Ok ==>
                && (Courteous(old(dev.rxFrames)[0]) || old(dev.faults) < dev.faults)
                && dev.rxFrames == old(dev.rxFrames)[1..] && |bytes| == length && old(dev.rxFrames)[0] <= bytes
      ensures old(dev.faults) <= dev.faults
    {
      bytes := [];
      if fatal {
        return Failed, [];
      }
      var mask := OpenTransfer();
      var ok := dev.WriteDmaSize(length);
      status := Failed;
      if ok {
        status, bytes := dev.TransferIn(length);
        if status == Pending {
          dmaInProg := true;
        }
      }
      CloseTransfer(mask, status);
    }

    // ----- driver_txrx.c: sending -----

    /** Htc_SendPacket: charges the packet's pool and fills in its header. */
    method ChargeAndFill(p: Packet) returns (status: SendStatus, filled: Frame)
      requires WorldOk() && p.credits == 1
      modifies ep, this`charged
      ensures WorldOk() && !status.SendAsserted?
      ensures |filled| == |p.frame| && filled[HDR_LENGTH..] == p.frame[HDR_LENGTH..]
      ensures status.Sent? <==> old(ep[PoolOf(p.epid)].credits) != 0
      ensures status.Sent? ==>
                && filled == FilledFrame(p.frame, p.epid, status.flags, status.seqNo)
                && charged == old(charged)[PoolOf(p.epid) := old(charged[PoolOf(p.epid)]) + [Charge(status.flags, status.seqNo)]]
                && dev.arrived[PoolOf(p.epid)] < |charged[PoolOf(p.epid)]|
      ensures !status.Sent? ==> charged == old(charged) && ep[..] == old(ep[..])
    {
      hide Balanced, Announced;
      var pool := PoolOf(p.epid);
      ghost var books := TheBooks();
      status := ChargeEndpoint(ep, p.epid, p.credits);
      filled := p.frame;
      if status.Sent? {
        ghost var charge := Charge(status.flags, status.seqNo);
        ChargeBalances(books, pool, charge);
        charged := charged[pool := charged[pool] + [charge]];
        filled := FilledFrame(p.frame, p.epid, status.flags, status.seqNo);
      }
    }

    /** One more frame went out, and it shows the device the packet. */
    ghost predicate OnWireNow(before: seq<seq<uint8>>, p: Packet, sent: SendStatus)
      requires sent.Sent?
      reads dev`wire
    {
      |dev.wire| == |before| + 1 && before < dev.wire && OnWire(dev.wire[|before|], p, sent)
    }

    /** Room in the cached write space for the padded frame and the bytes the
        FIFO stores with it. */
    predicate HasRoom(p: Packet)
      reads this`writeBufferSpace
    {
      Padded(|p.frame|) + WRBUF_RSVD_BYTES <= writeBufferSpace
    }

    /** Driver_SendPacket: what goes out on the wire decodes to the packet's
        endpoint, payload and sequence number, and the packet becomes current. */
    method SendPacket(p: Packet) returns (ghost status: SendStatus)
      requires WorldOk() && FifoSafe() && IrqsOk() && OneTransfer() && current.None? && irqMask == {}
      requires Priced(p) && Padded(|p.frame|) <= CREDIT_SIZE && HasRoom(p)
      modifies ep, this`charged, this`current, this`shadow, this`irqMask, this`writeBufferSpace, this`dmaInProg,
               this`dmaComplete,
               dev`faults, dev`dmaSize, dev`intrEnable, dev`enableInDoubt, dev`fifoUsed, dev`inFlight, dev`arrived, dev`wire
      ensures WorldOk() && FifoSafe() && IrqsOk() && OneTransfer() && ParkedOnlyInTransfer()
      ensures current.Some? && current.value.Tx? && InHand() == [MessageOf(p)]
      ensures status.Sent? <==> old(ep[PoolOf(p.epid)].credits) != 0
      ensures dev.wire == old(dev.wire) || (status.Sent? && OnWireNow(old(dev.wire), p, status))
      ensures status.Sent? && dev.wire == old(dev.wire) ==> old(dev.faults) < dev.faults || fatal
      ensures status.Sent? ==> charged == old(charged)[PoolOf(p.epid) := old(charged[PoolOf(p.epid)]) + [Charge(status.flags, status.seqNo)]]
      ensures !status.Sent? ==> charged == old(charged)
      ensures old(dev.faults) <= dev.faults
    {
      hide WorldOk, OnWire, IrqsOk, FifoSafe;
      PaddedBlock(|p.frame|);
      CreditsRequiredIsLeast(|p.frame|);
      var sent, filled := ChargeAndFill(p);
      status := sent;
      var outcome := Failed;
      if sent.Sent? {
        var w := filled + seq(Padded(|filled|) - |filled|, _ => 0);
        FilledOnWire(p, filled, w, sent);
        outcome := RequestWrite(w);
      }
      PostProcessRequest(Tx(p.(frame := filled)), outcome);
    }

    /** Driver_PostProcessRequest; the current request is never overwritten. */
    method PostProcessRequest(req: Request, status: Status)
      requires current.None?
      modifies this`current, this`dmaComplete
      ensures current == Some(req) && dmaComplete == (status != Pending || old(dmaComplete))
    {
      current := Some(req);
      if status != Pending {
        dmaComplete := true;
      }
    }

    // ----- completions -----

    /** Driver_CompleteRequest opens by unmasking what a pending transfer parked. */
    method ReleaseIrqMask()
      requires PacketIrqSomewhere() && EnableFollowsShadow()
      modifies this`shadow, this`irqMask, dev`faults, dev`intrEnable, dev`enableInDoubt
      ensures PacketIrqSomewhere() && EnableFollowsShadow()
      ensures irqMask == {} && shadow == old(shadow) + old(irqMask)
      ensures old(dev.faults) <= dev.faults
    {
      if irqMask != {} {
        var _ := UnmaskInterrupts(irqMask);
        irqMask := {};
      }
    }

    /** Driver_CompleteRequest with Driver_TxComplete: the user gets back what was
        submitted, without the header. */
    method CompleteTx(p: Packet)
      requires PacketIrqSomewhere() && EnableFollowsShadow()
      modifies this`shadow, this`irqMask, this`completed, dev`faults, dev`intrEnable, dev`enableInDoubt
      ensures PacketIrqSomewhere() && EnableFollowsShadow()
      ensures irqMask == {} && shadow == old(shadow) + old(irqMask)
      ensures completed == old(completed) + [MessageOf(p)]
      ensures old(dev.faults) <= dev.faults
    {
      ReleaseIrqMask();
      completed := completed + [Message(p.epid, p.frame[HDR_LENGTH..])];
    }

    /** A receive buffer that the bus has filled. */
    static method BufferHolding(bytes: seq<uint8>, epid: uint8) returns (nb: Netbuf)
      ensures fresh(nb) && fresh(nb.buf) && nb.Valid() && nb.Bytes() == bytes
    {
      nb := new Netbuf(0, |bytes|, [], epid);
      nb.Put(|bytes|);
      forall i | 0 <= i < |bytes| {
        nb.buf[i] := bytes[i];
      }
    }

    /** Htc_ProcessRecvHeader on a buffer that holds the received bytes. */
    method TakeApart(la: LookAhead, bytes: seq<uint8>) returns (outcome: Outcome, payload: seq<uint8>)
      requires ep.Length == MANAGED_MAX
      requires TrailerInside(bytes, la)
      modifies ep
      ensures Replayed(ep[..], outcome) == ReceiveEffect(bytes, la, old(ep[..]))
      ensures outcome.Done? ==> payload == Dissect(bytes, la).payload
    {
      hide ReceiveEffect, Dissect;
      var nb := BufferHolding(bytes, la[0]);
      outcome := ProcessRecvHeader(ep, nb, la);
      payload := nb.buf[nb.data..nb.tail];
    }

    /** Driver_RxComplete: the frame's reports move from announced to reported, and
        its payload goes to the user; endpoint 0 carries none. */
    method RxComplete(la: LookAhead, bytes: seq<uint8>, ghost f: seq<uint8>, ghost since: nat)
      requires !halted && Shaped() && CreditsExact() && WellSized(f) && Announced([f] + dev.rxFrames)
      requires Courteous(f) || since < dev.faults
      requires f <= bytes && la == LookAheadOf(f)
      modifies ep, this`reported, this`delivered, this`halted
      ensures !halted ==>
                && Shaped() && CreditsExact() && Announced(dev.rxFrames)
                && Dissect(f, LookAheadOf(f)).Parts?
                && delivered == old(delivered) + DeliveredBy(f)
      ensures halted <==> !Courteous(f)
    {
      hide Balanced, Courteous;
      ghost var pad := bytes[|f|..];
      assert bytes == f + pad;
      assert DecodeHeader(bytes) == DecodeHeader(f);
      ghost var books := TheBooks();
      ReportsAreReturned(f);
      CourteousIffAccepted(f, pad, ep[..]);
      var outcome, payload := TakeApart(la, bytes);
      if outcome.Asserted? {
        halted := true;
        return;
      }
      FrameBalances(books, f, pad);
      PaddingIsInert(f, pad);
      reported := AddReports(reported, FrameReports(f));
      if la[0] != 0 {
        delivered := delivered + [Message(la[0], payload)];
      } else if payload != [] {
        halted := true;
      }
    }

    /** Driver_CompleteRequest with Driver_RxComplete; nothing is parked then. */
    method CompleteRx(la: LookAhead, bytes: seq<uint8>, ghost f: seq<uint8>, ghost since: nat)
      requires !halted && Shaped() && CreditsExact() && Taken(f, since) && IrqsOk() && irqMask == {}
      requires f <= bytes && |f| >= 4 && la == LookAheadOf(f)
      modifies ep, this`reported, this`delivered, this`halted, this`shadow, this`irqMask, dev`faults,
               dev`intrEnable, dev`enableInDoubt
      ensures irqMask == {} && IrqsOk()
      ensures !halted ==>
                && Shaped() && CreditsExact() && Announced(dev.rxFrames)
                && dev.queued == received + dev.rxFrames && delivered == Deliveries(received)
                && delivered == old(delivered) + DeliveredBy(f)
      ensures halted <==> !Courteous(f)
      ensures old(dev.faults) <= dev.faults
    {
      hide CreditsExact, Announced, WellSized, DeliveredBy, Courteous;
      assert received == received[..|received| - 1] + [f];
      ReleaseIrqMask();
      RxComplete(la, bytes, f, since);
    }

    lemma ReportsAreReturned(f: seq<uint8>)
      requires Shaped() && WellSized(f) && Announced([f] + dev.rxFrames)
      ensures forall p :: 0 <= p < MANAGED_MAX ==>
                && dev.announced[p] == reported[p] + ReportedIn(p, FrameReports(f)) + QueuedReports(p, dev.rxFrames)
                && reported[p] + ReportedIn(p, FrameReports(f)) <= dev.returned[p]
    {
      assert ([f] + dev.rxFrames)[1..] == dev.rxFrames;
    }

    // ----- hw_api.c -----

    /** HW_ProcessPendingInterrupts. */
    method ProcessPendingInterrupts()
      requires !halted && Valid()
      modifies this`txQueue, this`submitted, this`dmaInProg, this`dmaComplete, this`irqDetected, this`rxBufferStatus,
               this`halted, this`fatal, this`shadow, this`irqMask, this`pendingIrqAcks, this`writeBufferSpace,
               this`waitForBuffer, this`cpuInterrupt,
               this`completed, this`current,
               dev`faults, dev`spaceShown, dev`causeShown, dev`intrEnable, dev`enableInDoubt, dev`watermark,
               dev`fifoUsed, dev`inFlight, dev`returned, dev`rxFrames, dev`queued, dev`announced, dev`intrCause
      ensures !halted ==> Valid() && !dmaComplete && !cpuInterrupt
      ensures halted ==> old(dev.faults) < dev.faults
      ensures !halted && old(irqDetected) && !old(dmaInProg) ==>
                && (old(dev.intrCause) * old(shadow) * ERROR_IRQS != {} ==> fatal)
                && (PktAvail in old(dev.intrCause) * old(shadow) ==> pendingIrqAcks || fatal)
                && (old(waitForBuffer) && WrbufBelowWmark in old(dev.intrCause) * old(shadow) ==> !waitForBuffer || fatal)
      ensures !halted ==>
                || (completed == old(completed) + old(InHand()) && current.None?)
                || (completed == old(completed) && current == old(current) && !old(dmaComplete))
      ensures !halted ==> (dmaInProg ==> old(dmaInProg)) && (old(pendingIrqAcks) ==> pendingIrqAcks)
      ensures old(dev.faults) <= dev.faults
    {
      hide Valid;
      TakeInterrupt();
      if halted {
        return;
      }
      var _ := Pause();
      FinishTransfer();
      if cpuInterrupt {
        ServiceCpuInterrupt();
      }
    }

    /** Its first part: an interrupt that was detected is handled. */
    method TakeInterrupt()
      requires !halted && Valid()
      modifies this`txQueue, this`submitted, this`dmaInProg, this`dmaComplete, this`irqDetected, this`rxBufferStatus,
               this`halted, this`fatal, this`shadow, this`pendingIrqAcks, this`writeBufferSpace, this`waitForBuffer,
               this`cpuInterrupt,
               dev`faults, dev`spaceShown, dev`causeShown, dev`intrEnable, dev`enableInDoubt, dev`watermark,
               dev`fifoUsed, dev`inFlight, dev`returned, dev`rxFrames, dev`queued, dev`announced, dev`intrCause
      ensures !halted ==> Valid() && (old(dmaComplete) ==> dmaComplete) && !irqDetected
      ensures halted ==> old(dev.faults) < dev.faults
      ensures !halted && old(irqDetected) && !old(dmaInProg) ==>
                && (old(dev.intrCause) * old(shadow) * ERROR_IRQS != {} ==> fatal)
                && (PktAvail in old(dev.intrCause) * old(shadow) ==> pendingIrqAcks || fatal)
                && (old(waitForBuffer) && WrbufBelowWmark in old(dev.intrCause) * old(shadow) ==> !waitForBuffer || fatal)
      ensures !halted ==> (dmaInProg ==> old(dmaInProg)) && (old(pendingIrqAcks) ==> pendingIrqAcks)
      ensures old(dev.faults) <= dev.faults
    {
      hide Valid;
      var _ := Pause();
      if irqDetected {
        assert old(dev.intrCause) * old(shadow) <= dev.intrCause * shadow;
        HandleInterrupt();
      }
    }

    method HandleInterrupt()
      requires !halted && Valid()
      modifies this`irqDetected, this`halted, this`fatal, this`shadow, this`pendingIrqAcks, this`writeBufferSpace,
               this`waitForBuffer, this`cpuInterrupt,
               dev`faults, dev`spaceShown, dev`causeShown, dev`intrEnable, dev`enableInDoubt, dev`watermark,
               dev`fifoUsed, dev`inFlight, dev`returned, dev`rxFrames, dev`queued, dev`announced, dev`intrCause
      ensures !halted ==> Valid()
      ensures halted ==> old(dev.faults) < dev.faults
      ensures !halted && !dmaInProg && old(dev.intrCause) * old(shadow) * ERROR_IRQS != {} ==> fatal
      ensures !halted && !dmaInProg && PktAvail in old(dev.intrCause) * old(shadow) ==> pendingIrqAcks || fatal
      ensures !halted && !dmaInProg && old(waitForBuffer) && WrbufBelowWmark in old(dev.intrCause) * old(shadow) ==>
                !waitForBuffer || fatal
      ensures !halted && old(pendingIrqAcks) ==> pendingIrqAcks
      ensures !irqDetected
      ensures old(dev.faults) <= dev.faults
    {
      hide WorldOk, IrqsOk, FifoSafe, Accounted, WireFollows, Deliveries;
      irqDetected := false;
      ghost var seen := BusInterrupt();
      assert !halted && !dmaInProg ==> old(dev.intrCause) * old(shadow) * ERROR_IRQS <= seen * ERROR_IRQS;
    }

    /** A deferred request that is done goes back to its user. */
    method FinishTransfer()
      requires Valid()
      modifies this`shadow, this`irqMask, this`completed, this`current, this`dmaComplete, dev`faults,
               dev`intrEnable, dev`enableInDoubt
      ensures Valid() && !dmaComplete && (current.Some? <==> dmaInProg)
      ensures old(dmaComplete) ==> current.None? && completed == old(completed) + old(InHand())
      ensures !old(dmaComplete) ==> completed == old(completed) && current == old(current)
      ensures old(dev.faults) <= dev.faults
    {
      hide WorldOk, EachOnce, InOrder, FifoSafe, LookAheadFresh, EnableFollowsShadow, Deliveries, WireFollows;
      if dmaComplete {
        CompletingAccounts(submitted, completed, InHand(), txQueue);
        assert completed + InHand() + [] == completed + InHand();
        CompleteTx(current.value.packet);
        current := None;
        dmaComplete := false;
      }
    }

    /** The CPU interrupt is unmasked again once it has been cleared. */
    method ServiceCpuInterrupt()
      requires Valid()
      modifies this`shadow, this`cpuInterrupt, dev`faults, dev`intrEnable, dev`enableInDoubt
      ensures Valid() && !cpuInterrupt && LocalCpuIntr in shadow
      ensures old(dev.faults) <= dev.faults
    {
      hide WorldOk, Accounted, FifoSafe, LookAheadFresh;
      var _ := UnmaskInterrupts({LocalCpuIntr});
      cpuInterrupt := false;
    }

    // ----- receiving -----

    /** Hcd_GetLookAhead. The assert that a lookahead is never zero holds, because
        the device queues no frame whose first four bytes are. */
    method GetLookAhead() returns (ok: bool)
      requires Valid() && lookAhead == NO_LOOKAHEAD
      modifies this`lookAhead, this`readBufferSpace,
               dev`faults, dev`rxShown, dev`fifoUsed, dev`inFlight, dev`returned, dev`rxFrames, dev`queued, dev`announced,
               dev`intrCause
      ensures Valid()
      ensures ok || old(dev.faults) < dev.faults
      ensures ok ==> (lookAhead == NO_LOOKAHEAD <==> readBufferSpace < 4)
      ensures ok ==> dev.rxShown == old(dev.rxShown) + [readBufferSpace as nat]
      ensures old(dev.faults) <= dev.faults
    {
      hide Valid;
      PauseDevice();
      var bytesAvail;
      ok, bytesAvail := dev.ReadRxAvailable();
      if !ok {
        return;
      }
      readBufferSpace := bytesAvail;
      if bytesAvail < 4 {
        return;
      }
      ok := AssembleLookAhead();
    }

    /** The two halves of the lookahead, put together byte by byte. */
    method AssembleLookAhead() returns (ok: bool)
      requires Valid() && lookAhead == NO_LOOKAHEAD && dev.rxFrames != []
      modifies this`lookAhead, dev`faults
      ensures Valid()
      ensures ok ==> lookAhead != NO_LOOKAHEAD
      ensures ok || old(dev.faults) < dev.faults
      ensures old(dev.faults) <= dev.faults
    {
      hide CreditsExact, Announced, AllPriced, IrqsOk, Accounted, FifoSafe, OneTransfer, ParkedOnlyInTransfer,
           WireFollows, Deliveries;
      var lookAhead1, lookAhead2;
      ok, lookAhead1 := dev.ReadLookAheadWord(0);
      if !ok {
        return;
      }
      ok, lookAhead2 := dev.ReadLookAheadWord(1);
      if !ok {
        return;
      }
      var assembled := [lookAhead1[0], lookAhead1[1], lookAhead2[0], lookAhead2[1]];
      assert assembled == LookAheadOf(dev.rxFrames[0]) && WellSized(dev.rxFrames[0]);
      assert assembled != NO_LOOKAHEAD;
      lookAhead := assembled;
    }

    method PauseDevice()
      requires Valid()
      modifies dev`fifoUsed, dev`inFlight, dev`returned, dev`rxFrames, dev`queued, dev`announced, dev`intrCause
      ensures Valid() && old(dev.rxFrames) <= dev.rxFrames
      ensures old(dev.intrCause) <= dev.intrCause
    {
      hide WorldOk, IrqsOk, Accounted, OneTransfer, ParkedOnlyInTransfer;
      DeviceMoves();
    }

    /** What Driver_RxReady establishes: the bus is free and the lookahead of the
        next frame is at hand. */
    ghost predicate ReadyToReceive()
      reads this`fatal, this`dmaInProg, this`dmaComplete, this`pendingIrqAcks, this`lookAhead
    {
      !fatal && !dmaInProg && !dmaComplete && pendingIrqAcks && lookAhead != NO_LOOKAHEAD
    }

    /** What the receive side found about the host and the device, from the state in
        which it began. */
    ghost predicate Found(v: RxView, held: LookAhead, heldAvailable: nat, shown: seq<nat>)
      reads dev`rxShown
    {
      Listening(v) ==> LookedAt(v.lookAhead, v.available, held, heldAvailable, shown)
    }

    /** Driver_RxReady. */
    method RxReady() returns (ready: bool, ghost v: RxView)
      requires !halted && Valid()
      modifies this`halted, this`shadow, this`pendingIrqAcks, this`lookAhead, this`readBufferSpace, this`haveRxReq,
               this`rxBufferStatus, this`irqDetected,
               this`txQueue, this`submitted, this`dmaInProg, this`dmaComplete, this`rxDenials, dev`faults,
               dev`causeShown, dev`rxShown, dev`intrEnable,
               dev`enableInDoubt,
               dev`fifoUsed, dev`inFlight, dev`returned, dev`rxFrames, dev`queued, dev`announced, dev`intrCause
      ensures !halted ==> Valid() && (ready ==> ReadyToReceive() && haveRxReq && Receivable(v))
      ensures halted ==> old(dev.faults) < dev.faults
      ensures old(dev.faults) <= dev.faults
      ensures !halted && ready ==> lookAhead == v.lookAhead && dev.rxFrames != [] && v.lookAhead <= dev.rxFrames[0]
      ensures v.fatal == fatal && v.busy == old(dmaInProg || dmaComplete) && v.pending == old(pendingIrqAcks)
      ensures old(haveRxReq) ==> v.buffer
      ensures !v.fatal && !v.busy && v.pending && !v.buffer ==> !rxBufferStatus && !haveRxReq
      ensures !halted && dev.faults == old(dev.faults) ==>
                (ready <==> Receivable(v)) && Found(v, old(lookAhead), old(readBufferSpace), old(dev.rxShown))
      ensures !halted && dev.faults == old(dev.faults) && Listening(v) ==>
                && (v.lookAhead != NO_LOOKAHEAD ==> dev.rxFrames != [] && v.lookAhead <= dev.rxFrames[0])
                && (v.lookAhead == NO_LOOKAHEAD ==> !pendingIrqAcks && PktAvail in shadow)
                && (Buffered(v) && !v.allotted ==> !rxBufferStatus || old(rxDenials) < rxDenials)
    {
      hide Valid, LookAheadPayload, LookedAt;
      ready := false;
      v := RxView(fatal, dmaInProg || dmaComplete, pendingIrqAcks, haveRxReq, NO_LOOKAHEAD, 0, false);
      if fatal || dmaInProg || dmaComplete || !pendingIrqAcks {
        return;
      }
      var _ := Pause();
      v := v.(buffer := rxBufferStatus || haveRxReq);
      if !rxBufferStatus && !haveRxReq {
        return;
      }
      var ok := AckPacketInterrupt();
      if ok {
        ghost var la;
        ok, la := FindFrame();
        v := v.(lookAhead := la, available := readBufferSpace);
        if ok && !halted {
          ready := GetRxRequest();
          v := v.(allotted := haveRxReq);
        }
      }
    }

    /** Clears the packet interrupt's cause, if it is set. */
    method AckPacketInterrupt() returns (ok: bool)
      requires Valid()
      modifies dev`faults, dev`causeShown, dev`fifoUsed, dev`inFlight, dev`returned, dev`rxFrames, dev`queued, dev`announced,
               dev`intrCause
      ensures Valid()
      ensures ok || old(dev.faults) < dev.faults
      ensures ok ==> dev.intrCause == dev.causeShown - {PktAvail}
      ensures old(dev.intrCause) - {PktAvail} <= dev.intrCause
      ensures old(dev.faults) <= dev.faults
    {
      hide Valid;
      PauseDevice();
      var irqs;
      ok, irqs := dev.ReadCause();
      if ok && PktAvail in irqs {
        ok := dev.AckCause({PktAvail});
      }
    }

    /** The lookahead, fetched if there is none, is `la`; when the device has nothing more
        to read, its packet interrupt is unmasked again. */
    method FindFrame() returns (found: bool, ghost la: LookAhead)
      requires !halted && Valid() && pendingIrqAcks
      modifies this`halted, this`shadow, this`pendingIrqAcks, this`lookAhead, this`readBufferSpace, dev`faults, dev`rxShown,
               dev`intrEnable, dev`enableInDoubt,
               dev`fifoUsed, dev`inFlight, dev`returned, dev`rxFrames, dev`queued, dev`announced, dev`intrCause
      ensures !halted ==> Valid()
      ensures !halted ==> LookedAt(la, readBufferSpace, old(lookAhead), old(readBufferSpace), old(dev.rxShown))
      ensures !halted && la != NO_LOOKAHEAD ==> dev.rxFrames != [] && la <= dev.rxFrames[0] && pendingIrqAcks
      ensures !halted && la == NO_LOOKAHEAD ==> !pendingIrqAcks && PktAvail in shadow
      ensures !halted ==> lookAhead == if found then la else NO_LOOKAHEAD
      ensures !halted ==> (found <==> la != NO_LOOKAHEAD && HDR_LENGTH <= readBufferSpace && LookAheadPayload(la) <= readBufferSpace)
      ensures halted ==> old(dev.faults) < dev.faults
      ensures old(dev.faults) <= dev.faults
    {
      hide Valid;
      found := false;
      if lookAhead == NO_LOOKAHEAD {
        var ok := GetLookAhead();
        if !ok {
          halted := true;
          return false, lookAhead;
        }
      }
      la := lookAhead;
      LookAheadIsFresh();
      if lookAhead == NO_LOOKAHEAD {
        RearmPacketInterrupt();
      } else if readBufferSpace < HDR_LENGTH || readBufferSpace < LookAheadPayload(lookAhead) {
        DropLookAhead();
      } else {
        found := true;
      }
    }

    /** The lookahead and the count of buffered bytes are the ones that were held, or,
        if none was, those that the device showed now. */
    ghost predicate LookedAt(la: LookAhead, available: nat, held: LookAhead, heldAvailable: nat, shown: seq<nat>)
      reads dev`rxShown
    {
      if held != NO_LOOKAHEAD then la == held && available == heldAvailable
      else dev.rxShown == shown + [available] && (la == NO_LOOKAHEAD <==> available < 4)
    }

    lemma LookAheadIsFresh()
      requires Valid()
      ensures lookAhead != NO_LOOKAHEAD ==> dev.rxFrames != [] && lookAhead <= dev.rxFrames[0]
    {
    }

    method DropLookAhead()
      requires Valid()
      modifies this`lookAhead
      ensures Valid() && lookAhead == NO_LOOKAHEAD
    {
      hide WorldOk, IrqsOk, FifoSafe, Accounted, OneTransfer, ParkedOnlyInTransfer, WireFollows, Deliveries;
      lookAhead := NO_LOOKAHEAD;
    }

    method RearmPacketInterrupt()
      requires Valid() && pendingIrqAcks
      modifies this`shadow, this`pendingIrqAcks, dev`faults, dev`intrEnable, dev`enableInDoubt
      ensures Valid() && !pendingIrqAcks && PktAvail in shadow
      ensures old(dev.faults) <= dev.faults
    {
      hide WorldOk, Accounted, FifoSafe, LookAheadFresh;
      pendingIrqAcks := false;
      var _ := UnmaskInterrupts({PktAvail});
    }

    /** A buffer for the frame, unless one is left from before. */
    method GetRxRequest() returns (ready: bool)
      requires Valid() && !dmaInProg && !dmaComplete
      modifies this`haveRxReq, this`rxBufferStatus, this`irqDetected, this`txQueue, this`submitted, this`dmaInProg,
               this`dmaComplete, this`rxDenials,
               dev`fifoUsed, dev`inFlight, dev`returned, dev`rxFrames, dev`queued, dev`announced, dev`intrCause
      ensures Valid() && !dmaInProg && !dmaComplete && (ready <==> haveRxReq) && (old(haveRxReq) ==> ready)
      ensures !ready ==> !rxBufferStatus || old(rxDenials) < rxDenials
      ensures ready && !old(haveRxReq) ==> rxBufferStatus
      ensures old(dev.rxFrames) <= dev.rxFrames
    {
      hide WorldOk, IrqsOk, FifoSafe, LookAheadFresh, OneTransfer, ParkedOnlyInTransfer, Accounted;
      var _ := Pause();
      if !haveRxReq && rxBufferStatus {
        AskForBuffer();
      }
      ready := haveRxReq;
    }

    /** CUSTOM_DRIVER_GET_RX_REQ; whether there is a buffer is up to the system. */
    method AskForBuffer()
      modifies this`haveRxReq, this`rxDenials
      ensures rxDenials == old(rxDenials) + if haveRxReq then 0 else 1
    {
      haveRxReq := *;
      rxDenials := rxDenials + if haveRxReq then 0 else 1;
    }

    /** Nothing of the transmit side is under way; receiving does not touch it. */
    ghost predicate TxSettled()
      reads this`txQueue, this`submitted, this`completed, this`purged, this`charged, this`writeBufferSpace,
            dev`fifoUsed, dev`inFlight, dev`wire
    {
      AllPriced(txQueue) && FifoSafe() && Accounted([]) && WireFollows(completed) && dev.inFlight == 0
    }

    /** A frame was taken off the device and is not yet taken apart. */
    ghost predicate Taken(f: seq<uint8>, since: nat)
      reads this`received, this`delivered, this`reported, dev`queued, dev`rxFrames, dev`announced, dev`faults
    {
      && WellSized(f) && (Courteous(f) || since < dev.faults)
      && (forall g :: g in dev.rxFrames ==> |g| >= HDR_LENGTH) && |reported| == |dev.announced| == MANAGED_MAX
      && Announced([f] + dev.rxFrames)
      && received != [] && received[|received| - 1] == f && dev.queued == received + dev.rxFrames
      && delivered == Deliveries(received[..|received| - 1])
    }

    ghost predicate Holding(f: seq<uint8>, since: nat)
      reads this, ep, dev
    {
      && Shaped() && CreditsExact() && TxSettled() && Taken(f, since) && IrqsOk()
      && !dmaInProg && dmaComplete && irqMask == {}
      && current.Some? && current.value.Rx? && current.value.lookAhead == LookAheadOf(f) && f <= current.value.bytes
    }

    lemma Pieces()
      requires Valid() && current.None?
      ensures Shaped() && CreditsExact() && (!dmaInProg ==> TxSettled()) && IrqsOk()
      ensures dev.queued == received + dev.rxFrames && delivered == Deliveries(received)
      ensures (forall g :: g in dev.rxFrames ==> |g| >= HDR_LENGTH) && Announced(dev.rxFrames)
    {
      hide CreditsExact, Announced, AllPriced, Accounted, FifoSafe, IrqsOk, WireFollows;
      assert completed + InHand() == completed;
    }

    /** After the transfer the frame at the front counts as received. */
    lemma FrontIsTaken(f: seq<uint8>, frames: seq<seq<uint8>>, before: seq<seq<uint8>>, since: nat)
      requires dev.Valid() && |reported| == MANAGED_MAX && WellSized(f) && (Courteous(f) || since < dev.faults)
      requires frames == [f] + dev.rxFrames && (forall g :: g in frames ==> |g| >= HDR_LENGTH) && Announced(frames)
      requires dev.queued == before + frames && received == before + [f] && delivered == Deliveries(before)
      ensures Taken(f, since)
    {
      hide Announced, WellSized, Courteous, Deliveries;
      assert received[..|received| - 1] == before;
      assert before + ([f] + dev.rxFrames) == (before + [f]) + dev.rxFrames;
      assert forall g :: g in dev.rxFrames ==> g in frames;
    }

    lemma FrontIsAnnounced()
      requires Valid() && lookAhead != NO_LOOKAHEAD
      ensures dev.rxFrames != [] && dev.rxFrames == [dev.rxFrames[0]] + dev.rxFrames[1..]
      ensures WellSized(dev.rxFrames[0]) && lookAhead == LookAheadOf(dev.rxFrames[0])
      ensures RecvLength(lookAhead) as int >= |dev.rxFrames[0]|
    {
      hide CreditsExact, Announced, Accounted, FifoSafe, IrqsOk, AllPriced;
      assert WellSized(dev.rxFrames[0]);
      BufferHoldsFrame(dev.rxFrames[0]);
    }

    /** Driver_RecvPacket: takes the frame that the lookahead announced. */
    method RecvPacket() returns (status: Status)
      requires !halted && Valid() && ReadyToReceive()
      modifies this`shadow, this`irqMask, this`current, this`dmaInProg, this`dmaComplete, this`haveRxReq,
               this`received, dev`faults, dev`dmaSize, dev`intrEnable, dev`enableInDoubt, dev`rxFrames
      ensures !haveRxReq && (status == Ok || old(dev.faults) < dev.faults)
      ensures status == Ok ==>
                && old(dev.rxFrames) != [] && dev.rxFrames == old(dev.rxFrames)[1..]
                && Holding(old(dev.rxFrames)[0], old(dev.faults)) && received == old(received) + [old(dev.rxFrames)[0]]
      ensures old(dev.faults) <= dev.faults
    {
      hide Valid, Shaped, CreditsExact, TxSettled, IrqsOk, Taken, Holding, Announced, WellSized, RecvLength, Deliveries;
      NothingCurrent();
      FrontIsAnnounced();
      Pieces();
      var bytes;
      haveRxReq := false;
      status, bytes := TakeFrame(RecvLength(lookAhead));
      PostProcessRequest(Rx(lookAhead, bytes), status);
      if status == Ok {
        NowHolding(old(dev.rxFrames)[0], old(dev.faults));
      }
    }

    /** The transfer of a received frame. */
    method TakeFrame(length: nat) returns (status: Status, bytes: seq<uint8>)
      requires Shaped() && CreditsExact() && TxSettled() && IrqsOk() && irqMask == {} && !fatal
      requires dev.rxFrames != [] && length >= |dev.rxFrames[0]| && WellSized(dev.rxFrames[0])
      requires (forall g :: g in dev.rxFrames ==> |g| >= HDR_LENGTH) && Announced(dev.rxFrames)
      requires dev.queued == received + dev.rxFrames && delivered == Deliveries(received)
      modifies this`shadow, this`irqMask, this`dmaInProg, this`received, dev`faults, dev`dmaSize, dev`intrEnable,
               dev`enableInDoubt, dev`rxFrames
      ensures status == Ok || old(dev.faults) < dev.faults
      ensures status == Ok ==>
                && dev.rxFrames == old(dev.rxFrames)[1..] && old(dev.rxFrames)[0] <= bytes
                && Shaped() && CreditsExact() && TxSettled() && IrqsOk() && Taken(old(dev.rxFrames)[0], old(dev.faults))
                && received == old(received) + [old(dev.rxFrames)[0]]
                && irqMask == {} && dmaInProg == old(dmaInProg)
      ensures old(dev.faults) <= dev.faults
    {
      hide CreditsExact, Announced, IrqsOk, WellSized, Deliveries, Courteous, TxSettled, Taken;
      status, bytes := RequestRead(length);
      if status == Ok {
        received := received + [old(dev.rxFrames)[0]];
        assert old(dev.rxFrames) == [old(dev.rxFrames)[0]] + dev.rxFrames;
        FrontIsTaken(old(dev.rxFrames)[0], old(dev.rxFrames), old(received), old(dev.faults));
      }
    }

    lemma NowHolding(f: seq<uint8>, since: nat)
      requires Shaped() && CreditsExact() && TxSettled() && Taken(f, since) && IrqsOk()
      requires !dmaInProg && dmaComplete && irqMask == {}
      requires current.Some? && current.value.Rx? && current.value.lookAhead == LookAheadOf(f) && f <= current.value.bytes
      ensures Holding(f, since)
    {
    }

    /** Its completion in Driver_Main; the next lookahead is read afresh. */
    method FinishReceive(ghost f: seq<uint8>, ghost since: nat)
      requires !halted && Holding(f, since)
      modifies ep, this`lookAhead, this`halted, this`shadow, this`irqMask, this`current, this`dmaComplete,
               this`reported, this`delivered, dev`faults, dev`intrEnable, dev`enableInDoubt
      ensures !halted ==> Valid() && current.None? && lookAhead == NO_LOOKAHEAD && delivered == old(delivered) + DeliveredBy(f)
      ensures halted <==> !Courteous(f)
      ensures halted ==> since < dev.faults
      ensures old(dev.faults) <= dev.faults
    {
      hide CreditsExact, Announced, TxSettled, IrqsOk, Taken, DeliveredBy, Deliveries, WellSized, Courteous, Shaped, LookAheadOf, Sound, Valid;
      TakenIsFramed(f, since);
      lookAhead := NO_LOOKAHEAD;
      CompleteRx(current.value.lookAhead, current.value.bytes, f, since);
      current := None;
      dmaComplete := false;
      if !halted {
        Resume();
      }
    }

    lemma TakenIsFramed(f: seq<uint8>, since: nat)
      requires Taken(f, since)
      ensures |f| >= HDR_LENGTH && (Courteous(f) || since < dev.faults)
    {
    }

    lemma Resume()
      requires Shaped() && CreditsExact() && TxSettled() && IrqsOk() && Announced(dev.rxFrames)
      requires dev.queued == received + dev.rxFrames && delivered == Deliveries(received)
      requires !dmaInProg && !dmaComplete && irqMask == {} && current.None? && lookAhead == NO_LOOKAHEAD
      ensures Valid()
    {
      hide Shaped, CreditsExact, Announced, AllPriced, Accounted, FifoSafe, IrqsOk, WireFollows;
      assert completed + InHand() == completed;
    }

    /** The receiving part of Driver_Main. A receive that is not finished at once
        is an assert. */
    method ReceiveOne()
      requires !halted && Valid() && ReadyToReceive()
      modifies ep, this`halted, this`shadow, this`irqMask, this`current, this`dmaInProg, this`dmaComplete,
               this`lookAhead, this`haveRxReq,
               this`reported, this`received, this`delivered, dev`faults, dev`dmaSize, dev`intrEnable, dev`enableInDoubt,
               dev`rxFrames
      ensures !halted ==>
                && Valid() && current.None? && lookAhead == NO_LOOKAHEAD
                && old(dev.rxFrames) != [] && dev.rxFrames == old(dev.rxFrames)[1..]
                && received == old(received) + [old(dev.rxFrames)[0]]
                && delivered == old(delivered) + DeliveredBy(old(dev.rxFrames)[0])
                && Courteous(old(dev.rxFrames)[0]) && !haveRxReq
      ensures halted ==> old(dev.faults) < dev.faults
      ensures old(dev.faults) <= dev.faults
    {
      hide Valid, Holding, DeliveredBy;
      var status := RecvPacket();
      if status != Ok {
        halted := true;
        return;
      }
      FinishReceive(old(dev.rxFrames)[0], old(dev.faults));
    }

    // ----- spi_hcd.c: write space and watermark -----

    /** Hcd_RefreshWriteBufferSpace. */
    method RefreshWriteBufferSpace()
      requires Valid() && !dmaInProg
      modifies this`writeBufferSpace, dev`faults, dev`spaceShown, dev`fifoUsed, dev`inFlight, dev`returned, dev`rxFrames,
               dev`queued, dev`announced, dev`intrCause
      ensures Valid()
      ensures old(dev.faults) < dev.faults || writeBufferSpace as int == FIFO_SIZE - dev.fifoUsed
      ensures old(dev.faults) < dev.faults || dev.spaceShown == old(dev.spaceShown) + [writeBufferSpace as nat]
      ensures old(dev.spaceShown) <= dev.spaceShown
      ensures old(dev.faults) <= dev.faults
    {
      hide WorldOk, IrqsOk, Accounted, OneTransfer, ParkedOnlyInTransfer;
      PauseDevice();
      WhileIdle();
      var ok, space := dev.ReadWriteSpace();
      if ok {
        writeBufferSpace := space;
      }
    }

    lemma WhileIdle()
      requires Valid() && !dmaInProg
      ensures dev.Valid() && dev.inFlight == 0
    {
    }

    /** Hcd_ProgramWriteBufferWaterMark. Pending means that the interrupt is armed;
        Ok that the core sleeps, the cache is fresh and no interrupt will come. */
    method ProgramWriteBufferWaterMark(length: uint32) returns (status: Status)
      requires !halted && Valid() && !dmaInProg && !waitForBuffer
      modifies this`halted, this`shadow, this`waitForBuffer, this`writeBufferSpace, dev`faults, dev`spaceShown,
               dev`naps, dev`intrEnable,
               dev`enableInDoubt, dev`watermark,
               dev`fifoUsed, dev`inFlight, dev`returned, dev`rxFrames, dev`queued, dev`announced, dev`intrCause
      ensures halted <==> length == 0 || length > FIFO_SIZE
      ensures !halted ==> Valid()
      ensures status == Pending <==> waitForBuffer
      ensures !halted && status == Pending ==>
                (if length < FIFO_SIZE then dev.watermark + length == FIFO_SIZE else dev.watermark == 1)
      ensures !halted && status == Pending ==> dev.naps < old(dev.naps) + 2
      ensures !halted && status == Ok ==> dev.naps == old(dev.naps) + 2
      ensures !halted && status == Ok ==> dev.watermark == 0 && writeBufferSpace as int == FIFO_SIZE - dev.fifoUsed
      ensures status == Failed ==> halted || old(dev.faults) < dev.faults
      ensures old(dev.faults) <= dev.faults && old(dev.naps) <= dev.naps
      ensures status == Pending ==> writeBufferSpace == old(writeBufferSpace)
      ensures old(dev.spaceShown) <= dev.spaceShown
    {
      hide Valid;
      var level := Wrap32(FIFO_SIZE - length);
      if level < FIFO_SIZE {
        level := if level == 0 then 1 else level;
      } else {
        halted := true;
        return Failed;
      }
      var ok := SetWatermark(level);
      if !ok {
        return Failed;
      }
      var wait;
      status, wait := SampleSleep();
      if status == Ok && wait {
        ArmWatermark();
        status := Pending;
      }
    }

    method SetWatermark(level: nat) returns (ok: bool)
      requires Valid() && !waitForBuffer
      modifies dev`faults, dev`watermark
      ensures Valid() && (ok ==> dev.watermark == level)
      ensures ok || old(dev.faults) < dev.faults
      ensures old(dev.faults) <= dev.faults
    {
      hide WorldOk, Accounted, FifoSafe, LookAheadFresh;
      ok := dev.WriteWatermark(level);
    }

    method ArmWatermark()
      requires Valid() && !waitForBuffer && 1 <= dev.watermark < FIFO_SIZE
      modifies this`shadow, this`waitForBuffer, dev`faults, dev`intrEnable, dev`enableInDoubt
      ensures Valid() && waitForBuffer && WrbufBelowWmark in shadow
      ensures old(dev.faults) <= dev.faults
    {
      hide WorldOk, Accounted, FifoSafe, LookAheadFresh;
      waitForBuffer := true;
      var _ := UnmaskInterrupts({WrbufBelowWmark});
    }

    /** While the core sleeps no watermark interrupt would come: the cache is
        refreshed, the level reset, and nothing is waited for. */
    method SampleSleep() returns (status: Status, wait: bool)
      requires Valid() && !dmaInProg && !waitForBuffer
      modifies this`writeBufferSpace, dev`faults, dev`spaceShown, dev`naps, dev`watermark, dev`fifoUsed,
               dev`inFlight, dev`returned,
               dev`rxFrames, dev`queued, dev`announced, dev`intrCause
      ensures Valid() && status != Pending
      ensures wait ==> dev.watermark == old(dev.watermark)
      ensures status == Ok && !wait ==> dev.watermark == 0 && writeBufferSpace as int == FIFO_SIZE - dev.fifoUsed
      ensures status == Ok || old(dev.faults) < dev.faults
      ensures status == Ok ==> if wait then dev.naps < old(dev.naps) + 2 else dev.naps == old(dev.naps) + 2
      ensures old(dev.faults) <= dev.faults && old(dev.naps) <= dev.naps
      ensures wait ==> writeBufferSpace == old(writeBufferSpace)
      ensures old(dev.spaceShown) <= dev.spaceShown
    {
      hide Valid;
      status, wait := Failed, true;
      var ok, asleep := dev.ReadAsleep();
      if !ok {
        return;
      }
      if asleep {
        ok, asleep := dev.ReadAsleep();
        if !ok {
          return;
        }
        if asleep {
          wait := false;
          ok := CacheAndReset();
          if !ok {
            return;
          }
        }
      }
      status := Ok;
    }

    method CacheAndReset() returns (ok: bool)
      requires Valid() && !dmaInProg && !waitForBuffer
      modifies this`writeBufferSpace, dev`faults, dev`spaceShown, dev`watermark, dev`fifoUsed, dev`inFlight, dev`returned,
               dev`rxFrames, dev`queued, dev`announced, dev`intrCause
      ensures Valid()
      ensures ok ==> dev.watermark == 0 && writeBufferSpace as int == FIFO_SIZE - dev.fifoUsed
      ensures ok || old(dev.faults) < dev.faults
      ensures old(dev.faults) <= dev.faults
      ensures old(dev.spaceShown) <= dev.spaceShown
    {
      hide WorldOk, Accounted, PacketIrqSomewhere, EnableFollowsShadow, LookAheadFresh, OneTransfer,
           ParkedOnlyInTransfer, WireFollows, Deliveries;
      PauseDevice();
      WhileIdle();
      var space;
      ok, space := dev.ReadWriteSpace();
      if ok {
        writeBufferSpace := space;
        ok := ResetWatermark();
      }
    }

    // ----- credits before a transmit -----

    /** Htc_GetCreditCounterUpdate: the pool after the poll is exactly what the
        device's counter register makes of it. */
    method GetCreditCounterUpdate(pool: nat)
      requires !halted && Valid() && pool < MANAGED_MAX
      modifies ep, this`halted, dev`faults, dev`countersShown, dev`fifoUsed, dev`inFlight, dev`returned, dev`rxFrames, dev`queued,
               dev`announced, dev`intrCause
      ensures !halted ==> Valid()
      ensures !halted && creditInit ==>
                |dev.returned| == MANAGED_MAX && ep[..] == old(ep[..])[pool := Polled(old(ep[pool]), dev.returned[pool] % 0x100)]
      ensures !halted ==> if creditInit then PolledNow(old(dev.countersShown)) else dev.countersShown == old(dev.countersShown)
      ensures !halted && creditInit ==> dev.countersShown[|dev.countersShown| - 1][pool] == dev.returned[pool] % 0x100
      ensures !halted && !creditInit ==> ep[..] == old(ep[..])[pool := old(ep[pool]).(intCreditCounter := 0)]
      ensures halted ==> old(dev.faults) < dev.faults
      ensures old(dev.faults) <= dev.faults && |old(dev.countersShown)| <= |dev.countersShown|
    {
      hide WorldOk, IrqsOk, Accounted, FifoSafe, LookAheadFresh, OneTransfer, ParkedOnlyInTransfer, WireFollows, Deliveries;
      if !creditInit {
        ForgetCounter(pool);
        return;
      }
      PauseDevice();
      PollDevice(pool);
    }

    method ForgetCounter(pool: nat)
      requires WorldOk() && pool < MANAGED_MAX
      modifies ep
      ensures WorldOk() && ep[..] == old(ep[..])[pool := old(ep[pool]).(intCreditCounter := 0)]
    {
      hide Balanced;
      CounterFieldIsFree(TheBooks(), pool);
      ep[pool] := ep[pool].(intCreditCounter := 0);
    }

    /** The counters were read once more. */
    ghost predicate PolledNow(before: seq<Counters>)
      reads dev`countersShown
    {
      |dev.countersShown| == |before| + 1 && before < dev.countersShown
    }

    method PollDevice(pool: nat)
      requires !halted && WorldOk() && pool < MANAGED_MAX
      modifies ep, this`halted, dev`faults, dev`countersShown
      ensures !halted ==>
                && WorldOk() && |dev.returned| == MANAGED_MAX
                && ep[..] == old(ep[..])[pool := Polled(old(ep[pool]), dev.returned[pool] % 0x100)]
                && PolledNow(old(dev.countersShown)) && dev.countersShown[|dev.countersShown| - 1][pool] == dev.returned[pool] % 0x100
      ensures halted ==> old(dev.faults) < dev.faults
      ensures old(dev.faults) <= dev.faults && |old(dev.countersShown)| <= |dev.countersShown|
    {
      hide Balanced, Polled;
      var ok, collector := dev.ReadCounters();
      if !ok {
        halted := true;
        return;
      }
      PollBalances(TheBooks(), pool);
      PollEndpoint(ep, pool, collector[pool]);
    }

    // ----- the transmit queue -----

    /** A_NETBUF_DEQUEUE under the queue's lock. */
    method Dequeue() returns (p: Packet)
      requires Valid() && current.None? && txQueue != []
      modifies this`txQueue
      ensures Sound() && Accounted([MessageOf(p)])
      ensures p == old(txQueue)[0] && txQueue == old(txQueue)[1..] && Priced(p)
    {
      hide CreditsExact, Announced, IrqsOk, EachOnce, InOrder, FifoSafe, LookAheadFresh, OneTransfer;
      DequeuingAccounts(submitted, completed, txQueue);
      p := txQueue[0];
      assert p in txQueue;
      txQueue := txQueue[1..];
    }

    /** A_NETBUF_ENQUEUE of a packet that may not be purged. */
    method Requeue(p: Packet)
      requires Sound() && Accounted([MessageOf(p)]) && Priced(p) && purged && current.None?
      modifies this`txQueue
      ensures Valid() && txQueue == old(txQueue) + [p]
    {
      hide CreditsExact, Announced, IrqsOk, EachOnce, InOrder, FifoSafe, LookAheadFresh, OneTransfer;
      RequeuingAccounts(submitted, completed, p, txQueue);
      txQueue := txQueue + [p];
    }

    /** A purged packet goes back to its user. */
    method CompletePurged(p: Packet)
      requires Sound() && Accounted([MessageOf(p)]) && current.None? && purged
      modifies this`shadow, this`irqMask, this`completed, dev`faults, dev`intrEnable, dev`enableInDoubt
      ensures Valid() && completed == old(completed) + [MessageOf(p)]
      ensures old(dev.faults) <= dev.faults
    {
      hide WorldOk, EachOnce, InOrder, FifoSafe, LookAheadFresh;
      CompletingAccounts(submitted, completed, [MessageOf(p)], txQueue);
      SubSeqOfLonger(WireMessages(dev.wire), completed + InHand(), [MessageOf(p)]);
      assert completed + InHand() + [MessageOf(p)] == completed + [MessageOf(p)] + InHand();
      CompleteTx(p);
    }

    /** Appends while a packet is in hand, between the lock sections of the purge. */
    method PauseHolding(ghost m: Message) returns (ghost added: seq<Packet>)
      requires Sound() && Accounted([m]) && current.None?
      modifies this`txQueue, this`submitted, this`dmaInProg, this`dmaComplete, this`irqDetected, this`rxBufferStatus,
               dev`fifoUsed, dev`inFlight, dev`returned, dev`rxFrames, dev`queued, dev`announced, dev`intrCause
      ensures Sound() && Accounted([m])
      ensures txQueue == old(txQueue) + added && submitted == old(submitted) + Messages(added)
    {
      hide WorldOk, EachOnce, InOrder, IrqsOk;
      added := Interfere();
      SubmittingAccounts(old(submitted), completed, [m], old(txQueue), added);
    }

    /** One round of the purge. Without a submission in between it takes one packet
        off the front and either completes it or puts it at the back. */
    method PurgeOne()
      requires Valid() && current.None? && txQueue != [] && purged
      modifies this`txQueue, this`submitted, this`completed, this`shadow, this`irqMask, this`dmaInProg,
               this`dmaComplete, this`irqDetected, this`rxBufferStatus,
               dev`faults, dev`intrEnable, dev`enableInDoubt, dev`fifoUsed, dev`inFlight, dev`returned,
               dev`rxFrames, dev`queued, dev`announced, dev`intrCause
      ensures Valid() && old(submitted) <= submitted && |txQueue| >= |old(txQueue)| - 1
      ensures submitted == old(submitted) ==>
                && txQueue == old(txQueue)[1..] + Kept(old(txQueue)[..1])
                && completed == old(completed) + Messages(Purged(old(txQueue)[..1]))
      ensures old(completed) <= completed
      ensures old(dev.faults) <= dev.faults
    {
      hide Valid, Sound, Accounted;
      ghost var a := Pause();
      var p := Dequeue();
      ghost var b := PauseHolding(MessageOf(p));
      if p.epid > ENDPOINT_1 {
        CompletePurged(p);
      } else {
        Requeue(p);
      }
    }

    /** Driver_DropTxDataPackets: with no submission meanwhile, a stable filter
        that completes every other packet, in order. With submissions no packet
        is lost or doubled, which Valid says. */
    method DropTxDataPackets()
      requires Valid() && current.None?
      modifies this`txQueue, this`submitted, this`completed, this`purged, this`shadow, this`irqMask, this`dmaInProg,
               this`dmaComplete, this`irqDetected, this`rxBufferStatus,
               dev`faults, dev`intrEnable, dev`enableInDoubt, dev`fifoUsed, dev`inFlight, dev`returned,
               dev`rxFrames, dev`queued, dev`announced, dev`intrCause
      ensures Valid() && purged && old(submitted) <= submitted
      ensures submitted == old(submitted) ==>
                && txQueue == Kept(old(txQueue))
                && completed == old(completed) + Messages(Purged(old(txQueue)))
      ensures old(completed) <= completed
      ensures old(dev.faults) <= dev.faults
    {
      hide Sound, Accounted, Kept, Purged, PurgedSoFar;
      PurgeStarts(txQueue, completed);
      var count := |txQueue|;
      NowPurging();
      var i := 0;
      while i < count
        invariant old(dev.faults) <= dev.faults
        invariant 0 <= i <= count == |old(txQueue)| && Valid() && current.None? && purged
        invariant old(submitted) <= submitted && old(completed) <= completed && |txQueue| >= count - i
        invariant submitted == old(submitted) ==> PurgedSoFar(old(txQueue), old(completed), i, txQueue, completed)
      {
        if submitted == old(submitted) {
          PurgeAdvances(old(txQueue), old(completed), i, txQueue, completed);
        }
        PurgeOne();
        i := i + 1;
      }
      if submitted == old(submitted) {
        PurgeEnds(old(txQueue), old(completed), txQueue, completed);
      }
    }

    ghost method NowPurging()
      requires Valid()
      modifies this`purged
      ensures Valid() && purged
    {
      hide WorldOk, IrqsOk, FifoSafe, LookAheadFresh, OneTransfer, ParkedOnlyInTransfer, Follows, EachOnce, InOrder;
      purged := true;
    }

    // ----- driver_main.c: transmit readiness -----

    /** The core was seen asleep twice since it had been seen so `naps` times: nothing
        is waited for, and the cached write space is what the register shows. */
    ghost predicate Asleep(naps: nat)
      reads this`waitForBuffer, this`writeBufferSpace, dev`watermark, dev`fifoUsed, dev`naps
    {
      dev.naps >= naps + 2 && !waitForBuffer && dev.watermark == 0 && writeBufferSpace + dev.fifoUsed == FIFO_SIZE
    }

    /** Why nothing can be sent, with a sleeping core seen and an empty pool polled since
        the registers had been read so often. */
    ghost predicate TxHeldUp(naps: nat, polls: nat)
      reads this`txQueue, this`fatal, this`dmaInProg, this`dmaComplete, this`waitForBuffer, this`writeBufferSpace,
            this`creditDeadlock, ep,
            dev`watermark, dev`fifoUsed, dev`naps, dev`countersShown
    {
      || fatal || dmaInProg || dmaComplete || waitForBuffer || txQueue == [] || Asleep(naps)
      || (ep.Length == MANAGED_MAX && (creditInit ==> |dev.countersShown| > polls)
          && exists p :: 0 <= p < MANAGED_MAX && ep[p].credits == 0 && (creditDeadlock || PoolOf(txQueue[0].epid) == p))
    }

    lemma HeldUpSince(naps0: nat, polls0: nat, naps: nat, polls: nat)
      requires TxHeldUp(naps, polls) && naps0 <= naps && polls0 <= polls
      ensures TxHeldUp(naps0, polls0)
    {
    }

    /** Nothing but credits keeps the packet at the front. */
    ghost predicate FrontLacksCredit()
      reads this`txQueue, this`fatal, this`dmaInProg, this`dmaComplete, this`waitForBuffer, ep
    {
      && txQueue != [] && !fatal && !dmaInProg && !dmaComplete && !waitForBuffer
      && ep.Length == MANAGED_MAX && ep[PoolOf(txQueue[0].epid)].credits == 0
    }

    /** What Driver_TxReady establishes for the packet at the front. */
    ghost predicate ReadyToSend()
      reads this`txQueue, this`fatal, this`dmaInProg, this`dmaComplete, this`waitForBuffer, this`writeBufferSpace, ep
    {
      && txQueue != [] && !fatal && !dmaInProg && !dmaComplete && !waitForBuffer
      && ep.Length == MANAGED_MAX && ep[PoolOf(txQueue[0].epid)].credits > 0
      && Padded(|txQueue[0].frame|) <= CREDIT_SIZE && HasRoom(txQueue[0])
    }

    /** The credit part of Driver_TxReady: an empty pool is polled, and when that
        does not help and nothing can be received, data packets are purged. */
    method CheckCredits(pool: nat) returns (ok: bool)
      requires !halted && Valid() && current.None? && pool < MANAGED_MAX
      modifies ep, this`halted, this`creditDeadlock, this`creditDeadlockCounter,
               this`txQueue, this`submitted, this`completed, this`purged, this`shadow, this`irqMask, this`dmaInProg,
               this`dmaComplete, this`irqDetected, this`rxBufferStatus,
               dev`faults, dev`countersShown, dev`intrEnable, dev`enableInDoubt, dev`fifoUsed, dev`inFlight, dev`returned,
               dev`rxFrames, dev`queued, dev`announced, dev`intrCause
      ensures !halted ==> Valid()
      ensures !halted && ok ==> ep.Length == MANAGED_MAX && ep[pool].credits > 0 && unchanged(`txQueue, `shadow, `dmaInProg, `dmaComplete, `rxBufferStatus)
      ensures ok || old(creditDeadlockCounter) < MAX_CREDIT_DEADLOCK_ATTEMPTS ==> unchanged(`completed, `purged, `creditDeadlockCounter)
      ensures ep.Length == MANAGED_MAX
      ensures !halted && old(ep[pool].credits) != 0 ==> ok && ep[..] == old(ep[..])
      ensures !halted && old(ep[pool].credits) == 0 && !creditInit ==> !ok
      ensures !halted && old(ep[pool].credits) == 0 && creditInit ==>
                && PolledNow(old(dev.countersShown))
                && ep[..] == old(ep[..])[pool := Polled(old(ep[pool]), dev.countersShown[|dev.countersShown| - 1][pool])]
      ensures ok || old(rxBufferStatus) ==> unchanged(`creditDeadlock, `creditDeadlockCounter, `txQueue, `completed, `purged)
      ensures !halted && !ok && !old(rxBufferStatus) ==> creditDeadlock
      ensures !halted && !ok && !old(rxBufferStatus) && old(creditDeadlockCounter) >= MAX_CREDIT_DEADLOCK_ATTEMPTS ==>
                Purging(old(submitted), old(txQueue), old(completed))
      ensures creditDeadlockCounter == 0 || unchanged(`creditDeadlockCounter)
      ensures old(submitted) <= submitted && |old(dev.countersShown)| <= |dev.countersShown|
      ensures halted ==> old(dev.faults) < dev.faults
      ensures !halted && !ok ==> ep.Length == MANAGED_MAX && ep[pool].credits == 0 && (creditDeadlock || txQueue == old(txQueue))
      ensures old(completed) <= completed
      ensures old(dev.faults) <= dev.faults
    {
      hide Valid;
      ok := true;
      EndpointsExist();
      if ep[pool].credits == 0 {
        GetCreditCounterUpdate(pool);
        if halted {
          return;
        }
        if ep[pool].credits == 0 {
          ok := false;
          if !rxBufferStatus {
            DetectDeadlock();
          }
        }
      }
    }

    /** The purge has run: without a submission meanwhile the data packets, and only
        they, were completed unsent. */
    ghost predicate Purging(submitted0: seq<Message>, queue: seq<Packet>, completed0: seq<Message>)
      reads this`purged, this`creditDeadlockCounter, this`submitted, this`txQueue, this`completed
    {
      && purged && creditDeadlockCounter == 0
      && (submitted == submitted0 ==> txQueue == Kept(queue) && completed == completed0 + Messages(Purged(queue)))
    }

    lemma EndpointsExist()
      requires Valid()
      ensures ep.Length == MANAGED_MAX
    {
    }

    method DetectDeadlock()
      requires Valid() && current.None?
      modifies this`creditDeadlock, this`creditDeadlockCounter,
               this`txQueue, this`submitted, this`completed, this`purged, this`shadow, this`irqMask, this`dmaInProg,
               this`dmaComplete, this`irqDetected, this`rxBufferStatus,
               dev`faults, dev`intrEnable, dev`enableInDoubt, dev`fifoUsed, dev`inFlight, dev`returned,
               dev`rxFrames, dev`queued, dev`announced, dev`intrCause
      ensures Valid() && creditDeadlock
      ensures old(creditDeadlockCounter) < MAX_CREDIT_DEADLOCK_ATTEMPTS ==> unchanged(`txQueue, `completed, `purged, `creditDeadlockCounter)
      ensures old(creditDeadlockCounter) >= MAX_CREDIT_DEADLOCK_ATTEMPTS ==> Purging(old(submitted), old(txQueue), old(completed))
      ensures old(submitted) <= submitted
      ensures old(completed) <= completed
      ensures old(dev.faults) <= dev.faults
    {
      hide Valid;
      creditDeadlock := true;
      if creditDeadlockCounter >= MAX_CREDIT_DEADLOCK_ATTEMPTS {
        DropTxDataPackets();
        creditDeadlockCounter := 0;
      }
    }

    /** The space part: a cached value that is too small is refreshed, and when
        there is no room the watermark is programmed. */
    method CheckSpace(p: Packet) returns (ok: bool)
      requires !halted && Valid() && !dmaInProg && !dmaComplete && !waitForBuffer && Padded(|p.frame|) <= CREDIT_SIZE
      modifies this`halted, this`shadow, this`waitForBuffer, this`writeBufferSpace, dev`faults, dev`spaceShown,
               dev`naps, dev`intrEnable,
               dev`enableInDoubt, dev`watermark,
               dev`fifoUsed, dev`inFlight, dev`returned, dev`rxFrames, dev`queued, dev`announced, dev`intrCause
      ensures !halted && Valid()
      ensures ok ==> !waitForBuffer && HasRoom(p)
      ensures waitForBuffer ==> dev.watermark + Padded(|p.frame|) == FIFO_SIZE && dev.naps < old(dev.naps) + 2
      ensures ok || waitForBuffer || old(dev.faults) < dev.faults || Asleep(old(dev.naps))
      ensures old(dev.faults) <= dev.faults && old(dev.naps) <= dev.naps
      ensures old(HasRoom(p)) ==> ok
      ensures dev.faults == old(dev.faults) && !old(HasRoom(p)) ==>
                && |dev.spaceShown| > |old(dev.spaceShown)|
                && (ok <==> Padded(|p.frame|) + WRBUF_RSVD_BYTES <= dev.spaceShown[|old(dev.spaceShown)|])
      ensures dev.faults == old(dev.faults) && !ok && HasRoom(p) ==> !waitForBuffer && Asleep(old(dev.naps))
    {
      hide Valid;
      ok := true;
      PaddedBlock(|p.frame|);
      var length := Padded(|p.frame|);
      if writeBufferSpace < length + WRBUF_RSVD_BYTES {
        RefreshWriteBufferSpace();
        if writeBufferSpace < length + WRBUF_RSVD_BYTES {
          var _ := ProgramWriteBufferWaterMark(length);
          ok := false;
        }
      }
    }

    /** The request at the front is longer than a credit, which is an assert. */
    predicate OversizeFront()
      reads this`txQueue
    {
      txQueue != [] && CREDIT_SIZE < Padded(|txQueue[0].frame|)
    }

    /** Driver_TxReady. `buffers` is the state of the receive buffers when the credits
        are checked. */
    method TxReady() returns (ready: bool, ghost buffers: bool)
      requires !halted && Valid()
      modifies ep, this`halted, this`creditDeadlock, this`creditDeadlockCounter,
               this`waitForBuffer, this`writeBufferSpace, this`txQueue, this`submitted, this`completed, this`purged,
               this`shadow, this`irqMask, this`dmaInProg, this`dmaComplete, this`irqDetected, this`rxBufferStatus,
               dev`faults, dev`spaceShown, dev`naps, dev`countersShown, dev`intrEnable, dev`enableInDoubt,
               dev`watermark, dev`fifoUsed, dev`inFlight,
               dev`returned, dev`rxFrames, dev`queued, dev`announced, dev`intrCause
      ensures !halted ==> Valid()
      ensures !halted && ready ==> ReadyToSend() && current.None?
      ensures halted ==> old(dev.faults) < dev.faults || OversizeFront()
      ensures !halted && !ready ==> old(dev.faults) < dev.faults || TxHeldUp(old(dev.naps), |old(dev.countersShown)|)
      ensures old(completed) <= completed
      ensures old(dev.faults) <= dev.faults && old(dev.naps) <= dev.naps && |old(dev.countersShown)| <= |dev.countersShown|
      ensures !halted && !ready && dev.faults == old(dev.faults) && ReadyToSend() && !creditDeadlock ==> Asleep(old(dev.naps))
      ensures buffers || old(creditDeadlockCounter) < MAX_CREDIT_DEADLOCK_ATTEMPTS ==> unchanged(`completed, `purged)
      ensures creditDeadlock ==> !buffers
      ensures !halted && !ready && !buffers && FrontLacksCredit() ==> creditDeadlock
      ensures !halted && creditDeadlock && old(creditDeadlockCounter) >= MAX_CREDIT_DEADLOCK_ATTEMPTS ==>
                Purging(old(submitted), old(txQueue), old(completed))
      ensures !halted ==> creditDeadlockCounter == 0 || (!ready && creditDeadlockCounter == old(creditDeadlockCounter))
      ensures creditDeadlock && old(creditDeadlockCounter) < MAX_CREDIT_DEADLOCK_ATTEMPTS ==>
                creditDeadlockCounter == old(creditDeadlockCounter)
    {
      hide Valid, Padded, PoolOf, Purging, Asleep;
      ready, creditDeadlock, buffers := false, false, true;
      if fatal {
        return;
      }
      var added := Pause();
      buffers := rxBufferStatus;
      if dmaInProg || dmaComplete || waitForBuffer || txQueue == [] {
        return;
      }
      NothingCurrent();
      if CREDIT_SIZE < Padded(|txQueue[0].frame|) {
        halted := true;
        return;
      }
      ready := FrontReady();
      if !halted && creditDeadlock && old(creditDeadlockCounter) >= MAX_CREDIT_DEADLOCK_ATTEMPTS {
        PurgingSinceBefore(old(submitted), old(txQueue), old(completed), added);
      }
    }

    /** Its last part: credits and space for the packet at the front. */
    method FrontReady() returns (ready: bool)
      requires !halted && Valid() && !fatal && !dmaInProg && !dmaComplete && !waitForBuffer && current.None?
      requires txQueue != [] && Padded(|txQueue[0].frame|) <= CREDIT_SIZE && !creditDeadlock
      modifies ep, this`halted, this`creditDeadlock, this`creditDeadlockCounter,
               this`waitForBuffer, this`writeBufferSpace, this`txQueue, this`submitted, this`completed, this`purged,
               this`shadow, this`irqMask, this`dmaInProg, this`dmaComplete, this`irqDetected, this`rxBufferStatus,
               dev`faults, dev`spaceShown, dev`naps, dev`countersShown, dev`intrEnable, dev`enableInDoubt,
               dev`watermark, dev`fifoUsed,
               dev`inFlight, dev`returned, dev`rxFrames, dev`queued, dev`announced, dev`intrCause
      ensures !halted ==> Valid()
      ensures !halted && ready ==> ReadyToSend() && current.None?
      ensures halted ==> old(dev.faults) < dev.faults
      ensures !halted && !ready ==> old(dev.faults) < dev.faults || TxHeldUp(old(dev.naps), |old(dev.countersShown)|)
      ensures old(completed) <= completed && old(submitted) <= submitted
      ensures old(dev.faults) <= dev.faults && old(dev.naps) <= dev.naps && |old(dev.countersShown)| <= |dev.countersShown|
      ensures !halted && !ready && dev.faults == old(dev.faults) && ReadyToSend() && !creditDeadlock ==> Asleep(old(dev.naps))
      ensures old(rxBufferStatus) || old(creditDeadlockCounter) < MAX_CREDIT_DEADLOCK_ATTEMPTS ==> unchanged(`completed, `purged)
      ensures creditDeadlock ==> !old(rxBufferStatus)
      ensures !halted && !ready && !old(rxBufferStatus) && FrontLacksCredit() ==> creditDeadlock
      ensures !halted && creditDeadlock && old(creditDeadlockCounter) >= MAX_CREDIT_DEADLOCK_ATTEMPTS ==>
                Purging(old(submitted), old(txQueue), old(completed))
      ensures !halted ==> creditDeadlockCounter == 0 || (!ready && creditDeadlockCounter == old(creditDeadlockCounter))
      ensures creditDeadlock && old(creditDeadlockCounter) < MAX_CREDIT_DEADLOCK_ATTEMPTS ==>
                creditDeadlockCounter == old(creditDeadlockCounter)
    {
      hide Valid, Padded, PoolOf, Purging, Asleep;
      var pool := PoolOf(txQueue[0].epid);
      ready := CheckCredits(pool);
      if !halted && ready {
        creditDeadlockCounter := 0;
        ready := CheckSpace(txQueue[0]);
      }
    }

    /** Packets submitted just before the purge are seen in the submissions. */
    lemma PurgingSinceBefore(submitted0: seq<Message>, queue: seq<Packet>, completed0: seq<Message>, added: seq<Packet>)
      requires Purging(submitted0 + Messages(added), queue + added, completed0) && submitted0 + Messages(added) <= submitted
      ensures Purging(submitted0, queue, completed0)
    {
      if submitted == submitted0 {
        assert |Messages(added)| == |added| == 0;
        assert queue + added == queue && submitted0 + Messages(added) == submitted0;
      }
    }

    lemma NothingCurrent()
      requires Valid() && !dmaInProg && !dmaComplete
      ensures current.None? && irqMask == {}
    {
      hide WorldOk, IrqsOk, Accounted, FifoSafe, LookAheadFresh;
    }

    /** The transmitting part of Driver_Main: the packet that was found ready is the
        one dequeued, whatever was appended meanwhile. */
    method SendOneQueued() returns (ghost sent: SendStatus)
      requires Valid() && ReadyToSend() && current.None?
      modifies ep, this`charged, this`current, this`shadow, this`irqMask, this`writeBufferSpace, this`dmaInProg,
               this`dmaComplete,
               this`txQueue, this`submitted, this`irqDetected, this`rxBufferStatus, dev`faults, dev`dmaSize,
               dev`wire, dev`arrived,
               dev`intrEnable, dev`enableInDoubt, dev`fifoUsed, dev`inFlight, dev`returned, dev`rxFrames, dev`queued,
               dev`announced, dev`intrCause
      ensures Valid() && current.Some?
      ensures InHand() == [MessageOf(old(txQueue)[0])] && old(txQueue)[1..] <= txQueue
      ensures sent.Sent? && (dev.wire == old(dev.wire) || OnWireNow(old(dev.wire), old(txQueue)[0], sent))
      ensures dev.wire == old(dev.wire) ==> old(dev.faults) < dev.faults
      ensures old(dev.faults) <= dev.faults
      ensures Unsent() == old(Unsent()) || old(dev.faults) < dev.faults
    {
      hide Sound, Accounted;
      ghost var front := txQueue[0];
      var _ := Pause();
      var p := Dequeue();
      assert p == front;
      sent := SendDequeued(p);
    }

    method SendDequeued(p: Packet) returns (ghost sent: SendStatus)
      requires Sound() && Accounted([MessageOf(p)]) && current.None? && !dmaInProg && !dmaComplete
      requires Priced(p) && Padded(|p.frame|) <= CREDIT_SIZE && HasRoom(p)
      requires ep.Length == MANAGED_MAX && ep[PoolOf(p.epid)].credits > 0
      modifies ep, this`charged, this`current, this`shadow, this`irqMask, this`writeBufferSpace, this`dmaInProg,
               this`dmaComplete,
               dev`faults, dev`dmaSize, dev`intrEnable, dev`enableInDoubt, dev`fifoUsed, dev`inFlight, dev`arrived, dev`wire
      ensures Valid() && current.Some? && InHand() == [MessageOf(p)]
      ensures sent.Sent? && (dev.wire == old(dev.wire) || OnWireNow(old(dev.wire), p, sent))
      ensures dev.wire == old(dev.wire) ==> old(dev.faults) < dev.faults || fatal
      ensures old(dev.faults) <= dev.faults
      ensures dev.wire == old(dev.wire) || Unsent() == old(Unsent())
    {
      hide WorldOk, IrqsOk, FifoSafe, Accounted, LookAheadFresh, Follows, OnWire, Deliveries;
      ghost var before, requests := dev.wire, completed + InHand();
      ghost var books := charged;
      sent := SendPacket(p);
      SendingFollows(before, dev.wire, books, requests, p, sent);
      assert requests + [MessageOf(p)] == completed + InHand();
    }

    // ----- driver_main.c: Driver_Main, and runs of it -----

    /** One pass of the driver task; `seen` is what it found while it ran. */
    method DriverMain(scopeRx: bool, scopeTx: bool, asksToBlock: bool) returns (canBlock: bool, ghost seen: Pass)
      requires !halted && Valid()
      modifies this, ep, dev
      ensures !halted ==> Valid()
      ensures halted ==> old(dev.faults) < dev.faults || OversizeFront()
      ensures !halted && old(dmaComplete) ==> old(completed) + old(InHand()) <= completed
      ensures !halted ==> received == old(received) || (scopeRx && |received| == |old(received)| + 1 && old(received) < received)
      ensures !halted && scopeRx ==>
                && seen.rx.fatal == fatal && (seen.rx.busy ==> old(dmaInProg))
                && (old(pendingIrqAcks) ==> seen.rx.pending) && (old(haveRxReq) ==> seen.rx.buffer)
      ensures !halted && scopeRx && dev.faults == old(dev.faults) ==>
                && (|received| == |old(received)| + 1 <==> Receivable(seen.rx))
                && Found(seen.rx, old(lookAhead), old(readBufferSpace), old(dev.rxShown))
      ensures !halted && received != old(received) ==> seen.rx.lookAhead <= received[|received| - 1]
      ensures !halted && scopeTx && !asksToBlock ==>
                old(dev.faults) < dev.faults || TxHeldUp(old(dev.naps), |old(dev.countersShown)|)
      ensures !halted && canBlock ==> old(dev.faults) < dev.faults || TxHeldUp(old(dev.naps), |old(dev.countersShown)|)
      ensures canBlock ==> asksToBlock && !seen.detected && (!pendingIrqAcks || !seen.buffers)
      ensures !halted && asksToBlock && !canBlock ==>
                (pendingIrqAcks && rxBufferStatus) || irqDetected || dmaComplete || ReadyToSend()
      ensures !halted && (!seen.starved || old(creditDeadlockCounter) < MAX_CREDIT_DEADLOCK_ATTEMPTS) ==>
                purged == old(purged) && (completed == old(completed) || completed == old(completed) + old(InHand()))
      ensures !halted && !(canBlock && creditDeadlock) ==> creditDeadlockCounter == 0 || creditDeadlockCounter == old(creditDeadlockCounter)
      ensures canBlock && creditDeadlock ==>
                creditDeadlockCounter == 1 || creditDeadlockCounter == Wrap32(old(creditDeadlockCounter) as int + 1)
      ensures old(dev.faults) <= dev.faults
      ensures old(dev.wire) <= dev.wire && |dev.wire| <= |old(dev.wire)| + if scopeTx then 1 else 0
      ensures dev.wire != old(dev.wire) ==> InHand() == [ShownMessage(dev.wire[|dev.wire| - 1])]
      ensures Unsent() == old(Unsent()) || old(dev.faults) < dev.faults
    {
      hide Valid, TxHeldUp, InHand, Unsent, OversizeFront, ReadyToSend, Receivable, Found, ShownMessage;
      ghost var v := ServeAndReceive(scopeRx);
      canBlock, seen := false, Pass(v, false, false, false);
      if !halted {
        canBlock, seen := SendAndAnswer(scopeTx, asksToBlock, v);
      }
    }

    /** Its first half: interrupts, a completed transfer, and receiving. */
    method ServeAndReceive(scopeRx: bool) returns (ghost v: RxView)
      requires !halted && Valid()
      modifies ep, this`current, this`irqMask, this`reported, this`received, this`delivered, this`completed,
               this`halted, this`fatal, this`shadow, this`pendingIrqAcks, this`lookAhead, this`readBufferSpace,
               this`haveRxReq, this`rxDenials, this`writeBufferSpace, this`waitForBuffer, this`cpuInterrupt,
               this`txQueue, this`submitted, this`dmaInProg, this`dmaComplete, this`irqDetected, this`rxBufferStatus,
               dev`faults, dev`spaceShown, dev`causeShown, dev`rxShown, dev`dmaSize, dev`intrEnable,
               dev`enableInDoubt, dev`watermark,
               dev`fifoUsed, dev`inFlight, dev`returned, dev`rxFrames, dev`queued, dev`announced, dev`intrCause
      ensures !halted ==> Valid()
      ensures halted ==> old(dev.faults) < dev.faults
      ensures !halted ==> completed == old(completed) + old(InHand()) || (completed == old(completed) && !old(dmaComplete))
      ensures !halted ==> received == old(received) || (scopeRx && |received| == |old(received)| + 1 && old(received) < received)
      ensures !halted && scopeRx ==>
                && v.fatal == fatal && (v.busy ==> old(dmaInProg))
                && (old(pendingIrqAcks) ==> v.pending) && (old(haveRxReq) ==> v.buffer)
      ensures !halted && scopeRx && dev.faults == old(dev.faults) ==>
                && (|received| == |old(received)| + 1 <==> Receivable(v))
                && Found(v, old(lookAhead), old(readBufferSpace), old(dev.rxShown))
      ensures !halted && received != old(received) ==> v.lookAhead <= received[|received| - 1]
      ensures old(dev.faults) <= dev.faults
    {
      hide Valid, InHand, Receivable, Found;
      v := RxView(false, false, false, false, NO_LOOKAHEAD, 0, false);
      ProcessPendingInterrupts();
      if !halted && scopeRx {
        v := ReceivePart();
      }
    }

    /** Its second half: sending, and the answer whether the caller may block. */
    method SendAndAnswer(scopeTx: bool, asksToBlock: bool, ghost rx: RxView) returns (canBlock: bool, ghost seen: Pass)
      requires !halted && Valid()
      modifies ep, this`charged, this`current, this`creditDeadlock, this`creditDeadlockCounter, this`completed,
               this`purged,
               this`halted, this`shadow, this`irqMask, this`writeBufferSpace, this`waitForBuffer,
               this`txQueue, this`submitted, this`dmaInProg, this`dmaComplete, this`irqDetected, this`rxBufferStatus,
               dev`wire, dev`arrived, dev`faults, dev`spaceShown, dev`naps, dev`countersShown, dev`dmaSize, dev`intrEnable,
               dev`enableInDoubt, dev`watermark,
               dev`fifoUsed, dev`inFlight, dev`returned, dev`rxFrames, dev`queued, dev`announced, dev`intrCause
      ensures seen.rx == rx
      ensures !halted ==> Valid()
      ensures halted ==> old(dev.faults) < dev.faults || OversizeFront()
      ensures old(completed) <= completed
      ensures !halted && (canBlock || (scopeTx && !asksToBlock)) ==>
                old(dev.faults) < dev.faults || TxHeldUp(old(dev.naps), |old(dev.countersShown)|)
      ensures canBlock ==> asksToBlock && !seen.detected && (!pendingIrqAcks || !seen.buffers)
      ensures !halted && asksToBlock && !canBlock ==>
                (pendingIrqAcks && rxBufferStatus) || irqDetected || dmaComplete || ReadyToSend()
      ensures !seen.starved || old(creditDeadlockCounter) < MAX_CREDIT_DEADLOCK_ATTEMPTS ==> unchanged(`completed, `purged)
      ensures !halted && !(canBlock && creditDeadlock) ==> creditDeadlockCounter == 0 || creditDeadlockCounter == old(creditDeadlockCounter)
      ensures canBlock && creditDeadlock ==>
                creditDeadlockCounter == 1 || creditDeadlockCounter == Wrap32(old(creditDeadlockCounter) as int + 1)
      ensures old(dev.faults) <= dev.faults
      ensures old(dev.wire) <= dev.wire && |dev.wire| <= |old(dev.wire)| + if scopeTx then 1 else 0
      ensures dev.wire != old(dev.wire) ==> InHand() == [ShownMessage(dev.wire[|dev.wire| - 1])]
      ensures Unsent() == old(Unsent()) || old(dev.faults) < dev.faults
    {
      hide Valid, TxHeldUp, InHand, Unsent, OversizeFront, ReadyToSend, ShownMessage;
      canBlock, seen := false, Pass(rx, false, false, false);
      if scopeTx {
        ghost var buffers := TransmitPart();
        seen := seen.(starved := !buffers);
      }
      if !halted && asksToBlock {
        ghost var detected, buffers, txBuffers;
        ghost var naps, polls := dev.naps, |dev.countersShown|;
        canBlock, detected, buffers, txBuffers := MayBlock();
        if TxHeldUp(naps, polls) {
          HeldUpSince(old(dev.naps), |old(dev.countersShown)|, naps, polls);
        }
        seen := seen.(starved := seen.starved || !txBuffers, detected := detected, buffers := buffers);
      }
    }

    method ReceivePart() returns (ghost v: RxView)
      requires !halted && Valid()
      modifies ep, this`current, this`irqMask, this`reported, this`received, this`delivered,
               this`halted, this`shadow, this`pendingIrqAcks, this`lookAhead, this`readBufferSpace, this`haveRxReq,
               this`rxDenials,
               this`txQueue, this`submitted, this`dmaInProg, this`dmaComplete, this`irqDetected, this`rxBufferStatus,
               dev`faults, dev`causeShown, dev`rxShown, dev`dmaSize, dev`intrEnable, dev`enableInDoubt, dev`watermark,
               dev`fifoUsed, dev`inFlight, dev`returned, dev`rxFrames, dev`queued, dev`announced, dev`intrCause
      ensures !halted ==> Valid()
      ensures halted ==> old(dev.faults) < dev.faults
      ensures !halted ==> received == old(received) || (|received| == |old(received)| + 1 && old(received) < received)
      ensures old(dev.faults) <= dev.faults
      ensures v.fatal == fatal && v.busy == old(dmaInProg || dmaComplete) && v.pending == old(pendingIrqAcks)
      ensures old(haveRxReq) ==> v.buffer
      ensures !halted && dev.faults == old(dev.faults) ==>
                && (|received| == |old(received)| + 1 <==> Receivable(v))
                && Found(v, old(lookAhead), old(readBufferSpace), old(dev.rxShown))
      ensures !halted && received != old(received) ==>
                v.lookAhead <= received[|received| - 1] && Courteous(received[|received| - 1]) && !haveRxReq
      ensures !v.fatal && !v.busy && v.pending && !v.buffer ==> !rxBufferStatus && !haveRxReq
      ensures !halted && dev.faults == old(dev.faults) && Listening(v) && Buffered(v) && !v.allotted ==>
                !rxBufferStatus || old(rxDenials) < rxDenials
    {
      hide Valid, ReadyToReceive, Receivable;
      var ready;
      ready, v := RxReady();
      if !halted && ready {
        ReceiveOne();
      }
    }

    method TransmitPart() returns (ghost buffers: bool)
      requires !halted && Valid()
      modifies ep, this`charged, this`current, this`creditDeadlock, this`creditDeadlockCounter, this`completed,
               this`purged,
               this`halted, this`shadow, this`irqMask, this`writeBufferSpace, this`waitForBuffer,
               this`txQueue, this`submitted, this`dmaInProg, this`dmaComplete, this`irqDetected, this`rxBufferStatus,
               dev`wire, dev`arrived, dev`faults, dev`spaceShown, dev`naps, dev`countersShown, dev`dmaSize,
               dev`intrEnable, dev`enableInDoubt, dev`watermark,
               dev`fifoUsed, dev`inFlight, dev`returned, dev`rxFrames, dev`queued, dev`announced, dev`intrCause
      ensures !halted ==> Valid() && (old(dev.faults) < dev.faults || TxHeldUp(old(dev.naps), |old(dev.countersShown)|))
      ensures halted ==> old(dev.faults) < dev.faults || OversizeFront()
      ensures old(completed) <= completed
      ensures buffers || old(creditDeadlockCounter) < MAX_CREDIT_DEADLOCK_ATTEMPTS ==> unchanged(`completed, `purged)
      ensures creditDeadlock ==> !buffers
      ensures !halted ==> creditDeadlockCounter == 0 || creditDeadlockCounter == old(creditDeadlockCounter)
      ensures old(dev.naps) <= dev.naps && |old(dev.countersShown)| <= |dev.countersShown|
      ensures old(dev.faults) <= dev.faults
      ensures old(dev.wire) <= dev.wire && |dev.wire| <= |old(dev.wire)| + 1
      ensures dev.wire != old(dev.wire) ==> InHand() == [ShownMessage(dev.wire[|dev.wire| - 1])]
      ensures Unsent() == old(Unsent()) || old(dev.faults) < dev.faults
    {
      hide Valid;
      var ready;
      ready, buffers := TxReady();
      if !halted && ready {
        ghost var front := txQueue[0];
        ghost var sent := SendOneQueued();
        if dev.wire != old(dev.wire) {
          OnWireShows(dev.wire[|dev.wire| - 1], front, sent);
        }
        AfterSending(old(dev.naps), |old(dev.countersShown)|);
      }
    }

    /** What was sent holds up the next packet. */
    lemma AfterSending(naps: nat, polls: nat)
      requires Valid() && current.Some?
      ensures TxHeldUp(naps, polls)
    {
      hide WorldOk, IrqsOk, Accounted, FifoSafe, LookAheadFresh;
    }

    /** The conditions under which the caller may sleep; each pass that ends in a
        credit deadlock brings the purge closer. `detected` and `buffers` are the
        interrupt and the receive buffers when they are looked at, `txBuffers` the
        receive buffers when the credits are checked. */
    method MayBlock() returns (canBlock: bool, ghost detected: bool, ghost buffers: bool, ghost txBuffers: bool)
      requires !halted && Valid()
      modifies ep, this`halted, this`creditDeadlock, this`creditDeadlockCounter,
               this`waitForBuffer, this`writeBufferSpace, this`txQueue, this`submitted, this`completed, this`purged,
               this`shadow, this`irqMask, this`dmaInProg, this`dmaComplete, this`irqDetected, this`rxBufferStatus,
               dev`faults, dev`spaceShown, dev`naps, dev`countersShown, dev`intrEnable, dev`enableInDoubt,
               dev`watermark, dev`fifoUsed, dev`inFlight,
               dev`returned, dev`rxFrames, dev`queued, dev`announced, dev`intrCause
      ensures !halted ==> Valid()
      ensures !halted && canBlock ==> !dmaComplete
      ensures canBlock ==> !detected && (!pendingIrqAcks || !buffers)
      ensures old(irqDetected) ==> detected
      ensures halted ==> old(dev.faults) < dev.faults || OversizeFront()
      ensures !halted && canBlock ==> old(dev.faults) < dev.faults || TxHeldUp(old(dev.naps), |old(dev.countersShown)|)
      ensures txBuffers || old(creditDeadlockCounter) < MAX_CREDIT_DEADLOCK_ATTEMPTS ==> unchanged(`completed, `purged)
      ensures !halted && !(canBlock && creditDeadlock) ==> creditDeadlockCounter == 0 || creditDeadlockCounter == old(creditDeadlockCounter)
      ensures canBlock && creditDeadlock ==>
                creditDeadlockCounter == 1 || creditDeadlockCounter == Wrap32(old(creditDeadlockCounter) as int + 1)
      ensures canBlock && creditDeadlock && old(creditDeadlockCounter) < MAX_CREDIT_DEADLOCK_ATTEMPTS ==>
                creditDeadlockCounter as int == old(creditDeadlockCounter) as int + 1
      ensures !halted && !canBlock ==> (pendingIrqAcks && rxBufferStatus) || irqDetected || dmaComplete || ReadyToSend()
      ensures old(completed) <= completed
      ensures old(dev.faults) <= dev.faults
    {
      hide Valid;
      canBlock := false;
      var _ := Pause();
      detected, buffers, txBuffers := irqDetected, rxBufferStatus, true;
      if (pendingIrqAcks && rxBufferStatus) || irqDetected {
        return;
      }
      if txQueue != [] {
        var ready;
        ready, txBuffers := TxReady();
        if halted || ready {
          return;
        }
      }
      if !dmaComplete {
        canBlock := true;
        if creditDeadlock {
          creditDeadlockCounter := Wrap32(creditDeadlockCounter as int + 1);
        }
      }
    }

    /** Any number of passes, with anything that may happen between and within
        them: the invariant holds at the end unless an assert stopped the driver. */
    method Run(passes: nat)
      requires !halted && Valid()
      modifies this, ep, dev
      ensures !halted ==> Valid()
      ensures halted ==> old(dev.faults) < dev.faults || OversizeFront()
      ensures old(dev.faults) <= dev.faults
      ensures old(dev.wire) <= dev.wire
      ensures Unsent() == old(Unsent()) || old(dev.faults) < dev.faults
    {
      hide Valid;
      var left := passes;
      while left > 0 && !halted
        invariant !halted ==> Valid()
        invariant old(dev.faults) <= dev.faults && old(dev.wire) <= dev.wire
        invariant Unsent() == old(Unsent()) || old(dev.faults) < dev.faults
        invariant halted ==> old(dev.faults) < dev.faults || OversizeFront()
      {
        var _ := Pause();
        var scopeRx: bool, scopeTx: bool, asksToBlock: bool := *, *, *;
        var _, _ := DriverMain(scopeRx, scopeTx, asksToBlock);
        left := left - 1;
      }
    }

    // ----- what the invariant means -----

    /** Every pool's credits and the charges not granted back add up to what it was
        given, and the pools together hold the advertised count. */
    lemma CreditsConserved()
      requires Valid()
      ensures var b := TheBooks();
              && ThreePools(b)
              && (forall p :: 0 <= p < MANAGED_MAX ==>
                    && Granted(ChannelAt(b, p)) <= b.returned[p] <= |b.charged[p]|
                    && b.eps[p].credits + (|b.charged[p]| - Granted(ChannelAt(b, p))) == Distributed(creditCount)[p].maxCredits)
      ensures 2 <= creditCount <= 257 ==>
                var b := TheBooks();
                b.eps[0].credits + b.eps[1].credits + b.eps[2].credits
                + (|charged[0]| - Granted(ChannelAt(b, 0)))
                + (|charged[1]| - Granted(ChannelAt(b, 1)))
                + (|charged[2]| - Granted(ChannelAt(b, 2)))
                == creditCount
    {
      hide IrqsOk, Accounted, FifoSafe, LookAheadFresh, Announced, AllPriced, Numbered, AskedLast;
      var b := TheBooks();
      assert PoolBalanced(b, 0) && PoolBalanced(b, 1) && PoolBalanced(b, 2);
      PoolsHoldCreditCount(creditCount);
    }

    /** What the device saw are requests in the order in which they were completed,
        none of them twice; until a purge that is the order of submission, and when
        no frame was lost it is all that left the queue. */
    lemma WireCarriesRequests()
      requires Valid()
      ensures SubSeq(WireMessages(dev.wire), completed + InHand())
      ensures multiset(WireMessages(dev.wire)) <= multiset(submitted)
      ensures !purged ==> SubSeq(WireMessages(dev.wire), submitted)
      ensures !purged && Unsent() == 0 ==> WireMessages(dev.wire) + Messages(txQueue) == submitted
    {
      hide WorldOk, IrqsOk, FifoSafe, LookAheadFresh, Deliveries, SubSeq, WireMessages;
      AllOutIffPoolsAgree(dev.wire, charged, completed + InHand());
      SubSeqCounts(WireMessages(dev.wire), completed + InHand());
      assert multiset(completed + InHand()) == multiset(completed) + multiset(InHand());
      if !purged {
        SubSeqOfLonger(WireMessages(dev.wire), completed + InHand(), Messages(txQueue));
      }
    }

    /** Each pool's frames on the wire are some of those charged to it, and all of
        them for every pool exactly when no frame was lost. */
    lemma WireShowsCharges()
      requires Valid()
      ensures |charged| == MANAGED_MAX && Unsent() >= 0
      ensures forall p :: 0 <= p < MANAGED_MAX ==> SubSeq(WireCharges(p, dev.wire), charged[p])
      ensures Unsent() == 0 <==> forall p :: 0 <= p < MANAGED_MAX ==> WireCharges(p, dev.wire) == charged[p]
    {
      hide WorldOk, IrqsOk, FifoSafe, LookAheadFresh, Deliveries, SubSeq, WireCharges, Accounted;
      AllOutIffPoolsAgree(dev.wire, charged, completed + InHand());
    }

    /** An empty pool that began with credits asked for an update in the last frame
        charged to it, and a pool's frames are numbered modulo 256. The device sees
        both as soon as all frames of the pool reached it. */
    lemma StarvationIsAnnounced(p: nat)
      requires Valid() && p < MANAGED_MAX
      ensures |charged| == ep.Length == MANAGED_MAX && SubSeq(WireCharges(p, dev.wire), charged[p])
      ensures Numbered(charged[p]) && (ep[p].credits == 0 < Distributed(creditCount)[p].maxCredits ==> AskedLast(charged[p]))
      ensures Unsent() == 0 || |WireCharges(p, dev.wire)| == |charged[p]| ==>
                && Numbered(WireCharges(p, dev.wire))
                && (ep[p].credits == 0 < Distributed(creditCount)[p].maxCredits ==> AskedLast(WireCharges(p, dev.wire)))
    {
      hide IrqsOk, Accounted, FifoSafe, LookAheadFresh, Announced, AllPriced, Inv, Numbered, AskedLast, SubSeq, WireCharges;
      assert PoolBalanced(TheBooks(), p);
      WireShowsCharges();
      SubSeqLength(WireCharges(p, dev.wire), charged[p]);
    }
  }

  /** A fatal error on a host that detects interrupts by edge: the enable register
      does not stay empty, whatever the comment says. */
  method FatalErrorOnEdgeHost(error: Irq) returns (dev: Device, driver: Driver)
    requires error in ERROR_IRQS
    ensures driver.dev == dev && driver.edgeDetect
    ensures driver.halted || (driver.fatal && dev.intrEnable == START_IRQS)
  {
    hide Driver.WorldOk, Driver.IrqsOk, Driver.FifoSafe, Driver.LookAheadFresh, Driver.Accounted, Driver.WireFollows,
         Driver.OneTransfer, Driver.ParkedOnlyInTransfer, Deliveries;
    dev := new Device();
    dev.intrEnable := START_IRQS;
    driver := new Driver(dev, true, true, 6);
    dev.Raise({error});
    assert error in dev.intrCause * driver.shadow * ERROR_IRQS;
    ghost var seen := driver.BusInterrupt();
    assert driver.halted || error in seen * ERROR_IRQS;
  }
}
