/** In-band credit reports against the true counts of each pool: what a frame
    reports, and why honest frames keep every pool's account exact. */
module Pools {
  import opened Bytes
  import opened Credits
  import opened Trailer
  import opened Framing

  /** A frame as the device queues it: its length matches its header, it obeys
      the payload limit, and its lookahead is not the empty one. */
  predicate WellSized(f: seq<uint8>)
  {
    && |f| >= HDR_LENGTH
    && |f| == HDR_LENGTH + DecodeHeader(f).payloadLen as int
    && |f| <= HDR_LENGTH + MAX_PAYLOAD_LENGTH
    && LookAheadOf(f) != NO_LOOKAHEAD
  }

  /** The credit entries a frame carries, in order. */
  function FrameReports(f: seq<uint8>): seq<CreditEntry>
    requires |f| >= HDR_LENGTH
  {
    match Dissect(f, LookAheadOf(f))
    case Parts(_, Some(t)) => Reports(Records(t))
    case _ => []
  }

  /** Credits that a list of entries reports to pool `p`. */
  function ReportedIn(p: nat, es: seq<CreditEntry>): nat
  {
    if es == [] then 0
    else (if PoolOf(es[0].endpoint) == p then es[0].credits as int else 0) + ReportedIn(p, es[1..])
  }

  /** Credits that queued frames report to pool `p`. */
  function QueuedReports(p: nat, fs: seq<seq<uint8>>): nat
    requires forall f :: f in fs ==> |f| >= HDR_LENGTH
  {
    if fs == [] then 0
    else
      assert fs[0] in fs;
      ReportedIn(p, FrameReports(fs[0])) + QueuedReports(p, fs[1..])
  }

  lemma {:induction false} QueuedReportsSnoc(p: nat, fs: seq<seq<uint8>>, f: seq<uint8>)
    requires |f| >= HDR_LENGTH && forall g :: g in fs ==> |g| >= HDR_LENGTH
    ensures QueuedReports(p, fs + [f]) == QueuedReports(p, fs) + ReportedIn(p, FrameReports(f))
  {
    if fs == [] {
      assert fs + [f] == [f] && [f][1..] == [];
    } else {
      assert (fs + [f])[1..] == fs[1..] + [f];
      QueuedReportsSnoc(p, fs[1..], f);
    }
  }

  /** The padding a transfer adds does not change how a frame comes apart. */
  lemma PaddingIsInert(f: seq<uint8>, pad: seq<uint8>)
    requires WellSized(f)
    ensures Dissect(f + pad, LookAheadOf(f)) == Dissect(f, LookAheadOf(f))
  {
    assert (f + pad)[..4] == LookAheadOf(f);
    assert DecodeHeader(f + pad) == DecodeHeader(f);
    assert (f + pad)[..|f|] == f == f[..|f|];
  }

  function AddReports(reported: seq<nat>, es: seq<CreditEntry>): (r: seq<nat>)
    requires |reported| == MANAGED_MAX
    ensures |r| == MANAGED_MAX
  {
    seq(MANAGED_MAX, p requires 0 <= p < MANAGED_MAX => reported[p] + ReportedIn(p, es))
  }

  /** Applying honestly reported entries in order keeps the invariant of every
      pool, takes no credit away and touches no other field of account. */
  lemma {:induction false} EntriesKeepPools(eps: seq<Endpoint>, es: seq<CreditEntry>, p: nat, returned: nat, reported: nat, spent: nat)
    requires |eps| == MANAGED_MAX && p < MANAGED_MAX
    requires Inv(Channel(eps[p], returned, reported, spent))
    requires reported + ReportedIn(p, es) <= returned
    ensures Inv(Channel(ApplyEntries(eps, es)[p], returned, reported + ReportedIn(p, es), spent))
    ensures ApplyEntries(eps, es)[p].credits >= eps[p].credits
    ensures ApplyEntries(eps, es)[p].maxCredits == eps[p].maxCredits
    decreases |es|
  {
    if es != [] {
      var e := es[0];
      var c := Channel(eps[p], returned, reported, spent);
      if PoolOf(e.endpoint) == p {
        ReportKeepsInv(c, e.credits);
        EntriesKeepPools(ApplyEntry(eps, e), es[1..], p, returned, reported + e.credits, spent);
      } else {
        EntriesKeepPools(ApplyEntry(eps, e), es[1..], p, returned, reported, spent);
      }
    }
  }

  lemma NothingReported(eps: seq<Endpoint>, p: nat)
    requires |eps| == MANAGED_MAX
    ensures ApplyEntries(eps, []) == eps && ReportedIn(p, []) == 0
  {
  }

  /** Receiving an honest frame without an assert leaves every pool exact, with
      the frame's reports added to the reported counts. */
  lemma {:induction false} HonestFrameKeepsPool(f: seq<uint8>, pad: seq<uint8>, eps: seq<Endpoint>, p: nat,
                                                    returned: nat, reported: nat, spent: nat)
    requires WellSized(f) && |eps| == MANAGED_MAX && p < MANAGED_MAX
    requires Inv(Channel(eps[p], returned, reported, spent))
    requires reported + ReportedIn(p, FrameReports(f)) <= returned
    requires ReceiveEffect(f + pad, LookAheadOf(f), eps).outcome.Done?
    ensures var eps' := ReceiveEffect(f + pad, LookAheadOf(f), eps).eps;
            && Inv(Channel(eps'[p], returned, reported + ReportedIn(p, FrameReports(f)), spent))
            && eps'[p].credits >= eps[p].credits && eps'[p].maxCredits == eps[p].maxCredits
  {
    hide Inv, Dissect, ApplyEntries, Replay, Records, Leftover, ReportedIn;
    PaddingIsInert(f, pad);
    NothingReported(eps, p);
    EntriesKeepPools(eps, [], p, returned, reported, spent);
    var parts := Dissect(f, LookAheadOf(f));
    if parts.Parts? && parts.trailer.Some? {
      var t := parts.trailer.value;
      ReplayMeans(Records(t), eps, NO_LOOKAHEAD);
      EntriesKeepPools(eps, Reports(Records(t)), p, returned, reported, spent);
    }
  }

  /** A frame that obeys the protocol: it comes apart, its trailer is made of
      acceptable records, and on the transport's own endpoint it carries nothing. */
  predicate Courteous(f: seq<uint8>)
  {
    && |f| >= HDR_LENGTH
    && match Dissect(f, LookAheadOf(f))
       case Malformed => false
       case Parts(payload, None) => f[0] != 0 || payload == []
       case Parts(payload, Some(t)) =>
         (f[0] != 0 || payload == []) && Leftover(t) == [] && forall r :: r in Records(t) ==> Acceptable(r)
  }

  /** Receiving a frame does not end in an assert exactly when it obeys the protocol. */
  lemma CourteousIffAccepted(f: seq<uint8>, pad: seq<uint8>, eps: seq<Endpoint>)
    requires WellSized(f) && |eps| == MANAGED_MAX
    ensures Courteous(f) <==>
            && ReceiveEffect(f + pad, LookAheadOf(f), eps).outcome.Done?
            && (f[0] != 0 || Dissect(f + pad, LookAheadOf(f)).payload == [])
  {
    PaddingIsInert(f, pad);
    var parts := Dissect(f, LookAheadOf(f));
    if parts.Parts? && parts.trailer.Some? {
      ReplayMeans(Records(parts.trailer.value), eps, NO_LOOKAHEAD);
    }
  }
}
