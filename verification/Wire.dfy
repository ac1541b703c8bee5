/** What the device sees of the transmitted frames, against what was charged and
    what the users handed in. */
module Wire {
  import opened Bytes
  import opened Trailer
  import opened Framing

  /** What a user hands to the driver, or the driver to a user. */
  datatype Message = Message(epid: uint8, payload: seq<uint8>)

  /** A frame that was charged to a pool: its header flags and sequence number. */
  datatype Charge = Charge(flags: uint8, seqNo: uint8)

  // ----- subsequences -----

  /** `x` is `y` with some elements left out. */
  ghost predicate SubSeq<T>(x: seq<T>, y: seq<T>)
    decreases |y|
  {
    || x == []
    || (y != [] && x[|x| - 1] == y[|y| - 1] && SubSeq(x[..|x| - 1], y[..|y| - 1]))
    || (y != [] && SubSeq(x, y[..|y| - 1]))
  }

  lemma SubSeqSnoc<T>(x: seq<T>, y: seq<T>, a: T)
    requires SubSeq(x, y)
    ensures SubSeq(x, y + [a]) && SubSeq(x + [a], y + [a])
  {
    assert (y + [a])[..|y|] == y && (x + [a])[..|x|] == x;
  }

  /** A subsequence is no longer than the whole, and as long only if it is the whole. */
  lemma {:induction false} SubSeqLength<T>(x: seq<T>, y: seq<T>)
    requires SubSeq(x, y)
    ensures |x| <= |y| && (|x| == |y| ==> x == y)
    decreases |y|
  {
    if x != [] {
      if x[|x| - 1] == y[|y| - 1] && SubSeq(x[..|x| - 1], y[..|y| - 1]) {
        SubSeqLength(x[..|x| - 1], y[..|y| - 1]);
        assert x == x[..|x| - 1] + [x[|x| - 1]] && y == y[..|y| - 1] + [y[|y| - 1]];
      } else {
        SubSeqLength(x, y[..|y| - 1]);
      }
    }
  }

  /** It has each element at most as often, and goes on to be one of any longer whole. */
  lemma {:induction false} SubSeqCounts<T>(x: seq<T>, y: seq<T>)
    requires SubSeq(x, y)
    ensures multiset(x) <= multiset(y)
    decreases |y|
  {
    if x != [] {
      var y' := y[..|y| - 1];
      assert y == y' + [y[|y| - 1]];
      if x[|x| - 1] == y[|y| - 1] && SubSeq(x[..|x| - 1], y') {
        SubSeqCounts(x[..|x| - 1], y');
        assert x == x[..|x| - 1] + [x[|x| - 1]];
      } else {
        SubSeqCounts(x, y');
      }
    }
  }

  lemma {:induction false} SubSeqOfLonger<T>(x: seq<T>, y: seq<T>, z: seq<T>)
    requires SubSeq(x, y)
    ensures SubSeq(x, y + z)
    decreases |z|
  {
    if z == [] {
      assert y + z == y;
    } else {
      var z', last := z[..|z| - 1], z[|z| - 1];
      SubSeqOfLonger(x, y, z');
      SubSeqSnoc(x, y + z', last);
      assert y + z == (y + z') + [last];
    }
  }

  // ----- frames as the device decodes them -----

  function ShownPool(w: seq<uint8>): (p: nat)
    ensures p < MANAGED_MAX
  {
    if w == [] then 0 else PoolOf(w[0])
  }

  function ShownCharge(w: seq<uint8>): Charge
  {
    if |w| < HDR_LENGTH then Charge(0, 0)
    else
      var h := DecodeHeader(w);
      Charge(h.flags, h.control1)
  }

  /** Endpoint and payload, as long as the header says. */
  function ShownMessage(w: seq<uint8>): Message
  {
    if |w| < HDR_LENGTH then Message(0, [])
    else
      var h := DecodeHeader(w);
      var end := HDR_LENGTH + h.payloadLen as int;
      Message(h.endpointId, w[HDR_LENGTH..if end <= |w| then end else |w|])
  }

  function WireMessages(ws: seq<seq<uint8>>): (ms: seq<Message>)
    ensures |ms| == |ws|
  {
    if ws == [] then [] else WireMessages(ws[..|ws| - 1]) + [ShownMessage(ws[|ws| - 1])]
  }

  /** The flags and sequence numbers of the frames for pool `p`. */
  function WireCharges(p: nat, ws: seq<seq<uint8>>): seq<Charge>
  {
    if ws == [] then []
    else
      var last := ws[|ws| - 1];
      WireCharges(p, ws[..|ws| - 1]) + if ShownPool(last) == p then [ShownCharge(last)] else []
  }

  lemma WireSnoc(ws: seq<seq<uint8>>, w: seq<uint8>)
    ensures WireMessages(ws + [w]) == WireMessages(ws) + [ShownMessage(w)]
    ensures forall p {:trigger WireCharges(p, ws + [w])} ::
              WireCharges(p, ws + [w]) == WireCharges(p, ws) + if ShownPool(w) == p then [ShownCharge(w)] else []
  {
    assert (ws + [w])[..|ws|] == ws;
  }

  /** Every frame counts for exactly one pool. */
  lemma {:induction false} WirePartition(ws: seq<seq<uint8>>)
    ensures |WireCharges(0, ws)| + |WireCharges(1, ws)| + |WireCharges(2, ws)| == |ws|
  {
    if ws != [] {
      WirePartition(ws[..|ws| - 1]);
    }
  }

  // ----- the wire against the books -----

  type Charges = cs: seq<seq<Charge>> | |cs| == MANAGED_MAX witness [[], [], []]

  function TotalCharged(cs: Charges): nat
  {
    |cs[0]| + |cs[1]| + |cs[2]|
  }

  /** The frames of every pool are among those charged to it, in order, and what
      they carry is among the requests sent, in order. */
  ghost predicate Follows(ws: seq<seq<uint8>>, cs: Charges, sent: seq<Message>)
  {
    && SubSeq(WireCharges(0, ws), cs[0]) && SubSeq(WireCharges(1, ws), cs[1]) && SubSeq(WireCharges(2, ws), cs[2])
    && SubSeq(WireMessages(ws), sent)
  }

  lemma NothingFollows(ws: seq<seq<uint8>>, cs: Charges, sent: seq<Message>)
    requires ws == []
    ensures Follows(ws, cs, sent)
  {
  }

  /** A frame was charged; it may or may not have gone out. */
  lemma ChargeFollows(ws: seq<seq<uint8>>, cs: Charges, sent: seq<Message>, p: nat, c: Charge, m: Message)
    requires Follows(ws, cs, sent) && p < MANAGED_MAX
    ensures Follows(ws, cs[p := cs[p] + [c]], sent + [m])
  {
    SubSeqSnoc(WireCharges(p, ws), cs[p], c);
    SubSeqSnoc(WireMessages(ws), sent, m);
  }

  lemma FrameFollows(ws: seq<seq<uint8>>, w: seq<uint8>, cs: Charges, sent: seq<Message>)
    requires Follows(ws, cs, sent)
    ensures var p := ShownPool(w);
            Follows(ws + [w], cs[p := cs[p] + [ShownCharge(w)]], sent + [ShownMessage(w)])
  {
    hide SubSeq, ShownPool, ShownCharge, ShownMessage;
    var p := ShownPool(w);
    WireSnoc(ws, w);
    SubSeqSnoc(WireCharges(p, ws), cs[p], ShownCharge(w));
    SubSeqSnoc(WireMessages(ws), sent, ShownMessage(w));
    forall q | 0 <= q < MANAGED_MAX && q != p
      ensures WireCharges(q, ws + [w]) == WireCharges(q, ws)
    {
      assert WireCharges(q, ws) + [] == WireCharges(q, ws);
    }
  }

  /** No more frames went out than were charged, and just as many exactly when
      every pool's frames are the ones charged to it. */
  lemma AllOutIffPoolsAgree(ws: seq<seq<uint8>>, cs: Charges, sent: seq<Message>)
    requires Follows(ws, cs, sent)
    ensures |ws| <= TotalCharged(cs)
    ensures |ws| == TotalCharged(cs) <==>
            WireCharges(0, ws) == cs[0] && WireCharges(1, ws) == cs[1] && WireCharges(2, ws) == cs[2]
    ensures |ws| == |sent| <==> WireMessages(ws) == sent
  {
    WirePartition(ws);
    SubSeqLength(WireCharges(0, ws), cs[0]);
    SubSeqLength(WireCharges(1, ws), cs[1]);
    SubSeqLength(WireCharges(2, ws), cs[2]);
    SubSeqLength(WireMessages(ws), sent);
  }
}
