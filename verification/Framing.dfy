/** HTC frames: the six-byte header, block padding, and the in-place send and
    receive paths over network buffers. */
module Framing {
  import opened Bytes
  import opened Credits
  import opened Trailer
  import opened Netbuf

  const HDR_LENGTH: nat := 6
  const BLOCK_SIZE: nat := 32
  const BLOCK_MASK: nat := BLOCK_SIZE - 1
  const CREDIT_SIZE: nat := 1664
  const MAX_PAYLOAD_LENGTH: nat := 4096 - HDR_LENGTH
  const MBOX_BASE: nat := 0x800
  const MBOX_WIDTH: nat := 0x800
  const FLAG_NEED_CREDIT_UPDATE: uint8 := 1

  datatype Header = Header(endpointId: uint8, flags: uint8, payloadLen: uint16, control0: uint8, control1: uint8)

  function EncodeHeader(h: Header): (b: seq<uint8>)
    ensures |b| == HDR_LENGTH
  {
    [h.endpointId, h.flags] + Bytes16(h.payloadLen) + [h.control0, h.control1]
  }

  function DecodeHeader(b: seq<uint8>): Header
    requires |b| >= HDR_LENGTH
  {
    Header(b[0], b[1], Read16(b[2], b[3]), b[4], b[5])
  }

  lemma HeaderRoundTrip(h: Header, rest: seq<uint8>)
    ensures DecodeHeader(EncodeHeader(h) + rest) == h
  {
    var b := EncodeHeader(h) + rest;
    assert b[2] == h.payloadLen % 0x100 && b[3] == h.payloadLen / 0x100;
  }

  lemma HeaderBytes(b: seq<uint8>)
    requires |b| >= HDR_LENGTH
    ensures EncodeHeader(DecodeHeader(b)) == b[..HDR_LENGTH]
  {
    var v := Read16(b[2], b[3]);
    RemainderUnique(v, 0x100, b[3], b[2]);
  }

  function Padded(length: nat): nat
  {
    PaddedLen(BLOCK_MASK, length)
  }

  lemma PaddedBlock(length: nat)
    ensures Padded(length) % BLOCK_SIZE == 0 && length <= Padded(length) < length + BLOCK_SIZE
  {
    assert Pow2(5) == 2 * Pow2(4) == 4 * Pow2(3) == 8 * Pow2(2) == 16 * Pow2(1) == 32;
    PaddedLenIsLeastMultiple(5, length);
  }

  /** HW_GetMboxAddress, then the 15-bit address mask of the bus command. */
  function MboxAddress(length: uint32): nat
  {
    Wrap32(MBOX_BASE + MBOX_WIDTH - length) as int % 0x8000
  }

  /** A transfer ends exactly at the mailbox end, and stays inside the mailbox
      precisely for lengths up to its width. */
  lemma TransferEndsAtMailboxEnd(length: uint32)
    ensures MboxAddress(length) + length == MBOX_BASE + MBOX_WIDTH <==> length <= MBOX_BASE + MBOX_WIDTH
    ensures MBOX_BASE <= MboxAddress(length) && MboxAddress(length) + length == MBOX_BASE + MBOX_WIDTH <==> length <= MBOX_WIDTH
  {
  }

  // ----- credits a request costs -----

  /** Driver_SubmitTxRequest: the credits a frame of this length is charged. */
  function CreditsRequired(length: nat): nat
  {
    var t := Padded(length);
    if t <= CREDIT_SIZE then 1
    else
      var c := t / CREDIT_SIZE;
      if c * CREDIT_SIZE < t then c + 1 else c
  }

  /** That is the least number of credits, at least one, whose buffers hold the
      padded frame; one exactly when the sanity check of Driver_TxReady passes. */
  lemma CreditsRequiredIsLeast(length: nat)
    ensures var c := CreditsRequired(length);
            && c >= 1 && Padded(length) <= c * CREDIT_SIZE
            && forall k: nat :: k >= 1 && Padded(length) <= k * CREDIT_SIZE ==> c <= k
    ensures CreditsRequired(length) == 1 <==> Padded(length) <= CREDIT_SIZE
  {
  }

  // ----- transmit -----

  /** Htc_SendPacket on the bytes: the reserved header space is filled in. */
  function FilledFrame(frame: seq<uint8>, epid: uint8, flags: uint8, seqNo: uint8): (f: seq<uint8>)
    requires |frame| >= HDR_LENGTH
    ensures |f| == |frame| && f[HDR_LENGTH..] == frame[HDR_LENGTH..]
  {
    EncodeHeader(Header(epid, flags, Wrap16(|frame| - HDR_LENGTH), 0, seqNo)) + frame[HDR_LENGTH..]
  }

  /** What the device reads from a frame's header: its endpoint, and a payload
      length that is true precisely while it fits the 16-bit field. */
  lemma FilledHeaderDecodes(frame: seq<uint8>, epid: uint8, flags: uint8, seqNo: uint8)
    requires |frame| >= HDR_LENGTH
    ensures var h := DecodeHeader(FilledFrame(frame, epid, flags, seqNo));
            && h.endpointId == epid && h.flags == flags && h.control1 == seqNo
            && (h.payloadLen as int == |frame| - HDR_LENGTH <==> |frame| - HDR_LENGTH < 0x1_0000)
  {
    var n := Wrap16(|frame| - HDR_LENGTH);
    assert |frame| - HDR_LENGTH < 0x1_0000 <==> n as int == |frame| - HDR_LENGTH;
    var f := FilledFrame(frame, epid, flags, seqNo);
    assert f == EncodeHeader(Header(epid, flags, n, 0, seqNo)) + frame[HDR_LENGTH..];
    hide EncodeHeader, DecodeHeader, Wrap16, FilledFrame;
    HeaderRoundTrip(Header(epid, flags, n, 0, seqNo), frame[HDR_LENGTH..]);
  }

  /** The arithmetic of Htc_GetCreditCounterUpdate, in place, once the device's
      counter byte has been read. */
  method PollEndpoint(ep: array<Endpoint>, p: nat, counter: uint8)
    requires ep.Length == MANAGED_MAX && p < MANAGED_MAX
    modifies ep
    ensures ep[..] == old(ep[..])[p := Polled(old(ep[p]), counter)]
  {
    ep[p] := ep[p].(intCreditCounter := counter);
    var credits: uint8 := Wrap8(ep[p].intCreditCounter as int - ep[p].rptCreditCounter as int);
    if credits < ep[p].intCredits {
      return;
    }
    credits := Wrap8(credits as int - ep[p].intCredits as int);
    ep[p] := ep[p].(intCredits := Wrap32(ep[p].intCredits as int + credits as int));
    ep[p] := ep[p].(credits := Wrap8(ep[p].credits as int + credits as int));
  }

  datatype SendStatus = Sent(flags: uint8, seqNo: uint8) | NoCredits | SendAsserted

  /** The credit part of Htc_SendPacket: charges the pool, draws the sequence
      number, and asks for a credit update when the pool runs dry. */
  method ChargeEndpoint(ep: array<Endpoint>, epid: uint8, credits: uint8) returns (status: SendStatus)
    requires ep.Length == MANAGED_MAX
    modifies ep
    ensures status.NoCredits? <==> old(ep[PoolOf(epid)].credits) == 0
    ensures status.SendAsserted? <==> old(ep[PoolOf(epid)].credits) != 0 && credits == 0
    ensures !status.Sent? ==> ep[..] == old(ep[..])
    ensures status.Sent? ==>
              var p := PoolOf(epid);
              && ep[..] == old(ep[..])[p := Charged(old(ep[p]), credits)]
              && status.seqNo == old(ep[p].seqNo)
              && status.flags == (if ep[p].credits == 0 then FLAG_NEED_CREDIT_UPDATE else 0)
  {
    var p := PoolOf(epid);
    if ep[p].credits == 0 {
      return NoCredits;
    }
    if credits == 0 {
      return SendAsserted;
    }
    ep[p] := ep[p].(credits := Wrap8(ep[p].credits as int - credits as int));
    var seqNo := ep[p].seqNo;
    ep[p] := ep[p].(seqNo := Wrap8(ep[p].seqNo as int + 1));
    var flags := 0;
    if ep[p].credits == 0 {
      flags := FLAG_NEED_CREDIT_UPDATE;
    }
    return Sent(flags, seqNo);
  }

  /** The part of Driver_SubmitTxRequest that touches the request. */
  method PrepareSubmit(nb: Netbuf)
    requires nb.Valid() && nb.data >= HDR_LENGTH
    modifies nb`data, nb`credits
    ensures nb.Valid() && |nb.Bytes()| >= HDR_LENGTH && nb.Bytes()[HDR_LENGTH..] == old(nb.Bytes())
    ensures nb.data == old(nb.data) - HDR_LENGTH
    ensures nb.credits == Wrap8(CreditsRequired(|old(nb.Packet())| + HDR_LENGTH))
  {
    nb.Push(HDR_LENGTH);
    var length := nb.Length();
    var transferLength := Padded(length);
    var creditsRequired;
    if transferLength <= CREDIT_SIZE {
      creditsRequired := 1;
    } else {
      creditsRequired := transferLength / CREDIT_SIZE;
      if creditsRequired * CREDIT_SIZE < transferLength {
        creditsRequired := creditsRequired + 1;
      }
    }
    nb.credits := Wrap8(creditsRequired);
  }

  /** Htc_SendPacket: charges the endpoint and writes the header in place. */
  method SendPacket(ep: array<Endpoint>, nb: Netbuf) returns (status: SendStatus)
    requires ep.Length == MANAGED_MAX && nb.Valid() && |nb.Bytes()| >= HDR_LENGTH
    modifies ep, nb.buf
    ensures nb.Valid()
    ensures !status.Sent? ==> ep[..] == old(ep[..]) && nb.Bytes() == old(nb.Bytes())
    ensures status.Sent? <==> old(ep[PoolOf(nb.epid)].credits) != 0 && nb.credits != 0
    ensures status.Sent? ==>
              && ep[..] == old(ep[..])[PoolOf(nb.epid) := Charged(old(ep[PoolOf(nb.epid)]), nb.credits)]
              && status.seqNo == old(ep[PoolOf(nb.epid)].seqNo)
              && (status.flags == FLAG_NEED_CREDIT_UPDATE <==> ep[PoolOf(nb.epid)].credits == 0)
              && nb.Packet() == FilledFrame(old(nb.Packet()), nb.epid, status.flags, status.seqNo)
  {
    status := ChargeEndpoint(ep, nb.epid, nb.credits);
    if status.Sent? {
      var length := nb.Length();
      WriteHeader(nb, Header(nb.epid, status.flags, Wrap16(length - HDR_LENGTH), 0, status.seqNo));
      assert nb.Packet()[HDR_LENGTH..] == old(nb.Packet())[HDR_LENGTH..];
    }
  }

  /** The field-by-field stores at the end of Htc_SendPacket. */
  method WriteHeader(nb: Netbuf, h: Header)
    requires nb.Valid() && |nb.Bytes()| >= HDR_LENGTH
    modifies nb.buf
    ensures nb.Valid() && nb.Bytes() == EncodeHeader(h) + old(nb.Bytes())[HDR_LENGTH..]
  {
    var d := nb.data;
    nb.buf[d + 5] := h.control1;
    nb.buf[d + 2] := h.payloadLen % 0x100;
    nb.buf[d + 3] := h.payloadLen / 0x100;
    nb.buf[d + 1] := h.flags;
    nb.buf[d] := h.endpointId;
    nb.buf[d + 4] := h.control0;
  }

  /** Bus_InOutDescriptorSet for a write: clocks out every fragment, then as many
      pad bytes as the transfer length still asks for. */
  method ClockOut(nb: Netbuf, padBuffer: seq<uint8>, transferLength: uint16) returns (wire: seq<uint8>)
    requires nb.Valid() && |padBuffer| == BLOCK_SIZE
    requires |nb.Packet()| <= transferLength as int < |nb.Packet()| + BLOCK_SIZE
    ensures |wire| == transferLength as int
    ensures wire == nb.Packet() + padBuffer[..transferLength as int - |nb.Packet()|]
  {
    wire := nb.Bytes();
    var totalLength: uint16 := |wire|;
    var i := 0;
    while i < |nb.fragments|
      invariant 0 <= i <= |nb.fragments|
      invariant wire == nb.Bytes() + Flatten(nb.fragments[..i])
      invariant totalLength as int == |wire|
    {
      FlattenStep(nb.fragments, i);
      wire := wire + nb.fragments[i];
      totalLength := Wrap16(totalLength as int + |nb.fragments[i]|);
      i := i + 1;
    }
    assert nb.fragments[..i] == nb.fragments;
    if totalLength < transferLength {
      wire := wire + padBuffer[..transferLength - totalLength];
    }
  }

  lemma FlattenStep(fs: seq<seq<uint8>>, i: nat)
    requires i < |fs|
    ensures Flatten(fs[..i + 1]) == Flatten(fs[..i]) + fs[i]
    ensures |Flatten(fs[..i + 1])| <= |Flatten(fs)|
  {
    FlattenSnoc(fs[..i], fs[i]);
    assert fs[..i] + [fs[i]] == fs[..i + 1];
    FlattenPrefix(fs, i + 1);
  }

  lemma {:induction false} FlattenPrefix(fs: seq<seq<uint8>>, i: nat)
    requires i <= |fs|
    ensures |Flatten(fs[..i])| <= |Flatten(fs)|
    decreases |fs| - i
  {
    if i == |fs| {
      assert fs[..i] == fs;
    } else {
      FlattenSnoc(fs[..i], fs[i]);
      assert fs[..i] + [fs[i]] == fs[..i + 1];
      FlattenPrefix(fs, i + 1);
    }
  }

  /** What the device finds in a filled and padded frame. */
  lemma WireDecodes(payload: seq<uint8>, filled: seq<uint8>, epid: uint8, flags: uint8, seqNo: uint8, pad: seq<uint8>)
    requires |payload| < 0x1_0000 && |filled| == HDR_LENGTH + |payload|
    requires filled == EncodeHeader(Header(epid, flags, |payload|, 0, seqNo)) + payload
    ensures var wire := filled + pad;
            && |wire| >= HDR_LENGTH + |payload|
            && wire[HDR_LENGTH..HDR_LENGTH + |payload|] == payload
            && DecodeHeader(wire) == Header(epid, flags, |payload|, 0, seqNo)
  {
    HeaderRoundTrip(Header(epid, flags, |payload|, 0, seqNo), payload + pad);
    assert filled + pad == EncodeHeader(Header(epid, flags, |payload|, 0, seqNo)) + (payload + pad);
  }

  /** Driver_SendPacket on a buffer whose header space is reserved: charge, fill
      in the header, clock out the padded frame. */
  method SendOne(ep: array<Endpoint>, nb: Netbuf, padBuffer: seq<uint8>) returns (status: SendStatus, wire: seq<uint8>)
    requires ep.Length == MANAGED_MAX && |padBuffer| == BLOCK_SIZE
    requires nb.Valid() && |nb.Bytes()| >= HDR_LENGTH && nb.credits == 1
    requires Padded(|nb.Packet()|) <= CREDIT_SIZE
    modifies ep, nb.buf
    ensures nb.Valid() && nb.Packet()[HDR_LENGTH..] == old(nb.Packet())[HDR_LENGTH..]
    ensures status.Sent? <==> old(ep[PoolOf(nb.epid)].credits) != 0
    ensures status.Sent? ==>
              && ep[PoolOf(nb.epid)] == Charged(old(ep[PoolOf(nb.epid)]), 1)
              && |wire| == Padded(|nb.Packet()|) >= |nb.Packet()|
              && wire[HDR_LENGTH..|nb.Packet()|] == nb.Packet()[HDR_LENGTH..]
              && DecodeHeader(wire) == Header(nb.epid, status.flags, |nb.Packet()| - HDR_LENGTH, 0, status.seqNo)
  {
    hide Padded, DecodeHeader, EncodeHeader, Charged;
    wire := [];
    ghost var payload := nb.Packet()[HDR_LENGTH..];
    PaddedBlock(|nb.Packet()|);
    status := SendPacket(ep, nb);
    if status.Sent? {
      var length := nb.Length();
      wire := ClockOut(nb, padBuffer, Padded(length));
      WireDecodes(payload, nb.Packet(), nb.epid, status.flags, status.seqNo, padBuffer[..Padded(length) - length]);
    }
  }

  /** A request from submission to completion: whatever the credits say, the
      caller gets back exactly the bytes handed in, and a frame that is sent
      shows the device header, payload and padding. */
  method Transmit(ep: array<Endpoint>, nb: Netbuf, padBuffer: seq<uint8>) returns (status: SendStatus, wire: seq<uint8>)
    requires ep.Length == MANAGED_MAX && nb.Valid() && nb.data >= HDR_LENGTH && |padBuffer| == BLOCK_SIZE
    requires Padded(|nb.Packet()| + HDR_LENGTH) <= CREDIT_SIZE
    modifies ep, nb, nb.buf
    ensures nb.Valid() && nb.Packet() == old(nb.Packet()) && nb.epid == old(nb.epid)
    ensures status.Sent? <==> old(ep[PoolOf(nb.epid)].credits) != 0
    ensures status.Sent? ==>
              && ep[PoolOf(nb.epid)] == Charged(old(ep[PoolOf(nb.epid)]), 1)
              && |wire| == Padded(|nb.Packet()| + HDR_LENGTH) >= |nb.Packet()| + HDR_LENGTH
              && wire[HDR_LENGTH..HDR_LENGTH + |nb.Packet()|] == nb.Packet()
              && DecodeHeader(wire) == Header(nb.epid, status.flags, |nb.Packet()|, 0, status.seqNo)
  {
    CreditsRequiredIsLeast(|nb.Packet()| + HDR_LENGTH);
    ghost var payload := nb.Packet();
    PrepareSubmit(nb);
    assert nb.Packet()[HDR_LENGTH..] == payload;
    status, wire := SendOne(ep, nb, padBuffer);
    ghost var sent := nb.Packet();
    nb.Pull(HDR_LENGTH);
    assert nb.Packet() == sent[HDR_LENGTH..];
  }

  // ----- receive -----

  function LookAheadOf(frame: seq<uint8>): LookAhead
    requires |frame| >= 4
  {
    frame[..4]
  }

  function LookAheadPayload(la: LookAhead): uint16 { Read16(la[2], la[3]) }

  /** Htc_PrepareRecvPacket: the buffer length, in the source's 16-bit arithmetic. */
  function RecvLength(la: LookAhead): uint16
  {
    Wrap16(Padded(Wrap16(LookAheadPayload(la) as int + HDR_LENGTH)))
  }

  /** The buffer sized from the lookahead holds the frame it announces precisely
      while the 16-bit arithmetic does not wrap. */
  lemma {:induction false} SizingCoversFrame(la: LookAhead)
    ensures RecvLength(la) as int >= LookAheadPayload(la) as int + HDR_LENGTH <==> LookAheadPayload(la) <= 65498
    ensures LookAheadPayload(la) <= 65498 ==> RecvLength(la) as int == Padded(LookAheadPayload(la) as int + HDR_LENGTH)
  {
    hide Padded, LookAheadPayload;
    var n := LookAheadPayload(la) as int + HDR_LENGTH;
    PaddedBlock(n);
    PaddedBlock(Wrap16(n));
  }

  predicate HasTrailer(h: Header) { h.flags / 2 % 2 == 1 }

  /** How a received buffer is taken apart: where its payload ends, and which
      bytes are its trailer. */
  datatype Parts = Parts(payload: seq<uint8>, trailer: Option<seq<uint8>>) | Malformed

  /** A buffer without its padding, split by its header. */
  function SplitTrailer(b: seq<uint8>, h: Header): Parts
    requires |b| >= HDR_LENGTH && (HasTrailer(h) ==> |b| == HDR_LENGTH + h.payloadLen as int)
  {
    if !HasTrailer(h) then Parts(b[HDR_LENGTH..], None)
    else if h.control0 < 2 || h.control0 as int > h.payloadLen as int then Malformed
    else Parts(b[HDR_LENGTH..|b| - h.control0 as int], Some(b[|b| - h.control0 as int..]))
  }

  /** A buffer that is shorter than its header announces is taken as it is, unless
      a trailer would lie outside. */
  function Dissect(b: seq<uint8>, la: LookAhead): Parts
  {
    if |b| < HDR_LENGTH || b[..4] != la then Malformed
    else
      var h := DecodeHeader(b);
      var end := HDR_LENGTH + h.payloadLen as int;
      if end <= |b| then SplitTrailer(b[..end], h)
      else if HasTrailer(h) then Malformed
      else SplitTrailer(b, h)
  }

  function PartsEffect(p: Parts, eps: seq<Endpoint>): (s: Replayed)
    requires |eps| == MANAGED_MAX
    ensures |s.eps| == MANAGED_MAX
  {
    match p
    case Malformed => Replayed(eps, Asserted)
    case Parts(_, None) => Replayed(eps, Done(NO_LOOKAHEAD))
    case Parts(_, Some(t)) => Effect(t, eps, NO_LOOKAHEAD)
  }

  /** The effect of a received buffer on the endpoints. */
  function ReceiveEffect(b: seq<uint8>, la: LookAhead, eps: seq<Endpoint>): (s: Replayed)
    requires |eps| == MANAGED_MAX
    ensures |s.eps| == MANAGED_MAX
  {
    PartsEffect(Dissect(b, la), eps)
  }

  /** No trailer is announced that would lie outside the buffer. */
  predicate TrailerInside(b: seq<uint8>, la: LookAhead)
  {
    |b| >= HDR_LENGTH && b[..4] == la && HasTrailer(DecodeHeader(b)) ==> HDR_LENGTH + DecodeHeader(b).payloadLen as int <= |b|
  }

  /** The first half of Htc_ProcessRecvHeader: checks the header against the
      lookahead and trims the padding. */
  method ConfirmHeader(nb: Netbuf, la: LookAhead) returns (hdr: Option<Header>)
    requires nb.Valid()
    modifies nb`tail
    ensures nb.Valid()
    ensures hdr.Some? <==> |old(nb.Bytes())| >= HDR_LENGTH && old(nb.Bytes())[..4] == la
    ensures hdr.Some? ==>
              && hdr.value == DecodeHeader(old(nb.Bytes()))
              && var end := HDR_LENGTH + hdr.value.payloadLen as int;
                 nb.Bytes() == if end <= |old(nb.Bytes())| then old(nb.Bytes())[..end] else old(nb.Bytes())
  {
    ghost var b := nb.Bytes();
    if nb.tail - nb.data < HDR_LENGTH {
      return None;
    }
    var raw := nb.buf[nb.data..nb.data + HDR_LENGTH];
    assert raw == b[..HDR_LENGTH];
    assert raw[..4] == b[..4];
    if raw[..4] != la {
      return None;
    }
    var h := DecodeHeader(raw);
    assert h == DecodeHeader(b);
    var end := HDR_LENGTH + h.payloadLen as int;
    if end < nb.tail - nb.data {
      nb.Trim(nb.tail - nb.data - end);
    }
    return Some(h);
  }

  /** The second half: applies and trims the trailer and pulls the header. */
  method StripTrailer(ep: array<Endpoint>, nb: Netbuf, h: Header) returns (outcome: Outcome)
    requires ep.Length == MANAGED_MAX && nb.Valid()
    requires |nb.Bytes()| >= HDR_LENGTH && (HasTrailer(h) ==> |nb.Bytes()| == HDR_LENGTH + h.payloadLen as int)
    modifies ep, nb`data, nb`tail
    ensures nb.Valid()
    ensures Replayed(ep[..], outcome) == PartsEffect(SplitTrailer(old(nb.Bytes()), h), old(ep[..]))
    ensures outcome.Done? ==> nb.Bytes() == SplitTrailer(old(nb.Bytes()), h).payload
  {
    ghost var b := nb.Bytes();
    outcome := Done(NO_LOOKAHEAD);
    if HasTrailer(h) {
      var temp := h.control0 as int;
      if temp < 2 || temp > h.payloadLen as int {
        return Asserted;
      }
      var trailer := nb.buf[nb.tail - temp..nb.tail];
      assert trailer == b[|b| - temp..];
      outcome := ProcessTrailer(ep, trailer);
      if outcome == Asserted {
        return;
      }
      nb.Trim(temp);
    }
    nb.Pull(HDR_LENGTH);
  }

  /** Htc_ProcessRecvHeader: takes a received buffer apart in place. */
  method ProcessRecvHeader(ep: array<Endpoint>, nb: Netbuf, la: LookAhead) returns (outcome: Outcome)
    requires ep.Length == MANAGED_MAX && nb.Valid()
    requires TrailerInside(nb.Bytes(), la)
    modifies ep, nb`data, nb`tail
    ensures nb.Valid()
    ensures Replayed(ep[..], outcome) == ReceiveEffect(old(nb.Bytes()), la, old(ep[..]))
    ensures outcome.Done? ==> nb.Bytes() == Dissect(old(nb.Bytes()), la).payload
  {
    var hdr := ConfirmHeader(nb, la);
    if hdr == None {
      return Asserted;
    }
    outcome := StripTrailer(ep, nb, hdr.value);
  }

  /** The header of a frame the device sends; a trailer's length stands in the
      first control byte. */
  function DeviceHeader(epid: uint8, otherFlags: uint8, payload: seq<uint8>, trailer: Option<seq<uint8>>, control1: uint8): Header
    requires otherFlags / 2 % 2 == 0
  {
    match trailer
    case None => Header(epid, otherFlags, Wrap16(|payload|), 0, control1)
    case Some(t) => Header(epid, Wrap8(otherFlags as int + 2), Wrap16(|payload| + |t|), Wrap8(|t|), control1)
  }

  function TrailerBytes(trailer: Option<seq<uint8>>): seq<uint8>
  {
    if trailer.None? then [] else trailer.value
  }

  predicate WithinLimits(payload: seq<uint8>, trailer: Option<seq<uint8>>)
  {
    && |payload| + |TrailerBytes(trailer)| <= MAX_PAYLOAD_LENGTH
    && (trailer.Some? ==> 2 <= |trailer.value| < 0x100)
  }

  function DeviceFrame(epid: uint8, otherFlags: uint8, payload: seq<uint8>, trailer: Option<seq<uint8>>, control1: uint8): seq<uint8>
    requires otherFlags / 2 % 2 == 0
  {
    EncodeHeader(DeviceHeader(epid, otherFlags, payload, trailer, control1)) + payload + TrailerBytes(trailer)
  }

  lemma DeviceHeaderFits(epid: uint8, otherFlags: uint8, payload: seq<uint8>, trailer: Option<seq<uint8>>, control1: uint8)
    requires otherFlags / 2 % 2 == 0 && WithinLimits(payload, trailer)
    ensures var h := DeviceHeader(epid, otherFlags, payload, trailer, control1);
            var t := TrailerBytes(trailer);
            && h.payloadLen as int == |payload| + |t| <= MAX_PAYLOAD_LENGTH
            && (HasTrailer(h) <==> trailer.Some?) && trailer == (if trailer.Some? then Some(t) else None)
            && if HasTrailer(h) then h.control0 as int == |t| >= 2 else t == []
  {
  }

  /** Receiving inverts framing: for every payload, trailer and padding within
      the protocol's limits, the buffer sized from the lookahead holds exactly
      the padded frame, and it comes apart into what went in. */
  lemma {:induction false} ReceiveInvertsFraming(epid: uint8, otherFlags: uint8, payload: seq<uint8>,
                                                     trailer: Option<seq<uint8>>, control1: uint8, pad: seq<uint8>)
    requires otherFlags / 2 % 2 == 0 && WithinLimits(payload, trailer)
    ensures var f := DeviceFrame(epid, otherFlags, payload, trailer, control1);
            && RecvLength(LookAheadOf(f)) as int == Padded(|f|)
            && Dissect(f + pad, LookAheadOf(f)) == Parts(payload, trailer)
  {
    hide DeviceFrame, DeviceHeader, EncodeHeader, TrailerBytes, Dissect, Padded, PaddedLen, RecvLength, LookAheadOf, WithinLimits;
    var h, t := DeviceHeader(epid, otherFlags, payload, trailer, control1), TrailerBytes(trailer);
    DeviceHeaderFits(epid, otherFlags, payload, trailer, control1);
    DeviceFrameBuilt(epid, otherFlags, payload, trailer, control1, pad);
    DissectBuilt(h, payload, t, pad);
    SizingCoversFrame(EncodeHeader(h)[..4]);
  }

  lemma DeviceFrameBuilt(epid: uint8, otherFlags: uint8, payload: seq<uint8>, trailer: Option<seq<uint8>>, control1: uint8,
                         pad: seq<uint8>)
    requires otherFlags / 2 % 2 == 0
    ensures var f := DeviceFrame(epid, otherFlags, payload, trailer, control1);
            var h := DeviceHeader(epid, otherFlags, payload, trailer, control1);
            && |f| == HDR_LENGTH + |payload| + |TrailerBytes(trailer)| && LookAheadOf(f) == EncodeHeader(h)[..4]
            && f + pad == EncodeHeader(h) + (payload + TrailerBytes(trailer) + pad)
  {
    hide EncodeHeader, DeviceHeader, TrailerBytes;
  }

  /** With a trailer of acceptable records, receiving also credits the endpoints
      with every entry in order and keeps the last guarded lookahead. */
  lemma {:induction false} ReceiveCreditsTrailer(epid: uint8, otherFlags: uint8, payload: seq<uint8>,
                                                     rs: seq<Record>, control1: uint8, pad: seq<uint8>, eps: seq<Endpoint>)
    requires otherFlags / 2 % 2 == 0 && |eps| == MANAGED_MAX && Encodable(rs)
    requires WithinLimits(payload, Some(Encode(rs)))
    requires forall r :: r in rs ==> Acceptable(r)
    ensures var f := DeviceFrame(epid, otherFlags, payload, Some(Encode(rs)), control1);
            ReceiveEffect(f + pad, LookAheadOf(f), eps) ==
            Replayed(ApplyEntries(eps, Reports(rs)), Done(LastGuarded(rs, NO_LOOKAHEAD)))
  {
    ReceiveInvertsFraming(epid, otherFlags, payload, Some(Encode(rs)), control1, pad);
    TrailerAcceptedIffRecords(Encode(rs), eps, NO_LOOKAHEAD);
  }

  lemma DissectBuilt(h: Header, payload: seq<uint8>, t: seq<uint8>, pad: seq<uint8>)
    requires h.payloadLen as int == |payload| + |t|
    requires if HasTrailer(h) then h.control0 as int == |t| >= 2 else t == []
    ensures var b := EncodeHeader(h) + (payload + t + pad);
            var la := EncodeHeader(h)[..4];
            && LookAheadPayload(la) == h.payloadLen
            && Dissect(b, la) == Parts(payload, if HasTrailer(h) then Some(t) else None)
  {
    var b := EncodeHeader(h) + (payload + t + pad);
    HeaderRoundTrip(h, payload + t + pad);
    HeaderRoundTrip(h, []);
    assert EncodeHeader(h) + [] == EncodeHeader(h);
    assert b[..4] == EncodeHeader(h)[..4];
    Slices(EncodeHeader(h), payload, t, pad);
  }

  lemma Slices(x: seq<uint8>, y: seq<uint8>, z: seq<uint8>, w: seq<uint8>)
    ensures var whole := (x + (y + z + w))[..|x| + |y| + |z|];
            && whole[|x|..|whole| - |z|] == y && whole[|whole| - |z|..] == z
            && (z == [] ==> whole[|x|..] == y)
  {
    var whole := (x + (y + z + w))[..|x| + |y| + |z|];
    assert whole == x + y + z;
  }
}
