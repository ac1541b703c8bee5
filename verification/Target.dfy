/** The device as the host sees it over SPI. Every register access may fail,
    and the device moves on its own between accesses. */
module Target {
  import opened Bytes
  import opened Trailer
  import opened Framing
  import opened Pools

  /** The bits of the interrupt cause and enable registers. */
  datatype Irq =
    | PktAvail | RdbufError | WrbufError | AddressError | LocalCpuIntr | CounterIntr
    | CpuOn | CpuIntr | HostCtrlWrDone | HostCtrlRdDone | WrbufBelowWmark

  const ERROR_IRQS: set<Irq> := {AddressError, WrbufError, RdbufError}
  const HCD_IRQ_SOURCES: set<Irq> := {WrbufBelowWmark} + ERROR_IRQS
  const ACCESS_DONE: set<Irq> := {HostCtrlRdDone, HostCtrlWrDone}
  /** The causes that the host controller layer acknowledges itself. */
  const HOST_IRQS: set<Irq> := HCD_IRQ_SOURCES + ACCESS_DONE

  const FIFO_SIZE: nat := 3163
  const WRBUF_RSVD_BYTES: nat := 5

  datatype Status = Ok | Pending | Failed

  /** The word of COUNT registers: a credit counter byte per pool, and one more. */
  type Counters = c: seq<uint8> | |c| == 4 witness [0, 0, 0, 0]

  class Device {
    var intrEnable: set<Irq>
    var intrCause: set<Irq>
    /** Set while the last write of the enable register failed. */
    var enableInDoubt: bool
    var watermark: nat
    /** Bytes held in the write FIFO, and bytes of a started transfer that are
        still to arrive there. */
    var fifoUsed: nat
    var inFlight: nat
    /** Per pool: frames that reached the device, credits returned for them, and
        credits announced in-band in frames queued so far. */
    var arrived: seq<nat>
    var returned: seq<nat>
    var announced: seq<nat>
    /** Frames waiting to be read by the host, and every frame clocked out to it. */
    var rxFrames: seq<seq<uint8>>
    /** Every frame ever queued for the host. */
    ghost var queued: seq<seq<uint8>>
    var wire: seq<seq<uint8>>
    /** How many bytes the next transfer moves. */
    var dmaSize: nat
    /** What reads of the registers showed: the causes last, every count of available
        bytes and of free bytes, every word of credit counters, and how often the core
        was asleep. */
    ghost var causeShown: set<Irq>
    ghost var rxShown: seq<nat>
    ghost var countersShown: seq<Counters>
    ghost var naps: nat
    ghost var spaceShown: seq<nat>
    /** Counts accesses that failed, receives that did not finish at once, and frames
        read that break the protocol. */
    ghost var faults: nat

    ghost predicate Valid()
      reads this`fifoUsed, this`inFlight, this`arrived, this`returned, this`announced, this`rxFrames
    {
      && fifoUsed + inFlight <= FIFO_SIZE
      && |arrived| == |returned| == |announced| == MANAGED_MAX
      && (forall p :: 0 <= p < MANAGED_MAX ==> announced[p] <= returned[p] <= arrived[p])
      && (forall f :: f in rxFrames ==> WellSized(f))
    }

    constructor ()
      ensures Valid() && intrEnable == {} && !enableInDoubt && fifoUsed == inFlight == 0
      ensures arrived == returned == announced == [0, 0, 0] && rxFrames == queued == wire == [] && faults == 0
      ensures rxShown == [] && countersShown == [] && spaceShown == [] && naps == 0
    {
      intrEnable, intrCause, enableInDoubt := {}, {}, false;
      watermark, fifoUsed, inFlight := 0, 0, 0;
      arrived, returned, announced := [0, 0, 0], [0, 0, 0], [0, 0, 0];
      rxFrames, queued, wire, faults := [], [], [], 0;
      dmaSize, causeShown, rxShown, countersShown, naps, spaceShown := 0, {}, [], [], 0, [];
    }

    // ----- register accesses -----

    method WriteEnable(irqs: set<Irq>) returns (ok: bool)
      modifies this`faults, this`intrEnable, this`enableInDoubt
      ensures ok <==> !enableInDoubt
      ensures ok ==> intrEnable == irqs
      ensures old(faults) <= faults && (ok || old(faults) < faults)
    {
      ok := *;
      var landed: bool := *;
      if ok || landed {
        intrEnable := irqs;
      }
      enableInDoubt := !ok;
      faults := if ok then faults else faults + 1;
    }

    method ReadCause() returns (ok: bool, irqs: set<Irq>)
      modifies this`faults, this`causeShown
      ensures ok ==> irqs == causeShown == intrCause
      ensures old(faults) <= faults && (ok || old(faults) < faults)
    {
      ok, irqs := *, *;
      if ok {
        irqs := intrCause;
        causeShown := irqs;
      }
      faults := if ok then faults else faults + 1;
    }

    method AckCause(irqs: set<Irq>) returns (ok: bool)
      modifies this`faults, this`intrCause
      ensures ok ==> intrCause == old(intrCause) - irqs
      ensures old(intrCause) - irqs <= intrCause
      ensures old(faults) <= faults && (ok || old(faults) < faults)
    {
      ok := *;
      var landed: bool := *;
      if ok || landed {
        intrCause := intrCause - irqs;
      }
      faults := if ok then faults else faults + 1;
    }

    method ReadWriteSpace() returns (ok: bool, space: uint32)
      requires Valid()
      modifies this`faults, this`spaceShown
      ensures spaceShown == if ok then old(spaceShown) + [space as nat] else old(spaceShown)
      ensures ok ==> space as int == FIFO_SIZE - fifoUsed
      ensures old(faults) <= faults && (ok || old(faults) < faults)
    {
      ok := *;
      space := if ok then FIFO_SIZE - fifoUsed else 0;
      spaceShown := if ok then spaceShown + [space as nat] else spaceShown;
      faults := if ok then faults else faults + 1;
    }

    method WriteWatermark(level: nat) returns (ok: bool)
      modifies this`faults, this`watermark
      ensures ok ==> watermark == level
      ensures old(faults) <= faults && (ok || old(faults) < faults)
    {
      ok := *;
      var landed: bool := *;
      if ok || landed {
        watermark := level;
      }
      faults := if ok then faults else faults + 1;
    }

    /** Whether the status register shows the core asleep. */
    method ReadAsleep() returns (ok: bool, asleep: bool)
      modifies this`faults, this`naps
      ensures naps == old(naps) + if ok && asleep then 1 else 0
      ensures old(faults) <= faults && (ok || old(faults) < faults)
    {
      ok, asleep := *, *;
      naps := naps + if ok && asleep then 1 else 0;
      faults := if ok then faults else faults + 1;
    }

    method ReadCounters() returns (ok: bool, collector: Counters)
      requires Valid()
      modifies this`faults, this`countersShown
      ensures countersShown == if ok then old(countersShown) + [collector] else old(countersShown)
      ensures ok ==> forall p :: 0 <= p < MANAGED_MAX ==> collector[p] as int == returned[p] % 0x100
      ensures old(faults) <= faults && (ok || old(faults) < faults)
    {
      ok := *;
      collector := [returned[0] % 0x100, returned[1] % 0x100, returned[2] % 0x100, 0];
      countersShown := if ok then countersShown + [collector] else countersShown;
      faults := if ok then faults else faults + 1;
    }

    /** Bytes in the read buffer; the register has twelve bits. */
    method ReadRxAvailable() returns (ok: bool, bytes: uint32)
      modifies this`faults, this`rxShown
      ensures rxShown == if ok then old(rxShown) + [bytes] else old(rxShown)
      ensures ok && bytes >= 4 ==> rxFrames != []
      ensures bytes < 0x1000
      ensures old(faults) <= faults && (ok || old(faults) < faults)
    {
      ok, bytes := *, *;
      if rxFrames == [] || bytes >= 0x1000 {
        bytes := 0;
      }
      rxShown := if ok then rxShown + [bytes] else rxShown;
      faults := if ok then faults else faults + 1;
    }

    /** One of the two lookahead registers, as the two bytes it peeks at. */
    method ReadLookAheadWord(index: nat) returns (ok: bool, bytes: seq<uint8>)
      requires Valid() && rxFrames != [] && index < 2
      modifies this`faults
      ensures |bytes| == 2
      ensures ok ==> |rxFrames[0]| >= HDR_LENGTH && bytes == rxFrames[0][2 * index..2 * index + 2]
      ensures old(faults) <= faults && (ok || old(faults) < faults)
    {
      assert rxFrames[0] in rxFrames;
      ok := *;
      bytes := rxFrames[0][2 * index..2 * index + 2];
      faults := if ok then faults else faults + 1;
    }

    method WriteDmaSize(length: nat) returns (ok: bool)
      modifies this`faults, this`dmaSize
      ensures ok ==> dmaSize == length
      ensures old(faults) <= faults && (ok || old(faults) < faults)
    {
      ok := *;
      var landed: bool := *;
      if ok || landed {
        dmaSize := length;
      }
      faults := if ok then faults else faults + 1;
    }

    // ----- data transfers -----

    /** A mailbox write of a padded frame, as long as the size register says. The FIFO also stores a few bytes of
        address and length with each frame, and must have room for all of it. */
    method TransferOut(w: seq<uint8>) returns (status: Status)
      requires Valid() && |w| >= HDR_LENGTH && dmaSize == |w|
      requires fifoUsed + inFlight + |w| + WRBUF_RSVD_BYTES <= FIFO_SIZE
      modifies this`fifoUsed, this`inFlight, this`arrived, this`wire, this`faults
      ensures Valid()
      ensures old(faults) <= faults && (status != Failed || old(faults) < faults)
      ensures fifoUsed + inFlight <= old(fifoUsed + inFlight) + |w| + WRBUF_RSVD_BYTES
      ensures status != Pending ==> inFlight == old(inFlight)
      ensures arrived == old(arrived) || (var p := PoolOf(w[0]); arrived == old(arrived)[p := old(arrived)[p] + 1])
      ensures status != Failed ==> wire == old(wire) + [w] && arrived != old(arrived)
      ensures status == Failed ==> wire == old(wire) || wire == old(wire) + [w]
    {
      status := *;
      faults := if status == Failed then faults + 1 else faults;
      var cost := |w| + WRBUF_RSVD_BYTES;
      var counts: bool := *;
      if status != Failed || counts {
        var p := PoolOf(w[0]);
        arrived := arrived[p := arrived[p] + 1];
        wire := wire + [w];
      }
      match status {
        case Ok => fifoUsed := fifoUsed + cost;
        case Pending => inFlight := inFlight + cost;
        case Failed =>
          var some: int := *;
          if 0 <= some <= cost {
            fifoUsed := fifoUsed + some;
          }
      }
    }

    /** A mailbox read of the frame at the front, padded to the length asked for. */
    method TransferIn(length: nat) returns (status: Status, bytes: seq<uint8>)
      requires Valid() && rxFrames != [] && length >= |rxFrames[0]| && dmaSize == length
      modifies this`rxFrames, this`faults
      ensures Valid()
      ensures old(faults) <= faults && (status != Ok || !Courteous(old(rxFrames)[0]) ==> old(faults) < faults)
      ensures status == Ok ==> rxFrames == old(rxFrames)[1..] && |bytes| == length && old(rxFrames)[0] <= bytes
      ensures status != Ok ==> rxFrames == old(rxFrames)
    {
      status := *;
      bytes := [];
      faults := if status != Ok || !Courteous(rxFrames[0]) then faults + 1 else faults;
      if status == Ok {
        var pad: seq<uint8> := seq(length - |rxFrames[0]|, _ => 0);
        bytes := rxFrames[0] + pad;
        rxFrames := rxFrames[1..];
      }
    }

    // ----- moves of the device itself -----

    method Drain(bytes: nat)
      requires Valid() && bytes <= fifoUsed
      modifies this`fifoUsed
      ensures Valid() && fifoUsed == old(fifoUsed) - bytes
    {
      fifoUsed := fifoUsed - bytes;
    }

    method Arrive(bytes: nat)
      requires Valid() && bytes <= inFlight
      modifies this`fifoUsed, this`inFlight
      ensures Valid() && inFlight == old(inFlight) - bytes && fifoUsed == old(fifoUsed) + bytes
    {
      fifoUsed, inFlight := fifoUsed + bytes, inFlight - bytes;
    }

    /** The device hands back a credit for a frame that arrived. */
    method ReturnCredit(p: nat)
      requires Valid() && p < MANAGED_MAX && returned[p] < arrived[p]
      modifies this`returned
      ensures Valid() && returned == old(returned)[p := old(returned)[p] + 1]
    {
      returned := returned[p := returned[p] + 1];
    }

    /** Whether the credits a frame reports were all returned and not announced yet. */
    predicate MayAnnounce(f: seq<uint8>)
      requires |f| >= HDR_LENGTH && |announced| == |returned| == MANAGED_MAX
      reads this`announced, this`returned
    {
      forall p :: 0 <= p < MANAGED_MAX ==> announced[p] + ReportedIn(p, FrameReports(f)) <= returned[p]
    }

    method QueueFrame(f: seq<uint8>)
      requires Valid() && WellSized(f) && MayAnnounce(f)
      modifies this`rxFrames, this`queued, this`announced
      ensures Valid() && rxFrames == old(rxFrames) + [f] && queued == old(queued) + [f]
      ensures forall p :: 0 <= p < MANAGED_MAX ==> announced[p] == old(announced)[p] + ReportedIn(p, FrameReports(f))
    {
      announced := AddReports(announced, FrameReports(f));
      rxFrames, queued := rxFrames + [f], queued + [f];
    }

    method Raise(irqs: set<Irq>)
      modifies this`intrCause
      ensures intrCause == old(intrCause) + irqs
    {
      intrCause := intrCause + irqs;
    }
  }
}
