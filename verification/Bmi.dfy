/** Chunked access to target memory over the boot message interface, against a
    device that follows the command format. */
module Bmi {
  import opened Bytes
  import opened TargetMemory

  const DATASZ_MAX: nat := 256
  const HEADER: nat := 12
  const CHUNK_MAX: nat := DATASZ_MAX - HEADER
  const CMDBUF_SZ: nat := DATASZ_MAX + HEADER
  const READ_MEMORY: uint32 := 2
  const WRITE_MEMORY: uint32 := 3
  const COMMUNICATION_TIMEOUT: nat := 100000

  /** The header of both commands: command, address, length. */
  function Header(cid: uint32, address: uint32, length: uint32): (b: seq<uint8>)
    ensures |b| == HEADER
  {
    Bytes32(cid) + (Bytes32(address) + Bytes32(length))
  }

  lemma HeaderReads(cid: uint32, address: uint32, length: uint32, data: seq<uint8>)
    ensures var cmd := Header(cid, address, length) + data;
            && Read32(cmd[..4]) == cid && Read32(cmd[4..8]) == address && Read32(cmd[8..12]) == length
            && cmd[12..] == data
  {
    var cmd := Header(cid, address, length) + data;
    assert cmd[..4] == Bytes32(cid) && cmd[4..8] == Bytes32(address) && cmd[8..12] == Bytes32(length);
    Read32OfBytes32(cid);
    Read32OfBytes32(address);
    Read32OfBytes32(length);
  }

  datatype Executed = Executed(mem: Memory, response: seq<uint8>)

  /** What the device makes of a command. */
  function Execute(mem: Memory, cmd: seq<uint8>): Executed
  {
    if |cmd| < HEADER then Executed(mem, [])
    else
      var cid, address, length := Read32(cmd[..4]), Read32(cmd[4..8]), Read32(cmd[8..12]);
      if length > DATASZ_MAX then Executed(mem, [])
      else if cid == READ_MEMORY then Executed(mem, Load(mem, address, length))
      else if cid == WRITE_MEMORY && |cmd| == HEADER + length as int then Executed(Store(mem, address, cmd[HEADER..]), [])
      else Executed(mem, [])
  }

  /** What a mailbox read shows of a response of which only `ready` bytes have
      arrived: the rest is whatever the bus returns. */
  function Arrived(response: seq<uint8>, ready: nat, noise: seq<uint8>, n: nat): seq<uint8>
    requires ready <= |response| && |noise| >= n
  {
    if n <= ready then response[..n] else response[..ready] + noise[ready..n]
  }

  /** How much of a response has arrived when it is read, and what the bus returns
      for the rest. */
  datatype Timing = Timing(ready: nat, noise: seq<uint8>)

  /** The code waits for a word to arrive, but only when it reads a word or more. */
  predicate AfterWait(n: nat, ready: nat)
  {
    n >= 4 ==> ready >= 4
  }

  predicate Possible(t: Timing, response: seq<uint8>, n: nat)
  {
    t.ready <= |response| && |t.noise| == n && AfterWait(n, t.ready)
  }

  /** Reading `n` bytes of a response is right at every possible timing exactly for
      nothing and for one whole word. */
  lemma ReadIsRightIffWord(response: seq<uint8>, n: nat)
    requires n <= |response|
    ensures (forall t :: Possible(t, response, n) ==> Arrived(response, t.ready, t.noise, n) == response[..n])
            <==> n == 0 || n == 4
  {
    if n != 0 && n != 4 {
      var ready := if n < 4 then 0 else 4;
      var other: uint8 := if response[ready] == 0 then 1 else 0;
      var t := Timing(ready, seq(n, _ => other));
      assert Possible(t, response, n);
      assert Arrived(response, t.ready, t.noise, n)[ready] == other;
      assert response[..n][ready] == response[ready];
    }
  }

  // ----- reads of any length -----

  /** The timing of the last, partial word of a read. */
  predicate TailTiming(t: Timing, length: nat)
  {
    t.ready <= length % 4 && |t.noise| == length % 4
  }

  /** What a read shows: whole words of memory, then what arrived of the tail. */
  function ReadBytes(mem: Memory, a: uint32, length: nat, t: Timing): seq<uint8>
    requires TailTiming(t, length)
  {
    var tail := length % 4;
    Load(mem, a, length - tail) + Arrived(Load(mem, Next(a, length - tail), tail), t.ready, t.noise, tail)
  }

  /** A read of any length is right at every timing exactly when the length is a
      whole number of words. */
  lemma MemoryReadIsRightIffWords(mem: Memory, a: uint32, length: nat)
    ensures (forall t :: TailTiming(t, length) ==> ReadBytes(mem, a, length, t) == Load(mem, a, length)) <==> length % 4 == 0
  {
    hide ReadBytes, Load;
    if length % 4 == 0 {
      forall t | TailTiming(t, length)
        ensures ReadBytes(mem, a, length, t) == Load(mem, a, length)
      {
        WordsAreRight(mem, a, length, t);
      }
    } else {
      var t := TailIsWrong(mem, a, length);
    }
  }

  lemma WordsAreRight(mem: Memory, a: uint32, length: nat, t: Timing)
    requires length % 4 == 0 && TailTiming(t, length)
    ensures ReadBytes(mem, a, length, t) == Load(mem, a, length)
  {
    NothingLoaded(mem, Next(a, length));
    assert Arrived([], t.ready, t.noise, 0) == [];
  }

  lemma TailIsWrong(mem: Memory, a: uint32, length: nat) returns (t: Timing)
    requires length % 4 != 0
    ensures TailTiming(t, length) && ReadBytes(mem, a, length, t) != Load(mem, a, length)
  {
    hide Load, Next;
    var tail := length % 4;
    var words := length - tail;
    LoadConcat(mem, a, words, tail);
    var response := Load(mem, Next(a, words), tail);
    var other: uint8 := if response[0] == 0 then 1 else 0;
    t := Timing(0, seq(tail, _ => other));
    assert ReadBytes(mem, a, length, t)[words] == other;
    assert Load(mem, a, length)[words] == response[0];
  }

  /** One byte, read before it has arrived. */
  lemma OneByteReadEarly()
    ensures var mem: Memory := map[0 := 7];
            var t := Timing(0, [0]);
            TailTiming(t, 1) && ReadBytes(mem, 0, 1, t) == [0] && Load(mem, 0, 1) == [7]
  {
    var mem: Memory := map[0 := 7];
    assert Load(mem, 0, 0) == [] && Load(mem, Next(0, 0), 1) == [7];
  }

  class Target {
    var mem: Memory
    /** The response bytes not read yet, and how many of them have arrived. */
    var response: seq<uint8>
    var ready: nat
    /** How often the credit counter was read, and the low byte it showed last; a
        failed read may leave anything. */
    ghost var polls: nat
    ghost var shown: uint32
    /** How often the count of available bytes was read, and how many accesses failed. */
    ghost var looks: nat
    ghost var faults: nat

    constructor ()
      ensures mem == map[] && response == [] && ready == 0 && polls == looks == faults == 0
    {
      mem, response, ready := map[], [], 0;
      polls, shown, looks, faults := 0, 0, 0, 0;
    }

    /** The last of a whole time-out of polls showed no credit. */
    ghost predicate NoCredit(polls0: nat)
      reads this`polls, this`shown
    {
      polls >= polls0 + COMMUNICATION_TIMEOUT && shown == 0
    }

    /** A whole time-out of looks went by, and no word has arrived. */
    ghost predicate NoWord(looks0: nat)
      reads this`looks, this`ready
    {
      looks >= looks0 + COMMUNICATION_TIMEOUT && ready < 4
    }

    /** What keeps an operation from succeeding, since the counts were as given. */
    ghost predicate Hindered(faults0: nat, polls0: nat, looks0: nat)
      reads this`faults, this`polls, this`shown, this`looks, this`ready
    {
      faults > faults0 || NoCredit(polls0) || NoWord(looks0)
    }

    /** The command credit counter; what it shows is up to the device. */
    method ReadCredits() returns (ok: bool, credits: uint32)
      modifies this`polls, this`shown, this`faults
      ensures polls == old(polls) + 1 && shown == if ok then credits % 0x100 else credits
      ensures faults == old(faults) + if ok then 0 else 1
    {
      ok := *;
      faults := faults + if ok then 0 else 1;
      var value: int := *;
      credits := if 0 <= value < 0x1_0000_0000 then value else 0;
      polls, shown := polls + 1, if ok then credits % 0x100 else credits;
    }

    method WriteMailbox(cmd: seq<uint8>) returns (ok: bool)
      requires ready <= |response|
      modifies this`mem, this`response, this`faults
      ensures ready <= |response|
      ensures faults == old(faults) + if ok then 0 else 1
      ensures ok ==> mem == Execute(old(mem), cmd).mem && response == old(response) + Execute(old(mem), cmd).response
      ensures !ok ==> mem == old(mem) || mem == Execute(old(mem), cmd).mem
    {
      ok := *;
      faults := faults + if ok then 0 else 1;
      var landed: bool := *;
      if ok || landed {
        var e := Execute(mem, cmd);
        mem, response := e.mem, response + e.response;
      }
    }

    /** The register of available bytes; more of the response may have arrived. */
    method ReadAvailable() returns (ok: bool, bytes: nat)
      requires ready <= |response|
      modifies this`ready, this`looks, this`faults
      ensures old(ready) <= ready <= |response| && (ok ==> bytes == ready)
      ensures looks == old(looks) + 1 && faults == old(faults) + if ok then 0 else 1
    {
      ok := *;
      looks, faults := looks + 1, faults + if ok then 0 else 1;
      var arrived: int := *;
      if ready <= arrived <= |response| {
        ready := arrived;
      }
      bytes := ready;
    }

    /** A mailbox read; what has not arrived reads as anything. */
    method ReadMailbox(length: nat) returns (ok: bool, bytes: seq<uint8>, ghost noise: seq<uint8>)
      requires ready <= |response|
      modifies this`response, this`ready, this`faults
      ensures faults == old(faults) + if ok then 0 else 1
      ensures ready <= |response| && |bytes| == length
      ensures |noise| == length && bytes == Arrived(old(response), old(ready), noise, length)
      ensures ok && old(ready) >= length ==> bytes == old(response)[..length] && response == old(response)[length..]
    {
      ok := *;
      faults := faults + if ok then 0 else 1;
      var read: seq<uint8> := *;
      if |read| != length {
        read := seq(length, _ => 0);
      }
      bytes, noise := Arrived(response, ready, read, length), read;
      var n := if length <= ready then length else ready;
      if ok {
        response, ready := response[n..], ready - n;
      }
    }
  }

  class Host {
    const cmdBuf: array<uint8>
    const target: Target
    var done: bool

    ghost predicate Valid()
      reads this, target
    {
      cmdBuf.Length == CMDBUF_SZ && target.ready <= |target.response|
    }

    constructor (target: Target)
      requires target.ready <= |target.response|
      ensures Valid() && fresh(cmdBuf) && this.target == target && !done
    {
      cmdBuf := new uint8[CMDBUF_SZ](_ => 0);
      this.target, done := target, false;
    }

    /** bmiBufferSend: waits for a command credit, within the timeout. */
    method BufferSend(length: nat) returns (ok: bool)
      requires Valid() && length <= CMDBUF_SZ
      modifies target`mem, target`response, target`polls, target`shown, target`faults
      ensures Valid()
      ensures target.polls > old(target.polls) && old(target.faults) <= target.faults
      ensures target.faults == old(target.faults) ==> (ok <==> target.shown != 0)
      ensures !ok ==> old(target.faults) < target.faults || target.NoCredit(old(target.polls))
      ensures ok ==> target.shown != 0
      ensures target.shown == 0 ==> !ok && target.mem == old(target.mem) && target.response == old(target.response)
      ensures ok ==>
                && target.mem == Execute(old(target.mem), cmdBuf[..length]).mem
                && target.response == old(target.response) + Execute(old(target.mem), cmdBuf[..length]).response
      ensures !ok ==> target.mem == old(target.mem) || target.mem == Execute(old(target.mem), cmdBuf[..length]).mem
    {
      var credits := WaitForCredit();
      if credits == 0 {
        return false;
      }
      ok := target.WriteMailbox(cmdBuf[..length]);
    }

    method WaitForCredit() returns (credits: uint32)
      modifies target`polls, target`shown, target`faults
      ensures target.polls > old(target.polls) && credits == target.shown && old(target.faults) <= target.faults
      ensures credits == 0 ==> old(target.faults) < target.faults || target.NoCredit(old(target.polls))
    {
      credits := 0;
      var timeout := COMMUNICATION_TIMEOUT;
      while timeout > 0 && credits == 0
        invariant timeout == COMMUNICATION_TIMEOUT || (target.polls > old(target.polls) && credits == target.shown)
        invariant target.polls == old(target.polls) + (COMMUNICATION_TIMEOUT - timeout)
        invariant timeout == COMMUNICATION_TIMEOUT ==> credits == 0
        invariant target.faults == old(target.faults)
      {
        timeout := timeout - 1;
        var ok;
        ok, credits := target.ReadCredits();
        if !ok {
          break;
        }
        credits := credits % 0x100;
      }
    }

    /** bmiBufferReceive: waits for a word to arrive, but only when a word or more is
        asked for. */
    method BufferReceive(length: nat, wantTimeout: bool) returns (ok: bool, bytes: seq<uint8>, ghost t: Timing)
      requires Valid() && wantTimeout
      modifies target`response, target`ready, target`looks, target`faults
      ensures Valid() && |bytes| == length && old(target.faults) <= target.faults && old(target.looks) <= target.looks
      ensures !ok ==> old(target.faults) < target.faults || (length >= 4 && target.NoWord(old(target.looks)))
      ensures ok ==> Possible(t, old(target.response), length) && bytes == Arrived(old(target.response), t.ready, t.noise, length)
      ensures ok && t.ready >= length ==> target.response == old(target.response)[length..]
    {
      t := Timing(0, []);
      if length >= 4 {
        var wordAvailable, timeout := false, COMMUNICATION_TIMEOUT;
        while (!wantTimeout || timeout > 0) && !wordAvailable
          invariant Valid() && target.response == old(target.response)
          invariant wordAvailable <==> target.looks > old(target.looks) && target.ready >= 4
          invariant target.looks == old(target.looks) + (COMMUNICATION_TIMEOUT - timeout)
          invariant target.faults == old(target.faults)
          decreases timeout
        {
          timeout := timeout - 1;
          var read, available := target.ReadAvailable();
          if !read {
            break;
          }
          if available >= 4 {
            wordAvailable := true;
          }
        }
        if !wordAvailable {
          return false, seq(length, _ => 0), t;
        }
      }
      ghost var ready := target.ready;
      ghost var noise;
      ok, bytes, noise := target.ReadMailbox(length);
      t := Timing(ready, noise);
    }

    /** Fills the shared command buffer. */
    method FillCommand(cid: uint32, address: uint32, length: uint32, data: seq<uint8>) returns (offset: nat)
      requires Valid() && HEADER + |data| <= CMDBUF_SZ
      modifies cmdBuf
      ensures offset == HEADER + |data| && cmdBuf[..offset] == Header(cid, address, length) + data
    {
      var header := Header(cid, address, length);
      forall i | 0 <= i < HEADER {
        cmdBuf[i] := header[i];
      }
      forall i | 0 <= i < |data| {
        cmdBuf[HEADER + i] := data[i];
      }
      offset := HEADER + |data|;
      assert cmdBuf[..offset] == header + data;
    }

    /** The first `n` bytes of the buffer are the target's, which is as it was. */
    ghost predicate Reading(before: Memory, address: uint32, buffer: array<uint8>, n: nat)
      reads target, buffer
    {
      n <= buffer.Length && target.mem == before && target.response == [] && buffer[..n] == Load(before, address, n)
    }

    /** The last bytes came in as the timing `t` let them. */
    ghost predicate TailRead(before: Memory, address: uint32, buffer: array<uint8>, length: nat, t: Timing)
      reads buffer
    {
      length <= buffer.Length && TailTiming(t, length) && buffer[..length] == ReadBytes(before, address, length, t)
    }

    /** BMIReadMemory, four bytes at a time: whole words are the target's memory, and
        a tail is what had arrived of it. */
    method ReadMemory(address: uint32, buffer: array<uint8>, length: uint32) returns (ok: bool, ghost t: Timing)
      requires Valid() && length as int <= buffer.Length && buffer != cmdBuf && target.response == []
      modifies cmdBuf, buffer, target
      ensures Valid() && target.mem == old(target.mem)
      ensures done ==> !ok && buffer[..] == old(buffer[..])
      ensures !done && !ok ==> target.Hindered(old(target.faults), old(target.polls), old(target.looks))
      ensures ok ==> TailRead(old(target.mem), address, buffer, length, t)
      ensures ok && length % 4 == 0 ==> Reading(old(target.mem), address, buffer, length)
      ensures buffer[length..] == old(buffer[length..])
    {
      hide Load, ReadBytes;
      t := Timing(0, []);
      if done {
        return false, t;
      }
      var remaining, a := length, address;
      NothingLoaded(target.mem, address);
      assert Reading(target.mem, address, buffer, 0) && InWords(length - remaining);
      hide Reading, Next, Valid, InWords, TailRead;
      while remaining > 0
        invariant Valid() && target.mem == old(target.mem) && 0 <= remaining <= length && a == Next(address, length - remaining)
        invariant buffer[length..] == old(buffer[length..])
        invariant Monotone(old(target.faults), old(target.polls), old(target.looks))
        invariant InWords(length - remaining) ==> Reading(old(target.mem), address, buffer, length - remaining)
        invariant InWords(length - remaining) || (remaining == 0 && TailRead(old(target.mem), address, buffer, length, t))
      {
        var rxlen := if remaining < 4 then remaining else 4;
        WordsAndTail(length, length - remaining, rxlen);
        ok, t := ReadChunk(a, address, buffer, length - remaining, length, rxlen);
        if !ok {
          return;
        }
        NextNext(address, length - remaining, rxlen);
        remaining := remaining - rxlen;
        a := Next(a, rxlen);
      }
      if InWords(length) {
        t := WordsHaveNoTail(old(target.mem), address, buffer, length);
      } else {
        NotWords(length);
      }
      return true, t;
    }

    /** The target's counts only grow. */
    ghost predicate Monotone(faults: nat, polls: nat, looks: nat)
      reads target`faults, target`polls, target`looks
    {
      faults <= target.faults && polls <= target.polls && looks <= target.looks
    }

    lemma WordsHaveNoTail(before: Memory, address: uint32, buffer: array<uint8>, length: nat) returns (t: Timing)
      requires InWords(length) && Reading(before, address, buffer, length)
      ensures TailRead(before, address, buffer, length, t)
    {
      t := Timing(0, []);
      MemoryReadIsRightIffWords(before, address, length);
      assert TailTiming(t, length);
    }

    /** One round of BMIReadMemory. */
    method ReadChunk(a: uint32, ghost address: uint32, buffer: array<uint8>, at: nat, ghost length: nat, rxlen: uint32)
      returns (ok: bool, ghost t: Timing)
      requires Valid() && at + rxlen as int <= length <= buffer.Length && buffer != cmdBuf && 1 <= rxlen <= 4
      requires a == Next(address, at) && Reading(target.mem, address, buffer, at)
      requires rxlen < 4 ==> at == length - length % 4 && rxlen == length % 4
      modifies cmdBuf, buffer, target
      ensures Valid() && target.mem == old(target.mem)
      ensures buffer[length..] == old(buffer[length..])
      ensures ok && rxlen == 4 ==> Reading(target.mem, address, buffer, at + 4)
      ensures ok && rxlen < 4 ==> TailRead(target.mem, address, buffer, length, t)
      ensures !ok ==> target.Hindered(old(target.faults), old(target.polls), old(target.looks))
      ensures Monotone(old(target.faults), old(target.polls), old(target.looks))
    {
      hide Load, Next, Arrived;
      t := Timing(0, []);
      LoadConcat(target.mem, address, at, rxlen);
      NothingMissing(Load(target.mem, a, rxlen));
      var bytes;
      ok, bytes, t := FetchChunk(a, rxlen);
      if !ok {
        return;
      }
      CopyBack(bytes, buffer, at);
      assert buffer[..at + |bytes|] == old(buffer[..at]) + bytes;
    }

    /** The command of a round, and the response to it. */
    method FetchChunk(a: uint32, rxlen: uint32) returns (ok: bool, bytes: seq<uint8>, ghost t: Timing)
      requires Valid() && target.response == [] && 1 <= rxlen <= 4
      modifies cmdBuf, target
      ensures Valid() && target.mem == old(target.mem) && |bytes| == rxlen as int
      ensures ok ==>
                && Possible(t, Load(target.mem, a, rxlen), rxlen)
                && bytes == Arrived(Load(target.mem, a, rxlen), t.ready, t.noise, rxlen)
      ensures ok && rxlen == 4 ==> target.response == []
      ensures !ok ==> target.Hindered(old(target.faults), old(target.polls), old(target.looks))
      ensures Monotone(old(target.faults), old(target.polls), old(target.looks))
    {
      hide Execute, Load, Header;
      t := Timing(0, []);
      bytes := seq(rxlen, _ => 0);
      var offset := FillCommand(READ_MEMORY, a, rxlen, []);
      ReadExecutes(target.mem, a, rxlen);
      ok := BufferSend(offset);
      if ok {
        ok, bytes, t := BufferReceive(rxlen, true);
      }
    }

    /** The bytes received into the command buffer go on to the caller's. */
    method CopyBack(bytes: seq<uint8>, buffer: array<uint8>, at: nat)
      requires cmdBuf.Length == CMDBUF_SZ && |bytes| <= 4 && at + |bytes| <= buffer.Length && buffer != cmdBuf
      modifies cmdBuf, buffer
      ensures buffer[..] == old(buffer[..at]) + bytes + old(buffer[at + |bytes|..])
    {
      forall i | 0 <= i < |bytes| {
        cmdBuf[i] := bytes[i];
      }
      forall i | 0 <= i < |bytes| {
        buffer[at + i] := cmdBuf[i];
      }
    }

    /** BMIWriteMemory: chunks of at most 244 bytes, the last rounded up to whole
        words, which reads past the caller's bytes. What a failed write leaves
        behind is a whole number of words from the front. */
    method WriteMemory(address: uint32, buffer: array<uint8>, length: uint32) returns (ok: bool)
      requires Valid() && RoundUp4(length) <= buffer.Length && buffer != cmdBuf && target.response == []
      modifies cmdBuf, target`mem, target`response, target`polls, target`shown, target`faults
      ensures Valid() && old(target.faults) <= target.faults && old(target.polls) <= target.polls
      ensures done ==> !ok && target.mem == old(target.mem)
      ensures !done && !ok ==> old(target.faults) < target.faults || target.NoCredit(old(target.polls))
      ensures ok ==> target.mem == Store(old(target.mem), address, buffer[..RoundUp4(length)]) && target.response == []
      ensures StoredPrefix(old(target.mem), target.mem, address, buffer[..RoundUp4(length)])
    {
      hide Store, StoredPrefix, Next;
      ghost var data := buffer[..RoundUp4(length)];
      NothingStored(target.mem, address, data);
      if done {
        return false;
      }
      var remaining, a := length as int, address;
      ghost var n: nat := 0;
      while remaining > 0
        invariant Valid() && target.response == [] && 0 <= remaining
        invariant old(target.faults) <= target.faults && old(target.polls) <= target.polls
        invariant n % 4 == 0 && n <= |data| && a == Next(address, n)
        invariant if remaining > 0 then n == length - remaining else n == |data|
        invariant target.mem == Store(old(target.mem), address, data[..n])
      {
        var src := length - remaining;
        var txlen;
        remaining, txlen := ChunkLength(remaining, length);
        SliceOfPrefix(buffer[..], |data|, n, n + txlen);
        ok := WriteChunk(a, buffer[src..src + txlen]);
        StoreMore(old(target.mem), address, data, n, txlen);
        if !ok {
          PrefixStored(old(target.mem), target.mem, address, data, n, txlen);
          return false;
        }
        remaining := remaining - txlen;
        NextNext(address, n, txlen);
        a := Next(a, txlen);
        n := n + txlen;
      }
      assert data[..n] == data;
      PrefixStored(old(target.mem), target.mem, address, data, n, 0);
      return true;
    }

    /** How much of what remains goes into one chunk; a last piece is rounded up. */
    static method ChunkLength(remaining: nat, ghost length: uint32) returns (remaining': nat, txlen: nat)
      requires 0 < remaining <= length && (length - remaining) % 4 == 0
      ensures txlen % 4 == 0 && 0 < txlen <= CHUNK_MAX && txlen <= remaining'
      ensures txlen == if remaining < CHUNK_MAX then RoundUp4(remaining) else CHUNK_MAX
      ensures length - remaining + txlen <= RoundUp4(length)
      ensures if remaining' == txlen then length - remaining + txlen == RoundUp4(length) else remaining' == remaining
    {
      remaining' := remaining;
      if remaining' < CHUNK_MAX {
        if remaining' % 4 != 0 {
          remaining' := remaining' + (4 - remaining' % 4);
        }
        txlen := remaining';
      } else {
        txlen := CHUNK_MAX;
      }
    }

    method WriteChunk(a: uint32, data: seq<uint8>) returns (ok: bool)
      requires Valid() && |data| <= CHUNK_MAX
      modifies cmdBuf, target`mem, target`response, target`polls, target`shown, target`faults
      ensures Valid() && old(target.faults) <= target.faults && old(target.polls) <= target.polls
      ensures !ok ==> old(target.faults) < target.faults || target.NoCredit(old(target.polls))
      ensures ok ==> target.mem == Store(old(target.mem), a, data) && target.response == old(target.response)
      ensures !ok ==> target.mem == old(target.mem) || target.mem == Store(old(target.mem), a, data)
    {
      hide Execute, Store;
      var offset := FillCommand(WRITE_MEMORY, a, |data|, data);
      WriteExecutes(target.mem, a, data);
      ok := BufferSend(offset);
    }
  }

  /** A word that has arrived as a whole is read as it is. */
  lemma NothingMissing(response: seq<uint8>)
    ensures forall t :: Possible(t, response, 4) && |response| == 4 ==> Arrived(response, t.ready, t.noise, 4) == response
  {
  }

  predicate InWords(n: nat) { n % 4 == 0 }

  /** A round of four bytes goes on in words; a shorter one is the tail. */
  lemma WordsAndTail(length: nat, at: nat, rxlen: nat)
    requires at < length && rxlen == if length - at < 4 then length - at else 4
    ensures InWords(at) && rxlen == 4 ==> InWords(at + rxlen)
    ensures InWords(at) && rxlen < 4 ==> !InWords(at + rxlen) && at == length - length % 4 && rxlen == length % 4
  {
  }

  lemma NotWords(length: nat)
    ensures InWords(length) <==> length % 4 == 0
  {
  }

  lemma ReadExecutes(mem: Memory, a: uint32, length: uint32)
    requires length <= 4
    ensures Execute(mem, Header(READ_MEMORY, a, length) + []) == Executed(mem, Load(mem, a, length))
  {
    HeaderReads(READ_MEMORY, a, length, []);
  }

  lemma WriteExecutes(mem: Memory, a: uint32, data: seq<uint8>)
    requires |data| <= CHUNK_MAX
    ensures Execute(mem, Header(WRITE_MEMORY, a, |data|) + data) == Executed(Store(mem, a, data), [])
  {
    HeaderReads(WRITE_MEMORY, a, |data|, data);
  }

  /** A write followed by a read of the same place, of any multiple of four up to
      what was stored: the identity, wherever in the address space. */
  method WriteThenRead(host: Host, address: uint32, from: array<uint8>, length: uint32, to: array<uint8>, n: uint32) returns (ok: bool)
    requires host.Valid() && host.target.response == []
    requires RoundUp4(length) <= from.Length && n as int <= RoundUp4(length) && n % 4 == 0 && n as int <= to.Length
    requires from != host.cmdBuf && to != host.cmdBuf && from != to
    modifies host.cmdBuf, to, host.target
    ensures ok ==> to[..n] == from[..n] && host.target.mem == Store(old(host.target.mem), address, from[..RoundUp4(length)])
    ensures !host.done && !ok ==>
              host.target.Hindered(old(host.target.faults), old(host.target.polls), old(host.target.looks))
  {
    hide Store, Load, StoredPrefix;
    ok := host.WriteMemory(address, from, length);
    if ok {
      LoadPrefix(old(host.target.mem), address, from[..RoundUp4(length)], n);
      ghost var t;
      ok, t := host.ReadMemory(address, to, n);
    }
  }
}
