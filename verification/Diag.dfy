/** The diagnostic window: single words of target memory, reached through one
    data register and two address registers whose lowest byte starts the access. */
module Diag {
  import opened Bytes
  import opened TargetMemory

  const WINDOW_DATA: nat := 0x474
  const WINDOW_WRITE_ADDR: nat := 0x478
  const WINDOW_READ_ADDR: nat := 0x47C

  type Word = b: seq<uint8> | |b| == 4 witness [0, 0, 0, 0]

  datatype Window = Window(mem: Memory, data: Word, writeAddr: Word, readAddr: Word)

  /** One byte reaches a register of the window. */
  function PokeByte(w: Window, reg: nat, b: uint8): Window
  {
    if WINDOW_DATA <= reg < WINDOW_DATA + 4 then w.(data := w.data[reg - WINDOW_DATA := b])
    else if WINDOW_WRITE_ADDR <= reg < WINDOW_WRITE_ADDR + 4 then
      var addr: Word := w.writeAddr[reg - WINDOW_WRITE_ADDR := b];
      var w' := w.(writeAddr := addr);
      if reg == WINDOW_WRITE_ADDR then w'.(mem := Store(w.mem, Read32(addr), w.data)) else w'
    else if WINDOW_READ_ADDR <= reg < WINDOW_READ_ADDR + 4 then
      var addr: Word := w.readAddr[reg - WINDOW_READ_ADDR := b];
      var w' := w.(readAddr := addr);
      if reg == WINDOW_READ_ADDR then w'.(data := Load(w.mem, Read32(addr), 4)) else w'
    else w
  }

  /** An access of several bytes, to consecutive registers or all to one. */
  function Poke(w: Window, reg: nat, increment: bool, bytes: seq<uint8>): Window
    decreases |bytes|
  {
    if bytes == [] then w
    else Poke(PokeByte(w, reg, bytes[0]), if increment then reg + 1 else reg, increment, bytes[1..])
  }

  /** The bytes of the window that a complete access leaves. */
  function Triggered(w: Window, reg: nat, address: uint32): Window
  {
    if reg == WINDOW_WRITE_ADDR then w.(mem := Store(w.mem, address, w.data), writeAddr := Bytes32(address))
    else w.(data := Load(w.mem, address, 4), readAddr := Bytes32(address))
  }

  predicate IsAddressRegister(reg: nat)
  {
    reg == WINDOW_WRITE_ADDR || reg == WINDOW_READ_ADDR
  }

  /** The address bytes that an address register holds. */
  function AddressIn(w: Window, reg: nat): Word
  {
    if reg == WINDOW_WRITE_ADDR then w.writeAddr else w.readAddr
  }

  function WithAddress(w: Window, reg: nat, addr: Word): Window
  {
    if reg == WINDOW_WRITE_ADDR then w.(writeAddr := addr) else w.(readAddr := addr)
  }

  /** A byte hit again and again in one of the upper address bytes is set there,
      and nothing else happens. */
  lemma {:induction false} PokeUpperByte(w: Window, reg: nat, i: nat, b: uint8, bytes: seq<uint8>)
    requires IsAddressRegister(reg) && 1 <= i <= 3 && forall x :: x in bytes ==> x == b
    ensures Poke(w, reg + i, false, bytes) == (if bytes == [] then w else WithAddress(w, reg, AddressIn(w, reg)[i := b]))
    decreases |bytes|
  {
    if bytes != [] {
      var w1 := PokeByte(w, reg + i, b);
      assert bytes[0] in bytes && forall x :: x in bytes[1..] ==> x in bytes;
      PokeUpperByte(w1, reg, i, b, bytes[1..]);
      assert AddressIn(w1, reg) == AddressIn(w, reg)[i := b];
      assert AddressIn(w1, reg)[i := b] == AddressIn(w1, reg);
    }
  }

  /** With the whole address in place, writing its upper bytes again does nothing. */
  lemma {:induction false} PokeAgain(w: Window, reg: nat, i: nat, bytes: seq<uint8>)
    requires IsAddressRegister(reg) && 1 <= i && i + |bytes| <= 4 && bytes == AddressIn(w, reg)[i..i + |bytes|]
    ensures Poke(w, reg + i, true, bytes) == w
    decreases |bytes|
  {
    if bytes != [] {
      var addr := AddressIn(w, reg);
      assert bytes[0] == addr[i] && addr[i := bytes[0]] == addr;
      assert PokeByte(w, reg + i, bytes[0]) == w;
      assert bytes[1..] == addr[i + 1..i + |bytes|];
      PokeAgain(w, reg, i + 1, bytes[1..]);
    }
  }

  /** The final write, lowest byte first: with the upper bytes in place the first
      byte starts the access with the whole address, and nothing follows it. */
  lemma PokeWhole(w: Window, reg: nat, address: uint32, k: nat)
    requires IsAddressRegister(reg) && AddressIn(w, reg)[1..] == Bytes32(address)[1..] && k <= 4
    ensures Poke(w, reg, true, Bytes32(address)[..k]) == if k == 0 then w else Triggered(w, reg, address)
  {
    var b: Word := Bytes32(address);
    if k > 0 {
      Read32OfBytes32(address);
      assert AddressIn(w, reg)[0 := b[0]] == [b[0]] + AddressIn(w, reg)[1..] == [b[0]] + b[1..] == b;
      var w1 := PokeByte(w, reg, b[0]);
      assert w1 == Triggered(w, reg, address);
      assert b[..k][1..] == b[1..k];
      PokeAgain(w1, reg, 1, b[1..k]);
    }
  }

  class Chip {
    var window: Window
    /** How many accesses failed. */
    ghost var faults: nat

    constructor (mem: Memory)
      ensures window.mem == mem && faults == 0
    {
      window, faults := Window(mem, [0, 0, 0, 0], [0, 0, 0, 0], [0, 0, 0, 0]), 0;
    }

    /** Hcd_DoPioExternalAccess for a write; a failing one may have reached the
        device in part. */
    method WriteExternal(reg: nat, increment: bool, bytes: seq<uint8>) returns (ok: bool)
      modifies this
      ensures ok ==> window == Poke(old(window), reg, increment, bytes)
      ensures exists k :: 0 <= k <= |bytes| && window == Poke(old(window), reg, increment, bytes[..k])
      ensures faults == old(faults) + if ok then 0 else 1
    {
      var landed: int := *;
      ok := *;
      faults := faults + if ok then 0 else 1;
      var k: nat := if ok || landed < 0 || landed > |bytes| then |bytes| else landed;
      assert bytes[..|bytes|] == bytes;
      window := Poke(window, reg, increment, bytes[..k]);
    }

    /** Hcd_DoPioExternalAccess for a read of the data register. */
    method ReadData() returns (ok: bool, data: Word)
      modifies this`faults
      ensures ok ==> data == window.data
      ensures faults == old(faults) + if ok then 0 else 1
    {
      ok := *;
      faults := faults + if ok then 0 else 1;
      data := window.data;
    }

    /** One of the first three writes of Driver_SetAddressWindowRegister: a byte of
        the address, four times to the same register. */
    method SetUpperByte(reg: nat, i: nat, b: uint8) returns (ok: bool)
      requires IsAddressRegister(reg) && 1 <= i <= 3
      modifies this
      ensures window == old(window) || window == WithAddress(old(window), reg, AddressIn(old(window), reg)[i := b])
      ensures faults == old(faults) + if ok then 0 else 1
      ensures ok ==> window == WithAddress(old(window), reg, AddressIn(old(window), reg)[i := b])
    {
      hide Poke;
      var addrValue: Word := [b, b, b, b];
      ok := WriteExternal(reg + i, false, addrValue);
      forall k | 0 <= k <= 4
        ensures Poke(old(window), reg + i, false, addrValue[..k]) ==
                (if k == 0 then old(window) else WithAddress(old(window), reg, AddressIn(old(window), reg)[i := b]))
      {
        PokeUpperByte(old(window), reg, i, b, addrValue[..k]);
      }
      assert addrValue[..4] == addrValue;
    }

    /** Driver_SetAddressWindowRegister, four bytes at a time. On every outcome the
        target's memory is untouched or was accessed with the whole address. */
    method SetAddressWindowRegister(reg: nat, address: uint32) returns (ok: bool)
      requires IsAddressRegister(reg)
      modifies this
      ensures ok ==> window == Triggered(old(window), reg, address)
      ensures window.mem == old(window.mem) || window == Triggered(old(window), reg, address)
      ensures window.data == old(window.data) || window == Triggered(old(window), reg, address)
      ensures faults == old(faults) + if ok then 0 else 1
    {
      hide Poke;
      var addressBytes: Word := Bytes32(address);
      var i := 1;
      while i <= 3
        invariant 1 <= i <= 4 && window == WithAddress(old(window), reg, AddressIn(window, reg))
        invariant forall j :: 1 <= j < i ==> AddressIn(window, reg)[j] == addressBytes[j]
        invariant faults == old(faults)
      {
        ok := SetUpperByte(reg, i, addressBytes[i]);
        if !ok {
          return;
        }
        i := i + 1;
      }
      assert AddressIn(window, reg)[1..] == addressBytes[1..];
      ok := SetWhole(reg, address);
    }

    method SetWhole(reg: nat, address: uint32) returns (ok: bool)
      requires IsAddressRegister(reg) && AddressIn(window, reg)[1..] == Bytes32(address)[1..]
      modifies this
      ensures ok ==> window == Triggered(old(window), reg, address)
      ensures window == old(window) || window == Triggered(old(window), reg, address)
      ensures faults == old(faults) + if ok then 0 else 1
    {
      hide Poke, Triggered;
      ok := WriteExternal(reg, true, Bytes32(address));
      forall k | 0 <= k <= 4
        ensures Poke(old(window), reg, true, Bytes32(address)[..k]) == if k == 0 then old(window) else Triggered(old(window), reg, address)
      {
        PokeWhole(old(window), reg, address, k);
      }
      assert Bytes32(address)[..4] == Bytes32(address);
    }

    /** The data register takes a word without any effect on memory. */
    method SetData(data: Word) returns (ok: bool)
      modifies this
      ensures window.mem == old(window.mem) && (ok ==> window.data == data)
      ensures faults == old(faults) + if ok then 0 else 1
    {
      hide Poke;
      ok := WriteExternal(WINDOW_DATA, true, data);
      forall k | 0 <= k <= 4
        ensures Poke(old(window), WINDOW_DATA, true, data[..k]).mem == old(window.mem)
        ensures k == 4 ==> Poke(old(window), WINDOW_DATA, true, data[..k]).data == data
      {
        PokeData(old(window), 0, data[..k]);
        assert old(window.data)[..0] + data + old(window.data)[4..] == data;
      }
      assert data[..4] == data;
    }

    /** Driver_WriteRegDiag. */
    method WriteRegDiag(address: uint32, data: Word) returns (ok: bool)
      modifies this
      ensures ok ==> window.mem == Store(old(window.mem), address, data)
      ensures window.mem == old(window.mem) || window.mem == Store(old(window.mem), address, data)
      ensures faults == old(faults) + if ok then 0 else 1
    {
      ok := SetData(data);
      if ok {
        ok := SetAddressWindowRegister(WINDOW_WRITE_ADDR, address);
      }
    }

    /** Driver_ReadRegDiag. */
    method ReadRegDiag(address: uint32) returns (ok: bool, data: Word)
      modifies this
      ensures window.mem == old(window.mem)
      ensures ok ==> data == Load(window.mem, address, 4)
      ensures faults == old(faults) + if ok then 0 else 1
    {
      data := [0, 0, 0, 0];
      ok := SetAddressWindowRegister(WINDOW_READ_ADDR, address);
      if ok {
        ok, data := ReadData();
      }
    }

    /** Driver_WriteDataDiag: word by word, past the caller's bytes if the length is
        not a whole number of words. */
    method WriteDataDiag(address: uint32, data: array<uint8>, length: uint32) returns (ok: bool)
      requires RoundUp4(length) <= data.Length
      modifies this
      ensures ok <==> faults == old(faults)
      ensures ok ==> window.mem == Store(old(window.mem), address, data[..RoundUp4(length)])
      ensures StoredPrefix(old(window.mem), window.mem, address, data[..RoundUp4(length)])
    {
      hide Store, StoredPrefix, Next;
      ghost var whole := data[..RoundUp4(length)];
      NothingStored(window.mem, address, whole);
      var count: nat, a := 0, address;
      while count < length
        invariant count % 4 == 0 && count <= |whole| && a == Next(address, count)
        invariant window.mem == Store(old(window.mem), address, whole[..count]) && faults == old(faults)
      {
        SliceOfPrefix(data[..], |whole|, count, count + 4);
        ok := WriteRegDiag(a, data[count..count + 4]);
        StoreMore(old(window.mem), address, whole, count, 4);
        if !ok {
          PrefixStored(old(window.mem), window.mem, address, whole, count, 4);
          return;
        }
        NextNext(address, count, 4);
        count, a := count + 4, Next(a, 4);
      }
      assert whole[..count] == whole;
      PrefixStored(old(window.mem), window.mem, address, whole, count, 0);
      return true;
    }

    /** Driver_ReadDataDiag: likewise, into the caller's buffer. */
    method ReadDataDiag(address: uint32, data: array<uint8>, length: uint32) returns (ok: bool)
      requires RoundUp4(length) <= data.Length
      modifies this, data
      ensures window.mem == old(window.mem)
      ensures ok <==> faults == old(faults)
      ensures ok ==> data[..RoundUp4(length)] == Load(window.mem, address, RoundUp4(length))
      ensures data[RoundUp4(length)..] == old(data[RoundUp4(length)..])
    {
      hide Load, Next;
      NothingLoaded(window.mem, address);
      var count: nat, a := 0, address;
      while count < length
        invariant count % 4 == 0 && count <= RoundUp4(length) && a == Next(address, count)
        invariant window.mem == old(window.mem) && data[..count] == Load(window.mem, address, count)
        invariant faults == old(faults)
        invariant data[RoundUp4(length)..] == old(data[RoundUp4(length)..])
      {
        var word;
        ok, word := ReadRegDiag(a);
        if !ok {
          return;
        }
        LoadConcat(window.mem, address, count, 4);
        NextNext(address, count, 4);
        PutWord(data, count, word);
        count, a := count + 4, Next(a, 4);
      }
      return true;
    }

    static method PutWord(data: array<uint8>, at: nat, word: Word)
      requires at + 4 <= data.Length
      modifies data
      ensures data[..at + 4] == old(data[..at]) + word && data[at + 4..] == old(data[at + 4..])
      ensures forall k :: at + 4 <= k <= data.Length ==> data[k..] == old(data[k..])
    {
      data[at], data[at + 1], data[at + 2], data[at + 3] := word[0], word[1], word[2], word[3];
    }
  }

  /** Bytes written to the data register from its byte `i` on. */
  lemma {:induction false} PokeData(w: Window, i: nat, bytes: seq<uint8>)
    requires i + |bytes| <= 4
    ensures Poke(w, WINDOW_DATA + i, true, bytes).mem == w.mem
    ensures Poke(w, WINDOW_DATA + i, true, bytes).data == w.data[..i] + bytes + w.data[i + |bytes|..]
    decreases |bytes|
  {
    if bytes == [] {
      assert w.data[..i] + [] + w.data[i..] == w.data;
    } else {
      var w1 := PokeByte(w, WINDOW_DATA + i, bytes[0]);
      PokeData(w1, i + 1, bytes[1..]);
      assert w1.data[..i + 1] == w.data[..i] + [bytes[0]];
      assert [bytes[0]] + bytes[1..] == bytes;
    }
  }

  /** Writing a buffer through the window and reading it back is the identity. */
  method WriteThenRead(chip: Chip, address: uint32, from: array<uint8>, length: uint32, to: array<uint8>) returns (ok: bool)
    requires RoundUp4(length) <= from.Length && RoundUp4(length) <= to.Length && from != to
    modifies chip, to
    ensures ok <==> chip.faults == old(chip.faults)
    ensures ok ==> to[..length] == from[..length]
    ensures ok ==> chip.window.mem == Store(old(chip.window.mem), address, from[..RoundUp4(length)])
  {
    hide Store, Load, StoredPrefix;
    ok := chip.WriteDataDiag(address, from, length);
    if ok {
      ghost var whole := from[..RoundUp4(length)];
      LoadAfterStore(old(chip.window.mem), address, whole);
      ok := chip.ReadDataDiag(address, to, length);
      if ok {
        assert to[..RoundUp4(length)][..length] == whole[..length];
      }
    }
  }
}
