/** Network buffers: a byte array with headroom and tailroom around the bytes
    in use, plus further fragments that belong to the caller. */
module Netbuf {
  import opened Bytes

  function Flatten(fs: seq<seq<uint8>>): seq<uint8>
  {
    if fs == [] then [] else fs[0] + Flatten(fs[1..])
  }

  lemma {:induction false} FlattenSnoc(fs: seq<seq<uint8>>, f: seq<uint8>)
    ensures Flatten(fs + [f]) == Flatten(fs) + f
  {
    if fs == [] {
      assert fs + [f] == [f] && [f][1..] == [];
      assert Flatten([f]) == f + Flatten([]);
    } else {
      FlattenSnoc(fs[1..], f);
      assert (fs + [f])[1..] == fs[1..] + [f];
    }
  }

  class Netbuf {
    const buf: array<uint8>
    const fragments: seq<seq<uint8>>
    var data: nat
    var tail: nat
    var epid: uint8
    var credits: uint8

    ghost predicate Valid()
      reads this
    {
      data <= tail <= buf.Length
    }

    /** The bytes of the built-in buffer that are in use. */
    function Bytes(): seq<uint8>
      requires Valid()
      reads this, buf
    {
      buf[data..tail]
    }

    /** The whole packet, built-in buffer and fragments. */
    function Packet(): seq<uint8>
      requires Valid()
      reads this, buf
    {
      Bytes() + Flatten(fragments)
    }

    constructor (headroom: nat, size: nat, fragments: seq<seq<uint8>>, epid: uint8)
      ensures Valid() && fresh(this) && fresh(buf)
      ensures data == tail == headroom && buf.Length == headroom + size
      ensures this.fragments == fragments && this.epid == epid && this.credits == 0
    {
      buf := new uint8[headroom + size](_ => 0);
      data, tail := headroom, headroom;
      this.fragments := fragments;
      this.epid, credits := epid, 0;
    }

    /** a_netbuf_to_len: adds up the fragments. */
    method Length() returns (len: nat)
      requires Valid()
      ensures len == |Packet()|
    {
      len := tail - data;
      var i := 0;
      while i < |fragments|
        invariant 0 <= i <= |fragments|
        invariant len == tail - data + |Flatten(fragments[..i])|
      {
        len := len + |fragments[i]|;
        FlattenSnoc(fragments[..i], fragments[i]);
        assert fragments[..i] + [fragments[i]] == fragments[..i + 1];
        i := i + 1;
      }
      assert fragments[..i] == fragments;
    }

    method Push(len: nat)
      requires Valid() && len <= data
      modifies this`data
      ensures Valid() && data == old(data) - len
      ensures Bytes()[len..] == old(Bytes())
    {
      data := data - len;
    }

    method Pull(len: nat)
      requires Valid() && len <= tail - data
      modifies this`data
      ensures Valid() && Bytes() == old(Bytes())[len..] && data == old(data) + len
    {
      data := data + len;
    }

    method Put(len: nat)
      requires Valid() && len <= buf.Length - tail
      modifies this`tail
      ensures Valid() && tail == old(tail) + len
      ensures Bytes()[..|old(Bytes())|] == old(Bytes())
    {
      tail := tail + len;
    }

    method Trim(len: nat)
      requires Valid() && len <= tail - data
      modifies this`tail
      ensures Valid() && Bytes() == old(Bytes())[..|old(Bytes())| - len] && tail == old(tail) - len
    {
      tail := tail - len;
      assert buf[data..tail] == buf[data..tail + len][..tail - data];
    }
  }
}
