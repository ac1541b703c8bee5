/** Target memory as a byte map over 32-bit addresses that wrap around. */
module TargetMemory {
  import opened Bytes

  type Memory = map<uint32, uint8>

  function Peek(mem: Memory, a: uint32): uint8
  {
    if a in mem then mem[a] else 0
  }

  function Next(a: uint32, n: nat): uint32
  {
    Wrap32(a as int + n)
  }

  function Store(mem: Memory, a: uint32, data: seq<uint8>): Memory
    decreases |data|
  {
    if data == [] then mem else Store(mem[a := data[0]], Next(a, 1), data[1..])
  }

  function Load(mem: Memory, a: uint32, n: nat): (data: seq<uint8>)
    ensures |data| == n
    decreases n
  {
    if n == 0 then [] else [Peek(mem, a)] + Load(mem, Next(a, 1), n - 1)
  }

  lemma NextNext(a: uint32, m: nat, n: nat)
    ensures Next(Next(a, m), n) == Next(a, m + n)
  {
  }

  lemma NextDiffers(a: uint32, m: nat, n: nat)
    requires m < n < m + 0x1_0000_0000
    ensures Next(a, m) != Next(a, n)
  {
  }

  /** Storing in pieces is storing at once. */
  lemma {:induction false} StoreConcat(mem: Memory, a: uint32, x: seq<uint8>, y: seq<uint8>)
    ensures Store(mem, a, x + y) == Store(Store(mem, a, x), Next(a, |x|), y)
    decreases |x|
  {
    hide Store, Next;
    if x == [] {
      assert x + y == y;
      StoreStep(mem, a, x);
    } else {
      var z := x + y;
      assert z[0] == x[0] && z[1..] == x[1..] + y;
      StoreStep(mem, a, z);
      StoreStep(mem, a, x);
      StoreConcat(mem[a := x[0]], Next(a, 1), x[1..], y);
      NextNext(a, 1, |x| - 1);
    }
  }

  lemma StoreStep(mem: Memory, a: uint32, data: seq<uint8>)
    ensures data == [] ==> Store(mem, a, data) == mem && Next(a, 0) == a
    ensures data != [] ==> Store(mem, a, data) == Store(mem[a := data[0]], Next(a, 1), data[1..])
  {
  }

  lemma LoadStep(mem: Memory, a: uint32, n: nat)
    ensures Load(mem, a, n + 1) == [Peek(mem, a)] + Load(mem, Next(a, 1), n)
  {
  }

  lemma {:induction false} LoadConcat(mem: Memory, a: uint32, m: nat, n: nat)
    ensures Load(mem, a, m + n) == Load(mem, a, m) + Load(mem, Next(a, m), n)
    decreases m
  {
    hide *;
    if m > 0 {
      var k: nat := m - 1;
      LoadStep(mem, a, k + n);
      LoadStep(mem, a, k);
      NextNext(a, 1, k);
      LoadConcat(mem, Next(a, 1), k, n);
      assert [Peek(mem, a)] + (Load(mem, Next(a, 1), k) + Load(mem, Next(a, m), n))
          == ([Peek(mem, a)] + Load(mem, Next(a, 1), k)) + Load(mem, Next(a, m), n);
    } else {
      NothingLoaded(mem, a);
      assert [] + Load(mem, a, n) == Load(mem, a, n);
    }
  }

  lemma {:induction false} StoreElsewhere(mem: Memory, a: uint32, data: seq<uint8>, b: uint32)
    requires forall i: nat :: i < |data| ==> Next(a, i) != b
    ensures Peek(Store(mem, a, data), b) == Peek(mem, b)
    decreases |data|
  {
    if data != [] {
      assert Next(a, 0) == a;
      forall i: nat | i < |data| - 1
        ensures Next(Next(a, 1), i) != b
      {
        NextNext(a, 1, i);
      }
      StoreElsewhere(mem[a := data[0]], Next(a, 1), data[1..], b);
    }
  }

  lemma PeekStored(mem: Memory, a: uint32, v: uint8)
    ensures Peek(mem[a := v], a) == v && Next(a, 0) == a
  {
  }

  /** Loading what was stored gives it back, up to the whole address space. */
  lemma {:induction false} LoadAfterStore(mem: Memory, a: uint32, data: seq<uint8>)
    requires |data| <= 0x1_0000_0000
    ensures Load(Store(mem, a, data), a, |data|) == data
    decreases |data|
  {
    hide Store, Load, Peek, Next;
    if data == [] {
      NothingLoaded(Store(mem, a, data), a);
    } else {
      StoreStep(mem, a, data);
      LoadStep(Store(mem, a, data), a, |data| - 1);
      LoadAfterStore(mem[a := data[0]], Next(a, 1), data[1..]);
      PeekStored(mem, a, data[0]);
      forall i: nat | i < |data| - 1
        ensures Next(Next(a, 1), i) != a
      {
        NextNext(a, 1, i);
        NextDiffers(a, 0, 1 + i);
      }
      StoreElsewhere(mem[a := data[0]], Next(a, 1), data[1..], a);
      assert [data[0]] + data[1..] == data;
    }
  }

  /** So does loading a prefix of it. */
  lemma LoadPrefix(mem: Memory, a: uint32, data: seq<uint8>, n: nat)
    requires n <= |data| <= 0x1_0000_0000
    ensures Load(Store(mem, a, data), a, n) == data[..n]
  {
    LoadAfterStore(mem, a, data);
    LoadConcat(Store(mem, a, data), a, n, |data| - n);
  }

  function RoundUp4(n: nat): (r: nat)
    ensures r % 4 == 0 && n <= r < n + 4
  {
    if n % 4 == 0 then n else n + (4 - n % 4)
  }

  lemma NothingLoaded(mem: Memory, a: uint32)
    ensures Load(mem, a, 0) == [] && Next(a, 0) == a
  {
  }

  lemma SliceOfPrefix(b: seq<uint8>, k: nat, i: nat, j: nat)
    requires i <= j <= k <= |b|
    ensures b[..k][i..j] == b[i..j]
  {
  }

  /** Some whole number of words at the front of `data` has been stored. */
  ghost predicate StoredPrefix(before: Memory, after: Memory, address: uint32, data: seq<uint8>)
  {
    exists m :: 0 <= m <= |data| && m % 4 == 0 && after == Store(before, address, data[..m])
  }

  lemma NothingStored(mem: Memory, address: uint32, data: seq<uint8>)
    ensures StoredPrefix(mem, mem, address, data) && Store(mem, address, data[..0]) == mem && Next(address, 0) == address
  {
    assert data[..0] == [];
    assert mem == Store(mem, address, data[..0]);
  }

  lemma PrefixStored(before: Memory, after: Memory, address: uint32, data: seq<uint8>, n: nat, more: nat)
    requires n % 4 == 0 && more % 4 == 0 && n + more <= |data|
    requires after == Store(before, address, data[..n]) || after == Store(before, address, data[..n + more])
    ensures StoredPrefix(before, after, address, data)
  {
  }

  lemma StoreMore(mem: Memory, address: uint32, buf: seq<uint8>, n: nat, more: nat)
    requires n + more <= |buf|
    ensures Store(mem, address, buf[..n + more]) == Store(Store(mem, address, buf[..n]), Next(address, n), buf[n..n + more])
  {
    StoreConcat(mem, address, buf[..n], buf[n..n + more]);
    assert buf[..n] + buf[n..n + more] == buf[..n + more];
  }
}
