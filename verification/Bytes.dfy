/** Machine integers, little-endian fields and the mailbox padding arithmetic
    that every other module shares. */
module Bytes {

  type uint8 = x: int | 0 <= x < 0x100
  type uint16 = x: int | 0 <= x < 0x1_0000
  type uint32 = x: int | 0 <= x < 0x1_0000_0000

  datatype Option<+T> = None | Some(value: T)

  /** Conversion of an integer expression to an 8-bit unsigned field, as C does it. */
  function Wrap8(x: int): uint8 { x % 0x100 }

  function Wrap16(x: int): uint16 { x % 0x1_0000 }

  function Wrap32(x: int): uint32 { x % 0x1_0000_0000 }

  function Read16(lo: uint8, hi: uint8): uint16 { lo as int + 0x100 * hi as int }

  function Read32(b: seq<uint8>): uint32
    requires |b| >= 4
  {
    b[0] as int + 0x100 * b[1] as int + 0x1_0000 * b[2] as int + 0x100_0000 * b[3] as int
  }

  function Bytes16(v: uint16): (b: seq<uint8>)
    ensures |b| == 2
  {
    [v % 0x100, v / 0x100]
  }

  function Bytes32(v: uint32): (b: seq<uint8>)
    ensures |b| == 4
  {
    [v % 0x100, v / 0x100 % 0x100, v / 0x1_0000 % 0x100, v / 0x100_0000]
  }

  lemma Read32OfBytes32(v: uint32)
    ensures Read32(Bytes32(v)) == v
  {
    var w := v / 0x100;
    assert v == 0x100 * w + v % 0x100;
    assert w == 0x100 * (v / 0x1_0000) + w % 0x100;
    assert v / 0x1_0000 == 0x100 * (v / 0x100_0000) + v / 0x1_0000 % 0x100;
  }

  /** Two words with the same value have the same four bytes. */
  lemma Read32Injective(a: seq<uint8>, b: seq<uint8>)
    requires |a| >= 4 && |b| >= 4 && Read32(a) == Read32(b)
    ensures a[..4] == b[..4]
  {
    var a1 := a[1] as int + 0x100 * a[2] as int + 0x1_0000 * a[3] as int;
    var b1 := b[1] as int + 0x100 * b[2] as int + 0x1_0000 * b[3] as int;
    assert 0x100 * (a1 - b1) == b[0] - a[0];
    var a2 := a[2] as int + 0x100 * a[3] as int;
    var b2 := b[2] as int + 0x100 * b[3] as int;
    assert 0x100 * (a2 - b2) == b[1] - a[1];
    assert 0x100 * (a[3] - b[3]) as int == b[2] - a[2];
  }

  function Pow2(k: nat): nat
  {
    if k == 0 then 1 else 2 * Pow2(k - 1)
  }

  /** The C expression `x & ~m` on unsigned words, bit by bit. */
  function AndNot(x: nat, m: nat): nat
  {
    if x == 0 then 0
    else (if x % 2 == 1 && m % 2 == 0 then 1 else 0) + 2 * AndNot(x / 2, m / 2)
  }

  /** DEV_CALC_SEND_PADDED_LEN and DEV_CALC_RECV_PADDED_LEN. */
  function PaddedLen(blockMask: nat, length: nat): nat
  {
    AndNot(length + blockMask, blockMask)
  }

  lemma {:induction false} AndNotLowBits(x: nat, k: nat)
    ensures Pow2(k) > 0
    ensures AndNot(x, Pow2(k) - 1) == x - x % Pow2(k)
    decreases k, x
  {
    if k == 0 {
      AndNotZero(x);
    } else {
      AndNotLowBits(x / 2, k - 1);
      var h := Pow2(k - 1);
      assert (Pow2(k) - 1) / 2 == h - 1 && (Pow2(k) - 1) % 2 == 1;
      HalfRemainder(x, h);
    }
  }

  lemma {:induction false} AndNotZero(x: nat)
    ensures AndNot(x, 0) == x
  {
    if x != 0 {
      AndNotZero(x / 2);
    }
  }

  lemma HalfRemainder(x: nat, h: nat)
    requires h > 0
    ensures x % (2 * h) == x % 2 + 2 * (x / 2 % h)
  {
    var q := x / 2 / h;
    var r := x / 2 % h;
    assert x / 2 == q * h + r;
    assert x == (2 * h) * q + (x % 2 + 2 * r);
    RemainderUnique(x, 2 * h, q, x % 2 + 2 * r);
  }

  lemma RemainderUnique(x: int, d: int, q: int, r: int)
    requires d > 0 && x == d * q + r && 0 <= r < d
    ensures x % d == r && x / d == q
  {
    var q0, r0 := x / d, x % d;
    DivisionIdentity(x, d);
    var e := q - q0;
    Distributes(d, q, q0);
    if e > 0 {
      MulMonotone(d, 1, e);
    } else if e < 0 {
      MulMonotone(d, e, -1);
    }
  }

  lemma DivisionIdentity(x: int, d: int)
    requires d > 0
    ensures x == d * (x / d) + x % d && 0 <= x % d < d
  {
  }

  lemma Distributes(d: int, x: int, y: int)
    ensures d * (x - y) == d * x - d * y
  {
  }

  /** The mask form computes the least multiple of a power-of-two block that
      is not below the length. */
  lemma {:induction false} PaddedLenIsLeastMultiple(k: nat, length: nat)
    ensures Pow2(k) > 0
    ensures var p := PaddedLen(Pow2(k) - 1, length);
            && p % Pow2(k) == 0
            && length <= p < length + Pow2(k)
            && forall q: nat :: length <= q && q % Pow2(k) == 0 ==> p <= q
  {
    hide AndNot, Pow2;
    AndNotLowBits(0, k);
    var b := Pow2(k);
    var x := length + b - 1;
    AndNotLowBits(x, k);
    DivisionIdentity(x, b);
    var p := PaddedLen(b - 1, length);
    var d := x / b;
    RemainderUnique(p, b, d, 0);
    forall q: nat | length <= q && q % b == 0
      ensures p <= q
    {
      LeastMultiple(b, d, q, p, length);
    }
  }

  lemma LeastMultiple(b: nat, d: nat, q: nat, p: nat, length: nat)
    requires b > 0 && p == b * d && q % b == 0 && length <= q && p < length + b
    ensures p <= q
  {
    DivisionIdentity(q, b);
    var e := q / b;
    if e < d {
      MulMonotone(b, e, d - 1);
      Distributes(b, d, 1);
    } else {
      MulMonotone(b, d, e);
    }
  }

  lemma MulMonotone(b: nat, x: int, y: int)
    requires x <= y
    ensures b * x <= b * y
  {
  }
}
