/** Machine integers and their byte images, as `memcpy` moves them on a
    little-endian host. */
module Bytes {

  const TWO16 := 0x1_0000
  const TWO32 := 0x1_0000_0000
  const TWO64 := 0x1_0000_0000_0000_0000

  type Byte = b: int | 0 <= b < 256
  type U16 = x: int | 0 <= x < 0x1_0000
  type U32 = x: int | 0 <= x < 0x1_0000_0000
  type U64 = x: int | 0 <= x < 0x1_0000_0000_0000_0000

  datatype Option<+T> = None | Some(value: T)

  /** One unsigned 64-bit addition or subtraction wraps. */
  function Wrap64(x: int): U64
    requires -TWO64 <= x < 2 * TWO64
  {
    if x < 0 then x + TWO64 else if x < TWO64 then x else x - TWO64
  }

  /** Conversion to uint8_t drops whole multiples of 2^8. */
  function Wrap8(x: nat): Byte {
    if x < 256 then x else Wrap8(x - 256)
  }

  /** x >> 8. */
  function Shift8(x: nat): nat {
    if x < 256 then 0 else 1 + Shift8(x - 256)
  }

  lemma {:induction false} ByteSplit(x: nat)
    ensures x == Wrap8(x) + 256 * Shift8(x)
    ensures Wrap8(x) == x % 256 && Shift8(x) == x / 256
  {
    if x >= 256 {
      ByteSplit(x - 256);
    }
  }

  /** Conversion to uint16_t drops whole multiples of 2^16. */
  function Wrap16(x: nat): U16 {
    if x < TWO16 then x else Wrap16(x - TWO16)
  }

  /** Conversion to uint32_t drops whole multiples of 2^32. */
  function Low32(x: nat): U32 {
    if x < TWO32 then x else Low32(x - TWO32)
  }

  lemma {:induction false} Wrap16IsRemainder(x: nat)
    ensures Wrap16(x) == x % TWO16
  {
    if x >= TWO16 {
      Wrap16IsRemainder(x - TWO16);
    }
  }

  lemma {:induction false} Low32IsRemainder(x: nat)
    ensures Low32(x) == x % TWO32
  {
    if x >= TWO32 {
      Low32IsRemainder(x - TWO32);
    }
  }

  lemma Wrap64IsRemainder(x: int)
    requires -TWO64 <= x < 2 * TWO64
    ensures Wrap64(x) == x % TWO64
  {
  }

  /** Byte k of x, counted from the least significant. */
  function ByteAt(x: nat, k: nat): Byte
    decreases k
  {
    if k == 0 then Wrap8(x) else ByteAt(Shift8(x), k - 1)
  }

  /** The low n bytes of x, least significant first. */
  function LeBytes(x: nat, n: nat): (b: seq<Byte>)
    ensures |b| == n
  {
    seq(n, k requires 0 <= k < n => ByteAt(x, k))
  }

  function Pow256(n: nat): (p: nat)
    ensures p >= 1
  {
    if n == 0 then 1 else 256 * Pow256(n - 1)
  }

  /** Loading n bytes at offset off, least significant first. */
  function ReadLe(b: seq<Byte>, off: nat, n: nat): nat
    requires off + n <= |b|
    decreases |b| - off
  {
    if n == 0 then 0 else b[off] + 256 * ReadLe(b, off + 1, n - 1)
  }

  /** Byte k of a load weighs 256 to the k: the least significant byte comes first. */
  lemma {:induction false} ByteWeight(b: seq<Byte>, off: nat, n: nat)
    requires off + n < |b|
    ensures ReadLe(b, off, n + 1) == ReadLe(b, off, n) + Pow256(n) * b[off + n]
    decreases n
  {
    if n > 0 {
      ByteWeight(b, off + 1, n - 1);
      assert Pow256(n) * b[off + n] == 256 * (Pow256(n - 1) * b[off + n]);
    }
  }

  lemma {:induction false} ReadBound(b: seq<Byte>, off: nat, n: nat)
    requires off + n <= |b|
    ensures ReadLe(b, off, n) < Pow256(n)
    decreases n
  {
    if n > 0 {
      ReadBound(b, off + 1, n - 1);
    }
  }

  /** A load depends on nothing but the bytes it covers. */
  lemma {:induction false} ReadSame(a: seq<Byte>, i: nat, b: seq<Byte>, j: nat, n: nat)
    requires i + n <= |a| && j + n <= |b|
    requires forall k :: i <= k < i + n ==> a[k] == b[k - i + j]
    ensures ReadLe(a, i, n) == ReadLe(b, j, n)
    decreases n
  {
    if n > 0 {
      ReadSame(a, i + 1, b, j + 1, n - 1);
    }
  }

  /** Storing x in n bytes and loading it again gives x back exactly when it fits. */
  lemma {:induction false} LeRoundTrip(x: nat, n: nat)
    ensures ReadLe(LeBytes(x, n), 0, n) == x <==> x < Pow256(n)
  {
    if n > 0 {
      ByteSplit(x);
      LeRoundTrip(Shift8(x), n - 1);
      ReadSame(LeBytes(x, n), 1, LeBytes(Shift8(x), n - 1), 0, n - 1);
    }
  }

  lemma ReadStored(b: seq<Byte>, off: nat, x: nat, n: nat)
    requires off + n <= |b| && b[off..off + n] == LeBytes(x, n) && x < Pow256(n)
    ensures ReadLe(b, off, n) == x
  {
    LeRoundTrip(x, n);
    assert forall k :: off <= k < off + n ==> b[k] == b[off..off + n][k - off];
    ReadSame(b, off, LeBytes(x, n), 0, n);
  }

  lemma Widths()
    ensures Pow256(2) == TWO16 && Pow256(4) == TWO32 && Pow256(8) == TWO64
  {
    assert Pow256(3) == 256 * Pow256(2);
    assert Pow256(4) == 256 * Pow256(3);
    assert Pow256(5) == 256 * Pow256(4);
    assert Pow256(6) == 256 * Pow256(5);
    assert Pow256(7) == 256 * Pow256(6);
  }

  function Load16(b: seq<Byte>, off: nat): U16
    requires off + 2 <= |b|
  {
    Widths();
    ReadBound(b, off, 2);
    ReadLe(b, off, 2)
  }

  function Load32(b: seq<Byte>, off: nat): U32
    requires off + 4 <= |b|
  {
    Widths();
    ReadBound(b, off, 4);
    ReadLe(b, off, 4)
  }

  function Load64(b: seq<Byte>, off: nat): U64
    requires off + 8 <= |b|
  {
    Widths();
    ReadBound(b, off, 8);
    ReadLe(b, off, 8)
  }

  /** The n bytes of b from offset off on. */
  function Sub(b: seq<Byte>, off: nat, n: nat): (r: seq<Byte>)
    requires off + n <= |b|
    ensures |r| == n && forall k :: 0 <= k < n ==> r[k] == b[off + k]
  {
    seq(n, k requires 0 <= k < n => b[off + k])
  }

  /** The front of b overwritten with `front`. */
  function Overlay(front: seq<Byte>, b: seq<Byte>): (r: seq<Byte>)
    requires |front| <= |b|
    ensures |r| == |b| && forall k :: 0 <= k < |b| ==> r[k] == if k < |front| then front[k] else b[k]
  {
    seq(|b|, k requires 0 <= k < |b| => if k < |front| then front[k] else b[k])
  }

  /** `memcpy(b + off, data, |data|)` on a value; what would fall beyond b is no part of it. */
  function Put(b: seq<Byte>, off: nat, data: seq<Byte>): (r: seq<Byte>)
    ensures |r| == |b|
  {
    seq(|b|, k requires 0 <= k < |b| => if off <= k < off + |data| then data[k - off] else b[k])
  }

  lemma PutAt(b: seq<Byte>, off: nat, data: seq<Byte>, j: nat)
    requires j < |b|
    ensures Put(b, off, data)[j] == if off <= j < off + |data| then data[j - off] else b[j]
  {
  }

  lemma PutRange(b: seq<Byte>, off: nat, data: seq<Byte>)
    requires off + |data| <= |b|
    ensures Put(b, off, data)[off..off + |data|] == data
  {
  }

  /** A copy leaves every range beside its target alone. */
  lemma PutElsewhere(b: seq<Byte>, off: nat, data: seq<Byte>, lo: nat, hi: nat)
    requires lo <= hi <= |b|
    requires hi <= off || off + |data| <= lo
    ensures Put(b, off, data)[lo..hi] == b[lo..hi]
  {
  }

  /** `memcpy(block + off, data, |data|)` in place. */
  method CopyInto(block: array<Byte>, off: nat, data: seq<Byte>)
    modifies block
    ensures block[..] == Put(old(block[..]), off, data)
  {
    forall k | off <= k < off + |data| && k < block.Length {
      block[k] := data[k - off];
    }
  }
}
