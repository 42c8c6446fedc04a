/** Bytes, the big-endian 32-bit length prefix, and the bit stream that the
    codec lays over a byte string: bit k of the stream is bit 7 - k % 8 of
    byte k / 8, so every byte is read most significant bit first. */
module Bits {

  type byte = bv8

  /** One more than the largest value of a Rust `u32`. */
  const U32Limit: nat := 0x1_0000_0000

  function Min(a: int, b: int): int {
    if a <= b then a else b
  }

  // ---------------------------------------------------------------------------
  // The 4-byte big-endian length prefix (`u32::to_be_bytes` / `from_be_bytes`)
  // ---------------------------------------------------------------------------

  function U32BE(n: nat): (r: seq<byte>)
    requires n < U32Limit
    ensures |r| == 4
  {
    var n1 := n / 0x100;
    var n2 := n1 / 0x100;
    var n3 := n2 / 0x100;
    [ByteOf(n3), ByteOf(n2 % 0x100), ByteOf(n1 % 0x100), ByteOf(n % 0x100)]
  }

  function FromU32BE(b: seq<byte>): (n: nat)
    requires |b| == 4
  {
    ((b[0] as nat * 0x100 + b[1] as nat) * 0x100 + b[2] as nat) * 0x100 + b[3] as nat
  }

  /** The byte whose value is `x`, assembled bit by bit from the most
      significant one down. */
  function ByteOf(x: nat): byte
    requires x < 0x100
  {
    if x == 0 then 0 else (ByteOf(x / 2) << 1) | (if x % 2 == 1 then 1 else 0)
  }

  // Small arithmetic steps, kept apart so that each proof stays cheap.

  lemma ShiftIn(b: byte, r: byte)
    requires b < 0x80 && r <= 1
    ensures ((b << 1) | r) as nat == 2 * (b as nat) + r as nat
  {}

  lemma {:induction false} ByteOfNat(x: nat)
    requires x < 0x100
    ensures ByteOf(x) as nat == x
  {
    if x != 0 {
      var r: byte := if x % 2 == 1 then 1 else 0;
      ByteOfNat(x / 2);
      ShiftIn(ByteOf(x / 2), r);
      assert ByteOf(x) == (ByteOf(x / 2) << 1) | r;
      assert r as nat == x % 2;
    }
  }

  lemma SameValue(a: byte, c: byte)
    requires a as nat == c as nat
    ensures a == c
  {}

  lemma NatOfByte(b: byte)
    ensures b as nat < 0x100 && ByteOf(b as nat) == b
  {
    ByteOfNat(b as nat);
    SameValue(ByteOf(b as nat), b);
  }

  lemma DivMod256(a: nat, b: nat)
    requires b < 0x100
    ensures (a * 0x100 + b) / 0x100 == a && (a * 0x100 + b) % 0x100 == b
  {}

  lemma Split256(x: nat)
    ensures x == (x / 0x100) * 0x100 + x % 0x100
  {}

  /** Reading back a written prefix gives the length that was written. */
  lemma FromU32BEOfU32BE(n: nat)
    requires n < U32Limit
    ensures FromU32BE(U32BE(n)) == n
  {
    var n1 := n / 0x100;
    var n2 := n1 / 0x100;
    var n3 := n2 / 0x100;
    Split256(n); Split256(n1); Split256(n2);
    ByteOfNat(n3); ByteOfNat(n2 % 0x100); ByteOfNat(n1 % 0x100); ByteOfNat(n % 0x100);
  }

  lemma Digits(n: nat, b0: nat, b1: nat, b2: nat, b3: nat)
    requires b0 < 0x100 && b1 < 0x100 && b2 < 0x100 && b3 < 0x100
    requires n == ((b0 * 0x100 + b1) * 0x100 + b2) * 0x100 + b3
    ensures n < U32Limit
    ensures n % 0x100 == b3 && n / 0x100 % 0x100 == b2
    ensures n / 0x100 / 0x100 % 0x100 == b1 && n / 0x100 / 0x100 / 0x100 == b0
  {
    var n2 := b0 * 0x100 + b1;
    var n1 := n2 * 0x100 + b2;
    DivMod256(n1, b3); DivMod256(n2, b2); DivMod256(b0, b1);
  }

  /** Every 4-byte string is the prefix of exactly the length it reads as,
      and that length fits in 32 bits. */
  lemma U32BEOfFromU32BE(b: seq<byte>)
    requires |b| == 4
    ensures FromU32BE(b) < U32Limit && U32BE(FromU32BE(b)) == b
  {
    NatOfByte(b[0]); NatOfByte(b[1]); NatOfByte(b[2]); NatOfByte(b[3]);
    Digits(FromU32BE(b), b[0] as nat, b[1] as nat, b[2] as nat, b[3] as nat);
  }

  // ---------------------------------------------------------------------------
  // The bit stream over a byte string
  // ---------------------------------------------------------------------------

  /** `(b >> (7 - offset)) & 1`: bit `offset` of `b` counted from the most
      significant one, as 0 or 1. */
  function BitAt(b: byte, offset: nat): (bit: byte)
    requires offset < 8
    ensures bit <= 1
  {
    (b >> (7 - offset)) & 1
  }

  /** Bit `k` of the stream over `bytes`: bit 7 - k % 8 of byte k / 8. */
  function StreamBit(bytes: seq<byte>, k: nat): (bit: byte)
    requires k < 8 * |bytes|
  {
    BitAt(bytes[k / 8], k % 8)
  }

  /** The stream over a concatenation is the stream over its first part
      followed by the stream over its second part. */
  lemma StreamBitAppend(a: seq<byte>, b: seq<byte>, k: nat)
    requires k < 8 * (|a| + |b|)
    ensures k < 8 * |a| ==> StreamBit(a + b, k) == StreamBit(a, k)
    ensures k >= 8 * |a| ==> StreamBit(a + b, k) == StreamBit(b, k - 8 * |a|)
  {
    if k >= 8 * |a| {
      var j := k - 8 * |a|;
      assert k / 8 == |a| + j / 8 && k % 8 == j % 8 by {
        assert k == 8 * (|a| + j / 8) + j % 8;
      }
    }
  }

  /** `bit << (7 - offset)`: a bit moved to position `offset` of a byte,
      counted from the most significant one. */
  function Place(bit: byte, offset: nat): byte
    requires offset < 8
  {
    bit << (7 - offset)
  }

  /** The byte a zeroed byte becomes when `bits` (each 0 or 1) are OR-ed into
      it one after the other, the i-th of them placed at position i. */
  function Gather(bits: seq<byte>): byte
    requires |bits| <= 8
  {
    if bits == [] then 0
    else Gather(bits[..|bits| - 1]) | Place(bits[|bits| - 1], |bits| - 1)
  }

  /** A zeroed buffer of `count` bytes after the bits have been OR-ed in, bit i
      going to byte i / 8; the bytes the bits do not reach stay zero. */
  function Pack(bits: seq<byte>, count: nat): (r: seq<byte>)
    requires |bits| <= 8 * count
    ensures |r| == count
  {
    seq(count, j requires 0 <= j < count => Gather(bits[Min(8 * j, |bits|)..Min(8 * j + 8, |bits|)]))
  }

  lemma GatherEight(bits: seq<byte>)
    requires |bits| == 8
    ensures Gather(bits) == (bits[0] << 7) | (bits[1] << 6) | (bits[2] << 5) | (bits[3] << 4)
                          | (bits[4] << 3) | (bits[5] << 2) | (bits[6] << 1) | bits[7]
  {
    GatherFour(bits);
    GatherStep(bits, 4); GatherStep(bits, 5); GatherStep(bits, 6); GatherStep(bits, 7);
    assert bits[..8] == bits;
  }

  lemma GatherFour(bits: seq<byte>)
    requires |bits| == 8
    ensures Gather(bits[..4]) == (bits[0] << 7) | (bits[1] << 6) | (bits[2] << 5) | (bits[3] << 4)
  {
    GatherStep(bits, 0); GatherStep(bits, 1); GatherStep(bits, 2); GatherStep(bits, 3);
    assert bits[..0] == [];
  }

  lemma GatherStep(bits: seq<byte>, k: nat)
    requires k < |bits| <= 8
    ensures Gather(bits[..k + 1]) == Gather(bits[..k]) | Place(bits[k], k)
  {
    assert bits[..k + 1][..k] == bits[..k];
  }

  /** Gathering the eight bits of a byte, most significant first, gives the byte back. */
  lemma GatherOfByte(bits: seq<byte>, b: byte)
    requires |bits| == 8
    requires forall t :: 0 <= t < 8 ==> bits[t] == BitAt(b, t)
    ensures Gather(bits) == b
  {
    GatherEight(bits);
    assert bits[0] == (b >> 7) & 1 && bits[1] == (b >> 6) & 1;
    assert bits[2] == (b >> 5) & 1 && bits[3] == (b >> 4) & 1;
    assert bits[4] == (b >> 3) & 1 && bits[5] == (b >> 2) & 1;
    assert bits[6] == (b >> 1) & 1 && bits[7] == b & 1;
  }

  /** Every gathered bit can be read back from its position. */
  lemma BitsOfGather(bits: seq<byte>, t: nat)
    requires |bits| == 8 && t < 8
    requires forall i :: 0 <= i < 8 ==> bits[i] <= 1
    ensures BitAt(Gather(bits), t) == bits[t]
  {
    GatherEight(bits);
    var b0, b1, b2, b3, b4, b5, b6, b7 := bits[0], bits[1], bits[2], bits[3], bits[4], bits[5], bits[6], bits[7];
    assert b0 <= 1 && b1 <= 1 && b2 <= 1 && b3 <= 1 && b4 <= 1 && b5 <= 1 && b6 <= 1 && b7 <= 1;
    var g := (b0 << 7) | (b1 << 6) | (b2 << 5) | (b3 << 4) | (b4 << 3) | (b5 << 2) | (b6 << 1) | b7;
    if t == 0 { assert (g >> 7) & 1 == b0; }
    else if t == 1 { assert (g >> 6) & 1 == b1; }
    else if t == 2 { assert (g >> 5) & 1 == b2; }
    else if t == 3 { assert (g >> 4) & 1 == b3; }
    else if t == 4 { assert (g >> 3) & 1 == b4; }
    else if t == 5 { assert (g >> 2) & 1 == b5; }
    else if t == 6 { assert (g >> 1) & 1 == b6; }
    else { assert g & 1 == b7; }
  }

  /** Packing the stream over a byte string gives the byte string back. */
  lemma {:induction false} PackOfStream(bits: seq<byte>, bytes: seq<byte>)
    requires |bits| == 8 * |bytes|
    requires forall k :: 0 <= k < |bits| ==> bits[k] == StreamBit(bytes, k)
    ensures Pack(bits, |bytes|) == bytes
  {
    var r := Pack(bits, |bytes|);
    forall j | 0 <= j < |bytes|
      ensures r[j] == bytes[j]
    {
      var slice := bits[8 * j..8 * j + 8];
      assert r[j] == Gather(slice);
      forall t | 0 <= t < 8
        ensures slice[t] == BitAt(bytes[j], t)
      {
        var k := 8 * j + t;
        assert k / 8 == j && k % 8 == t;
        assert slice[t] == bits[k] == StreamBit(bytes, k);
      }
      GatherOfByte(slice, bytes[j]);
    }
  }

  /** Every bit packed into a buffer it fills can be read back from the stream
      over the buffer, at the same position. */
  lemma {:induction false} StreamOfPack(bits: seq<byte>, count: nat)
    requires |bits| == 8 * count
    requires forall k :: 0 <= k < |bits| ==> bits[k] <= 1
    ensures forall k :: 0 <= k < |bits| ==> StreamBit(Pack(bits, count), k) == bits[k]
  {
    var r := Pack(bits, count);
    forall k | 0 <= k < |bits|
      ensures StreamBit(r, k) == bits[k]
    {
      var j, t := k / 8, k % 8;
      assert 8 * j + 8 <= |bits|;
      var slice := bits[8 * j..8 * j + 8];
      assert r[j] == Gather(slice);
      assert slice[t] == bits[k];
      BitsOfGather(slice, t);
    }
  }

  /** OR-ing one more bit into a packed buffer changes only the byte the bit
      goes to, and in that byte only position 7 - |bits| % 8 (the buffer
      started zeroed, so `|=` there writes the bit). */
  lemma {:induction false} PackAppend(bits: seq<byte>, b: byte, count: nat)
    requires |bits| < 8 * count
    ensures var before := Pack(bits, count);
            Pack(bits + [b], count)
              == before[|bits| / 8 := before[|bits| / 8] | Place(b, |bits| % 8)]
  {
    var before, after := Pack(bits, count), Pack(bits + [b], count);
    var q := |bits| / 8;
    var expected := before[q := before[q] | Place(b, |bits| % 8)];
    forall j | 0 <= j < count
      ensures after[j] == expected[j]
    {
      PackAppendAt(bits, b, count, j);
    }
  }

  lemma PackAppendAt(bits: seq<byte>, b: byte, count: nat, j: nat)
    requires |bits| < 8 * count && j < count
    ensures j != |bits| / 8 ==> Pack(bits + [b], count)[j] == Pack(bits, count)[j]
    ensures j == |bits| / 8 ==>
      Pack(bits + [b], count)[j] == Pack(bits, count)[j] | Place(b, |bits| % 8)
  {
    var bits' := bits + [b];
    var q := |bits| / 8;
    if j < q {
      assert 8 * j + 8 <= |bits|;
      assert bits'[8 * j..8 * j + 8] == bits[8 * j..8 * j + 8];
    } else if j > q {
      assert 8 * j >= |bits| + 1;
    } else {
      PackAppendHere(bits, b, count);
    }
  }

  lemma PackAppendHere(bits: seq<byte>, b: byte, count: nat)
    requires |bits| < 8 * count
    ensures var q := |bits| / 8;
      Pack(bits + [b], count)[q] == Pack(bits, count)[q] | Place(b, |bits| % 8)
  {
    var q := |bits| / 8;
    var lo := 8 * q;
    assert lo + |bits| % 8 == |bits|;
    var bits' := bits + [b];
    assert Min(lo, |bits|) == lo && Min(lo + 8, |bits|) == |bits|;
    assert Min(lo, |bits'|) == lo && Min(lo + 8, |bits'|) == |bits'|;
    var s := bits[lo..|bits|];
    assert Pack(bits, count)[q] == Gather(s);
    assert Pack(bits', count)[q] == Gather(bits'[lo..|bits'|]);
    assert bits'[lo..|bits'|] == s + [b];
    assert |s| == |bits| % 8;
    GatherAppend(s, b);
  }

  lemma GatherAppend(s: seq<byte>, b: byte)
    requires |s| < 8
    ensures Gather(s + [b]) == Gather(s) | Place(b, |s|)
  {
    var t := s + [b];
    assert t[..|t| - 1] == s;
  }

  /** A buffer into which nothing has been OR-ed is all zeros. */
  lemma PackNothing(count: nat)
    ensures Pack([], count) == seq(count, _ => 0)
  {
  }
}
