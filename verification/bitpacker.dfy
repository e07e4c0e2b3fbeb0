/** The bit packer of `src/extractor.rs` (`push_nbits`, `push_bits`): sample
    bits are taken from the requested width's top bit down to bit 0 and folded
    into output bytes under one of two placement rules.

    Naming follows the tool, which is the reverse of what the names suggest:
    under `Lsb` each new bit is shifted in at the bottom, so the FIRST bit of
    a byte ends up as its most significant bit; under `Msb` the `k`-th bit of a
    byte is or-ed in at bit position `k`, so the first bit ends up lowest.

    The refinement proof relates the packer to a plain bit stream: after any
    sequence of pushes, the completed bytes are the stream cut into groups of
    eight and each group read under the placement rule (`Pack`), and the
    trailing partial group sits in the accumulator. */
module BitPacker {
  import opened Basics
  import opened BitMath
  import opened Opts

  type Bit = b: nat | b < 2

  /** Number of bits held in the accumulator, which is flushed at eight. */
  type BitCount = n: nat | n < 8

  /** The packer's state: finished bytes, the byte being built, and how many
      bits it already holds (`out`, `cur`, `cur_bits`). */
  datatype Packer = Packer(out: seq<byte>, cur: byte, curBits: BitCount)

  const Empty: Packer := Packer([], 0, 0)

  /** The accumulator after one more bit: `(cur << 1) | bit` under `Lsb`,
      `cur | (bit << cur_bits)` under `Msb`. */
  function Place(cur: byte, curBits: BitCount, bit: Bit, bo: BitOrder): byte {
    if bo == Lsb then
      OrBelow(cur * 2 % 256, bit, 8);
      Or(cur * 2 % 256, bit)
    else
      Pow2Monotone(curBits, 7);
      OrBelow(cur, bit * Pow2(curBits), 8);
      Or(cur, bit * Pow2(curBits))
  }

  /** One turn of the accumulation loop of `push_nbits`: place the bit and
      flush the accumulator once it holds eight bits. */
  function PushBit(p: Packer, bit: Bit, bo: BitOrder): (r: Packer)
    ensures 8 * |r.out| + r.curBits == 8 * |p.out| + p.curBits + 1
    ensures |r.out| >= |p.out| && r.out[..|p.out|] == p.out
  {
    var cur := Place(p.cur, p.curBits, bit, bo);
    if p.curBits + 1 >= 8 then Packer(p.out + [cur], 0, 0) else Packer(p.out, cur, p.curBits + 1)
  }

  lemma {:induction false} OrBelow(a: nat, b: nat, k: nat)
    requires a < Pow2(k) && b < Pow2(k)
    ensures Or(a, b) < Pow2(k)
  {
    if a != 0 && b != 0 {
      assert k > 0;
      OrBelow(a / 2, b / 2, k - 1);
    }
  }

  /** Pushes bits `k-1, …, 1, 0` of `v`, most significant first. */
  function PushTopBits(p: Packer, v: byte, k: nat, bo: BitOrder): (r: Packer)
    requires k <= 8
    ensures 8 * |r.out| + r.curBits == 8 * |p.out| + p.curBits + k
    ensures |r.out| >= |p.out| && r.out[..|p.out|] == p.out
    decreases k
  {
    if k == 0 then p
    else
      var q := PushBit(p, BitAt(v, k - 1), bo);
      var r := PushTopBits(q, v, k - 1, bo);
      assert r.out[..|p.out|] == r.out[..|q.out|][..|p.out|];
      r
  }

  /** `push_nbits`: the width is cast to `u8` and capped at 8. */
  function PushNBits(p: Packer, v: byte, nb: u16, bo: BitOrder): (r: Packer)
    ensures 8 * |r.out| + r.curBits == 8 * |p.out| + p.curBits + Min(nb % 256, 8)
    ensures |r.out| >= |p.out| && r.out[..|p.out|] == p.out
  {
    PushTopBits(p, v, Min(nb % 256, 8), bo)
  }

  /** The width `push_bits` and `process_pixel` hand to `push_nbits`: a value
      above 8 is a mask, and only its low byte's number of one bits is used. */
  function EffectiveWidth(nb: u16): (w: u16)
    ensures w <= 8
    ensures nb <= 8 ==> w == nb
  {
    if nb <= 8 then nb
    else
      PopcountBound(nb % 256, 8);
      Popcount(nb % 256)
  }

  /** `push_bits`: one sample pushed once per configured width. */
  function PushBits(p: Packer, v: byte, bits: seq<u16>, bo: BitOrder): (r: Packer)
    ensures |r.out| >= |p.out| && r.out[..|p.out|] == p.out
    decreases |bits|
  {
    if |bits| == 0 then p
    else
      var q := PushNBits(p, v, EffectiveWidth(bits[0]), bo);
      var r := PushBits(q, v, bits[1..], bo);
      assert r.out[..|p.out|] == r.out[..|q.out|][..|p.out|];
      r
  }

  // ---------------------------------------------------------------------
  // The bit-stream view

  /** Bits `k-1` down to `0` of `v`, in the order `push_nbits` extracts them. */
  function BitsOf(v: byte, k: nat): (s: seq<Bit>)
    requires k <= 8
    ensures |s| == k
  {
    if k == 0 then [] else [BitAt(v, k - 1) as Bit] + BitsOf(v, k - 1)
  }

  /** The number a group of bits denotes under a placement rule: under `Lsb`
      the first bit is the most significant, under `Msb` the least. */
  function Value(t: seq<Bit>, bo: BitOrder): nat {
    if |t| == 0 then 0
    else if bo == Lsb then t[0] * Pow2(|t| - 1) + Value(t[1..], bo)
    else t[0] + 2 * Value(t[1..], bo)
  }

  lemma {:induction false} ValueBound(t: seq<Bit>, bo: BitOrder)
    ensures Value(t, bo) < Pow2(|t|)
  {
    if |t| > 0 {
      ValueBound(t[1..], bo);
    }
  }

  lemma {:induction false} ValueAppend(t: seq<Bit>, b: Bit, bo: BitOrder)
    ensures bo == Lsb ==> Value(t + [b], bo) == 2 * Value(t, bo) + b
    ensures bo == Msb ==> Value(t + [b], bo) == Value(t, bo) + b * Pow2(|t|)
  {
    if |t| > 0 {
      assert (t + [b])[1..] == t[1..] + [b];
      ValueAppend(t[1..], b, bo);
    }
  }

  /** The complete bytes of a bit stream; a trailing partial group is dropped. */
  function Pack(s: seq<Bit>, bo: BitOrder): seq<byte>
    decreases |s|
  {
    if |s| < 8 then []
    else
      ValueBound(s[..8], bo);
      [Value(s[..8], bo) as byte] + Pack(s[8..], bo)
  }

  lemma {:induction false} PackAppend(s: seq<Bit>, t: seq<Bit>, bo: BitOrder)
    requires |s| % 8 == 0
    ensures Pack(s + t, bo) == Pack(s, bo) + Pack(t, bo)
    decreases |s|
  {
    if |s| > 0 {
      assert (s + t)[..8] == s[..8];
      assert (s + t)[8..] == s[8..] + t;
      PackAppend(s[8..], t, bo);
    } else {
      assert s + t == t;
    }
  }

  /** The packer holds exactly the bit stream `s`. */
  ghost predicate Represents(p: Packer, s: seq<Bit>, bo: BitOrder) {
    var q := |s| / 8;
    && p.curBits == |s| % 8
    && p.out == Pack(s[..8 * q], bo)
    && p.cur == Value(s[8 * q..], bo)
  }

  /** Placing a bit extends the accumulator's group by that bit. */
  lemma PlaceExtendsGroup(t: seq<Bit>, b: Bit, bo: BitOrder)
    requires |t| < 8
    ensures Value(t, bo) < 256
    ensures Place(Value(t, bo), |t|, b, bo) == Value(t + [b], bo)
  {
    ValueBound(t, bo);
    Pow2Monotone(|t|, 7);
    ValueAppend(t, b, bo);
    var c := Value(t, bo);
    if bo == Lsb {
      assert c * 2 % 256 == c * 2;
      OrComm(c * 2, b);
      OrLowHigh(b, c, 1);
    } else {
      OrLowHigh(c, b, |t|);
    }
  }

  lemma {:induction false} PushBitRepresents(p: Packer, s: seq<Bit>, b: Bit, bo: BitOrder)
    requires Represents(p, s, bo)
    ensures Represents(PushBit(p, b, bo), s + [b], bo)
  {
    var q := |s| / 8;
    var tail := s[8 * q..];
    var s' := s + [b];
    assert s'[8 * q..] == tail + [b];
    assert s'[..8 * q] == s[..8 * q];
    PlaceExtendsGroup(tail, b, bo);
    var cur := Value(tail + [b], bo);
    if p.curBits + 1 == 8 {
      FlushRepresents(s, b, bo);
    } else {
      assert |s'| / 8 == q;
    }
  }

  lemma FlushRepresents(s: seq<Bit>, b: Bit, bo: BitOrder)
    requires |s| % 8 == 7
    ensures var q := |s| / 8;
            Pack((s + [b])[..8 * (q + 1)], bo) == Pack(s[..8 * q], bo) + [Value(s[8 * q..] + [b], bo)]
    ensures (s + [b])[8 * ((|s| + 1) / 8)..] == []
  {
    var q := |s| / 8;
    var tail := s[8 * q..];
    var s' := s + [b];
    assert s'[..8 * (q + 1)] == s[..8 * q] + (tail + [b]);
    PackAppend(s[..8 * q], tail + [b], bo);
    var g := tail + [b];
    assert |g| == 8;
    assert g[..8] == g;
    assert g[8..] == [];
    ValueBound(g, bo);
    assert Pack(g, bo) == [Value(g, bo) as byte] + Pack(g[8..], bo);
  }

  lemma PushTopBitsRepresents(p: Packer, s: seq<Bit>, v: byte, k: nat, bo: BitOrder)
    requires k <= 8 && Represents(p, s, bo)
    ensures Represents(PushTopBits(p, v, k, bo), s + BitsOf(v, k), bo)
  {
    PushTopBitsStream(p, v, k, bo);
    PushStreamRepresents(p, s, BitsOf(v, k), bo);
  }

  /** Pushes the bits of `t` one at a time. */
  function PushStream(p: Packer, t: seq<Bit>, bo: BitOrder): (r: Packer)
    ensures 8 * |r.out| + r.curBits == 8 * |p.out| + p.curBits + |t|
    ensures |r.out| >= |p.out| && r.out[..|p.out|] == p.out
    decreases |t|
  {
    if |t| == 0 then p
    else
      var q := PushBit(p, t[0], bo);
      var r := PushStream(q, t[1..], bo);
      assert r.out[..|p.out|] == r.out[..|q.out|][..|p.out|];
      r
  }

  lemma {:induction false} PushStreamAppend(p: Packer, a: seq<Bit>, b: seq<Bit>, bo: BitOrder)
    ensures PushStream(p, a + b, bo) == PushStream(PushStream(p, a, bo), b, bo)
    decreases |a|
  {
    if |a| > 0 {
      assert (a + b)[1..] == a[1..] + b;
      PushStreamAppend(PushBit(p, a[0], bo), a[1..], b, bo);
    } else {
      assert a + b == b;
    }
  }

  /** Pushing a stream keeps the packer in step with the stream. */
  lemma {:induction false} PushStreamRepresents(p: Packer, s: seq<Bit>, t: seq<Bit>, bo: BitOrder)
    requires Represents(p, s, bo)
    ensures Represents(PushStream(p, t, bo), s + t, bo)
    decreases |t|
  {
    if |t| > 0 {
      PushBitRepresents(p, s, t[0], bo);
      PushStreamRepresents(PushBit(p, t[0], bo), s + [t[0]], t[1..], bo);
      assert s + [t[0]] + t[1..] == s + t;
    } else {
      assert s + t == s;
    }
  }

  /** From an empty packer, the output is the stream's complete bytes. */
  lemma PushStreamFromEmpty(t: seq<Bit>, bo: BitOrder)
    ensures PushStream(Empty, t, bo).out == Pack(t[..8 * (|t| / 8)], bo)
  {
    assert Represents(Empty, [], bo);
    PushStreamRepresents(Empty, [], t, bo);
    assert [] + t == t;
  }

  /** `push_nbits` pushes the sample's top-down bits as a stream. */
  lemma {:induction false} PushTopBitsStream(p: Packer, v: byte, k: nat, bo: BitOrder)
    requires k <= 8
    ensures PushTopBits(p, v, k, bo) == PushStream(p, BitsOf(v, k), bo)
    decreases k
  {
    if k > 0 {
      var b: Bit := BitAt(v, k - 1);
      PushTopBitsStream(PushBit(p, b, bo), v, k - 1, bo);
      assert BitsOf(v, k) == [b] + BitsOf(v, k - 1);
      PushStreamCons(p, b, BitsOf(v, k - 1), bo);
    }
  }

  lemma PushStreamCons(p: Packer, b: Bit, t: seq<Bit>, bo: BitOrder)
    ensures PushStream(p, [b] + t, bo) == PushStream(PushBit(p, b, bo), t, bo)
  {
    assert ([b] + t)[1..] == t;
  }

  /** From an empty accumulator, the packer's bytes are the packed bit stream
      of the sample's `min(nb, 8)` top-down bits, and the rest stays pending. */
  lemma PushNBitsStream(v: byte, nb: u16, bo: BitOrder)
    ensures var s := BitsOf(v, Min(nb % 256, 8));
            var r := PushNBits(Empty, v, nb, bo);
            r.out == Pack(s[..8 * (|s| / 8)], bo) && r.curBits == |s| % 8 &&
            r.cur == Value(s[8 * (|s| / 8)..], bo)
  {
    var s := BitsOf(v, Min(nb % 256, 8));
    assert Represents(Empty, [], bo);
    PushTopBitsRepresents(Empty, [], v, Min(nb % 256, 8), bo);
    assert [] + s == s;
  }

  lemma {:induction false} ValueOfTopBits(v: byte, k: nat)
    requires k <= 8
    ensures Value(BitsOf(v, k), Lsb) == v % Pow2(k)
  {
    if k > 0 {
      ValueOfTopBits(v, k - 1);
      ModSplit(v, k - 1);
    }
  }

  lemma {:induction false} BitOfValueMsb(t: seq<Bit>, i: nat)
    requires i < |t|
    ensures BitAt(Value(t, Msb), i) == t[i]
  {
    if i > 0 {
      DivTwice(Value(t, Msb), i - 1);
      assert Value(t, Msb) / 2 == Value(t[1..], Msb);
      BitOfValueMsb(t[1..], i - 1);
    }
  }

  lemma {:induction false} BitsOfIndex(v: byte, k: nat, i: nat)
    requires k <= 8 && i < k
    ensures BitsOf(v, k)[i] == BitAt(v, k - 1 - i)
  {
    if i > 0 {
      BitsOfIndex(v, k - 1, i - 1);
    }
  }

  lemma SingleGroup(s: seq<Bit>, bo: BitOrder)
    requires |s| == 8
    ensures Value(s, bo) < 256 && Pack(s, bo) == [Value(s, bo)]
  {
    assert s[..8] == s;
    assert s[8..] == [];
    ValueBound(s, bo);
  }

  /** With `nb = 8` from an empty accumulator, exactly one byte is emitted:
      the sample's eight bits read under the placement rule. */
  lemma FullByte(v: byte, bo: BitOrder)
    ensures Value(BitsOf(v, 8), bo) < 256
    ensures PushNBits(Empty, v, 8, bo) == Packer([Value(BitsOf(v, 8), bo)], 0, 0)
  {
    var s := BitsOf(v, 8);
    var r := PushNBits(Empty, v, 8, bo);
    PushNBitsStream(v, 8, bo);
    assert r.out == Pack(s[..8 * (|s| / 8)], bo);
    assert r.cur == Value(s[8 * (|s| / 8)..], bo);
    assert s[..8] == s;
    assert s[8..] == [];
    SingleGroup(s, bo);
  }

  /** With `nb = 8` from an empty accumulator, `Lsb` emits the sample itself. */
  lemma LsbFullByteIsIdentity(v: byte)
    ensures PushNBits(Empty, v, 8, Lsb) == Packer([v], 0, 0)
  {
    FullByte(v, Lsb);
    LsbByteValue(v);
  }

  lemma LsbByteValue(v: byte)
    ensures Value(BitsOf(v, 8), Lsb) == v
  {
    ValueOfTopBits(v, 8);
    assert Pow2(8) == 256;
  }

  /** With `nb = 8` from an empty accumulator, `Msb` emits the sample with
      its bit order reversed. */
  lemma MsbFullByteIsReversal(v: byte)
    ensures var r := PushNBits(Empty, v, 8, Msb);
            |r.out| == 1 && r.curBits == 0 &&
            forall i :: 0 <= i < 8 ==> BitAt(r.out[0], i) == BitAt(v, 7 - i)
  {
    FullByte(v, Msb);
    MsbValueReversed(v);
  }

  lemma MsbValueReversed(v: byte)
    ensures forall i :: 0 <= i < 8 ==> BitAt(Value(BitsOf(v, 8), Msb), i) == BitAt(v, 7 - i)
  {
    var s := BitsOf(v, 8);
    forall i | 0 <= i < 8
      ensures BitAt(Value(s, Msb), i) == BitAt(v, 7 - i)
    {
      BitOfValueMsb(s, i);
      BitsOfIndex(v, 8, i);
    }
  }

  lemma MaskWidth()
    ensures EffectiveWidth(0x188) == 2
  {
    assert 0x188 % 256 == 136;
    assert Popcount(1) == 1;
    assert Popcount(2) == 1;
    assert Popcount(4) == 1;
    assert Popcount(8) == 1;
    assert Popcount(17) == 2;
    assert Popcount(34) == 2;
    assert Popcount(68) == 2;
    assert Popcount(136) == 2;
  }

  /** The mask `0x188` (two bits set, 7 and 3) extracts bits 1 and 0. */
  lemma MaskExample(p: Packer, v: byte, bo: BitOrder)
    ensures PushNBits(p, v, EffectiveWidth(0x188), bo) ==
            PushBit(PushBit(p, BitAt(v, 1), bo), BitAt(v, 0), bo)
  {
    MaskWidth();
    var q := PushBit(p, BitAt(v, 1), bo);
    assert PushNBits(p, v, 2, bo) == PushTopBits(p, v, 2, bo);
    assert PushTopBits(p, v, 2, bo) == PushTopBits(q, v, 1, bo);
    assert PushTopBits(q, v, 1, bo) == PushTopBits(PushBit(q, BitAt(v, 0), bo), v, 0, bo);
  }
}
