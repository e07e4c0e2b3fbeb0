/** Post-processing of the extracted bytes in `src/extractor.rs`: the
    `shift` option, which should prepend `shift % 8` zero bits to the output
    bit stream (reading each byte most significant bit first) and keep the
    length, and the `invert` option, which XORs every byte with 0xFF.

    The loop of `shift_prepend_zero_bits` walks the bytes from the last to
    the first, so each byte receives the low bits of the byte AFTER it rather
    than of the byte before it. `ShiftAsWritten` models that loop;
    `ShiftForward` is the intended carry direction, and `ShiftPrependZeroBits`
    (the one the extractor uses) is built on it. */
module Shift {
  import opened Basics
  import opened BitMath

  lemma Pow2Eight()
    ensures Pow2(8) == 256
  {
  }

  lemma CombineBound(b: byte, carry: nat, r: nat)
    requires 0 < r < 8 && carry < Pow2(r)
    ensures b / Pow2(r) < Pow2(8 - r)
    ensures b / Pow2(r) + carry * Pow2(8 - r) < 256
  {
    Pow2Add(r, 8 - r);
    Pow2Eight();
    QuotientBelow(b, Pow2(r), Pow2(8 - r));
    CarryBelow(carry, Pow2(r), Pow2(8 - r));
  }

  lemma QuotientBelow(b: nat, R: nat, S: nat)
    requires R > 0 && b < R * S
    ensures b / R < S
  {
    var q := b / R;
    assert b == q * R + b % R;
    if q >= S {
      MulMonotone(S, q, R);
    }
  }

  lemma CarryBelow(carry: nat, R: nat, S: nat)
    requires carry < R
    ensures carry * S <= R * S - S
  {
    MulMonotone(carry, R - 1, S);
    assert (R - 1) * S == R * S - S;
  }

  /** `(b >> r) | (carry << (8 - r))` for a carry below `2^r`: the two parts
      occupy disjoint bits, so the or is a sum. */
  function Combine(b: byte, carry: nat, r: nat): (v: byte)
    requires 0 < r < 8 && carry < Pow2(r)
    ensures v == Shr(b, r) + Shl(carry, 8 - r)
  {
    CombineOr(b, carry, r);
    Or(Shr(b, r), Shl(carry, 8 - r))
  }

  lemma CombineOr(b: byte, carry: nat, r: nat)
    requires 0 < r < 8 && carry < Pow2(r)
    ensures Or(Shr(b, r), Shl(carry, 8 - r)) == Shr(b, r) + Shl(carry, 8 - r) < 256
  {
    CombineBound(b, carry, r);
    OrLowHigh(Shr(b, r), carry, 8 - r);
  }

  /** The loop of `shift_prepend_zero_bits` as written: it visits the bytes
      from the last to the first; each byte is shifted right by `r` and takes
      above it the carry left by the byte visited before, that is, the low
      `r` bits of the byte that FOLLOWS it. `carry` is the carry into the
      last byte. */
  function ShiftAsWritten(d: seq<byte>, r: nat, carry: nat): (out: seq<byte>)
    requires 0 < r < 8 && carry < Pow2(r)
    ensures |out| == |d|
    decreases |d|
  {
    if |d| == 0 then []
    else
      var last := d[|d| - 1];
      ShiftAsWritten(d[..|d| - 1], r, last % Pow2(r)) + [Combine(last, carry, r)]
  }

  /** Byte `i` of the as-written shift: the top bits of byte `i` and the low
      bits of byte `i + 1`. */
  lemma {:induction false} ShiftAsWrittenIndex(d: seq<byte>, r: nat, carry: nat, i: nat)
    requires 0 < r < 8 && carry < Pow2(r) && i < |d|
    ensures ShiftAsWritten(d, r, carry)[i] ==
            d[i] / Pow2(r) + (if i + 1 < |d| then d[i + 1] % Pow2(r) else carry) * Pow2(8 - r)
    decreases |d|
  {
    if i < |d| - 1 {
      ShiftAsWrittenIndex(d[..|d| - 1], r, d[|d| - 1] % Pow2(r), i);
    }
  }

  function ShiftPrependZeroBitsAsWritten(d: seq<byte>, shift: nat): (out: seq<byte>)
    ensures |out| == |d|
  {
    var r := shift % 8;
    if r == 0 then d else ShiftAsWritten(d, r, 0)
  }

  /** The intended carry direction: bytes visited first to last, each taking
      above it the low `r` bits of the byte BEFORE it. */
  function ShiftForward(d: seq<byte>, r: nat, carry: nat): (out: seq<byte>)
    requires 0 < r < 8 && carry < Pow2(r)
    ensures |out| == |d|
  {
    if |d| == 0 then [] else [Combine(d[0], carry, r)] + ShiftForward(d[1..], r, d[0] % Pow2(r))
  }

  /** `shift_prepend_zero_bits` with the carry running forward. */
  function ShiftPrependZeroBits(d: seq<byte>, shift: nat): (out: seq<byte>)
    ensures |out| == |d|
    ensures shift % 8 == 0 ==> out == d
  {
    var r := shift % 8;
    if r == 0 then d else ShiftForward(d, r, 0)
  }

  /** A leading byte weighs `256^|t|` in the big-endian value. */
  lemma {:induction false} BigEndianCons(b: byte, t: seq<byte>)
    ensures BigEndian([b] + t) == b * Pow2(8 * |t|) + BigEndian(t)
    decreases |t|
  {
    var u := [b] + t;
    if |t| == 0 {
      assert u[..0] == [];
      assert BigEndian(u) == b;
      assert Pow2(0) == 1;
    } else {
      var n := |t|;
      var t' := t[..n - 1];
      var P' := Pow2(8 * (n - 1));
      assert u[..|u| - 1] == [b] + t';
      assert BigEndian(u) == BigEndian([b] + t') * 256 + t[n - 1];
      assert BigEndian(t) == BigEndian(t') * 256 + t[n - 1];
      BigEndianCons(b, t');
      Pow2Add(8 * (n - 1), 8);
      Pow2Eight();
      assert Pow2(8 * n) == P' * 256;
      ConsStep(b, P', BigEndian(t'), t[n - 1]);
    }
  }

  lemma ConsStep(b: nat, P: nat, x: nat, last: nat)
    ensures (b * P + x) * 256 + last == b * (P * 256) + (x * 256 + last)
  {
  }

  lemma DivAddMultiple(R: nat, K: nat, L: nat)
    requires R > 0
    ensures (R * K + L) / R == K + L / R
  {
    assert R * K + L == (K + L / R) * R + L % R;
    ModUnique(R * K + L, R, K + L / R, L % R);
  }

  /** One step of the forward shift in numbers: the first output byte and
      the shifted rest make up the shifted whole. */
  lemma ShiftStep(d0: nat, carry: nat, R: nat, S: nat, P: nat, B: nat, first: nat, restVal: nat, whole: nat, PP: nat)
    requires R > 0
    requires first == d0 / R + carry * S && restVal == ((d0 % R) * P + B) / R
    requires whole == d0 * P + B && PP == P * (R * S)
    ensures first * P + restVal == (carry * PP + whole) / R
  {
    var q, m := d0 / R, d0 % R;
    var K := (q + carry * S) * P;
    ShiftStepSum(d0, q, m, carry, R, S, P, B, whole, PP);
    DivAddMultiple(R, K, m * P + B);
    assert first * P == K;
  }

  lemma ShiftStepSum(d0: nat, q: nat, m: nat, carry: nat, R: nat, S: nat, P: nat, B: nat, whole: nat, PP: nat)
    requires d0 == q * R + m && whole == d0 * P + B && PP == P * (R * S)
    ensures carry * PP + whole == R * ((q + carry * S) * P) + (m * P + B)
  {
    assert d0 * P == R * (q * P) + m * P;
    assert carry * PP == R * (carry * S * P);
  }

  /** The forward shift divides the big-endian value, with the carry on
      top, by `2^r`: it is a right shift of the whole buffer. */
  lemma {:induction false} ShiftForwardValue(d: seq<byte>, r: nat, carry: nat)
    requires 0 < r < 8 && carry < Pow2(r)
    ensures BigEndian(ShiftForward(d, r, carry)) == (carry * Pow2(8 * |d|) + BigEndian(d)) / Pow2(r)
    decreases |d|
  {
    var R := Pow2(r);
    if |d| == 0 {
      assert carry * Pow2(0) + BigEndian(d) == carry;
      ModUnique(carry, R, 0, carry);
    } else {
      var t := d[1..];
      var P, S := Pow2(8 * |t|), Pow2(8 - r);
      var first := Combine(d[0], carry, r);
      var rest := ShiftForward(t, r, d[0] % R);
      ShiftForwardCons(d, r, carry);
      ShiftForwardValue(t, r, d[0] % R);
      assert d == [d[0]] + t;
      BigEndianCons(d[0], t);
      Pow2Split(|t|, r);
      ShiftStep(d[0], carry, R, S, P, BigEndian(t), first, BigEndian(rest), BigEndian(d), Pow2(8 * |d|));
    }
  }

  lemma ShiftForwardCons(d: seq<byte>, r: nat, carry: nat)
    requires 0 < r < 8 && carry < Pow2(r) && |d| > 0
    ensures Combine(d[0], carry, r) == d[0] / Pow2(r) + carry * Pow2(8 - r)
    ensures BigEndian(ShiftForward(d, r, carry)) ==
            Combine(d[0], carry, r) * Pow2(8 * (|d| - 1)) + BigEndian(ShiftForward(d[1..], r, d[0] % Pow2(r)))
  {
    var first := Combine(d[0], carry, r);
    var rest := ShiftForward(d[1..], r, d[0] % Pow2(r));
    assert ShiftForward(d, r, carry) == [first] + rest;
    BigEndianCons(first, rest);
  }

  /** `2^(8(n+1))` split at bit `r` of the top byte. */
  lemma Pow2Split(n: nat, r: nat)
    requires r <= 8
    ensures Pow2(8 * (n + 1)) == Pow2(8 * n) * (Pow2(r) * Pow2(8 - r))
  {
    Pow2Add(8 * n, 8);
    Pow2Add(r, 8 - r);
    Pow2Eight();
  }

  /** The corrected shift prepends `shift % 8` zero bits to the big-endian
      bit stream and keeps the length: the value is divided by `2^(shift % 8)`. */
  lemma ShiftPrependsZeroBits(d: seq<byte>, shift: nat)
    ensures BigEndian(ShiftPrependZeroBits(d, shift)) == BigEndian(d) / Pow2(shift % 8)
  {
    if shift % 8 == 0 {
      assert Pow2(0) == 1;
    } else {
      ShiftForwardValue(d, shift % 8, 0);
    }
  }

  /** The loop as written loses the bit that should carry into the second
      byte: shifting `01 00` by one bit gives `00 00`, where the stream with a
      zero bit prepended is `00 80`. */
  lemma ShiftAsWrittenCarriesBackward()
    ensures ShiftPrependZeroBitsAsWritten([0x01, 0x00], 1) == [0x00, 0x00]
    ensures ShiftPrependZeroBits([0x01, 0x00], 1) == [0x00, 0x80]
    ensures BigEndian([0x01, 0x00]) / 2 == BigEndian([0x00, 0x80]) == 0x80
  {
    var d: seq<byte> := [0x01, 0x00];
    CombineOneBit();
    ShiftAsWrittenIndex(d, 1, 0, 0);
    ShiftAsWrittenIndex(d, 1, 0, 1);
    assert Pow2(1) == 2;
    assert ShiftForward(d, 1, 0) == [Combine(1, 0, 1)] + ShiftForward([0x00], 1, 1);
    assert ShiftForward([0x00], 1, 1) == [Combine(0, 1, 1)] + ShiftForward([], 1, 0);
    BigEndianPair(0x01, 0x00);
    BigEndianPair(0x00, 0x80);
  }

  lemma CombineOneBit()
    ensures Combine(1, 0, 1) == 0 && Combine(0, 1, 1) == 0x80
  {
    assert Pow2(1) == 2 && Pow2(7) == 128;
  }

  lemma BigEndianPair(a: byte, b: byte)
    ensures BigEndian([a, b]) == a * 256 + b
  {
    var s: seq<byte> := [a, b];
    assert s[..1] == [a] && [a][..0] == [];
    assert BigEndian([a]) == a;
    assert BigEndian(s) == BigEndian([a]) * 256 + b;
  }

  /** The invert option: every byte XOR 0xFF. */
  function Invert(d: seq<byte>): (out: seq<byte>)
    ensures |out| == |d|
  {
    seq(|d|, i requires 0 <= i < |d| => 255 - d[i])
  }

  lemma InvertInvolution(d: seq<byte>)
    ensures Invert(Invert(d)) == d
  {
  }

  /** `2^k - 1 - b` complements each of the low `k` bits of `b`. */
  lemma {:induction false} ComplementBits(b: nat, k: nat, i: nat)
    requires b < Pow2(k) && i < k
    ensures BitAt(Pow2(k) - 1 - b, i) == 1 - BitAt(b, i)
    decreases i
  {
    var P := Pow2(k - 1);
    var c := Pow2(k) - 1 - b;
    assert Pow2(k) == 2 * P;
    ComplementHalf(b, P);
    if i == 0 {
      assert BitAt(c, 0) == c % 2 && BitAt(b, 0) == b % 2;
    } else {
      BitAtHalf(c, i - 1);
      BitAtHalf(b, i - 1);
      ComplementBits(b / 2, k - 1, i - 1);
    }
  }

  /** Complementing the low `k` bits, seen one bit down. */
  lemma ComplementHalf(b: nat, P: nat)
    requires b < 2 * P
    ensures (2 * P - 1 - b) % 2 == 1 - b % 2
    ensures (2 * P - 1 - b) / 2 == P - 1 - b / 2 && b / 2 < P
  {
  }

  lemma BitAtHalf(v: nat, i: nat)
    ensures BitAt(v, i + 1) == BitAt(v / 2, i)
  {
    DivTwice(v, i);
  }

  /** Every bit of every byte is flipped. */
  lemma InvertFlipsBits(d: seq<byte>, j: nat, i: nat)
    requires j < |d| && i < 8
    ensures BitAt(Invert(d)[j], i) == 1 - BitAt(d[j], i)
  {
    Pow2Eight();
    ComplementBits(d[j], 8, i);
  }
}
