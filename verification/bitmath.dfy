/** Bit-level arithmetic on natural numbers. The tool manipulates `u8` and
    `u16` values with shifts, masks and `|`; the model writes `x >> k` as
    `x / Pow2(k)`, `x & (2^k - 1)` as `x % Pow2(k)`, `count_ones` as
    `Popcount`, and `|` as the bitwise `Or` defined here. */
module BitMath {
  import opened Basics

  function Pow2(k: nat): (r: nat)
    ensures r >= 1
  {
    if k == 0 then 1 else 2 * Pow2(k - 1)
  }

  /** `x >> k`. */
  function Shr(x: nat, k: nat): nat {
    DivNat(x, Pow2(k));
    x / Pow2(k)
  }

  lemma DivNat(x: nat, d: nat)
    requires d >= 1
    ensures x / d >= 0
  {
    MulAtLeast(x / d, d);
  }

  /** `x << k`, without overflow. */
  function Shl(x: nat, k: nat): nat {
    x * Pow2(k)
  }

  lemma {:induction false} Pow2Add(a: nat, b: nat)
    ensures Pow2(a + b) == Pow2(a) * Pow2(b)
  {
    if a > 0 {
      Pow2Add(a - 1, b);
      assert Pow2(a + b) == 2 * Pow2(a - 1 + b);
    }
  }

  /** The widths of the 24- and 32-bit little-endian fields. */
  lemma Pow2Wide()
    ensures Pow2(24) == 0x100_0000 && Pow2(32) == 0x1_0000_0000
  {
    assert Pow2(8) == 256;
    Pow2Add(8, 8);
    Pow2Add(16, 8);
    Pow2Add(16, 16);
  }

  lemma {:induction false} Pow2Monotone(a: nat, b: nat)
    requires a <= b
    ensures Pow2(a) <= Pow2(b)
  {
    if a < b {
      Pow2Monotone(a, b - 1);
    }
  }

  lemma MulAtLeast(a: int, d: int)
    requires d > 0
    ensures a >= 1 ==> a * d >= d
    ensures a <= -1 ==> a * d <= -d
  {
    assert a * d == d + (a - 1) * d;
    assert a * d == -d + (a + 1) * d;
  }

  lemma MulMonotone(a: nat, b: nat, c: nat)
    requires a <= b
    ensures a * c <= b * c
  {
  }

  /** Quotient and remainder are unique. */
  lemma ModUnique(v: int, d: int, q: int, r: int)
    requires d > 0 && v == q * d + r && 0 <= r < d
    ensures v / d == q && v % d == r
  {
    var q', r' := v / d, v % d;
    assert (q - q') * d == r' - r;
    MulAtLeast(q - q', d);
  }

  /** Shifting right by one and then by `k` is shifting right by `k + 1`. */
  lemma DivTwice(x: nat, k: nat)
    ensures x / Pow2(k + 1) == (x / 2) / Pow2(k)
  {
    var p := Pow2(k);
    var a, b := (x / 2) / p, (x / 2) % p;
    assert x / 2 == a * p + b;
    assert x == a * (2 * p) + (2 * b + x % 2);
    ModUnique(x, 2 * p, a, 2 * b + x % 2);
  }

  /** The low `k + 1` bits of `v` are bit `k` above the low `k` bits. */
  lemma ModSplit(v: nat, k: nat)
    ensures v % Pow2(k + 1) == BitAt(v, k) * Pow2(k) + v % Pow2(k)
  {
    var p := Pow2(k);
    var a := v / p;
    assert v == a * p + v % p;
    assert a == 2 * (a / 2) + a % 2;
    assert v == (a / 2) * (2 * p) + ((a % 2) * p + v % p);
    ModUnique(v, 2 * p, a / 2, (a % 2) * p + v % p);
  }

  /** `(v >> i) & 1`. */
  function BitAt(v: nat, i: nat): nat {
    (v / Pow2(i)) % 2
  }

  /** Bitwise inclusive or, one binary digit at a time from the bottom. */
  function Or(a: nat, b: nat): nat
    decreases a + b
  {
    if a == 0 then b
    else if b == 0 then a
    else 2 * Or(a / 2, b / 2) + Max(a % 2, b % 2)
  }

  lemma {:induction false} OrComm(a: nat, b: nat)
    ensures Or(a, b) == Or(b, a)
    decreases a + b
  {
    if a != 0 && b != 0 {
      OrComm(a / 2, b / 2);
    }
  }

  /** Or-ing a value into bit positions the other operand leaves clear is addition. */
  lemma {:induction false} OrLowHigh(a: nat, c: nat, k: nat)
    requires a < Pow2(k)
    ensures Or(a, c * Pow2(k)) == a + c * Pow2(k)
  {
    if k == 0 {
      assert a == 0;
    } else if a != 0 && c != 0 {
      var P := Pow2(k - 1);
      EvenHalf(c, P, Pow2(k));
      OrLowHigh(a / 2, c, k - 1);
      assert Or(a, c * Pow2(k)) == 2 * Or(a / 2, c * P) + Max(a % 2, 0);
    }
  }

  lemma EvenHalf(c: nat, P: nat, Q: nat)
    requires Q == 2 * P && c > 0 && P > 0
    ensures c * Q > 0 && (c * Q) / 2 == c * P && (c * Q) % 2 == 0
  {
    assert c * Q == 2 * (c * P);
    MulAtLeast(c, P);
  }

  /** Number of one bits (`count_ones`). */
  function Popcount(x: nat): nat {
    if x == 0 then 0 else x % 2 + Popcount(x / 2)
  }

  lemma {:induction false} PopcountBound(x: nat, k: nat)
    requires x < Pow2(k)
    ensures Popcount(x) <= k
  {
    if x != 0 {
      assert k > 0;
      PopcountBound(x / 2, k - 1);
    }
  }

  /** Unsigned little-endian number of a byte sequence. */
  function LittleEndian(bs: seq<byte>): nat {
    if |bs| == 0 then 0 else bs[0] + 256 * LittleEndian(bs[1..])
  }

  /** Unsigned big-endian number of a byte sequence. */
  function BigEndian(bs: seq<byte>): nat {
    if |bs| == 0 then 0 else BigEndian(bs[..|bs| - 1]) * 256 + bs[|bs| - 1]
  }

  /** The `k` low-order bytes of `n`, least significant first. */
  function LittleEndianBytes(n: nat, k: nat): (bs: seq<byte>)
    ensures |bs| == k
  {
    if k == 0 then [] else [n % 256] + LittleEndianBytes(n / 256, k - 1)
  }

  /** The `k` low-order bytes of `n`, most significant first. */
  function BigEndianBytes(n: nat, k: nat): (bs: seq<byte>)
    ensures |bs| == k
  {
    if k == 0 then [] else BigEndianBytes(n / 256, k - 1) + [n % 256]
  }

  lemma {:induction false} LittleEndianBound(bs: seq<byte>)
    ensures LittleEndian(bs) < Pow2(8 * |bs|)
  {
    if |bs| > 0 {
      LittleEndianBound(bs[1..]);
      Pow2Add(8, 8 * (|bs| - 1));
      assert Pow2(8) == 256;
    }
  }

  lemma {:induction false} LittleEndianRoundTrip(n: nat, k: nat)
    requires n < Pow2(8 * k)
    ensures LittleEndian(LittleEndianBytes(n, k)) == n
  {
    if k == 0 {
      assert n == 0;
    } else {
      Pow2Add(8, 8 * (k - 1));
      assert Pow2(8) == 256;
      assert n / 256 < Pow2(8 * (k - 1));
      LittleEndianRoundTrip(n / 256, k - 1);
      assert LittleEndianBytes(n, k)[1..] == LittleEndianBytes(n / 256, k - 1);
    }
  }

  lemma {:induction false} BigEndianRoundTrip(n: nat, k: nat)
    requires n < Pow2(8 * k)
    ensures BigEndian(BigEndianBytes(n, k)) == n
  {
    if k == 0 {
      assert n == 0;
    } else {
      Pow2Add(8, 8 * (k - 1));
      assert Pow2(8) == 256;
      assert n / 256 < Pow2(8 * (k - 1));
      BigEndianRoundTrip(n / 256, k - 1);
      var bs := BigEndianBytes(n, k);
      assert bs[..|bs| - 1] == BigEndianBytes(n / 256, k - 1);
    }
  }
}
