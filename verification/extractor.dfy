/** The extractor of `src/extractor.rs`: it reads samples from an image in
    one of three traversals and folds their bits into bytes with the packer
    of `BitPacker`.

    - The pixel walks read the RGBA buffer row by row, or column by column
      when some order token is `yx` in any case. Each admitted pixel
      contributes the configured channels.
    - The byte walk reads the raw scanline bytes (`imagedata`) over a grid
      whose axes run forward or backward.
    - The output is then shifted and inverted as `Shift` describes.

    The main facts: with no limit, the output is the packed bit stream of the
    admitted samples (`PixelWalkStream`, `ByteWalkStream`), and a limit only
    cuts that output short (`PixelWalkLimitTruncates`, `ByteWalkLimitTruncates`). */
module Extractor {
  import opened Basics
  import opened BitMath
  import opened Seqs
  import opened Text
  import opened Opts
  import opened BitPacker
  import opened Primes
  import opened ImageIO
  import opened Shift

  // ---------------------------------------------------------------------
  // Channel patterns

  /** The channels to read and, for a pattern such as `r3g2b3`, one width
      per channel. */
  datatype ChannelSpec = ChannelSpec(channels: string, widths: seq<nat>)

  /** The test of `parse_channels_pattern`: an even number of characters,
      alternately a channel letter and a decimal digit. */
  predicate IsPairPattern(p: string) {
    |p| % 2 == 0 &&
    forall j :: 0 <= j < |p| ==> if j % 2 == 0 then IsChannelLetter(p[j]) else IsDigit(p[j])
  }

  predicate DigitWidths(widths: seq<nat>) {
    forall i :: 0 <= i < |widths| ==> widths[i] < 10
  }

  /** Channels and widths written back as a pattern. */
  function Interleave(channels: string, widths: seq<nat>): (p: string)
    requires |channels| == |widths| && DigitWidths(widths)
    ensures |p| == 2 * |channels|
  {
    if |channels| == 0 then [] else [channels[0], DigitChar(widths[0])] + Interleave(channels[1..], widths[1..])
  }

  lemma PairPatternTail(p: string)
    requires IsPairPattern(p) && |p| > 0
    ensures |p| >= 2 && IsPairPattern(p[2..])
  {
    forall j | 0 <= j < |p| - 2
      ensures if j % 2 == 0 then IsChannelLetter(p[2..][j]) else IsDigit(p[2..][j])
    {
      assert p[2..][j] == p[j + 2];
      assert (j + 2) % 2 == j % 2;
    }
  }

  function PairFields(p: string): (r: ChannelSpec)
    requires IsPairPattern(p)
    ensures |r.channels| == |r.widths| && DigitWidths(r.widths) && AllChannelLetters(r.channels)
    ensures Interleave(r.channels, r.widths) == p
    decreases |p|
  {
    if |p| == 0 then ChannelSpec([], [])
    else
      PairPatternTail(p);
      assert p[0] == p[..2][0] && IsChannelLetter(p[0]) && IsDigit(p[1]) by {
        assert 0 % 2 == 0 && 1 % 2 == 1;
      }
      var rest := PairFields(p[2..]);
      var w := p[1] as int - '0' as int;
      var r := ChannelSpec([p[0]] + rest.channels, [w] + rest.widths);
      assert r.channels[1..] == rest.channels && r.widths[1..] == rest.widths;
      assert DigitChar(w) == p[1];
      assert p == [p[0], p[1]] + p[2..];
      r
  }

  /** `parse_channels_pattern`: a pair pattern is split into channels and
      widths; anything else is a list of channels with no widths. */
  function ParseChannelsPattern(p: string): (r: ChannelSpec)
    ensures IsPairPattern(p) ==>
              |r.channels| == |r.widths| && DigitWidths(r.widths) && AllChannelLetters(r.channels) &&
              Interleave(r.channels, r.widths) == p
    ensures !IsPairPattern(p) ==> r == ChannelSpec(p, [])
  {
    if IsPairPattern(p) then PairFields(p) else ChannelSpec(p, [])
  }

  lemma {:induction false} InterleaveIsPairPattern(channels: string, widths: seq<nat>)
    requires |channels| == |widths| && DigitWidths(widths) && AllChannelLetters(channels)
    ensures IsPairPattern(Interleave(channels, widths))
  {
    if |channels| > 0 {
      InterleaveIsPairPattern(channels[1..], widths[1..]);
      var p := Interleave(channels, widths);
      var tail := Interleave(channels[1..], widths[1..]);
      assert p == [channels[0], DigitChar(widths[0])] + tail;
      forall j | 0 <= j < |p|
        ensures if j % 2 == 0 then IsChannelLetter(p[j]) else IsDigit(p[j])
      {
        if j >= 2 {
          assert p[j] == tail[j - 2];
          assert (j - 2) % 2 == j % 2;
        }
      }
    }
  }

  lemma {:induction false} InterleaveInjective(c1: string, w1: seq<nat>, c2: string, w2: seq<nat>)
    requires |c1| == |w1| && DigitWidths(w1) && |c2| == |w2| && DigitWidths(w2)
    requires Interleave(c1, w1) == Interleave(c2, w2)
    ensures c1 == c2 && w1 == w2
  {
    if |c1| > 0 {
      var p := Interleave(c1, w1);
      assert p[0] == c1[0] == c2[0];
      assert DigitChar(w1[0]) == p[1] == DigitChar(w2[0]);
      assert p[2..] == Interleave(c1[1..], w1[1..]) == Interleave(c2[1..], w2[1..]);
      InterleaveInjective(c1[1..], w1[1..], c2[1..], w2[1..]);
      assert c1 == [c1[0]] + c1[1..] && c2 == [c2[0]] + c2[1..];
      assert w1 == [w1[0]] + w1[1..] && w2 == [w2[0]] + w2[1..];
    }
  }

  /** Parsing recovers the channels and widths a pair pattern was written
      from; `rgb` and other odd-length patterns are plain channel lists. */
  lemma PairPatternRoundTrip(channels: string, widths: seq<nat>)
    requires |channels| == |widths| && DigitWidths(widths) && AllChannelLetters(channels)
    ensures ParseChannelsPattern(Interleave(channels, widths)) == ChannelSpec(channels, widths)
  {
    var p := Interleave(channels, widths);
    InterleaveIsPairPattern(channels, widths);
    var r := ParseChannelsPattern(p);
    InterleaveInjective(r.channels, r.widths, channels, widths);
  }

  // ---------------------------------------------------------------------
  // Samples and their bits

  /** The bytes `push_bits` feeds for one sample: for each configured width,
      the top-down bits of its effective width. */
  function SampleBits(v: byte, bits: seq<u16>): seq<Bit> {
    if |bits| == 0 then [] else BitsOf(v, EffectiveWidth(bits[0])) + SampleBits(v, bits[1..])
  }

  /** `push_bits` pushes the bits of each width in turn. */
  lemma {:induction false} PushBitsStream(p: Packer, v: byte, bits: seq<u16>, bo: BitOrder)
    ensures PushBits(p, v, bits, bo) == PushStream(p, SampleBits(v, bits), bo)
    decreases |bits|
  {
    if |bits| > 0 {
      var t := BitsOf(v, EffectiveWidth(bits[0]));
      var q := PushNBits(p, v, EffectiveWidth(bits[0]), bo);
      PushEffectiveWidth(p, v, bits[0], bo);
      PushBitsStream(q, v, bits[1..], bo);
      PushStreamAppend(p, t, SampleBits(v, bits[1..]), bo);
    }
  }

  /** One width of `push_bits` pushes the top-down bits of its effective width. */
  lemma PushEffectiveWidth(p: Packer, v: byte, nb: u16, bo: BitOrder)
    ensures PushNBits(p, v, EffectiveWidth(nb), bo) == PushStream(p, BitsOf(v, EffectiveWidth(nb)), bo)
  {
    var w := EffectiveWidth(nb);
    assert Min(w % 256, 8) == w;
    PushTopBitsStream(p, v, w, bo);
  }

  /** `pixels[idx + k]` for channel letter `r`, `g`, `b` or `a`; any other
      letter reads 0. */
  function ChannelValue(px: seq<byte>, c: char): byte
    requires |px| == 4
  {
    if c == 'r' then px[0]
    else if c == 'g' then px[1]
    else if c == 'b' then px[2]
    else if c == 'a' then px[3]
    else 0
  }

  /** The width used for channel `i` when the pattern carries widths: the
      digit, or 1 if the pattern has no entry for that channel. */
  function ChannelWidth(spec: ChannelSpec, i: nat): u16 {
    if i < |spec.widths| then spec.widths[i] % 0x1_0000 else 1
  }

  /** The channel loop of `process_pixel` from channel `i` on. */
  function PushChannels(p: Packer, px: seq<byte>, spec: ChannelSpec, i: nat, bits: seq<u16>, bo: BitOrder): (r: Packer)
    requires |px| == 4
    ensures |r.out| >= |p.out| && r.out[..|p.out|] == p.out
    decreases |spec.channels| - i
  {
    if i >= |spec.channels| then p
    else
      var q := ChannelPush(p, ChannelValue(px, spec.channels[i]), spec, i, bits, bo);
      var r := PushChannels(q, px, spec, i + 1, bits, bo);
      assert r.out[..|p.out|] == r.out[..|q.out|][..|p.out|];
      r
  }

  /** The bits one pixel contributes from channel `i` on. */
  function ChannelBits(px: seq<byte>, spec: ChannelSpec, i: nat, bits: seq<u16>): seq<Bit>
    requires |px| == 4
    decreases |spec.channels| - i
  {
    if i >= |spec.channels| then []
    else
      ChannelChunk(ChannelValue(px, spec.channels[i]), spec, i, bits) + ChannelBits(px, spec, i + 1, bits)
  }

  /** Channel `i` with sample `v`: its own width when the pattern carries
      widths, otherwise every global width. */
  function ChannelPush(p: Packer, v: byte, spec: ChannelSpec, i: nat, bits: seq<u16>, bo: BitOrder): (r: Packer)
    ensures |r.out| >= |p.out| && r.out[..|p.out|] == p.out
  {
    if |spec.widths| > 0 then PushNBits(p, v, ChannelWidth(spec, i), bo) else PushBits(p, v, bits, bo)
  }

  function ChannelChunk(v: byte, spec: ChannelSpec, i: nat, bits: seq<u16>): seq<Bit> {
    if |spec.widths| > 0 then BitsOf(v, Min(ChannelWidth(spec, i) % 256, 8)) else SampleBits(v, bits)
  }

  lemma ChannelPushStream(p: Packer, v: byte, spec: ChannelSpec, i: nat, bits: seq<u16>, bo: BitOrder)
    ensures ChannelPush(p, v, spec, i, bits, bo) == PushStream(p, ChannelChunk(v, spec, i, bits), bo)
  {
    if |spec.widths| > 0 {
      PushTopBitsStream(p, v, Min(ChannelWidth(spec, i) % 256, 8), bo);
    } else {
      PushBitsStream(p, v, bits, bo);
    }
  }

  lemma {:induction false} PushChannelsStream(p: Packer, px: seq<byte>, spec: ChannelSpec, i: nat,
                                              bits: seq<u16>, bo: BitOrder)
    requires |px| == 4
    ensures PushChannels(p, px, spec, i, bits, bo) == PushStream(p, ChannelBits(px, spec, i, bits), bo)
    decreases |spec.channels| - i
  {
    if i < |spec.channels| {
      var v := ChannelValue(px, spec.channels[i]);
      var q := ChannelPush(p, v, spec, i, bits, bo);
      ChannelPushStream(p, v, spec, i, bits, bo);
      PushChannelsStream(q, px, spec, i + 1, bits, bo);
      PushStreamAppend(p, ChannelChunk(v, spec, i, bits), ChannelBits(px, spec, i + 1, bits), bo);
    }
  }

  // ---------------------------------------------------------------------
  // Pixel walks

  datatype Cell = Cell(y: nat, x: nat)

  /** What a walk needs besides the image: channels, widths, placement rule
      and whether the prime filter is on (`PrimeSpec::Only`). */
  datatype WalkConfig = WalkConfig(spec: ChannelSpec, bits: seq<u16>, bo: BitOrder, prime: bool)

  predicate InImage(img: Image, c: Cell) {
    c.y < img.height && c.x < img.width
  }

  /** The four bytes of the pixel at `c`. */
  function PixelAt(img: Image, c: Cell): (px: seq<byte>)
    requires WellFormed(img) && InImage(img, c)
    ensures |px| == 4
  {
    CellInRange(c.y, c.x, img.width, img.height);
    var k := c.y * img.width + c.x;
    assert 4 * k + 4 <= 4 * (img.width * img.height);
    img.pixels[4 * k..4 * k + 4]
  }

  /** `use_prime_pixel`: with the filter on, a pixel is read only when
      `y * 1_000_003 + x` is prime. */
  predicate UsePixel(c: Cell, prime: bool) {
    !prime || TrialDivision(c.y * 1_000_003 + c.x)
  }

  function VisitPixel(p: Packer, img: Image, c: Cell, cfg: WalkConfig): (r: Packer)
    requires WellFormed(img) && InImage(img, c)
    ensures |r.out| >= |p.out| && r.out[..|p.out|] == p.out
  {
    if UsePixel(c, cfg.prime) then PushChannels(p, PixelAt(img, c), cfg.spec, 0, cfg.bits, cfg.bo) else p
  }

  predicate AllInImage(img: Image, cells: seq<Cell>) {
    forall k :: 0 <= k < |cells| ==> InImage(img, cells[k])
  }

  /** The pixel loops of `extract`: visit the cells in order, and stop after
      the first pixel at which the output holds at least `limit` bytes
      (`limit` 0 means no limit). */
  function PixelWalk(p: Packer, img: Image, cells: seq<Cell>, cfg: WalkConfig, limit: nat): (r: Packer)
    requires WellFormed(img) && AllInImage(img, cells)
    ensures |r.out| >= |p.out| && r.out[..|p.out|] == p.out
    decreases |cells|
  {
    if |cells| == 0 then p
    else
      var q := VisitPixel(p, img, cells[0], cfg);
      if limit > 0 && |q.out| >= limit then q
      else
        var r := PixelWalk(q, img, cells[1..], cfg, limit);
        assert r.out[..|p.out|] == r.out[..|q.out|][..|p.out|];
        r
  }

  /** The bits the admitted pixels contribute, in walk order. */
  function WalkBits(img: Image, cells: seq<Cell>, cfg: WalkConfig): seq<Bit>
    requires WellFormed(img) && AllInImage(img, cells)
    decreases |cells|
  {
    if |cells| == 0 then []
    else
      (if UsePixel(cells[0], cfg.prime) then ChannelBits(PixelAt(img, cells[0]), cfg.spec, 0, cfg.bits) else []) +
      WalkBits(img, cells[1..], cfg)
  }

  /** Without a limit the walk pushes exactly the bits of the admitted
      pixels. */
  lemma {:induction false} PixelWalkStream(p: Packer, img: Image, cells: seq<Cell>, cfg: WalkConfig)
    requires WellFormed(img) && AllInImage(img, cells)
    ensures PixelWalk(p, img, cells, cfg, 0) == PushStream(p, WalkBits(img, cells, cfg), cfg.bo)
    decreases |cells|
  {
    if |cells| > 0 {
      var c := cells[0];
      var chunk := if UsePixel(c, cfg.prime) then ChannelBits(PixelAt(img, c), cfg.spec, 0, cfg.bits) else [];
      if UsePixel(c, cfg.prime) {
        PushChannelsStream(p, PixelAt(img, c), cfg.spec, 0, cfg.bits, cfg.bo);
      }
      PixelWalkStream(VisitPixel(p, img, c, cfg), img, cells[1..], cfg);
      PushStreamAppend(p, chunk, WalkBits(img, cells[1..], cfg), cfg.bo);
    }
  }

  predicate IsPrefix(a: seq<byte>, b: seq<byte>) {
    |a| <= |b| && b[..|a|] == a
  }

  /** A limit only cuts the output short: the limited output is a prefix of
      the unlimited one, and it is all of it unless it reached the limit. */
  lemma {:induction false} PixelWalkLimitTruncates(p: Packer, img: Image, cells: seq<Cell>, cfg: WalkConfig, limit: nat)
    requires WellFormed(img) && AllInImage(img, cells)
    ensures var r := PixelWalk(p, img, cells, cfg, limit);
            var full := PixelWalk(p, img, cells, cfg, 0);
            IsPrefix(r.out, full.out) && (r == full || (limit > 0 && |r.out| >= limit))
    decreases |cells|
  {
    if |cells| > 0 {
      var q := VisitPixel(p, img, cells[0], cfg);
      if limit > 0 && |q.out| >= limit {
        var full := PixelWalk(q, img, cells[1..], cfg, 0);
        assert full.out[..|q.out|] == q.out;
      } else {
        PixelWalkLimitTruncates(q, img, cells[1..], cfg, limit);
      }
    }
  }

  function RowMajorCell(k: nat, width: nat, height: nat): (c: Cell)
    requires k < width * height
    ensures c.y < height && c.x < width
  {
    assert width > 0;
    RowIndexInRange(k, width, height);
    Cell(k / width, k % width)
  }

  function ColumnMajorCell(k: nat, width: nat, height: nat): (c: Cell)
    requires k < width * height
    ensures c.y < height && c.x < width
  {
    assert height > 0 && k < height * width;
    RowIndexInRange(k, height, width);
    Cell(k % height, k / height)
  }

  /** `for y in 0..height { for x in 0..width }`: cell `k` is
      `(k / width, k % width)`. */
  function RowMajorCells(width: nat, height: nat): (cells: seq<Cell>)
    ensures |cells| == width * height
    ensures forall k :: 0 <= k < |cells| ==> cells[k].y < height && cells[k].x < width
  {
    seq(width * height, k requires 0 <= k < width * height => RowMajorCell(k, width, height))
  }

  /** `for x in 0..width { for y in 0..height }`: cell `k` is
      `(k % height, k / height)`. */
  function ColumnMajorCells(width: nat, height: nat): (cells: seq<Cell>)
    ensures |cells| == width * height
    ensures forall k :: 0 <= k < |cells| ==> cells[k].y < height && cells[k].x < width
  {
    seq(width * height, k requires 0 <= k < width * height => ColumnMajorCell(k, width, height))
  }

  /** The row-major walk visits cell `(y, x)` at step `y * width + x`. */
  lemma RowMajorPosition(width: nat, height: nat, y: nat, x: nat)
    requires y < height && x < width
    ensures y * width + x < width * height && RowMajorCells(width, height)[y * width + x] == Cell(y, x)
  {
    CellInRange(y, x, width, height);
    ModUnique(y * width + x, width, y, x);
  }

  /** The column-major walk visits cell `(y, x)` at step `x * height + y`. */
  lemma ColumnMajorPosition(width: nat, height: nat, y: nat, x: nat)
    requires y < height && x < width
    ensures x * height + y < width * height && ColumnMajorCells(width, height)[x * height + y] == Cell(y, x)
  {
    CellInRange(x, y, height, width);
    ModUnique(x * height + y, height, x, y);
  }

  // ---------------------------------------------------------------------
  // The byte walk

  /** `make_range(start, end, 1)`: every integer from `start` to `end`
      inclusive, ascending or descending. */
  function MakeRange(start: nat, end: nat): (r: seq<nat>)
    ensures start <= end ==> |r| == end - start + 1 && forall i :: 0 <= i < |r| ==> r[i] == start + i
    ensures start > end ==> |r| == start - end + 1 && forall i :: 0 <= i < |r| ==> r[i] == start - i
  {
    if start <= end then seq(end - start + 1, i requires 0 <= i <= end - start => start + i)
    else seq(start - end + 1, i requires 0 <= i <= start - end => start - i)
  }

  /** The row stride of the scanline grid: 24-bit rows padded to four bytes
      for BMP, four bytes per pixel plus the filter byte for PNG. */
  function BytesPerLine(img: Image): nat {
    if img.format == Bmp then ((img.width * 3 + 3) / 4) * 4 else img.width * 4 + 1
  }

  /** The axes of a byte walk: start and end of the byte (x) and row (y)
      ranges. */
  datatype Axes = Axes(xStart: nat, xEnd: nat, yStart: nat, yEnd: nat)

  /** One character of the order token: `b`/`B` set the x axis forward or
      backward, `y`/`Y` the y axis; anything else is ignored. */
  function ApplyAxisChar(a: Axes, c: char, maxX: nat, maxY: nat): Axes {
    if c == 'b' then a.(xStart := 0, xEnd := maxX)
    else if c == 'B' then a.(xStart := maxX, xEnd := 0)
    else if c == 'y' then a.(yStart := 0, yEnd := maxY)
    else if c == 'Y' then a.(yStart := maxY, yEnd := 0)
    else a
  }

  /** The loop of `parse_byte_order` over the characters of `s`, from the
      default forward axes. */
  function AxesOf(s: string, maxX: nat, maxY: nat): Axes
    decreases |s|
  {
    if |s| == 0 then Axes(0, maxX, 0, maxY)
    else ApplyAxisChar(AxesOf(s[..|s| - 1], maxX, maxY), s[|s| - 1], maxX, maxY)
  }

  /** The last character of `s` that is `lo` or `hi`, if any. */
  function LastOf(s: string, lo: char, hi: char): (r: Option<char>)
    ensures r.Some? ==> r.value == lo || r.value == hi
    ensures r.None? <==> lo !in s && hi !in s
  {
    if |s| == 0 then None
    else if s[|s| - 1] == lo || s[|s| - 1] == hi then Some(s[|s| - 1])
    else
      assert s == s[..|s| - 1] + [s[|s| - 1]];
      LastOf(s[..|s| - 1], lo, hi)
  }

  /** The last `b`/`B` decides the x axis and the last `y`/`Y` the y axis;
      an axis with no letter runs forward. */
  lemma {:induction false} LastLetterWins(s: string, maxX: nat, maxY: nat)
    ensures var a := AxesOf(s, maxX, maxY);
            (a.xStart, a.xEnd) == (if LastOf(s, 'b', 'B') == Some('B') then (maxX, 0) else (0, maxX)) &&
            (a.yStart, a.yEnd) == (if LastOf(s, 'y', 'Y') == Some('Y') then (maxY, 0) else (0, maxY))
    decreases |s|
  {
    if |s| > 0 {
      LastLetterWins(s[..|s| - 1], maxX, maxY);
    }
  }

  /** `parse_byte_order`: x spans the bytes of a line, y the rows. */
  function ParseByteOrder(token: string, img: Image): Axes {
    AxesOf(token, SatSub(BytesPerLine(img), 1), SatSub(img.height, 1))
  }

  /** The scanline offsets the byte walk visits, in order: row-first walks
      every byte of a row before the next row, column-first every row of a
      byte column before the next column. */
  function ByteCells(xs: seq<nat>, ys: seq<nat>, stride: nat, rowFirst: bool): (cells: seq<nat>)
    ensures |cells| == |xs| * |ys|
  {
    if rowFirst then
      if |ys| == 0 then []
      else
        var rest := ByteCells(xs, ys[1..], stride, true);
        MulPeel(|xs|, |ys|);
        MapSeq(xs, x => ys[0] * stride + x) + rest
    else
      if |xs| == 0 then []
      else
        var rest := ByteCells(xs[1..], ys, stride, false);
        MulPeel(|ys|, |xs|);
        MapSeq(ys, y => y * stride + xs[0]) + rest
  }

  /** One factor taken off a product, from either side. */
  lemma MulPeel(a: nat, b: nat)
    requires b > 0
    ensures a * b == a + a * (b - 1) && b * a == a + (b - 1) * a
  {
  }

  /** The byte loops of `extract`: stop for good at the first offset past
      the data; count every offset inside it (the prime filter tests that
      count); after each pushed byte, stop once the output holds `limit`
      bytes (0: no limit). */
  function ByteWalk(p: Packer, data: seq<byte>, cells: seq<nat>, index: nat, prime: bool,
                    bits: seq<u16>, bo: BitOrder, limit: nat): (r: Packer)
    ensures |r.out| >= |p.out| && r.out[..|p.out|] == p.out
    decreases |cells|
  {
    if |cells| == 0 || cells[0] >= |data| then p
    else if !prime || TrialDivision(index) then
      var q := PushBits(p, data[cells[0]], bits, bo);
      if limit > 0 && |q.out| >= limit then q
      else
        var r := ByteWalk(q, data, cells[1..], index + 1, prime, bits, bo, limit);
        assert r.out[..|p.out|] == r.out[..|q.out|][..|p.out|];
        r
    else ByteWalk(p, data, cells[1..], index + 1, prime, bits, bo, limit)
  }

  /** The bytes the walk reads (without a limit): those at admitted counts,
      up to the first offset past the data. */
  function SelectedBytes(data: seq<byte>, cells: seq<nat>, index: nat, prime: bool): seq<byte>
    decreases |cells|
  {
    if |cells| == 0 || cells[0] >= |data| then []
    else (if !prime || TrialDivision(index) then [data[cells[0]]] else []) +
         SelectedBytes(data, cells[1..], index + 1, prime)
  }

  function SamplesBits(vs: seq<byte>, bits: seq<u16>): seq<Bit> {
    if |vs| == 0 then [] else SampleBits(vs[0], bits) + SamplesBits(vs[1..], bits)
  }

  lemma {:induction false} SamplesBitsCons(v: byte, vs: seq<byte>, bits: seq<u16>)
    ensures SamplesBits([v] + vs, bits) == SampleBits(v, bits) + SamplesBits(vs, bits)
  {
    assert ([v] + vs)[1..] == vs;
  }

  /** Without a limit the byte walk pushes exactly the bits of the selected
      bytes. */
  lemma {:induction false} ByteWalkStream(p: Packer, data: seq<byte>, cells: seq<nat>, index: nat,
                                          prime: bool, bits: seq<u16>, bo: BitOrder)
    ensures ByteWalk(p, data, cells, index, prime, bits, bo, 0) ==
            PushStream(p, SamplesBits(SelectedBytes(data, cells, index, prime), bits), bo)
    decreases |cells|
  {
    if |cells| > 0 && cells[0] < |data| {
      var rest := SelectedBytes(data, cells[1..], index + 1, prime);
      if !prime || TrialDivision(index) {
        var v := data[cells[0]];
        PushBitsStream(p, v, bits, bo);
        ByteWalkStream(PushBits(p, v, bits, bo), data, cells[1..], index + 1, prime, bits, bo);
        SamplesBitsCons(v, rest, bits);
        PushStreamAppend(p, SampleBits(v, bits), SamplesBits(rest, bits), bo);
      } else {
        ByteWalkStream(p, data, cells[1..], index + 1, prime, bits, bo);
        assert SelectedBytes(data, cells, index, prime) == rest;
      }
    }
  }

  /** Nothing after the first offset past the data is read. */
  lemma {:induction false} ByteWalkStopsAtEnd(p: Packer, data: seq<byte>, cells: seq<nat>, k: nat, index: nat,
                                              prime: bool, bits: seq<u16>, bo: BitOrder, limit: nat)
    requires k < |cells| && cells[k] >= |data|
    ensures ByteWalk(p, data, cells, index, prime, bits, bo, limit) ==
            ByteWalk(p, data, cells[..k], index, prime, bits, bo, limit)
    decreases k
  {
    if k > 0 && cells[0] < |data| {
      assert cells[..k][0] == cells[0] && cells[..k][1..] == cells[1..][..k - 1];
      if !prime || TrialDivision(index) {
        var q := PushBits(p, data[cells[0]], bits, bo);
        if !(limit > 0 && |q.out| >= limit) {
          ByteWalkStopsAtEnd(q, data, cells[1..], k - 1, index + 1, prime, bits, bo, limit);
        }
      } else {
        ByteWalkStopsAtEnd(p, data, cells[1..], k - 1, index + 1, prime, bits, bo, limit);
      }
    }
  }

  lemma {:induction false} ByteWalkLimitTruncates(p: Packer, data: seq<byte>, cells: seq<nat>, index: nat,
                                                  prime: bool, bits: seq<u16>, bo: BitOrder, limit: nat)
    ensures var r := ByteWalk(p, data, cells, index, prime, bits, bo, limit);
            var full := ByteWalk(p, data, cells, index, prime, bits, bo, 0);
            IsPrefix(r.out, full.out) && (r == full || (limit > 0 && |r.out| >= limit))
    decreases |cells|
  {
    if |cells| > 0 && cells[0] < |data| {
      if !prime || TrialDivision(index) {
        var q := PushBits(p, data[cells[0]], bits, bo);
        if limit > 0 && |q.out| >= limit {
          var full := ByteWalk(q, data, cells[1..], index + 1, prime, bits, bo, 0);
          assert full.out[..|q.out|] == q.out;
        } else {
          ByteWalkLimitTruncates(q, data, cells[1..], index + 1, prime, bits, bo, limit);
        }
      } else {
        ByteWalkLimitTruncates(p, data, cells[1..], index + 1, prime, bits, bo, limit);
      }
    }
  }

  /** One sample under one width completes at most one byte. */
  lemma OneWidthGrowth(p: Packer, v: byte, w: u16, bo: BitOrder)
    ensures |PushBits(p, v, [w], bo).out| <= |p.out| + 1
  {
    var e := EffectiveWidth(w);
    var q := PushNBits(p, v, e, bo);
    assert [w][1..] == [];
    assert PushBits(p, v, [w], bo) == PushBits(q, v, [], bo) == q;
    assert 8 * |q.out| + q.curBits == 8 * |p.out| + p.curBits + Min(e % 256, 8);
  }

  /** With one width per byte at most one byte is completed per sample, so
      the walk stops exactly at the limit. */
  lemma {:induction false} ByteWalkWithinLimit(p: Packer, data: seq<byte>, cells: seq<nat>, index: nat,
                                               prime: bool, w: u16, bo: BitOrder, limit: nat)
    requires limit > 0 && |p.out| < limit
    ensures |ByteWalk(p, data, cells, index, prime, [w], bo, limit).out| <= limit
    decreases |cells|
  {
    if |cells| > 0 && cells[0] < |data| {
      if !prime || TrialDivision(index) {
        var q := PushBits(p, data[cells[0]], [w], bo);
        OneWidthGrowth(p, data[cells[0]], w, bo);
        if |q.out| < limit {
          ByteWalkWithinLimit(q, data, cells[1..], index + 1, prime, w, bo, limit);
        }
      } else {
        ByteWalkWithinLimit(p, data, cells[1..], index + 1, prime, w, bo, limit);
      }
    }
  }

  /** The values at the admitted positions, read with the definition of a
      prime rather than the trial division. */
  ghost function PrimeIndexed(vs: seq<byte>, index: nat): seq<byte>
    decreases |vs|
  {
    if |vs| == 0 then [] else (if IsPrime(index) then [vs[0]] else []) + PrimeIndexed(vs[1..], index + 1)
  }

  predicate AllInside(data: seq<byte>, cells: seq<nat>) {
    forall k :: 0 <= k < |cells| ==> cells[k] < |data|
  }

  function ReadAll(data: seq<byte>, cells: seq<nat>): (vs: seq<byte>)
    requires AllInside(data, cells)
    ensures |vs| == |cells|
  {
    seq(|cells|, k requires 0 <= k < |cells| => data[cells[k]])
  }

  /** While the offsets stay inside the data, the prime filter keeps exactly
      the bytes whose position in the walk (counted from `index`) is prime;
      without it every byte is read. */
  lemma {:induction false} SelectedBytesInside(data: seq<byte>, cells: seq<nat>, index: nat)
    requires AllInside(data, cells)
    ensures SelectedBytes(data, cells, index, true) == PrimeIndexed(ReadAll(data, cells), index)
    ensures SelectedBytes(data, cells, index, false) == ReadAll(data, cells)
    decreases |cells|
  {
    if |cells| > 0 {
      TrialDivisionCorrect(index);
      SelectedBytesInside(data, cells[1..], index + 1);
      assert ReadAll(data, cells)[1..] == ReadAll(data, cells[1..]);
      assert ReadAll(data, cells) == [data[cells[0]]] + ReadAll(data, cells[1..]);
    }
  }

  // ---------------------------------------------------------------------
  // extract

  predicate HasByteLetter(s: string) {
    'b' in s || 'B' in s
  }

  /** The first order token naming a byte walk. */
  function FirstByteToken(tokens: seq<string>): (r: Option<string>)
    ensures r.None? <==> forall i :: 0 <= i < |tokens| ==> !HasByteLetter(tokens[i])
    ensures r.Some? ==> exists k :: 0 <= k < |tokens| && tokens[k] == r.value && HasByteLetter(r.value) &&
                          forall j :: 0 <= j < k ==> !HasByteLetter(tokens[j])
  {
    if |tokens| == 0 then None
    else if HasByteLetter(tokens[0]) then Some(tokens[0])
    else
      var r := FirstByteToken(tokens[1..]);
      assert r.Some? ==> exists k :: 0 <= k < |tokens| && tokens[k] == r.value && HasByteLetter(r.value) &&
                           forall j :: 0 <= j < k ==> !HasByteLetter(tokens[j]) by {
        if r.Some? {
          var k :| 0 <= k < |tokens[1..]| && tokens[1..][k] == r.value && HasByteLetter(r.value) &&
                   forall j :: 0 <= j < k ==> !HasByteLetter(tokens[1..][j]);
          assert tokens[k + 1] == r.value;
          forall j | 0 <= j < k + 1
            ensures !HasByteLetter(tokens[j])
          {
            if j > 0 {
              assert tokens[j] == tokens[1..][j - 1];
            }
          }
        }
      }
      r
  }

  predicate AnyYx(tokens: seq<string>) {
    exists i :: 0 <= i < |tokens| && EqIgnoreAsciiCase(tokens[i], "yx")
  }

  function AnyYxCheck(tokens: seq<string>): (b: bool)
    ensures b <==> AnyYx(tokens)
  {
    if |tokens| == 0 then false
    else if EqIgnoreAsciiCase(tokens[0], "yx") then true
    else
      assert forall i :: 1 <= i < |tokens| ==> tokens[i] == tokens[1..][i - 1];
      AnyYxCheck(tokens[1..])
  }

  datatype Traversal = ByteTraversal(token: string) | ColumnMajor | RowMajor

  /** The match arms of `extract`: a token with `b`/`B` selects the byte
      walk (the first such token is used), otherwise a `yx` token in any
      case selects the column-major walk, and anything else is row-major. */
  function TraversalOf(order: OrderSpec): (t: Traversal)
    ensures t.ByteTraversal? <==>
              order.Explicit? && exists i :: 0 <= i < |order.tokens| && HasByteLetter(order.tokens[i])
    ensures t.ByteTraversal? ==> HasByteLetter(t.token) && t.token in order.tokens
    ensures t.ColumnMajor? <==>
              order.Explicit? && (forall i :: 0 <= i < |order.tokens| ==> !HasByteLetter(order.tokens[i])) &&
              AnyYx(order.tokens)
  {
    match order
    case Explicit(tokens) =>
      (match FirstByteToken(tokens)
       case Some(tok) => ByteTraversal(tok)
       case None => if AnyYxCheck(tokens) then ColumnMajor else RowMajor)
    case _ => RowMajor
  }

  /** The walk configuration `extract` derives from the options. */
  function ConfigOf(opts: Options): WalkConfig {
    var pattern := match opts.channels case Some(v) => FlatMap(v, (c: string) => c) case None => "rgb";
    WalkConfig(ParseChannelsPattern(pattern), opts.bits.GetOr([1]), opts.bitOrder.GetOr(Lsb), opts.prime == PrimeOnly)
  }

  /** The byte offsets the byte walk visits for an order token. */
  function ByteWalkCells(img: Image, token: string): seq<nat> {
    var a := ParseByteOrder(token, img);
    var rowFirst := |token| == 0 || token[0] == 'b' || token[0] == 'B';
    ByteCells(MakeRange(a.xStart, a.xEnd), MakeRange(a.yStart, a.yEnd), BytesPerLine(img), rowFirst)
  }

  /** The extracted bytes before post-processing. */
  function RawExtract(img: Image, opts: Options): seq<byte>
    requires WellFormed(img)
  {
    var cfg := ConfigOf(opts);
    match TraversalOf(opts.order)
    case ByteTraversal(tok) =>
      ByteWalk(Empty, img.imagedata, ByteWalkCells(img, tok), 0, cfg.prime, cfg.bits, cfg.bo, opts.limit).out
    case ColumnMajor => PixelWalk(Empty, img, ColumnMajorCells(img.width, img.height), cfg, opts.limit).out
    case RowMajor => PixelWalk(Empty, img, RowMajorCells(img.width, img.height), cfg, opts.limit).out
  }

  /** The output limit only cuts the extraction short: the limited bytes are
      a prefix of the unlimited ones, and all of them unless the limit was
      reached. */
  lemma RawExtractLimitTruncates(img: Image, opts: Options)
    requires WellFormed(img)
    ensures var r, full := RawExtract(img, opts), RawExtract(img, opts.(limit := 0));
            IsPrefix(r, full) && (r == full || (opts.limit > 0 && |r| >= opts.limit))
  {
    var cfg := ConfigOf(opts);
    assert ConfigOf(opts.(limit := 0)) == cfg;
    match TraversalOf(opts.order)
    case ByteTraversal(tok) =>
      ByteWalkLimitTruncates(Empty, img.imagedata, ByteWalkCells(img, tok), 0, cfg.prime, cfg.bits, cfg.bo, opts.limit);
    case ColumnMajor =>
      PixelWalkLimitTruncates(Empty, img, ColumnMajorCells(img.width, img.height), cfg, opts.limit);
    case RowMajor =>
      PixelWalkLimitTruncates(Empty, img, RowMajorCells(img.width, img.height), cfg, opts.limit);
  }

  /** `extract`: walk, then shift (when a positive shift is set), then
      invert. */
  function Extract(img: Image, opts: Options): (r: seq<byte>)
    requires WellFormed(img)
    ensures |r| == |RawExtract(img, opts)|
    ensures !opts.invert && (opts.shift.None? || opts.shift.value % 8 == 0) ==> r == RawExtract(img, opts)
  {
    var raw := RawExtract(img, opts);
    var shifted := if opts.shift.Some? && opts.shift.value > 0 then ShiftPrependZeroBits(raw, opts.shift.value) else raw;
    if opts.invert then Invert(shifted) else shifted
  }

  /** Inverting is a last step that can be undone: the inverted output
      inverted again is the plain output. */
  lemma ExtractInvert(img: Image, opts: Options)
    requires WellFormed(img)
    ensures Invert(Extract(img, opts.(invert := true))) == Extract(img, opts.(invert := false))
  {
    var raw := RawExtract(img, opts);
    assert RawExtract(img, opts.(invert := true)) == raw == RawExtract(img, opts.(invert := false));
    var shifted := if opts.shift.Some? && opts.shift.value > 0 then ShiftPrependZeroBits(raw, opts.shift.value) else raw;
    InvertInvolution(shifted);
  }

  /** Without limit, shift or invert, a pixel-walk extraction is the packed
      bit stream of the admitted pixels, cut to whole bytes. */
  lemma ExtractIsPackedStream(img: Image, opts: Options)
    requires WellFormed(img) && opts.limit == 0 && opts.shift.None? && !opts.invert
    requires !TraversalOf(opts.order).ByteTraversal?
    ensures var cfg := ConfigOf(opts);
            var cells := if TraversalOf(opts.order).ColumnMajor? then ColumnMajorCells(img.width, img.height)
                         else RowMajorCells(img.width, img.height);
            var s := WalkBits(img, cells, cfg);
            Extract(img, opts) == Pack(s[..8 * (|s| / 8)], cfg.bo)
  {
    var cfg := ConfigOf(opts);
    var cells := if TraversalOf(opts.order).ColumnMajor? then ColumnMajorCells(img.width, img.height)
                 else RowMajorCells(img.width, img.height);
    PixelWalkStream(Empty, img, cells, cfg);
    PushStreamFromEmpty(WalkBits(img, cells, cfg), cfg.bo);
  }

  /** The scan tries `XY`, `Xy` and `xY`, but the extractor reads all of
      them as the forward row-major `xy`, and `YX`, `yX` and `Yx` as `yx`:
      their outputs are identical. */
  lemma CaseVariantsExtractAlike(img: Image, opts: Options, token: string)
    requires WellFormed(img)
    requires token in {"XY", "Xy", "xY", "YX", "yX", "Yx"}
    ensures var canonical := if token in {"XY", "Xy", "xY"} then "xy" else "yx";
            Extract(img, opts.(order := Explicit([token]))) == Extract(img, opts.(order := Explicit([canonical])))
  {
    var canonical := if token in {"XY", "Xy", "xY"} then "xy" else "yx";
    CaseVariantTraversal(token, canonical);
    SameTraversalSameExtract(img, opts.(order := Explicit([token])), opts.(order := Explicit([canonical])));
  }

  /** A single case variant of `xy` or `yx` selects the same walk as the
      lower-case token. */
  lemma CaseVariantTraversal(token: string, canonical: string)
    requires token in {"XY", "Xy", "xY", "YX", "yX", "Yx"}
    requires canonical == if token in {"XY", "Xy", "xY"} then "xy" else "yx"
    ensures TraversalOf(Explicit([token])) == TraversalOf(Explicit([canonical]))
  {
    assert !HasByteLetter(token) && !HasByteLetter(canonical);
    assert [token][1..] == [] && [canonical][1..] == [];
    assert AnyYxCheck([token]) == EqIgnoreAsciiCase(token, "yx");
    assert AnyYxCheck([canonical]) == EqIgnoreAsciiCase(canonical, "yx");
    assert EqIgnoreAsciiCase(token, "yx") <==> EqIgnoreAsciiCase(canonical, "yx");
  }

  /** The order matters to the extractor only through the walk it selects. */
  lemma SameTraversalSameExtract(img: Image, a: Options, b: Options)
    requires WellFormed(img) && a == b.(order := a.order)
    requires TraversalOf(a.order) == TraversalOf(b.order)
    ensures Extract(img, a) == Extract(img, b)
  {
    assert ConfigOf(a) == ConfigOf(b);
    assert RawExtract(img, a) == RawExtract(img, b);
  }

  // ---------------------------------------------------------------------
  // The title

  /** `order_string`: the order named in the extraction title. */
  function OrderString(order: OrderSpec): string {
    match order
    case Auto => "auto"
    case AllOrders => "ALL"
    case Explicit(tokens) =>
      if AnyYxCheck(tokens) then "yx"
      else match FirstByteToken(tokens) case Some(t) => t case None => "xy"
  }

  /** The title names the walk taken, except that a `yx` token outranks a
      byte token in the title while the walk prefers the byte token. */
  lemma OrderStringNamesTraversal(tokens: seq<string>)
    ensures TraversalOf(Explicit(tokens)).RowMajor? ==> OrderString(Explicit(tokens)) == "xy"
    ensures TraversalOf(Explicit(tokens)).ColumnMajor? ==> OrderString(Explicit(tokens)) == "yx"
    ensures TraversalOf(Explicit(tokens)).ByteTraversal? ==>
              OrderString(Explicit(tokens)) == if AnyYx(tokens) then "yx" else TraversalOf(Explicit(tokens)).token
  {
  }

  /** The widths joined with `/`. */
  function JoinNumbers(bits: seq<u16>): string {
    if |bits| == 0 then ""
    else if |bits| == 1 then NatToDecimal(bits[0])
    else NatToDecimal(bits[0]) + "/" + JoinNumbers(bits[1..])
  }

  lemma NoSlashInDecimal(n: nat)
    ensures '/' !in NatToDecimal(n)
  {
  }

  /** The joined widths split back into the decimal form of each width. */
  lemma {:induction false} JoinNumbersSplit(bits: seq<u16>)
    requires |bits| >= 1
    ensures Split(JoinNumbers(bits), '/') == MapSeq(bits, (b: u16) => NatToDecimal(b))
    decreases |bits|
  {
    var f := (b: u16) => NatToDecimal(b);
    NoSlashInDecimal(bits[0]);
    if |bits| == 1 {
      SplitNoSeparator(NatToDecimal(bits[0]), '/');
    } else {
      JoinNumbersSplit(bits[1..]);
      SplitAtFirst(NatToDecimal(bits[0]), '/', JoinNumbers(bits[1..]));
      assert MapSeq(bits, f) == [f(bits[0])] + MapSeq(bits[1..], f);
    }
  }

  /** The title `extract` writes: widths, channels, placement and order. */
  function ExtractTitle(opts: Options): string {
    var cfg := ConfigOf(opts);
    "b" + JoinNumbers(cfg.bits) + "," + cfg.spec.channels + "," + (if cfg.bo == Lsb then "lsb" else "msb") + "," +
    OrderString(opts.order)
  }
  lemma {:induction false} NoCommaInJoinNumbers(bits: seq<u16>)
    ensures ',' !in JoinNumbers(bits)
  {
    if |bits| > 0 {
      assert ',' !in NatToDecimal(bits[0]);
      if |bits| > 1 {
        NoCommaInJoinNumbers(bits[1..]);
      }
    }
  }

  /** The title splits on commas into the widths field, the channels, the
      bit order and the order name, provided channels and order name hold no
      comma themselves. */
  lemma ExtractTitleFields(opts: Options)
    requires ',' !in ConfigOf(opts).spec.channels && ',' !in OrderString(opts.order)
    ensures var cfg := ConfigOf(opts);
            Split(ExtractTitle(opts), ',') ==
            ["b" + JoinNumbers(cfg.bits), cfg.spec.channels, if cfg.bo == Lsb then "lsb" else "msb", OrderString(opts.order)]
  {
    var cfg := ConfigOf(opts);
    var f0, f1, f2, f3 := "b" + JoinNumbers(cfg.bits), cfg.spec.channels, if cfg.bo == Lsb then "lsb" else "msb", OrderString(opts.order);
    NoCommaInJoinNumbers(cfg.bits);
    assert ExtractTitle(opts) == f0 + [','] + f1 + [','] + f2 + [','] + f3;
    SplitFourFields(f0, f1, f2, f3, ',');
  }
}
