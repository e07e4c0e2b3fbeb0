/** Scan options and their two textual syntaxes (`src/opts.rs`): the bit-width
    list (`parse_bits`, `parse_bits_single`) and the comma-separated parameter
    string (`decode_param_string`). */
module Opts {
  import opened Basics
  import opened Text
  import opened Seqs

  /** `BitOrder`: how extracted bits are placed into output bytes. */
  datatype BitOrder = Lsb | Msb

  datatype StringsMode = StringsFirst | StringsAll | StringsLongest | StringsNone

  /** `PrimeSpec`: sample every position, only prime positions, or both. */
  datatype PrimeSpec = PrimeNone | PrimeOnly | PrimeAll

  datatype AlignSpec = AlignNone | AlignOnly | AlignAll

  /** `OrderSpec`: the traversal orders to try. */
  datatype OrderSpec = Auto | AllOrders | Explicit(tokens: seq<string>)

  datatype Options = Options(
    verbose: int,
    limit: nat,
    order: OrderSpec,
    step: nat,
    ystep: nat,
    channels: Option<seq<string>>,
    bits: Option<seq<u16>>,
    bitOrder: Option<BitOrder>,
    prime: PrimeSpec,
    pixelAlign: AlignSpec,
    shift: Option<nat>,
    invert: bool,
    fileCmd: bool,
    strings: Option<StringsMode>,
    minStrLen: nat,
    extraChecks: bool,
    zlibFlag: bool)

  /** `Options::default()`. */
  const Default: Options := Options(
    verbose := 0, limit := 256, order := Auto, step := 1, ystep := 1,
    channels := None, bits := None, bitOrder := None, prime := PrimeNone,
    pixelAlign := AlignNone, shift := None, invert := false, fileCmd := true,
    strings := None, minStrLen := 8, extraChecks := true, zlibFlag := false)

  // ---------------------------------------------------------------------
  // Bit widths

  predicate AllBinary(s: string) {
    forall i :: 0 <= i < |s| ==> s[i] == '0' || s[i] == '1'
  }

  predicate HasPrefix(s: string, p: string) {
    |p| <= |s| && s[..|p|] == p
  }

  /** A mask keeps only the low byte of the parsed value, above 0x100. */
  function Mask(v: u16): u16 {
    0x100 + v % 0x100
  }

  /** The strings `parse_bits_single` reads as a mask rather than a count. */
  predicate MaskSyntax(x: string) {
    x != "1" && (HasPrefix(x, "0x") || HasPrefix(x, "0b") || AllBinary(x))
  }

  /** `parse_bits_single`: `1` is the count 1; `0x…`, `0b…` and any string of
      binary digits are masks; anything else is a decimal `u16`. */
  function ParseBitsSingle(x: string): (r: Result<u16>)
    ensures r.Ok? && MaskSyntax(x) ==> 0x100 <= r.value < 0x200
    ensures x == "1" ==> r == Ok(1)
    ensures x != "1" && HasPrefix(x, "0x") ==>
              (r.Ok? <==> FromStrRadixU16(x[2..], 16).Ok?) &&
              (r.Ok? ==> r.value == Mask(FromStrRadixU16(x[2..], 16).value))
    ensures HasPrefix(x, "0b") ==>
              (r.Ok? <==> FromStrRadixU16(x[2..], 2).Ok?) &&
              (r.Ok? ==> r.value == Mask(FromStrRadixU16(x[2..], 2).value))
    ensures x != "1" && AllBinary(x) ==>
              (r.Ok? <==> FromStrRadixU16(x, 2).Ok?) &&
              (r.Ok? ==> r.value == Mask(FromStrRadixU16(x, 2).value))
    ensures !MaskSyntax(x) && x != "1" ==>
              (r.Ok? <==> FromStrRadixU16(x, 10).Ok?) &&
              (r.Ok? ==> r.value == FromStrRadixU16(x, 10).value)
  {
    if x == "1" then Ok(1)
    else if HasPrefix(x, "0x") then
      var v :- FromStrRadixU16(x[2..], 16);
      Ok(Mask(v))
    else if HasPrefix(x, "0b") then
      var v :- FromStrRadixU16(x[2..], 2);
      Ok(Mask(v))
    else if AllBinary(x) then
      var v :- FromStrRadixU16(x, 2);
      Ok(Mask(v))
    else match FromStrRadixU16(x, 10)
      case Ok(v) => Ok(v)
      case Err(_) => Err("invalid bits value: " + x)
  }

  /** Every decimal from 2 up that is not written with binary digits alone is
      read back as itself. */
  lemma ParseBitsSingleDecimal(n: nat)
    requires 2 <= n < 0x1_0000 && !AllBinary(NatToDecimal(n))
    ensures ParseBitsSingle(NatToDecimal(n)) == Ok(n)
  {
    var s := NatToDecimal(n);
    DecimalParseRoundTrip(n);
    assert IsDigit(s[0]);
    if |s| >= 2 {
      assert IsDigit(s[1]);
    }
    assert !HasPrefix(s, "0x") && !HasPrefix(s, "0b");
  }

  /** `10` is the mask 0x102 (binary 10), not the count ten. */
  lemma TenIsAMask()
    ensures ParseBitsSingle("10") == Ok(0x102)
  {
    assert AllBinary("10");
    assert !HasPrefix("10", "0x") && !HasPrefix("10", "0b");
    assert Horner("10", 2, 0) == 2 by {
      assert "10"[1..] == "0";
    }
  }

  /** A hexadecimal mask keeps the low byte of the number written. */
  lemma HexMaskRoundTrip(n: nat)
    requires n < 0x1_0000
    ensures ParseBitsSingle("0x" + HexLower(n)) == Ok(0x100 + n % 0x100)
  {
    var x := "0x" + HexLower(n);
    assert x[..2] == "0x" && x[2..] == HexLower(n);
    HexParseRoundTrip(n);
  }

  /** `a..=b`. */
  function Range(a: u16, b: u16): (r: seq<u16>)
    requires a <= b
    ensures |r| == b - a + 1
    ensures forall i :: 0 <= i < |r| ==> r[i] == a + i
  {
    seq(b - a + 1, i requires 0 <= i < b - a + 1 => (a + i) as u16)
  }

  /** `Vec::dedup`: every run of equal neighbours collapses to one element. */
  function Dedup(s: seq<u16>): (r: seq<u16>)
    ensures |r| <= |s|
    ensures |s| > 0 ==> |r| > 0 && r[0] == s[0] && r[|r| - 1] == s[|s| - 1]
    ensures forall i :: 0 <= i < |r| - 1 ==> r[i] != r[i + 1]
    ensures forall v :: v in r <==> v in s
  {
    if |s| <= 1 then s
    else if s[0] == s[1] then
      var t := Dedup(s[1..]);
      assert forall v :: v in s <==> v == s[0] || v in s[1..];
      t
    else
      var t := Dedup(s[1..]);
      assert forall v :: v in s <==> v == s[0] || v in s[1..];
      [s[0]] + t
  }

  /** A sequence without equal neighbours is left as it is, so `Dedup` is
      idempotent. */
  lemma {:induction false} DedupKeepsDistinctNeighbours(s: seq<u16>)
    requires forall i :: 0 <= i < |s| - 1 ==> s[i] != s[i + 1]
    ensures Dedup(s) == s
  {
    if |s| > 1 {
      DedupKeepsDistinctNeighbours(s[1..]);
      assert s == [s[0]] + s[1..];
    }
  }

  lemma DedupIdempotent(s: seq<u16>)
    ensures Dedup(Dedup(s)) == Dedup(s)
  {
    DedupKeepsDistinctNeighbours(Dedup(s));
  }

  /** Appending a value repeats nothing when it equals the last element, and
      otherwise adds it at the end. */
  lemma {:induction false} DedupSnoc(s: seq<u16>, v: u16)
    ensures Dedup(s + [v]) == if |s| > 0 && s[|s| - 1] == v then Dedup(s) else Dedup(s) + [v]
  {
    if |s| == 0 {
      assert s + [v] == [v];
    } else if |s| == 1 {
      assert s + [v] == [s[0], v];
      assert [s[0], v][1..] == [v];
    } else {
      DedupSnoc(s[1..], v);
      assert s[1..][|s[1..]| - 1] == s[|s| - 1];
      var rest := Dedup(s[1..] + [v]);
      if s[0] == s[1] {
        DedupSnocMergedHead(s, v, rest);
      } else {
        DedupSnocKeptHead(s, v, rest);
        if s[|s| - 1] != v {
          assert [s[0]] + (Dedup(s[1..]) + [v]) == [s[0]] + Dedup(s[1..]) + [v];
        }
      }
    }
  }

  /** The step of `DedupSnoc` when the head is merged into its neighbour. */
  lemma DedupSnocMergedHead(s: seq<u16>, v: u16, rest: seq<u16>)
    requires |s| > 1 && s[0] == s[1]
    requires Dedup(s[1..] + [v]) == rest
    ensures Dedup(s + [v]) == rest && Dedup(s) == Dedup(s[1..])
  {
    var t := s + [v];
    assert t[1..] == s[1..] + [v] && t[0] == s[0] && t[1] == s[1];
    DedupMergesEqualHead(t);
    DedupMergesEqualHead(s);
  }

  /** The step of `DedupSnoc` when the head is kept. */
  lemma DedupSnocKeptHead(s: seq<u16>, v: u16, rest: seq<u16>)
    requires |s| > 1 && s[0] != s[1]
    requires Dedup(s[1..] + [v]) == rest
    ensures Dedup(s + [v]) == [s[0]] + rest && Dedup(s) == [s[0]] + Dedup(s[1..])
  {
    var t := s + [v];
    assert t[1..] == s[1..] + [v] && t[0] == s[0] && t[1] == s[1];
    DedupKeepsDistinctHead(t);
    DedupKeepsDistinctHead(s);
  }

  /** Equal leading neighbours merge into one. */
  lemma DedupMergesEqualHead(s: seq<u16>)
    requires |s| > 1 && s[0] == s[1]
    ensures Dedup(s) == Dedup(s[1..])
  {
  }

  /** A head that differs from its neighbour is kept in front. */
  lemma DedupKeepsDistinctHead(s: seq<u16>)
    requires |s| > 1 && s[0] != s[1]
    ensures Dedup(s) == [s[0]] + Dedup(s[1..])
  {
  }

  /** `Vec::dedup` as the library runs it: one pass from the left, keeping an
      element when it differs from the last one kept. */
  function DedupScan(kept: seq<u16>, rest: seq<u16>): seq<u16>
    decreases |rest|
  {
    if |rest| == 0 then kept
    else if |kept| > 0 && kept[|kept| - 1] == rest[0] then DedupScan(kept, rest[1..])
    else DedupScan(kept + [rest[0]], rest[1..])
  }

  lemma {:induction false} DedupScanContinues(done: seq<u16>, rest: seq<u16>)
    ensures DedupScan(Dedup(done), rest) == Dedup(done + rest)
    decreases |rest|
  {
    if |rest| == 0 {
      assert done + rest == done;
    } else {
      DedupScanStep(done, rest);
      DedupScanContinues(done + [rest[0]], rest[1..]);
      MoveFirst(done, rest);
    }
  }

  lemma MoveFirst(done: seq<u16>, rest: seq<u16>)
    requires |rest| > 0
    ensures done + [rest[0]] + rest[1..] == done + rest
  {
  }

  lemma DedupScanStep(done: seq<u16>, rest: seq<u16>)
    requires |rest| > 0
    ensures DedupScan(Dedup(done), rest) == DedupScan(Dedup(done + [rest[0]]), rest[1..])
  {
    DedupSnoc(done, rest[0]);
  }

  /** The recursive definition agrees with the left-to-right pass. */
  lemma DedupIsScan(s: seq<u16>)
    ensures Dedup(s) == DedupScan([], s)
  {
    DedupScanContinues([], s);
    assert [] + s == s;
  }

  /** Only neighbours are merged: a value may reappear later. */
  lemma DedupOnlyNeighbours()
    ensures Dedup([1, 1, 2, 1]) == [1, 2, 1]
  {
    assert [1, 1, 2, 1][1..] == [1, 2, 1];
    assert [1, 2, 1][1..] == [2, 1];
    assert [2, 1][1..] == [1];
  }

  /** The text before the first `-` of a range item. */
  function RangeLow(x: string): string
    requires '-' in x
  {
    x[..IndexOf(x, '-').value]
  }

  /** The text after the first `-` of a range item. */
  function RangeHigh(x: string): string
    requires '-' in x
  {
    x[IndexOf(x, '-').value + 1..]
  }

  /** The item `all`, in any letter case, stands for every width 1..8. */
  predicate IsAllItem(x: string) {
    EqIgnoreAsciiCase(x, "all")
  }

  /** One comma-separated item of `parse_bits`, already trimmed. */
  function ParseBitsItem(x: string): (r: Result<seq<u16>>)
    ensures IsAllItem(x) ==> r == Ok(Range(1, 8))
    ensures !IsAllItem(x) && '-' in x ==>
              var a, b := ParseBitsSingle(RangeLow(x)), ParseBitsSingle(RangeHigh(x));
              && (r.Ok? <==> a.Ok? && b.Ok? && 1 <= a.value <= 8 && 1 <= b.value <= 8)
              && (r.Ok? ==> r.value == Range(Min(a.value, b.value), Max(a.value, b.value)))
    ensures r.Ok? && !IsAllItem(x) && '-' in x ==>
              forall i :: 0 <= i < |r.value| ==> 1 <= r.value[i] <= 8
    ensures !IsAllItem(x) && '-' !in x ==>
              (r.Ok? <==> ParseBitsSingle(x).Ok?) && (r.Ok? ==> r.value == [ParseBitsSingle(x).value])
  {
    if IsAllItem(x) then Ok(Range(1, 8))
    else match IndexOf(x, '-')
      case Some(pos) =>
        var a :- ParseBitsSingle(x[..pos]);
        var b :- ParseBitsSingle(x[pos + 1..]);
        if a == 0 || b == 0 || a > 8 || b > 8 then Err("invalid bits range: " + x)
        else if a <= b then Ok(Range(a, b))
        else Ok(Range(b, a))
      case None =>
        var v :- ParseBitsSingle(x);
        Ok([v])
  }

  /** The widths one untrimmed item contributes when it parses. */
  function ItemWidths(x: string): seq<u16> {
    match ParseBitsItem(Trim(x))
    case Ok(v) => v
    case Err(_) => []
  }

  /** Every item of the list, trimmed, parses. */
  ghost predicate AllItemsParse(xs: seq<string>) {
    forall i :: 0 <= i < |xs| ==> ParseBitsItem(Trim(xs[i])).Ok?
  }

  /** The item loop of `parse_bits`: the first bad item fails the whole
      list, otherwise the items' widths are concatenated in order. */
  function ParseBitsItems(xs: seq<string>): (r: Result<seq<u16>>)
    ensures r.Ok? <==> AllItemsParse(xs)
    ensures r.Ok? ==> r.value == FlatMap(xs, ItemWidths)
  {
    if |xs| == 0 then Ok([])
    else
      ItemsCons(xs);
      var head :- ParseBitsItem(Trim(xs[0]));
      var tail :- ParseBitsItems(xs[1..]);
      Ok(head + tail)
  }

  lemma ItemsCons(xs: seq<string>)
    requires |xs| > 0
    ensures AllItemsParse(xs) <==> ParseBitsItem(Trim(xs[0])).Ok? && AllItemsParse(xs[1..])
    ensures FlatMap(xs, ItemWidths) == ItemWidths(xs[0]) + FlatMap(xs[1..], ItemWidths)
  {
    var tail := xs[1..];
    if AllItemsParse(xs) {
      forall i | 0 <= i < |tail| ensures ParseBitsItem(Trim(tail[i])).Ok? {
        assert tail[i] == xs[i + 1];
      }
    }
    if ParseBitsItem(Trim(xs[0])).Ok? && AllItemsParse(tail) {
      forall i | 0 < i < |xs| ensures ParseBitsItem(Trim(xs[i])).Ok? {
        assert xs[i] == tail[i - 1];
      }
    }
  }

  /** Parsing a list in two parts parses each part: the result is the two
      width lists joined, and a bad item in either part fails the whole. */
  lemma {:induction false} ParseBitsItemsAppend(xs: seq<string>, ys: seq<string>)
    ensures ParseBitsItems(xs + ys).Ok? <==> ParseBitsItems(xs).Ok? && ParseBitsItems(ys).Ok?
    ensures ParseBitsItems(xs + ys).Ok? ==>
              ParseBitsItems(xs + ys).value == ParseBitsItems(xs).value + ParseBitsItems(ys).value
  {
    FlatMapAppend(xs, ys, ItemWidths);
    AllItemsParseAppend(xs, ys);
  }

  lemma AllItemsParseAppend(xs: seq<string>, ys: seq<string>)
    ensures AllItemsParse(xs + ys) <==> AllItemsParse(xs) && AllItemsParse(ys)
  {
    var zs := xs + ys;
    if AllItemsParse(xs) && AllItemsParse(ys) {
      forall i | 0 <= i < |zs| ensures ParseBitsItem(Trim(zs[i])).Ok? {
        if i >= |xs| {
          assert zs[i] == ys[i - |xs|];
        }
      }
    }
    if AllItemsParse(zs) {
      forall i | 0 <= i < |ys| ensures ParseBitsItem(Trim(ys[i])).Ok? {
        assert zs[|xs| + i] == ys[i];
      }
      forall i | 0 <= i < |xs| ensures ParseBitsItem(Trim(xs[i])).Ok? {
        assert zs[i] == xs[i];
      }
    }
  }

  /** The list `parse_bits` splits: trimmed, without a trailing `p`. */
  function BitsBody(s: string): string {
    var t := Trim(s);
    if |t| > 0 && t[|t| - 1] == 'p' then t[..|t| - 1] else t
  }

  /** `parse_bits`: the widths of all items in order, neighbouring repeats
      merged, and whether a trailing `p` asked for pixel alignment. */
  function ParseBits(s: string): (r: Result<(seq<u16>, bool)>)
    ensures r.Ok? <==> AllItemsParse(Split(BitsBody(s), ','))
    ensures r.Ok? ==> r.value.0 == Dedup(FlatMap(Split(BitsBody(s), ','), ItemWidths))
    ensures r.Ok? ==> forall i :: 0 <= i < |r.value.0| - 1 ==> r.value.0[i] != r.value.0[i + 1]
    ensures r.Ok? ==> (r.value.1 <==> |Trim(s)| > 0 && Trim(s)[|Trim(s)| - 1] == 'p')
  {
    var t := Trim(s);
    var out :- ParseBitsItems(Split(BitsBody(s), ','));
    Ok((Dedup(out), |t| > 0 && t[|t| - 1] == 'p'))
  }

  /** A list of one item, without padding or alignment suffix, parses as
      that item alone. */
  lemma ParseBitsOneItem(x: string)
    requires |x| > 0 && !IsWhitespace(x[0]) && !IsWhitespace(x[|x| - 1])
    requires x[|x| - 1] != 'p' && ',' !in x
    ensures ParseBits(x).Ok? <==> ParseBitsItem(x).Ok?
    ensures ParseBits(x).Ok? ==> ParseBits(x).value == (Dedup(ParseBitsItem(x).value), false)
  {
    TrimUnpadded(x);
    SplitNoSeparator(x, ',');
    OneItemList(x);
    assert BitsBody(x) == x;
  }

  lemma OneItemList(x: string)
    ensures AllItemsParse([x]) <==> ParseBitsItem(Trim(x)).Ok?
    ensures FlatMap([x], ItemWidths) == ItemWidths(x)
  {
    assert [x][0] == x;
    FlatMapSingle<string, u16>(x);
  }

  /** `all` is the widths 1 to 8, once each, without alignment. */
  lemma ParseBitsAll()
    ensures ParseBits("all") == Ok((Range(1, 8), false))
  {
    var x := "all";
    ParseBitsOneItem(x);
    assert EqIgnoreAsciiCase(x, "all");
    DedupKeepsDistinctNeighbours(Range(1, 8));
  }

  /** An ascending or descending range within 1..8 becomes the ascending list
      of its members. */
  lemma RangeItem(a: nat, b: nat)
    requires 1 <= a <= 8 && 1 <= b <= 8
    ensures ParseBitsItem([DigitChar(a), '-', DigitChar(b)]) == Ok(Range(Min(a, b), Max(a, b)))
  {
    var x := [DigitChar(a), '-', DigitChar(b)];
    assert IndexOf(x, '-') == Some(1);
    assert x[..1] == [DigitChar(a)];
    assert x[2..] == [DigitChar(b)];
    SingleDigit(a);
    SingleDigit(b);
    assert !EqIgnoreAsciiCase(x, "all");
  }

  /** A single decimal digit from 1 to 8 is the count it names. */
  lemma SingleDigit(a: nat)
    requires 1 <= a <= 8
    ensures ParseBitsSingle([DigitChar(a)]) == Ok(a)
  {
    var x := [DigitChar(a)];
    assert !HasPrefix(x, "0x") && !HasPrefix(x, "0b");
    if a == 1 {
      assert x == "1";
    } else {
      assert x[0] as int == '0' as int + a;
      assert !AllBinary(x);
      assert Horner(x, 10, 0) == a;
    }
  }

  /** A range bound outside 1..8, a mask included, is rejected. */
  lemma RangeRejectsMask()
    ensures ParseBitsItem("1-0x3").Err?
  {
    assert IndexOf("1-0x3", '-') == Some(1);
    assert "1-0x3"[..1] == "1";
    assert "1-0x3"[2..] == "0x3";
    assert HasPrefix("0x3", "0x");
    assert "0x3"[2..] == "3";
    assert Horner("3", 16, 0) == 3;
    assert !EqIgnoreAsciiCase("1-0x3", "all");
  }

  // ---------------------------------------------------------------------
  // Parameter strings

  predicate AllDigitsOrP(s: string) {
    forall i :: 0 <= i < |s| ==> IsDigit(s[i]) || s[i] == 'p'
  }

  predicate AllAsciiDigits(s: string) {
    forall i :: 0 <= i < |s| ==> IsDigit(s[i])
  }

  predicate IsChannelLetter(c: char) {
    c == 'r' || c == 'g' || c == 'b' || c == 'a'
  }

  predicate AllChannelLetters(s: string) {
    forall i :: 0 <= i < |s| ==> IsChannelLetter(s[i])
  }

  predicate IsOrderToken(x: string) {
    EqIgnoreAsciiCase(x, "xy") || EqIgnoreAsciiCase(x, "yx") ||
    EqIgnoreAsciiCase(x, "yb") || EqIgnoreAsciiCase(x, "by")
  }

  predicate FixedToken(x: string) {
    x == "lsb" || x == "msb" || x == "prime" || x == "zlib"
  }

  /** The fields no parameter token can change. */
  predicate SameUntouched(a: Options, b: Options) {
    a.verbose == b.verbose && a.limit == b.limit && a.step == b.step &&
    a.ystep == b.ystep && a.shift == b.shift && a.invert == b.invert &&
    a.fileCmd == b.fileCmd && a.strings == b.strings && a.minStrLen == b.minStrLen
  }

  /** Decoding a token never touches the alignment mode, which is set once
      at the end. */
  predicate TokenUntouched(a: Options, b: Options) {
    SameUntouched(a, b) && a.pixelAlign == b.pixelAlign
  }

  /** `b<digits>` with an optional `p` anywhere in the digits. */
  predicate BitsPrefixToken(x: string) {
    |x| >= 2 && x[0] == 'b' && AllDigitsOrP(x[1..])
  }

  /** `<digits>b`. */
  predicate BitsSuffixToken(x: string) {
    |x| >= 2 && x[|x| - 1] == 'b' && AllAsciiDigits(x[..|x| - 1])
  }

  /** A `b<digits>` token ending in `p` asks for pixel alignment. */
  predicate AsksAlignment(x: string) {
    BitsPrefixToken(x) && x[|x| - 1] == 'p'
  }

  /** The width list a bits token carries: what follows the `b` (without an
      alignment `p`), or what precedes it. */
  function BitsCap(x: string): string
    requires BitsPrefixToken(x) || BitsSuffixToken(x)
  {
    if BitsPrefixToken(x) then (if x[|x| - 1] == 'p' then x[1..|x| - 1] else x[1..])
    else x[..|x| - 1]
  }

  /** One trimmed token of `decode_param_string`, applied to the options
      decoded so far and the pixel-alignment flag. */
  function DecodeToken(x: string, o: Options, aligned: bool): (r: Result<(Options, bool)>)
    ensures r.Ok? ==> TokenUntouched(o, r.value.0)
    ensures r.Ok? ==> aligned ==> r.value.1
  {
    if x == "lsb" then Ok((o.(bitOrder := Some(Lsb)), aligned))
    else if x == "msb" then Ok((o.(bitOrder := Some(Msb)), aligned))
    else if x == "prime" then Ok((o.(prime := PrimeOnly, extraChecks := false), aligned))
    else if x == "zlib" then Ok((o.(zlibFlag := true), aligned))
    else if BitsPrefixToken(x) then
      var cap := x[1..];
      if cap[|cap| - 1] == 'p' then
        var parsed :- ParseBits(cap[..|cap| - 1]);
        Ok((o.(bits := Some(parsed.0), extraChecks := false), true))
      else
        var parsed :- ParseBits(cap);
        Ok((o.(bits := Some(parsed.0), extraChecks := false), aligned || parsed.1))
    else if BitsSuffixToken(x) then
      var parsed :- ParseBits(x[..|x| - 1]);
      Ok((o.(bits := Some(parsed.0), extraChecks := false), aligned || parsed.1))
    else if IsOrderToken(x) then Ok((o.(order := Explicit([x])), aligned))
    else if |x| > 0 && AllChannelLetters(x) then
      Ok((o.(channels := Some([x]), extraChecks := false), aligned))
    else Err("unknown param " + x)
  }

  /** A token is rejected exactly when no rule claims it, or when the bits
      rule claims it and its width list does not parse. */
  lemma DecodeTokenRejects(x: string, o: Options, aligned: bool)
    ensures DecodeToken(x, o, aligned).Err? <==>
              !FixedToken(x) &&
              (|| (!BitsPrefixToken(x) && !BitsSuffixToken(x) && !IsOrderToken(x) &&
                   !(|x| > 0 && AllChannelLetters(x)))
               || (BitsPrefixToken(x) &&
                   ParseBits(if x[|x| - 1] == 'p' then x[1..|x| - 1] else x[1..]).Err?)
               || (!BitsPrefixToken(x) && BitsSuffixToken(x) && ParseBits(x[..|x| - 1]).Err?))
  {
    if FixedToken(x) {
    } else if BitsPrefixToken(x) {
      assert x[1..][..|x[1..]| - 1] == x[1..|x| - 1];
    } else if BitsSuffixToken(x) {
    } else {
    }
  }

  lemma PrimeToken(o: Options, aligned: bool)
    ensures DecodeToken("prime", o, aligned) == Ok((o.(prime := PrimeOnly, extraChecks := false), aligned))
  {
  }

  lemma ZlibToken(o: Options, aligned: bool)
    ensures DecodeToken("zlib", o, aligned) == Ok((o.(zlibFlag := true), aligned))
  {
  }

  /** A width list of digits and `p`s that does not end in `p` never asks
      for alignment itself. */
  lemma DigitCapUnaligned(cap: string)
    requires |cap| > 0 && AllDigitsOrP(cap) && cap[|cap| - 1] != 'p'
    ensures ParseBits(cap).Ok? ==> !ParseBits(cap).value.1
  {
    assert IsDigit(cap[0]) || cap[0] == 'p';
    assert IsDigit(cap[|cap| - 1]);
    TrimUnpadded(cap);
  }

  /** A bits token sets the widths its list parses to, switches the extra
      checks off, and raises the alignment flag exactly when it ends in `p`;
      a list that does not parse rejects the token. */
  lemma BitsToken(x: string, o: Options, aligned: bool)
    requires BitsPrefixToken(x) || BitsSuffixToken(x)
    ensures DecodeToken(x, o, aligned).Ok? <==> ParseBits(BitsCap(x)).Ok?
    ensures DecodeToken(x, o, aligned).Ok? ==>
              DecodeToken(x, o, aligned).value ==
              (o.(bits := Some(ParseBits(BitsCap(x)).value.0), extraChecks := false),
               aligned || AsksAlignment(x))
  {
    if BitsPrefixToken(x) {
      assert !FixedToken(x) by {
        assert IsDigit(x[1..][0]) || x[1..][0] == 'p';
      }
      var cap := x[1..];
      if cap[|cap| - 1] == 'p' {
        assert cap[..|cap| - 1] == x[1..|x| - 1];
      } else {
        DigitCapUnaligned(cap);
      }
    } else {
      assert !FixedToken(x) by {
        assert IsDigit(x[..|x| - 1][0]);
      }
      DigitCapUnaligned(x[..|x| - 1]);
    }
  }

  /** Only a `b<digits>p` token raises the alignment flag; every other token
      passes it through. */
  lemma TokenAlignment(x: string, o: Options, aligned: bool)
    ensures DecodeToken(x, o, aligned).Ok? ==> (DecodeToken(x, o, aligned).value.1 <==> aligned || AsksAlignment(x))
  {
    if BitsPrefixToken(x) || BitsSuffixToken(x) {
      BitsToken(x, o, aligned);
    }
  }

  function DecodeTokens(xs: seq<string>, o: Options, aligned: bool): (r: Result<(Options, bool)>)
    ensures r.Ok? ==> TokenUntouched(o, r.value.0)
    ensures r.Ok? ==> aligned ==> r.value.1
  {
    if |xs| == 0 then Ok((o, aligned))
    else
      var step :- DecodeToken(xs[0], o, aligned);
      DecodeTokens(xs[1..], step.0, step.1)
  }

  /** After a list of tokens the flag is raised exactly when it was raised
      before or some token asked for alignment. */
  lemma {:induction false} DecodeTokensAlignment(xs: seq<string>, o: Options, aligned: bool)
    ensures DecodeTokens(xs, o, aligned).Ok? ==>
              (DecodeTokens(xs, o, aligned).value.1 <==>
               aligned || exists i :: 0 <= i < |xs| && AsksAlignment(xs[i]))
  {
    if |xs| > 0 {
      var step := DecodeToken(xs[0], o, aligned);
      if step.Ok? {
        TokenAlignment(xs[0], o, aligned);
        DecodeTokensAlignment(xs[1..], step.value.0, step.value.1);
        assert (exists i :: 0 <= i < |xs| && AsksAlignment(xs[i])) <==>
               AsksAlignment(xs[0]) || exists i :: 0 <= i < |xs[1..]| && AsksAlignment(xs[1..][i]) by {
          if exists i :: 0 <= i < |xs| && AsksAlignment(xs[i]) {
            var i :| 0 <= i < |xs| && AsksAlignment(xs[i]);
            if i > 0 {
              assert xs[1..][i - 1] == xs[i];
            }
          }
          if exists i :: 0 <= i < |xs[1..]| && AsksAlignment(xs[1..][i]) {
            var i :| 0 <= i < |xs[1..]| && AsksAlignment(xs[1..][i]);
            assert xs[i + 1] == xs[1..][i];
          }
        }
      }
    }
  }

  /** The comma-separated tokens of a parameter string, each trimmed. */
  function ParamTokens(s: string): (ts: seq<string>)
    ensures |ts| == |Split(s, ',')|
    ensures forall i :: 0 <= i < |ts| ==> ts[i] == Trim(Split(s, ',')[i])
  {
    MapSeq(Split(s, ','), (t: string) => Trim(t))
  }

  /** `decode_param_string`: start from the defaults, apply every token in
      order, and record pixel alignment if any bits token asked for it. */
  function DecodeParamString(s: string): (r: Result<Options>)
    ensures r.Ok? ==> SameUntouched(Default, r.value)
    ensures r.Ok? ==> r.value.pixelAlign in {AlignNone, AlignOnly}
  {
    var decoded :- DecodeTokens(ParamTokens(s), Default, false);
    Ok(if decoded.1 then decoded.0.(pixelAlign := AlignOnly) else decoded.0)
  }

  /** The alignment mode is `Only` exactly when some token asked for it,
      and otherwise stays at its default. */
  lemma ParamStringAlignment(s: string)
    ensures DecodeParamString(s).Ok? ==>
              (DecodeParamString(s).value.pixelAlign == AlignOnly <==>
               exists i :: 0 <= i < |ParamTokens(s)| && AsksAlignment(ParamTokens(s)[i]))
  {
    DecodeTokensAlignment(ParamTokens(s), Default, false);
  }

  /** A parameter string of one token is that token applied to the
      defaults. */
  lemma OneTokenParamString(x: string)
    requires ',' !in x && Trim(x) == x
    ensures DecodeParamString(x) ==
              match DecodeToken(x, Default, false)
              case Err(m) => Err(m)
              case Ok(d) => Ok(if d.1 then d.0.(pixelAlign := AlignOnly) else d.0)
  {
    ParamTokensOne(x);
    DecodeTokensOne(x, Default, false);
  }

  lemma ParamTokensOne(x: string)
    requires ',' !in x && Trim(x) == x
    ensures ParamTokens(x) == [x]
  {
    SplitNoSeparator(x, ',');
  }

  lemma DecodeTokensOne(x: string, o: Options, aligned: bool)
    ensures DecodeTokens([x], o, aligned) == DecodeToken(x, o, aligned)
  {
    DecodeTokensSnoc([], x, o, aligned);
    assert [] + [x] == [x];
  }

  /** Every option a parameter string does not mention keeps its default:
      `lsb` or `msb` alone yields the defaults with the bit order set. */
  lemma BitOrderParamString(x: string, bo: BitOrder)
    requires (x == "lsb" && bo == Lsb) || (x == "msb" && bo == Msb)
    ensures DecodeParamString(x) ==
              Ok(Options(verbose := 0, limit := 256, order := Auto, step := 1, ystep := 1,
                         channels := None, bits := None, bitOrder := Some(bo), prime := PrimeNone,
                         pixelAlign := AlignNone, shift := None, invert := false, fileCmd := true,
                         strings := None, minStrLen := 8, extraChecks := true, zlibFlag := false))
  {
    BitOrderTokenPlain(x, bo);
    BitOrderTokenOnDefault(x, bo);
    OneTokenParamString(x);
    assert DecodeParamString(x) == Ok(Default.(bitOrder := Some(bo)));
  }

  lemma BitOrderTokenPlain(x: string, bo: BitOrder)
    requires (x == "lsb" && bo == Lsb) || (x == "msb" && bo == Msb)
    ensures ',' !in x && Trim(x) == x
  {
    TrimUnpadded(x);
  }

  lemma BitOrderTokenOnDefault(x: string, bo: BitOrder)
    requires (x == "lsb" && bo == Lsb) || (x == "msb" && bo == Msb)
    ensures DecodeToken(x, Default, false) == Ok((Default.(bitOrder := Some(bo)), false))
  {
    if bo == Lsb {
      LsbToken(Default, false);
    } else {
      MsbToken(Default, false);
    }
  }

  /** A token of channel letters only, a bare `b` included, selects channels:
      no such token is a bits or order token. */
  lemma ChannelToken(x: string, o: Options, aligned: bool)
    requires |x| > 0 && AllChannelLetters(x)
    ensures DecodeToken(x, o, aligned) == Ok((o.(channels := Some([x]), extraChecks := false), aligned))
  {
    assert x != "lsb" && x != "msb" && x != "prime" && x != "zlib" by {
      assert IsChannelLetter(x[0]);
    }
    if |x| >= 2 {
      assert !IsDigit(x[1]) && x[1] != 'p' by {
        assert IsChannelLetter(x[1]);
      }
      assert x[1..][0] == x[1];
      assert !BitsPrefixToken(x);
      assert !IsDigit(x[0]) by {
        assert IsChannelLetter(x[0]);
      }
      assert x[..|x| - 1][0] == x[0];
      assert !BitsSuffixToken(x);
      assert !IsOrderToken(x) by {
        assert IsChannelLetter(x[0]) && IsChannelLetter(x[1]);
        assert ToAsciiLower(x[0]) == x[0] && ToAsciiLower(x[1]) == x[1];
      }
    }
  }

  /** The four order tokens, in any letter case, select the order. */
  lemma OrderToken(x: string, o: Options, aligned: bool)
    requires IsOrderToken(x)
    ensures DecodeToken(x, o, aligned) == Ok((o.(order := Explicit([x])), aligned))
  {
    assert |x| == 2;
    assert x != "lsb" && x != "msb" && x != "prime" && x != "zlib";
    assert ToAsciiLower(x[0]) in {'x', 'y', 'b'} && ToAsciiLower(x[1]) in {'x', 'y', 'b'};
    assert !BitsPrefixToken(x) by {
      if x[0] == 'b' {
        assert x[1..][0] == x[1];
      }
    }
    assert !BitsSuffixToken(x) by {
      if x[1] == 'b' {
        assert x[..1][0] == x[0];
      }
    }
  }

  /** The empty string is one empty token, which no rule accepts. */
  lemma EmptyParamStringRejected()
    ensures DecodeParamString("").Err?
  {
    assert Split("", ',') == [""];
    assert Trim("") == "";
  }

  /** Decoding a list with one more token is decoding the list, then the
      token. */
  lemma {:induction false} DecodeTokensSnoc(xs: seq<string>, t: string, o: Options, aligned: bool)
    ensures DecodeTokens(xs + [t], o, aligned) ==
            (match DecodeTokens(xs, o, aligned)
             case Err(m) => Err(m)
             case Ok(st) => DecodeToken(t, st.0, st.1))
  {
    if |xs| == 0 {
      assert xs + [t] == [t];
      assert [t][1..] == [];
    } else {
      assert (xs + [t])[0] == xs[0];
      assert (xs + [t])[1..] == xs[1..] + [t];
      match DecodeToken(xs[0], o, aligned)
      case Err(_) =>
      case Ok(st) => DecodeTokensSnoc(xs[1..], t, st.0, st.1);
    }
  }

  lemma MsbToken(o: Options, aligned: bool)
    ensures DecodeToken("msb", o, aligned) == Ok((o.(bitOrder := Some(Msb)), aligned))
  {
  }

  lemma LsbToken(o: Options, aligned: bool)
    ensures DecodeToken("lsb", o, aligned) == Ok((o.(bitOrder := Some(Lsb)), aligned))
  {
  }

  /** Whatever came before, a final `msb` or `lsb` token decides the bit
      order. */
  lemma LastBitOrderWins(xs: seq<string>, o: Options, aligned: bool)
    ensures DecodeTokens(xs + ["msb"], o, aligned).Ok? ==>
            DecodeTokens(xs + ["msb"], o, aligned).value.0.bitOrder == Some(Msb)
    ensures DecodeTokens(xs + ["lsb"], o, aligned).Ok? ==>
            DecodeTokens(xs + ["lsb"], o, aligned).value.0.bitOrder == Some(Lsb)
  {
    DecodeTokensSnoc(xs, "msb", o, aligned);
    DecodeTokensSnoc(xs, "lsb", o, aligned);
    match DecodeTokens(xs, o, aligned)
    case Err(_) =>
    case Ok(st) =>
      MsbToken(st.0, st.1);
      LsbToken(st.0, st.1);
  }
}
