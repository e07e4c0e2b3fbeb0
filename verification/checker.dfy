/** The scan driver of `src/checker.rs`: the metadata, image-data,
    extra-data and chunk phases, then the sweep over order, prime, width,
    channel and bit order, with a cache that reports each distinct
    extraction once and a title set that runs each combination once.
    Printing is left out; what the driver keeps is modelled: the cache, the
    titles, the flags and the collected results. The `file` program and the
    zlib inflater are parameters. */
module Checker {
  import opened Basics
  import opened Seqs
  import opened Text
  import opened Opts
  import opened ImageIO
  import opened Extractor
  import opened Detectors
  import opened Render

  /** The two outside services the detectors consult. */
  datatype Oracles = Oracles(describe: seq<byte> -> Option<string>, inflate: seq<byte> -> Option<seq<byte>>)

  /** `CheckState` plus the results vector. */
  datatype ScanState = ScanState(
    cache: map<seq<byte>, string>,
    wastitles: set<string>,
    found: bool,
    needCr: bool,
    results: seq<DetectResult>)

  /** `b` starts with `a`: what was collected before is kept. */
  ghost predicate Extends<T>(a: seq<T>, b: seq<T>) {
    |a| <= |b| && b[..|a|] == a
  }

  const Initial: ScanState := ScanState(map[], {}, false, false, [])

  function Classify(data: seq<byte>, opts: Options, orc: Oracles): Option<DetectResult> {
    Data2Result(data, opts, orc.describe, orc.inflate)
  }

  /** Whether a classification is reported when verbosity is at most 0. */
  predicate Reportable(r: Option<DetectResult>) {
    r.Some? && !r.value.OneChar?
  }

  /** `process_result`: a buffer seen before is not classified again (it
      only counts as shown at verbosity above 1); a new buffer is cached
      under its title and classified; at verbosity 0 or below only a result
      other than a repeated byte is kept, above 0 any result is kept, and
      above 1 the buffer counts as shown even without a result. */
  function ProcessResult(st: ScanState, data: seq<byte>, title: string, opts: Options, orc: Oracles): (r: (bool, ScanState))
    ensures r.1.wastitles == st.wastitles && r.1.found == st.found && r.1.needCr == st.needCr
    ensures data in st.cache ==> r == (opts.verbose > 1, st)
    ensures data !in st.cache ==> r.1.cache == st.cache[data := title]
  {
    if data in st.cache then (opts.verbose > 1, st)
    else
      var st1 := st.(cache := st.cache[data := title]);
      var res := Classify(data, opts, orc);
      if opts.verbose <= 0 then
        if Reportable(res) then (true, st1.(results := st1.results + [res.value])) else (false, st1)
      else if res.Some? then (true, st1.(results := st1.results + [res.value]))
      else (opts.verbose > 1, st1)
  }

  /** What `process_result` adds to the results: the classification of a
      new buffer, when there is one and (at verbosity 0 or below) it is not
      a repeated byte; nothing else. A buffer counts as shown exactly when
      something was added or the verbosity is above 1. */
  lemma ProcessResultOutcome(st: ScanState, data: seq<byte>, title: string, opts: Options, orc: Oracles)
    ensures var (shown, st') := ProcessResult(st, data, title, opts, orc);
            var res := Classify(data, opts, orc);
            var adds := data !in st.cache && res.Some? && (opts.verbose > 0 || !res.value.OneChar?);
            st'.results == st.results + (if adds then [res.value] else []) &&
            (shown <==> adds || opts.verbose > 1)
  {
  }

  /** `process_result` only ever appends to the results. */
  lemma ProcessResultExtends(st: ScanState, data: seq<byte>, title: string, opts: Options, orc: Oracles)
    ensures Extends(st.results, ProcessResult(st, data, title, opts, orc).1.results)
  {
    ProcessResultOutcome(st, data, title, opts, orc);
  }

  /** The cache keeps the first title under which a buffer was seen. */
  lemma ProcessResultKeepsFirstTitle(st: ScanState, data: seq<byte>, title: string, opts: Options, orc: Oracles)
    ensures var st' := ProcessResult(st, data, title, opts, orc).1;
            data in st'.cache &&
            st'.cache[data] == (if data in st.cache then st.cache[data] else title) &&
            forall d :: d in st.cache ==> d in st'.cache && st'.cache[d] == st.cache[d]
  {
  }

  // ---------------------------------------------------------------------
  // Sweep combinations and titles

  /** One combination of the sweep; a byte-walk order has no channel. */
  datatype Combo = Combo(order: string, prime: bool, bits: u16, channel: Option<string>, bo: BitOrder)

  function BitOrderName(bo: BitOrder): string {
    match bo case Lsb => "lsb" case Msb => "msb"
  }

  /** `b{bits},{lsb|msb},{order}{,prime}` for the byte walk and
      `b{bits},{ch},{lsb|msb},{order}{,prime}` for the pixel walk. */
  function Title(c: Combo): string {
    "b" + NatToDecimal(c.bits) + "," +
    (match c.channel case Some(ch) => ch + "," case None => "") +
    BitOrderName(c.bo) + "," + c.order + (if c.prime then ",prime" else "")
  }

  /** The comma-separated fields of a title. */
  function TitleParts(c: Combo): seq<string> {
    ["b" + NatToDecimal(c.bits)] + (match c.channel case Some(ch) => [ch] case None => []) +
    [BitOrderName(c.bo), c.order] + (if c.prime then ["prime"] else [])
  }

  /** The title is its fields joined with commas. */
  lemma TitleJoin(c: Combo)
    ensures Title(c) == JoinWith(TitleParts(c), ',')
  {
    var bo := BitOrderName(c.bo);
    var rest := [c.order] + (if c.prime then ["prime"] else []);
    var tail := c.order + (if c.prime then ",prime" else "");
    TitleTail(c.order, c.prime);
    assert ([bo] + rest)[1..] == rest;
    assert JoinWith([bo] + rest, ',') == bo + "," + tail;
    var head := "b" + NatToDecimal(c.bits);
    var mid := match c.channel case Some(ch) => [ch] case None => [];
    var parts := [head] + mid + ([bo] + rest);
    assert parts == TitleParts(c);
    match c.channel {
      case Some(ch) =>
        assert parts[1..] == [ch] + ([bo] + rest);
        assert ([ch] + ([bo] + rest))[1..] == [bo] + rest;
        assert JoinWith(parts, ',') == head + "," + (ch + "," + (bo + "," + tail));
      case None =>
        assert parts[1..] == [bo] + rest;
        assert JoinWith(parts, ',') == head + "," + (bo + "," + tail);
    }
  }

  lemma TitleTail(order: string, prime: bool)
    ensures JoinWith([order] + (if prime then ["prime"] else []), ',') == order + (if prime then ",prime" else "")
  {
    if prime {
      assert ([order] + ["prime"])[1..] == ["prime"];
    } else {
      assert [order] + [] == [order];
    }
  }

  /** The title splits back on commas into its fields: the width, the
      channel when there is one, the bit order, the order token and
      `prime` when set, provided channel and order hold no comma. */
  lemma TitleFields(c: Combo)
    requires ',' !in c.order && (c.channel.Some? ==> ',' !in c.channel.value)
    ensures Split(Title(c), ',') == TitleParts(c)
  {
    TitleJoin(c);
    assert ',' !in NatToDecimal(c.bits);
    var parts := TitleParts(c);
    assert forall i :: 0 <= i < |parts| ==> ',' !in parts[i];
    SplitJoinWith(parts, ',');
  }

  /** The options a combination runs `extract` with. */
  function LocalOptions(opts: Options, c: Combo): (o: Options)
    ensures o.verbose == opts.verbose && o.limit == opts.limit && o.shift == opts.shift && o.invert == opts.invert
  {
    opts.(order := Explicit([c.order]),
          prime := if c.prime then PrimeOnly else PrimeNone,
          bits := Some([c.bits]),
          bitOrder := Some(c.bo),
          channels := match c.channel case Some(ch) => Some([ch]) case None => None)
  }

  /** The walk a combination runs reads exactly its own settings: its
      widths, its bit order and its prime flag, whatever the scan's
      options say. */
  lemma LocalConfig(opts: Options, c: Combo)
    ensures var cfg := ConfigOf(LocalOptions(opts, c));
            cfg.bits == [c.bits] && cfg.bo == c.bo && cfg.prime == c.prime &&
            cfg.spec == ParseChannelsPattern(match c.channel case Some(ch) => ch case None => "rgb")
  {
    match c.channel
    case Some(ch) =>
      FlatMapSingle<string, char>(ch);
    case None =>
  }

  /** `check_one_combination` and `..._with_channel` for one bit order: a
      title seen before is skipped; otherwise it is recorded, the
      extraction is processed, and the flags follow the outcome. */
  function RunCombo(st: ScanState, img: Image, opts: Options, orc: Oracles, c: Combo): (r: ScanState)
    requires WellFormed(img)
    ensures Title(c) in st.wastitles ==> r == st
    ensures r.wastitles == st.wastitles + {Title(c)}
    ensures st.found ==> r.found
    ensures |r.results| <= |st.results| + 1 && Extends(st.results, r.results)
  {
    var title := Title(c);
    if title in st.wastitles then st
    else
      var st1 := st.(wastitles := st.wastitles + {title});
      var data := Extract(img, LocalOptions(opts, c));
      ProcessResultOutcome(st1, data, title, opts, orc);
      var (shown, st2) := ProcessResult(st1, data, title, opts, orc);
      st2.(needCr := !shown, found := st2.found || shown)
  }

  function Sweep(st: ScanState, img: Image, opts: Options, orc: Oracles, combos: seq<Combo>): (r: ScanState)
    requires WellFormed(img)
    ensures r.wastitles == st.wastitles + set c | c in combos :: Title(c)
    ensures st.found ==> r.found
    ensures Extends(st.results, r.results)
    decreases |combos|
  {
    if |combos| == 0 then st
    else
      var st1 := RunCombo(st, img, opts, orc, combos[0]);
      var r := Sweep(st1, img, opts, orc, combos[1..]);
      TitlesCons(combos);
      ExtendsTrans(st.results, st1.results, r.results);
      r
  }

  lemma ExtendsTrans<T>(a: seq<T>, b: seq<T>, c: seq<T>)
    requires Extends(a, b) && Extends(b, c)
    ensures Extends(a, c)
  {
    assert c[..|a|] == c[..|b|][..|a|];
  }

  lemma TitlesCons(combos: seq<Combo>)
    requires |combos| > 0
    ensures (set c | c in combos :: Title(c)) == {Title(combos[0])} + set c | c in combos[1..] :: Title(c)
  {
    assert forall c :: c in combos <==> c == combos[0] || c in combos[1..];
  }

  /** Each title brings at most one result: over a sweep, the results grow
      by no more than the number of titles not seen before. */
  lemma {:induction false} SweepOneResultPerTitle(st: ScanState, img: Image, opts: Options, orc: Oracles, combos: seq<Combo>)
    requires WellFormed(img)
    ensures var r := Sweep(st, img, opts, orc, combos);
            |r.results| - |st.results| <= |r.wastitles| - |st.wastitles|
    decreases |combos|
  {
    if |combos| > 0 {
      var st1 := RunCombo(st, img, opts, orc, combos[0]);
      SweepOneResultPerTitle(st1, img, opts, orc, combos[1..]);
      if Title(combos[0]) !in st.wastitles {
        assert |st1.wastitles| == |st.wastitles| + 1;
      }
    }
  }

  /** Combinations whose titles were all seen before change nothing. */
  lemma {:induction false} SweepSeenIsIdentity(st: ScanState, img: Image, opts: Options, orc: Oracles, combos: seq<Combo>)
    requires WellFormed(img)
    requires forall i :: 0 <= i < |combos| ==> Title(combos[i]) in st.wastitles
    ensures Sweep(st, img, opts, orc, combos) == st
    decreases |combos|
  {
    if |combos| > 0 {
      assert RunCombo(st, img, opts, orc, combos[0]) == st;
      forall i | 0 <= i < |combos[1..]| ensures Title(combos[1..][i]) in st.wastitles {
        assert combos[1..][i] == combos[i + 1];
      }
      SweepSeenIsIdentity(st, img, opts, orc, combos[1..]);
    }
  }

  /** Sweeping the same combinations a second time changes nothing. */
  lemma SweepIdempotent(st: ScanState, img: Image, opts: Options, orc: Oracles, combos: seq<Combo>)
    requires WellFormed(img)
    ensures var r := Sweep(st, img, opts, orc, combos);
            Sweep(r, img, opts, orc, combos) == r
  {
    var r := Sweep(st, img, opts, orc, combos);
    forall i | 0 <= i < |combos| ensures Title(combos[i]) in r.wastitles {
      assert combos[i] in combos;
    }
    SweepSeenIsIdentity(r, img, opts, orc, combos);
  }

  // ---------------------------------------------------------------------
  // The sweep's lists

  /** The order tokens of the sweep. */
  function SweepOrders(opts: Options, img: Image): seq<string> {
    match opts.order
    case AllOrders =>
      if img.format == Bmp then ["bY", "xY", "xy", "yx", "XY", "YX", "Xy", "yX", "Yx"]
      else ["xy", "yx", "XY", "YX", "Xy", "yX", "xY", "Yx"]
    case Auto => if img.format == Bmp then ["bY", "xY"] else ["xy"]
    case Explicit(v) => v
  }

  function PrimeValues(p: PrimeSpec): seq<bool> {
    match p
    case PrimeAll => [false, true]
    case PrimeOnly => [true]
    case PrimeNone => [false]
  }

  function SweepBits(opts: Options): seq<u16> {
    opts.bits.GetOr([1, 2, 3, 4])
  }

  const DefaultChannels: seq<string> := ["r", "g", "b", "rgb", "bgr"]

  function SweepChannels(opts: Options): seq<string> {
    opts.channels.GetOr(DefaultChannels)
  }

  function BitOrders(opts: Options): seq<BitOrder> {
    match opts.bitOrder case None => [Lsb, Msb] case Some(bo) => [bo]
  }

  /** The channel choices for an order token: none for the byte walk,
      each channel for the pixel walk. */
  function ChannelChoices(opts: Options, order: string): seq<Option<string>> {
    if HasByteLetter(order) then [None] else MapSeq(SweepChannels(opts), (ch: string) => Some(ch))
  }

  /** The innermost loop: the bit orders. */
  function BoLayer(opts: Options, order: string, prime: bool, bits: u16, ch: Option<string>): (r: seq<Combo>)
    ensures forall c :: c in r <==>
              c.order == order && c.prime == prime && c.bits == bits && c.channel == ch && c.bo in BitOrders(opts)
  {
    var f := (bo: BitOrder) => Combo(order, prime, bits, ch, bo);
    BoLayerMember(BitOrders(opts), order, prime, bits, ch, f);
    MapSeq(BitOrders(opts), f)
  }

  lemma BoLayerMember(bos: seq<BitOrder>, order: string, prime: bool, bits: u16, ch: Option<string>, f: BitOrder -> Combo)
    requires forall bo :: f(bo) == Combo(order, prime, bits, ch, bo)
    ensures forall c :: c in MapSeq(bos, f) <==>
              c.order == order && c.prime == prime && c.bits == bits && c.channel == ch && c.bo in bos
  {
    forall c ensures c in MapSeq(bos, f) <==>
                       c.order == order && c.prime == prime && c.bits == bits && c.channel == ch && c.bo in bos {
      MapSeqMember(bos, f, c);
      if c.order == order && c.prime == prime && c.bits == bits && c.channel == ch && c.bo in bos {
        assert c == f(c.bo);
      }
    }
  }

  /** The channel loop (a single pass for the byte walk). */
  function ChLayer(opts: Options, order: string, prime: bool, bits: u16): (r: seq<Combo>)
    ensures forall c :: c in r <==>
              c.order == order && c.prime == prime && c.bits == bits &&
              c.channel in ChannelChoices(opts, order) && c.bo in BitOrders(opts)
  {
    var f := (ch: Option<string>) => BoLayer(opts, order, prime, bits, ch);
    ChLayerMember(opts, ChannelChoices(opts, order), order, prime, bits, f);
    FlatMap(ChannelChoices(opts, order), f)
  }

  lemma ChLayerMember(opts: Options, chs: seq<Option<string>>, order: string, prime: bool, bits: u16, f: Option<string> -> seq<Combo>)
    requires forall ch :: f(ch) == BoLayer(opts, order, prime, bits, ch)
    ensures forall c :: c in FlatMap(chs, f) <==>
              c.order == order && c.prime == prime && c.bits == bits && c.channel in chs && c.bo in BitOrders(opts)
  {
    forall c ensures c in FlatMap(chs, f) <==>
                       c.order == order && c.prime == prime && c.bits == bits && c.channel in chs && c.bo in BitOrders(opts) {
      FlatMapMember(chs, f, c);
      if c.order == order && c.prime == prime && c.bits == bits && c.channel in chs && c.bo in BitOrders(opts) {
        assert c in f(c.channel);
      }
    }
  }

  /** The width loop. */
  function BitsLayer(opts: Options, order: string, prime: bool): (r: seq<Combo>)
    ensures forall c :: c in r <==>
              c.order == order && c.prime == prime && c.bits in SweepBits(opts) &&
              c.channel in ChannelChoices(opts, order) && c.bo in BitOrders(opts)
  {
    var f := (bits: u16) => ChLayer(opts, order, prime, bits);
    BitsLayerMember(opts, SweepBits(opts), order, prime, f);
    FlatMap(SweepBits(opts), f)
  }

  lemma BitsLayerMember(opts: Options, bitss: seq<u16>, order: string, prime: bool, f: u16 -> seq<Combo>)
    requires forall bits :: f(bits) == ChLayer(opts, order, prime, bits)
    ensures forall c :: c in FlatMap(bitss, f) <==>
              c.order == order && c.prime == prime && c.bits in bitss &&
              c.channel in ChannelChoices(opts, order) && c.bo in BitOrders(opts)
  {
    forall c ensures c in FlatMap(bitss, f) <==>
                       c.order == order && c.prime == prime && c.bits in bitss &&
                       c.channel in ChannelChoices(opts, order) && c.bo in BitOrders(opts) {
      FlatMapMember(bitss, f, c);
      if c.order == order && c.prime == prime && c.bits in bitss &&
         c.channel in ChannelChoices(opts, order) && c.bo in BitOrders(opts) {
        assert c in f(c.bits);
      }
    }
  }

  /** The prime loop. */
  function PrimeLayer(opts: Options, order: string): (r: seq<Combo>)
    ensures forall c :: c in r <==>
              c.order == order && c.prime in PrimeValues(opts.prime) && c.bits in SweepBits(opts) &&
              c.channel in ChannelChoices(opts, order) && c.bo in BitOrders(opts)
  {
    var f := (prime: bool) => BitsLayer(opts, order, prime);
    PrimeLayerMember(opts, PrimeValues(opts.prime), order, f);
    FlatMap(PrimeValues(opts.prime), f)
  }

  lemma PrimeLayerMember(opts: Options, primes: seq<bool>, order: string, f: bool -> seq<Combo>)
    requires forall prime :: f(prime) == BitsLayer(opts, order, prime)
    ensures forall c :: c in FlatMap(primes, f) <==>
              c.order == order && c.prime in primes && c.bits in SweepBits(opts) &&
              c.channel in ChannelChoices(opts, order) && c.bo in BitOrders(opts)
  {
    forall c ensures c in FlatMap(primes, f) <==>
                       c.order == order && c.prime in primes && c.bits in SweepBits(opts) &&
                       c.channel in ChannelChoices(opts, order) && c.bo in BitOrders(opts) {
      FlatMapMember(primes, f, c);
      if c in FlatMap(primes, f) {
        var prime := FlatMapSource(primes, f, c);
        assert c in BitsLayer(opts, order, prime);
      }
      if c.order == order && c.prime in primes && c.bits in SweepBits(opts) &&
         c.channel in ChannelChoices(opts, order) && c.bo in BitOrders(opts) {
        assert c in f(c.prime);
      }
    }
  }

  /** The loops of the sweep, outermost first: order, prime, width,
      channel, bit order. */
  function SweepCombos(opts: Options, img: Image): seq<Combo> {
    FlatMap(SweepOrders(opts, img), (order: string) => PrimeLayer(opts, order))
  }

  /** The channel choices hold no channel for the byte walk and exactly
      the sweep's channels for the pixel walk. */
  lemma ChannelChoicesMember(opts: Options, order: string, ch: Option<string>)
    ensures ch in ChannelChoices(opts, order) <==>
              if HasByteLetter(order) then ch.None? else ch.Some? && ch.value in SweepChannels(opts)
  {
    if !HasByteLetter(order) {
      MapSeqMember(SweepChannels(opts), (c: string) => Some(c), ch);
    }
  }

  /** A combination is swept exactly when each of its parts is on its list. */
  lemma SweepCombosMember(opts: Options, img: Image, c: Combo)
    ensures c in SweepCombos(opts, img) <==>
              c.order in SweepOrders(opts, img) && c.prime in PrimeValues(opts.prime) && c.bits in SweepBits(opts) &&
              c.channel in ChannelChoices(opts, c.order) && c.bo in BitOrders(opts)
  {
    FlatMapMember(SweepOrders(opts, img), (order: string) => PrimeLayer(opts, order), c);
    if c.order in SweepOrders(opts, img) && c.prime in PrimeValues(opts.prime) && c.bits in SweepBits(opts) &&
       c.channel in ChannelChoices(opts, c.order) && c.bo in BitOrders(opts) {
      assert c in PrimeLayer(opts, c.order);
    }
  }

  /** The `all` order set of a BMP image is that of a PNG image with the
      byte walk `bY` added in front. */
  lemma AllOrdersBmp(opts: Options, bmp: Image, png: Image)
    requires opts.order == AllOrders && bmp.format == Bmp && png.format != Bmp
    ensures SweepOrders(opts, bmp)[0] == "bY" && |SweepOrders(opts, bmp)| == |SweepOrders(opts, png)| + 1
    ensures forall t :: t in SweepOrders(opts, bmp) <==> t == "bY" || t in SweepOrders(opts, png)
  {
  }

  /** The `all` order set of a PNG image holds only pixel-walk orders. */
  lemma AllOrdersPngPixelWalk(opts: Options, png: Image)
    requires opts.order == AllOrders && png.format != Bmp
    ensures forall i :: 0 <= i < |SweepOrders(opts, png)| ==> !HasByteLetter(SweepOrders(opts, png)[i])
  {
  }

  // ---------------------------------------------------------------------
  // Repeated extractions

  /** After a combination runs under a new title, its extraction is cached. */
  lemma RunComboCaches(st: ScanState, img: Image, opts: Options, orc: Oracles, c: Combo)
    requires WellFormed(img) && Title(c) !in st.wastitles
    ensures Extract(img, LocalOptions(opts, c)) in RunCombo(st, img, opts, orc, c).cache
  {
    var st1 := st.(wastitles := st.wastitles + {Title(c)});
    ProcessResultKeepsFirstTitle(st1, Extract(img, LocalOptions(opts, c)), Title(c), opts, orc);
  }

  /** A combination whose extraction is already cached adds no result. */
  lemma RunComboCachedAddsNothing(st: ScanState, img: Image, opts: Options, orc: Oracles, c: Combo)
    requires WellFormed(img) && Extract(img, LocalOptions(opts, c)) in st.cache
    ensures RunCombo(st, img, opts, orc, c).results == st.results
  {
  }

  /** The case variants of `xy` and `yx` the `all` order set holds read the
      same bytes as `xy` and `yx`: once the canonical order has run, the
      variant with the same other settings adds no result. */
  lemma CaseVariantAddsNothing(st: ScanState, img: Image, opts: Options, orc: Oracles, c: Combo, variant: string)
    requires WellFormed(img) && Title(c) !in st.wastitles
    requires variant in {"XY", "Xy", "xY", "YX", "yX", "Yx"}
    requires c.order == if variant in {"XY", "Xy", "xY"} then "xy" else "yx"
    ensures var st1 := RunCombo(st, img, opts, orc, c);
            RunCombo(st1, img, opts, orc, c.(order := variant)).results == st1.results
  {
    var st1 := RunCombo(st, img, opts, orc, c);
    RunComboCaches(st, img, opts, orc, c);
    var lc := LocalOptions(opts, c);
    var lv := LocalOptions(opts, c.(order := variant));
    assert lv == lc.(order := Explicit([variant]));
    CaseVariantsExtractAlike(img, lc, variant);
    assert lc == lc.(order := Explicit([c.order]));
    RunComboCachedAddsNothing(st1, img, opts, orc, c.(order := variant));
  }

  // ---------------------------------------------------------------------
  // The phases before the sweep

  function MetaTitle(key: seq<byte>): string {
    "meta " + BytesAsChars(key)
  }

  /** The metadata phase, over the keys in the map's iteration order: each
      value is processed, and a shown one sets the found flag. */
  function MetadataPhase(st: ScanState, meta: map<seq<byte>, seq<byte>>, keys: seq<seq<byte>>, opts: Options, orc: Oracles): (r: ScanState)
    requires forall k :: k in keys ==> k in meta
    ensures st.found ==> r.found
    ensures Extends(st.results, r.results)
    decreases |keys|
  {
    if |keys| == 0 then st
    else
      var (shown, st1) := ProcessResult(st, meta[keys[0]], MetaTitle(keys[0]), opts, orc);
      ProcessResultExtends(st, meta[keys[0]], MetaTitle(keys[0]), opts, orc);
      assert forall k :: k in keys[1..] ==> k in keys;
      var r := MetadataPhase(st1.(found := st1.found || shown), meta, keys[1..], opts, orc);
      ExtendsTrans(st.results, st1.results, r.results);
      r
  }

  /** The image-data phase: the whole image data classified (not through
      the cache); a result other than a repeated byte is kept. */
  function ImageDataPhase(st: ScanState, img: Image, opts: Options, orc: Oracles): (r: ScanState)
    ensures r.cache == st.cache && r.wastitles == st.wastitles
    ensures st.found ==> r.found
  {
    var res := Classify(img.imagedata, opts.(limit := 0), orc);
    if Reportable(res) then st.(results := st.results + [res.value], found := true) else st
  }

  /** The extra-data phase: each non-empty segment after the image end is
      classified (not through the cache), a result other than a repeated
      byte is kept, and the found flag is set. */
  function ExtraDataPhase(st: ScanState, extras: seq<seq<byte>>, opts: Options, orc: Oracles): (r: ScanState)
    ensures r.cache == st.cache && r.wastitles == st.wastitles
    ensures st.found ==> r.found
    ensures (exists i :: 0 <= i < |extras| && |extras[i]| > 0) ==> r.found
    decreases |extras|
  {
    if |extras| == 0 then st
    else
      var st1 :=
        if |extras[0]| == 0 then st
        else
          var res := Classify(extras[0], opts.(limit := 0), orc);
          (if Reportable(res) then st.(results := st.results + [res.value]) else st).(found := true);
      var r := ExtraDataPhase(st1, extras[1..], opts, orc);
      assert (exists i :: 0 <= i < |extras| && |extras[i]| > 0) ==>
             |extras[0]| > 0 || exists i :: 0 <= i < |extras[1..]| && |extras[1..][i]| > 0 by {
        if exists i :: 0 <= i < |extras| && |extras[i]| > 0 {
          var i :| 0 <= i < |extras| && |extras[i]| > 0;
          if i > 0 {
            assert extras[1..][i - 1] == extras[i];
          }
        }
      }
      r
  }

  /** `from_utf8(&ty).unwrap_or("????")` for a chunk type: ASCII as
      itself; any other byte gives `????`. */
  function ChunkTypeName(ty: seq<byte>): string {
    if forall i :: 0 <= i < |ty| ==> ty[i] < 0x80 then BytesAsChars(ty) else "????"
  }

  function ChunkTitle(idx: nat, ty: seq<byte>): string {
    "chunk:" + NatToDecimal(idx) + ":" + ChunkTypeName(ty)
  }

  /** Whether the chunk phase looks at a chunk: five bytes or more, and not
      image data. */
  predicate ChunkChecked(c: PngChunk) {
    |c.data| >= 5 && c.ty != IDAT
  }

  /** The chunk phase from index `idx` on. */
  function ChunkPhase(st: ScanState, chunks: seq<PngChunk>, idx: nat, opts: Options, orc: Oracles): (r: ScanState)
    ensures st.found ==> r.found
    ensures Extends(st.results, r.results)
    decreases |chunks| - idx
  {
    if idx >= |chunks| then st
    else
      var c := chunks[idx];
      var st1 :=
        if ChunkChecked(c) then
          ProcessResultExtends(st, c.data, ChunkTitle(idx, c.ty), opts, orc);
          var (shown, st2) := ProcessResult(st, c.data, ChunkTitle(idx, c.ty), opts, orc);
          st2.(needCr := !shown, found := st2.found || shown)
        else st;
      var r := ChunkPhase(st1, chunks, idx + 1, opts, orc);
      ExtendsTrans(st.results, st1.results, r.results);
      r
  }

  /** `keys` lists every key of the map exactly once, in the order a
      `HashMap` iteration would visit them. */
  ghost predicate IterationOrder(meta: map<seq<byte>, seq<byte>>, keys: seq<seq<byte>>) {
    (forall k :: k in keys <==> k in meta) && NoDup(keys)
  }

  /** `check`: metadata, image data, extra data, chunks, then the sweep.
      `metaKeys` is the iteration order of the metadata map, each key once. At verbosity 0
      or below no repeated-byte result is kept, and whenever a result is
      kept the found flag is set (so "nothing" is not reported). */
  function Check(img: Image, opts: Options, orc: Oracles, metaKeys: seq<seq<byte>>): (r: ScanState)
    requires WellFormed(img)
    requires IterationOrder(img.metadata, metaKeys)
    ensures opts.verbose <= 0 ==> forall i :: 0 <= i < |r.results| ==> !r.results[i].OneChar?
    ensures |r.results| > 0 ==> r.found
  {
    var s1 := MetadataPhase(Initial, img.metadata, metaKeys, opts, orc);
    MetadataPhaseSound(Initial, img.metadata, metaKeys, opts, orc);
    var s2 := ImageDataPhase(s1, img, opts, orc);
    var s3 := ExtraDataPhase(s2, img.extradata, opts, orc);
    ExtraDataPhaseSound(s2, img.extradata, opts, orc);
    var s4 := ChunkPhase(s3, img.chunks, 0, opts, orc);
    ChunkPhaseSound(s3, img.chunks, 0, opts, orc);
    SweepSound(s4, img, opts, orc, SweepCombos(opts, img));
    Sweep(s4, img, opts, orc, SweepCombos(opts, img))
  }

  // ---------------------------------------------------------------------
  // Whole-scan properties

  /** Every kept result is reportable at verbosity 0 or below, and the
      found flag is set once anything is kept. */
  ghost predicate Sound(st: ScanState, opts: Options) {
    (opts.verbose <= 0 ==> forall i :: 0 <= i < |st.results| ==> !st.results[i].OneChar?) &&
    (|st.results| > 0 ==> st.found)
  }

  lemma ProcessResultSound(st: ScanState, data: seq<byte>, title: string, opts: Options, orc: Oracles)
    requires Sound(st, opts)
    ensures var (shown, st') := ProcessResult(st, data, title, opts, orc);
            Sound(st'.(found := st'.found || shown), opts)
  {
    ProcessResultOutcome(st, data, title, opts, orc);
  }

  lemma {:induction false} SweepSound(st: ScanState, img: Image, opts: Options, orc: Oracles, combos: seq<Combo>)
    requires WellFormed(img) && Sound(st, opts)
    ensures Sound(Sweep(st, img, opts, orc, combos), opts)
    decreases |combos|
  {
    if |combos| > 0 {
      var c := combos[0];
      if Title(c) !in st.wastitles {
        var st1 := st.(wastitles := st.wastitles + {Title(c)});
        ProcessResultSound(st1, Extract(img, LocalOptions(opts, c)), Title(c), opts, orc);
      }
      SweepSound(RunCombo(st, img, opts, orc, c), img, opts, orc, combos[1..]);
    }
  }

  lemma {:induction false} MetadataPhaseSound(st: ScanState, meta: map<seq<byte>, seq<byte>>, keys: seq<seq<byte>>, opts: Options, orc: Oracles)
    requires forall k :: k in keys ==> k in meta
    requires Sound(st, opts)
    ensures Sound(MetadataPhase(st, meta, keys, opts, orc), opts)
    decreases |keys|
  {
    if |keys| > 0 {
      ProcessResultSound(st, meta[keys[0]], MetaTitle(keys[0]), opts, orc);
      var (shown, st1) := ProcessResult(st, meta[keys[0]], MetaTitle(keys[0]), opts, orc);
      MetadataPhaseSound(st1.(found := st1.found || shown), meta, keys[1..], opts, orc);
    }
  }

  lemma {:induction false} ExtraDataPhaseSound(st: ScanState, extras: seq<seq<byte>>, opts: Options, orc: Oracles)
    requires Sound(st, opts)
    ensures Sound(ExtraDataPhase(st, extras, opts, orc), opts)
    decreases |extras|
  {
    if |extras| > 0 {
      var st1 :=
        if |extras[0]| == 0 then st
        else
          var res := Classify(extras[0], opts.(limit := 0), orc);
          (if Reportable(res) then st.(results := st.results + [res.value]) else st).(found := true);
      assert Sound(st1, opts);
      ExtraDataPhaseSound(st1, extras[1..], opts, orc);
    }
  }

  lemma {:induction false} ChunkPhaseSound(st: ScanState, chunks: seq<PngChunk>, idx: nat, opts: Options, orc: Oracles)
    requires Sound(st, opts)
    ensures Sound(ChunkPhase(st, chunks, idx, opts, orc), opts)
    decreases |chunks| - idx
  {
    if idx < |chunks| {
      var c := chunks[idx];
      if ChunkChecked(c) {
        ProcessResultSound(st, c.data, ChunkTitle(idx, c.ty), opts, orc);
        var (shown, st2) := ProcessResult(st, c.data, ChunkTitle(idx, c.ty), opts, orc);
        ChunkPhaseSound(st2.(needCr := !shown, found := st2.found || shown), chunks, idx + 1, opts, orc);
      } else {
        ChunkPhaseSound(st, chunks, idx + 1, opts, orc);
      }
    }
  }

  /** Every combination of the sweep has run once the scan is over: its
      title is recorded. */
  lemma CheckRunsEveryCombo(img: Image, opts: Options, orc: Oracles, metaKeys: seq<seq<byte>>, c: Combo)
    requires WellFormed(img)
    requires IterationOrder(img.metadata, metaKeys)
    requires c.order in SweepOrders(opts, img) && c.prime in PrimeValues(opts.prime) && c.bits in SweepBits(opts)
    requires c.channel in ChannelChoices(opts, c.order) && c.bo in BitOrders(opts)
    ensures Title(c) in Check(img, opts, orc, metaKeys).wastitles
  {
    SweepCombosMember(opts, img, c);
  }
}
