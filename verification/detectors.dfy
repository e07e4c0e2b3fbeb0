/** The detectors of `src/checker.rs` and the chain `data2result` that tries
    them in order on a buffer of extracted bytes, the first answer winning.

    The external `file` command and zlib inflation are parameters:
    `describe` stands for the trimmed-to-be output of `file -b -` (None when
    the command cannot be run or fails), `inflate` for a complete zlib
    decode (None on any error). */
module Detectors {
  import opened Basics
  import opened BitMath
  import opened Seqs
  import opened Text
  import opened Opts

  /** What a detector reports. Text fields hold the bytes they were read
      from. */
  datatype DetectResult =
    | OneChar(ch: byte, size: nat)
    | WholeText(text: seq<byte>)
    | PartialText(text: seq<byte>, offset: nat)
    | Zlib(data: seq<byte>, offset: nat, size: nat)
    | OpenStego(version: byte, dataLen: u32, channelBits: byte, fnameLen: byte, compress: byte, encrypt: byte,
                fname: seq<byte>)
    | WBStego(size: nat, ext: Option<seq<byte>>, dataPreview: seq<byte>, enc: Option<string>, even: bool)
    | FileType(desc: string)

  // ---------------------------------------------------------------------
  // One repeated byte

  function AllEqualTo(data: seq<byte>, b: byte): (r: bool)
    ensures r <==> forall i :: 0 <= i < |data| ==> data[i] == b
  {
    |data| == 0 || (data[0] == b && AllEqualTo(data[1..], b))
  }

  /** `one_char`: a non-empty buffer of one repeated byte. */
  function DetectOneChar(data: seq<byte>): (r: Option<DetectResult>)
    ensures r.Some? <==> |data| > 0 && forall i :: 0 <= i < |data| ==> data[i] == data[0]
    ensures r.Some? ==> r.value == OneChar(data[0], |data|)
  {
    if |data| == 0 then None
    else if AllEqualTo(data, data[0]) then Some(OneChar(data[0], |data|))
    else None
  }

  /** A repeated byte is reported with its count, and only such a buffer
      is: `OneChar` answers exactly for the buffers `[b] * n`, `n > 0`. */
  lemma OneCharOfRepeat(b: byte, n: nat)
    requires n > 0
    ensures DetectOneChar(seq(n, _ => b)) == Some(OneChar(b, n))
  {
  }

  // ---------------------------------------------------------------------
  // Text

  /** Printable ASCII, or carriage return, line feed or tab. */
  predicate IsPrintable(b: byte) {
    (0x20 <= b <= 0x7E) || b == 0x0D || b == 0x0A || b == 0x09
  }

  function AllPrintable(data: seq<byte>): (r: bool)
    ensures r <==> forall i :: 0 <= i < |data| ==> IsPrintable(data[i])
  {
    |data| == 0 || (IsPrintable(data[0]) && AllPrintable(data[1..]))
  }

  /** `whole_text_check`: the whole buffer is text of at least `minLen`
      bytes. */
  function WholeTextCheck(data: seq<byte>, minLen: nat): (r: Option<DetectResult>)
    ensures r.Some? <==> |data| >= minLen && forall i :: 0 <= i < |data| ==> IsPrintable(data[i])
    ensures r.Some? ==> r.value == WholeText(data)
  {
    if |data| >= minLen && AllPrintable(data) then Some(WholeText(data)) else None
  }

  /** `[s, e)` is a maximal run of printable bytes. */
  ghost predicate RunAt(data: seq<byte>, s: nat, e: nat) {
    && s < e <= |data|
    && (forall k :: s <= k < e ==> IsPrintable(data[k]))
    && (s == 0 || !IsPrintable(data[s - 1]))
    && (e == |data| || !IsPrintable(data[e]))
  }

  /** The answer `strings_first` should give: the first maximal run of at
      least `minLen` printable bytes, with its offset, or None when every
      run is shorter. */
  ghost predicate FirstRun(data: seq<byte>, minLen: nat, r: Option<DetectResult>) {
    && (r.None? ==> forall s: nat, e: nat :: RunAt(data, s, e) ==> e - s < minLen)
    && (r.Some? ==>
          exists s: nat, e: nat :: RunAt(data, s, e) && e - s >= minLen && r.value == PartialText(data[s..e], s) &&
                         forall s2: nat, e2: nat :: RunAt(data, s2, e2) && e2 - s2 >= minLen ==> s <= s2)
  }

  /** The loop of `strings_first` from byte `i`, with the start of the
      current run if one is open. */
  function StringsScan(data: seq<byte>, i: nat, start: Option<nat>, minLen: nat): Option<DetectResult>
    requires i <= |data| && (start.Some? ==> start.value < i)
    decreases |data| - i
  {
    if i == |data| then
      match start
      case Some(s) => if |data| - s >= minLen then Some(PartialText(data[s..], s)) else None
      case None => None
    else if IsPrintable(data[i]) then
      StringsScan(data, i + 1, if start.None? then Some(i) else start, minLen)
    else
      match start
      case Some(s) => if i - s >= minLen then Some(PartialText(data[s..i], s)) else StringsScan(data, i + 1, None, minLen)
      case None => StringsScan(data, i + 1, None, minLen)
  }

  /** What the loop knows at byte `i`: the open run is printable and
      starts a run, a closed run is closed by the byte before `i`, and no
      run long enough starts before the open run (or before `i`). */
  ghost predicate ScanInv(data: seq<byte>, i: nat, start: Option<nat>, minLen: nat) {
    && i <= |data|
    && (start.Some? ==>
          && start.value < i
          && (start.value == 0 || !IsPrintable(data[start.value - 1]))
          && forall k :: start.value <= k < i ==> IsPrintable(data[k]))
    && (start.None? ==> i == 0 || !IsPrintable(data[i - 1]))
    && forall s: nat, e: nat :: RunAt(data, s, e) && e - s >= minLen ==> s >= (if start.Some? then start.value else i)
  }

  /** A run that starts inside the open run `[st, i)` is that run. */
  lemma OpenRunIsOnlyRun(data: seq<byte>, st: nat, i: nat, s: nat, e: nat)
    requires st < i <= |data| && forall k :: st <= k < i ==> IsPrintable(data[k])
    requires i == |data| || !IsPrintable(data[i])
    requires RunAt(data, s, e) && st <= s <= i
    ensures s == st && e == i
  {
  }

  lemma {:induction false} StringsScanCorrect(data: seq<byte>, i: nat, start: Option<nat>, minLen: nat)
    requires ScanInv(data, i, start, minLen)
    ensures FirstRun(data, minLen, StringsScan(data, i, start, minLen))
    decreases |data| - i
  {
    if i == |data| {
      ScanAtEnd(data, start, minLen);
    } else if IsPrintable(data[i]) {
      var next := if start.None? then Some(i) else start;
      ScanPrintable(data, i, start, minLen);
      StringsScanCorrect(data, i + 1, next, minLen);
    } else if start.Some? && i - start.value >= minLen {
      ScanCloses(data, i, start.value, minLen);
    } else {
      ScanSkips(data, i, start, minLen);
      StringsScanCorrect(data, i + 1, None, minLen);
    }
  }

  /** At the end of the buffer an open run is the only candidate left. */
  lemma ScanAtEnd(data: seq<byte>, start: Option<nat>, minLen: nat)
    requires ScanInv(data, |data|, start, minLen)
    ensures FirstRun(data, minLen, StringsScan(data, |data|, start, minLen))
  {
    if start.Some? {
      var st := start.value;
      assert RunAt(data, st, |data|);
      forall s: nat, e: nat | RunAt(data, s, e) && s >= st
        ensures s == st && e == |data|
      {
        OpenRunIsOnlyRun(data, st, |data|, s, e);
      }
      assert data[st..] == data[st..|data|];
    }
  }

  /** A printable byte opens or extends the current run. */
  lemma ScanPrintable(data: seq<byte>, i: nat, start: Option<nat>, minLen: nat)
    requires ScanInv(data, i, start, minLen) && i < |data| && IsPrintable(data[i])
    ensures ScanInv(data, i + 1, if start.None? then Some(i) else start, minLen)
    ensures StringsScan(data, i, start, minLen) == StringsScan(data, i + 1, if start.None? then Some(i) else start, minLen)
  {
  }

  /** A byte that is not printable closes a run long enough: that run is the answer. */
  lemma ScanCloses(data: seq<byte>, i: nat, st: nat, minLen: nat)
    requires ScanInv(data, i, Some(st), minLen) && i < |data| && !IsPrintable(data[i]) && i - st >= minLen
    ensures FirstRun(data, minLen, StringsScan(data, i, Some(st), minLen))
  {
    assert RunAt(data, st, i);
    forall s: nat, e: nat | RunAt(data, s, e) && st <= s <= i
      ensures s == st && e == i
    {
      OpenRunIsOnlyRun(data, st, i, s, e);
    }
  }

  /** A byte that is not printable drops a run too short, or passes a gap. */
  lemma ScanSkips(data: seq<byte>, i: nat, start: Option<nat>, minLen: nat)
    requires ScanInv(data, i, start, minLen) && i < |data| && !IsPrintable(data[i])
    requires start.Some? ==> i - start.value < minLen
    ensures ScanInv(data, i + 1, None, minLen)
    ensures StringsScan(data, i, start, minLen) == StringsScan(data, i + 1, None, minLen)
  {
    if start.Some? {
      var st := start.value;
      forall s: nat, e: nat | RunAt(data, s, e) && st <= s <= i
        ensures s == st && e == i
      {
        OpenRunIsOnlyRun(data, st, i, s, e);
      }
    } else {
      forall s: nat, e: nat | RunAt(data, s, e)
        ensures s != i
      {
        assert IsPrintable(data[s]);
      }
    }
  }

  /** `strings_first`: the first run of at least `minLen` printable bytes;
      a run that reaches the end of the buffer counts. */
  function StringsFirst(data: seq<byte>, minLen: nat): (r: Option<DetectResult>)
    ensures FirstRun(data, minLen, r)
  {
    StringsScanCorrect(data, 0, None, minLen);
    StringsScan(data, 0, None, minLen)
  }

  // ---------------------------------------------------------------------
  // Oracles: zlib and `file`

  /** The inflation at offset `o` succeeds with some output. */
  predicate Inflates(data: seq<byte>, inflate: seq<byte> -> Option<seq<byte>>, o: nat)
    requires o <= |data|
  {
    inflate(data[o..]).Some? && |inflate(data[o..]).value| > 0
  }

  function ZlibFrom(data: seq<byte>, inflate: seq<byte> -> Option<seq<byte>>, o: nat): (r: Option<DetectResult>)
    requires o <= Min(|data|, 256)
    ensures r.None? <==> forall k :: o <= k < Min(|data|, 256) ==> !Inflates(data, inflate, k)
    ensures r.Some? ==> exists k :: o <= k < Min(|data|, 256) && Inflates(data, inflate, k) &&
                                    r.value == Zlib(inflate(data[k..]).value, k, |data| - k) &&
                                    forall j :: o <= j < k ==> !Inflates(data, inflate, j)
    decreases Min(|data|, 256) - o
  {
    if o == Min(|data|, 256) then None
    else if Inflates(data, inflate, o) then Some(Zlib(inflate(data[o..]).value, o, |data| - o))
    else ZlibFrom(data, inflate, o + 1)
  }

  /** `zlib_try`: the first of the first 256 offsets from which the rest
      of the buffer inflates to something non-empty. */
  function ZlibTry(data: seq<byte>, inflate: seq<byte> -> Option<seq<byte>>): (r: Option<DetectResult>)
    ensures r.None? <==> forall k :: 0 <= k < Min(|data|, 256) ==> !Inflates(data, inflate, k)
    ensures r.Some? ==> exists k :: 0 <= k < Min(|data|, 256) && Inflates(data, inflate, k) &&
                                    r.value == Zlib(inflate(data[k..]).value, k, |data| - k) &&
                                    forall j :: 0 <= j < k ==> !Inflates(data, inflate, j)
  {
    ZlibFrom(data, inflate, 0)
  }

  /** The descriptions `file` gives for data it does not recognise. */
  const FileIgnores: seq<string> := [
    "data", "empty", "Sendmail frozen configuration", "DBase 3 data file", "DOS executable", "Dyalog APL",
    "8086 relocatable", "SysEx File", "COM executable", "Non-ISO extended-ASCII text", "ISO-8859 text",
    "very short file", "International EBCDIC text", "lif file", "AmigaOS bitmap font",
    "a python script text executable"]

  predicate StartsWith(s: string, p: string) {
    |p| <= |s| && s[..|p|] == p
  }

  function IgnoredFrom(desc: string, k: nat): (r: bool)
    requires k <= |FileIgnores|
    ensures r <==> exists j :: k <= j < |FileIgnores| && StartsWith(desc, FileIgnores[j])
    decreases |FileIgnores| - k
  {
    if k == |FileIgnores| then false else StartsWith(desc, FileIgnores[k]) || IgnoredFrom(desc, k + 1)
  }

  /** `FileCmd::data2result`: buffers of at least 5 bytes are described
      by `file`; an empty description or one that starts with an ignored
      prefix gives nothing. */
  function FileCheck(enabled: bool, data: seq<byte>, describe: seq<byte> -> Option<string>): (r: Option<DetectResult>)
    ensures r.Some? ==> enabled && |data| >= 5 && describe(data).Some? && r.value == FileType(Trim(describe(data).value))
    ensures r.Some? ==> |r.value.desc| > 0 && forall j :: 0 <= j < |FileIgnores| ==> !StartsWith(r.value.desc, FileIgnores[j])
    ensures (enabled && |data| >= 5 && describe(data).Some? &&
             (var d := Trim(describe(data).value);
              |d| > 0 && forall j :: 0 <= j < |FileIgnores| ==> !StartsWith(d, FileIgnores[j]))) ==> r.Some?
  {
    if !enabled || |data| < 5 then None
    else match describe(data)
      case None => None
      case Some(out) =>
        var desc := Trim(out);
        if |desc| == 0 || IgnoredFrom(desc, 0) then None else Some(FileType(desc))
  }

  // ---------------------------------------------------------------------
  // OpenStego

  /** `OPENSTEGO`. */
  const OpenStegoMagic: seq<byte> := [0x4F, 0x50, 0x45, 0x4E, 0x53, 0x54, 0x45, 0x47, 0x4F]

  predicate MatchAt(data: seq<byte>, pat: seq<byte>, i: nat) {
    i + |pat| <= |data| && data[i..i + |pat|] == pat
  }

  /** `windows(n).position(..)`: the first position from `i` on where
      `pat` occurs. */
  function FindFrom(data: seq<byte>, pat: seq<byte>, i: nat): (r: Option<nat>)
    ensures r.None? <==> forall k :: i <= k ==> !MatchAt(data, pat, k)
    ensures r.Some? ==> i <= r.value && MatchAt(data, pat, r.value) && forall k :: i <= k < r.value ==> !MatchAt(data, pat, k)
    decreases |data| - i
  {
    if i + |pat| > |data| then None
    else if data[i..i + |pat|] == pat then
      assert MatchAt(data, pat, i);
      Some(i)
    else FindFrom(data, pat, i + 1)
  }

  /** The fields after the magic: version, a little-endian 32-bit data
      length, channel bits, file-name length, compression and encryption
      flags, then the file name. Fewer than nine bytes give nothing; a
      truncated name is left empty. */
  function ParseOpenStegoHeader(hdr: seq<byte>): (r: Option<DetectResult>)
    ensures r.Some? <==> |hdr| >= 9
    ensures r.Some? ==> r.value.OpenStego? && r.value.fnameLen == hdr[6] &&
                        (|r.value.fname| == 0 || (9 + hdr[6] as int <= |hdr| && r.value.fname == hdr[9..9 + hdr[6] as int]))
    ensures r.Some? ==> r.value.version == hdr[0] && r.value.dataLen == LittleEndian(hdr[1..5]) &&
                        r.value.channelBits == hdr[5] && r.value.compress == hdr[7] && r.value.encrypt == hdr[8]
    ensures r.Some? && 9 + hdr[6] as int <= |hdr| ==> r.value.fname == hdr[9..9 + hdr[6] as int]
    ensures r.Some? && 9 + hdr[6] as int > |hdr| ==> r.value.fname == []
  {
    if |hdr| < 8 then None
    else if |hdr| < 9 then None
    else
      var fl: nat := hdr[6];
      LittleEndianBound(hdr[1..5]);
      Pow2Wide();
      var fname := if fl > 0 && |hdr| >= 9 + fl then hdr[9..9 + fl] else [];
      Some(OpenStego(hdr[0], LittleEndian(hdr[1..5]), hdr[5], hdr[6], hdr[7], hdr[8], fname))
  }

  /** `check_openstego`: the header after the first `OPENSTEGO`. */
  function CheckOpenStego(data: seq<byte>): (r: Option<DetectResult>)
    ensures FindFrom(data, OpenStegoMagic, 0).None? ==> r.None?
    ensures FindFrom(data, OpenStegoMagic, 0).Some? ==>
              var p := FindFrom(data, OpenStegoMagic, 0).value;
              p + 9 <= |data| && r == ParseOpenStegoHeader(data[p + 9..])
  {
    match FindFrom(data, OpenStegoMagic, 0)
    case None => None
    case Some(pos) => ParseOpenStegoHeader(data[pos + 9..])
  }

  /** The fields of an OpenStego header as the embedder writes them. */
  function EncodeOpenStegoHeader(version: byte, dataLen: u32, channelBits: byte, compress: byte, encrypt: byte,
                                 fname: seq<byte>): seq<byte>
    requires |fname| < 256
  {
    [version] + LittleEndianBytes(dataLen, 4) + [channelBits, |fname|, compress, encrypt] + fname
  }

  /** The header fields are read back whatever follows them. */
  lemma OpenStegoHeaderRoundTrip(version: byte, dataLen: u32, channelBits: byte, compress: byte, encrypt: byte,
                                 fname: seq<byte>, rest: seq<byte>)
    requires |fname| < 256
    ensures ParseOpenStegoHeader(EncodeOpenStegoHeader(version, dataLen, channelBits, compress, encrypt, fname) + rest) ==
            Some(OpenStego(version, dataLen, channelBits, |fname|, compress, encrypt, fname))
  {
    var le := LittleEndianBytes(dataLen, 4);
    var hdr := EncodeOpenStegoHeader(version, dataLen, channelBits, compress, encrypt, fname) + rest;
    assert hdr == [version] + le + [channelBits, |fname|, compress, encrypt] + (fname + rest);
    assert hdr[1..5] == le;
    Pow2Wide();
    LittleEndianRoundTrip(dataLen, 4);
    assert hdr[9..] == fname + rest;
    assert hdr[9..9 + |fname|] == fname;
  }

  /** Behind bytes that contain no `O` (so cannot hide an earlier magic)
      the header after the magic is the one read. */
  lemma OpenStegoAfterPrefix(prefix: seq<byte>, body: seq<byte>)
    requires 0x4F !in prefix
    ensures CheckOpenStego(prefix + OpenStegoMagic + body) == ParseOpenStegoHeader(body)
  {
    var data := prefix + OpenStegoMagic + body;
    var p := |prefix|;
    forall k | 0 <= k < p
      ensures !MatchAt(data, OpenStegoMagic, k)
    {
      assert data[k] == prefix[k] != 0x4F;
    }
    assert data[p..p + 9] == OpenStegoMagic;
    FindFromSkips(data, OpenStegoMagic, 0, p);
    assert data[p + 9..] == body;
  }

  /** No match before `p` and a match at `p`: the search finds `p`. */
  lemma {:induction false} FindFromSkips(data: seq<byte>, pat: seq<byte>, i: nat, p: nat)
    requires i <= p && MatchAt(data, pat, p) && forall k :: i <= k < p ==> !MatchAt(data, pat, k)
    ensures FindFrom(data, pat, i) == Some(p)
    decreases p - i
  {
    if i < p {
      FindFromSkips(data, pat, i + 1, p);
    }
  }

  // ---------------------------------------------------------------------
  // wbStego

  /** The cipher names of wbStego 4.x. */
  function CipherName(k: byte): string {
    if k == 1 then "Blowfish"
    else if k == 2 then "Twofish"
    else if k == 3 then "CAST128"
    else if k == 4 then "Rijndael"
    else "unknown #" + NatToDecimal(k)
  }

  /** Three printable bytes, none of them `*` or `?`. */
  predicate ValidExt(ext: seq<byte>) {
    (forall i :: 0 <= i < |ext| ==> 0x20 <= ext[i] <= 0x7E) && 0x2A !in ext && 0x3F !in ext
  }

  function Preview(data: seq<byte>, start: nat): (p: seq<byte>)
    requires start <= |data|
    ensures p == data[start..Min(start + 30, |data|)]
  {
    data[start..Min(start + 30, |data|)]
  }

  /** The number of zero bytes. */
  function Zeros(s: seq<byte>): nat {
    multiset(s)[0]
  }

  /** The rejections of `check_wbstego`: too short, an implausible size, or
      a mostly-zero tail. */
  predicate WbStegoPlausible(data: seq<byte>) {
    && |data| >= 6
    && 0 < LittleEndian(data[..3]) <= 1_000_000
    && !(Zeros(data[3..]) > 10 && |data| - 3 - Zeros(data[3..]) < 4)
  }

  /** `check_wbstego`: a 24-bit little-endian size, then one of three
      headers, tried in order: `00 FF n` and an `n`-byte cipher header
      (wbStego 4.x); a control byte with one of its top two bits set
      (wbStego 2.x/3.x, named only when the top bit is set); or a
      three-byte file extension. The preview is at most 30 bytes. */
  function CheckWbStego(data: seq<byte>): (r: Option<DetectResult>)
    ensures r.Some? ==> WbStegoPlausible(data)
    ensures r.Some? ==> r.value.WBStego? && r.value.size == LittleEndian(data[..3]) && !r.value.even &&
                        exists start :: 4 <= start <= |data| && r.value.dataPreview == Preview(data, start)
    ensures r.Some? && r.value.ext.Some? ==> r.value.ext.value == data[3..6] && ValidExt(data[3..6]) && r.value.enc.None?
  {
    if |data| < 4 then None
    else
      LittleEndianBound(data[..3]);
      Pow2Wide();
      var size := LittleEndian(data[..3]);
      if size == 0 || size > 1_000_000 then None
      else if Zeros(data[3..]) > 10 && |data| - 3 - Zeros(data[3..]) < 4 then None
      else if |data| < 6 then None
      else
        var n: nat := data[5];
        if data[3] == 0x00 && data[4] == 0xFF && |data| > 6 + n then
          var cipher := if n > 0 then data[6] else 0;
          Some(WBStego(size, None, Preview(data, 6 + n), Some(CipherName(cipher)), false))
        else if data[3] / 0x40 != 0 then
          Some(WBStego(size, None, Preview(data, 4), if data[3] / 0x80 != 0 then Some("wbStego 2.x/3.x") else None, false))
        else if ValidExt(data[3..6]) then
          Some(WBStego(size, Some(data[3..6]), Preview(data, 6), None, false))
        else None
  }

  /** The three accepting branches of `check_wbstego`, for a buffer that
      passes the plausibility checks. */
  lemma CheckWbStegoBranches(data: seq<byte>)
    requires WbStegoPlausible(data)
    ensures var size := LittleEndian(data[..3]);
            var n: nat := data[5];
            if data[3] == 0x00 && data[4] == 0xFF && |data| > 6 + n then
              CheckWbStego(data) ==
              Some(WBStego(size, None, Preview(data, 6 + n), Some(CipherName(if n > 0 then data[6] else 0)), false))
            else if data[3] >= 0x40 then
              CheckWbStego(data) ==
              Some(WBStego(size, None, Preview(data, 4), if data[3] >= 0x80 then Some("wbStego 2.x/3.x") else None, false))
            else if ValidExt(data[3..6]) then
              CheckWbStego(data) == Some(WBStego(size, Some(data[3..6]), Preview(data, 6), None, false))
            else CheckWbStego(data).None?
  {
  }

  /** The size field reads back, and the rest follows it. */
  lemma SizePrefix(size: nat, rest: seq<byte>)
    requires 0 < size <= 1_000_000
    ensures var data := LittleEndianBytes(size, 3) + rest;
            |data| == 3 + |rest| && LittleEndian(data[..3]) == size && data[3..] == rest
  {
    var data := LittleEndianBytes(size, 3) + rest;
    assert data[..3] == LittleEndianBytes(size, 3);
    assert data[3..] == rest;
    Pow2Wide();
    LittleEndianRoundTrip(size, 3);
  }

  lemma ZerosAppend(a: seq<byte>, b: seq<byte>)
    ensures Zeros(a + b) == Zeros(a) + Zeros(b)
    ensures Zeros(a) <= |a| && Zeros(b) <= |b|
  {
    assert multiset(a + b) == multiset(a) + multiset(b);
    assert |multiset(a)| == |a| && |multiset(b)| == |b|;
  }

  /** The preview from `start` is the first 30 bytes of what follows. */
  lemma PreviewOfSuffix(data: seq<byte>, start: nat, payload: seq<byte>)
    requires start <= |data| && data[start..] == payload
    ensures Preview(data, start) == payload[..Min(30, |payload|)]
  {
    assert data[start..Min(start + 30, |data|)] == data[start..][..Min(30, |payload|)];
  }

  /** A wbStego 4.x header: size, `00 FF n`, `n` header bytes whose first
      names the cipher, then the payload. */
  lemma WbStegoEncryptedRoundTrip(size: nat, header: seq<byte>, payload: seq<byte>)
    requires 0 < size <= 1_000_000 && |header| < 256
    requires |payload| > 0 && |payload| - Zeros(payload) >= 3
    ensures var data := LittleEndianBytes(size, 3) + [0x00, 0xFF, |header|] + header + payload;
            CheckWbStego(data) ==
            Some(WBStego(size, None, payload[..Min(30, |payload|)],
                         Some(CipherName(if |header| > 0 then header[0] else 0)), false))
  {
    var data := LittleEndianBytes(size, 3) + [0x00, 0xFF, |header|] + header + payload;
    EncryptedFacts(size, header, payload, data);
    CheckWbStegoBranches(data);
  }

  lemma EncryptedFacts(size: nat, header: seq<byte>, payload: seq<byte>, data: seq<byte>)
    requires 0 < size <= 1_000_000 && |header| < 256
    requires |payload| > 0 && |payload| - Zeros(payload) >= 3
    requires data == LittleEndianBytes(size, 3) + [0x00, 0xFF, |header|] + header + payload
    ensures WbStegoPlausible(data) && LittleEndian(data[..3]) == size
    ensures data[3] == 0x00 && data[4] == 0xFF && data[5] as nat == |header| && |data| > 6 + |header|
    ensures |header| > 0 ==> data[6] == header[0]
    ensures Preview(data, 6 + |header|) == payload[..Min(30, |payload|)]
  {
    var mark: seq<byte> := [0x00, 0xFF, |header|];
    EncryptedLayout(size, mark, header, payload, data);
    assert WbStegoPlausible(data) by {
      MarkZeros(|header|);
      ZerosAppend(header, payload);
      ZerosAppend(mark, header + payload);
    }
    PreviewOfSuffix(data, 6 + |header|, payload);
  }

  lemma EncryptedLayout(size: nat, mark: seq<byte>, header: seq<byte>, payload: seq<byte>, data: seq<byte>)
    requires 0 < size <= 1_000_000 && |mark| == 3
    requires data == LittleEndianBytes(size, 3) + mark + header + payload
    ensures |data| == 6 + |header| + |payload| && LittleEndian(data[..3]) == size
    ensures data[3..] == mark + (header + payload)
    ensures data[3] == mark[0] && data[4] == mark[1] && data[5] == mark[2]
    ensures |header| > 0 ==> data[6] == header[0]
    ensures data[6 + |header|..] == payload
  {
    assert data == LittleEndianBytes(size, 3) + (mark + (header + payload));
    SizePrefix(size, mark + (header + payload));
  }

  lemma MarkZeros(n: byte)
    ensures Zeros([0x00, 0xFF, n]) <= 2
  {
    var mark: seq<byte> := [0x00, 0xFF, n];
    var head: seq<byte> := [0x00, 0xFF];
    assert mark == head + [n];
    ZerosAppend(head, [n]);
    assert multiset(head)[0] == 1;
  }

  /** A wbStego 2.x/3.x buffer: size, the file extension and the payload;
      the extension's first byte must leave the top two bits clear. */
  lemma WbStegoExtRoundTrip(size: nat, ext: seq<byte>, payload: seq<byte>)
    requires 0 < size <= 1_000_000 && |ext| == 3 && ValidExt(ext) && ext[0] < 0x40
    requires |payload| - Zeros(payload) >= 1
    ensures CheckWbStego(LittleEndianBytes(size, 3) + ext + payload) ==
            Some(WBStego(size, Some(ext), payload[..Min(30, |payload|)], None, false))
  {
    var data := LittleEndianBytes(size, 3) + (ext + payload);
    assert LittleEndianBytes(size, 3) + ext + payload == data;
    SizePrefix(size, ext + payload);
    ZerosAppend(ext, payload);
    CheckWbStegoBranches(data);
    assert Zeros(ext) == 0 by {
      assert 0 !in ext by {
        assert forall i :: 0 <= i < 3 ==> ext[i] >= 0x20;
      }
    }
    assert data[3..6] == ext;
    assert data[6..] == payload;
    PreviewOfSuffix(data, 6, payload);
  }

  /** A wbStego 2.x/3.x buffer with a control byte: size, a byte with one
      of its top two bits set, then the payload; only the top bit names the
      format. */
  lemma WbStegoControlByteRoundTrip(size: nat, control: byte, payload: seq<byte>)
    requires 0 < size <= 1_000_000 && control >= 0x40
    requires |payload| >= 2 && |payload| - Zeros(payload) >= 3
    ensures CheckWbStego(LittleEndianBytes(size, 3) + [control] + payload) ==
            Some(WBStego(size, None, payload[..Min(30, |payload|)],
                         if control >= 0x80 then Some("wbStego 2.x/3.x") else None, false))
  {
    var data := LittleEndianBytes(size, 3) + ([control] + payload);
    assert LittleEndianBytes(size, 3) + [control] + payload == data;
    SizePrefix(size, [control] + payload);
    ZerosAppend([control], payload);
    CheckWbStegoBranches(data);
    assert data[3] == control;
    assert data[4..] == payload;
    PreviewOfSuffix(data, 4, payload);
  }

  // ---------------------------------------------------------------------
  // The chain

  /** `data2result`: one repeated byte, OpenStego, wbStego (only when the
      scan's options fix the bit order to `lsb`), whole text (at least
      `min_str_len - 2` bytes, saturating), `file`, zlib, then the first
      string of `min_str_len` bytes. */
  function Data2Result(data: seq<byte>, opts: Options, describe: seq<byte> -> Option<string>,
                       inflate: seq<byte> -> Option<seq<byte>>): (r: Option<DetectResult>)
    ensures r == FirstSome(Detectors(data, opts, describe, inflate))
  {
    var ds := Detectors(data, opts, describe, inflate);
    FirstSomeCons(ds[0], ds[1..]);
    FirstSomeCons(ds[1], ds[2..]);
    FirstSomeCons(ds[2], ds[3..]);
    FirstSomeCons(ds[3], ds[4..]);
    FirstSomeCons(ds[4], ds[5..]);
    FirstSomeCons(ds[5], ds[6..]);
    FirstSomeCons(ds[6], ds[7..]);
    var oneChar := DetectOneChar(data);
    if oneChar.Some? then oneChar
    else
      var openStego := CheckOpenStego(data);
      if openStego.Some? then openStego
      else
        var wbStego := if opts.bitOrder == Some(Lsb) then CheckWbStego(data) else None;
        if wbStego.Some? then wbStego
        else
          var wholeText := WholeTextCheck(data, SatSub(opts.minStrLen, 2));
          if wholeText.Some? then wholeText
          else
            var file := FileCheck(opts.fileCmd, data, describe);
            if file.Some? then file
            else
              var zlib := ZlibTry(data, inflate);
              if zlib.Some? then zlib else StringsFirst(data, opts.minStrLen)
  }

  /** The detectors in the order the chain tries them. */
  function Detectors(data: seq<byte>, opts: Options, describe: seq<byte> -> Option<string>,
                     inflate: seq<byte> -> Option<seq<byte>>): seq<Option<DetectResult>>
  {
    [DetectOneChar(data), CheckOpenStego(data),
     if opts.bitOrder == Some(Lsb) then CheckWbStego(data) else None,
     WholeTextCheck(data, SatSub(opts.minStrLen, 2)), FileCheck(opts.fileCmd, data, describe),
     ZlibTry(data, inflate), StringsFirst(data, opts.minStrLen)]
  }

  /** The chain answers with the first detector that answers: every
      earlier detector says nothing, and it says nothing only when all of
      them do. */
  lemma Data2ResultFirstMatch(data: seq<byte>, opts: Options, describe: seq<byte> -> Option<string>,
                              inflate: seq<byte> -> Option<seq<byte>>)
    ensures var ds := Detectors(data, opts, describe, inflate);
            var r := Data2Result(data, opts, describe, inflate);
            (r.None? <==> forall i :: 0 <= i < |ds| ==> ds[i].None?) &&
            (r.Some? ==> exists k :: 0 <= k < |ds| && ds[k] == r && forall j :: 0 <= j < k ==> ds[j].None?)
  {
  }

  /** A repeated byte is always reported as such, whatever the other
      detectors would say. */
  lemma RepeatedByteWins(data: seq<byte>, opts: Options, describe: seq<byte> -> Option<string>,
                         inflate: seq<byte> -> Option<seq<byte>>)
    requires |data| > 0 && forall i :: 0 <= i < |data| ==> data[i] == data[0]
    ensures Data2Result(data, opts, describe, inflate) == Some(OneChar(data[0], |data|))
  {
  }

  /** An empty buffer is reported as (empty) whole text exactly when the
      minimum string length is at most 2. */
  lemma EmptyBuffer(opts: Options, describe: seq<byte> -> Option<string>, inflate: seq<byte> -> Option<seq<byte>>)
    ensures Data2Result([], opts, describe, inflate) == if opts.minStrLen <= 2 then Some(WholeText([])) else None
  {
    assert forall s: nat, e: nat :: !RunAt([], s, e);
  }
}
