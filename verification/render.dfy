/** The text forms of `src/result.rs` without colours: the byte escaper
    (Ruby's `inspect` style) and the field layouts of the zlib and wbStego
    results. */
module Render {
  import opened Basics
  import opened Seqs
  import opened Text
  import opened Detectors

  predicate IsPrintableAscii(c: char) {
    ' ' <= c <= '~'
  }

  predicate AllPrintableAscii(s: string) {
    forall i :: 0 <= i < |s| ==> IsPrintableAscii(s[i])
  }

  lemma HexDigitUpperPrintable(d: nat)
    requires d < 16
    ensures IsPrintableAscii(HexDigitUpper(d))
  {
  }

  /** The escape of one byte: C-style escapes for the named control bytes,
      backslash and double quote; printable ASCII as itself; anything else
      as `\xHH` in upper case. */
  function EscapeByte(b: byte): (s: string)
    ensures 1 <= |s| <= 4 && AllPrintableAscii(s)
  {
    if b == 0x0A then "\\n"
    else if b == 0x0D then "\\r"
    else if b == 0x09 then "\\t"
    else if b == 0x5C then "\\\\"
    else if b == 0x22 then "\\\""
    else if b == 0x07 then "\\a"
    else if b == 0x08 then "\\b"
    else if b == 0x0B then "\\v"
    else if b == 0x0C then "\\f"
    else if b == 0x1B then "\\e"
    else if 0x20 <= b <= 0x7E then [b as char]
    else
      HexDigitUpperPrintable(b / 16);
      HexDigitUpperPrintable(b % 16);
      "\\x" + Hex2Upper(b)
  }

  function EscapeBody(data: seq<byte>): (s: string)
    ensures |data| <= |s| <= 4 * |data| && AllPrintableAscii(s)
  {
    if |data| == 0 then "" else EscapeByte(data[0]) + EscapeBody(data[1..])
  }

  /** `escape_bytes_to_string`: the escaped bytes between double quotes. */
  function EscapeBytes(data: seq<byte>): (s: string)
    ensures |data| + 2 <= |s| <= 4 * |data| + 2 && AllPrintableAscii(s)
    ensures s[0] == '"' && s[|s| - 1] == '"'
  {
    "\"" + EscapeBody(data) + "\""
  }

  // ---------------------------------------------------------------------
  // Reading escapes back

  function EscapeCode(c: char): Option<byte> {
    if c == 'n' then Some(0x0A)
    else if c == 'r' then Some(0x0D)
    else if c == 't' then Some(0x09)
    else if c == '\\' then Some(0x5C)
    else if c == '"' then Some(0x22)
    else if c == 'a' then Some(0x07)
    else if c == 'b' then Some(0x08)
    else if c == 'v' then Some(0x0B)
    else if c == 'f' then Some(0x0C)
    else if c == 'e' then Some(0x1B)
    else None
  }

  function HexUpperValue(c: char): Option<nat> {
    if '0' <= c <= '9' then Some(c as int - '0' as int)
    else if 'A' <= c <= 'F' then Some(c as int - 'A' as int + 10)
    else None
  }

  function Prepend(b: byte, r: Option<seq<byte>>): Option<seq<byte>> {
    match r case Some(t) => Some([b] + t) case None => None
  }

  /** The inverse reading: escapes decoded, a bare double quote or a
      character outside printable ASCII rejected. */
  function UnescapeBody(s: string): Option<seq<byte>>
    decreases |s|
  {
    if |s| == 0 then Some([])
    else if s[0] == '\\' then
      if |s| < 2 then None
      else if s[1] == 'x' then
        if |s| < 4 then None
        else match (HexUpperValue(s[2]), HexUpperValue(s[3]))
          case (Some(hi), Some(lo)) => if hi < 16 && lo < 16 then Prepend(hi * 16 + lo, UnescapeBody(s[4..])) else None
          case _ => None
      else match EscapeCode(s[1])
        case Some(b) => Prepend(b, UnescapeBody(s[2..]))
        case None => None
    else if s[0] == '"' || !IsPrintableAscii(s[0]) then None
    else Prepend(s[0] as int, UnescapeBody(s[1..]))
  }

  /** The body between the enclosing double quotes, read back. */
  function Unquote(s: string): Option<seq<byte>> {
    if |s| >= 2 && s[0] == '"' && s[|s| - 1] == '"' then UnescapeBody(s[1..|s| - 1]) else None
  }

  lemma HexUpperDigitRoundTrip(d: nat)
    requires d < 16
    ensures HexUpperValue(HexDigitUpper(d)) == Some(d)
  {
  }

  lemma UnescapeHex(b: byte, rest: string)
    requires !(0x20 <= b <= 0x7E)
    ensures UnescapeBody("\\x" + Hex2Upper(b) + rest) == Prepend(b, UnescapeBody(rest))
  {
    var s := "\\x" + Hex2Upper(b) + rest;
    HexUpperDigitRoundTrip(b / 16);
    HexUpperDigitRoundTrip(b % 16);
    assert s[0] == '\\' && s[1] == 'x';
    assert s[2] == HexDigitUpper(b / 16) && s[3] == HexDigitUpper(b % 16);
    assert s[4..] == rest;
  }

  lemma UnescapeNamed(c: char, b: byte, rest: string)
    requires c != 'x' && EscapeCode(c) == Some(b)
    ensures UnescapeBody(['\\', c] + rest) == Prepend(b, UnescapeBody(rest))
  {
    assert (['\\', c] + rest)[2..] == rest;
  }

  lemma UnescapePlain(b: byte, rest: string)
    requires 0x20 <= b <= 0x7E && b != 0x5C && b != 0x22
    ensures UnescapeBody([b as char] + rest) == Prepend(b, UnescapeBody(rest))
  {
    assert ([b as char] + rest)[1..] == rest;
  }

  /** Reading one escaped byte back gives the byte. */
  lemma UnescapeByte(b: byte, rest: string)
    ensures UnescapeBody(EscapeByte(b) + rest) == Prepend(b, UnescapeBody(rest))
  {
    if b == 0x0A { UnescapeNamed('n', b, rest); }
    else if b == 0x0D { UnescapeNamed('r', b, rest); }
    else if b == 0x09 { UnescapeNamed('t', b, rest); }
    else if b == 0x5C { UnescapeNamed('\\', b, rest); }
    else if b == 0x22 { UnescapeNamed('"', b, rest); }
    else if b == 0x07 { UnescapeNamed('a', b, rest); }
    else if b == 0x08 { UnescapeNamed('b', b, rest); }
    else if b == 0x0B { UnescapeNamed('v', b, rest); }
    else if b == 0x0C { UnescapeNamed('f', b, rest); }
    else if b == 0x1B { UnescapeNamed('e', b, rest); }
    else if 0x20 <= b <= 0x7E { UnescapePlain(b, rest); }
    else { UnescapeHex(b, rest); }
  }

  lemma {:induction false} UnescapeBodyRoundTrip(data: seq<byte>)
    ensures UnescapeBody(EscapeBody(data)) == Some(data)
  {
    if |data| > 0 {
      UnescapeBodyRoundTrip(data[1..]);
      UnescapeByte(data[0], EscapeBody(data[1..]));
      assert [data[0]] + data[1..] == data;
    }
  }

  /** The escaped form determines the bytes: reading it back gives them. */
  lemma EscapeRoundTrip(data: seq<byte>)
    ensures Unquote(EscapeBytes(data)) == Some(data)
  {
    var s := EscapeBytes(data);
    assert s[1..|s| - 1] == EscapeBody(data);
    UnescapeBodyRoundTrip(data);
  }

  // ---------------------------------------------------------------------
  // Result layouts

  /** At most this many inflated bytes are shown. */
  const MaxShowSize: nat := 100

  /** What follows the quoted preview: `...` when bytes were left out, then
      the offset and the number of inflated bytes (the `size` field is not
      shown). */
  function ZlibTail(r: DetectResult): string
    requires r.Zlib?
  {
    (if |r.data| > MaxShowSize then "..." else "") +
    ", offset=" + NatToDecimal(r.offset) + ", size=" + NatToDecimal(|r.data|)
  }

  /** The zlib line: the first 100 inflated bytes escaped, then the tail. */
  function ZlibDisplay(r: DetectResult): string
    requires r.Zlib?
  {
    "zlib: data=" + EscapeBytes(r.data[..Min(|r.data|, MaxShowSize)]) + ZlibTail(r)
  }

  /** Two zlib results that differ only in `size` read the same. */
  lemma ZlibDisplayIgnoresSize(data: seq<byte>, offset: nat, size1: nat, size2: nat)
    ensures ZlibDisplay(Zlib(data, offset, size1)) == ZlibDisplay(Zlib(data, offset, size2))
  {
  }

  /** The line splits into the label, a quoted preview that reads back to
      the first `min(len, 100)` bytes, and a tail that starts with `...`
      exactly when bytes were left out. */
  lemma ZlibDisplayPreview(r: DetectResult)
    requires r.Zlib?
    ensures exists q, tail :: ZlibDisplay(r) == "zlib: data=" + q + tail &&
                              Unquote(q) == Some(r.data[..Min(|r.data|, MaxShowSize)]) &&
                              (|tail| >= 3 && tail[..3] == "..." <==> |r.data| > MaxShowSize)
  {
    var q := EscapeBytes(r.data[..Min(|r.data|, MaxShowSize)]);
    var tail := ZlibTail(r);
    EscapeRoundTrip(r.data[..Min(|r.data|, MaxShowSize)]);
    ZlibTailMarksCut(r);
    assert ZlibDisplay(r) == "zlib: data=" + q + tail;
  }

  /** The tail starts with `...` exactly when the preview was cut. */
  lemma ZlibTailMarksCut(r: DetectResult)
    requires r.Zlib?
    ensures var tail := ZlibTail(r);
            |tail| >= 3 && tail[..3] == "..." <==> |r.data| > MaxShowSize
  {
    var tail := ZlibTail(r);
    var fields := ", offset=" + NatToDecimal(r.offset) + ", size=" + NatToDecimal(|r.data|);
    assert fields[0] == ',';
    if |r.data| <= MaxShowSize {
      assert tail == fields;
    } else {
      assert tail == "..." + fields;
    }
  }

  /** Rust's `{:?}` for the strings shown here: quotes, with quote,
      backslash and the common control characters escaped. */
  function DebugChar(c: char): string {
    if c == '"' then "\\\""
    else if c == '\\' then "\\\\"
    else if c == '\n' then "\\n"
    else if c == '\r' then "\\r"
    else if c == '\t' then "\\t"
    else [c]
  }

  function DebugString(s: string): string {
    "\"" + FlatMap(s, DebugChar) + "\""
  }

  function BytesAsChars(bs: seq<byte>): string {
    seq(|bs|, i requires 0 <= i < |bs| => bs[i] as char)
  }

  /** One `name=value` part. */
  function Field(name: string, value: string): string {
    name + "=" + value
  }

  /** The parts of the wbStego line, in order: size, extension if any,
      preview, `even=true` if set, cipher if any. */
  function WbStegoParts(r: DetectResult): (parts: seq<string>)
    requires r.WBStego?
  {
    [Field("size", NatToDecimal(r.size))] +
    (if r.ext.Some? then [Field("ext", DebugString(BytesAsChars(r.ext.value)))] else []) +
    [Field("data", EscapeBytes(r.dataPreview) + "...")] +
    (if r.even then [Field("even", "true")] else []) +
    (if r.enc.Some? then [Field("enc", DebugString(r.enc.value))] else [])
  }

  /** `parts.join(", ")`. */
  function JoinStrings(parts: seq<string>, sep: string): string {
    if |parts| == 0 then "" else if |parts| == 1 then parts[0] else parts[0] + sep + JoinStrings(parts[1..], sep)
  }

  function WbStegoDisplay(r: DetectResult): string
    requires r.WBStego?
  {
    "<wbStego " + JoinStrings(WbStegoParts(r), ", ") + ">"
  }

  /** The name of a part: what comes before its first `=`. */
  function PartName(p: string): string {
    match IndexOf(p, '=') case Some(k) => p[..k] case None => p
  }

  lemma PartNameOf(name: string, value: string)
    requires '=' !in name
    ensures PartName(Field(name, value)) == name
  {
    IndexOfAfterPrefix(name, '=', value);
  }

  function OptionalName(present: bool, name: string): seq<string> {
    if present then [name] else []
  }

  lemma OptionalPartName(present: bool, name: string, value: string)
    requires '=' !in name
    ensures MapSeq(if present then [Field(name, value)] else [], PartName) == OptionalName(present, name)
  {
    if present {
      PartNameOf(name, value);
    }
  }

  /** The parts are named `size`, `ext` (if present), `data`, `even` (if
      set), `enc` (if present), in that order. */
  lemma WbStegoPartNames(r: DetectResult)
    requires r.WBStego?
    ensures MapSeq(WbStegoParts(r), PartName) ==
              ["size"] + OptionalName(r.ext.Some?, "ext") + ["data"] +
              OptionalName(r.even, "even") + OptionalName(r.enc.Some?, "enc")
  {
    var extV := if r.ext.Some? then DebugString(BytesAsChars(r.ext.value)) else "";
    var encV := if r.enc.Some? then DebugString(r.enc.value) else "";
    var size := [Field("size", NatToDecimal(r.size))];
    var ext := if r.ext.Some? then [Field("ext", extV)] else [];
    var data := [Field("data", EscapeBytes(r.dataPreview) + "...")];
    var even := if r.even then [Field("even", "true")] else [];
    var enc := if r.enc.Some? then [Field("enc", encV)] else [];
    assert WbStegoParts(r) == size + ext + data + even + enc;
    PartNameOf("size", NatToDecimal(r.size));
    PartNameOf("data", EscapeBytes(r.dataPreview) + "...");
    assert MapSeq(size, PartName) == ["size"];
    assert MapSeq(data, PartName) == ["data"];
    OptionalPartName(r.ext.Some?, "ext", extV);
    OptionalPartName(r.even, "even", "true");
    OptionalPartName(r.enc.Some?, "enc", encV);
    MapSeqAppend(size, ext, PartName);
    MapSeqAppend(size + ext, data, PartName);
    MapSeqAppend(size + ext + data, even, PartName);
    MapSeqAppend(size + ext + data + even, enc, PartName);
  }

  /** The data part, after the optional extension, reads back to the
      preview. */
  lemma WbStegoDataPart(r: DetectResult)
    requires r.WBStego?
    ensures var d := WbStegoParts(r)[if r.ext.Some? then 2 else 1];
            |d| >= 8 && d[..5] == "data=" && d[|d| - 3..] == "..." && Unquote(d[5..|d| - 3]) == Some(r.dataPreview)
  {
    var q := EscapeBytes(r.dataPreview);
    WbStegoDataIndex(r);
    DataField(q);
    EscapeRoundTrip(r.dataPreview);
  }

  lemma WbStegoDataIndex(r: DetectResult)
    requires r.WBStego?
    ensures WbStegoParts(r)[if r.ext.Some? then 2 else 1] == Field("data", EscapeBytes(r.dataPreview) + "...")
  {
    var head := [Field("size", NatToDecimal(r.size))] +
                (if r.ext.Some? then [Field("ext", DebugString(BytesAsChars(r.ext.value)))] else []);
    assert |head| == if r.ext.Some? then 2 else 1;
    assert WbStegoParts(r)[|head|] == Field("data", EscapeBytes(r.dataPreview) + "...");
  }

  lemma DataField(q: string)
    ensures var d := Field("data", q + "...");
            |d| == |q| + 8 && d[..5] == "data=" && d[|d| - 3..] == "..." && d[5..|d| - 3] == q
  {
    var d := Field("data", q + "...");
    assert d == "data=" + q + "...";
    assert d[..5] == "data=";
    assert d[5..|d| - 3] == q;
    assert d[|d| - 3..] == "...";
  }
}
