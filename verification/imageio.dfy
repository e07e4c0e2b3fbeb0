/** The loader helpers of `src/imageio.rs`: the PNG chunk splitter, the tEXt,
    iTXt and zTXt parsers, and the BMP pixel-array reader. Decoding pixels
    (`image::open`) and zlib inflation are oracles passed in as functions; the
    file itself is a byte sequence. */
module ImageIO {
  import opened Basics
  import opened BitMath
  import opened Seqs
  import opened Text

  datatype ImgFormat = Png | Bmp | UnknownFormat

  /** A four-byte chunk type code. */
  type ChunkType = s: seq<byte> | |s| == 4 witness [0, 0, 0, 0]

  datatype PngChunk = PngChunk(ty: ChunkType, data: seq<byte>)

  /** `Image`: the decoded RGBA pixels, the raw scanline bytes (`imagedata`),
      the text metadata, the PNG chunks and any data after `IEND`. */
  datatype Image = Image(
    format: ImgFormat,
    width: u32,
    height: u32,
    pixels: seq<byte>,
    imagedata: seq<byte>,
    metadata: map<seq<byte>, seq<byte>>,
    chunks: seq<PngChunk>,
    extradata: seq<seq<byte>>)

  /** The pixel buffer holds four bytes (R, G, B, A) per pixel. */
  predicate WellFormed(img: Image) {
    |img.pixels| == 4 * img.width * img.height
  }

  /** What the pixel decoder yields: width, height and RGBA bytes. */
  datatype Decoded = Decoded(width: u32, height: u32, rgba: seq<byte>)

  const PngSignature: seq<byte> := [0x89, 0x50, 0x4E, 0x47, 0x0D, 0x0A, 0x1A, 0x0A]
  const IEND: ChunkType := [0x49, 0x45, 0x4E, 0x44]
  const IDAT: ChunkType := [0x49, 0x44, 0x41, 0x54]
  const TEXT: ChunkType := [0x74, 0x45, 0x58, 0x74]
  const ITXT: ChunkType := [0x69, 0x54, 0x58, 0x74]
  const ZTXT: ChunkType := [0x7A, 0x54, 0x58, 0x74]

  /** The message of `read_exact` on a truncated stream. */
  const EofMessage: string := "failed to fill whole buffer"

  // ---------------------------------------------------------------------
  // Chunk splitting

  /** The chunk loop of `load_png` over the bytes after the signature: a
      4-byte big-endian length, the type, the data and a CRC that is read but
      not checked. Fewer than four bytes left end the loop quietly; the first
      `IEND` chunk is kept and ends it too. The result holds the chunks,
      whether `IEND` was seen, and the bytes after it. */
  function ReadChunks(s: seq<byte>): (r: Result<(seq<PngChunk>, bool, seq<byte>)>)
    ensures r.Ok? && r.value.1 ==> |r.value.0| > 0 && r.value.0[|r.value.0| - 1].ty == IEND
    ensures r.Ok? ==> forall i :: 0 <= i < |r.value.0| - 1 ==> r.value.0[i].ty != IEND
    ensures r.Ok? && !r.value.1 ==>
              r.value.2 == [] && forall i :: 0 <= i < |r.value.0| ==> r.value.0[i].ty != IEND
    decreases |s|
  {
    if |s| < 4 then Ok(([], false, []))
    else
      var len := BigEndian(s[..4]);
      if |s| < 8 then Err(EofMessage)
      else if len > 0 && |s| < 8 + len then Err(EofMessage)
      else if |s| < 12 + len then Err(EofMessage)
      else
        var c := PngChunk(s[4..8], s[8..8 + len]);
        if c.ty == IEND then Ok(([c], true, s[12 + len..]))
        else
          var rest :- ReadChunks(s[12 + len..]);
          Ok(([c] + rest.0, rest.1, rest.2))
  }

  /** The bytes of one chunk as a PNG file stores it. */
  function EncodeChunk(c: PngChunk, crc: seq<byte>): (bs: seq<byte>)
    requires |c.data| < 0x1_0000_0000 && |crc| == 4
    ensures |bs| == 12 + |c.data|
  {
    BigEndianBytes(|c.data|, 4) + c.ty + c.data + crc
  }

  function EncodeChunks(cs: seq<PngChunk>, crc: seq<byte>): seq<byte>
    requires forall i :: 0 <= i < |cs| ==> |cs[i].data| < 0x1_0000_0000
    requires |crc| == 4
  {
    if |cs| == 0 then [] else EncodeChunk(cs[0], crc) + EncodeChunks(cs[1..], crc)
  }

  lemma ReadOneChunk(c: PngChunk, crc: seq<byte>, rest: seq<byte>)
    requires |c.data| < 0x1_0000_0000 && |crc| == 4
    ensures var s := EncodeChunk(c, crc) + rest;
            |s| >= 12 + |c.data| && BigEndian(s[..4]) == |c.data| &&
            s[4..8] == c.ty && s[8..8 + |c.data|] == c.data && s[12 + |c.data|..] == rest
  {
    var n := |c.data|;
    assert EncodeChunk(c, crc) + rest == BigEndianBytes(n, 4) + c.ty + c.data + crc + rest;
    SliceParts(BigEndianBytes(n, 4), c.ty, c.data, crc, rest);
    Pow2Wide();
    BigEndianRoundTrip(n, 4);
  }

  /** The parts of a concatenation of five sequences, sliced back out. */
  lemma SliceParts<T>(a: seq<T>, b: seq<T>, c: seq<T>, d: seq<T>, rest: seq<T>)
    ensures var s := a + b + c + d + rest;
            && s[..|a|] == a
            && s[|a|..|a| + |b|] == b
            && s[|a| + |b|..|a| + |b| + |c|] == c
            && s[|a| + |b| + |c| + |d|..] == rest
  {
  }

  /** Reading a file that starts with an encoded chunk reads that chunk
      and then, unless it is `IEND`, goes on after it. */
  lemma ReadChunksCons(c: PngChunk, crc: seq<byte>, rest: seq<byte>)
    requires |c.data| < 0x1_0000_0000 && |crc| == 4
    ensures ReadChunks(EncodeChunk(c, crc) + rest) ==
            if c.ty == IEND then Ok(([c], true, rest))
            else match ReadChunks(rest)
                 case Ok(v) => Ok(([c] + v.0, v.1, v.2))
                 case Err(e) => Err(e)
  {
    var s := EncodeChunk(c, crc) + rest;
    ReadOneChunk(c, crc, rest);
    assert PngChunk(s[4..8], s[8..8 + |c.data|]) == c;
  }

  /** Splitting inverts encoding: chunks without `IEND`, then an `IEND`
      chunk, then trailing bytes, come back as the chunk list, the found
      flag and the trailing bytes, whatever the CRC bytes are. */
  lemma {:induction false} ChunkRoundTrip(cs: seq<PngChunk>, iend: seq<byte>, crc: seq<byte>, extra: seq<byte>)
    requires forall i :: 0 <= i < |cs| ==> |cs[i].data| < 0x1_0000_0000 && cs[i].ty != IEND
    requires |iend| < 0x1_0000_0000 && |crc| == 4
    ensures ReadChunks(EncodeChunks(cs, crc) + EncodeChunk(PngChunk(IEND, iend), crc) + extra) ==
            Ok((cs + [PngChunk(IEND, iend)], true, extra))
  {
    var last := PngChunk(IEND, iend);
    if |cs| == 0 {
      assert EncodeChunks(cs, crc) + EncodeChunk(last, crc) + extra == EncodeChunk(last, crc) + extra;
      ReadChunksCons(last, crc, extra);
      assert cs + [last] == [last];
    } else {
      var tail := EncodeChunks(cs[1..], crc) + EncodeChunk(last, crc) + extra;
      EncodeChunksCons(cs, crc, EncodeChunk(last, crc), extra);
      ChunkRoundTrip(cs[1..], iend, crc, extra);
      assert cs[0].ty != IEND;
      ReadChunksCons(cs[0], crc, tail);
      assert [cs[0]] + (cs[1..] + [last]) == cs + [last];
    }
  }

  lemma EncodeChunksCons(cs: seq<PngChunk>, crc: seq<byte>, a: seq<byte>, b: seq<byte>)
    requires forall i :: 0 <= i < |cs| ==> |cs[i].data| < 0x1_0000_0000
    requires |crc| == 4 && |cs| > 0
    ensures EncodeChunks(cs, crc) + a + b == EncodeChunk(cs[0], crc) + (EncodeChunks(cs[1..], crc) + a + b)
  {
  }

  // ---------------------------------------------------------------------
  // Text chunks

  /** `parse_png_text`: the key is everything before the first NUL and the
      value everything after it. */
  function ParsePngText(data: seq<byte>): (r: Option<(seq<byte>, seq<byte>)>)
    ensures r.None? <==> 0 !in data
    ensures r.Some? ==> data == r.value.0 + [0] + r.value.1 && 0 !in r.value.0
  {
    match IndexOf(data, 0)
    case None => None
    case Some(pos) =>
      assert data == data[..pos] + [0] + data[pos + 1..];
      Some((data[..pos], data[pos + 1..]))
  }

  lemma PngTextRoundTrip(key: seq<byte>, value: seq<byte>)
    requires 0 !in key
    ensures ParsePngText(key + [0] + value) == Some((key, value))
  {
    IndexOfAfterPrefix(key, 0, value);
    var s := key + [0] + value;
    assert s[..|key|] == key;
    assert s[|key| + 1..] == value;
  }

  /** `parse_png_itxt` as written: the NUL-separated fields are taken to be
      keyword, flag, language, translated keyword and text, so the value is
      the fifth field. */
  function ParsePngItxtAsWritten(data: seq<byte>): (r: Option<(seq<byte>, seq<byte>)>)
    ensures r.None? <==> multiset(data)[0] < 3
    ensures r.Some? ==> 0 !in r.value.0 && 0 !in r.value.1
    ensures r.Some? ==> |r.value.0| < |data| && data[..|r.value.0|] == r.value.0 && data[|r.value.0|] == 0
    ensures r.Some? ==> r.value.1 == if |Split(data, 0)| >= 5 then Split(data, 0)[4] else []
  {
    var parts := Split(data, 0);
    SplitFields(data, 0);
    if |parts| < 4 then None
    else
      assert 0 in multiset(data);
      SplitFirstField(data, 0);
      Some((parts[0], if |parts| >= 5 then parts[4] else []))
  }

  /** An iTXt chunk as section 11.3.4.5 of the PNG specification lays it
      out: keyword, NUL, compression flag byte, compression method byte,
      language tag, NUL, translated keyword, NUL, text. */
  function EncodeItxt(key: seq<byte>, flag: byte, meth: byte, lang: seq<byte>,
                      translated: seq<byte>, text: seq<byte>): seq<byte>
  {
    key + [0] + [flag, meth] + lang + [0] + translated + [0] + text
  }

  /** Read as written, a standard uncompressed iTXt chunk (flag and method
      both 0) yields its translated keyword where the text belongs: the two
      zero bytes of flag and method count as separators, so the fifth field
      is the translated keyword. With keyword `k`, empty language and
      translated keyword and text `hi`, the value comes back empty. */
  lemma {:induction false} ItxtAsWrittenReadsTranslatedKeyword(key: seq<byte>, lang: seq<byte>,
                                                              translated: seq<byte>, text: seq<byte>)
    requires 0 !in key && 0 !in lang && 0 !in translated && 0 !in text
    ensures ParsePngItxtAsWritten(EncodeItxt(key, 0, 0, lang, translated, text)) == Some((key, translated))
  {
    var b4 := translated + [0] + text;
    var b3 := lang + [0] + b4;
    var b2 := [0] + b3;
    var b1 := [0] + b2;
    var d := EncodeItxt(key, 0, 0, lang, translated, text);
    assert d == key + [0] + b1;
    SplitNoSeparator(text, 0);
    SplitAtFirst(translated, 0, text);
    var p4 := [translated, text];
    assert Split(b4, 0) == p4;
    SplitAtFirst(lang, 0, b4);
    var p3 := [lang] + p4;
    assert Split(b3, 0) == p3;
    SplitAtFirst([], 0, b3);
    assert [] + [0] + b3 == b2;
    var p2 := [[]] + p3;
    assert Split(b2, 0) == p2;
    SplitAtFirst([], 0, b2);
    assert [] + [0] + b2 == b1;
    var p1 := [[]] + p2;
    assert Split(b1, 0) == p1;
    SplitAtFirst(key, 0, b1);
    var parts := [key] + p1;
    assert Split(d, 0) == parts;
    assert |parts| == 6 && parts[0] == key && parts[4] == translated;
  }

  /** The iTXt parser the layout calls for: the keyword up to the first NUL,
      two bytes of flag and method, the language tag and translated keyword
      each up to a NUL, and the rest is the text (left compressed if the flag
      says so, as the tool ignores compression). */
  function ParsePngItxt(data: seq<byte>): (r: Option<(seq<byte>, seq<byte>)>)
    ensures r.Some? ==> 0 !in r.value.0
    ensures r.Some? ==> exists f: byte, m: byte, l: seq<byte>, t: seq<byte> ::
                          0 !in l && 0 !in t && data == EncodeItxt(r.value.0, f, m, l, t, r.value.1)
  {
    match ParsePngText(data)
    case None => None
    case Some(kr) =>
      if |kr.1| < 2 then None
      else
        match ParsePngText(kr.1[2..])
        case None => None
        case Some(lr) =>
          match ParsePngText(lr.1)
          case None => None
          case Some(tr) =>
            ItxtFields(data, kr.0, kr.1, lr.0, lr.1, tr.0, tr.1);
            Some((kr.0, tr.1))
  }

  lemma ItxtFields(data: seq<byte>, key: seq<byte>, rest: seq<byte>, lang: seq<byte>, rest2: seq<byte>,
                   translated: seq<byte>, text: seq<byte>)
    requires data == key + [0] + rest && |rest| >= 2
    requires rest[2..] == lang + [0] + rest2 && rest2 == translated + [0] + text
    ensures data == EncodeItxt(key, rest[0], rest[1], lang, translated, text)
  {
    assert rest == [rest[0], rest[1]] + rest[2..];
  }

  lemma ItxtRoundTrip(key: seq<byte>, flag: byte, meth: byte, lang: seq<byte>,
                      translated: seq<byte>, text: seq<byte>)
    requires 0 !in key && 0 !in lang && 0 !in translated
    ensures ParsePngItxt(EncodeItxt(key, flag, meth, lang, translated, text)) == Some((key, text))
  {
    var rest2 := translated + [0] + text;
    var rest1 := lang + [0] + rest2;
    var rest := [flag, meth] + rest1;
    assert EncodeItxt(key, flag, meth, lang, translated, text) == key + [0] + rest;
    PngTextRoundTrip(key, rest);
    assert rest[2..] == rest1;
    PngTextRoundTrip(lang, rest2);
    PngTextRoundTrip(translated, text);
  }

  /** `parse_png_ztxt`: the key before the first NUL, one compression-method
      byte, and the inflated remainder. */
  function ParsePngZtxt(data: seq<byte>, inflate: seq<byte> -> Option<seq<byte>>): (r: Option<(seq<byte>, seq<byte>)>)
    ensures r.Some? ==> 0 !in r.value.0
    ensures r.Some? ==>
              exists pos :: 0 <= pos && pos + 2 <= |data| && r.value.0 == data[..pos] && data[pos] == 0 &&
                            inflate(data[pos + 2..]) == Some(r.value.1)
  {
    match IndexOf(data, 0)
    case None => None
    case Some(pos) =>
      if pos + 2 > |data| then None
      else
        match inflate(data[pos + 2..])
        case None => None
        case Some(text) => Some((data[..pos], text))
  }

  /** The metadata map built from the text chunks in file order; a later
      chunk with the same key replaces the earlier value. */
  function Metadata(chunks: seq<PngChunk>, inflate: seq<byte> -> Option<seq<byte>>): (m: map<seq<byte>, seq<byte>>)
    ensures (forall i :: 0 <= i < |chunks| ==> !IsTextChunk(chunks[i].ty)) ==> m == map[]
    decreases |chunks|
  {
    if |chunks| == 0 then map[]
    else
      var m := Metadata(chunks[..|chunks| - 1], inflate);
      match EntryOf(chunks[|chunks| - 1], inflate)
      case None => m
      case Some((k, v)) => m[k := v]
  }

  /** The (key, value) pair one chunk contributes to the metadata map:
      tEXt, iTXt and zTXt go to their parsers, other chunks give nothing. */
  function EntryOf(c: PngChunk, inflate: seq<byte> -> Option<seq<byte>>): (e: Option<(seq<byte>, seq<byte>)>)
    ensures e.Some? ==> IsTextChunk(c.ty) && 0 !in e.value.0
  {
    if !IsTextChunk(c.ty) then None
    else if c.ty == TEXT then ParsePngText(c.data)
    else if c.ty == ITXT then ParsePngItxt(c.data)
    else ParsePngZtxt(c.data, inflate)
  }

  predicate IsTextChunk(ty: ChunkType) {
    ty == TEXT || ty == ITXT || ty == ZTXT
  }

  lemma MetadataSnocOther(chunks: seq<PngChunk>, c: PngChunk, inflate: seq<byte> -> Option<seq<byte>>)
    requires !IsTextChunk(c.ty)
    ensures Metadata(chunks + [c], inflate) == Metadata(chunks, inflate)
  {
    assert (chunks + [c])[..|chunks|] == chunks;
  }

  lemma MetadataSnocText(chunks: seq<PngChunk>, key: seq<byte>, value: seq<byte>,
                         inflate: seq<byte> -> Option<seq<byte>>)
    requires 0 !in key
    ensures Metadata(chunks + [PngChunk(TEXT, key + [0] + value)], inflate) ==
            Metadata(chunks, inflate)[key := value]
  {
    var c := PngChunk(TEXT, key + [0] + value);
    assert (chunks + [c])[..|chunks|] == chunks;
    PngTextRoundTrip(key, value);
  }

  /** Appending a chunk to the list inserts its entry, when it has one,
      over whatever the key held before. */
  lemma MetadataSnoc(chunks: seq<PngChunk>, c: PngChunk, inflate: seq<byte> -> Option<seq<byte>>)
    ensures Metadata(chunks + [c], inflate) ==
            match EntryOf(c, inflate)
            case None => Metadata(chunks, inflate)
            case Some((k, v)) => Metadata(chunks, inflate)[k := v]
  {
    assert (chunks + [c])[..|chunks|] == chunks;
  }

  /** A text chunk's entry survives every later chunk that does not set the
      same key: the map holds the value of the last chunk naming a key. */
  lemma {:induction false} MetadataLastWins(chunks: seq<PngChunk>, c: PngChunk, later: seq<PngChunk>,
                                            key: seq<byte>, value: seq<byte>,
                                            inflate: seq<byte> -> Option<seq<byte>>)
    requires EntryOf(c, inflate) == Some((key, value))
    requires forall i :: 0 <= i < |later| ==> EntryOf(later[i], inflate).None? || EntryOf(later[i], inflate).value.0 != key
    ensures var m := Metadata(chunks + [c] + later, inflate);
            key in m && m[key] == value
    decreases |later|
  {
    if |later| == 0 {
      assert chunks + [c] + later == chunks + [c];
      MetadataSnoc(chunks, c, inflate);
    } else {
      var init := later[..|later| - 1];
      var last := later[|later| - 1];
      assert forall i :: 0 <= i < |init| ==> init[i] == later[i];
      MetadataLastWins(chunks, c, init, key, value, inflate);
      AppendLast(chunks + [c], later);
      MetadataKeepsKey(chunks + [c] + init, last, key, value, inflate);
    }
  }

  /** A chunk that does not set `key` leaves its value alone. */
  lemma MetadataKeepsKey(chunks: seq<PngChunk>, c: PngChunk, key: seq<byte>, value: seq<byte>,
                         inflate: seq<byte> -> Option<seq<byte>>)
    requires key in Metadata(chunks, inflate) && Metadata(chunks, inflate)[key] == value
    requires EntryOf(c, inflate).None? || EntryOf(c, inflate).value.0 != key
    ensures key in Metadata(chunks + [c], inflate) && Metadata(chunks + [c], inflate)[key] == value
  {
    MetadataSnoc(chunks, c, inflate);
  }

  /** A tEXt chunk `key\0value` is one such entry. */
  lemma TextEntry(key: seq<byte>, value: seq<byte>, inflate: seq<byte> -> Option<seq<byte>>)
    requires 0 !in key
    ensures EntryOf(PngChunk(TEXT, key + [0] + value), inflate) == Some((key, value))
  {
    PngTextRoundTrip(key, value);
  }

  /** The concatenated payload of the IDAT chunks, in order. */
  function IdatData(chunks: seq<PngChunk>): (d: seq<byte>)
    ensures |chunks| == 0 ==> d == []
    ensures (forall i :: 0 <= i < |chunks| ==> chunks[i].ty != IDAT) ==> d == []
  {
    if |chunks| == 0 then []
    else
      assert forall i :: 0 <= i < |chunks[1..]| ==> chunks[1..][i] == chunks[i + 1];
      (if chunks[0].ty == IDAT then chunks[0].data else []) + IdatData(chunks[1..])
  }

  /** The IDAT payload of two runs of chunks is the payload of the first
      followed by that of the second. */
  lemma {:induction false} IdatDataAppend(xs: seq<PngChunk>, ys: seq<PngChunk>)
    ensures IdatData(xs + ys) == IdatData(xs) + IdatData(ys)
  {
    if |xs| == 0 {
      assert xs + ys == ys;
    } else {
      assert (xs + ys)[1..] == xs[1..] + ys;
      IdatDataAppend(xs[1..], ys);
    }
  }

  /** `load_png` on the file's bytes: signature, chunk loop, trailing data,
      pixel decoding, metadata, and the inflated scanlines. */
  function LoadPng(file: seq<byte>, decode: seq<byte> -> Result<Decoded>,
                   inflate: seq<byte> -> Option<seq<byte>>): (r: Result<Image>)
    ensures r.Ok? ==> |file| >= 8 && file[..8] == PngSignature
    ensures r.Ok? ==> r.value.format == Png && |r.value.extradata| <= 1
    ensures r.Ok? ==> forall i :: 0 <= i < |r.value.extradata| ==> |r.value.extradata[i]| > 0
    ensures r.Ok? && decode(file).Ok? && |decode(file).value.rgba| == 4 * decode(file).value.width * decode(file).value.height
            ==> WellFormed(r.value)
  {
    if |file| < 8 then Err(EofMessage)
    else if file[..8] != PngSignature then Err("invalid png signature")
    else
      var parsed :- ReadChunks(file[8..]);
      var (chunks, foundIend, after) := parsed;
      var extradata := if foundIend && |after| > 0 then [after] else [];
      var decoded :- decode(file);
      var metadata := Metadata(chunks, inflate);
      match inflate(IdatData(chunks))
      case None => Err("decompress IDAT")
      case Some(imagedata) =>
        Ok(Image(Png, decoded.width, decoded.height, decoded.rgba, imagedata, metadata, chunks, extradata))
  }

  /** The trailing bytes after `IEND` become the one extradata segment. */
  lemma TrailingDataAfterIend(cs: seq<PngChunk>, iend: seq<byte>, crc: seq<byte>, extra: seq<byte>,
                              decode: seq<byte> -> Result<Decoded>, inflate: seq<byte> -> Option<seq<byte>>)
    requires forall i :: 0 <= i < |cs| ==> |cs[i].data| < 0x1_0000_0000 && cs[i].ty != IEND
    requires |iend| < 0x1_0000_0000 && |crc| == 4
    ensures var file := PngSignature + (EncodeChunks(cs, crc) + EncodeChunk(PngChunk(IEND, iend), crc) + extra);
            var r := LoadPng(file, decode, inflate);
            r.Ok? ==> r.value.chunks == cs + [PngChunk(IEND, iend)] &&
                      r.value.extradata == (if |extra| > 0 then [extra] else [])
  {
    var body := EncodeChunks(cs, crc) + EncodeChunk(PngChunk(IEND, iend), crc) + extra;
    var file := PngSignature + body;
    assert file[..8] == PngSignature;
    assert file[8..] == body;
    ChunkRoundTrip(cs, iend, crc, extra);
  }

  // ---------------------------------------------------------------------
  // BMP pixel array

  /** Bytes per stored row: the pixel bytes rounded up to a multiple of 4. */
  function RowSize(width: nat, bitsPerPixel: nat): nat {
    ((width * (bitsPerPixel / 8) + 3) / 4) * 4
  }

  lemma RowSizeBounds(width: nat, bitsPerPixel: nat)
    ensures var n := width * (bitsPerPixel / 8);
            RowSize(width, bitsPerPixel) % 4 == 0 &&
            n <= RowSize(width, bitsPerPixel) < n + 4
  {
    var n := width * (bitsPerPixel / 8);
    var q := (n + 3) / 4;
    assert n + 3 == 4 * q + (n + 3) % 4;
  }

  /** Rows in reverse order: row `y` of the result is row `height - 1 - y`. */
  function FlipRows(data: seq<byte>, rowSize: nat, height: nat): (r: seq<byte>)
    requires |data| == rowSize * height
    ensures |r| == |data|
  {
    if rowSize == 0 then data
    else
      seq(|data|, j requires 0 <= j < |data| => data[FlippedIndex(j, rowSize, height)])
  }

  /** Where byte `j` of the flipped array comes from: the same column of
      the mirrored row. */
  function FlippedIndex(j: nat, rowSize: nat, height: nat): (k: nat)
    requires rowSize > 0 && j < rowSize * height
    ensures k < rowSize * height
  {
    RowIndexInRange(j, rowSize, height);
    (height - 1 - j / rowSize) * rowSize + j % rowSize
  }

  lemma FlippedIndexOfCell(y: nat, x: nat, rowSize: nat, height: nat)
    requires y < height && x < rowSize
    ensures y * rowSize + x < rowSize * height
    ensures FlippedIndex(y * rowSize + x, rowSize, height) == (height - 1 - y) * rowSize + x
  {
    CellInRange(y, x, rowSize, height);
    ModUnique(y * rowSize + x, rowSize, y, x);
  }

  /** The offset of byte `x` of row `y`. */
  function CellIndex(y: nat, x: nat, rowSize: nat, height: nat): (k: nat)
    requires y < height && x < rowSize
    ensures k < rowSize * height
  {
    CellInRange(y, x, rowSize, height);
    y * rowSize + x
  }

  /** Byte `x` of row `y` lies inside the array. */
  lemma CellInRange(y: nat, x: nat, rowSize: nat, height: nat)
    requires y < height && x < rowSize
    ensures y * rowSize + x < rowSize * height
  {
    assert y * rowSize + x < y * rowSize + rowSize == (y + 1) * rowSize;
    MulMonotone(y + 1, height, rowSize);
  }

  lemma RowIndexInRange(j: nat, rowSize: nat, height: nat)
    requires rowSize > 0 && j < rowSize * height
    ensures j / rowSize < height
    ensures 0 <= (height - 1 - j / rowSize) * rowSize + j % rowSize < rowSize * height
  {
    var y, x := j / rowSize, j % rowSize;
    assert j == y * rowSize + x;
    assert y < height by {
      if y >= height {
        MulMonotone(height, y, rowSize);
      }
    }
    CellInRange(height - 1 - y, x, rowSize, height);
  }

  lemma FlippedIndexInvolution(j: nat, rowSize: nat, height: nat)
    requires rowSize > 0 && j < rowSize * height
    ensures FlippedIndex(FlippedIndex(j, rowSize, height), rowSize, height) == j
  {
    RowIndexInRange(j, rowSize, height);
    var y, x := j / rowSize, j % rowSize;
    assert j == y * rowSize + x;
    FlippedIndexOfCell(y, x, rowSize, height);
    FlippedIndexOfCell(height - 1 - y, x, rowSize, height);
  }

  /** Row `y` of the flipped array is row `height - 1 - y` of the original. */
  lemma FlipRowsCell(data: seq<byte>, rowSize: nat, height: nat, y: nat, x: nat)
    requires |data| == rowSize * height && y < height && x < rowSize
    ensures FlipRows(data, rowSize, height)[CellIndex(y, x, rowSize, height)] ==
            data[CellIndex(height - 1 - y, x, rowSize, height)]
  {
    FlippedIndexOfCell(y, x, rowSize, height);
  }

  /** Flipping twice restores the rows. */
  lemma FlipRowsInvolution(data: seq<byte>, rowSize: nat, height: nat)
    requires |data| == rowSize * height
    ensures FlipRows(FlipRows(data, rowSize, height), rowSize, height) == data
  {
    if rowSize > 0 {
      var f := FlipRows(data, rowSize, height);
      var g := FlipRows(f, rowSize, height);
      forall j | 0 <= j < |data|
        ensures g[j] == data[j]
      {
        FlippedIndexInvolution(j, rowSize, height);
      }
    }
  }

  /** The signed 32-bit reading of a little-endian value. */
  function SignedI32(v: nat): int {
    if v >= 0x8000_0000 then v - 0x1_0000_0000 else v
  }

  /** A bottom-up array turned top-down; a top-down one kept. */
  function OrientRows(pixels: seq<byte>, rowSize: nat, height: nat, bottomUp: bool): (r: seq<byte>)
    requires |pixels| == rowSize * height
    ensures |r| == |pixels|
    ensures (if bottomUp then FlipRows(r, rowSize, height) else r) == pixels
  {
    if bottomUp then
      FlipRowsInvolution(pixels, rowSize, height);
      FlipRows(pixels, rowSize, height)
    else pixels
  }

  /** The `total` bytes at `offset`, oriented top-down. */
  function PixelArray(file: seq<byte>, offset: nat, rowSize: nat, height: nat, bottomUp: bool): (r: Result<seq<byte>>)
    ensures r.Ok? ==> |r.value| == rowSize * height
    ensures r.Ok? && rowSize * height > 0 ==>
              offset + rowSize * height <= |file| &&
              (if bottomUp then FlipRows(r.value, rowSize, height) else r.value) ==
              file[offset..offset + rowSize * height]
  {
    var total := rowSize * height;
    if total > 0 && offset + total > |file| then Err(EofMessage)
    else
      var pixels: seq<byte> := if total == 0 then [] else file[offset..offset + total];
      Ok(OrientRows(pixels, rowSize, height, bottomUp))
  }

  /** `read_bmp_pixel_data`: check `BM`, read the pixel-array offset, the
      bits per pixel and the signed height, read `row_size * height` bytes at
      the offset, and turn a bottom-up array (positive height) top-down, so
      that flipping a bottom-up result gives back the stored rows. */
  function ReadBmpPixelData(file: seq<byte>, width: u32, height: u32): (r: Result<seq<byte>>)
    ensures r.Ok? ==> |file| >= 54 && file[0] == 0x42 && file[1] == 0x4D
    ensures r.Ok? ==> var rs := RowSize(width, LittleEndian(file[28..30]));
                      var offset := LittleEndian(file[10..14]);
                      var bottomUp := SignedI32(LittleEndian(file[22..26])) > 0;
                      |r.value| == rs * height &&
                      (rs * height > 0 ==>
                         offset + rs * height <= |file| &&
                         (if bottomUp then FlipRows(r.value, rs, height) else r.value) ==
                         file[offset..offset + rs * height])
  {
    if |file| < 14 then Err(EofMessage)
    else if file[..2] != [0x42, 0x4D] then Err("Not a BMP file")
    else if |file| < 54 then Err(EofMessage)
    else
      assert file[0] == file[..2][0] && file[1] == file[..2][1];
      var offset := LittleEndian(file[10..14]);
      var bottomUp := SignedI32(LittleEndian(file[22..26])) > 0;
      var rs := RowSize(width, LittleEndian(file[28..30]));
      PixelArray(file, offset, rs, height, bottomUp)
  }

  /** `load_bmp`: decode the pixels, then read the raw pixel array. */
  function LoadBmp(file: seq<byte>, decode: seq<byte> -> Result<Decoded>): (r: Result<Image>)
    ensures r.Ok? ==> r.value.format == Bmp && r.value.chunks == [] && r.value.extradata == [] &&
                      r.value.metadata == map[]
    ensures r.Ok? ==> decode(file).Ok? &&
                      ReadBmpPixelData(file, decode(file).value.width, decode(file).value.height) == Ok(r.value.imagedata)
  {
    var decoded :- decode(file);
    var imagedata :- ReadBmpPixelData(file, decoded.width, decoded.height);
    Ok(Image(Bmp, decoded.width, decoded.height, decoded.rgba, imagedata, map[], [], []))
  }
}
