# zsteg-rust core in Dafny

A model of the core of zsteg-rust, a detector of data hidden in the low
bits of PNG and BMP images, with proofs about it. The model covers:

- the option syntax of `src/opts.rs`: bit-width lists, masks, ranges and the
  comma-separated parameter string;
- the bit extractor of `src/extractor.rs`: the bit packer with its two
  placement rules, the pixel walk in row-major and column-major order, the
  byte walk over raw scanlines, channel patterns, prime sampling, the zero-bit
  shift and the inversion;
- the detectors and the scan driver of `src/checker.rs`: repeated byte,
  whole text, first string, zlib, `file`, OpenStego and wbStego, the
  first-match chain `data2result`, the result cache and title set of
  `process_result`, and the sweep over order × prime × width × channel × bit
  order;
- the renderers of `src/result.rs` and `src/hexdump.rs`: the byte escaper,
  the Zlib and wbStego `Display` layouts, and the hex dump;
- the loader helpers of `src/imageio.rs`: the PNG chunk loop, the tEXt, iTXt
  and zTXt parsers, the metadata map, the BMP row size and the bottom-up row
  flip.

Bytes are the integers 0..255, and bit operations are written arithmetically
(`>> k` is division by 2^k, a mask is `% 2^k`). The mutable state of the Rust
code becomes immutable records threaded through pure functions: the packer
`(out, cur, cur_bits)` and the scan state `(cache, wastitles, found,
need_cr, results)`.

Three things the Rust code calls out to become function parameters:

- `describe`: the `file` program's description of a buffer;
- `inflate`: zlib decompression;
- `decode`: the image crate's RGBA decoder.

The iteration order of the metadata map is also a parameter.

The files follow the program's structure:

- `basics`, `bitmath`, `text`, `seqs`: shared helpers;
- `opts`: `src/opts.rs`;
- `bitpacker`, `primes`, `shift`, `extractor`: `src/extractor.rs`;
- `detectors`, `checker`: `src/checker.rs`;
- `render`, `hexdump`: `src/result.rs` and `src/hexdump.rs`;
- `imageio`: `src/imageio.rs`.

## Model

| member | source | states |
|---|---|---|
| Opts.ParseBitsSingle | src/opts.rs:106-124 | `"1"` is 1. After `0x` or `0b`, and for a string of 0s and 1s only, the result is `0x100 + (v & 0xFF)` of the u16 the digits spell in base 16 or 2, and an error exactly when those digits do not spell a u16. Any other string is the decimal u16 it spells, and an error exactly when it spells none. Every mask lies in 0x100..0x1FF. |
| Opts.HexMaskRoundTrip | src/opts.rs:110-112 | `0x` followed by the lower-case hex of any u16 n gives the mask `0x100 + n % 0x100`. |
| Opts.ParseBitsSingleDecimal | src/opts.rs:118-122 | Every decimal from 2 to 65535 not written with 0/1 digits alone is read back as itself. |
| Opts.TenIsAMask | src/opts.rs:118-120 | `"10"` is the mask 0x102, not the count ten. |
| Opts.SingleDigit | src/opts.rs:106-124 | A single digit 1..8 is the count it names. |
| Opts.Range | src/opts.rs:97 | `a..=b` has b-a+1 members, the i-th being a+i. |
| Opts.Dedup | src/opts.rs:102 | The result has no two equal neighbours, holds exactly the input's values, keeps the first and the last element and is no longer than the input. |
| Opts.DedupMergesEqualHead | src/opts.rs:102 | Two equal leading neighbours merge: the result is that of the list without its first element. |
| Opts.DedupKeepsDistinctHead | src/opts.rs:102 | A first element unlike its neighbour is kept in front of the result for the rest. |
| Opts.DedupSnoc | src/opts.rs:102 | Appending a value drops it exactly when it equals the list's last element, and otherwise adds it at the end. |
| Opts.DedupScanContinues | src/opts.rs:102 | Scanning the rest of a list left to right, keeping a value only when it differs from the last kept one, continues the deduplication of the part already done. |
| Opts.DedupIsScan | src/opts.rs:102 | Deduplication equals the left-to-right scan that keeps a value only when it differs from the last kept one, as `Vec::dedup` does. |
| Opts.DedupKeepsDistinctNeighbours | src/opts.rs:102 | A list without equal neighbours is left unchanged. |
| Opts.DedupIdempotent | src/opts.rs:102 | Deduplicating twice equals deduplicating once. |
| Opts.DedupOnlyNeighbours | src/opts.rs:102 | Only neighbours merge: `[1,1,2,1]` becomes `[1,2,1]`. |
| Opts.ParseBitsItem | src/opts.rs:84-100 | `all`, in any case, gives 1..8. An item with `-` parses both ends; it is an error when either end fails or lies outside 1..8, and otherwise gives `Range(min, max)` of the two ends. Any other item gives its single value, or the error of `parse_bits_single`. |
| Opts.RangeItem | src/opts.rs:89-97 | `a-b` with both ends in 1..8 gives `Range(min, max)`, in either order. |
| Opts.RangeRejectsMask | src/opts.rs:94-96 | A mask as a range end (`1-0x3`) is an error. |
| Opts.ParseBitsItems | src/opts.rs:83-101 | The list parses exactly when every trimmed item parses, and then yields the items' widths concatenated in order. |
| Opts.ParseBitsItemsAppend | src/opts.rs:83-101 | The items of `xs + ys` parse exactly when those of both parts do, and then give the widths of `xs` followed by those of `ys`. |
| Opts.ParseBits | src/opts.rs:75-104 | The input parses exactly when every trimmed comma-separated item of it, less a final `p`, parses. The widths are then `dedup` of the items' widths in order, so no two neighbours are equal. The pixel-align flag is set exactly when the trimmed input ends in `p`. |
| Opts.ParseBitsOneItem | src/opts.rs:75-104 | A trimmed string with no comma and no final `p` parses as its one item, deduplicated, with the flag clear. |
| Opts.ParseBitsAll | src/opts.rs:85-87 | `all` gives the widths 1..8 and no pixel alignment. |
| Opts.DecodeToken | src/opts.rs:129-175 | A decoded token changes only the fields the parameter string may set. An alignment flag once set stays set. |
| Opts.PrimeToken | src/opts.rs:134 | `prime` sets prime sampling to Only, clears the extra checks and changes nothing else. |
| Opts.ZlibToken | src/opts.rs:135 | `zlib` sets the zlib flag and changes nothing else. |
| Opts.BitsToken | src/opts.rs:139-160 | A `b<digits>[p]` or `<digits>b` token succeeds exactly when its width list parses. It then sets the widths to that list and clears the extra checks. It asks for alignment exactly when it is a `b` token ending in `p`. |
| Opts.TokenAlignment | src/opts.rs:143-146 | After a token, the alignment flag is set exactly when it was set before or the token asks for alignment. |
| Opts.DecodeTokensAlignment | src/opts.rs:129-177 | After a token list, the alignment flag is set exactly when it was set before or some token asks for alignment. |
| Opts.DecodeTokenRejects | src/opts.rs:131-174 | A token is rejected exactly when no rule claims it, or when a bits token's width list fails to parse. |
| Opts.ChannelToken | src/opts.rs:169-173 | A token of r/g/b/a letters only that no earlier rule claims (a bare `b` included) selects those channels and clears the extra checks. |
| Opts.OrderToken | src/opts.rs:164-168 | `xy`, `yx`, `yb`, `by`, in any letter case, set the order to that token. |
| Opts.MsbToken | src/opts.rs:133 | `msb` sets the bit order to Msb and nothing else. |
| Opts.LsbToken | src/opts.rs:132 | `lsb` sets the bit order to Lsb and nothing else. |
| Opts.DecodeTokens | src/opts.rs:129-177 | Decoding a token list keeps the untouchable fields and a set alignment flag. |
| Opts.DecodeTokensSnoc | src/opts.rs:129-177 | Decoding `xs + [t]` is decoding `xs`, then `t`; an error stops the fold. |
| Opts.LastBitOrderWins | src/opts.rs:129-133 | A final `msb` or `lsb` token decides the bit order, whatever came before. |
| Opts.DecodeParamString | src/opts.rs:126-180 | The result differs from `Options::default()` only in the fields the parameter string may set. The alignment is None or Only. |
| Opts.ParamTokens | src/opts.rs:129-130 | The tokens are the comma-separated fields of the string, each trimmed, one token per field. |
| Opts.ParamStringAlignment | src/opts.rs:176-179 | A decoded string has pixel alignment Only exactly when one of its tokens is a `b` bits token ending in `p`. |
| Opts.OneTokenParamString | src/opts.rs:126-180 | A trimmed string without commas decodes as its one token on the defaults, with alignment Only when that token asked for it. |
| Opts.BitOrderParamString | src/opts.rs:51-72 | `lsb` (or `msb`) decodes to `Options::default()` with only the bit order set: verbose 0, limit 256, order Auto, steps 1, no channels, widths, prime, alignment or shift, no invert, the `file` check on, no strings, minimum string length 8, extra checks on, zlib off. |
| Opts.EmptyParamStringRejected | src/opts.rs:129-174 | The empty string is one empty token, which no rule accepts. |
| BitPacker.PushBit | src/extractor.rs:241-258 | One bit adds exactly one to `8·|out| + cur_bits`, and the bytes already out are kept. |
| BitPacker.PushTopBits | src/extractor.rs:230-259 | Pushing k bits adds k to `8·|out| + cur_bits` and keeps the output prefix. |
| BitPacker.PushNBits | src/extractor.rs:227-260 | `push_nbits` consumes `min(nb as u8, 8)` bits and keeps the output prefix. |
| BitPacker.EffectiveWidth | src/extractor.rs:222 | A width above 8 becomes a count of at most 8; widths up to 8 are kept. |
| BitPacker.PushBits | src/extractor.rs:220-225 | Pushing a sample at several widths only appends output. |
| BitPacker.PlaceExtendsGroup | src/extractor.rs:242-251 | Placing a bit under either rule turns the value of the current group t into the value of t + [bit]. Lsb puts the first bit highest; Msb ORs each bit in at position `cur_bits`. |
| BitPacker.PushBitRepresents | src/extractor.rs:241-259 | If the packer represents bit stream s, after one push it represents s + [b]: full bytes packed, the rest in `cur`. |
| BitPacker.PushTopBitsRepresents | src/extractor.rs:230-259 | Pushing the top-down bits k-1..0 of v extends the represented stream by exactly those bits. |
| BitPacker.PushStreamRepresents | src/extractor.rs:241-259 | Pushing any bit stream t extends the represented stream by t. |
| BitPacker.PushStreamAppend | src/extractor.rs:241-259 | Pushing a + b equals pushing a, then b. |
| BitPacker.PushStreamFromEmpty | src/extractor.rs:241-259 | From an empty packer, the output is the packing of the stream's whole bytes. |
| BitPacker.PushTopBitsStream | src/extractor.rs:230-238 | `push_nbits` pushes exactly the bits of v from bit k-1 down to bit 0. |
| BitPacker.PushNBitsStream | src/extractor.rs:227-260 | From empty, `push_nbits` leaves whole bytes packed in `out` and the remaining bits' value in `cur`, with `cur_bits` bits pending. |
| BitPacker.BitsOfIndex | src/extractor.rs:231-237 | The i-th extracted bit is bit k-1-i of the sample. |
| BitPacker.FullByte | src/extractor.rs:241-259 | Eight bits from an empty packer emit exactly one byte and leave nothing pending. |
| BitPacker.LsbFullByteIsIdentity | src/extractor.rs:243-246 | Under Lsb, a full byte from empty is emitted unchanged. |
| BitPacker.MsbFullByteIsReversal | src/extractor.rs:247-250 | Under Msb, a full byte from empty is emitted bit-reversed. |
| BitPacker.MaskWidth | src/extractor.rs:222 | The mask 0x188 counts as width 2. |
| BitPacker.MaskExample | src/extractor.rs:222-223 | Mask 0x188 extracts bits 1 and 0 of the sample, not bits 7 and 3. |
| Primes.TrialDivisionCorrect | src/extractor.rs:278-284 | `is_prime(n)` holds exactly when n is prime. |
| Primes.OddTrialsCorrect | src/extractor.rs:281-283 | The odd trial-division loop from d decides primality, given no divisor below d. |
| Shift.Combine | src/extractor.rs:291-292 | One output byte is the byte's high bits plus the carry shifted to the top. The sum stays below 256. |
| Shift.ShiftAsWritten | src/extractor.rs:289-294 | The reverse-order carry loop preserves length. |
| Shift.ShiftAsWrittenIndex | src/extractor.rs:290-294 | As written, output byte i takes its top bits from the low bits of byte i+1, the byte after it. |
| Shift.ShiftPrependZeroBitsAsWritten | src/extractor.rs:286-296 | The shift as written preserves length. |
| Shift.ShiftAsWrittenCarriesBackward | src/extractor.rs:290-293 | With shift 1, `[0x01,0x00]` becomes `[0x00,0x00]` as written, where prepending one zero bit gives `[0x00,0x80]`. |
| Shift.ShiftPrependZeroBits | src/extractor.rs:286-296 | The corrected shift preserves length and is the identity when shift % 8 == 0. |
| Shift.ShiftForwardValue | src/extractor.rs:289-294 | Read as one big-endian number, the forward-carry loop divides (carry·2^(8n) + data) by 2^r. |
| Shift.ShiftPrependsZeroBits | src/extractor.rs:116-117 | As a big-endian number, the shifted output is the input divided by 2^(shift % 8): r zero bits in front, the tail cut to the same length. |
| Shift.Invert | src/extractor.rs:119 | XOR with 0xFF preserves length. |
| Shift.InvertInvolution | src/extractor.rs:119 | Inverting twice gives back the input. |
| Shift.InvertFlipsBits | src/extractor.rs:119 | Every bit of every byte is flipped. |
| Extractor.ParseChannelsPattern | src/extractor.rs:182-196 | An even-length pattern of (channel letter, digit) pairs splits into channels and widths that interleave back to it. Any other pattern gives all its characters as channels and no widths. |
| Extractor.PairFields | src/extractor.rs:186-192 | The pair split yields equally many channel letters and digit widths, and they interleave back to the pattern. |
| Extractor.InterleaveIsPairPattern | src/extractor.rs:185 | Channels interleaved with digit widths always form a pair pattern. |
| Extractor.InterleaveInjective | src/extractor.rs:185-192 | Different channel/width lists never interleave to the same pattern. |
| Extractor.PairPatternRoundTrip | src/extractor.rs:182-196 | Parsing an interleaved pattern returns exactly its channels and widths. |
| Extractor.PushBitsStream | src/extractor.rs:220-225 | `push_bits` pushes the sample's top-down bits for each width in turn, each width above 8 reduced to its popcount. |
| Extractor.PushChannels | src/extractor.rs:200-217 | Processing a pixel's channels only appends output. |
| Extractor.PushChannelsStream | src/extractor.rs:198-218 | A pixel pushes, channel by channel, its per-channel width (1 when missing) when widths are given, else each global width. |
| Extractor.VisitPixel | src/extractor.rs:198-199 | Visiting a pixel (or skipping one prime sampling excludes) only appends output. |
| Extractor.PixelWalk | src/extractor.rs:106-112 | The pixel walk only appends output. |
| Extractor.PixelWalkStream | src/extractor.rs:96-112 | Without a limit, the pixel walk pushes the concatenated bits of the admitted pixels. |
| Extractor.PixelWalkLimitTruncates | src/extractor.rs:100-110 | With a limit, the output is a prefix of the unlimited output. It is all of it unless the limit was reached. |
| Extractor.RowMajorCells | src/extractor.rs:106-108 | The row-major walk visits width·height cells, all inside the image. |
| Extractor.RowMajorPosition | src/extractor.rs:106-108 | Cell (y, x) is visited at step y·w + x. |
| Extractor.ColumnMajorCells | src/extractor.rs:96-98 | The column-major walk visits width·height cells, all inside the image. |
| Extractor.ColumnMajorPosition | src/extractor.rs:96-98 | Cell (y, x) is visited at step x·h + y. |
| Extractor.MakeRange | src/extractor.rs:139-145 | Every integer between start and end inclusive, ascending when start ≤ end, otherwise descending. |
| Extractor.LastLetterWins | src/extractor.rs:158-177 | Each axis spans 0..max. The last `b`/`B` (resp. `y`/`Y`) in the token decides its direction, and uppercase means backward. |
| Extractor.ByteCells | src/extractor.rs:57-93 | The byte walk visits |xs|·|ys| positions. |
| Extractor.ByteWalk | src/extractor.rs:59-93 | The byte walk only appends output. |
| Extractor.ByteWalkStream | src/extractor.rs:61-93 | Without a limit, the byte walk pushes the bits of the bytes the prime filter selects, in visiting order. |
| Extractor.ByteWalkStopsAtEnd | src/extractor.rs:67-83 | The walk stops entirely at the first position past the data. Later positions, even in-range ones, are never read. |
| Extractor.ByteWalkLimitTruncates | src/extractor.rs:69-73 | With a limit, the output is a prefix of the unlimited output. It is all of it unless the limit was reached. |
| Extractor.ByteWalkWithinLimit | src/extractor.rs:69-73 | With one width and a positive limit, the output never exceeds the limit. |
| Extractor.SelectedBytesInside | src/extractor.rs:59-74 | Without prime sampling every visited byte is read. With it, a byte is read when its running index, counting in-bounds cells from 0, is prime. |
| Extractor.FirstByteToken | src/extractor.rs:41 | The byte walk uses the first token containing `b`/`B`; there is none exactly when no token has one. |
| Extractor.AnyYxCheck | src/extractor.rs:95 | True exactly when some token equals `yx` ignoring case. |
| Extractor.TraversalOf | src/extractor.rs:34-113 | Byte walk exactly when some explicit token holds `b`/`B`. Column-major exactly when none does and some token is `yx` in any case. Row-major otherwise. |
| Extractor.Extract | src/extractor.rs:5-121 | Post-processing preserves the walk's length. It is the identity when there is no invert and the shift is absent or a multiple of 8. |
| Extractor.RawExtractLimitTruncates | src/extractor.rs:24-113 | With a limit, the raw extraction is a prefix of the unlimited one, and all of it unless the limit was reached. |
| Extractor.ExtractInvert | src/extractor.rs:116-119 | Inversion is the last step: inverting the inverted extraction gives the plain one. |
| Extractor.ExtractIsPackedStream | src/extractor.rs:95-113 | Without limit, shift or invert, a pixel-walk extraction is the packing of the walk's bit stream, cut to whole bytes. |
| Extractor.CaseVariantTraversal | src/extractor.rs:95-113 | A case variant of `xy` or `yx` selects the same walk as the lower-case token. |
| Extractor.SameTraversalSameExtract | src/extractor.rs:34-113 | Two option sets that differ only in their order give the same output when they select the same walk. |
| Extractor.CaseVariantsExtractAlike | src/extractor.rs:95-113 | `XY`, `Xy`, `xY` extract the same bytes as `xy`, and `YX`, `yX`, `Yx` the same as `yx`. |
| Extractor.OrderStringNamesTraversal | src/extractor.rs:123-137 | The title names `xy` for a row-major walk and `yx` for a column-major one. For a byte walk it names the byte token, unless a `yx` token is also present. |
| Extractor.JoinNumbersSplit | src/extractor.rs:17 | The `/`-joined width list splits back into the decimal widths. |
| Extractor.ExtractTitleFields | src/extractor.rs:15-21 | The title splits on commas into `b` plus the `/`-joined widths, the channel letters, `lsb` or `msb`, and the order name, when channels and order hold no comma. |
| Detectors.DetectOneChar | src/checker.rs:287-293 | Some exactly when the buffer is non-empty and all its bytes are equal; the result is `OneChar(data[0], len)`. |
| Detectors.OneCharOfRepeat | src/checker.rs:287-293 | n copies of b, n > 0, give `OneChar(b, n)`. |
| Detectors.WholeTextCheck | src/checker.rs:328-334 | Some exactly when the buffer reaches the threshold and every byte is 0x20..0x7E, CR, LF or TAB. |
| Detectors.StringsFirst | src/checker.rs:295-314 | The result is the earliest maximal printable run of at least `min_len` bytes, with its offset; a run reaching the end counts. None when every run is shorter. |
| Detectors.StringsScanCorrect | src/checker.rs:298-313 | The scanning loop keeps the invariant that no qualifying run starts before the open run or the cursor. |
| Detectors.ZlibTry | src/checker.rs:316-326 | The result is the first offset below min(len, 256) whose inflation is non-empty, with the inflated data and the slice size. None when no offset inflates. |
| Detectors.FileCheck | src/file_cmd.rs:35-64 | Some only when enabled, the buffer has ≥ 5 bytes and the trimmed description is non-empty and starts with no ignored prefix. Every such case gives Some. |
| Detectors.FindFrom | src/checker.rs:461 | The first position at or after i where the pattern occurs, or None when there is none. |
| Detectors.ParseOpenStegoHeader | src/checker.rs:464-501 | Some exactly when 9 header bytes follow the magic. The version, the little-endian `data_len`, `channel_bits`, `fname_len`, compress and encrypt are the bytes at offsets 0, 1..4, 5, 6, 7 and 8. The file name is the `fname_len` bytes after the header when they are all there, and empty otherwise. |
| Detectors.CheckOpenStego | src/checker.rs:458-502 | The header is read after the first occurrence of `OPENSTEGO`; there is no result without one. |
| Detectors.OpenStegoHeaderRoundTrip | src/checker.rs:469-501 | Encoding version, LE `data_len`, `channel_bits`, `fname_len`, compress, encrypt and the name, then parsing, returns those fields. |
| Detectors.OpenStegoAfterPrefix | src/checker.rs:461-466 | With the magic after an `O`-free prefix, the header read is the one after that magic. |
| Detectors.CheckWbStego | src/checker.rs:361-456 | A result implies the buffer passes the size, length and zero-tail checks. It carries the 24-bit LE size and a ≤ 30-byte preview from an offset ≥ 4. An extension is bytes 3..6, valid and without a cipher. |
| Detectors.CheckWbStegoBranches | src/checker.rs:361-456 | A buffer that passes the size, length and zero-tail checks gives: the encrypted layout when `00 FF n` is followed by more than n bytes; else, for a control byte ≥ 0x40, the preview from offset 4, labelled `wbStego 2.x/3.x` when ≥ 0x80; else, for a valid extension, that extension and the preview from offset 6; else nothing. |
| Detectors.WbStegoEncryptedRoundTrip | src/checker.rs:391-413 | Size, `00 FF n`, an n-byte header and a payload give the cipher named by the header's first byte (`unknown #0` when n = 0) and the payload preview. |
| Detectors.WbStegoControlByteRoundTrip | src/checker.rs:416-434 | A control byte with a top-two bit set gives the preview from offset 4. It is labelled `wbStego 2.x/3.x` exactly when the top bit is set. |
| Detectors.WbStegoExtRoundTrip | src/checker.rs:436-453 | A valid extension (first byte below 0x40) gives that extension and the preview from offset 6. |
| Detectors.Data2ResultFirstMatch | src/checker.rs:336-359 | The chain answers with the first detector that answers, in the order one-char, OpenStego, wbStego (only when the scan's bit order is `lsb`), whole text, file, zlib, strings. It says nothing only when all of them do. |
| Detectors.Data2Result | src/checker.rs:336-359 | The classification is the first answer of the detector list, and nothing only when every detector says nothing. |
| Detectors.RepeatedByteWins | src/checker.rs:337 | A buffer of one repeated byte is always classified as OneChar. |
| Detectors.EmptyBuffer | src/checker.rs:336-359 | The empty buffer is empty whole text when `min_str_len ≤ 2`, otherwise nothing. |
| Checker.ProcessResult | src/checker.rs:226-280 | A cached buffer leaves the state unchanged, and the call returns `verbose > 1`. A new buffer is cached under its title. Titles and flags are untouched. |
| Checker.ProcessResultExtends | src/checker.rs:226-280 | `process_result` only ever appends to the results. |
| Checker.ProcessResultOutcome | src/checker.rs:238-279 | A result is appended exactly when the buffer is new, it classifies, and either verbose > 0 or the result is not OneChar. The call returns true exactly when a result was appended or verbose > 1. |
| Checker.ProcessResultKeepsFirstTitle | src/checker.rs:228-238 | The cache keeps the first title under which a buffer was seen, and never changes an existing entry. |
| Checker.LocalOptions | src/checker.rs:174-179 | A combination's options keep the scan's verbosity, limit, shift and invert. |
| Checker.TitleJoin | src/checker.rs:162-168 | A title is its fields joined with commas: `b` and the width, the channel when there is one, the bit order, the order and `prime` when sampling primes. |
| Checker.TitleFields | src/checker.rs:198-205 | A title whose channel and order hold no comma splits on commas back into exactly those fields. |
| Checker.LocalConfig | src/checker.rs:211-216 | A combination's walk reads exactly its own width, bit order, prime flag and channel (`rgb` for the byte walk). |
| Checker.RunCombo | src/checker.rs:197-223 | A seen title changes nothing. Otherwise the title is recorded, at most one result is appended, and `found` is never cleared. |
| Checker.Sweep | src/checker.rs:118-142 | The sweep records every combination's title, keeps earlier results and never clears `found`. |
| Checker.SweepOneResultPerTitle | src/checker.rs:170-172 | Over a sweep, results grow by no more than the number of new titles. |
| Checker.SweepSeenIsIdentity | src/checker.rs:207-209 | Combinations whose titles were all seen change nothing. |
| Checker.SweepIdempotent | src/checker.rs:170-172 | Sweeping the same combinations twice equals sweeping them once. |
| Checker.BoLayer | src/checker.rs:155-161 | The bit-order loop yields exactly the combinations with those other parts and a listed bit order (both when unset). |
| Checker.ChLayer | src/checker.rs:126-139 | The channel loop adds exactly the channel choices: none for a byte-walk order, each listed channel otherwise. |
| Checker.BitsLayer | src/checker.rs:125 | The width loop adds exactly the listed widths. |
| Checker.PrimeLayer | src/checker.rs:119-124 | The prime loop adds exactly the prime values of the prime setting. |
| Checker.ChannelChoicesMember | src/checker.rs:126-139 | A byte-walk order has no channel. A pixel order has exactly the given channels, or `r,g,b,rgb,bgr` by default. |
| Checker.SweepCombosMember | src/checker.rs:118-142 | A combination is swept exactly when its order, prime value, width, channel choice and bit order are each on their lists. |
| Checker.CheckRunsEveryCombo | src/checker.rs:118-142 | After `check`, every combination on the lists has had its title recorded. |
| Checker.AllOrdersBmp | src/checker.rs:100-106 | For BMP the `all` order set is the PNG set plus `bY` in front. |
| Checker.AllOrdersPngPixelWalk | src/checker.rs:103-105 | The PNG `all` order set holds only pixel-walk orders. |
| Checker.RunComboCaches | src/checker.rs:218-238 | After a combination runs under a new title, its extraction is in the cache. |
| Checker.RunComboCachedAddsNothing | src/checker.rs:228-236 | A combination whose extraction is cached adds no result. |
| Checker.CaseVariantAddsNothing | src/checker.rs:228-238 | Once `xy` (or `yx`) has run, a case variant with the same other settings adds no result: its stream is identical and the cache collapses it. |
| Checker.MetadataPhase | src/checker.rs:37-43 | The metadata phase keeps earlier results and never clears `found`. |
| Checker.ImageDataPhase | src/checker.rs:45-57 | The image-data phase bypasses the cache and the title set, and never clears `found`. |
| Checker.ExtraDataPhase | src/checker.rs:59-87 | The extra-data phase bypasses the cache and sets `found` whenever some segment is non-empty. |
| Checker.ChunkPhase | src/checker.rs:89-96 | The chunk phase keeps earlier results and never clears `found`. |
| Checker.ProcessResultSound | src/checker.rs:243-253 | `process_result` keeps two facts: at verbosity ≤ 0 there is no OneChar result, and any result implies `found`. |
| Checker.Check | src/checker.rs:27-151 | Given the metadata keys in some iteration order, each key once: at verbosity ≤ 0, `check` returns no OneChar result; whenever it returns a result, `found` is set, so "nothing" is not reported. |
| Render.EscapeByte | src/result.rs:8-21 | Each byte escapes to 1..4 printable ASCII characters. |
| Render.EscapeBytes | src/result.rs:5-25 | The escaped string is quoted, all printable ASCII, and between n+2 and 4n+2 long. |
| Render.UnescapeByte | src/result.rs:8-21 | Each escape (named, `\xHH` with upper-case hex, or plain) reads back as its byte. |
| Render.UnescapeBodyRoundTrip | src/result.rs:7-22 | Unescaping the escaped body returns the bytes. |
| Render.EscapeRoundTrip | src/result.rs:5-25 | Unquoting the escaped string returns the bytes. |
| Render.ZlibDisplayIgnoresSize | src/result.rs:74-78 | The Zlib display does not depend on the `size` field; it prints the data length. |
| Render.ZlibTailMarksCut | src/result.rs:65-78 | The tail after the preview starts with `...` exactly when the data is longer than 100 bytes. |
| Render.ZlibDisplayPreview | src/result.rs:65-78 | The display is `zlib: data=` + a quoted string that unquotes to the first ≤ 100 bytes. `...` follows exactly when there are more than 100. |
| Render.WbStegoPartNames | src/result.rs:88-103 | The parts are, in order: size, ext if present, data, even if set, enc if present. |
| Render.WbStegoDataPart | src/result.rs:92-95 | The data part is `data=` + a quoted string that unquotes to the preview, then `...`. |
| Hexdump.EffectiveLimit | src/hexdump.rs:3 | The dumped length is the data length, or the limit when it is smaller and non-zero. |
| Hexdump.AsciiChar | src/hexdump.rs:15-16 | A printable byte shows as itself, anything else as `.`. |
| Hexdump.HexSlot | src/hexdump.rs:10 | Every hex slot is 3 characters ending in a space. |
| Hexdump.HexSlotValue | src/hexdump.rs:10 | A slot inside the dump holds the byte in two hex digits; a slot past it is blank. |
| Hexdump.HexColumns | src/hexdump.rs:9-11 | The hex area always has 16 slots of 3 characters. |
| Hexdump.HexColumnsContent | src/hexdump.rs:9-11 | Characters 3k to 3k+2 of the hex area are the slot of byte i+k. |
| Hexdump.HexColumnsNoNewline | src/hexdump.rs:9-11 | The hex area holds no newline. |
| Hexdump.AsciiColumnsLength | src/hexdump.rs:13-19 | The ASCII column has one character per shown byte, min(16, eff-i) in all. |
| Hexdump.AsciiColumnsContent | src/hexdump.rs:13-19 | The ASCII column has min(16, eff-i) characters, the k-th showing byte i+k. |
| Hexdump.AsciiColumnsNoNewline | src/hexdump.rs:13-19 | The ASCII column holds no newline. |
| Hexdump.OffsetField | src/hexdump.rs:8 | The offset is at least 8 characters and holds no newline. |
| Hexdump.OffsetFieldValue | src/hexdump.rs:8 | The offset field is hex digits whose value is the line's offset. |
| Hexdump.DumpLineParts | src/hexdump.rs:6-21 | A line is laid out as the indent, the offset, `": "`, the 48-character hex area, one space, an ASCII column of min(16, eff-i) characters and `\n`, each at its fixed position. |
| Hexdump.LineList | src/hexdump.rs:5-22 | Line k of the list is the line at offset 16·k. |
| Hexdump.LinesConcat | src/hexdump.rs:5-23 | The dump loop is the concatenation of its lines. |
| Hexdump.DumpLines | src/hexdump.rs:1-25 | The dump is ceil(eff/16) lines at offsets 0, 16, 32, …, concatenated. |
| Hexdump.LineHasOneNewline | src/hexdump.rs:20-21 | Each line holds exactly one newline. |
| Hexdump.DumpNewlines | src/hexdump.rs:5-24 | The dump holds exactly ceil(eff/16) newlines, none when eff = 0. |
| ImageIO.ReadChunks | src/imageio.rs:134-151 | The list ends with the first IEND when it was found and holds no earlier IEND. Without IEND there are no trailing bytes. |
| ImageIO.ReadOneChunk | src/imageio.rs:137-146 | A chunk is a 4-byte big-endian length, the type, the data and a 4-byte CRC. |
| ImageIO.ReadChunksCons | src/imageio.rs:134-151 | A file that starts with an encoded chunk reads as that chunk. After an IEND chunk the rest is returned as trailing bytes; otherwise reading goes on after the chunk. |
| ImageIO.ChunkRoundTrip | src/imageio.rs:134-161 | Encoded chunks, then IEND, then extra bytes, read back as those chunks with IEND included, the flag set and the extra bytes. |
| ImageIO.ParsePngText | src/imageio.rs:213-219 | None exactly when there is no NUL. Otherwise the key is the bytes before the first NUL and the value all bytes after it. |
| ImageIO.PngTextRoundTrip | src/imageio.rs:213-219 | `key\0value` with a NUL-free key parses to (key, value). |
| ImageIO.ParsePngItxtAsWritten | src/imageio.rs:221-230 | As written: None exactly when there are fewer than 3 NULs. The key is the bytes before the first NUL. The value is the fifth NUL-separated field, or empty when there are fewer than five. Both are NUL-free. |
| ImageIO.ItxtAsWrittenReadsTranslatedKeyword | src/imageio.rs:221-230 | With compression flag and method 0, as written the value read is the translated keyword, not the text. |
| ImageIO.ParsePngItxt | src/imageio.rs:221-230 | Corrected: a result is the key and the text of a well-formed iTXt layout of the data. |
| ImageIO.ItxtRoundTrip | src/imageio.rs:221-230 | Corrected: encoding key, flag, method, language, translated keyword and text parses to (key, text). |
| ImageIO.ParsePngZtxt | src/imageio.rs:232-250 | The key is the bytes before the first NUL; the value is the inflation of the bytes after the method byte. |
| ImageIO.MetadataSnocOther | src/imageio.rs:170-183 | A chunk that is not tEXt/iTXt/zTXt leaves the metadata unchanged. |
| ImageIO.Metadata | src/imageio.rs:169-183 | A chunk list with no tEXt, iTXt or zTXt chunk gives an empty map. |
| ImageIO.MetadataSnocText | src/imageio.rs:172-174 | A tEXt chunk sets its key to its value. |
| ImageIO.MetadataSnoc | src/imageio.rs:170-182 | A chunk with an entry (tEXt, iTXt or zTXt that parses) sets its key to its value, overriding an earlier value; any other chunk leaves the map unchanged. |
| ImageIO.MetadataKeepsKey | src/imageio.rs:170-182 | A chunk that sets no entry, or one under another key, leaves a key's value alone. |
| ImageIO.TextEntry | src/imageio.rs:172-174 | A tEXt chunk `key\0value` with a NUL-free key contributes exactly (key, value). |
| ImageIO.MetadataLastWins | src/imageio.rs:169-183 | The entry of any text chunk survives every later chunk that sets no entry under the same key, whatever its type, so the map holds the value of the last chunk naming each key. |
| ImageIO.LoadPng | src/imageio.rs:125-210 | A loaded PNG starts with the signature. It holds at most one non-empty extra segment, and is well-formed when the decoder's buffer is. |
| ImageIO.IdatData | src/imageio.rs:185-191 | Without IDAT chunks the image data is empty. |
| ImageIO.IdatDataAppend | src/imageio.rs:186-191 | The IDAT data of two chunk lists in a row is the first list's followed by the second's. |
| ImageIO.TrailingDataAfterIend | src/imageio.rs:153-161 | Bytes after IEND form exactly one extra segment, none when nothing follows. |
| ImageIO.RowSizeBounds | src/imageio.rs:102-103 | The BMP row size is a multiple of 4, at least w·bpp and less than w·bpp + 4. |
| ImageIO.FlipRows | src/imageio.rs:112-120 | The flip preserves length. |
| ImageIO.FlipRowsCell | src/imageio.rs:114-118 | Row y of the output is input row height-1-y. |
| ImageIO.FlippedIndexInvolution | src/imageio.rs:112-120 | The source offset of the source offset of byte j is j. |
| ImageIO.FlipRowsInvolution | src/imageio.rs:112-120 | Flipping twice gives back the input. |
| ImageIO.OrientRows | src/imageio.rs:94-120 | A bottom-up array is flipped, a top-down one kept. Flipping the result back gives the file's array. |
| ImageIO.PixelArray | src/imageio.rs:99-120 | The array has row_size·height bytes, read from the pixel offset and oriented top-down. |
| ImageIO.ReadBmpPixelData | src/imageio.rs:73-123 | The result needs the `BM` signature. Its size is row_size·height, and it is the array at the header's offset, flipped when the signed height is positive. |
| ImageIO.LoadBmp | src/imageio.rs:51-71 | A BMP has no chunks, metadata or extra data. Its image data is the raw pixel array. |

## Left out

- The BufReader short reads of the chunk loop: a read of 4 bytes is taken to fill whenever 4 bytes remain.
- The CRC of each chunk is read but not checked, as in the source.
- `verbose` is an unbounded integer rather than an `i32`. Limits, offsets and lengths are unbounded rather than `usize`.
- `String::from_utf8_lossy`: text fields stay bytes; titles map bytes to characters one to one.
- A chunk type that is not ASCII is titled `????`, while the source shows a valid multi-byte UTF-8 type as text.
- Printing and terminal state: colours, `show_title`, the `\r` padding, the "nothing :(" line, the extra-data notice and the hex dumps printed in verbose mode. The `need_cr` flag is kept in the state but nothing reads it.
- The `Display` layouts of OneChar, WholeText, PartialText, OpenStego and FileType (colour choices, Rust `{:?}` string escapes).
- `src/main.rs` and `merge_cli_into_options` (src/opts.rs:182-208): command-line plumbing that depends on the `Cli` type of main.rs.
- The `file` subprocess (`src/file_cmd.rs`): a `describe` parameter, with the length guard and ignore list modelled.
- zlib inflation (`flate2`): an `inflate` parameter, used by the zlib detector, zTXt and IDAT.
- `image::open` / `to_rgba8`: a `decode` parameter. File opening, seeking and `load_auto`'s dispatch by extension are not part of this model.
- The order of `HashMap` iteration over metadata: `Check` takes the key order as a parameter, a list of every key exactly once.
- `step`, `ystep`, `strings`, `pixel_align` and `extra_checks` are carried in `Options` but never read by the extractor or checker. The byte walk always steps by 1, as the source does.
- The BMP byte walk assumes 3 bytes per pixel for its stride, as the source does, whatever the bit depth.
- `Hexdump`: the composite facts about one dump line are stated as `DumpLineParts` plus the field lemmas (`OffsetFieldValue`, `HexColumnsContent`, `HexSlotValue`, `AsciiColumnsContent`) rather than as one lemma.
- Where the written description of the tool and the code disagree, the code is followed: for BMP the `all` order set adds only `bY` to the PNG set (src/checker.rs:100-106), not a full set of byte-walk orders.
- Extractor.Extract: the shift step applies the corrected `Shift.ShiftPrependZeroBits`, which puts r zero bits in front. The program runs the backward carry loop of src/extractor.rs:286-296 instead (see Findings), which the model keeps as `Shift.ShiftPrependZeroBitsAsWritten`. So for a shift that is not a multiple of 8, the extraction differs from the program's, and so do `Checker.RunCombo`, `Checker.Sweep` and `Checker.Check`.
- ImageIO.Metadata: iTXt chunks are read with the corrected `ImageIO.ParsePngItxt`, which takes the text after the translated keyword. The program calls the parser as written (src/imageio.rs:175-176, see Findings), kept as `ImageIO.ParsePngItxtAsWritten`. With compression flag and method 0, the program stores the translated keyword where the model stores the text.
- ImageIO.LoadPng: its metadata map comes from `ImageIO.Metadata`, so the same iTXt difference applies to a loaded PNG.

## Findings

| source | as written | input that shows it | evidently intended | confidence | as-written member | corrected member |
|---|---|---|---|---|---|---|
| src/extractor.rs:286-296 | The carry loop runs from the last byte to the first. Each byte receives the low bits of the byte AFTER it, so bits move toward the front. | `[0x01, 0x00]` with shift 1 gives `[0x00, 0x00]` | r zero bits prepended, the tail cut to the same length: `[0x00, 0x80]` | high; not executed | Shift.ShiftPrependZeroBitsAsWritten, Shift.ShiftAsWrittenCarriesBackward | Shift.ShiftPrependZeroBits, Shift.ShiftPrependsZeroBits |
| src/imageio.rs:221-230 | The parser splits on every NUL and takes the fifth field as the text. Flag and method are one byte each, and usually 0, so they add NUL separators. | key `k`, flag 0, method 0, language `en`, translated `t`, text `x`: the value read is `t` | the text after the translated keyword: `x` | high; not executed | ImageIO.ParsePngItxtAsWritten, ImageIO.ItxtAsWrittenReadsTranslatedKeyword | ImageIO.ParsePngItxt, ImageIO.ItxtRoundTrip |
